# Content-encoding middleware, modelled in Dafny

This project models the response-compression middleware of the Laravel package
`laravel-content-encoding`. `ContentEncoding::handle` receives the response built
by the rest of the application and compresses its body. It does so only when all
of these hold:

- the body is truthy;
- the response carries no `Content-Encoding` yet;
- the request has an `Accept-Encoding` header;
- the request's `Content-Type` is allowed.

It splits `Accept-Encoding` into tokens. It then scans the configured encoders in
order and, for each encoder, the tokens in client order. The first supported pair
wins. On success it writes that token, verbatim, into `Content-Encoding` and
replaces the body. When no pair is found, or the encoder throws `FailedToEncode`,
the response is returned untouched. The codecs are modelled too: `Gzip`
(`gzip`, `x-gzip`, any case; RFC 1952 output), `Deflate` (`deflate`, any case;
RFC 1951 raw output) and the test stub `DummyEncoder` (exact match, constant output).

Files:

- `php.dfy` (module `Php`) holds the PHP semantics the code relies on:
  - falsy strings (`""` and `"0"`);
  - byte-wise ASCII `strtolower`;
  - `str_replace(' ', '', …)`;
  - `explode(',', …)` with its inverse `implode`.

  It also holds the foreign built-ins `preg_match`, `gzencode` and `gzdeflate`,
  as fields of an uninterpreted `Builtins` value.
- `encoders.dfy` holds the modules `EncodeResult`, `Gzip`, `Deflate` and
  `DummyEncoder`. It also holds `ContentEncoder`, the interface as a tagged
  datatype with `Supports` and `Encode`. `FailedToEncode` is a failure variant
  of `Encoded`.
- `http.dfy` (module `Http`) models the request as a header map and the response
  as a class whose body and header map are updated in place.
- `content_encoding.dfy` (module `Middleware`) holds:
  - the tokenizer `Tokens`;
  - the negotiation specification (`FirstSupported`, `FirstPick`, `Negotiate`)
    with its characterisation as the first pair of an encoder-major scan;
  - the middleware as a datatype of its three readonly constructor arguments.

  In that datatype, `IsEncodable` and `FindEncoder` are the source's `foreach`
  loops, proved equal to `Encodable` and `Negotiate`. `Handle` mutates the
  response and is proved to leave it equal to `Handled` of the old response.
  The lemmas state what `handle` promises.
- `scenarios.dfy` (module `Scenarios`) proves concrete runs of `handle`:
  - `TokensOfGzip`, `PlainTextEncoded`, `PrioritisesEncodersByOrderGiven`,
    `AcceptedButNotSupported`, `AllowedTypeEncoded` and
    `EmptyAllowListNeverEncodes` replay cases of tests/ContentEncodingTest.php;
  - `TokensOfList`, `EncoderOrderBeatsClientOrder`,
    `DeflateNegotiatedFromSecondToken` and `DeflateChosenFromSecondToken` come
    from no test. They follow the code: the tokenizer and the encoder-major scan
    (src/ContentEncoding.php:82-90), and the configuration's rule that the order
    of the encoders decides priority (config/content-encoding.php:42).

`isEncodable` is given the request's `Content-Type` (src/ContentEncoding.php:43),
not the response's. Without that header, eligibility falls back to
`encodeUnknownType`. The model reads the same request header.

## Model

| member | source | states |
|---|---|---|
| Php.IsFalsyString | src/ContentEncoding.php:40 | `!$response->getContent()`: a body is falsy exactly when it is `""` or `"0"` |
| Php.IsFalsy | src/Encoder/Gzip.php:25 | `!$encodedContent` for a value that is a string or `false`: `false`, `""` and `"0"` are falsy, every other string is truthy |
| Php.StrToLower | src/Encoder/Gzip.php:18 | `strtolower` keeps the length and maps each byte through ASCII lower-casing |
| Php.StrToLowerForgetsCase | src/Encoder/Gzip.php:18 | lower-casing an upper-cased string gives the same lower-case form, and lower-casing is idempotent |
| Php.StrToLowerKeepsNonLetter | src/Encoder/Gzip.php:18 | a non-letter such as `;` occurs in the lower-cased token exactly when it occurs in the token |
| Php.RemoveSpaces | src/ContentEncoding.php:82 | `str_replace(' ', '', …)` leaves no space behind and never lengthens the string |
| Php.RemoveSpacesKeepsOthers | src/ContentEncoding.php:82 | only spaces are deleted: every other character keeps its number of occurrences |
| Php.RemoveSpacesConcat | src/ContentEncoding.php:82 | removing spaces keeps the order of the rest, since it distributes over concatenation |
| Php.RemoveSpacesIdentity | src/ContentEncoding.php:82 | a space-free string is unchanged |
| Php.RemoveSpacesBetween | src/ContentEncoding.php:82 | one space between two space-free parts vanishes, as in `gzip, deflate` |
| Php.Explode | src/ContentEncoding.php:82 | `explode(',', s)` yields at least one piece and no piece holds a comma; joining the pieces with commas gives `s` back |
| Php.ExplodeImplode | src/ContentEncoding.php:82 | the other half of the round trip: comma-free pieces, joined and exploded, come back unchanged |
| Php.ExplodeCommaFree | src/ContentEncoding.php:82 | a comma-free header value is a single token |
| Php.ExplodePrefix | src/ContentEncoding.php:82 | exploding `w,t` gives `w` followed by the pieces of `t`, in client order |
| Gzip.Supports | src/Encoder/Gzip.php:16-19 | a token is supported when its ASCII lower-case form is in the list `gzip`, `x-gzip` (the consequences are the lemmas below) |
| Gzip.Encode | src/Encoder/Gzip.php:21-30 | fails exactly when `gzencode`'s result is falsy; on success returns that result, which is neither `""` nor `"0"` |
| Gzip.SupportsExactly | src/Encoder/Gzip.php:11-19 | supports a token if and only if its lower-case form is `gzip` or `x-gzip` |
| Gzip.SupportsIgnoresCase | src/Encoder/Gzip.php:16-19 | support is the same for a token and for its upper- and lower-case forms |
| Gzip.ParameterisedTokenUnsupported | src/Encoder/Gzip.php:16-19 | a token holding `;` (such as `gzip;q=0`) is never supported |
| Gzip.SupportsKnownTokens | tests/Encoder/GzipTest.php:17-21 | `gzip`, `GZIP`, `x-gzip` and `X-Gzip` are supported |
| Gzip.RejectsOtherTokens | src/Encoder/Gzip.php:11-19 | `deflate`, `br`, the empty token and `gzip;q=1` are not supported |
| Gzip.EncodeMemberSucceeds | tests/Encoder/GzipTest.php:23-38 | when `gzencode` returns an RFC 1952 member (as it does even for `""`), `encode` returns exactly that output, which is non-empty |
| Deflate.Supports | src/Encoder/Deflate.php:15-18 | a token is supported when its ASCII lower-case form is in the list `deflate` |
| Deflate.Encode | src/Encoder/Deflate.php:20-29 | fails exactly when `gzdeflate`'s result is falsy; on success returns that result, which is neither `""` nor `"0"` |
| Deflate.SupportsExactly | src/Encoder/Deflate.php:11-18 | supports a token if and only if its lower-case form is `deflate` |
| Deflate.SupportsIgnoresCase | src/Encoder/Deflate.php:15-18 | support is the same for a token and for its upper- and lower-case forms |
| Deflate.ParameterisedTokenUnsupported | src/Encoder/Deflate.php:15-18 | a token holding `;` is never supported |
| Deflate.SupportsKnownTokens | tests/Encoder/DeflateTest.php:18-22 | `deflate` and `DEFLATE` are supported |
| Deflate.RejectsOtherTokens | src/Encoder/Deflate.php:11-18 | `gzip`, `x-gzip` and `deflate;q=0.5` are not supported |
| Deflate.EncodeStreamSucceeds | tests/Encoder/DeflateTest.php:24-39 | when `gzdeflate` returns a complete RFC 1951 stream (as it does even for `""`), `encode` returns exactly that output, which is non-empty |
| DummyEncoder.Dummy.Supports | tests/Fixtures/DummyEncoder.php:17-20 | a token is supported exactly when it equals the configured encoding, with no case folding |
| DummyEncoder.Dummy.Encode | tests/Fixtures/DummyEncoder.php:22-25 | never fails and returns `encodesTo` whatever the input |
| DummyEncoder.New | tests/Fixtures/DummyEncoder.php:11-15 | a stub supports the encoding it was built with and encodes to the configured output |
| DummyEncoder.Defaults | tests/Fixtures/DummyEncoder.php:11-14 | the default stub supports exactly `dummy` and encodes everything to `encoded content` |
| DummyEncoder.SupportsIsCaseSensitive | tests/Fixtures/DummyEncoder.php:19 | the stub supports the token it is given, and the comparison is case-sensitive (`GZIP` is refused) |
| ContentEncoder.ContentEncoder.Supports | src/Encoder/ContentEncoder.php:9 | `supports` dispatches to the implementation the value stands for: gzip, deflate or the stub |
| ContentEncoder.ContentEncoder.Encode | src/Encoder/ContentEncoder.php:7-12 | a successful encode is truthy unless it comes from a stub configured with a falsy output; the stub never fails |
| ContentEncoder.RealCodecsDisjoint | src/Encoder/Gzip.php:11-19 | no token is supported by both gzip and deflate, whose list is at src/Encoder/Deflate.php:11-13 |
| Middleware.Tokens | src/ContentEncoding.php:82 | there is at least one token, no token holds a space or a comma, and the tokens joined with commas give back the header without spaces |
| Middleware.TokensOfTwo | src/ContentEncoding.php:82 | `a, c` splits into the tokens `a` and `c` |
| Middleware.FirstSupported | src/ContentEncoding.php:85-89 | the inner scan returns the first token position the encoder supports, or nothing if it supports none |
| Middleware.FirstPick | src/ContentEncoding.php:84-92 | the outer scan returns the encoder-major first supporting pair, or nothing if no pair exists |
| Middleware.FirstPickUnique | src/ContentEncoding.php:84-90 | only one pair satisfies the first-pair conditions |
| Middleware.FirstPickIs | src/ContentEncoding.php:84-90 | any pair meeting the first-pair conditions is the one the scan returns |
| Middleware.Negotiate | src/ContentEncoding.php:80-93 | `findEncoder` as a function: the client's token and the encoder at the first pair of the encoder-major scan, or nothing; its properties are the lemmas that follow |
| Middleware.NegotiateFindsFirstPair | src/ContentEncoding.php:84-92 | no encoder is found exactly when no encoder supports any token; otherwise the result is the first pair, its token is one of the client's tokens verbatim, and its encoder supports it |
| Middleware.NegotiateIgnoresLaterEncoders | src/ContentEncoding.php:84-90 | once an encoder matches, encoders appended after the list are never consulted |
| Middleware.NegotiateSkipsUnusable | src/ContentEncoding.php:84-90 | an encoder that supports no token is passed over |
| Middleware.NegotiateFirstUsable | src/ContentEncoding.php:84-90 | an encoder placed first that supports some token wins, with the first token in client order that it supports |
| Middleware.ContentEncoding.Encodable | src/ContentEncoding.php:64-77 | eligibility of a content type: with no type, `encodeUnknownType`; with one, some allowed pattern for which `preg_match` returns exactly 1 |
| Middleware.ContentEncoding.IsEncodable | src/ContentEncoding.php:64-77 | no content type gives `encodeUnknownType`; otherwise eligible exactly when some allowed pattern's `preg_match` returns 1 |
| Middleware.ContentEncoding.FindEncoder | src/ContentEncoding.php:80-93 | the nested loops return exactly the negotiated (token, encoder) pair for the split header |
| Middleware.ContentEncoding.Eligible | src/ContentEncoding.php:39-44 | the guard chain: a truthy body, no `Content-Encoding` yet, an `Accept-Encoding` header and an eligible request `Content-Type` |
| Middleware.ContentEncoding.Handled | src/ContentEncoding.php:34-62 | the response `handle` leaves: unchanged unless eligible, an encoder is found and it succeeds; then the encoder's output with `Content-Encoding` set to the matched token |
| Middleware.ContentEncoding.Handle | src/ContentEncoding.php:34-62 | returns the response it was given, updated in place to exactly `Handled` of its old state |
| Middleware.ContentEncoding.FalsyContentUntouched | src/ContentEncoding.php:39-45 | a body of `""` or `"0"` leaves the response unchanged |
| Middleware.ContentEncoding.EncodedResponseUntouched | src/ContentEncoding.php:39-45 | a response that already has `Content-Encoding` is unchanged, whatever the request says |
| Middleware.ContentEncoding.NoAcceptEncodingUntouched | src/ContentEncoding.php:39-45 | without `Accept-Encoding` the response is unchanged |
| Middleware.ContentEncoding.UnknownTypePolicy | src/ContentEncoding.php:64-68 | without `Content-Type`, eligibility equals `encodeUnknownType`; when that flag is off the response is unchanged |
| Middleware.ContentEncoding.DisallowedTypeUntouched | src/ContentEncoding.php:70-76 | a `Content-Type` that no allowed pattern matches leaves the response unchanged |
| Middleware.ContentEncoding.EncodeFailureUntouched | src/ContentEncoding.php:53-57 | when the chosen encoder fails, the response is unchanged and no header is added |
| Middleware.ContentEncoding.EncodedWith | src/ContentEncoding.php:59-61 | on success the body is the encoder's output and `Content-Encoding` is set to the matched token |
| Middleware.ContentEncoding.HandledChangesOnlyEncoding | src/ContentEncoding.php:39-61 | the response changes if and only if every guard holds, an encoder is found and it succeeds. Then exactly one header, `Content-Encoding`, is added, holding a client token; every other header is kept and the body is the encoder's output |
| Http.Response.SetHeader | src/ContentEncoding.php:59 | sets one header and changes neither the body nor any other header |
| Http.Response.SetContent | src/ContentEncoding.php:60 | replaces the body and keeps the headers |
| Scenarios.TokensOfGzip | tests/ContentEncodingTest.php:279 | `gzip` is the single token `gzip` |
| Scenarios.TokensOfList | src/ContentEncoding.php:82 | `gzip, deflate` gives the tokens `gzip` and `deflate` |
| Scenarios.PlainTextEncoded | tests/ContentEncodingTest.php:272-286 | with the tests' request and response, whichever stub negotiation picks encodes the body |
| Scenarios.PrioritisesEncodersByOrderGiven | tests/ContentEncodingTest.php:237-286 | with each of the four tested encoder lists, the first stub that supports `gzip` encodes the body |
| Scenarios.AcceptedButNotSupported | tests/ContentEncodingTest.php:97-107 | `gzip` accepted but only a `deflate` stub configured leaves the response unchanged |
| Scenarios.AllowedTypeEncoded | tests/ContentEncodingTest.php:175-182 | a request type matched by the single allowed pattern is encoded |
| Scenarios.EmptyAllowListNeverEncodes | tests/ContentEncodingTest.php:206-210 | an empty allow-list never encodes a request that has a `Content-Type` |
| Scenarios.EncoderOrderBeatsClientOrder | src/ContentEncoding.php:84-90 | with tokens `deflate,gzip`, a `gzip` encoder listed first beats a `deflate` encoder listed second |
| Scenarios.DeflateNegotiatedFromSecondToken | src/ContentEncoding.php:84-90 | the deflate codec alone, offered `gzip` then `deflate`, matches the second token |
| Scenarios.DeflateChosenFromSecondToken | src/ContentEncoding.php:48-61 | with no `Content-Type` and unknown types allowed, `gzip, deflate` against the deflate codec gives the `gzdeflate` output and `Content-Encoding: deflate` |

## Left out

- The compression algorithms behind `gzencode` and `gzdeflate` are zlib foreign
  calls. They are uninterpreted functions returning `string|false`. Facts about
  their output (the RFC 1952 header, the minimal RFC 1951 stream) appear only as
  hypotheses of the lemmas that need them.
- Regular-expression semantics of `preg_match` are not modelled. It is an
  uninterpreted function from (pattern, content type) to `1`, `0` or `false`.
  The default patterns of config/content-encoding.php are configuration data.
- Header names are exact map keys. The case-insensitive lookup and the
  multi-valued storage of Symfony's `HeaderBag` are not modelled. Neither is a
  request header that reads as an array instead of a string.
- `Response::getContent()` returning `false` (streamed responses) is not
  modelled: the body is always a string.
- The `$next` closure is not modelled. `Handle` receives the response it would
  have produced.
- The constructor's variadic type checks (src/ContentEncoding.php:27-28) are
  not modelled: Dafny's types already enforce them.
- src/ServiceProvider.php and config/content-encoding.php are container wiring
  and configuration publishing. They are not part of this model.
- `strtolower` is modelled as ASCII-only lower-casing of single bytes. This is
  PHP 8.2's behaviour; locale-dependent lower-casing is not modelled.
- The loose `==` of `in_array` is modelled as string equality. This is exact
  here, because none of the supported names is a numeric string.
- PHP strings are byte strings; the model uses Dafny's `string`, a sequence of
  characters, and stands for compressor output as characters 0 to 255 (so
  `IsGzipMember` compares with `31 as char` and the like). Only ASCII matters
  to the middleware's logic, so nothing here depends on the difference.
