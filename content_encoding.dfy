/** The `ContentEncoding` middleware: decides whether a response may be encoded,
    negotiates an encoder against the client's `Accept-Encoding` tokens, and on
    success rewrites the response in place. */
module Middleware {
  import opened Php
  import opened EncodeResult
  import opened ContentEncoder
  import opened Http

  /** The tokens of an `Accept-Encoding` value:
      `explode(',', str_replace(' ', '', $acceptEncoding))`. There is at least
      one, none holds a space or a comma, and joined with commas they give back
      the value with its spaces removed. */
  function Tokens(acceptEncoding: string): (tokens: seq<string>)
    ensures |tokens| >= 1
    ensures forall i :: 0 <= i < |tokens| ==> ' ' !in tokens[i] && ',' !in tokens[i]
    ensures Implode(tokens) == RemoveSpaces(acceptEncoding)
  {
    var tokens := Explode(RemoveSpaces(acceptEncoding));
    forall i | 0 <= i < |tokens|
      ensures ' ' !in tokens[i]
    {
      if ' ' in tokens[i] {
        ImplodeKeeps(tokens, i, ' ');
      }
    }
    tokens
  }

  /** Two tokens separated by a comma and a space come out as those two tokens. */
  lemma TokensOfTwo(a: string, c: string)
    requires ' ' !in a && ',' !in a && ' ' !in c && ',' !in c
    ensures Tokens(a + ", " + c) == [a, c]
  {
    assert a + ", " + c == (a + ",") + " " + c;
    assert ' ' !in a + ",";
    RemoveSpacesBetween(a + ",", c);
    assert (a + ",") + c == a + "," + c;
    ExplodePrefix(a, c);
    ExplodeCommaFree(c);
  }

  // ---------------------------------------------------------------------------
  // Encoder negotiation: the first (encoder, token) pair, encoder-major

  /** A candidate answer of `findEncoder`, as positions in the encoder list and
      in the token list. */
  datatype Pick = Pick(encoder: nat, token: nat)

  /** What `findEncoder` returns: the client's token, verbatim, and the encoder. */
  datatype Match = Match(encoding: string, encoder: ContentEncoder)

  /** No encoder supports any token. */
  ghost predicate NoPair(encoders: seq<ContentEncoder>, tokens: seq<string>)
  {
    forall i, j :: 0 <= i < |encoders| && 0 <= j < |tokens| ==> !encoders[i].Supports(tokens[j])
  }

  /** `p` is the pair the nested scan stops at: a supporting pair such that every
      earlier encoder supports no token at all, and the chosen encoder supports
      no earlier token. */
  ghost predicate IsFirstPick(encoders: seq<ContentEncoder>, tokens: seq<string>, p: Pick)
  {
    && p.encoder < |encoders| && p.token < |tokens|
    && encoders[p.encoder].Supports(tokens[p.token])
    && NoPair(encoders[..p.encoder], tokens)
    && forall j :: 0 <= j < p.token ==> !encoders[p.encoder].Supports(tokens[j])
  }

  /** Position of the first token that `encoder` supports (the inner loop). */
  function FirstSupported(encoder: ContentEncoder, tokens: seq<string>): (r: Option<nat>)
    ensures r.Some? ==> r.value < |tokens| && encoder.Supports(tokens[r.value])
    ensures r.Some? ==> forall j :: 0 <= j < r.value ==> !encoder.Supports(tokens[j])
    ensures r.None? ==> forall j :: 0 <= j < |tokens| ==> !encoder.Supports(tokens[j])
  {
    if tokens == [] then None
    else if encoder.Supports(tokens[0]) then Some(0)
    else match FirstSupported(encoder, tokens[1..])
      case None =>
        assert forall j :: 1 <= j < |tokens| ==> tokens[j] == tokens[1..][j - 1];
        None
      case Some(j) =>
        assert forall k :: 1 <= k < |tokens| ==> tokens[k] == tokens[1..][k - 1];
        Some(j + 1)
  }

  /** The pair the nested scan stops at, if any (the outer loop). */
  function FirstPick(encoders: seq<ContentEncoder>, tokens: seq<string>): (r: Option<Pick>)
    ensures r.Some? ==> IsFirstPick(encoders, tokens, r.value)
    ensures r.None? ==> NoPair(encoders, tokens)
  {
    if encoders == [] then None
    else match FirstSupported(encoders[0], tokens)
      case Some(j) =>
        assert encoders[..0] == [];
        Some(Pick(0, j))
      case None =>
        assert forall i :: 1 <= i < |encoders| ==> encoders[i] == encoders[1..][i - 1];
        match FirstPick(encoders[1..], tokens)
        case None => None
        case Some(p) =>
          assert encoders[..p.encoder + 1] == [encoders[0]] + encoders[1..][..p.encoder];
          Some(Pick(p.encoder + 1, p.token))
  }

  /** The scan has exactly one place to stop. */
  lemma FirstPickUnique(encoders: seq<ContentEncoder>, tokens: seq<string>, p: Pick, q: Pick)
    requires IsFirstPick(encoders, tokens, p) && IsFirstPick(encoders, tokens, q)
    ensures p == q
  {
    if p.encoder < q.encoder {
      assert false;
    } else if q.encoder < p.encoder {
      assert false;
    }
  }

  /** A first pair found by any means is the one `FirstPick` returns. */
  lemma FirstPickIs(encoders: seq<ContentEncoder>, tokens: seq<string>, p: Pick)
    requires IsFirstPick(encoders, tokens, p)
    ensures FirstPick(encoders, tokens) == Some(p)
  {
    match FirstPick(encoders, tokens)
    case Some(q) => FirstPickUnique(encoders, tokens, p, q);
    case None =>
  }

  /** `findEncoder` as a function of the encoder list and the tokens. */
  function Negotiate(encoders: seq<ContentEncoder>, tokens: seq<string>): Option<Match>
  {
    match FirstPick(encoders, tokens)
    case None => None
    case Some(p) => Some(Match(tokens[p.token], encoders[p.encoder]))
  }

  /** Negotiation finds nothing exactly when no encoder supports any token, and
      otherwise returns the first supporting pair of the encoder-major scan: the
      token is the client's own, and the encoder supports it. */
  lemma NegotiateFindsFirstPair(encoders: seq<ContentEncoder>, tokens: seq<string>)
    ensures Negotiate(encoders, tokens).None? <==> NoPair(encoders, tokens)
    ensures Negotiate(encoders, tokens).Some? ==>
      exists p :: IsFirstPick(encoders, tokens, p)
        && Negotiate(encoders, tokens).value == Match(tokens[p.token], encoders[p.encoder])
    ensures Negotiate(encoders, tokens).Some? ==>
      var m := Negotiate(encoders, tokens).value;
      m.encoding in tokens && m.encoder in encoders && m.encoder.Supports(m.encoding)
  {
    match FirstPick(encoders, tokens)
    case None =>
    case Some(p) =>
      assert !encoders[p.encoder].Supports(tokens[p.token]) ==> !NoPair(encoders, tokens);
  }

  /** Encoder priority dominates client order: once an encoder supports some
      token, encoders after it are never consulted. */
  lemma NegotiateIgnoresLaterEncoders(encoders: seq<ContentEncoder>, later: seq<ContentEncoder>, tokens: seq<string>)
    requires Negotiate(encoders, tokens).Some?
    ensures Negotiate(encoders + later, tokens) == Negotiate(encoders, tokens)
  {
    var p := FirstPick(encoders, tokens).value;
    var all := encoders + later;
    assert all[..p.encoder] == encoders[..p.encoder];
    assert all[p.encoder] == encoders[p.encoder];
    FirstPickIs(all, tokens, p);
  }

  /** An encoder that supports none of the tokens is passed over. */
  lemma NegotiateSkipsUnusable(e: ContentEncoder, encoders: seq<ContentEncoder>, tokens: seq<string>)
    requires forall j :: 0 <= j < |tokens| ==> !e.Supports(tokens[j])
    ensures Negotiate([e] + encoders, tokens) == Negotiate(encoders, tokens)
  {
    assert ([e] + encoders)[1..] == encoders;
  }

  /** The first encoder that supports any token wins, paired with the first
      token, in client order, that it supports. */
  lemma NegotiateFirstUsable(e: ContentEncoder, encoders: seq<ContentEncoder>, tokens: seq<string>, j: nat)
    requires j < |tokens| && e.Supports(tokens[j])
    requires forall k :: 0 <= k < j ==> !e.Supports(tokens[k])
    ensures Negotiate([e] + encoders, tokens) == Some(Match(tokens[j], e))
  {
    assert ([e] + encoders)[..0] == [];
    FirstPickIs([e] + encoders, tokens, Pick(0, j));
  }

  // ---------------------------------------------------------------------------
  // The middleware

  /** The middleware instance: its three readonly constructor arguments. */
  datatype ContentEncoding = ContentEncoding(
    encodeUnknownType: bool,
    types: seq<string>,
    encoders: seq<ContentEncoder>)
  {
    /** Content-type eligibility: an absent type is eligible exactly when
        `encodeUnknownType` is set; a present one exactly when some allowed
        pattern matches it, `preg_match` returning 1. */
    predicate Encodable(b: Builtins, contentType: Option<string>)
    {
      if contentType.None? then encodeUnknownType
      else exists i :: 0 <= i < |types| && b.pregMatch(types[i], contentType.value) == One
    }

    /** `isEncodable`: the `foreach` over the allowed patterns. */
    method IsEncodable(b: Builtins, contentType: Option<string>) returns (r: bool)
      ensures r == Encodable(b, contentType)
    {
      if contentType.None? {
        return encodeUnknownType;
      }
      for i := 0 to |types|
        invariant forall k :: 0 <= k < i ==> b.pregMatch(types[k], contentType.value) != One
      {
        if b.pregMatch(types[i], contentType.value) == One {
          return true;
        }
      }
      return false;
    }

    /** `findEncoder`: split the header into tokens, then the nested `foreach`,
        encoders outside and tokens inside. */
    method FindEncoder(acceptEncoding: string) returns (r: Option<Match>)
      ensures r == Negotiate(encoders, Tokens(acceptEncoding))
    {
      var acceptEncodings := Explode(RemoveSpaces(acceptEncoding));
      assert acceptEncodings == Tokens(acceptEncoding);
      for i := 0 to |encoders|
        invariant NoPair(encoders[..i], acceptEncodings)
      {
        for j := 0 to |acceptEncodings|
          invariant forall k :: 0 <= k < j ==> !encoders[i].Supports(acceptEncodings[k])
        {
          if encoders[i].Supports(acceptEncodings[j]) {
            FirstPickIs(encoders, acceptEncodings, Pick(i, j));
            return Some(Match(acceptEncodings[j], encoders[i]));
          }
        }
        assert encoders[..i + 1] == encoders[..i] + [encoders[i]];
      }
      assert encoders[..|encoders|] == encoders;
      return None;
    }

    /** The guard chain of `handle`: a truthy body, no `Content-Encoding` yet,
        an `Accept-Encoding` header, and an eligible request `Content-Type`. */
    predicate Eligible(b: Builtins, request: Request, response: ResponseView)
    {
      && !IsFalsyString(response.content)
      && ContentEncodingHeader !in response.headers
      && request.Header(AcceptEncodingHeader).Some?
      && Encodable(b, request.Header(ContentTypeHeader))
    }

    /** The encoder chosen for an eligible request. */
    function Chosen(request: Request): Option<Match>
      requires request.Header(AcceptEncodingHeader).Some?
    {
      Negotiate(encoders, Tokens(request.Header(AcceptEncodingHeader).value))
    }

    /** The response `handle` leaves behind, as a function of the response it
        was given. */
    function Handled(b: Builtins, request: Request, response: ResponseView): ResponseView
    {
      if !Eligible(b, request, response) then response
      else match Chosen(request)
        case None => response
        case Some(m) =>
          match m.encoder.Encode(b, response.content)
          case FailedToEncode => response
          case Encoded(c) => ResponseView(c, response.headers[ContentEncodingHeader := m.encoding])
    }

    /** `handle`, given the response that `$next` produced. */
    method Handle(b: Builtins, request: Request, response: Response) returns (r: Response)
      modifies response
      ensures r == response
      ensures response.View() == Handled(b, request, old(response.View()))
    {
      r := response;
      if IsFalsyString(response.content)
        || response.HasHeader(ContentEncodingHeader)
        || request.Header(AcceptEncodingHeader).None?
      {
        return;
      }
      var encodable := IsEncodable(b, request.Header(ContentTypeHeader));
      if !encodable {
        return;
      }

      var found := FindEncoder(request.Header(AcceptEncodingHeader).value);
      if found.None? {
        return;
      }

      var encoded := found.value.encoder.Encode(b, response.content);
      if encoded.FailedToEncode? {
        return;
      }

      response.SetHeader(ContentEncodingHeader, found.value.encoding);
      response.SetContent(encoded.content);
    }

    // -------------------------------------------------------------------------
    // Properties of handle

    /** A falsy body ("" or "0") is returned untouched. */
    lemma FalsyContentUntouched(b: Builtins, request: Request, response: ResponseView)
      requires IsFalsyString(response.content)
      ensures Handled(b, request, response) == response
    {
    }

    /** A response that already has `Content-Encoding` is returned untouched,
        whatever the request's headers say. */
    lemma EncodedResponseUntouched(b: Builtins, request: Request, response: ResponseView)
      requires ContentEncodingHeader in response.headers
      ensures Handled(b, request, response) == response
    {
    }

    /** Without `Accept-Encoding` the response is untouched. */
    lemma NoAcceptEncodingUntouched(b: Builtins, request: Request, response: ResponseView)
      requires AcceptEncodingHeader !in request.headers
      ensures Handled(b, request, response) == response
    {
    }

    /** Without `Content-Type`, eligibility is `encodeUnknownType`. */
    lemma UnknownTypePolicy(b: Builtins, request: Request, response: ResponseView)
      requires ContentTypeHeader !in request.headers
      ensures Encodable(b, request.Header(ContentTypeHeader)) == encodeUnknownType
      ensures !encodeUnknownType ==> Handled(b, request, response) == response
    {
    }

    /** With `Content-Type` present and no allowed pattern matching it, the
        response is untouched; in particular an empty allow-list never encodes. */
    lemma DisallowedTypeUntouched(b: Builtins, request: Request, response: ResponseView)
      requires ContentTypeHeader in request.headers
      requires forall i :: 0 <= i < |types| ==> b.pregMatch(types[i], request.headers[ContentTypeHeader]) != One
      ensures Handled(b, request, response) == response
    {
    }

    /** A failing encoder leaves the response untouched: no header, same body. */
    lemma EncodeFailureUntouched(b: Builtins, request: Request, response: ResponseView)
      requires Eligible(b, request, response) && Chosen(request).Some?
      requires Chosen(request).value.encoder.Encode(b, response.content).FailedToEncode?
      ensures Handled(b, request, response) == response
    {
    }

    /** When every guard holds, an encoder is found and it succeeds, the body is
        the encoder's output and `Content-Encoding` holds the matching token. */
    lemma EncodedWith(b: Builtins, request: Request, response: ResponseView, m: Match, c: string)
      requires Eligible(b, request, response) && Chosen(request) == Some(m)
      requires m.encoder.Encode(b, response.content) == Encoded(c)
      ensures Handled(b, request, response) == ResponseView(c, response.headers[ContentEncodingHeader := m.encoding])
    {
    }

    /** `handle` changes the response exactly when every guard holds, an encoder
        is found and it succeeds. Then the change is exactly this: the body is
        the encoder's output, `Content-Encoding` is added holding the client's
        matching token verbatim, and no other header is added, removed or
        altered. */
    lemma HandledChangesOnlyEncoding(b: Builtins, request: Request, response: ResponseView)
      ensures
        var r := Handled(b, request, response);
        r != response <==>
          && Eligible(b, request, response) && Chosen(request).Some?
          && Chosen(request).value.encoder.Encode(b, response.content).Encoded?
      ensures
        var r := Handled(b, request, response);
        r != response ==>
          && ContentEncodingHeader !in response.headers
          && r.headers.Keys == response.headers.Keys + {ContentEncodingHeader}
          && (forall h :: h in response.headers ==> r.headers[h] == response.headers[h])
          && r.headers[ContentEncodingHeader] in Tokens(request.headers[AcceptEncodingHeader])
          && r.content == Chosen(request).value.encoder.Encode(b, response.content).content
    {
      var r := Handled(b, request, response);
      if Eligible(b, request, response) && Chosen(request).Some? {
        var m := Chosen(request).value;
        NegotiateFindsFirstPair(encoders, Tokens(request.headers[AcceptEncodingHeader]));
        if m.encoder.Encode(b, response.content).Encoded? {
          assert ContentEncodingHeader in r.headers && ContentEncodingHeader !in response.headers;
        }
      }
    }
  }
}
