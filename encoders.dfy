/** The outcome of `ContentEncoder::encode`: the encoded string, or the
    `FailedToEncode` exception the codec throws instead. */
module EncodeResult {
  datatype Encoded = Encoded(content: string) | FailedToEncode
}

/** The gzip codec: accepts the tokens `gzip` and `x-gzip` in any case and wraps
    the content in a gzip member (RFC 1952) through `gzencode`. */
module Gzip {
  import opened Php
  import opened EncodeResult

  const SupportedEncodings: seq<string> := ["gzip", "x-gzip"]

  /** `in_array(strtolower($encoding), SUPPORTED_ENCODINGS)`. The loose `==` of
      `in_array` behaves as `===` here, since neither name is a numeric string. */
  predicate Supports(encoding: string)
  {
    StrToLower(encoding) in SupportedEncodings
  }

  /** `gzencode($content)`, with a falsy result turned into `FailedToEncode`. */
  function Encode(b: Builtins, content: string): (r: Encoded)
    ensures r.Encoded? <==> !IsFalsy(b.gzencode(content))
    ensures r.Encoded? ==> b.gzencode(content) == Str(r.content) && r.content != "" && r.content != "0"
  {
    var encodedContent := b.gzencode(content);
    if IsFalsy(encodedContent) then FailedToEncode else Encoded(encodedContent.s)
  }

  /** Exactly `gzip` and `x-gzip` are supported, whatever their case. */
  lemma SupportsExactly(encoding: string)
    ensures Supports(encoding) <==> StrToLower(encoding) == "gzip" || StrToLower(encoding) == "x-gzip"
  {
  }

  /** Support does not depend on case: a token and its upper- and lower-case
      forms are all supported or all rejected. */
  lemma SupportsIgnoresCase(encoding: string)
    ensures Supports(StrToUpper(encoding)) == Supports(encoding)
    ensures Supports(StrToLower(encoding)) == Supports(encoding)
  {
    StrToLowerForgetsCase(encoding);
  }

  /** A token carrying a parameter (such as `gzip;q=1` or `gzip;q=0`) is never
      supported: no quality value is parsed, the `;` is part of the token. */
  lemma ParameterisedTokenUnsupported(encoding: string)
    requires ';' in encoding
    ensures !Supports(encoding)
  {
    StrToLowerKeepsNonLetter(encoding, ';');
    assert ';' !in "gzip" && ';' !in "x-gzip";
  }

  /** The tokens the tests and the header's common values exercise. */
  lemma SupportsKnownTokens()
    ensures Supports("gzip") && Supports("GZIP") && Supports("x-gzip") && Supports("X-Gzip")
  {
    LowerOf("gzip", "gzip");
    LowerOf("GZIP", "gzip");
    LowerOf("x-gzip", "x-gzip");
    LowerOf("X-Gzip", "x-gzip");
  }

  lemma RejectsOtherTokens()
    ensures !Supports("deflate") && !Supports("br") && !Supports("") && !Supports("gzip;q=1")
  {
    assert |StrToLower("deflate")| == 7 && |StrToLower("br")| == 2 && |StrToLower("")| == 0;
    assert "gzip;q=1"[4] == ';';
    ParameterisedTokenUnsupported("gzip;q=1");
  }

  /** Output shaped as RFC 1952 prescribes for a gzip member: at least a 10-byte
      header and an 8-byte trailer, starting with ID1 = 31, ID2 = 139 and
      CM = 8 (deflate). */
  predicate IsGzipMember(out: StringOrFalse)
  {
    out.Str? && |out.s| >= 18 && out.s[0] == 31 as char && out.s[1] == 139 as char && out.s[2] == 8 as char
  }

  /** When `gzencode` produces a gzip member, which it does for every input
      including the empty string, encoding succeeds with exactly that output. */
  lemma EncodeMemberSucceeds(b: Builtins, content: string)
    requires IsGzipMember(b.gzencode(content))
    ensures Encode(b, content) == Encoded(b.gzencode(content).s)
    ensures Encode(b, content).content != ""
  {
  }
}

/** The deflate codec: accepts the token `deflate` in any case and produces a raw
    deflate stream (RFC 1951) through `gzdeflate`. */
module Deflate {
  import opened Php
  import opened EncodeResult

  const SupportedEncodings: seq<string> := ["deflate"]

  /** `in_array(strtolower($encoding), SUPPORTED_ENCODINGS)`. */
  predicate Supports(encoding: string)
  {
    StrToLower(encoding) in SupportedEncodings
  }

  /** `gzdeflate($content)`, with a falsy result turned into `FailedToEncode`. */
  function Encode(b: Builtins, content: string): (r: Encoded)
    ensures r.Encoded? <==> !IsFalsy(b.gzdeflate(content))
    ensures r.Encoded? ==> b.gzdeflate(content) == Str(r.content) && r.content != "" && r.content != "0"
  {
    var encodedContent := b.gzdeflate(content);
    if IsFalsy(encodedContent) then FailedToEncode else Encoded(encodedContent.s)
  }

  lemma SupportsExactly(encoding: string)
    ensures Supports(encoding) <==> StrToLower(encoding) == "deflate"
  {
  }

  lemma SupportsIgnoresCase(encoding: string)
    ensures Supports(StrToUpper(encoding)) == Supports(encoding)
    ensures Supports(StrToLower(encoding)) == Supports(encoding)
  {
    StrToLowerForgetsCase(encoding);
  }

  lemma ParameterisedTokenUnsupported(encoding: string)
    requires ';' in encoding
    ensures !Supports(encoding)
  {
    StrToLowerKeepsNonLetter(encoding, ';');
    assert ';' !in "deflate";
  }

  lemma SupportsKnownTokens()
    ensures Supports("deflate") && Supports("DEFLATE")
  {
    LowerOf("deflate", "deflate");
    LowerOf("DEFLATE", "deflate");
  }

  lemma RejectsOtherTokens()
    ensures !Supports("gzip") && !Supports("x-gzip") && !Supports("deflate;q=0.5")
  {
    assert !Supports("gzip") by { assert |StrToLower("gzip")| == 4; }
    assert !Supports("x-gzip") by { assert |StrToLower("x-gzip")| == 6; }
    assert !Supports("deflate;q=0.5") by {
      assert "deflate;q=0.5"[7] == ';';
      ParameterisedTokenUnsupported("deflate;q=0.5");
    }
  }

  /** Output shaped as a complete raw deflate stream of RFC 1951: the shortest
      one, a final fixed-Huffman block holding only the end-of-block code, takes
      3 + 7 bits, so every complete stream is at least two bytes long. */
  predicate IsRawDeflateStream(out: StringOrFalse)
  {
    out.Str? && |out.s| >= 2
  }

  /** When `gzdeflate` produces a complete stream, which it does for every input
      including the empty string, encoding succeeds with exactly that output. */
  lemma EncodeStreamSucceeds(b: Builtins, content: string)
    requires IsRawDeflateStream(b.gzdeflate(content))
    ensures Encode(b, content) == Encoded(b.gzdeflate(content).s)
    ensures Encode(b, content).content != ""
  {
  }
}

/** The test-only stub codec: supports exactly one configured token, compared
    case-sensitively, and encodes every input to one configured string. */
module DummyEncoder {
  import opened Php
  import opened EncodeResult

  datatype Dummy = Dummy(encoding: string, encodesTo: string)
  {
    /** `$encoding === $this->encoding`. */
    predicate Supports(e: string)
    {
      e == encoding
    }

    /** Ignores its input and never fails. */
    function Encode(content: string): (r: Encoded)
      ensures r.Encoded? && r.content == encodesTo
    {
      Encoded(encodesTo)
    }
  }

  /** The constructor with its default arguments. */
  function New(encoding: string := "dummy", encodesTo: string := "encoded content"): (d: Dummy)
    ensures d.Supports(encoding)
    ensures d.Encode("").content == encodesTo
  {
    Dummy(encoding, encodesTo)
  }

  /** The defaults: token `dummy`, output `encoded content`. */
  lemma Defaults(e: string, content: string)
    ensures New().Supports(e) <==> e == "dummy"
    ensures New().Encode(content) == Encoded("encoded content")
  {
  }

  /** Unlike the real codecs, the stub compares case-sensitively. */
  lemma SupportsIsCaseSensitive()
    ensures New("gzip").Supports("gzip") && !New("gzip").Supports("GZIP")
  {
    assert "gzip" != "GZIP" by { assert "gzip"[0] != "GZIP"[0]; }
  }
}

/** The `ContentEncoder` interface as a tagged datatype: one variant per
    implementation, with `supports` and `encode` dispatching on the variant. */
module ContentEncoder {
  import opened Php
  import opened EncodeResult
  import GzipCodec = Gzip
  import DeflateCodec = Deflate
  import DummyEncoder

  datatype ContentEncoder = Gzip | Deflate | Dummy(stub: DummyEncoder.Dummy)
  {
    predicate Supports(encoding: string)
    {
      match this
      case Gzip => GzipCodec.Supports(encoding)
      case Deflate => DeflateCodec.Supports(encoding)
      case Dummy(d) => d.Supports(encoding)
    }

    /** Encoding either fails, or yields a string that is truthy unless the stub
        was configured to return a falsy one. */
    function Encode(b: Builtins, content: string): (r: Encoded)
      ensures r.Encoded? && IsFalsyString(r.content) ==> Dummy? && r.content == stub.encodesTo
      ensures Dummy? ==> r.Encoded?
    {
      match this
      case Gzip => GzipCodec.Encode(b, content)
      case Deflate => DeflateCodec.Encode(b, content)
      case Dummy(d) => d.Encode(content)
    }
  }

  /** The two real codecs share no token. */
  lemma RealCodecsDisjoint(encoding: string)
    ensures !(Gzip.Supports(encoding) && Deflate.Supports(encoding))
  {
  }
}
