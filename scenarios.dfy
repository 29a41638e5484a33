/** Concrete runs of `handle`, each proved from the model. Some replay the
    middleware's own test cases; the others follow the encoder-major scan of
    src/ContentEncoding.php:82-90 and the configuration's rule that the order of
    the encoders decides which encoding takes priority. */
module Scenarios {
  import opened Php
  import opened EncodeResult
  import opened ContentEncoder
  import opened Http
  import opened Middleware
  import DummyEncoder
  import Deflate

  function Stub(encoding: string, encodesTo: string): ContentEncoder
  {
    Dummy(DummyEncoder.New(encoding, encodesTo))
  }

  lemma TokensOfGzip()
    ensures Tokens("gzip") == ["gzip"]
  {
    RemoveSpacesIdentity("gzip");
    ExplodeCommaFree("gzip");
  }

  lemma TokensOfList()
    ensures Tokens("gzip, deflate") == ["gzip", "deflate"]
  {
    assert "gzip, deflate" == "gzip" + ", " + "deflate";
    TokensOfTwo("gzip", "deflate");
  }

  /** `handle` on the tests' request (`Accept-Encoding: gzip`, no
      `Content-Type`) and response (`plain text`, no header), with unknown
      types allowed, encodes with whichever stub negotiation picks. */
  lemma PlainTextEncoded(b: Builtins, encoders: seq<ContentEncoder>, out: string)
    requires Negotiate(encoders, ["gzip"]) == Some(Match("gzip", Stub("gzip", out)))
    ensures ContentEncoding(true, ["#.*#"], encoders).Handled(
              b, Request(map[AcceptEncodingHeader := "gzip"]), ResponseView("plain text", map[]))
         == ResponseView(out, map[ContentEncodingHeader := "gzip"])
  {
    TokensOfGzip();
    var request := Request(map[AcceptEncodingHeader := "gzip"]);
    assert request.Header(AcceptEncodingHeader) == Some("gzip");
    assert request.Header(ContentTypeHeader) == None by {
      assert ContentTypeHeader != AcceptEncodingHeader;
    }
    assert !IsFalsyString("plain text") by {
      assert |"plain text"| == 10;
    }
  }

  /** The four encoder lists of the priority test: in each, the first stub that
      supports `gzip` encodes the body. */
  lemma PrioritisesEncodersByOrderGiven(b: Builtins)
    ensures
      var first := Stub("gzip", "encoded by first useable encoder");
      var second := Stub("gzip", "encoded by second useable encoder");
      var unusable := Stub("deflate", "encoded by unusable encoder");
      var expected := ResponseView("encoded by first useable encoder", map[ContentEncodingHeader := "gzip"]);
      var request := Request(map[AcceptEncodingHeader := "gzip"]);
      var response := ResponseView("plain text", map[]);
      && ContentEncoding(true, ["#.*#"], [first, second]).Handled(b, request, response) == expected
      && ContentEncoding(true, ["#.*#"], [first, unusable]).Handled(b, request, response) == expected
      && ContentEncoding(true, ["#.*#"], [unusable, first]).Handled(b, request, response) == expected
      && ContentEncoding(true, ["#.*#"], [unusable, first, second]).Handled(b, request, response) == expected
  {
    var first := Stub("gzip", "encoded by first useable encoder");
    var second := Stub("gzip", "encoded by second useable encoder");
    var unusable := Stub("deflate", "encoded by unusable encoder");
    var out := "encoded by first useable encoder";
    var tokens := ["gzip"];
    assert !unusable.Supports("gzip") by { assert "deflate"[0] != "gzip"[0]; }
    NegotiateFirstUsable(first, [second], tokens, 0);
    PlainTextEncoded(b, [first, second], out);
    NegotiateFirstUsable(first, [unusable], tokens, 0);
    PlainTextEncoded(b, [first, unusable], out);
    NegotiateFirstUsable(first, [], tokens, 0);
    NegotiateSkipsUnusable(unusable, [first], tokens);
    PlainTextEncoded(b, [unusable, first], out);
    NegotiateFirstUsable(first, [second], tokens, 0);
    NegotiateSkipsUnusable(unusable, [first, second], tokens);
    PlainTextEncoded(b, [unusable, first, second], out);
  }

  /** `gzip` accepted but only a `deflate` stub configured: nothing to negotiate,
      the response comes back as it was. */
  lemma AcceptedButNotSupported(b: Builtins, unknownType: bool)
    ensures
      var response := ResponseView("plain text", map[]);
      ContentEncoding(unknownType, ["#.*#"], [Stub("deflate", "encoded content")]).Handled(
        b, Request(map[AcceptEncodingHeader := "gzip", ContentTypeHeader := "text/html"]), response)
      == response
  {
    var mw := ContentEncoding(unknownType, ["#.*#"], [Stub("deflate", "encoded content")]);
    var request := Request(map[AcceptEncodingHeader := "gzip", ContentTypeHeader := "text/html"]);
    var response := ResponseView("plain text", map[]);
    assert request.Header(AcceptEncodingHeader) == Some("gzip");
    TokensOfGzip();
    assert !Stub("deflate", "encoded content").Supports("gzip") by { assert "deflate"[0] != "gzip"[0]; }
    NegotiateSkipsUnusable(Stub("deflate", "encoded content"), [], ["gzip"]);
    assert [Stub("deflate", "encoded content")] + [] == [Stub("deflate", "encoded content")];
    assert mw.Chosen(request) == None;
  }

  /** A `Content-Type` that an allowed pattern matches is encoded. */
  lemma AllowedTypeEncoded(b: Builtins)
    requires b.pregMatch("#^text\\/html$#", "text/html") == One
    ensures
      ContentEncoding(false, ["#^text\\/html$#"], [Stub("gzip", "encoded content")]).Handled(
        b, Request(map[AcceptEncodingHeader := "gzip", ContentTypeHeader := "text/html"]),
        ResponseView("plain text", map[]))
      == ResponseView("encoded content", map[ContentEncodingHeader := "gzip"])
  {
    var gzip := Stub("gzip", "encoded content");
    var mw := ContentEncoding(false, ["#^text\\/html$#"], [gzip]);
    var request := Request(map[AcceptEncodingHeader := "gzip", ContentTypeHeader := "text/html"]);
    var response := ResponseView("plain text", map[]);
    assert request.Header(AcceptEncodingHeader) == Some("gzip");
    assert request.Header(ContentTypeHeader) == Some("text/html");
    assert mw.Encodable(b, Some("text/html")) by {
      assert mw.types[0] == "#^text\\/html$#";
    }
    assert !IsFalsyString("plain text") by {
      assert |"plain text"| == 10;
    }
    TokensOfGzip();
    NegotiateFirstUsable(gzip, [], ["gzip"], 0);
    assert [gzip] + [] == [gzip];
    mw.EncodedWith(b, request, response, Match("gzip", gzip), "encoded content");
  }

  /** An allow-list with no pattern never lets a typed request be encoded. */
  lemma EmptyAllowListNeverEncodes(b: Builtins, request: Request, response: ResponseView, encoders: seq<ContentEncoder>)
    requires ContentTypeHeader in request.headers
    ensures ContentEncoding(false, [], encoders).Handled(b, request, response) == response
  {
    ContentEncoding(false, [], encoders).DisallowedTypeUntouched(b, request, response);
  }

  /** Encoder priority beats client order: with tokens `deflate,gzip`, an encoder
      for `gzip` listed first wins over one for `deflate` listed second. */
  lemma EncoderOrderBeatsClientOrder(b: Builtins)
    ensures
      var a := Stub("gzip", "by a");
      Negotiate([a, Stub("deflate", "by b")], ["deflate", "gzip"]) == Some(Match("gzip", a))
  {
    var a := Stub("gzip", "by a");
    assert !a.Supports("deflate") by { assert "deflate" != "gzip"; }
    NegotiateFirstUsable(a, [Stub("deflate", "by b")], ["deflate", "gzip"], 1);
  }

  /** With only the deflate codec configured, `gzip, deflate` settles on the
      second token, `deflate`. */
  lemma DeflateNegotiatedFromSecondToken()
    ensures Negotiate([ContentEncoder.Deflate], ["gzip", "deflate"]) == Some(Match("deflate", ContentEncoder.Deflate))
  {
    var tokens := ["gzip", "deflate"];
    assert !ContentEncoder.Deflate.Supports(tokens[0]) by {
      assert |StrToLower("gzip")| == 4;
    }
    assert ContentEncoder.Deflate.Supports(tokens[1]) by {
      Deflate.SupportsKnownTokens();
    }
    NegotiateFirstUsable(ContentEncoder.Deflate, [], tokens, 1);
    assert [ContentEncoder.Deflate] + [] == [ContentEncoder.Deflate];
  }

  /** With no `Content-Type`, unknown types allowed and only the deflate codec
      configured, `gzip, deflate` encodes the body with `gzdeflate` and the
      header reads `deflate`. */
  lemma DeflateChosenFromSecondToken(b: Builtins)
    requires Deflate.IsRawDeflateStream(b.gzdeflate("hello"))
    ensures ContentEncoding(true, ["#.*#"], [ContentEncoder.Deflate]).Handled(
              b, Request(map[AcceptEncodingHeader := "gzip, deflate"]), ResponseView("hello", map[]))
         == ResponseView(b.gzdeflate("hello").s, map[ContentEncodingHeader := "deflate"])
  {
    var mw := ContentEncoding(true, ["#.*#"], [ContentEncoder.Deflate]);
    var request := Request(map[AcceptEncodingHeader := "gzip, deflate"]);
    var response := ResponseView("hello", map[]);
    assert request.Header(AcceptEncodingHeader) == Some("gzip, deflate");
    assert request.Header(ContentTypeHeader) == None by {
      assert ContentTypeHeader != AcceptEncodingHeader;
    }
    assert !IsFalsyString("hello") by {
      assert |"hello"| == 5;
    }
    TokensOfList();
    DeflateNegotiatedFromSecondToken();
    Deflate.EncodeStreamSucceeds(b, "hello");
    mw.EncodedWith(b, request, response, Match("deflate", ContentEncoder.Deflate), b.gzdeflate("hello").s);
  }
}
