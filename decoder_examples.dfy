/** Worked examples of `_decode_url`: the example of its doc comment, and a
    percent escape that is not UTF-8 and so takes the charset fallback. The
    strings are parameters fixed by the preconditions, so that the proofs
    go step by step instead of evaluating the functions on constants. */
module DecoderExamples {
  import opened Wrappers
  import opened Bytes
  import opened Percent
  import opened UrlDecoder
  import Utf8

  /** Unquoting the octets `ind` `%c3` `%a9` `x.html`, piece by piece. */
  lemma UnquoteDocPieces(head: seq<Byte>, e1: seq<Byte>, e2: seq<Byte>, tail: seq<Byte>)
    requires head == [0x69, 0x6E, 0x64] && tail == [0x78, 0x2E, 0x68, 0x74, 0x6D, 0x6C]
    requires e1 == [PercentSign, 0x63, 0x33] && e2 == [PercentSign, 0x61, 0x39]
    ensures Unquote(head + (e1 + (e2 + tail))) == head + [0xC3, 0xA9] + tail
  {
    UnquoteNoPercent(head);
    UnquoteNoPercent(tail);
    assert Unquote(e1) == [0xC3] by {
      assert EscapeAt(e1, 0);
      assert e1[3..] == [];
    }
    assert Unquote(e2 + tail) == [0xA9] + Unquote(tail) by {
      assert EscapeAt(e2 + tail, 0);
      assert (e2 + tail)[3..] == tail;
    }
    UnquoteAppend(e1, e2 + tail);
    UnquoteAppend(head, e1 + (e2 + tail));
  }

  /** The doc comment's example, first half: `urllib.unquote` turns
      `ind%c3%a9x.html` into `ind\xc3\xa9x.html`. */
  lemma DocCommentUnquote(quoted: seq<Byte>)
    requires quoted == Latin1("ind%c3%a9x.html")
    ensures Unquote(quoted) == Latin1("ind\U{c3}\U{a9}x.html")
  {
    var head: seq<Byte> := [0x69, 0x6E, 0x64];
    var tail: seq<Byte> := [0x78, 0x2E, 0x68, 0x74, 0x6D, 0x6C];
    var e1: seq<Byte> := [PercentSign, 0x63, 0x33];
    var e2: seq<Byte> := [PercentSign, 0x61, 0x39];
    assert quoted == head + (e1 + (e2 + tail));
    UnquoteDocPieces(head, e1, e2, tail);
  }

  /** The UTF-8 encoding of `indéx.html` is `ind\xc3\xa9x.html`. */
  lemma EncodeDocText(a: string, e: string, x: string)
    requires a == "ind" && e == "\U{e9}" && x == "x.html"
    ensures Utf8.Encode(a + e + x) == Latin1("ind\U{c3}\U{a9}x.html")
  {
    Utf8.EncodeAscii(a);
    Utf8.EncodeAscii(x);
    assert Utf8.Encode(e) == Utf8.EncodeChar(e[0]) + Utf8.Encode([]);
    Utf8.EncodeAppend(a, e);
    Utf8.EncodeAppend(a + e, x);
  }

  /** The doc comment's example, second half: `ind\xc3\xa9x.html` decodes
      as UTF-8 to `indéx.html`, which encodes back to the same octets. */
  lemma DocCommentUtf8(raw: seq<Byte>)
    requires raw == Latin1("ind\U{c3}\U{a9}x.html")
    ensures Utf8.Decode(raw) == Some("ind\U{e9}x.html")
    ensures Utf8.Encode(Utf8.Decode(raw).value) == raw
  {
    EncodeDocText("ind", "\U{e9}", "x.html");
    assert "ind" + "\U{e9}" + "x.html" == "ind\U{e9}x.html";
    Utf8.DecodeIffEncode(raw, "ind\U{e9}x.html");
  }

  /** Unquoting `/p%e9` gives the octets `/p\xe9`, which hold no NUL. */
  lemma FallbackSafeBytes(quoted: seq<Byte>)
    requires quoted == Latin1("/p%e9")
    ensures SafeBytes(quoted) == [0x2F, 0x70, 0xE9]
  {
    var raw: seq<Byte> := [0x2F, 0x70, 0xE9];
    var head: seq<Byte> := [0x2F, 0x70];
    var e: seq<Byte> := [PercentSign, 0x65, 0x39];
    assert quoted == head + e;
    UnquoteAppend(head, e);
    UnquoteNoPercent(head);
    assert Unquote(e) == [0xE9] by {
      assert EscapeAt(e, 0);
      assert e[3..] == [];
    }
    SafeCharsReplaceNul(raw);
    ReplaceAbsent(raw, Nul, NulEscape);
  }

  /** The octets `/p\xe9` are not well-formed UTF-8: 0xE9 opens a
      three-octet sequence that is cut off. */
  lemma FallbackNotUtf8(raw: seq<Byte>)
    requires raw == [0x2F, 0x70, 0xE9]
    ensures !Utf8.IsValid(raw)
  {
    var rest := raw[1..];
    assert Utf8.DecodeFirst(raw) == Some(('/', 1));
    assert Utf8.DecodeFirst(rest) == Some(('p', 1));
    assert rest[1..] == [0xE9];
    assert Utf8.Decode([0xE9]) == None;
    assert Utf8.Decode(rest) == None;
  }

  /** So `_decode_url` hands the octets of the path `/p%e9` to the page
      charset's decoder, the fallback path (under ISO-8859-1 the octet
      0xE9 is `é`). */
  lemma Latin1Fallback(codecs: Codecs, enc: Charset, quoted: seq<Byte>)
    requires quoted == Latin1("/p%e9")
    ensures DecodeUrl(codecs, enc, ByteString(quoted)) == Some(codecs.decodeIgnore([0x2F, 0x70, 0xE9], enc))
  {
    FallbackSafeBytes(quoted);
    FallbackNotUtf8([0x2F, 0x70, 0xE9]);
    DecodeUrlFallback(codecs, enc, ByteString(quoted));
  }
}
