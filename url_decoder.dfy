/** `BaseParser._decode_url`: turns a matched URL string into text, using the
    page charset. The steps are: encode the text with the charset, unquote the
    `%XX` escapes, replace every NUL octet by `%00`, then decode the octets as
    UTF-8, falling back to the page charset with undecodable octets dropped. */
module UrlDecoder {
  import opened Wrappers
  import opened Bytes
  import opened Percent
  import Utf8

  /** The name of a character encoding, as the HTTP response declares it. */
  type Charset = string

  /** The codec library the parser calls and whose code is not part of this
      model. `isKnown` is `is_known_encoding`; `encode(t, enc)` is
      `t.encode(enc)`, None when it raises `UnicodeEncodeError`;
      `decodeIgnore(b, enc)` is `b.decode(enc, 'ignore')`, which drops what it
      cannot decode and so never fails for a known charset. */
  datatype Codecs = Codecs(
    isKnown: Charset -> bool,
    encode: (string, Charset) -> Option<seq<Byte>>,
    decodeIgnore: (seq<Byte>, Charset) -> string)

  /** A matched URL as `_decode_url` receives it: Python 2 `unicode` text or a
      `str` of octets. */
  datatype UrlString = Unicode(text: string) | ByteString(octets: seq<Byte>)

  /** The three octets `%00`. */
  const NulEscape: seq<Byte> := [PercentSign, 0x30, 0x30]

  /** `SAFE_CHARS`: each octet to replace, with its replacement. */
  const SafeChars: seq<(Byte, seq<Byte>)> := [(Nul, NulEscape)]

  /** `s.replace(target, repl)` for a one-octet `target`. */
  function Replace(s: seq<Byte>, target: Byte, repl: seq<Byte>): (r: seq<Byte>)
    ensures repl != [] ==> |s| <= |r|
    ensures forall i :: 0 <= i < |r| ==> r[i] in s || r[i] in repl
    decreases |s|
  {
    if s == [] then []
    else (if s[0] == target then repl else [s[0]]) + Replace(s[1..], target, repl)
  }

  /** The loop over a replacement table: each pair is applied, in order, to
      the result of the previous ones. */
  function ReplaceEach(s: seq<Byte>, table: seq<(Byte, seq<Byte>)>): (r: seq<Byte>)
    ensures (forall k :: 0 <= k < |table| ==> table[k].1 != []) ==> |s| <= |r|
    decreases |table|
  {
    if table == [] then s else ReplaceEach(Replace(s, table[0].0, table[0].1), table[1..])
  }

  /** The octets of the matched URL before unquoting: unicode text is encoded
      with the page charset (None when that raises), a byte string is used as
      it is. */
  function WireBytes(codecs: Codecs, enc: Charset, u: UrlString): (r: Option<seq<Byte>>)
    ensures r.None? <==> u.Unicode? && codecs.encode(u.text, enc).None?
    ensures u.ByteString? ==> r == Some(u.octets)
  {
    match u
    case Unicode(t) => codecs.encode(t, enc)
    case ByteString(b) => Some(b)
  }

  /** The octets that reach the final decoding step. */
  function SafeBytes(wire: seq<Byte>): (r: seq<Byte>)
    ensures PercentSign !in wire && Nul !in wire ==> r == wire
  {
    PlainOctetsUnchanged(wire);
    ReplaceEach(Unquote(wire), SafeChars)
  }

  /** Octets with no `%` and no NUL are neither unquoted nor replaced. */
  lemma PlainOctetsUnchanged(wire: seq<Byte>)
    ensures PercentSign !in wire && Nul !in wire ==> ReplaceEach(Unquote(wire), SafeChars) == wire
  {
    if PercentSign !in wire && Nul !in wire {
      UnquoteNoPercent(wire);
      SafeCharsReplaceNul(wire);
      ReplaceAbsent(wire, Nul, NulEscape);
    }
  }

  /** The last step: UTF-8 when the octets are well-formed UTF-8, otherwise
      the page charset with errors ignored. */
  function DecodeText(codecs: Codecs, enc: Charset, b: seq<Byte>): (r: string)
    ensures Utf8.IsValid(b) ==> |r| <= |b| && Utf8.Encode(r) == b
    ensures !Utf8.IsValid(b) ==> r == codecs.decodeIgnore(b, enc)
  {
    match Utf8.Decode(b)
    case Some(t) => Utf8.EncodeDecode(b); t
    case None => codecs.decodeIgnore(b, enc)
  }

  /** `_decode_url(u)` under the page charset `enc`. None stands for the
      `ValueError` (a `UnicodeEncodeError`) that the first step may raise;
      no later step can fail. */
  function DecodeUrl(codecs: Codecs, enc: Charset, u: UrlString): (r: Option<string>)
    ensures r.None? <==> u.Unicode? && codecs.encode(u.text, enc).None?
  {
    match WireBytes(codecs, enc, u)
    case None => None
    case Some(wire) => Some(DecodeText(codecs, enc, SafeBytes(wire)))
  }

  /** Replacing works octet by octet, so it distributes over concatenation. */
  lemma {:induction false} ReplaceAppend(x: seq<Byte>, y: seq<Byte>, target: Byte, repl: seq<Byte>)
    ensures Replace(x + y, target, repl) == Replace(x, target, repl) + Replace(y, target, repl)
  {
    if x == [] {
      assert x + y == y;
    } else {
      assert (x + y)[1..] == x[1..] + y;
      ReplaceAppend(x[1..], y, target, repl);
      var head := if x[0] == target then repl else [x[0]];
      assert Replace(x + y, target, repl) == head + (Replace(x[1..], target, repl) + Replace(y, target, repl));
    }
  }

  /** After replacing, the target octet is gone unless the replacement
      itself holds it. */
  lemma {:induction false} ReplaceRemoves(s: seq<Byte>, target: Byte, repl: seq<Byte>)
    requires target !in repl
    ensures target !in Replace(s, target, repl)
  {
    if s != [] {
      ReplaceRemoves(s[1..], target, repl);
    }
  }

  /** Octets without the target are left as they are. */
  lemma {:induction false} ReplaceAbsent(s: seq<Byte>, target: Byte, repl: seq<Byte>)
    requires target !in s
    ensures Replace(s, target, repl) == s
  {
    if s != [] {
      ReplaceAbsent(s[1..], target, repl);
      assert [s[0]] + s[1..] == s;
    }
  }

  /** The `SAFE_CHARS` loop replaces NUL by `%00` and does nothing else. */
  lemma SafeCharsReplaceNul(s: seq<Byte>)
    ensures ReplaceEach(s, SafeChars) == Replace(s, Nul, NulEscape)
  {
    assert SafeChars[1..] == [];
  }

  /** The NUL escape is reversible: unquoting the result of the replacement
      gives the octets back, as long as they held no `%` of their own. */
  lemma {:induction false} UnquoteReplaceNul(s: seq<Byte>)
    requires PercentSign !in s
    ensures Unquote(Replace(s, Nul, NulEscape)) == s
  {
    if s != [] {
      var rest := Replace(s[1..], Nul, NulEscape);
      UnquoteReplaceNul(s[1..]);
      if s[0] == Nul {
        var r := NulEscape + rest;
        assert EscapeAt(r, 0);
        assert r[3..] == rest;
      } else {
        var r := [s[0]] + rest;
        assert !EscapeAt(r, 0);
        assert r[1..] == rest;
      }
      assert [s[0]] + s[1..] == s;
    }
  }

  /** The octets handed to the final decoding step never hold a NUL. */
  lemma SafeBytesNoNul(wire: seq<Byte>)
    ensures Nul !in SafeBytes(wire)
  {
    SafeCharsReplaceNul(Unquote(wire));
    ReplaceRemoves(Unquote(wire), Nul, NulEscape);
  }

  /** The UTF-8 path: when the unquoted, NUL-escaped octets are well-formed
      UTF-8, the result is their UTF-8 decoding, it re-encodes to exactly
      those octets, and it holds no U+0000. */
  lemma DecodeUrlUtf8(codecs: Codecs, enc: Charset, u: UrlString)
    requires WireBytes(codecs, enc, u).Some?
    requires Utf8.IsValid(SafeBytes(WireBytes(codecs, enc, u).value))
    ensures var safe := SafeBytes(WireBytes(codecs, enc, u).value);
      DecodeUrl(codecs, enc, u) == Utf8.Decode(safe)
      && Utf8.Encode(DecodeUrl(codecs, enc, u).value) == safe
      && '\0' !in DecodeUrl(codecs, enc, u).value
  {
    var safe := SafeBytes(WireBytes(codecs, enc, u).value);
    Utf8.EncodeDecode(safe);
    SafeBytesNoNul(WireBytes(codecs, enc, u).value);
    Utf8.DecodeNul(safe);
  }

  /** The fallback path: when those octets are not well-formed UTF-8, the
      result is their decoding under the page charset with errors ignored,
      and what that decoder receives holds no NUL. */
  lemma DecodeUrlFallback(codecs: Codecs, enc: Charset, u: UrlString)
    requires WireBytes(codecs, enc, u).Some?
    requires !Utf8.IsValid(SafeBytes(WireBytes(codecs, enc, u).value))
    ensures var safe := SafeBytes(WireBytes(codecs, enc, u).value);
      DecodeUrl(codecs, enc, u) == Some(codecs.decodeIgnore(safe, enc)) && Nul !in safe
  {
    SafeBytesNoNul(WireBytes(codecs, enc, u).value);
  }

  /** True when decoding NUL-free octets with `enc` never produces U+0000,
      as holds for every ASCII-compatible charset. */
  ghost predicate NulFreeCharset(codecs: Codecs, enc: Charset)
  {
    forall b :: Nul !in b ==> '\0' !in codecs.decodeIgnore(b, enc)
  }

  /** The decoded URL never holds U+0000: on the UTF-8 path always, on the
      fallback path whenever the page charset maps NUL-free octets to
      NUL-free text. */
  lemma DecodeUrlNoNul(codecs: Codecs, enc: Charset, u: UrlString)
    requires NulFreeCharset(codecs, enc)
    requires DecodeUrl(codecs, enc, u).Some?
    ensures '\0' !in DecodeUrl(codecs, enc, u).value
  {
    var safe := SafeBytes(WireBytes(codecs, enc, u).value);
    if Utf8.IsValid(safe) {
      DecodeUrlUtf8(codecs, enc, u);
    } else {
      DecodeUrlFallback(codecs, enc, u);
    }
  }

  /** Octets with no `%` and no NUL that are well-formed UTF-8 come out as
      their UTF-8 decoding: nothing is unquoted or replaced. */
  lemma DecodeUrlPlainOctets(codecs: Codecs, enc: Charset, b: seq<Byte>)
    requires PercentSign !in b && Nul !in b && Utf8.IsValid(b)
    ensures DecodeUrl(codecs, enc, ByteString(b)) == Utf8.Decode(b)
  {
    UnquoteNoPercent(b);
    SafeCharsReplaceNul(b);
    ReplaceAbsent(b, Nul, NulEscape);
  }

  /** Text with no `%` and no U+0000, under a charset that encodes it as
      UTF-8, comes out of the decoder unchanged. */
  lemma DecodeUrlPlainText(codecs: Codecs, enc: Charset, t: string)
    requires codecs.encode(t, enc) == Some(Utf8.Encode(t))
    requires '%' !in t && '\0' !in t
    ensures DecodeUrl(codecs, enc, Unicode(t)) == Some(t)
  {
    var b := Utf8.Encode(t);
    Utf8.EncodeHoldsAscii(t, PercentSign);
    Utf8.EncodeHoldsAscii(t, Nul);
    Utf8.DecodeEncode(t);
    DecodeUrlPlainOctets(codecs, enc, b);
  }

  /** When the unquoted octets are the UTF-8 encoding of a text without
      U+0000, that text is what `_decode_url` returns. */
  lemma DecodeUrlUnquotesToText(codecs: Codecs, enc: Charset, u: UrlString, t: string)
    requires WireBytes(codecs, enc, u).Some?
    requires Unquote(WireBytes(codecs, enc, u).value) == Utf8.Encode(t)
    requires '\0' !in t
    ensures DecodeUrl(codecs, enc, u) == Some(t)
  {
    var raw := Utf8.Encode(t);
    Utf8.DecodeEncode(t);
    Utf8.DecodeNul(raw);
    SafeCharsReplaceNul(raw);
    ReplaceAbsent(raw, Nul, NulEscape);
  }
}
