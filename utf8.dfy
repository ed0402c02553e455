/** UTF-8 (RFC 3629) as the `utf-8` codec applies it: `Encode` turns text into
    octets, `Decode` turns octets back into text or fails on an ill-formed
    sequence (Python's `UnicodeDecodeError`). */
module Utf8 {
  import opened Wrappers
  import opened Bytes

  /** A continuation octet `10xxxxxx`. */
  predicate IsCont(b: Byte)
  {
    0x80 <= b < 0xC0
  }

  /** The one to four octets that encode `c` (section 3 of RFC 3629). */
  function EncodeChar(c: char): (r: seq<Byte>)
    ensures 1 <= |r| <= 4
  {
    var cp := c as int;
    if cp < 0x80 then [cp]
    else if cp < 0x800 then [0xC0 + cp / 0x40, 0x80 + cp % 0x40]
    else if cp < 0x1_0000 then
      [0xE0 + cp / 0x40 / 0x40, 0x80 + cp / 0x40 % 0x40, 0x80 + cp % 0x40]
    else
      [0xF0 + cp / 0x40 / 0x40 / 0x40, 0x80 + cp / 0x40 / 0x40 % 0x40, 0x80 + cp / 0x40 % 0x40, 0x80 + cp % 0x40]
  }

  /** The UTF-8 encoding of a whole string. */
  function Encode(s: string): (r: seq<Byte>)
    ensures |s| <= |r| <= 4 * |s|
  {
    if s == [] then [] else EncodeChar(s[0]) + Encode(s[1..])
  }

  /** The code point of a two-octet sequence, or None when it is ill-formed. */
  function Decode2(b0: Byte, b1: Byte): Option<char>
  {
    if 0xC2 <= b0 < 0xE0 && IsCont(b1) then
      Some(((b0 - 0xC0) * 0x40 + (b1 - 0x80)) as char)
    else None
  }

  /** The code point of a three-octet sequence, or None when it is ill-formed
      (an overlong form, or one that encodes a surrogate). */
  function Decode3(b0: Byte, b1: Byte, b2: Byte): Option<char>
  {
    if 0xE0 <= b0 < 0xF0 && IsCont(b1) && IsCont(b2)
       && (b0 != 0xE0 || 0xA0 <= b1) && (b0 != 0xED || b1 < 0xA0)
    then
      Some(((b0 - 0xE0) * 0x1000 + (b1 - 0x80) * 0x40 + (b2 - 0x80)) as char)
    else None
  }

  /** The code point of a four-octet sequence, or None when it is ill-formed
      (an overlong form, or one above U+10FFFF). */
  function Decode4(b0: Byte, b1: Byte, b2: Byte, b3: Byte): Option<char>
  {
    if 0xF0 <= b0 < 0xF5 && IsCont(b1) && IsCont(b2) && IsCont(b3)
       && (b0 != 0xF0 || 0x90 <= b1) && (b0 != 0xF4 || b1 < 0x90)
    then
      Some(((b0 - 0xF0) * 0x4_0000 + (b1 - 0x80) * 0x1000 + (b2 - 0x80) * 0x40 + (b3 - 0x80)) as char)
    else None
  }

  /** The first character of `b` and the number of octets it takes, or None
      when `b` does not start with a well-formed UTF-8 sequence. */
  function DecodeFirst(b: seq<Byte>): (r: Option<(char, nat)>)
    requires |b| > 0
    ensures r.Some? ==> 1 <= r.value.1 <= |b| && r.value.1 <= 4
  {
    if b[0] < 0x80 then Some((b[0] as char, 1))
    else if b[0] < 0xE0 then
      if |b| < 2 then None
      else match Decode2(b[0], b[1])
        case Some(c) => Some((c, 2))
        case None => None
    else if b[0] < 0xF0 then
      if |b| < 3 then None
      else match Decode3(b[0], b[1], b[2])
        case Some(c) => Some((c, 3))
        case None => None
    else
      if |b| < 4 then None
      else match Decode4(b[0], b[1], b[2], b[3])
        case Some(c) => Some((c, 4))
        case None => None
  }

  /** `b.decode('utf-8')`: the text `b` encodes, or None when `b` is not
      well-formed UTF-8. */
  function Decode(b: seq<Byte>): (r: Option<string>)
    ensures r.Some? ==> |r.value| <= |b|
    decreases |b|
  {
    if b == [] then Some([])
    else match DecodeFirst(b)
      case None => None
      case Some((c, n)) =>
        match Decode(b[n..])
        case None => None
        case Some(t) => Some([c] + t)
  }

  /** True when `b` is well-formed UTF-8. */
  predicate IsValid(b: seq<Byte>)
  {
    Decode(b).Some?
  }

  /** The two-octet case of `DecodeFirstEncodeChar`. */
  lemma DecodeFirstEncode2(c: char, rest: seq<Byte>)
    requires 0x80 <= c as int < 0x800
    ensures DecodeFirst(EncodeChar(c) + rest) == Some((c, 2))
  {
    var cp := c as int;
    var b0: int, b1: int := 0xC0 + cp / 0x40, 0x80 + cp % 0x40;
    assert (b0 - 0xC0) * 0x40 + (b1 - 0x80) == cp;
    assert Decode2(b0, b1) == Some(c);
    assert (EncodeChar(c) + rest)[..2] == [b0, b1];
  }

  /** The three-octet case of `DecodeFirstEncodeChar`. */
  lemma DecodeFirstEncode3(c: char, rest: seq<Byte>)
    requires 0x800 <= c as int < 0x1_0000
    ensures DecodeFirst(EncodeChar(c) + rest) == Some((c, 3))
  {
    var cp := c as int;
    var q1 := cp / 0x40;
    var q2 := q1 / 0x40;
    assert cp == q1 * 0x40 + cp % 0x40;
    assert q1 == q2 * 0x40 + q1 % 0x40;
    var b0: int, b1: int, b2: int := 0xE0 + q2, 0x80 + q1 % 0x40, 0x80 + cp % 0x40;
    assert (b0 - 0xE0) * 0x1000 + (b1 - 0x80) * 0x40 + (b2 - 0x80) == cp;
    assert Decode3(b0, b1, b2) == Some(c);
    assert (EncodeChar(c) + rest)[..3] == [b0, b1, b2];
  }

  /** The four-octet case of `DecodeFirstEncodeChar`. */
  lemma DecodeFirstEncode4(c: char, rest: seq<Byte>)
    requires 0x1_0000 <= c as int
    ensures DecodeFirst(EncodeChar(c) + rest) == Some((c, 4))
  {
    var cp := c as int;
    var q1 := cp / 0x40;
    var q2 := q1 / 0x40;
    var q3 := q2 / 0x40;
    assert cp == q1 * 0x40 + cp % 0x40;
    assert q1 == q2 * 0x40 + q1 % 0x40;
    assert q2 == q3 * 0x40 + q2 % 0x40;
    var b0: int, b1: int, b2: int, b3: int := 0xF0 + q3, 0x80 + q2 % 0x40, 0x80 + q1 % 0x40, 0x80 + cp % 0x40;
    assert (b0 - 0xF0) * 0x4_0000 + (b1 - 0x80) * 0x1000 + (b2 - 0x80) * 0x40 + (b3 - 0x80) == cp;
    assert Decode4(b0, b1, b2, b3) == Some(c);
    assert (EncodeChar(c) + rest)[..4] == [b0, b1, b2, b3];
  }

  /** Decoding the encoding of one character gives that character back and
      consumes exactly its octets, whatever follows. */
  lemma DecodeFirstEncodeChar(c: char, rest: seq<Byte>)
    ensures DecodeFirst(EncodeChar(c) + rest) == Some((c, |EncodeChar(c)|))
  {
    if c as int < 0x80 {
    } else if c as int < 0x800 {
      DecodeFirstEncode2(c, rest);
    } else if c as int < 0x1_0000 {
      DecodeFirstEncode3(c, rest);
    } else {
      DecodeFirstEncode4(c, rest);
    }
  }

  /** Encoding the first character `DecodeFirst` finds gives back exactly the
      octets it consumed. */
  lemma EncodeCharDecodeFirst(b: seq<Byte>)
    requires |b| > 0 && DecodeFirst(b).Some?
    ensures EncodeChar(DecodeFirst(b).value.0) == b[..DecodeFirst(b).value.1]
  {
    if b[0] < 0x80 {
    } else if b[0] < 0xE0 {
      EncodeDecode2(b[0], b[1]);
    } else if b[0] < 0xF0 {
      EncodeDecode3(b[0], b[1], b[2]);
    } else {
      EncodeDecode4(b[0], b[1], b[2], b[3]);
    }
  }

  /** Re-encoding a decoded two-octet sequence gives the same octets. */
  lemma EncodeDecode2(b0: Byte, b1: Byte)
    requires Decode2(b0, b1).Some?
    ensures EncodeChar(Decode2(b0, b1).value) == [b0, b1]
  {
    var cp := Decode2(b0, b1).value as int;
    var x0: int, x1: int := b0, b1;
    assert cp == (x0 - 0xC0) * 0x40 + (x1 - 0x80);
  }

  /** Re-encoding a decoded three-octet sequence gives the same octets. */
  lemma EncodeDecode3(b0: Byte, b1: Byte, b2: Byte)
    requires Decode3(b0, b1, b2).Some?
    ensures EncodeChar(Decode3(b0, b1, b2).value) == [b0, b1, b2]
  {
    var cp := Decode3(b0, b1, b2).value as int;
    var x0: int, x1: int, x2: int := b0, b1, b2;
    var q1 := (x0 - 0xE0) * 0x40 + (x1 - 0x80);
    assert cp == q1 * 0x40 + (x2 - 0x80);
    assert cp / 0x40 == q1 && cp % 0x40 == x2 - 0x80;
    assert q1 / 0x40 == x0 - 0xE0 && q1 % 0x40 == x1 - 0x80;
  }

  /** Re-encoding a decoded four-octet sequence gives the same octets. */
  lemma EncodeDecode4(b0: Byte, b1: Byte, b2: Byte, b3: Byte)
    requires Decode4(b0, b1, b2, b3).Some?
    ensures EncodeChar(Decode4(b0, b1, b2, b3).value) == [b0, b1, b2, b3]
  {
    var cp := Decode4(b0, b1, b2, b3).value as int;
    var x0: int, x1: int, x2: int, x3: int := b0, b1, b2, b3;
    var q2 := (x0 - 0xF0) * 0x40 + (x1 - 0x80);
    var q1 := q2 * 0x40 + (x2 - 0x80);
    assert cp == q1 * 0x40 + (x3 - 0x80);
    assert cp / 0x40 == q1 && cp % 0x40 == x3 - 0x80;
    assert q1 / 0x40 == q2 && q1 % 0x40 == x2 - 0x80;
    assert q2 / 0x40 == x0 - 0xF0 && q2 % 0x40 == x1 - 0x80;
  }

  /** Round trip one way: every string survives encoding then decoding. */
  lemma {:induction false} DecodeEncode(s: string)
    ensures Decode(Encode(s)) == Some(s)
  {
    if s != [] {
      var e := EncodeChar(s[0]);
      DecodeFirstEncodeChar(s[0], Encode(s[1..]));
      assert (e + Encode(s[1..]))[|e|..] == Encode(s[1..]);
      DecodeEncode(s[1..]);
      assert [s[0]] + s[1..] == s;
    }
  }

  /** Round trip the other way: well-formed UTF-8 is the encoding of what it
      decodes to, so decoding loses nothing. */
  lemma {:induction false} EncodeDecode(b: seq<Byte>)
    requires IsValid(b)
    ensures Encode(Decode(b).value) == b
  {
    if b != [] {
      var c, n := DecodeCons(b);
      var t := Decode(b[n..]).value;
      EncodeDecode(b[n..]);
      EncodeCons(c, t);
      assert b[..n] + b[n..] == b;
    }
  }

  /** One step of encoding: the first character, then the rest. */
  lemma EncodeCons(c: char, t: string)
    ensures Encode([c] + t) == EncodeChar(c) + Encode(t)
  {
    assert ([c] + t)[1..] == t;
  }

  /** One step of decoding well-formed UTF-8: the first character `c`,
      which takes the first `n` octets, then the decoding of the rest. */
  lemma DecodeCons(b: seq<Byte>) returns (c: char, n: nat)
    requires IsValid(b) && b != []
    ensures 1 <= n <= |b| && IsValid(b[n..])
    ensures Decode(b).value == [c] + Decode(b[n..]).value
    ensures EncodeChar(c) == b[..n]
  {
    c := DecodeFirst(b).value.0;
    n := DecodeFirst(b).value.1;
    EncodeCharDecodeFirst(b);
  }

  /** Decoding is a partial inverse of encoding: `Decode(b)` is `Some(s)`
      exactly when `b` is the encoding of `s`. */
  lemma DecodeIffEncode(b: seq<Byte>, s: string)
    ensures Decode(b) == Some(s) <==> Encode(s) == b
  {
    if Decode(b) == Some(s) {
      EncodeDecode(b);
    }
    if Encode(s) == b {
      DecodeEncode(s);
    }
  }

  /** A decoded string holds U+0000 exactly when the octets hold a NUL byte. */
  lemma {:induction false} DecodeNul(b: seq<Byte>)
    requires IsValid(b)
    ensures '\0' in Decode(b).value <==> Nul in b
  {
    if b != [] {
      var (c, n) := DecodeFirst(b).value;
      DecodeNul(b[n..]);
      assert Decode(b).value == [c] + Decode(b[n..]).value;
      assert b == b[..n] + b[n..];
      assert (c == '\0') <==> (Nul in b[..n]) by {
        if b[0] < 0x80 {
        } else {
          assert b[0] != Nul && n >= 2;
          assert forall k :: 1 <= k < n ==> b[k] >= 0x80;
          assert c as int >= 0x80;
        }
      }
    }
  }

  /** An ASCII octet occurs in the encoding of `t` exactly when its
      character occurs in `t`: multi-octet sequences use only octets from
      0x80 up. */
  lemma {:induction false} EncodeHoldsAscii(t: string, a: Byte)
    requires a < 0x80
    ensures a in Encode(t) <==> a as char in t
  {
    if t != [] {
      EncodeHoldsAscii(t[1..], a);
      var e := EncodeChar(t[0]);
      assert a in e <==> t[0] == a as char by {
        if t[0] as int >= 0x80 {
          assert forall k :: 0 <= k < |e| ==> e[k] >= 0x80;
        }
      }
      assert Encode(t) == e + Encode(t[1..]);
      assert t == [t[0]] + t[1..];
    }
  }

  /** Encoding distributes over concatenation. */
  lemma {:induction false} EncodeAppend(s: string, t: string)
    ensures Encode(s + t) == Encode(s) + Encode(t)
  {
    if s == [] {
      assert s + t == t;
    } else {
      assert (s + t)[1..] == s[1..] + t;
      EncodeAppend(s[1..], t);
    }
  }

  /** ASCII text is its own UTF-8 encoding. */
  lemma {:induction false} EncodeAscii(t: string)
    requires forall i :: 0 <= i < |t| ==> t[i] as int < 0x80
    ensures Encode(t) == seq(|t|, i requires 0 <= i < |t| => t[i] as int as Byte)
  {
    if t != [] {
      EncodeAscii(t[1..]);
    }
  }
}
