/** Percent-decoding of a Python 2 byte string, as `urllib.unquote` does it
    (the `%XX` escapes of section 2.1 of RFC 3986): a `%` followed by two hex
    digits, in either case, becomes the octet they name; a `%` not followed by
    two hex digits stays a literal `%`; every other octet is copied. */
module Percent {
  import opened Bytes

  /** True for the octets `0-9`, `A-F` and `a-f`. */
  predicate IsHexDigit(b: Byte)
  {
    0x30 <= b <= 0x39 || 0x41 <= b <= 0x46 || 0x61 <= b <= 0x66
  }

  /** The value of a hex digit. */
  function HexValue(b: Byte): (v: nat)
    requires IsHexDigit(b)
    ensures v < 16
  {
    if b <= 0x39 then b - 0x30 else if b <= 0x46 then b - 0x41 + 10 else b - 0x61 + 10
  }

  /** The upper-case hex digit for a value below 16. */
  function HexDigit(v: nat): (b: Byte)
    requires v < 16
    ensures IsHexDigit(b) && HexValue(b) == v
  {
    if v < 10 then 0x30 + v else 0x41 + v - 10
  }

  /** True when `s` has a valid escape `%XX` at position `i`. */
  predicate EscapeAt(s: seq<Byte>, i: nat)
  {
    i + 2 < |s| && s[i] == PercentSign && IsHexDigit(s[i + 1]) && IsHexDigit(s[i + 2])
  }

  /** `urllib.unquote(s)` on a byte string. */
  function Unquote(s: seq<Byte>): (r: seq<Byte>)
    ensures |r| <= |s|
    decreases |s|
  {
    if s == [] then []
    else if EscapeAt(s, 0) then [HexValue(s[1]) * 16 + HexValue(s[2])] + Unquote(s[3..])
    else [s[0]] + Unquote(s[1..])
  }

  /** Every octet written as an escape `%XX` with upper-case digits
      (what `urllib.quote` would produce with no safe characters). */
  function EscapeAll(b: seq<Byte>): (r: seq<Byte>)
    ensures |r| == 3 * |b|
  {
    if b == [] then [] else [PercentSign, HexDigit(b[0] / 16), HexDigit(b[0] % 16)] + EscapeAll(b[1..])
  }

  /** Octets that hold no `%` pass through unquoting unchanged. */
  lemma {:induction false} UnquoteNoPercent(s: seq<Byte>)
    requires PercentSign !in s
    ensures Unquote(s) == s
  {
    if s != [] {
      assert s == [s[0]] + s[1..];
      UnquoteNoPercent(s[1..]);
    }
  }

  /** Unquoting works piece by piece across a boundary where the right part
      begins with `%` (or is empty): no escape can straddle it, because `%`
      is not a hex digit. */
  lemma {:induction false} UnquoteAppend(x: seq<Byte>, y: seq<Byte>)
    requires y == [] || y[0] == PercentSign
    ensures Unquote(x + y) == Unquote(x) + Unquote(y)
  {
    if x == [] {
      assert x + y == y;
    } else {
      var n := if EscapeAt(x, 0) then 3 else 1;
      EscapeAtAppend(x, y);
      assert (x + y)[n..] == x[n..] + y;
      UnquoteAppend(x[n..], y);
    }
  }

  /** An escape at the start of `x + y` is one at the start of `x`, when `y`
      begins with `%`. */
  lemma EscapeAtAppend(x: seq<Byte>, y: seq<Byte>)
    requires x != []
    requires y == [] || y[0] == PercentSign
    ensures EscapeAt(x + y, 0) == EscapeAt(x, 0)
  {
    if |x| < 3 && |x + y| > 2 {
      assert (x + y)[|x|] == y[0];
    }
  }

  /** One valid escape `%XX` becomes the single octet it names, whatever
      comes before (once the preceding part is unquoted) and after. */
  lemma EscapeBecomesOctet(x: seq<Byte>, h: Byte, l: Byte, y: seq<Byte>)
    requires IsHexDigit(h) && IsHexDigit(l)
    ensures Unquote(x + [PercentSign, h, l] + y) == Unquote(x) + [HexValue(h) * 16 + HexValue(l)] + Unquote(y)
  {
    var e := [PercentSign, h, l] + y;
    assert x + [PercentSign, h, l] + y == x + e;
    UnquoteAppend(x, e);
    assert e[3..] == y;
  }

  /** Round trip: unquoting undoes escaping every octet. */
  lemma {:induction false} UnquoteEscapeAll(b: seq<Byte>)
    ensures Unquote(EscapeAll(b)) == b
  {
    if b != [] {
      var e := EscapeAll(b);
      var h, l := HexDigit(b[0] / 16), HexDigit(b[0] % 16);
      assert e == [PercentSign, h, l] + EscapeAll(b[1..]);
      assert EscapeAt(e, 0);
      assert e[3..] == EscapeAll(b[1..]);
      UnquoteEscapeAll(b[1..]);
      assert [b[0]] + b[1..] == b;
    }
  }
}
