/** Python 2 byte strings (`str`) as sequences of octets. */
module Bytes {

  /** One octet of a Python 2 `str`. */
  type Byte = b: int | 0 <= b < 0x100

  /** The percent sign `%`. */
  const PercentSign: Byte := 0x25

  /** The NUL byte `\x00`. */
  const Nul: Byte := 0x00

  /** True when every character of `s` is below U+0100, so that `s` can be
      read as the byte string whose octets are its code points. */
  predicate IsLatin1(s: string)
  {
    forall i :: 0 <= i < |s| ==> s[i] as int < 0x100
  }

  /** The byte string spelled by a string of code points below U+0100
      (the way a Python 2 `str` literal is written). */
  function Latin1(s: string): (r: seq<Byte>)
    requires IsLatin1(s)
    ensures |r| == |s|
    ensures forall i :: 0 <= i < |s| ==> r[i] == s[i] as int
  {
    seq(|s|, i requires 0 <= i < |s| => s[i] as int)
  }
}
