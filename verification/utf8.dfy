/**
  Bytes, and the UTF-8 encoding that Rust's `str::as_bytes` exposes.
  The writer keeps its colour code as text and hands `as_bytes()` of it
  to the frame builder, so the model needs that conversion.
 */
module Utf8 {

  newtype byte = b: int | 0 <= b < 0x100

  /** True when every character of `s` is in the 7-bit ASCII range. */
  predicate IsAscii(s: string) {
    forall i :: 0 <= i < |s| ==> s[i] as int < 0x80
  }

  /** The UTF-8 encoding of one Unicode scalar value. */
  function EncodeChar(c: char): (r: seq<byte>)
    ensures 1 <= |r| <= 4
    ensures c as int < 0x80 <==> |r| == 1
    ensures c as int < 0x80 ==> r[0] as int == c as int
    ensures c as int >= 0x80 ==> forall i :: 0 <= i < |r| ==> r[i] >= 0x80
  {
    var n := c as int;
    if n < 0x80 then
      [n as byte]
    else if n < 0x800 then
      [(0xC0 + n / 0x40) as byte, (0x80 + n % 0x40) as byte]
    else if n < 0x1_0000 then
      [(0xE0 + n / 0x1000) as byte, (0x80 + (n / 0x40) % 0x40) as byte,
       (0x80 + n % 0x40) as byte]
    else
      [(0xF0 + n / 0x4_0000) as byte, (0x80 + (n / 0x1000) % 0x40) as byte,
       (0x80 + (n / 0x40) % 0x40) as byte, (0x80 + n % 0x40) as byte]
  }

  /** `s.as_bytes()`: the characters of `s`, each UTF-8 encoded, in order. */
  function AsBytes(s: string): (r: seq<byte>)
    ensures |r| >= |s|
    ensures IsAscii(s) ==> |r| == |s|
    ensures IsAscii(s) ==> forall i :: 0 <= i < |s| ==> r[i] as int == s[i] as int
  {
    if s == [] then [] else EncodeChar(s[0]) + AsBytes(s[1..])
  }

  /** On ASCII text the encoding is one byte per character, so it is injective there. */
  lemma AsciiAsBytesInjective(s: string, t: string)
    requires IsAscii(s) && IsAscii(t)
    ensures AsBytes(s) == AsBytes(t) <==> s == t
  {
    if AsBytes(s) == AsBytes(t) {
      assert |s| == |t|;
      forall i | 0 <= i < |s| ensures s[i] == t[i] {
        assert AsBytes(s)[i] == AsBytes(t)[i];
      }
    }
  }
}
