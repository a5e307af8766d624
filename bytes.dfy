/** Octets, as Rust's `u8`. */
module Bytes {
  type Byte = x: int | 0 <= x < 256

  /** The bytes of an ASCII literal (every character below 128). */
  function Ascii(s: string): (r: seq<Byte>)
    requires forall i :: 0 <= i < |s| ==> s[i] as int < 128
    ensures |r| == |s|
    ensures forall i :: 0 <= i < |s| ==> r[i] == s[i] as int
  {
    if s == [] then [] else [s[0] as int as Byte] + Ascii(s[1..])
  }
}
