/**
 The bytes of a Rust `str`. A `str` is UTF-8, and both `len()` and
 `is_ascii()` look at its bytes, not at its characters, so the validator is
 modelled over the byte sequence of the text.
 */
module Bytes {

  newtype byte = x: int | 0 <= x < 0x100

  /** `str::is_ascii`: every byte lies in the 7-bit range. A non-ASCII
      character is encoded in UTF-8 with bytes that are all 0x80 or above. */
  predicate IsAscii(s: seq<byte>) {
    forall i :: 0 <= i < |s| ==> s[i] < 0x80
  }

  /** The UTF-8 bytes of an ASCII text: one byte per character, equal to its code. */
  function FromAscii(t: string): (s: seq<byte>)
    requires forall i :: 0 <= i < |t| ==> t[i] < 0x80 as char
    ensures |s| == |t|
    ensures forall i :: 0 <= i < |t| ==> s[i] as int == t[i] as int
    ensures IsAscii(s)
  {
    if |t| == 0 then []
    else [t[0] as int as byte] + FromAscii(t[1..])
  }

  /** A concatenation is ASCII iff both parts are. */
  lemma IsAsciiConcat(a: seq<byte>, b: seq<byte>)
    ensures IsAscii(a + b) <==> IsAscii(a) && IsAscii(b)
  {
    assert forall i :: 0 <= i < |a| ==> (a + b)[i] == a[i];
    assert forall i :: 0 <= i < |b| ==> (a + b)[|a| + i] == b[i];
  }
}
