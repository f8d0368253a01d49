/** UTF-8, as `str::as_bytes` gives it: the kernel keeps paths and names
    as Rust strings and hands their bytes to user buffers and directory
    entries. */
module Utf8 {
  /** The UTF-8 encoding of one character: one byte below 0x80, then two,
      three or four bytes, the lead byte carrying the length and every
      continuation byte starting with the bits 10. */
  function EncodeChar(c: char): (bs: seq<bv8>)
    ensures 1 <= |bs| <= 4
    ensures |bs| == 1 <==> c < 0x80 as char
    ensures |bs| == 1 ==> bs[0] == (c as int) as bv8
    ensures c != 0 as char ==> forall i :: 0 <= i < |bs| ==> bs[i] != 0
  {
    var v := c as bv32;
    if c < 0x80 as char then [(c as int) as bv8]
    else if c < 0x800 as char then [(((v >> 6) & 0x1F) | 0xC0) as bv8, ((v & 0x3F) | 0x80) as bv8]
    else if c < 0x1_0000 as char then
      [(((v >> 12) & 0xF) | 0xE0) as bv8, (((v >> 6) & 0x3F) | 0x80) as bv8, ((v & 0x3F) | 0x80) as bv8]
    else
      [(((v >> 18) & 7) | 0xF0) as bv8, (((v >> 12) & 0x3F) | 0x80) as bv8,
       (((v >> 6) & 0x3F) | 0x80) as bv8, ((v & 0x3F) | 0x80) as bv8]
  }

  /** `as_bytes`: the characters' encodings one after another. */
  function Encode(s: string): seq<bv8>
  {
    if s == [] then [] else EncodeChar(s[0]) + Encode(s[1..])
  }

  /** A string has at least as many UTF-8 bytes as characters, and exactly
      as many when every character is ASCII; then the bytes are the
      characters' codes. */
  lemma {:induction false} EncodeLength(s: string)
    ensures |s| <= |Encode(s)| <= 4 * |s|
    ensures |Encode(s)| == |s| <==> forall i :: 0 <= i < |s| ==> s[i] < 0x80 as char
    ensures (forall i :: 0 <= i < |s| ==> s[i] < 0x80 as char) ==>
      forall i :: 0 <= i < |s| ==> Encode(s)[i] == (s[i] as int) as bv8
  {
    if s != [] {
      EncodeLength(s[1..]);
      assert forall i :: 1 <= i < |s| ==> s[1..][i - 1] == s[i];
      if forall i :: 0 <= i < |s| ==> s[i] < 0x80 as char {
        assert forall i :: 0 <= i < |s| - 1 ==> s[1..][i] < 0x80 as char;
      }
    }
  }

  /** Only the character NUL encodes to a zero byte. */
  lemma {:induction false} EncodeNoZero(s: string)
    requires forall i :: 0 <= i < |s| ==> s[i] != 0 as char
    ensures forall i :: 0 <= i < |Encode(s)| ==> Encode(s)[i] != 0
  {
    if s != [] {
      assert forall i :: 0 <= i < |s| - 1 ==> s[1..][i] == s[i + 1];
      EncodeNoZero(s[1..]);
    }
  }
}
