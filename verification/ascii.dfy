/** ASCII character classes and the ASCII case mapping of Rust's `char`
    (`is_ascii_uppercase`, `is_ascii_lowercase`, `is_ascii_alphabetic`,
    `to_ascii_lowercase`), and bytes as the values of `u8`. */
module Ascii {

  /** A `u8`. */
  type Byte = x: nat | x < 256

  predicate IsUpper(c: char) {
    'A' <= c <= 'Z'
  }

  predicate IsLower(c: char) {
    'a' <= c <= 'z'
  }

  predicate IsAlpha(c: char) {
    IsUpper(c) || IsLower(c)
  }

  predicate IsNonAlpha(c: char) {
    !IsAlpha(c)
  }

  /** `to_ascii_lowercase`: an upper-case ASCII letter becomes its
      lower-case partner, every other character stays as it is. */
  function ToLower(c: char): (d: char)
    ensures IsAlpha(d) == IsAlpha(c)
    ensures IsAlpha(c) ==> IsLower(d)
    ensures IsLower(c) || !IsAlpha(c) ==> d == c
  {
    if IsUpper(c) then (c as int + 32) as char else c
  }

  /** Lower-casing every character of a string. */
  function Lowered(s: string): (t: string)
    ensures |t| == |s|
  {
    seq(|s|, i requires 0 <= i < |s| => ToLower(s[i]))
  }

  /** Lower-casing a concatenation lower-cases the parts. */
  lemma LoweredAppend(a: string, b: string)
    ensures Lowered(a + b) == Lowered(a) + Lowered(b)
  {
  }

  /** An ASCII string and the bytes of its UTF-8 encoding, which are its
      code points. */
  predicate IsAsciiString(s: string) {
    forall i | 0 <= i < |s| :: s[i] as int < 128
  }

  function AsciiBytes(s: string): (bs: seq<Byte>)
    requires IsAsciiString(s)
    ensures |bs| == |s|
  {
    seq(|s|, i requires 0 <= i < |s| => s[i] as int)
  }

  /** Bytes below 128 read back as characters: the UTF-8 decoding of an
      ASCII byte string. */
  function DecodeAscii(bs: seq<Byte>): (s: string)
    requires forall i | 0 <= i < |bs| :: bs[i] < 128
  {
    seq(|bs|, i requires 0 <= i < |bs| => bs[i] as char)
  }

  /** `as_bytes` of an ASCII string is a lossless encoding: its bytes are
      all below 128 and decode back to the string, and every byte string
      below 128 is the encoding of its decoding. */
  lemma AsciiRoundTrip(s: string, bs: seq<Byte>)
    ensures IsAsciiString(s) ==> (forall i | 0 <= i < |s| :: AsciiBytes(s)[i] < 128) && DecodeAscii(AsciiBytes(s)) == s
    ensures (forall i | 0 <= i < |bs| :: bs[i] < 128) ==>
              IsAsciiString(DecodeAscii(bs)) && AsciiBytes(DecodeAscii(bs)) == bs
  {
  }

  /** The number of bytes of a character's UTF-8 encoding. */
  function Utf8Width(c: char): (w: nat)
    ensures 1 <= w <= 4 && (w == 1 <==> c as int < 128)
  {
    if c as int < 0x80 then 1
    else if c as int < 0x800 then 2
    else if c as int < 0x1_0000 then 3
    else 4
  }

  /** `str::len`: the length of a string's UTF-8 encoding in bytes, at
      least its number of characters. */
  function Utf8Len(s: string): (n: nat)
    ensures n >= |s|
  {
    if |s| == 0 then 0 else Utf8Width(s[0]) + Utf8Len(s[1..])
  }

  /** A string's byte length equals its character count exactly when it is
      ASCII. */
  lemma {:induction false} Utf8LenAscii(s: string)
    ensures Utf8Len(s) == |s| <==> IsAsciiString(s)
  {
    if |s| > 0 {
      Utf8LenAscii(s[1..]);
      assert forall i | 1 <= i < |s| :: s[i] == s[1..][i - 1];
      if IsAsciiString(s[1..]) && s[0] as int < 128 {
        forall i | 0 <= i < |s|
          ensures s[i] as int < 128
        {
          if i > 0 {
            assert s[i] == s[1..][i - 1];
          }
        }
      }
    }
  }
}
