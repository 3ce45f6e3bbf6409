/** The two text encoders the controller calls: `Encoding.UTF8.GetBytes` on a
    .NET string (a sequence of UTF-16 code units) and `Encoding.ASCII.GetBytes`. */
module TextEncoding {
  import opened Bytes

  /** A .NET string: UTF-16 code units, at most `int.MaxValue` of them, so that
      `Length` is an `int`. */
  type String16 = s: seq<uint16> | |s| < 0x8000_0000

  predicate IsHighSurrogate(u: uint16) { 0xD800 <= u < 0xDC00 }
  predicate IsLowSurrogate(u: uint16) { 0xDC00 <= u < 0xE000 }

  predicate IsAscii(s: seq<uint16>) {
    forall i | 0 <= i < |s| :: s[i] < 0x80
  }

  /** The code units of a string literal whose characters all lie in the
      Basic Multilingual Plane. */
  function Units(t: string): (u: seq<uint16>)
    requires forall i | 0 <= i < |t| :: t[i] as int < 0x1_0000
    ensures |u| == |t| && forall i | 0 <= i < |t| :: u[i] as int == t[i] as int
  {
    seq(|t|, i requires 0 <= i < |t| => t[i] as int as uint16)
  }

  /** `Encoding.UTF8.GetBytes`: a surrogate pair becomes the four-byte form of
      its code point; a surrogate without its partner becomes U+FFFD
      (EF BF BD), the encoder's default replacement. */
  function Utf8(s: seq<uint16>): (r: seq<uint8>)
    decreases |s|
  {
    if s == [] then []
    else
      var u := s[0] as int;
      if u < 0x80 then
        [u as uint8] + Utf8(s[1..])
      else if u < 0x800 then
        [(0xC0 + u / 0x40) as uint8, (0x80 + u % 0x40) as uint8] + Utf8(s[1..])
      else if IsHighSurrogate(s[0]) && |s| >= 2 && IsLowSurrogate(s[1]) then
        var c := 0x1_0000 + (u - 0xD800) * 0x400 + (s[1] as int - 0xDC00);
        [(0xF0 + c / 0x4_0000) as uint8, (0x80 + c / 0x1000 % 0x40) as uint8,
         (0x80 + c / 0x40 % 0x40) as uint8, (0x80 + c % 0x40) as uint8] + Utf8(s[2..])
      else if 0xD800 <= u < 0xE000 then
        [0xEF, 0xBF, 0xBD] + Utf8(s[1..])
      else
        [(0xE0 + u / 0x1000) as uint8, (0x80 + u / 0x40 % 0x40) as uint8,
         (0x80 + u % 0x40) as uint8] + Utf8(s[1..])
  }

  /** UTF-8 never uses fewer bytes than the string has code units, and uses
      exactly as many precisely when every code unit is ASCII. */
  lemma {:induction false} Utf8LengthVersusUnits(s: seq<uint16>)
    ensures |Utf8(s)| >= |s|
    ensures |Utf8(s)| == |s| <==> IsAscii(s)
    decreases |s|
  {
    if s != [] {
      var u := s[0] as int;
      if u < 0x80 {
        Utf8LengthVersusUnits(s[1..]);
        if IsAscii(s[1..]) {
          forall i | 0 <= i < |s| ensures s[i] < 0x80 {
            if i > 0 { assert s[i] == s[1..][i - 1]; }
          }
        }
      } else if u < 0x800 {
        Utf8LengthVersusUnits(s[1..]);
      } else if IsHighSurrogate(s[0]) && |s| >= 2 && IsLowSurrogate(s[1]) {
        Utf8LengthVersusUnits(s[2..]);
      } else {
        Utf8LengthVersusUnits(s[1..]);
      }
    }
  }

  /** An ASCII string encodes to its own code units, one byte each. */
  lemma {:induction false} Utf8OfAscii(s: seq<uint16>)
    requires IsAscii(s)
    ensures |Utf8(s)| == |s|
    ensures forall i | 0 <= i < |s| :: Utf8(s)[i] as int == s[i] as int
    decreases |s|
  {
    if s != [] {
      assert IsAscii(s[1..]) by {
        forall i | 0 <= i < |s| - 1 ensures s[1..][i] < 0x80 {
          assert s[1..][i] == s[i + 1];
        }
      }
      Utf8OfAscii(s[1..]);
      assert Utf8(s) == [s[0] as int as uint8] + Utf8(s[1..]);
    }
  }

  /** `Encoding.ASCII.GetBytes`: characters outside ASCII become '?'. */
  function Ascii(t: string): (r: seq<uint8>)
    ensures |r| == |t|
    ensures forall i | 0 <= i < |t| :: r[i] as int == if t[i] as int < 0x80 then t[i] as int else '?' as int
  {
    seq(|t|, i requires 0 <= i < |t| => if t[i] as int < 0x80 then t[i] as int as uint8 else '?' as int as uint8)
  }
}
