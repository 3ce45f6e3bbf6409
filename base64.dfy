/** Base64 as the controller's `ToBase64` produces it: `Convert.ToBase64String`
    (the standard alphabet of RFC 4648 section 4, with '=' padding) followed by
    three string replacements, which together give the URL-safe alphabet of
    RFC 4648 section 5 with the padding omitted as section 3.2 permits. */
module Base64 {
  import opened Bytes
  import opened Wrappers

  /** A 6-bit group: the index of one base64 character. */
  type Sextet = x: int | 0 <= x < 64

  /** The 6-bit groups of d, most significant bits first; a final group of
      fewer than 6 bits is filled with zero bits. No padding is counted. */
  function Sextets(d: seq<uint8>): (r: seq<Sextet>)
    ensures |r| == (4 * |d| + 2) / 3
    decreases |d|
  {
    if |d| >= 3 then
      var b0, b1, b2 := d[0] as int, d[1] as int, d[2] as int;
      [b0 / 4, b0 % 4 * 16 + b1 / 16, b1 % 16 * 4 + b2 / 64, b2 % 64] + Sextets(d[3..])
    else if |d| == 2 then
      var b0, b1 := d[0] as int, d[1] as int;
      [b0 / 4, b0 % 4 * 16 + b1 / 16, b1 % 16 * 4]
    else if |d| == 1 then
      var b0 := d[0] as int;
      [b0 / 4, b0 % 4 * 16]
    else
      []
  }

  /** Character v of the standard alphabet (RFC 4648, table 1). */
  function StandardChar(v: Sextet): char {
    if v < 26 then ('A' as int + v) as char
    else if v < 52 then ('a' as int + v - 26) as char
    else if v < 62 then ('0' as int + v - 52) as char
    else if v == 62 then '+'
    else '/'
  }

  /** Character v of the URL- and filename-safe alphabet (RFC 4648, table 2). */
  function UrlChar(v: Sextet): char {
    if v == 62 then '-' else if v == 63 then '_' else StandardChar(v)
  }

  predicate IsUrlChar(c: char) {
    'A' <= c <= 'Z' || 'a' <= c <= 'z' || '0' <= c <= '9' || c == '-' || c == '_'
  }

  /** `Convert.ToBase64String(d, Base64FormattingOptions.None)`: standard
      alphabet, padded with '=' to a multiple of four characters, no line breaks. */
  function ConvertToBase64String(d: seq<uint8>): string {
    var sx := Sextets(d);
    seq(|sx|, i requires 0 <= i < |sx| => StandardChar(sx[i]))
      + (if |d| % 3 == 1 then "==" else if |d| % 3 == 2 then "=" else "")
  }

  /** `s.Replace(c.ToString(), string.Empty)`: every occurrence of c removed. */
  function Remove(s: string, c: char): string
    decreases |s|
  {
    if s == [] then [] else (if s[0] == c then [] else [s[0]]) + Remove(s[1..], c)
  }

  /** `s.Replace(c.ToString(), d.ToString())`: every occurrence of c replaced by d. */
  function Replace(s: string, c: char, d: char): string {
    seq(|s|, i requires 0 <= i < |s| => if s[i] == c then d else s[i])
  }

  /** The controller's `ToBase64(byte[])`. */
  function ToBase64(d: seq<uint8>): string {
    Replace(Replace(Remove(ConvertToBase64String(d), '='), '+', '-'), '/', '_')
  }

  /** The reference encoding: unpadded base64url, each 6-bit group spelt in the
      URL-safe alphabet and nothing else. */
  function Base64Url(d: seq<uint8>): (t: string)
    ensures |t| == (4 * |d| + 2) / 3
  {
    var sx := Sextets(d);
    seq(|sx|, i requires 0 <= i < |sx| => UrlChar(sx[i]))
  }

  function SextetOf(c: char): Option<Sextet> {
    if 'A' <= c <= 'Z' then Some(c as int - 'A' as int)
    else if 'a' <= c <= 'z' then Some(c as int - 'a' as int + 26)
    else if '0' <= c <= '9' then Some(c as int - '0' as int + 52)
    else if c == '-' then Some(62)
    else if c == '_' then Some(63)
    else None
  }

  /** Reassembles bytes from 6-bit groups; a lone trailing group cannot carry
      a byte and is rejected. */
  function DecodeSextets(sx: seq<Sextet>): Option<seq<uint8>>
    decreases |sx|
  {
    if |sx| >= 4 then
      var s0, s1, s2, s3 := sx[0] as int, sx[1] as int, sx[2] as int, sx[3] as int;
      match DecodeSextets(sx[4..])
      case None => None
      case Some(rest) =>
        Some([(s0 * 4 + s1 / 16) as uint8, (s1 % 16 * 16 + s2 / 4) as uint8, (s2 % 4 * 64 + s3) as uint8] + rest)
    else if |sx| == 3 then
      var s0, s1, s2 := sx[0] as int, sx[1] as int, sx[2] as int;
      Some([(s0 * 4 + s1 / 16) as uint8, (s1 % 16 * 16 + s2 / 4) as uint8])
    else if |sx| == 2 then
      var s0, s1 := sx[0] as int, sx[1] as int;
      Some([(s0 * 4 + s1 / 16) as uint8])
    else if |sx| == 1 then
      None
    else
      Some([])
  }

  /** The receiving side's decoder for unpadded base64url text. */
  function Base64UrlDecode(t: string): Option<seq<uint8>> {
    if forall i | 0 <= i < |t| :: SextetOf(t[i]).Some? then
      DecodeSextets(seq(|t|, i requires 0 <= i < |t| => SextetOf(t[i]).value))
    else
      None
  }

  lemma {:induction false} RemoveAbsent(s: string, c: char)
    requires forall i | 0 <= i < |s| :: s[i] != c
    ensures Remove(s, c) == s
    decreases |s|
  {
    if s != [] {
      RemoveAbsent(s[1..], c);
    }
  }

  lemma {:induction false} RemoveAppend(a: string, b: string, c: char)
    ensures Remove(a + b, c) == Remove(a, c) + Remove(b, c)
    decreases |a|
  {
    if a == [] {
      assert a + b == b;
    } else {
      assert (a + b)[1..] == a[1..] + b;
      RemoveAppend(a[1..], b, c);
    }
  }

  /** What the three replacements do: strip the padding and move from the
      standard to the URL-safe alphabet. */
  lemma {:induction false} ToBase64IsBase64Url(d: seq<uint8>)
    ensures ToBase64(d) == Base64Url(d)
  {
    var sx := Sextets(d);
    var spelt := seq(|sx|, i requires 0 <= i < |sx| => StandardChar(sx[i]));
    assert Remove(ConvertToBase64String(d), '=') == spelt by {
      var pad := if |d| % 3 == 1 then "==" else if |d| % 3 == 2 then "=" else "";
      assert ConvertToBase64String(d) == spelt + pad;
      RemoveAppend(spelt, pad, '=');
      RemoveAbsent(spelt, '=');
      assert Remove(pad, '=') == [] by {
        assert Remove("=", '=') == [];
        assert Remove("==", '=') == [] + Remove("=", '=');
      }
    }
  }

  /** Every character of the output is in the URL-safe alphabet (so none is
      '=', '+' or '/') and n bytes give exactly ceil(4n/3) characters. */
  lemma {:induction false} ToBase64Alphabet(d: seq<uint8>)
    ensures |ToBase64(d)| == (4 * |d| + 2) / 3
    ensures forall i | 0 <= i < |ToBase64(d)| :: IsUrlChar(ToBase64(d)[i])
    ensures forall i | 0 <= i < |ToBase64(d)| :: ToBase64(d)[i] !in "=+/."
  {
    ToBase64IsBase64Url(d);
  }

  /** The `.Replace("=", string.Empty)` applied again to an already encoded
      payload changes nothing. */
  lemma {:induction false} StripPaddingIsNoOp(d: seq<uint8>)
    ensures Remove(ToBase64(d), '=') == ToBase64(d)
  {
    ToBase64Alphabet(d);
    RemoveAbsent(ToBase64(d), '=');
  }

  /** Three bytes survive the split into four 6-bit groups. */
  lemma {:induction false} GroupRoundTrip(b0: int, b1: int, b2: int)
    requires 0 <= b0 < 256 && 0 <= b1 < 256 && 0 <= b2 < 256
    ensures var s0, s1, s2, s3 := b0 / 4, b0 % 4 * 16 + b1 / 16, b1 % 16 * 4 + b2 / 64, b2 % 64;
      s0 * 4 + s1 / 16 == b0 && s1 % 16 * 16 + s2 / 4 == b1 && s2 % 4 * 64 + s3 == b2
  {
    var s1 := b0 % 4 * 16 + b1 / 16;
    assert s1 / 16 == b0 % 4 && s1 % 16 == b1 / 16;
    var s2 := b1 % 16 * 4 + b2 / 64;
    assert s2 / 4 == b1 % 16 && s2 % 4 == b2 / 64;
  }

  /** One full group: if the rest decodes back, so does the whole. */
  lemma {:induction false} DecodeGroup(d: seq<uint8>)
    requires |d| >= 3 && DecodeSextets(Sextets(d[3..])) == Some(d[3..])
    ensures DecodeSextets(Sextets(d)) == Some(d)
  {
    var sx := Sextets(d);
    var s0, s1, s2, s3 := sx[0] as int, sx[1] as int, sx[2] as int, sx[3] as int;
    var group: seq<uint8> := [(s0 * 4 + s1 / 16) as uint8, (s1 % 16 * 16 + s2 / 4) as uint8, (s2 % 4 * 64 + s3) as uint8];
    assert sx[4..] == Sextets(d[3..]);
    assert DecodeSextets(sx) == Some(group + d[3..]);
    GroupRoundTrip(d[0] as int, d[1] as int, d[2] as int);
    assert d == group + d[3..];
  }

  /** The one- and two-byte tails decode back. */
  lemma {:induction false} DecodeTail(d: seq<uint8>)
    requires |d| < 3
    ensures DecodeSextets(Sextets(d)) == Some(d)
  {
    if |d| == 2 {
      GroupRoundTrip(d[0] as int, d[1] as int, 0);
      assert d == [d[0], d[1]];
    } else if |d| == 1 {
      assert d == [d[0]];
    }
  }

  lemma {:induction false} DecodeSextetsRoundTrip(d: seq<uint8>)
    ensures DecodeSextets(Sextets(d)) == Some(d)
    decreases |d|
  {
    if |d| >= 3 {
      DecodeSextetsRoundTrip(d[3..]);
      DecodeGroup(d);
    } else {
      DecodeTail(d);
    }
  }

  /** Decoding the unpadded base64url output gives back the original bytes. */
  lemma {:induction false} ToBase64RoundTrip(d: seq<uint8>)
    ensures Base64UrlDecode(ToBase64(d)) == Some(d)
  {
    ToBase64IsBase64Url(d);
    var t := ToBase64(d);
    var sx := Sextets(d);
    assert forall i | 0 <= i < |t| :: SextetOf(t[i]) == Some(sx[i]);
    assert seq(|t|, i requires 0 <= i < |t| => SextetOf(t[i]).value) == sx;
    DecodeSextetsRoundTrip(d);
  }

  /** Distinct byte strings never share an encoding. */
  lemma {:induction false} ToBase64Injective(a: seq<uint8>, b: seq<uint8>)
    requires ToBase64(a) == ToBase64(b)
    ensures a == b
  {
    ToBase64RoundTrip(a);
    ToBase64RoundTrip(b);
  }
}
