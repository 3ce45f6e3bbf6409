/** The part of the Erlang External Term Format the token payload uses, seen
    from the receiving application's side: a decoder for the version byte and
    the SMALL_TUPLE_EXT, BINARY_EXT, INTEGER_EXT and SMALL_BIG_EXT terms. The
    payload builders are checked against it. */
module ExternalTerm {
  import opened Bytes
  import opened Wrappers

  const VersionMagic: uint8 := 131
  const SmallTupleExt: uint8 := 104
  const BinaryExt: uint8 := 109
  const IntegerExt: uint8 := 98
  const SmallBigExt: uint8 := 110

  datatype Term =
    | SmallTuple(elements: seq<Term>)
    | Binary(data: seq<uint8>)
    | Integer(value: int)
    | SmallBig(value: int)

  /** The signed 32-bit integer whose two's complement is the low 32 bits of n. */
  function Signed32(n: int): (v: int)
    ensures -0x8000_0000 <= v < 0x8000_0000
    ensures (n - v) % 0x1_0000_0000 == 0
  {
    var u := n % 0x1_0000_0000;
    if u < 0x8000_0000 then u else u - 0x1_0000_0000
  }

  /** One term at the front of s, and what follows it. */
  function ParseTerm(s: seq<uint8>): (r: Option<(Term, seq<uint8>)>)
    ensures r.Some? ==> |r.value.1| < |s|
    decreases |s|, 0
  {
    if |s| == 0 then None
    else if s[0] == SmallTupleExt && |s| >= 2 then
      match ParseTerms(s[2..], s[1] as nat)
      case None => None
      case Some((elements, rest)) => Some((SmallTuple(elements), rest))
    else if s[0] == BinaryExt && |s| >= 5 then
      var len := BigEndianValue(s[1..5]);
      if 5 + len <= |s| then Some((Binary(s[5..5 + len]), s[5 + len..])) else None
    else if s[0] == IntegerExt && |s| >= 5 then
      Some((Integer(Signed32(BigEndianValue(s[1..5]))), s[5..]))
    else if s[0] == SmallBigExt && |s| >= 3 && 3 + s[1] as int <= |s| then
      var magnitude: int := LittleEndianValue(s[3..3 + s[1] as int]);
      Some((SmallBig(if s[2] == 0 then magnitude else -magnitude), s[3 + s[1] as int..]))
    else None
  }

  /** n terms one after another at the front of s, and what follows them. */
  function ParseTerms(s: seq<uint8>, n: nat): (r: Option<(seq<Term>, seq<uint8>)>)
    ensures r.Some? ==> |r.value.0| == n && |r.value.1| <= |s|
    decreases |s|, 1, n
  {
    if n == 0 then Some(([], s))
    else
      match ParseTerm(s)
      case None => None
      case Some((t, rest)) =>
        match ParseTerms(rest, n - 1)
        case None => None
        case Some((ts, rest')) => Some(([t] + ts, rest'))
  }

  /** `binary_to_term` on these tags: the version byte, one term, and nothing after it. */
  function Decode(s: seq<uint8>): Option<Term> {
    if |s| >= 1 && s[0] == VersionMagic then
      match ParseTerm(s[1..])
      case Some((t, rest)) => if rest == [] then Some(t) else None
      case None => None
    else None
  }

  lemma {:induction false} Pow256Widths()
    ensures Pow256(4) == 0x1_0000_0000
    ensures Pow256(6) == 0x1_0000_0000_0000
  {
    assert Pow256(2) == 0x1_0000;
    assert Pow256(4) == 256 * (256 * Pow256(2));
    assert Pow256(6) == 256 * (256 * Pow256(4));
  }

  /** An INTEGER_EXT holding the low 32 bits of n reads back as their signed value. */
  lemma {:induction false} ParseInteger(n: int, rest: seq<uint8>)
    ensures ParseTerm([IntegerExt] + BigEndian(n, 4) + rest) == Some((Integer(Signed32(n)), rest))
  {
    var s := [IntegerExt] + BigEndian(n, 4) + rest;
    assert s[1..5] == BigEndian(n, 4);
    assert s[5..] == rest;
    var u := n % 0x1_0000_0000;
    assert BigEndianValue(s[1..5]) == u by {
      BigEndianRoundTrip(n, 4);
      Pow256Widths();
    }
    assert u % 0x1_0000_0000 == u;
    assert Signed32(u) == Signed32(n);
  }

  /** A non-negative SMALL_BIG_EXT reads back as the number its digits spell. */
  lemma {:induction false} ParseSmallBig(digits: seq<uint8>, rest: seq<uint8>)
    requires |digits| < 256
    ensures ParseTerm([SmallBigExt, |digits| as uint8, 0] + digits + rest)
      == Some((SmallBig(LittleEndianValue(digits)), rest))
  {
    var s := [SmallBigExt, |digits| as uint8, 0] + digits + rest;
    assert s[3..3 + |digits|] == digits;
    assert s[3 + |digits|..] == rest;
  }

  /** A BINARY_EXT whose length field is the length of its data reads back as that data. */
  lemma {:induction false} ParseBinary(data: seq<uint8>, rest: seq<uint8>)
    requires |data| < 0x1_0000_0000
    ensures ParseTerm([BinaryExt] + BigEndian(|data|, 4) + data + rest) == Some((Binary(data), rest))
  {
    var s := [BinaryExt] + BigEndian(|data|, 4) + data + rest;
    assert s[1..5] == BigEndian(|data|, 4);
    assert BigEndianValue(s[1..5]) == |data| by {
      BigEndianRoundTrip(|data|, 4);
      Pow256Widths();
    }
    assert s[5..5 + |data|] == data;
    assert s[5 + |data|..] == rest;
  }

  /** Whatever a BINARY_EXT holds is exactly as long as its length field says. */
  lemma {:induction false} BinaryLengthIsItsField(n: int, tail: seq<uint8>, t: Term, rest: seq<uint8>)
    requires ParseTerm([BinaryExt] + BigEndian(n, 4) + tail) == Some((t, rest))
    ensures t.Binary? && |t.data| == n % 0x1_0000_0000
  {
    var s := [BinaryExt] + BigEndian(n, 4) + tail;
    assert s[1..5] == BigEndian(n, 4);
    BigEndianRoundTrip(n, 4);
    Pow256Widths();
  }

  /** A decoded payload is the version byte followed by exactly one term. */
  lemma {:induction false} DecodeVersion(body: seq<uint8>, t: Term)
    ensures Decode([VersionMagic] + body) == Some(t) <==> ParseTerm(body) == Some((t, []))
  {
    assert ([VersionMagic] + body)[1..] == body;
  }

  /** A SMALL_TUPLE_EXT of arity n holds the next n terms. */
  lemma {:induction false} ParseTuple(body: seq<uint8>, n: nat, t: Term, rest: seq<uint8>)
    requires n < 256
    ensures ParseTerm([SmallTupleExt, n as uint8] + body) == Some((t, rest))
      <==> t.SmallTuple? && ParseTerms(body, n) == Some((t.elements, rest))
  {
    assert ([SmallTupleExt, n as uint8] + body)[2..] == body;
  }

  /** n + 1 terms are one term followed by n more. */
  lemma {:induction false} ParseTermsCons(s: seq<uint8>, n: nat, ts: seq<Term>, rest: seq<uint8>)
    ensures ParseTerms(s, n + 1) == Some((ts, rest))
      <==> ParseTerm(s).Some? && |ts| == n + 1
           && ParseTerm(s).value.0 == ts[0]
           && ParseTerms(ParseTerm(s).value.1, n) == Some((ts[1..], rest))
  {
    if ParseTerm(s).Some? && |ts| == n + 1 {
      assert ts == [ts[0]] + ts[1..];
    }
  }
}
