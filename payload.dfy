/** The two payload layouts the controller writes, as byte strings: the fixed
    29-byte Login record and the variable-length Signup record. The methods of
    `AuthController` build them in arrays and are proved to produce these. */
module TokenPayload {
  import opened Bytes
  import opened TextEncoding
  import opened ExternalTerm
  import opened Wrappers

  /** The Login record as laid out before patching: version byte, a 3-tuple
      whose first element is a 2-tuple of two INTEGER_EXTs (user id, last
      login), then a 6-digit SMALL_BIG_EXT (creation time in milliseconds) and
      an INTEGER_EXT (validity). */
  const LoginTemplate: seq<uint8> := [
    131,
    104, 3,
    104, 2,
    98, 0, 0, 0, 2,
    98, 97, 116, 160, 236,
    110, 6, 0, 112, 184, 177, 175, 124, 1,
    98, 0, 1, 81, 128]

  const UserIdOffset := 6
  const LastLoginOffset := 11
  const LoginCreatedOffset := 18

  /** Version byte, a 3-tuple, and the BINARY_EXT tag of the email. */
  const SignupHeader: seq<uint8> := [131, 104, 3, 109]

  /** The SMALL_BIG_EXT creation time and the validity INTEGER_EXT that close
      the Signup record, before the time is patched in. */
  const SignupFooterTemplate: seq<uint8> := [
    110, 6, 0, 214, 60, 87, 174, 124, 1,
    98, 0, 1, 81, 128]

  const FooterCreatedOffset := 3

  /** The validity INTEGER_EXT both records end with: 0x00015180. */
  const ValidityMarker: seq<uint8> := [98, 0, 1, 81, 128]
  const ValiditySeconds := 86400

  /** s with the |w| bytes starting at offset replaced by w. */
  function Patch(s: seq<uint8>, offset: nat, w: seq<uint8>): (r: seq<uint8>)
    requires offset + |w| <= |s|
    ensures |r| == |s|
  {
    s[..offset] + w + s[offset + |w|..]
  }

  /** Inside the window the patch holds w; outside it, s is unchanged. */
  lemma {:induction false} PatchAt(s: seq<uint8>, offset: nat, w: seq<uint8>)
    requires offset + |w| <= |s|
    ensures forall i | 0 <= i < |s| ::
      Patch(s, offset, w)[i] == if offset <= i < offset + |w| then w[i - offset] else s[i]
  {
  }

  /** The six creation-time bytes: the low 48 bits of the clock, least
      significant first, as SMALL_BIG_EXT digits are ordered. */
  function CreatedBytes(nowMs: int64): (r: seq<uint8>)
    ensures |r| == 6
  {
    LittleEndian(nowMs as int, 6)
  }

  function LoginPayload(id: int64, lastLoginSeconds: int64, nowMs: int64): (p: seq<uint8>)
    ensures |p| == |LoginTemplate|
  {
    var withId := Patch(LoginTemplate, UserIdOffset, BigEndian(id as int, 4));
    var withLastLogin := Patch(withId, LastLoginOffset, BigEndian(lastLoginSeconds as int, 4));
    Patch(withLastLogin, LoginCreatedOffset, CreatedBytes(nowMs))
  }

  function SignupFooter(nowMs: int64): (r: seq<uint8>)
    ensures |r| == |SignupFooterTemplate|
  {
    Patch(SignupFooterTemplate, FooterCreatedOffset, CreatedBytes(nowMs))
  }

  /** The length field holds `email.Length`, the number of UTF-16 code units,
      while the bytes that follow are the UTF-8 encoding. */
  function SignupPayload(email: String16, nowMs: int64): seq<uint8> {
    SignupHeader + BigEndian(|email|, 4) + Utf8(email) + SignupFooter(nowMs)
  }

  /** The term the receiving application should find in a Login payload:
      {{id, lastLogin}, createdMs, 86400}. */
  function LoginTerm(id: int64, lastLoginSeconds: int64, nowMs: int64): Term {
    SmallTuple([
      SmallTuple([Integer(Signed32(id as int)), Integer(Signed32(lastLoginSeconds as int))]),
      SmallBig(nowMs as int % 0x1_0000_0000_0000),
      Integer(ValiditySeconds)])
  }

  /** The term the receiving application should find in a Signup payload:
      {email, createdMs, 86400}. */
  function SignupTerm(email: String16, nowMs: int64): Term {
    SmallTuple([Binary(Utf8(email)), SmallBig(nowMs as int % 0x1_0000_0000_0000), Integer(ValiditySeconds)])
  }

  predicate InLoginWindow(i: int) {
    UserIdOffset <= i < UserIdOffset + 4
    || LastLoginOffset <= i < LastLoginOffset + 4
    || LoginCreatedOffset <= i < LoginCreatedOffset + 6
  }

  lemma {:induction false} CreatedBytesValue(nowMs: int64)
    ensures LittleEndianValue(CreatedBytes(nowMs)) == nowMs as int % 0x1_0000_0000_0000
  {
    LittleEndianRoundTrip(nowMs as int, 6);
    Pow256Widths();
  }

  /** The Login layout around its three variable words: the user id and the
      last login time (each the body of an INTEGER_EXT) and the six digits of
      the creation time. */
  function LoginRecord(idWord: seq<uint8>, lastLoginWord: seq<uint8>, created: seq<uint8>): seq<uint8> {
    [VersionMagic, SmallTupleExt, 3, SmallTupleExt, 2]
      + ([IntegerExt] + idWord)
      + ([IntegerExt] + lastLoginWord)
      + ([SmallBigExt, 6, 0] + created)
      + ValidityMarker
  }

  lemma {:induction false} TemplateIsRecord()
    ensures LoginTemplate == LoginRecord([0, 0, 0, 2], [97, 116, 160, 236], [112, 184, 177, 175, 124, 1])
  {
  }

  /** Where each word of a Login record lies. */
  lemma {:induction false} RecordSlices(idWord: seq<uint8>, lastLoginWord: seq<uint8>, created: seq<uint8>)
    requires |idWord| == 4 && |lastLoginWord| == 4 && |created| == 6
    ensures var p := LoginRecord(idWord, lastLoginWord, created);
      && |p| == 29
      && p[..UserIdOffset] == [VersionMagic, SmallTupleExt, 3, SmallTupleExt, 2, IntegerExt]
      && p[UserIdOffset..UserIdOffset + 4] == idWord
      && p[UserIdOffset + 4..] == [IntegerExt] + lastLoginWord + ([SmallBigExt, 6, 0] + created) + ValidityMarker
      && p[..LastLoginOffset] == [VersionMagic, SmallTupleExt, 3, SmallTupleExt, 2, IntegerExt] + idWord + [IntegerExt]
      && p[LastLoginOffset..LastLoginOffset + 4] == lastLoginWord
      && p[LastLoginOffset + 4..] == [SmallBigExt, 6, 0] + created + ValidityMarker
      && p[..LoginCreatedOffset] == [VersionMagic, SmallTupleExt, 3, SmallTupleExt, 2] + ([IntegerExt] + idWord) + ([IntegerExt] + lastLoginWord) + [SmallBigExt, 6, 0]
      && p[LoginCreatedOffset..LoginCreatedOffset + 6] == created
      && p[LoginCreatedOffset + 6..] == ValidityMarker
  {
  }

  /** Patching a window of a Login record replaces that word and nothing else. */
  lemma {:induction false} PatchIdWord(idWord: seq<uint8>, lastLoginWord: seq<uint8>, created: seq<uint8>, w: seq<uint8>)
    requires |idWord| == 4 && |lastLoginWord| == 4 && |created| == 6 && |w| == 4
    ensures Patch(LoginRecord(idWord, lastLoginWord, created), UserIdOffset, w) == LoginRecord(w, lastLoginWord, created)
  {
    RecordSlices(idWord, lastLoginWord, created);
    RecordSlices(w, lastLoginWord, created);
  }

  lemma {:induction false} PatchLastLoginWord(idWord: seq<uint8>, lastLoginWord: seq<uint8>, created: seq<uint8>, w: seq<uint8>)
    requires |idWord| == 4 && |lastLoginWord| == 4 && |created| == 6 && |w| == 4
    ensures Patch(LoginRecord(idWord, lastLoginWord, created), LastLoginOffset, w) == LoginRecord(idWord, w, created)
  {
    RecordSlices(idWord, lastLoginWord, created);
    RecordSlices(idWord, w, created);
  }

  lemma {:induction false} PatchCreatedWord(idWord: seq<uint8>, lastLoginWord: seq<uint8>, created: seq<uint8>, w: seq<uint8>)
    requires |idWord| == 4 && |lastLoginWord| == 4 && |created| == 6 && |w| == 6
    ensures Patch(LoginRecord(idWord, lastLoginWord, created), LoginCreatedOffset, w) == LoginRecord(idWord, lastLoginWord, w)
  {
    RecordSlices(idWord, lastLoginWord, created);
    RecordSlices(idWord, lastLoginWord, w);
  }

  /** The Login payload, tag by tag. */
  lemma {:induction false} LoginPayloadTerms(id: int64, lastLoginSeconds: int64, nowMs: int64)
    ensures LoginPayload(id, lastLoginSeconds, nowMs)
      == LoginRecord(BigEndian(id as int, 4), BigEndian(lastLoginSeconds as int, 4), CreatedBytes(nowMs))
  {
    var idWord, lastWord := BigEndian(id as int, 4), BigEndian(lastLoginSeconds as int, 4);
    var templateId, templateLast: seq<uint8> := [0, 0, 0, 2], [97, 116, 160, 236];
    var templateCreated: seq<uint8> := [112, 184, 177, 175, 124, 1];
    TemplateIsRecord();
    PatchIdWord(templateId, templateLast, templateCreated, idWord);
    PatchLastLoginWord(idWord, templateLast, templateCreated, lastWord);
    PatchCreatedWord(idWord, lastWord, templateCreated, CreatedBytes(nowMs));
  }

  /** The Login payload is 29 bytes; outside its three windows it is the
      template; the windows hold the low 32 bits of the user id and of the last
      login time, most significant first, and the low 48 bits of the clock,
      least significant first. */
  lemma {:induction false} LoginLayout(id: int64, lastLoginSeconds: int64, nowMs: int64)
    ensures var p := LoginPayload(id, lastLoginSeconds, nowMs);
      && |p| == 29
      && (forall i | 0 <= i < 29 && !InLoginWindow(i) :: p[i] == LoginTemplate[i])
      && p[6..10] == BigEndian(id as int, 4)
      && BigEndianValue(p[6..10]) == id as int % 0x1_0000_0000
      && p[11..15] == BigEndian(lastLoginSeconds as int, 4)
      && BigEndianValue(p[11..15]) == lastLoginSeconds as int % 0x1_0000_0000
      && LittleEndianValue(p[18..24]) == nowMs as int % 0x1_0000_0000_0000
  {
    var idWord, lastWord, created := BigEndian(id as int, 4), BigEndian(lastLoginSeconds as int, 4), CreatedBytes(nowMs);
    assert BigEndianValue(idWord) == id as int % 0x1_0000_0000 by {
      BigEndianRoundTrip(id as int, 4);
      Pow256Widths();
    }
    assert BigEndianValue(lastWord) == lastLoginSeconds as int % 0x1_0000_0000 by {
      BigEndianRoundTrip(lastLoginSeconds as int, 4);
      Pow256Widths();
    }
    CreatedBytesValue(nowMs);
    LoginPayloadTerms(id, lastLoginSeconds, nowMs);
    RecordsAgreeOutsideWindows(idWord, lastWord, created, [0, 0, 0, 2], [97, 116, 160, 236], [112, 184, 177, 175, 124, 1]);
    TemplateIsRecord();
    RecordSlices(idWord, lastWord, created);
  }

  /** Two Login records differ at most inside the three windows. */
  lemma {:induction false} RecordsAgreeOutsideWindows(a: seq<uint8>, b: seq<uint8>, c: seq<uint8>, a': seq<uint8>, b': seq<uint8>, c': seq<uint8>)
    requires |a| == 4 && |b| == 4 && |c| == 6 && |a'| == 4 && |b'| == 4 && |c'| == 6
    ensures forall i | 0 <= i < 29 && !InLoginWindow(i) :: LoginRecord(a, b, c)[i] == LoginRecord(a', b', c')[i]
  {
    var p, q := LoginRecord(a, b, c), LoginRecord(a', b', c');
    forall i | 0 <= i < 29 && !InLoginWindow(i) ensures p[i] == q[i] {
      RecordSlices(a, b, c);
      RecordSlices(a', b', c');
      if i < UserIdOffset {
        assert p[i] == p[..UserIdOffset][i];
        assert q[i] == q[..UserIdOffset][i];
      } else if i < LastLoginOffset {
        assert p[i] == p[LastLoginOffset - 1] && q[i] == q[LastLoginOffset - 1];
        assert p[..LastLoginOffset][10] == IntegerExt;
      } else if i < LoginCreatedOffset {
        assert p[i] == p[LastLoginOffset + 4..][i - LastLoginOffset - 4];
        assert q[i] == q[LastLoginOffset + 4..][i - LastLoginOffset - 4];
      } else {
        assert p[i] == p[LoginCreatedOffset + 6..][i - LoginCreatedOffset - 6];
        assert q[i] == q[LoginCreatedOffset + 6..][i - LoginCreatedOffset - 6];
      }
    }
  }

  /** User 2 whose last login was 2022-01-01T00:00:00Z (1640995200 seconds,
      0x61CF9980). */
  lemma {:induction false} LoginExample(nowMs: int64)
    ensures LoginPayload(2, 1640995200, nowMs)[6..10] == [0, 0, 0, 2]
    ensures LoginPayload(2, 1640995200, nowMs)[11..15] == [0x61, 0xCF, 0x99, 0x80]
  {
    assert BigEndian(2, 4) == [0, 0, 0, 2];
    assert BigEndian(1640995200, 4) == [0x61, 0xCF, 0x99, 0x80];
    LoginLayout(2, 1640995200, nowMs);
  }

  /** The creation time and the validity that close both records. */
  lemma {:induction false} ParseClosingTerms(created: seq<uint8>)
    requires |created| == 6
    ensures ParseTerms([SmallBigExt, 6, 0] + created + ValidityMarker, 2)
      == Some(([SmallBig(LittleEndianValue(created)), Integer(ValiditySeconds)], []))
  {
    var validity := Integer(ValiditySeconds);
    ParseSmallBig(created, ValidityMarker);
    assert ValidityMarker == [IntegerExt] + BigEndian(ValiditySeconds, 4) + [];
    ParseInteger(ValiditySeconds, []);
    assert Signed32(ValiditySeconds) == ValiditySeconds;
    assert ParseTerm(ValidityMarker) == Some((validity, []));
    assert ParseTerms([], 0) == Some(([], []));
    assert [validity][1..] == [];
    ParseTermsCons(ValidityMarker, 0, [validity], []);
    assert ParseTerms(ValidityMarker, 1) == Some(([validity], []));
    var closing := [SmallBigExt, 6, 0] + created + ValidityMarker;
    var both := [SmallBig(LittleEndianValue(created)), validity];
    assert ParseTerm(closing) == Some((both[0], ValidityMarker));
    assert both[1..] == [validity];
    ParseTermsCons(closing, 1, both, []);
  }

  /** The inner 2-tuple of a Login record: two INTEGER_EXTs. */
  lemma {:induction false} ParseLoginPair(id: int, lastLoginSeconds: int, rest: seq<uint8>)
    ensures ParseTerm([SmallTupleExt, 2] + ([IntegerExt] + BigEndian(id, 4)) + ([IntegerExt] + BigEndian(lastLoginSeconds, 4)) + rest)
      == Some((SmallTuple([Integer(Signed32(id)), Integer(Signed32(lastLoginSeconds))]), rest))
  {
    var idField := [IntegerExt] + BigEndian(id, 4);
    var lastField := [IntegerExt] + BigEndian(lastLoginSeconds, 4);
    var elements := [Integer(Signed32(id)), Integer(Signed32(lastLoginSeconds))];
    var body := idField + lastField + rest;
    ParseInteger(id, lastField + rest);
    assert idField + (lastField + rest) == body;
    ParseInteger(lastLoginSeconds, rest);
    assert ParseTerms(rest, 0) == Some(([], rest));
    assert elements[1..][1..] == [];
    ParseTermsCons(lastField + rest, 0, elements[1..], rest);
    ParseTermsCons(body, 1, elements, rest);
    assert ParseTerms(body, 2) == Some((elements, rest));
    ParseTuple(body, 2, SmallTuple(elements), rest);
    assert [SmallTupleExt, 2 as uint8] + body == [SmallTupleExt, 2] + idField + lastField + rest;
  }

  /** A Login-shaped record seen as the version byte, the outer tuple tag and its body. */
  lemma {:induction false} LoginRegroup(idField: seq<uint8>, lastField: seq<uint8>, created: seq<uint8>, validity: seq<uint8>)
    ensures [VersionMagic, SmallTupleExt, 3, SmallTupleExt, 2] + idField + lastField + created + validity
      == [VersionMagic] + ([SmallTupleExt, 3] + ([SmallTupleExt, 2] + idField + lastField + (created + validity)))
  {
  }

  /** A Signup-shaped record seen as the version byte, the tuple tag and its body. */
  lemma {:induction false} SignupRegroup(len: seq<uint8>, data: seq<uint8>, closing: seq<uint8>)
    ensures SignupHeader + len + data + closing
      == [VersionMagic] + ([SmallTupleExt, 3] + ([BinaryExt] + len + data + closing))
    ensures SignupHeader + len + data + closing
      == [VersionMagic] + ([SmallTupleExt, 3] + ([BinaryExt] + len + (data + closing)))
  {
  }

  /** A Login-shaped record decodes to {{id, lastLogin}, time, 86400}. */
  lemma {:induction false} LoginShapeDecodes(id: int, lastLoginSeconds: int, created: seq<uint8>)
    requires |created| == 6
    ensures Decode([VersionMagic, SmallTupleExt, 3, SmallTupleExt, 2]
                   + ([IntegerExt] + BigEndian(id, 4))
                   + ([IntegerExt] + BigEndian(lastLoginSeconds, 4))
                   + ([SmallBigExt, 6, 0] + created)
                   + ValidityMarker)
      == Some(SmallTuple([
           SmallTuple([Integer(Signed32(id)), Integer(Signed32(lastLoginSeconds))]),
           SmallBig(LittleEndianValue(created)),
           Integer(ValiditySeconds)]))
  {
    var idField := [IntegerExt] + BigEndian(id, 4);
    var lastField := [IntegerExt] + BigEndian(lastLoginSeconds, 4);
    var closing := [SmallBigExt, 6, 0] + created + ValidityMarker;
    var elements := [
      SmallTuple([Integer(Signed32(id)), Integer(Signed32(lastLoginSeconds))]),
      SmallBig(LittleEndianValue(created)),
      Integer(ValiditySeconds)];
    var outerBody := [SmallTupleExt, 2] + idField + lastField + closing;
    ParseLoginPair(id, lastLoginSeconds, closing);
    assert ParseTerm(outerBody) == Some((elements[0], closing));
    ParseClosingTerms(created);
    assert ParseTerms(closing, 2) == Some((elements[1..], []));
    ParseTermsCons(outerBody, 2, elements, []);
    ParseTuple(outerBody, 3, SmallTuple(elements), []);
    LoginRegroup(idField, lastField, [SmallBigExt, 6, 0] + created, ValidityMarker);
    DecodeVersion([SmallTupleExt, 3] + outerBody, SmallTuple(elements));
  }

  /** The receiving decoder reads a Login payload as {{id, lastLogin}, createdMs,
      86400}, each integer reduced to the width its field has. */
  lemma {:induction false} LoginPayloadDecodes(id: int64, lastLoginSeconds: int64, nowMs: int64)
    ensures Decode(LoginPayload(id, lastLoginSeconds, nowMs)) == Some(LoginTerm(id, lastLoginSeconds, nowMs))
  {
    LoginPayloadTerms(id, lastLoginSeconds, nowMs);
    CreatedBytesValue(nowMs);
    LoginShapeDecodes(id as int, lastLoginSeconds as int, CreatedBytes(nowMs));
  }

  lemma {:induction false} SignupFooterLayout(nowMs: int64)
    ensures SignupFooter(nowMs) == [SmallBigExt, 6, 0] + CreatedBytes(nowMs) + ValidityMarker
  {
    assert SignupFooterTemplate[..3] == [SmallBigExt, 6, 0];
    assert SignupFooterTemplate[9..] == ValidityMarker;
  }

  lemma {:induction false} SignupPayloadParts(email: String16, nowMs: int64)
    ensures SignupPayload(email, nowMs)
      == SignupHeader + BigEndian(|email|, 4) + Utf8(email) + ([SmallBigExt, 6, 0] + CreatedBytes(nowMs) + ValidityMarker)
  {
    SignupFooterLayout(nowMs);
  }

  /** Where each part of a Signup record lies, whatever the email bytes are. */
  lemma {:induction false} SignupSlices(len: seq<uint8>, utf8: seq<uint8>, created: seq<uint8>)
    requires |len| == 4 && |created| == 6
    ensures var p, n := SignupHeader + len + utf8 + ([SmallBigExt, 6, 0] + created + ValidityMarker), |utf8|;
      && |p| == 22 + n
      && p[..4] == SignupHeader
      && p[4..8] == len
      && p[8..8 + n] == utf8
      && p[8 + n..8 + n + 3] == [SmallBigExt, 6, 0]
      && p[8 + n + 3..8 + n + 9] == created
      && p[8 + n + 9..] == ValidityMarker
  {
    var footer := [SmallBigExt, 6, 0] + created + ValidityMarker;
    var front := SignupHeader + len + utf8;
    var p, n := front + footer, |utf8|;
    assert p[..4] == SignupHeader;
    assert p[4..8] == len;
    assert p[8..8 + n] == utf8;
    assert p[8 + n..] == footer;
    assert footer[3..9] == created;
    assert footer[9..] == ValidityMarker;
  }

  /** A length below 2^32 survives the 4-byte big-endian length field. */
  lemma {:induction false} LengthFieldValue(n: nat)
    requires n < 0x1_0000_0000
    ensures BigEndianValue(BigEndian(n, 4)) == n
  {
    BigEndianRoundTrip(n, 4);
    Pow256Widths();
    DivModUnique(n, Pow256(4), 0, n);
  }

  /** The Signup payload is 22 bytes plus the UTF-8 encoding of the email: the
      header, the email's UTF-16 length most significant first, the UTF-8 bytes,
      then the footer with the low 48 bits of the clock patched in at footer
      offset 3. */
  lemma {:induction false} SignupLayout(email: String16, nowMs: int64)
    ensures var p, n := SignupPayload(email, nowMs), |Utf8(email)|;
      && |p| == 22 + n
      && p[..4] == SignupHeader
      && BigEndianValue(p[4..8]) == |email|
      && p[8..8 + n] == Utf8(email)
      && p[8 + n..8 + n + 3] == [SmallBigExt, 6, 0]
      && LittleEndianValue(p[8 + n + 3..8 + n + 9]) == nowMs as int % 0x1_0000_0000_0000
      && p[8 + n + 9..] == ValidityMarker
  {
    var len, created := BigEndian(|email|, 4), CreatedBytes(nowMs);
    LengthFieldValue(|email|);
    CreatedBytesValue(nowMs);
    SignupPayloadParts(email, nowMs);
    SignupSlices(len, Utf8(email), created);
  }

  /** For "a@b.com" the length field is 00 00 00 07 and the seven ASCII bytes follow. */
  lemma {:induction false} SignupExample(email: String16, nowMs: int64)
    requires email == Units("a@b.com")
    ensures var p := SignupPayload(email, nowMs);
      p[4..8] == [0, 0, 0, 7] && p[8..15] == [0x61, 0x40, 0x62, 0x2E, 0x63, 0x6F, 0x6D]
  {
    assert email == [0x61, 0x40, 0x62, 0x2E, 0x63, 0x6F, 0x6D];
    assert BigEndian(|email|, 4) == [0, 0, 0, 7] by {
      assert BigEndian(7, 4) == [0, 0, 0, 7];
    }
    assert Utf8(email) == [0x61, 0x40, 0x62, 0x2E, 0x63, 0x6F, 0x6D] by {
      Utf8OfAscii(email);
    }
    SignupPayloadParts(email, nowMs);
    SignupSlices(BigEndian(|email|, 4), Utf8(email), CreatedBytes(nowMs));
  }

  /** A Signup-shaped record whose length field is the length of the binary
      that follows decodes to that binary, the time and the validity. */
  lemma {:induction false} SignupShapeDecodes(data: seq<uint8>, created: seq<uint8>)
    requires |data| < 0x1_0000_0000 && |created| == 6
    ensures Decode(SignupHeader + BigEndian(|data|, 4) + data + ([SmallBigExt, 6, 0] + created + ValidityMarker))
      == Some(SmallTuple([Binary(data), SmallBig(LittleEndianValue(created)), Integer(ValiditySeconds)]))
  {
    var closing := [SmallBigExt, 6, 0] + created + ValidityMarker;
    var binary := [BinaryExt] + BigEndian(|data|, 4) + data + closing;
    var t := SmallTuple([Binary(data), SmallBig(LittleEndianValue(created)), Integer(ValiditySeconds)]);
    ParseBinary(data, closing);
    assert ParseTerm(binary) == Some((Binary(data), closing));
    ParseClosingTerms(created);
    assert t.elements[1..] == [SmallBig(LittleEndianValue(created)), Integer(ValiditySeconds)];
    ParseTermsCons(binary, 2, t.elements, []);
    assert ParseTerms(binary, 3) == Some((t.elements, []));
    ParseTuple(binary, 3, t, []);
    SignupRegroup(BigEndian(|data|, 4), data, closing);
    DecodeVersion([SmallTupleExt, 3] + binary, t);
  }

  /** A decoded 3-tuple's first element is the first term of its body. */
  lemma {:induction false} TupleLedByBinary(binary: seq<uint8>, elements: seq<Term>, data: seq<uint8>)
    requires |elements| > 0 && elements[0] == Binary(data)
    requires Decode([VersionMagic] + ([SmallTupleExt, 3] + binary)) == Some(SmallTuple(elements))
    ensures ParseTerm(binary).Some? && ParseTerm(binary).value.0 == Binary(data)
  {
    DecodeVersion([SmallTupleExt, 3] + binary, SmallTuple(elements));
    ParseTuple(binary, 3, SmallTuple(elements), []);
    ParseTermsCons(binary, 2, elements, []);
  }

  /** The receiving decoder reads a Signup payload as {email, createdMs, 86400}
      exactly when the email is pure ASCII: otherwise the UTF-16 length in the
      BINARY_EXT field is shorter than the UTF-8 bytes that follow, and the
      binary it delimits is not the email. */
  lemma {:induction false} SignupDecodesIffAscii(email: String16, nowMs: int64)
    ensures Decode(SignupPayload(email, nowMs)) == Some(SignupTerm(email, nowMs)) <==> IsAscii(email)
  {
    if IsAscii(email) {
      SignupAsciiDecodes(email, nowMs);
    } else if Decode(SignupPayload(email, nowMs)) == Some(SignupTerm(email, nowMs)) {
      SignupDecodedIsAscii(email, nowMs);
    }
  }

  lemma {:induction false} SignupAsciiDecodes(email: String16, nowMs: int64)
    requires IsAscii(email)
    ensures Decode(SignupPayload(email, nowMs)) == Some(SignupTerm(email, nowMs))
  {
    var utf8, created := Utf8(email), CreatedBytes(nowMs);
    assert |utf8| == |email| by {
      Utf8LengthVersusUnits(email);
    }
    CreatedBytesValue(nowMs);
    SignupPayloadParts(email, nowMs);
    SignupShapeDecodes(utf8, created);
  }

  lemma {:induction false} SignupDecodedIsAscii(email: String16, nowMs: int64)
    requires Decode(SignupPayload(email, nowMs)) == Some(SignupTerm(email, nowMs))
    ensures IsAscii(email)
  {
    SignupPayloadParts(email, nowMs);
    SignupRecordLength(|email|, Utf8(email), CreatedBytes(nowMs), nowMs as int % 0x1_0000_0000_0000);
    Utf8LengthVersusUnits(email);
  }

  /** A Signup record that decodes to the binary it carries has a length
      field equal to that binary's length. */
  lemma {:induction false} SignupRecordLength(n: nat, data: seq<uint8>, created: seq<uint8>, time: int)
    requires n < 0x1_0000_0000 && |created| == 6
    requires Decode(SignupHeader + BigEndian(n, 4) + data + ([SmallBigExt, 6, 0] + created + ValidityMarker))
      == Some(SmallTuple([Binary(data), SmallBig(time), Integer(ValiditySeconds)]))
    ensures |data| == n
  {
    var closing := [SmallBigExt, 6, 0] + created + ValidityMarker;
    var elements := [Binary(data), SmallBig(time), Integer(ValiditySeconds)];
    var tail := data + closing;
    var binary := [BinaryExt] + BigEndian(n, 4) + tail;
    assert Decode([VersionMagic] + ([SmallTupleExt, 3] + binary)) == Some(SmallTuple(elements)) by {
      SignupRegroup(BigEndian(n, 4), data, closing);
    }
    assert ParseTerm(binary).Some? && ParseTerm(binary).value.0 == Binary(data) by {
      TupleLedByBinary(binary, elements, data);
    }
    BinaryLengthIsItsField(n, tail, Binary(data), ParseTerm(binary).value.1);
    DivModUnique(n, 0x1_0000_0000, 0, n);
  }
}
