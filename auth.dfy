/** The token-building part of `AuthController`: the Login and Signup payload
    builders, which patch byte arrays in place, the signed three-segment token
    of `GetLink`, and the choice `CreateAuthLink` makes between them. The clock,
    the database row and the two cryptographic primitives are parameters. */
module AuthController {
  import opened Bytes
  import opened Wrappers
  import opened TextEncoding
  import opened Base64
  import opened ExternalTerm
  import opened TokenPayload

  const Pbkdf2Iterations := 1000

  /** The 32 bytes of an HMAC-SHA-256 value or of a key derived for it. */
  type Digest = s: seq<uint8> | |s| == 32 witness seq(32, _ => 0)

  /** `KeyDerivation.Pbkdf2` with the HMAC-SHA-256 pseudorandom function and 32
      bytes requested (taking the password, the salt and the iteration count),
      and `HMACSHA256.ComputeHashAsync` (taking the key and the message). Both
      are library code and are left abstract. */
  datatype Crypto = Crypto(
    pbkdf2: (String16, seq<uint8>, nat) -> Digest,
    hmacSha256: (seq<uint8>, seq<uint8>) -> Digest)

  /** What the controller answers: `Forbid()` or `Redirect(location)`. */
  datatype Response = Forbid | Redirect(location: string)

  /** The `users` row found for an email: `id` and `last_login_at`, the latter
      already in whole seconds since the Unix epoch. */
  datatype UserRow = UserRow(id: int32, lastLoginSeconds: int64)

  const SessionNewPrefix := "/session/new?t="
  const UsersNewPrefix := "/users/new?t="

  function Hs256(): String16 { Units("HS256") }
  function LoginOp(): String16 { Units("login") }
  function SignupOp(): String16 { Units("signup") }

  /** The controller's `ToBase64(string)`: base64url of the UTF-8 bytes. */
  function ToBase64Text(s: String16): string {
    ToBase64(Utf8(s))
  }

  /** `data` in `GetLink`: the header segment and the payload segment joined by '.'. */
  function SignedPart(payload: seq<uint8>): string {
    ToBase64Text(Hs256()) + "." + Remove(ToBase64(payload), '=')
  }

  /** The key `GetLink` signs with for op: derived from the secret with the
      UTF-8 bytes of op as salt. */
  function SigningKey(crypto: Crypto, secret: String16, op: String16): Digest {
    crypto.pbkdf2(secret, Utf8(op), Pbkdf2Iterations)
  }

  /** `GetLink(op, payload)`: the signed part, '.', and the HMAC-SHA-256 of the
      ASCII bytes of the signed part. */
  function GetLink(crypto: Crypto, secret: String16, op: String16, payload: seq<uint8>): string {
    var data := SignedPart(payload);
    var sig := crypto.hmacSha256(SigningKey(crypto, secret, op), Ascii(data));
    data + "." + ToBase64(sig)
  }

  /** The signature a token for op and payload must carry, as the receiving
      side recomputes it from the first two segments. */
  function Signature(crypto: Crypto, secret: String16, op: String16, payload: seq<uint8>): Digest {
    crypto.hmacSha256(SigningKey(crypto, secret, op), Ascii("SFMyNTY." + ToBase64(payload)))
  }

  /** The pieces of s between occurrences of sep, as a token reader splits it. */
  function SplitOn(s: string, sep: char): (parts: seq<string>)
    ensures |parts| >= 1
    decreases |s|
  {
    if s == [] then [[]]
    else
      var rest := SplitOn(s[1..], sep);
      if s[0] == sep then [[]] + rest else [[s[0]] + rest[0]] + rest[1..]
  }

  lemma {:induction false} SplitOnNone(s: string, sep: char)
    requires forall i | 0 <= i < |s| :: s[i] != sep
    ensures SplitOn(s, sep) == [s]
    decreases |s|
  {
    if s != [] {
      SplitOnNone(s[1..], sep);
      assert [s[0]] + s[1..] == s;
    }
  }

  lemma {:induction false} SplitOnJoin(a: string, sep: char, b: string)
    ensures SplitOn(a + [sep] + b, sep) == SplitOn(a, sep) + SplitOn(b, sep)
    decreases |a|
  {
    if a == [] {
      assert a + [sep] + b == [sep] + b;
      assert ([sep] + b)[1..] == b;
    } else {
      assert (a + [sep] + b)[1..] == a[1..] + [sep] + b;
      SplitOnJoin(a[1..], sep, b);
    }
  }

  /** The five bytes of "HS256" encode as "SFMyNTY". */
  lemma {:induction false} HeaderEncoding(b: seq<uint8>)
    requires b == [0x48, 0x53, 0x32, 0x35, 0x36]
    ensures ToBase64(b) == "SFMyNTY"
  {
    ToBase64IsBase64Url(b);
    assert b[3..] == [0x35, 0x36];
    assert Sextets(b[3..]) == [13, 19, 24];
    assert Sextets(b) == [18, 5, 12, 50] + Sextets(b[3..]);
  }

  /** `ToBase64("HS256")` is "SFMyNTY". */
  lemma {:induction false} HeaderSegment()
    ensures ToBase64Text(Hs256()) == "SFMyNTY"
  {
    assert Hs256() == [0x48, 0x53, 0x32, 0x35, 0x36];
    Utf8OfAscii(Hs256());
    HeaderEncoding(Utf8(Hs256()));
  }

  /** Three segments free of '.' and joined by '.' split back into themselves. */
  lemma {:induction false} TokenSplit(header: string, body: string, sig: string)
    requires forall i | 0 <= i < |header| :: header[i] != '.'
    requires forall i | 0 <= i < |body| :: body[i] != '.'
    requires forall i | 0 <= i < |sig| :: sig[i] != '.'
    ensures SplitOn(header + "." + body + "." + sig, '.') == [header, body, sig]
  {
    SplitOnNone(header, '.');
    SplitOnNone(body, '.');
    SplitOnNone(sig, '.');
    SplitOnJoin(header + "." + body, '.', sig);
    SplitOnJoin(header, '.', body);
  }

  /** Two base64url segments joined by '.' form an ASCII string. */
  lemma {:induction false} JoinedIsAscii(header: string, body: string)
    requires forall i | 0 <= i < |header| :: IsUrlChar(header[i])
    requires forall i | 0 <= i < |body| :: IsUrlChar(body[i])
    ensures forall i | 0 <= i < |header + "." + body| :: (header + "." + body)[i] as int < 0x80
  {
    var joined := header + "." + body;
    forall i | 0 <= i < |joined| ensures joined[i] as int < 0x80 {
      if i < |header| {
        assert joined[i] == header[i];
      } else if i > |header| {
        assert joined[i] == body[i - |header| - 1];
      }
    }
  }

  /** The signed part is "SFMyNTY", '.', and the payload in base64url, and
      every character of it is ASCII, so `Encoding.ASCII` keeps it byte for
      character. */
  lemma {:induction false} SignedPartShape(payload: seq<uint8>)
    ensures SignedPart(payload) == "SFMyNTY" + "." + ToBase64(payload)
    ensures forall i | 0 <= i < |SignedPart(payload)| :: Ascii(SignedPart(payload))[i] as int == SignedPart(payload)[i] as int
  {
    var header := ToBase64Text(Hs256());
    StripPaddingIsNoOp(payload);
    ToBase64Alphabet(Utf8(Hs256()));
    ToBase64Alphabet(payload);
    JoinedIsAscii(header, ToBase64(payload));
    HeaderSegment();
  }

  /** A token has exactly three '.'-separated segments: "SFMyNTY", the payload
      in base64url, and the 43-character base64url of the HMAC-SHA-256, under
      the key for op, of the first two segments and the '.' between them. */
  lemma {:induction false} GetLinkSegments(crypto: Crypto, secret: String16, op: String16, payload: seq<uint8>)
    ensures var parts := SplitOn(GetLink(crypto, secret, op, payload), '.');
      && parts == ["SFMyNTY", ToBase64(payload), ToBase64(Signature(crypto, secret, op, payload))]
      && |parts[2]| == 43
  {
    var header := ToBase64Text(Hs256());
    var body := ToBase64(payload);
    var digest := Signature(crypto, secret, op, payload);
    var sig := ToBase64(digest);
    SignedPartShape(payload);
    ToBase64Alphabet(Utf8(Hs256()));
    ToBase64Alphabet(payload);
    ToBase64Alphabet(digest);
    HeaderSegment();
    assert "SFMyNTY" + "." + body == "SFMyNTY." + body;
    assert GetLink(crypto, secret, op, payload) == header + "." + body + "." + sig;
    TokenSplit(header, body, sig);
  }

  /** The payload and signature segments decode back to the payload and to the
      32-byte signature. */
  lemma {:induction false} GetLinkDecodes(crypto: Crypto, secret: String16, op: String16, payload: seq<uint8>)
    ensures var parts := SplitOn(GetLink(crypto, secret, op, payload), '.');
      && |parts| == 3
      && Base64UrlDecode(parts[1]) == Some(payload)
      && Base64UrlDecode(parts[2]) == Some(Signature(crypto, secret, op, payload))
  {
    GetLinkSegments(crypto, secret, op, payload);
    ToBase64RoundTrip(payload);
    ToBase64RoundTrip(Signature(crypto, secret, op, payload));
  }

  /** `Array.Copy(source, sourceIndex, destination, destinationIndex, length)`
      with a freshly made source array. */
  method ArrayCopy(source: seq<uint8>, sourceIndex: nat, destination: array<uint8>, destinationIndex: nat, length: nat)
    requires sourceIndex + length <= |source| && destinationIndex + length <= destination.Length
    modifies destination
    ensures destination[..] == Patch(old(destination[..]), destinationIndex, source[sourceIndex..sourceIndex + length])
  {
    var i := 0;
    while i < length
      invariant 0 <= i <= length
      invariant forall k | 0 <= k < destination.Length ::
        destination[k] == if destinationIndex <= k < destinationIndex + i
                          then source[sourceIndex + k - destinationIndex]
                          else old(destination[k])
    {
      destination[destinationIndex + i] := source[sourceIndex + i];
      i := i + 1;
    }
    PatchAt(old(destination[..]), destinationIndex, source[sourceIndex..sourceIndex + length]);
  }

  /** `UpdateTimestamp(data, offset)` with the clock reading nowMs: the six low
      bytes of the clock, least significant first, at data[offset..offset+6];
      every other byte unchanged. */
  method UpdateTimestamp(data: array<uint8>, offset: nat, nowMs: int64)
    requires offset + 6 <= data.Length
    modifies data
    ensures data[..] == Patch(old(data[..]), offset, CreatedBytes(nowMs))
    ensures forall i | 0 <= i < 6 :: data[offset + i] == LongBytes(nowMs)[i]
    ensures forall j | 0 <= j < data.Length && !(offset <= j < offset + 6) :: data[j] == old(data[j])
  {
    var timestampBytes := LongBytes(nowMs);
    LongLow48LittleEndian(nowMs);
    ArrayCopy(timestampBytes, 0, data, offset, 6);
  }

  /** `Login(id, lastLogin)`: patches the user id, the last login time and the
      clock into a copy of the Login template and redirects to /session/new
      with the token signed for "login". */
  method Login(id: int64, lastLoginSeconds: int64, nowMs: int64, secret: String16, crypto: Crypto)
    returns (response: Response)
    ensures response == Redirect(SessionNewPrefix + GetLink(crypto, secret, LoginOp(), LoginPayload(id, lastLoginSeconds, nowMs)))
  {
    var payload := new uint8[|LoginTemplate|](i requires 0 <= i < |LoginTemplate| => LoginTemplate[i]);
    assert payload[..] == LoginTemplate;
    ghost var withId := Patch(LoginTemplate, UserIdOffset, BigEndian(id as int, 4));
    ghost var withLastLogin := Patch(withId, LastLoginOffset, BigEndian(lastLoginSeconds as int, 4));
    LongLowWordBigEndian(id);
    ArrayCopy(Reverse(LongBytes(id)), 4, payload, UserIdOffset, 4);
    assert payload[..] == withId;
    LongLowWordBigEndian(lastLoginSeconds);
    ArrayCopy(Reverse(LongBytes(lastLoginSeconds)), 4, payload, LastLoginOffset, 4);
    assert payload[..] == withLastLogin;
    UpdateTimestamp(payload, LoginCreatedOffset, nowMs);
    assert payload[..] == LoginPayload(id, lastLoginSeconds, nowMs);
    var link := GetLink(crypto, secret, LoginOp(), payload[..]);
    response := Redirect(SessionNewPrefix + link);
  }

  /** `Signup(email)`: header, the email's length in code units most
      significant first, its UTF-8 bytes, and the footer with the clock patched
      in; redirects to /users/new with the token signed for "signup". */
  method Signup(email: String16, nowMs: int64, secret: String16, crypto: Crypto)
    returns (response: Response)
    ensures response == Redirect(UsersNewPrefix + GetLink(crypto, secret, SignupOp(), SignupPayload(email, nowMs)))
  {
    var payloadHeader := SignupHeader;
    var payloadFooter := new uint8[|SignupFooterTemplate|](i requires 0 <= i < |SignupFooterTemplate| => SignupFooterTemplate[i]);
    assert payloadFooter[..] == SignupFooterTemplate;
    UpdateTimestamp(payloadFooter, FooterCreatedOffset, nowMs);
    var lengthBytes := Reverse(IntBytes(|email| as int32));
    IntBigEndian(|email| as int32);
    var body := lengthBytes + Utf8(email);
    var payload := payloadHeader + body + payloadFooter[..];
    ConcatRegroup(payloadHeader, lengthBytes, Utf8(email), payloadFooter[..]);
    var link := GetLink(crypto, secret, SignupOp(), payload);
    response := Redirect(UsersNewPrefix + link);
  }

  /** `CreateAuthLink`: no email claim is forbidden; a known email logs in as
      its row; an unknown one signs up. `row` is what the lookup by email found. */
  method CreateAuthLink(email: Option<String16>, row: Option<UserRow>, nowMs: int64, secret: String16, crypto: Crypto)
    returns (response: Response)
    ensures email.None? <==> response == Forbid
    ensures email.Some? && row.Some? ==>
      response == Redirect(SessionNewPrefix + GetLink(crypto, secret, LoginOp(),
        LoginPayload(row.value.id as int64, row.value.lastLoginSeconds, nowMs)))
    ensures email.Some? && row.None? ==>
      response == Redirect(UsersNewPrefix + GetLink(crypto, secret, SignupOp(), SignupPayload(email.value, nowMs)))
  {
    if email.None? {
      return Forbid;
    }
    match row {
      case Some(r) =>
        response := Login(r.id as int64, r.lastLoginSeconds, nowMs, secret, crypto);
      case None =>
        response := Signup(email.value, nowMs, secret, crypto);
    }
  }

  /** The signed 32-bit reading of an int32 is the value itself. */
  lemma {:induction false} Signed32OfInt32(v: int32)
    ensures Signed32(v as int) == v as int
  {
    var u := v as int % 0x1_0000_0000;
    if v >= 0 {
      assert u == v as int;
    } else {
      assert u == v as int + 0x1_0000_0000;
    }
  }

  /** The token of a Login redirect for a user row carries that row: its
      payload segment decodes to {{id, lastLogin}, createdMs, 86400} with the
      row's id unchanged. */
  lemma {:induction false} LoginTokenCarriesRow(crypto: Crypto, secret: String16, row: UserRow, nowMs: int64)
    ensures var payload := LoginPayload(row.id as int64, row.lastLoginSeconds, nowMs);
      var parts := SplitOn(GetLink(crypto, secret, LoginOp(), payload), '.');
      && |parts| == 3
      && Base64UrlDecode(parts[1]) == Some(payload)
      && Decode(payload) == Some(SmallTuple([
           SmallTuple([Integer(row.id as int), Integer(Signed32(row.lastLoginSeconds as int))]),
           SmallBig(nowMs as int % 0x1_0000_0000_0000),
           Integer(ValiditySeconds)]))
  {
    var payload := LoginPayload(row.id as int64, row.lastLoginSeconds, nowMs);
    GetLinkDecodes(crypto, secret, LoginOp(), payload);
    LoginPayloadDecodes(row.id as int64, row.lastLoginSeconds, nowMs);
    Signed32OfInt32(row.id);
  }

  /** The token of a Signup redirect decodes to {email, createdMs, 86400}
      exactly when the email is pure ASCII. */
  lemma {:induction false} SignupTokenCarriesEmail(crypto: Crypto, secret: String16, email: String16, nowMs: int64)
    ensures var payload := SignupPayload(email, nowMs);
      var parts := SplitOn(GetLink(crypto, secret, SignupOp(), payload), '.');
      && |parts| == 3
      && Base64UrlDecode(parts[1]) == Some(payload)
      && (Decode(payload) == Some(SignupTerm(email, nowMs)) <==> IsAscii(email))
  {
    GetLinkDecodes(crypto, secret, SignupOp(), SignupPayload(email, nowMs));
    SignupDecodesIffAscii(email, nowMs);
  }
}
