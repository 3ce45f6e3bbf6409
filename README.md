# asciinema-oidc token builder

This project models the token builder of the asciinema OIDC bridge, `AuthController`. An OIDC-authenticated user asks for `/login/new`. The controller looks the user's email up in the `users` table and redirects them to asciinema's own sign-in link:

- A known user is sent to `/session/new?t=<token>` with a *Login* payload. This is a fixed 29-byte Erlang External Term Format record, `{{id, lastLogin}, createdMs, 86400}`. It is built by patching three windows of a template array in place.
- A new user is sent to `/users/new?t=<token>` with a *Signup* payload, `{email, createdMs, 86400}`. It is built by concatenating a header, a length prefix, the UTF-8 email and a footer whose timestamp is patched in place.
- `<token>` has three dot-separated segments:
  - the base64url of `HS256`;
  - the base64url of the payload;
  - the base64url of an HMAC-SHA-256 over the first two segments. The key is derived by PBKDF2 (1000 iterations, 32 bytes) from the configured secret, with the operation name (`login` or `signup`) as salt.

The Dafny modules follow that structure:

- `Bytes`:
  - the `byte`, `short`, `int` and `long` ranges;
  - little- and big-endian byte strings;
  - `BitConverter.GetBytes` on a little-endian host;
  - `Reverse`.
- `TextEncoding`: .NET strings as UTF-16 code units, with `Encoding.UTF8.GetBytes` and `Encoding.ASCII.GetBytes`.
- `Base64`:
  - `Convert.ToBase64String`;
  - the controller's `ToBase64` (strip `=`, then `+`→`-` and `/`→`_`);
  - a reference unpadded base64url encoder (RFC 4648 section 5, padding omitted as section 3.2 permits) and its decoder.
- `ExternalTerm`: a decoder for the part of the Erlang External Term Format the payloads use (version 131, SMALL_TUPLE_EXT, BINARY_EXT, INTEGER_EXT, SMALL_BIG_EXT). This is the receiving application's view, against which the payloads are checked.
- `TokenPayload`: the two payload layouts as byte-string functions, and their proofs.
- `AuthController`:
  - the array-patching methods (`ArrayCopy`, `UpdateTimestamp`, `Login`, `Signup`), proved to build exactly those byte strings;
  - `GetLink` and the decision in `CreateAuthLink`;
  - end-to-end lemmas from a database row or an email to the decoded token.

The clock (`DateTimeOffset.UtcNow`, in milliseconds since the Unix epoch), the database lookup result (an `Option<UserRow>`), the email claim (an `Option` of a string), the configured secret and the two cryptographic primitives (`Crypto`, two functions returning 32 bytes) are parameters.

Where the code and the design intent described for it differ, the model follows the code:

- **Timestamp byte order.** The creation timestamp is the first six bytes of `BitConverter.GetBytes(long)`, so the low 48 bits go in least significant first. That is the digit order SMALL_BIG_EXT requires; it is not a big-endian field (`LongLow48LittleEndian`, `LoginLayout`, `SignupLayout`).
- **Signup length prefix.** The Signup length prefix is `email.Length`, the number of UTF-16 code units. It is not the number of UTF-8 bytes that follow. The two agree exactly for all-ASCII emails. `SignupDecodesIffAscii` proves that the payload decodes to the intended term if and only if the email is ASCII. For any other email the BINARY_EXT length field is too short, and the record does not decode to `{email, …}`.
- **No configuration or encoding checks.** The code has no check for a missing secret, an overlong email or an encoding failure, so the model has none. The ASCII conversion of the signed text is lossless, because that text is all base64url characters and '.' (`SignedPartShape`).

## Model

| member | source | states |
|---|---|---|
| Bytes.LittleEndianRoundTrip | src/Asciinema.Server.Oidc/Controllers/AuthController.cs:144-145 | k little-endian bytes of n read back as n mod 256^k |
| Bytes.BigEndianRoundTrip | src/Asciinema.Server.Oidc/Controllers/AuthController.cs:87 | k big-endian bytes of n read back as n mod 256^k |
| Bytes.ReverseLittleEndian | src/Asciinema.Server.Oidc/Controllers/AuthController.cs:87 | reversing the little-endian bytes of n gives its big-endian bytes |
| Bytes.LittleEndianPrefix | src/Asciinema.Server.Oidc/Controllers/AuthController.cs:145 | the first j of k little-endian bytes are the j-byte little-endian form |
| Bytes.BigEndianSuffix | src/Asciinema.Server.Oidc/Controllers/AuthController.cs:87 | the last j of k big-endian bytes are the j-byte big-endian form |
| Bytes.LongLowWordBigEndian | src/Asciinema.Server.Oidc/Controllers/AuthController.cs:87-91 | bytes 4..7 of the reversed `GetBytes(long)` are the low 32 bits, most significant first |
| Bytes.IntBigEndian | src/Asciinema.Server.Oidc/Controllers/AuthController.cs:116 | the reversed `GetBytes(int)` is the big-endian form of the int |
| Bytes.LongLow48LittleEndian | src/Asciinema.Server.Oidc/Controllers/AuthController.cs:144-145 | the first six bytes of `GetBytes(long)` are the low 48 bits, least significant first |
| TextEncoding.Utf8LengthVersusUnits | src/Asciinema.Server.Oidc/Controllers/AuthController.cs:116-117 | the UTF-8 encoding has at least as many bytes as the string has code units, and exactly as many if and only if the string is ASCII |
| TextEncoding.Utf8OfAscii | src/Asciinema.Server.Oidc/Controllers/AuthController.cs:117 | an ASCII string encodes to its code units, byte for byte |
| Base64.Sextets | src/Asciinema.Server.Oidc/Controllers/AuthController.cs:153 | n bytes give ceil(4n/3) six-bit groups |
| Base64.ToBase64IsBase64Url | src/Asciinema.Server.Oidc/Controllers/AuthController.cs:151-157 | the padded standard encoding followed by the three replacements equals the unpadded base64url reference encoding |
| Base64.ToBase64Alphabet | src/Asciinema.Server.Oidc/Controllers/AuthController.cs:151-157 | the output has ceil(4n/3) characters, all from A–Z, a–z, 0–9, '-' and '_', so none is '=', '+', '/' or '.' |
| Base64.StripPaddingIsNoOp | src/Asciinema.Server.Oidc/Controllers/AuthController.cs:133 | the second removal of '=' applied to the payload segment changes nothing |
| Base64.DecodeSextetsRoundTrip | src/Asciinema.Server.Oidc/Controllers/AuthController.cs:153 | reassembling the six-bit groups of d gives back d |
| Base64.ToBase64RoundTrip | src/Asciinema.Server.Oidc/Controllers/AuthController.cs:151-157 | base64url decoding of the output gives back the input bytes |
| Base64.ToBase64Injective | src/Asciinema.Server.Oidc/Controllers/AuthController.cs:151-157 | distinct byte strings have distinct encodings |
| ExternalTerm.Signed32 | src/Asciinema.Server.Oidc/Controllers/AuthController.cs:87-91 | the value a 32-bit INTEGER_EXT field holds is a signed 32-bit integer congruent to n mod 2^32 |
| ExternalTerm.ParseInteger | src/Asciinema.Server.Oidc/Controllers/AuthController.cs:81-82 | an INTEGER_EXT with the low 32 bits of n reads back as the signed value of those bits |
| ExternalTerm.ParseSmallBig | src/Asciinema.Server.Oidc/Controllers/AuthController.cs:83 | a non-negative SMALL_BIG_EXT reads back as the number its little-endian digits spell |
| ExternalTerm.ParseBinary | src/Asciinema.Server.Oidc/Controllers/AuthController.cs:116-117 | a BINARY_EXT whose length field is its data's length reads back as that data |
| ExternalTerm.BinaryLengthIsItsField | src/Asciinema.Server.Oidc/Controllers/AuthController.cs:116 | a decoded BINARY_EXT holds exactly as many bytes as its length field says |
| TokenPayload.PatchAt | src/Asciinema.Server.Oidc/Controllers/AuthController.cs:145 | a patched byte string holds the window's bytes inside the window and the old bytes everywhere else |
| TokenPayload.CreatedBytesValue | src/Asciinema.Server.Oidc/Controllers/AuthController.cs:143-145 | the six timestamp bytes spell the clock mod 2^48, least significant first |
| TokenPayload.TemplateIsRecord | src/Asciinema.Server.Oidc/Controllers/AuthController.cs:76-85 | the Login template is a version byte, {{INTEGER 2, INTEGER}, SMALL_BIG with 6 digits, INTEGER 86400} |
| TokenPayload.LoginPayloadTerms | src/Asciinema.Server.Oidc/Controllers/AuthController.cs:76-95 | the three patches produce the Login record with the id word, the last-login word and the timestamp in their windows |
| TokenPayload.LoginLayout | src/Asciinema.Server.Oidc/Controllers/AuthController.cs:76-95 | the Login payload is 29 bytes, equals the template outside [6,10), [11,15) and [18,24), and holds id mod 2^32 and lastLogin mod 2^32 big-endian and the clock mod 2^48 little-endian in them |
| TokenPayload.RecordsAgreeOutsideWindows | src/Asciinema.Server.Oidc/Controllers/AuthController.cs:76-91 | two Login records differ at most inside the three windows |
| TokenPayload.LoginExample | src/Asciinema.Server.Oidc/Controllers/AuthController.cs:87-91 | id 2 gives 00 00 00 02, and 2022-01-01T00:00:00Z (1640995200) gives 61 CF 99 80 |
| TokenPayload.LoginPayloadDecodes | src/Asciinema.Server.Oidc/Controllers/AuthController.cs:76-95 | the Login payload decodes to {{id, lastLogin}, createdMs, 86400}, with each integer as its low 32 bits read signed |
| TokenPayload.SignupFooterLayout | src/Asciinema.Server.Oidc/Controllers/AuthController.cs:109-114 | the patched footer is a SMALL_BIG_EXT tag with 6 digits, the six timestamp bytes, then the validity INTEGER_EXT |
| TokenPayload.SignupLayout | src/Asciinema.Server.Oidc/Controllers/AuthController.cs:102-120 | the Signup payload is 22 + \|UTF-8(email)\| bytes: the header; a length field worth email.Length; the UTF-8 bytes; the footer with the clock mod 2^48 |
| TokenPayload.SignupExample | src/Asciinema.Server.Oidc/Controllers/AuthController.cs:116-120 | for "a@b.com" the length field is 00 00 00 07, and the seven ASCII bytes follow |
| TokenPayload.SignupShapeDecodes | src/Asciinema.Server.Oidc/Controllers/AuthController.cs:102-120 | a Signup record whose length field matches its data decodes to {data, createdMs, 86400} |
| TokenPayload.SignupRecordLength | src/Asciinema.Server.Oidc/Controllers/AuthController.cs:116-120 | if a Signup-shaped record decodes to {data, time, 86400}, its length field equals \|data\| |
| TokenPayload.SignupDecodesIffAscii | src/Asciinema.Server.Oidc/Controllers/AuthController.cs:116-120 | the Signup payload decodes to {UTF-8(email), createdMs, 86400} if and only if the email is ASCII |
| AuthController.HeaderSegment | src/Asciinema.Server.Oidc/Controllers/AuthController.cs:148-149 | `ToBase64("HS256")` is "SFMyNTY" |
| AuthController.SignedPartShape | src/Asciinema.Server.Oidc/Controllers/AuthController.cs:133-134 | the signed text is "SFMyNTY." followed by the payload segment, and its ASCII bytes are its characters unchanged |
| AuthController.GetLinkSegments | src/Asciinema.Server.Oidc/Controllers/AuthController.cs:127-139 | the token splits on '.' into exactly "SFMyNTY", ToBase64(payload) and the 43-character ToBase64 of HMAC(PBKDF2(secret, UTF-8(op), 1000), ASCII of the first two segments joined by '.') |
| AuthController.GetLinkDecodes | src/Asciinema.Server.Oidc/Controllers/AuthController.cs:127-139 | the second and third segments decode back to the payload and to the signature |
| AuthController.ArrayCopy | src/Asciinema.Server.Oidc/Controllers/AuthController.cs:87-91 | `Array.Copy` overwrites the destination window with the source range and leaves the rest of the destination alone |
| AuthController.UpdateTimestamp | src/Asciinema.Server.Oidc/Controllers/AuthController.cs:141-146 | bytes offset..offset+5 become bytes 0..5 of `GetBytes(nowMs)` (the low 48 bits, little-endian); every other byte is unchanged |
| AuthController.Login | src/Asciinema.Server.Oidc/Controllers/AuthController.cs:74-98 | the array built in place is the Login payload, and the answer redirects to "/session/new?t=" + the "login" token for it |
| AuthController.Signup | src/Asciinema.Server.Oidc/Controllers/AuthController.cs:100-125 | the concatenated array is the Signup payload, and the answer redirects to "/users/new?t=" + the "signup" token for it |
| AuthController.CreateAuthLink | src/Asciinema.Server.Oidc/Controllers/AuthController.cs:42-69 | the answer is Forbid if and only if there is no email claim; with a row it is Login's redirect for the row's id and last login; without one it is Signup's redirect for the email |
| AuthController.Signed32OfInt32 | src/Asciinema.Server.Oidc/Controllers/AuthController.cs:61-63 | an `int` id survives the round trip through `long` and its low 32 bits |
| AuthController.LoginTokenCarriesRow | src/Asciinema.Server.Oidc/Controllers/AuthController.cs:58-63 | a known user's token has three segments, and its payload segment decodes to {{row id, lastLogin}, createdMs, 86400} with the id unchanged |
| AuthController.SignupTokenCarriesEmail | src/Asciinema.Server.Oidc/Controllers/AuthController.cs:116-122 | a new user's token has three segments, and its payload decodes to {email, createdMs, 86400} if and only if the email is ASCII |

## Left out

- PBKDF2 and HMAC-SHA-256 (lines 130-136): library code. `Crypto` holds two abstract functions that return 32 bytes, so nothing is proved about tamper resistance or about distinct keys for "login" and "signup". Those claims need cryptographic assumptions.
- The SQL query and the `IDataReader` (lines 48-58): database I/O. `CreateAuthLink` takes the lookup result as an `Option<UserRow>`.
- The `DateTime`-to-Unix-seconds conversion of `last_login_at` (lines 62, 89-90): `UserRow` carries the seconds directly.
- `DateTimeOffset.UtcNow` (line 143): the clock is the `nowMs` parameter.
- The claims lookup (line 42): the email claim is an `Option` parameter.
- The configured secret (line 129-130): it is a parameter. The `NullReferenceException` a missing secret would raise at line 129 is not modelled.
- Logging (lines 60, 67, 129), `Console.WriteLine` (line 93), `async`/`await` and the `MemoryStream` (line 136): side effects and scheduling only. The model runs the same steps in sequence.
- The constructor (lines 25-36), which opens the database connection, and the routing and `[Authorize]` attributes: framework plumbing.
- src/Asciinema.Server.Oidc/Startup.cs and src/Asciinema.Server.Oidc/DatabaseConfig.cs are not part of this model. They are dependency-injection setup and a property bag with no behaviour.
- AuthController.ArrayCopy: requires its ranges to lie inside both arrays, so the exceptions `Array.Copy` raises otherwise are not modelled. Every call in the controller stays inside them.
- TextEncoding.String16: strings are limited to `int.MaxValue` code units, the .NET limit. An email longer than 2^32 units, whose length prefix would wrap, therefore cannot occur.
- BitConverter is taken to run on a little-endian host, the only kind the controller's byte reversal makes sense on.
