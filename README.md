# Certificate hash registry: a Dafny model

This project models the hash-registry verification protocol of a certificate
authenticity checker. A client wrapper reads an uploaded file as a data URL,
strips the prefix and sends the base64 text to one of two serverless handlers:

- **verify-certificate** authenticates the caller and computes the certificate
  hash: SHA-256 of the UTF-8 encoding of the base64 text, rendered as lower-case
  hex. It then looks the hash up in the `certificates` table. On a match it
  answers "authentic, confidence 95", returns the row's issuer, holder, issue
  date and type, and sets that row's status to `verified`. Otherwise it answers
  "not authentic, confidence 15" and appends a `rejected` audit row whose
  attributes are "Unknown". A lookup error other than the no-rows code
  `PGRST116` gives a 500 with confidence 0; failed writes are ignored.
- **register-certificate** authenticates the caller, computes the same hash and
  appends one `verified` row carrying the attributes the caller asserts. It
  does not first look for an existing row with that hash.

Modules, one per part of the system:

- `Hex`: `toString(16)`, `padStart(2, '0')` and the join. Also `HexDecode`,
  which reads the text back. The handlers contain no decoder; `HexDecode` exists
  only to state the round trips. Both round trips are proved.
- `Strings`: `split` with a one-character separator, and its inverse `join`.
- `CertificateDigest`: the certificate hash. `TextEncoder.encode` and SHA-256
  are fields of a `Crypto` value, i.e. functions the model does not look into.
  SHA-256's output is typed as exactly 32 bytes.
- `Store`: the row datatype, the store's answers, the status update by id,
  the rows matching a hash, and the `created_at` descending order of the
  history query.
- `Messages`: the request and response shapes.
- `VerifyHandler` and `RegisterHandler`: each handler as a function from the
  table, the caller, the request and the store's answers to the response and
  the new table.
- `CertificateRegistry`: class `Registry`, whose field `rows` holds the
  table. Its methods `Verify` and `Register` change the table in place, step
  by step as the handlers do. Each method is proved equal to the handler
  function above, and keeps every stored hash a 64-character hex digest.
- `Scenarios`: register-then-verify, verifying an unknown file twice,
  registering after an unknown verification, and the client-to-handler path.
- `CertificateService`: the client wrapper as functions.

The store is not modelled as an engine. The model takes its answers as
parameters:

- the `{ data, error }` of the `.single()` lookup;
- the id and `created_at` it assigns on insert, or an insert error;
- whether the status update took effect.

The caller is `Option<UserId>`: `None` is an authentication failure or a
missing user. The handler's clock `new Date()` is a parameter holding an
instant and its ISO text. The handlers never read the result of the status
update or of the audit insert. So in the model those outcomes change the
table but never the response.

Where a request lacks `metadata`, the handler reads `metadata.size` off
`undefined`, which throws a TypeError, and the handler answers with a 500.
The same holds for missing `certificateInfo` at registration. The model
follows the code's evaluation order here. In the verify handler, `metadata` is
read only on the no-match path (verify-certificate/index.ts:94), so a match
succeeds without it. A `fileToBase64` result of `undefined` (a data URL with
no comma) drops `fileData` from the request body. `TextEncoder.encode` then
encodes the empty text, and the model does the same.

The audit row has a consequence that `Scenarios.UnknownFileVerifiedTwice`
pins down. The no-match path stores the unknown hash as an ordinary row, and
the lookup does not filter on status. So a second submission of the same
unknown file finds that row and is reported authentic with confidence 95.
`Scenarios.RegisterAfterUnknownVerify` shows the reverse case. If a genuine
certificate is registered after someone has verified the same file, two rows
share its hash, and `.single()` no longer has one row to return.

## Model

| member | source | states |
|---|---|---|
| Hex.ToRadix16 | supabase/functions/verify-certificate/index.ts:43 | `n.toString(16)` writes only lower-case hex digits; one digit exactly when n < 16, at most two for a byte |
| Hex.PadStart | supabase/functions/verify-certificate/index.ts:43 | `padStart` yields max(len, width) characters: fill characters, then the original text unchanged at the end |
| Hex.ByteToHex | supabase/functions/verify-certificate/index.ts:43 | every byte renders as exactly two digits, high nibble then low nibble, zero-padded |
| Hex.HexEncode | supabase/functions/verify-certificate/index.ts:42-43 | the rendering has two characters per digest byte, all lower-case hex |
| Hex.HexDecode | supabase/functions/verify-certificate/index.ts:42-43 | a decoded text is twice as long as the bytes it yields |
| Hex.DecodeEncode | supabase/functions/verify-certificate/index.ts:42-43 | decoding consecutive pairs of the rendering recovers the digest bytes |
| Hex.EncodeDecode | supabase/functions/verify-certificate/index.ts:42-43 | every text the decoder accepts is the rendering of what it decodes to (the other round trip) |
| Hex.DecodeAccepts | supabase/functions/verify-certificate/index.ts:43 | the decoder accepts exactly the even-length texts of lower-case hex digits, i.e. the shape of a rendering |
| Hex.EncodeInjective | supabase/functions/verify-certificate/index.ts:42-43 | two byte sequences render the same exactly when they are equal |
| CertificateDigest.CertificateHash | supabase/functions/verify-certificate/index.ts:38-43 | the hash is 64 lower-case hex characters that decode to SHA-256 of the UTF-8 encoding of the base64 text (absent text encodes as empty) |
| CertificateDigest.DigestHexDecodes | supabase/functions/verify-certificate/index.ts:41-43 | any 64-character lower-case hex text decodes to exactly 32 bytes, the length of a SHA-256 digest |
| CertificateDigest.SameHashIffSameDigest | supabase/functions/register-certificate/index.ts:43-48 | the two handlers' hashes of two texts agree exactly when the texts' digests agree |
| Strings.SplitOn | src/lib/certificateService.ts:106 | `split(',')` gives at least one piece, exactly one when there is no separator; no piece contains the separator; joining the pieces gives back the input |
| Strings.SplitAfterFirst | src/lib/certificateService.ts:106 | a separator-free prefix followed by a separator becomes the first piece, and the rest is split on its own |
| Strings.SplitFirstPiece | src/lib/certificateService.ts:106 | the first piece ends at the first separator |
| Store.Matches | supabase/functions/verify-certificate/index.ts:46-50 | the rows selected by `eq('certificate_hash', h)` are exactly the table's rows carrying h |
| Store.MatchesAppend | supabase/functions/register-certificate/index.ts:51-65 | an inserted row joins the matches of its own hash and of no other |
| Store.SetStatusById | supabase/functions/verify-certificate/index.ts:74-77 | the update changes status and `updated_at` of the rows with the given id; every other row is unchanged; the length is kept |
| Store.SetStatusIdempotent | supabase/functions/verify-certificate/index.ts:74-77 | applying the same status update twice is the same as once |
| Store.SetVerifiedKeepsVerified | supabase/functions/verify-certificate/index.ts:74-77 | setting 'verified' on already verified rows leaves every status as it was |
| Store.StoredHashesDecode | supabase/functions/register-certificate/index.ts:51-63 | in a table whose stored hashes are well formed, the invariant the registry keeps, every row's hash decodes back to a 32-byte digest |
| Store.SetStatusKeepsHashes | supabase/functions/verify-certificate/index.ts:74-77 | the update changes no hash: hashes stay well formed and every hash still has a matching row |
| Store.OrderByCreatedAtDesc | src/lib/certificateService.ts:115-118 | `order('created_at', { ascending: false })` yields the same rows (as a multiset), newest first |
| VerifyHandler.ClassifyLookup | supabase/functions/verify-certificate/index.ts:46-58 | the handler rethrows any lookup error except the no-rows code `PGRST116`; otherwise a returned row is a match and anything else is no match |
| VerifyHandler.Handle | supabase/functions/verify-certificate/index.ts:29-110 | 401 with the table unchanged exactly when there is no caller. A 200 carries the computed hash and happens exactly when the caller is known, the lookup did not fail, and either a row was found or metadata was sent. A 500 writes nothing. The table is otherwise unchanged, or the matched id's status update, or the old table plus one rejected row |
| VerifyHandler.UnauthorizedChangesNothing | supabase/functions/verify-certificate/index.ts:29-34 | no caller: 401 `{error:'Unauthorized'}` and the table is unchanged |
| VerifyHandler.MatchIsAuthentic | supabase/functions/verify-certificate/index.ts:58-77 | on a match: 200, authentic, confidence 95, details naming the row's holder and issue date, the computed hash, and issuer/holder/issueDate/type copied from the row's issuer/holder_name/issue_date/certificate_type. Only the rows with the matched id change: status 'verified' and `updated_at` now. If the update does not take effect, the table is unchanged |
| VerifyHandler.MatchOnVerifiedKeepsStatuses | supabase/functions/verify-certificate/index.ts:73-77 | re-verifying an already verified row leaves every row's status as it was |
| VerifyHandler.NoMatchRecordsAudit | supabase/functions/verify-certificate/index.ts:79-101 | no match: 200, not authentic, confidence 15, the fixed "not found, may be forged" details, no certificateInfo. A successful insert appends exactly one row: hash, issuer/holder/type "Unknown", today's date, 'rejected', the caller, the filename, and `metadata.size` or else 0 |
| VerifyHandler.MissingMetadataFails | supabase/functions/verify-certificate/index.ts:89-101 | with no match and no metadata, reading `metadata.size` throws: 500 `{error:'Verification failed', details:"Cannot read properties of undefined (reading 'size')", isAuthentic:false, confidence:0}` and the table unchanged |
| VerifyHandler.LookupErrorFails | supabase/functions/verify-certificate/index.ts:112-125 | a lookup error other than `PGRST116` gives 500 `{error:'Verification failed', details: message, isAuthentic:false, confidence:0}` and nothing is inserted or updated |
| VerifyHandler.IsoDateIsDatePart | supabase/functions/verify-certificate/index.ts:97 | the audit row's issue date is the part of the ISO timestamp before its 'T' |
| VerifyHandler.HandleKeepsHashesWellFormed | supabase/functions/verify-certificate/index.ts:88-101 | a verification leaves every stored hash a 64-character hex digest |
| RegisterHandler.Handle | supabase/functions/register-certificate/index.ts:29-83 | 401 with the table unchanged exactly when there is no caller. Success happens exactly when the caller, metadata and certificateInfo are present and the insert succeeds; then one row is appended, and the response's hash, certificateId and registrationDate are that row's hash, id and created_at. Otherwise nothing is written |
| RegisterHandler.UnauthorizedInsertsNothing | supabase/functions/register-certificate/index.ts:29-34 | no caller: 401 `{error:'Unauthorized'}` and no row is inserted |
| RegisterHandler.SuccessAppendsRow | supabase/functions/register-certificate/index.ts:51-77 | success appends exactly one row: computed hash, status 'verified', issuer/holder_name/issue_date/certificate_type from certificateInfo, the caller, the filename, and `metadata.size` or else 0. The response is success true with the fixed message, the row's id, the hash and the row's created_at |
| RegisterHandler.MissingPropertyFails | supabase/functions/register-certificate/index.ts:53-60 | a missing metadata or certificateInfo throws on reading `size`, then `issuer`: 500 `{error:'Registration failed', details:"Cannot read properties of undefined (reading '<property>')"}` and no row |
| RegisterHandler.InsertErrorFails | supabase/functions/register-certificate/index.ts:85-96 | an insert error gives 500 `{error:'Registration failed', details: message}` and no row |
| RegisterHandler.NoDuplicateCheck | supabase/functions/register-certificate/index.ts:50-65 | registration succeeds even when rows with the same hash exist, and adds one more such row |
| RegisterHandler.HandleKeepsHashesWellFormed | supabase/functions/register-certificate/index.ts:51-63 | a registration leaves every stored hash a 64-character hex digest |
| CertificateRegistry.Registry.Verify | supabase/functions/verify-certificate/index.ts:29-110 | the in-place run of the verify handler leaves exactly the response and table of `VerifyHandler.Handle`, and keeps the hash invariant |
| CertificateRegistry.Registry.Register | supabase/functions/register-certificate/index.ts:29-83 | the in-place run of the register handler leaves exactly the response and table of `RegisterHandler.Handle`, and keeps the hash invariant |
| Scenarios.RegisterThenVerify | supabase/functions/verify-certificate/index.ts:38-71 | register then verify the same fileData, with no earlier row sharing the hash: authentic, confidence 95, the registration's hash, and certificateInfo equal to the registered issuer/holderName/issueDate/type |
| CertificateRegistry.RegisterThenVerifyOnFreshTable | supabase/functions/verify-certificate/index.ts:46-71 | on an empty table, reached through the class's methods only: register a file, then verify it while the lookup returns the new row. The verdict is authentic, confidence 95, with the registered issuer/holderName/issueDate/type |
| Scenarios.RegisteredRowIsOnlyMatch | supabase/functions/register-certificate/index.ts:51-65 | after such a registration the new row is the only row carrying the hash |
| Scenarios.UnknownFileVerifiedTwice | supabase/functions/verify-certificate/index.ts:46-101 | verifying the same unknown fileData twice: first not authentic (15), and exactly one rejected row with the file's hash is appended after the old table; when the lookup returns that row, the second is authentic (95) with "Unknown" attributes |
| Scenarios.RegisterAfterUnknownVerify | supabase/functions/register-certificate/index.ts:50-65 | registering after an unknown verification leaves two rows with the hash (rejected, then verified), so no single-row answer exists |
| Scenarios.ClientRegisterReportsHash | src/lib/certificateService.ts:61-89 | through the wrapper and a successful insert, the client sees success, the hash of the base64 text it extracted, and the new row's id |
| CertificateService.FileToBase64 | src/lib/certificateService.ts:104-107 | the result is undefined exactly when the data URL has no comma; otherwise it contains no comma |
| CertificateService.FileToBase64Segment | src/lib/certificateService.ts:106 | the result is the segment between the first and second comma: the prefix up to and including the first comma is dropped |
| CertificateService.FileToBase64OfDataUrl | src/lib/certificateService.ts:102-106 | for `data:<type>;base64,<payload>` the result is the payload |
| CertificateService.VerifyCertificate | src/lib/certificateService.ts:23-59 | a read error gives not authentic, confidence 0, details "Verification failed: undefined" and no hash or certificateInfo. An authentic verdict is only ever the handler's own data for the request built from the file |
| CertificateService.VerifyWithoutSession | src/lib/certificateService.ts:30-33 | without a session: not authentic, confidence 0, details "Verification failed: Authentication required", and the result does not depend on what the handler would answer |
| CertificateService.VerifyInvokeError | src/lib/certificateService.ts:46-57 | an invoke error gives not authentic, confidence 0, details "Verification failed: " + message, no hash and no certificateInfo |
| CertificateService.VerifyInvokeSuccess | src/lib/certificateService.ts:35-50 | a successful invoke returns the handler's data unchanged; the body sent is the extracted base64 text, the file name and `{size, type}` |
| CertificateService.RegisterCertificate | src/lib/certificateService.ts:61-97 | success is only ever the handler's own data for the request built from the file and the asserted attributes |
| CertificateService.RegisterInvokeSuccess | src/lib/certificateService.ts:73-89 | a successful invoke returns the handler's data unchanged, whether or not it reports success |
| CertificateService.RegisterFailureMessage | src/lib/certificateService.ts:65-96 | any failure (read error, no session, invoke error) gives success false and "Registration failed: " + the error's message |
| CertificateService.GetCertificateHistory | src/lib/certificateService.ts:113-126 | [] on an error or null data, otherwise the rows exactly as the query returned them |
| CertificateService.HistoryIsNewestFirst | src/lib/certificateService.ts:115-121 | when the query orders the table by created_at descending, the history holds the table's rows, newest first |

## Left out

- SHA-256 and `TextEncoder.encode` are functions the model receives, not definitions. Only the 32-byte digest length is assumed. Their internals are platform code.
- The store is a collaborator, not part of the model. Which row `.single()` returns, and which error it raises when several rows share a hash, are parameters. So is the code it reports. `Scenarios.RegisterAfterUnknownVerify` only shows that such a table no longer has a single-row answer.
- Ids and `created_at` on insert are parameters. The model takes `updated_at` to equal `created_at` on insert, because the table's schema is not part of this model. Timestamps are abstract integers.
- HTTP plumbing is left out: CORS headers, the OPTIONS preflight, JSON parsing of the body, and `console.error`. A malformed JSON body would also give a 500; that is not modelled.
- The Supabase client, `auth.getUser` and `getSession` are left out. They become a caller `Option<UserId>` and a session flag. A request with no Authorization header throws inside the handler (a TypeError, so a 500), and the model does not capture that.
- `supabase.functions.invoke` is a function parameter returning data or an error message. The model does not say which message it uses for a non-2xx response.
- The `FileReader` callbacks are left out. Only the outcome (a data URL or an error event) and the string split are modelled.
- Concurrent requests are left out. Each handler run is one atomic step on the table.
- JavaScript's `||` on a NaN size is not modelled; sizes are integers and an absent size is 0.
- Rows the history query hides because of row-level security policies are not modelled.
- The dashboard, the upload widget's timer-driven fake progress and random verdicts, the auth form and the page layout are left out. They are presentation code with no protocol logic.
