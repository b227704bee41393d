/**
 * src/lib/certificateService.ts: the client wrapper around the two handlers.
 * It reads the file as a data URL, strips the prefix, checks for a session,
 * invokes the handler and turns every failure on the way into a fixed
 * negative result.
 */
module CertificateService {
  import opened Wrappers
  import opened Strings
  import opened Store
  import opened Messages

  /** The parts of a browser `File` the wrapper reads. */
  datatype File = File(name: string, size: int, mimeType: string)

  /**
   * How `readAsDataURL` ends: `onload` with the data URL, or `onerror`, whose
   * rejection value is an event without a `message`.
   */
  datatype ReadOutcome = Loaded(dataUrl: string) | ReadError

  /** What `supabase.functions.invoke` resolves to: the handler's `data`, or an `error` with a message. */
  datatype Invocation<T> = Invoked(data: T) | InvokeError(message: string)

  /** The result `registerCertificate` returns. */
  datatype RegistrationResult = RegistrationResult(
    success: bool,
    message: string,
    hash: Option<string>,
    certificateId: Option<RowId>,
    registrationDate: Option<Instant>)

  /** `{ data, error }` of the history query. */
  datatype HistoryResponse = HistoryResponse(data: Option<seq<CertificateRow>>, error: Option<StoreError>)

  const AuthenticationRequired: string := "Authentication required"
  const VerifyFailurePrefix: string := "Verification failed: "
  const RegisterFailurePrefix: string := "Registration failed: "

  /** `${error.message}` of an error without a message. */
  const Undefined: string := "undefined"

  /**
   * `result.split(',')[1]`: the text between the first comma and the next one
   * (or the end); `undefined` when the data URL has no comma.
   */
  function FileToBase64(dataUrl: string): (r: Option<string>)
    ensures r.None? <==> ',' !in dataUrl
    ensures r.Some? ==> ',' !in r.value
  {
    var parts := SplitOn(dataUrl, ',');
    if |parts| > 1 then Some(parts[1]) else None
  }

  /** Dropping the prefix up to and including the first comma leaves the segment before the second comma. */
  lemma FileToBase64Segment(prefix: string, payload: string, rest: string)
    requires ',' !in prefix && ',' !in payload
    requires rest == "" || rest[0] == ','
    ensures FileToBase64(prefix + "," + payload + rest) == Some(payload)
  {
    assert prefix + "," + payload + rest == prefix + [','] + (payload + rest);
    SplitAfterFirst(prefix, ',', payload + rest);
    SplitFirstPiece(payload, ',', rest);
  }

  /** For a base64 data URL `data:<type>;base64,<payload>` the wrapper sends exactly the payload. */
  lemma FileToBase64OfDataUrl(mimeType: string, payload: string)
    requires ',' !in mimeType && ',' !in payload
    ensures FileToBase64("data:" + mimeType + ";base64," + payload) == Some(payload)
  {
    var prefix := "data:" + mimeType + ";base64";
    assert "data:" + mimeType + ";base64," + payload == prefix + "," + payload + "";
    FileToBase64Segment(prefix, payload, "");
  }

  /** The request body `verifyCertificate` sends for a file. */
  function VerifyRequestFor(file: File, fileData: Option<string>): VerifyRequest {
    VerifyRequest(fileData, file.name, Some(Metadata(Some(file.size), file.mimeType)))
  }

  /** The request body `registerCertificate` sends for a file. */
  function RegisterRequestFor(file: File, fileData: Option<string>, info: CertificateInfo): RegisterRequest {
    RegisterRequest(fileData, file.name, Some(Metadata(Some(file.size), file.mimeType)), Some(info))
  }

  /** The result of the `catch` block of `verifyCertificate`. */
  function VerificationFailure(message: string): VerificationResult {
    VerificationResult(false, 0, VerifyFailurePrefix + message, None, None)
  }

  /** The result of the `catch` block of `registerCertificate`. */
  function RegistrationFailure(message: string): RegistrationResult {
    RegistrationResult(false, RegisterFailurePrefix + message, None, None, None)
  }

  /**
   * `verifyCertificate(file)`. `invoke` stands for what the handler would
   * answer to a request body; it is consulted only on the path that invokes.
   * A positive verdict can only come from the handler.
   */
  function VerifyCertificate(file: File, read: ReadOutcome, hasSession: bool,
                             invoke: VerifyRequest -> Invocation<VerificationResult>): (r: VerificationResult)
    ensures read.ReadError? ==> r == VerificationResult(false, 0, "Verification failed: " + "undefined", None, None)
    ensures r.isAuthentic ==>
      read.Loaded? && hasSession && invoke(VerifyRequestFor(file, FileToBase64(read.dataUrl))) == Invoked(r)
  {
    match read
    case ReadError => VerificationFailure(Undefined)
    case Loaded(dataUrl) =>
      if !hasSession then VerificationFailure(AuthenticationRequired)
      else
        match invoke(VerifyRequestFor(file, FileToBase64(dataUrl)))
        case InvokeError(message) => VerificationFailure(message)
        case Invoked(data) => data
  }

  /** Without a session the result is the fixed authentication failure, whatever the handler would have said. */
  lemma VerifyWithoutSession(file: File, dataUrl: string,
                             invoke: VerifyRequest -> Invocation<VerificationResult>,
                             other: VerifyRequest -> Invocation<VerificationResult>)
    ensures VerifyCertificate(file, Loaded(dataUrl), false, invoke)
         == VerificationResult(false, 0, "Verification failed: " + "Authentication required", None, None)
         == VerifyCertificate(file, Loaded(dataUrl), false, other)
  {
  }

  /** An invoke error becomes a negative result with confidence 0, the error's message, and no hash or attributes. */
  lemma VerifyInvokeError(file: File, dataUrl: string, invoke: VerifyRequest -> Invocation<VerificationResult>)
    requires invoke(VerifyRequestFor(file, FileToBase64(dataUrl))).InvokeError?
    ensures var r := VerifyCertificate(file, Loaded(dataUrl), true, invoke);
            && !r.isAuthentic && r.confidence == 0
            && r.details == "Verification failed: " + invoke(VerifyRequestFor(file, FileToBase64(dataUrl))).message
            && r.hash.None? && r.certificateInfo.None?
  {
  }

  /** A successful invoke returns the handler's data unchanged, for the body built from the file. */
  lemma VerifyInvokeSuccess(file: File, dataUrl: string, invoke: VerifyRequest -> Invocation<VerificationResult>,
                            data: VerificationResult)
    requires invoke(VerifyRequest(FileToBase64(dataUrl), file.name, Some(Metadata(Some(file.size), file.mimeType))))
             == Invoked(data)
    ensures VerifyCertificate(file, Loaded(dataUrl), true, invoke) == data
  {
  }

  /** `registerCertificate(file, certificateInfo)`; a success can only come from the handler. */
  function RegisterCertificate(file: File, read: ReadOutcome, info: CertificateInfo, hasSession: bool,
                               invoke: RegisterRequest -> Invocation<RegistrationResult>): (r: RegistrationResult)
    ensures r.success ==>
      read.Loaded? && hasSession && invoke(RegisterRequestFor(file, FileToBase64(read.dataUrl), info)) == Invoked(r)
  {
    match read
    case ReadError => RegistrationFailure(Undefined)
    case Loaded(dataUrl) =>
      if !hasSession then RegistrationFailure(AuthenticationRequired)
      else
        match invoke(RegisterRequestFor(file, FileToBase64(dataUrl), info))
        case InvokeError(message) => RegistrationFailure(message)
        case Invoked(data) => data
  }

  /** A successful invoke returns the handler's data unchanged, whatever it reports. */
  lemma RegisterInvokeSuccess(file: File, dataUrl: string, info: CertificateInfo,
                              invoke: RegisterRequest -> Invocation<RegistrationResult>)
    requires invoke(RegisterRequestFor(file, FileToBase64(dataUrl), info)).Invoked?
    ensures RegisterCertificate(file, Loaded(dataUrl), info, true, invoke)
         == invoke(RegisterRequestFor(file, FileToBase64(dataUrl), info)).data
  {
  }

  /** Every failure on the way is `success: false` with the message prefixed by "Registration failed: ". */
  lemma RegisterFailureMessage(file: File, read: ReadOutcome, info: CertificateInfo, hasSession: bool,
                               invoke: RegisterRequest -> Invocation<RegistrationResult>)
    requires read.ReadError? || !hasSession || invoke(RegisterRequestFor(file, FileToBase64(read.dataUrl), info)).InvokeError?
    ensures var r := RegisterCertificate(file, read, info, hasSession, invoke);
            && !r.success
            && r.message == "Registration failed: " +
                 (if read.ReadError? then "undefined"
                  else if !hasSession then "Authentication required"
                  else invoke(RegisterRequestFor(file, FileToBase64(read.dataUrl), info)).message)
  {
  }

  /** The success body of the register handler as `invoke` hands it to the wrapper. */
  function RegisteredData(resp: RegisterResponse): RegistrationResult
    requires resp.Registered?
  {
    RegistrationResult(resp.success, resp.message, Some(resp.hash), Some(resp.certificateId), Some(resp.registrationDate))
  }

  /** `getCertificateHistory()`: the rows as the query returned them, or [] on an error or null data. */
  function GetCertificateHistory(resp: HistoryResponse): (r: seq<CertificateRow>)
    ensures resp.error.Some? || resp.data.None? ==> r == []
    ensures resp.error.None? && resp.data.Some? ==> r == resp.data.value
  {
    if resp.error.Some? then [] else resp.data.GetOr([])
  }

  /** When the query answers with the table ordered by `created_at` descending, the history is that table, newest first. */
  lemma HistoryIsNewestFirst(table: seq<CertificateRow>)
    ensures var r := GetCertificateHistory(HistoryResponse(Some(OrderByCreatedAtDesc(table)), None));
            NewestFirst(r) && multiset(r) == multiset(table)
  {
  }
}
