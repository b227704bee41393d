/**
 * The JSON shapes exchanged between the client wrapper and the two handlers:
 * the request bodies, the verdict of the verify handler and the responses of
 * both handlers (the interfaces of src/lib/certificateService.ts and the
 * literal objects the handlers serialise).
 */
module Messages {
  import opened Wrappers
  import opened Store

  /** `metadata: { size, type }`; `size` may be missing from a hand-made request. */
  datatype Metadata = Metadata(size: Option<int>, mimeType: string)

  /** `metadata.size || 0`: a missing size is stored as 0. */
  function FileSizeOf(m: Metadata): int {
    m.size.GetOr(0)
  }

  /** The attributes a registration asserts (interface CertificateInfo). */
  datatype CertificateInfo = CertificateInfo(issuer: string, holderName: string, issueDate: string, certificateType: string)

  /** The `certificateInfo` of a verdict: `{ issuer, holder, issueDate, type }`. */
  datatype RecordInfo = RecordInfo(issuer: string, holder: string, issueDate: string, certificateType: string)

  /** interface CertificateVerificationResult. */
  datatype VerificationResult = VerificationResult(
    isAuthentic: bool,
    confidence: int,
    details: string,
    hash: Option<string>,
    certificateInfo: Option<RecordInfo>)

  /** Body of a verify request; a field the sender left out reads as `undefined`. */
  datatype VerifyRequest = VerifyRequest(fileData: Option<string>, filename: string, metadata: Option<Metadata>)

  /** Body of a register request. */
  datatype RegisterRequest = RegisterRequest(
    fileData: Option<string>,
    filename: string,
    metadata: Option<Metadata>,
    certificateInfo: Option<CertificateInfo>)

  /** The three responses of the verify handler. */
  datatype VerifyResponse =
    | VerifyUnauthorized(error: string)
    | VerifyOk(result: VerificationResult)
    | VerifyFailed(error: string, details: string, isAuthentic: bool, confidence: int)
  {
    function StatusCode(): int {
      match this
      case VerifyUnauthorized(_) => 401
      case VerifyOk(_) => 200
      case VerifyFailed(_, _, _, _) => 500
    }
  }

  /** The three responses of the register handler. */
  datatype RegisterResponse =
    | RegisterUnauthorized(error: string)
    | Registered(success: bool, message: string, certificateId: RowId, hash: string, registrationDate: Instant)
    | RegistrationFailed(error: string, details: string)
  {
    function StatusCode(): int {
      match this
      case RegisterUnauthorized(_) => 401
      case Registered(_, _, _, _, _) => 200
      case RegistrationFailed(_, _) => 500
    }
  }

  /** The body of both handlers' 401 response. */
  const UnauthorizedError: string := "Unauthorized"

  /** The message of the TypeError thrown when a property is read off `undefined`. */
  function MissingPropertyMessage(property: string): string {
    "Cannot read properties of undefined (reading '" + property + "')"
  }
}
