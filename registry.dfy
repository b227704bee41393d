/**
 * The shared `certificates` table as the two handlers change it in place:
 * verification updates the status of the matched row or appends an audit
 * row, registration appends a verified row.
 */
module CertificateRegistry {
  import opened Wrappers
  import opened CertificateDigest
  import opened Store
  import opened Messages
  import VerifyHandler
  import RegisterHandler

  class Registry {
    var rows: seq<CertificateRow>

    /**
     * Every stored hash was computed by a handler: 64 lower-case hex
     * characters, which `Store.StoredHashesDecode` reads back as a 32-byte
     * digest per row. Both methods preserve it.
     */
    ghost predicate Valid()
      reads this
    {
      HashesWellFormed(rows)
    }

    constructor ()
      ensures Valid() && rows == []
    {
      rows := [];
    }

    /** One run of the verify handler against this table. */
    method Verify(caller: Option<UserId>, req: VerifyRequest, crypto: Crypto, lookup: SelectResponse,
                  updateApplied: bool, audit: InsertOutcome, now: Now)
      returns (response: VerifyResponse)
      requires Valid()
      modifies this
      ensures Valid()
      ensures Outcome(response, rows)
           == VerifyHandler.Handle(old(rows), caller, req, crypto, lookup, updateApplied, audit, now)
    {
      VerifyHandler.HandleKeepsHashesWellFormed(rows, caller, req, crypto, lookup, updateApplied, audit, now);
      if caller.None? {
        return VerifyUnauthorized(UnauthorizedError);
      }
      var user := caller.value;
      var certificateHash := CertificateHash(crypto, req.fileData);
      var existing := VerifyHandler.ClassifyLookup(lookup);
      if existing.LookupFailed? {
        return VerifyFailed(VerifyHandler.FailureError, existing.error.message, false, VerifyHandler.FailureConfidence);
      }
      var verificationResult: VerificationResult;
      if existing.Found? {
        verificationResult := VerifyHandler.MatchedResult(existing.row, certificateHash);
        if updateApplied {
          rows := SetStatusById(rows, existing.row.id, Verified, now.at);
        }
      } else {
        verificationResult := VerifyHandler.UnmatchedResult(certificateHash);
        if req.metadata.None? {
          return VerifyFailed(VerifyHandler.FailureError, MissingPropertyMessage("size"), false,
                              VerifyHandler.FailureConfidence);
        }
        if audit.Inserted? {
          rows := rows + [VerifyHandler.AuditRow(certificateHash, req, req.metadata.value, user, now,
                                                 audit.id, audit.createdAt)];
        }
      }
      response := VerifyOk(verificationResult);
    }

    /** One run of the register handler against this table. */
    method Register(caller: Option<UserId>, req: RegisterRequest, crypto: Crypto, insert: InsertOutcome)
      returns (response: RegisterResponse)
      requires Valid()
      modifies this
      ensures Valid()
      ensures Outcome(response, rows) == RegisterHandler.Handle(old(rows), caller, req, crypto, insert)
    {
      RegisterHandler.HandleKeepsHashesWellFormed(rows, caller, req, crypto, insert);
      if caller.None? {
        return RegisterUnauthorized(UnauthorizedError);
      }
      var certificateHash := CertificateHash(crypto, req.fileData);
      if req.metadata.None? {
        return RegistrationFailed(RegisterHandler.FailureError, MissingPropertyMessage("size"));
      }
      if req.certificateInfo.None? {
        return RegistrationFailed(RegisterHandler.FailureError, MissingPropertyMessage("issuer"));
      }
      match insert
      case InsertFailed(e) =>
        response := RegistrationFailed(RegisterHandler.FailureError, e.message);
      case Inserted(id, createdAt) =>
        var newCert := RegisterHandler.RegisteredRow(certificateHash, req, req.metadata.value,
                                                     req.certificateInfo.value, caller.value, id, createdAt);
        rows := rows + [newCert];
        response := Registered(true, RegisterHandler.SuccessMessage, newCert.id, certificateHash, newCert.createdAt);
    }
  }

  /** Register and then verify the same file on a fresh table, through the class. */
  method RegisterThenVerifyOnFreshTable(crypto: Crypto, user: UserId, req: RegisterRequest,
                                        id: RowId, createdAt: Instant, now: Now)
    returns (verdict: VerifyResponse)
    requires req.metadata.Some? && req.certificateInfo.Some?
    ensures verdict.VerifyOk? && verdict.result.isAuthentic && verdict.result.confidence == 95
    ensures verdict.result.certificateInfo == Some(RecordInfo(req.certificateInfo.value.issuer,
              req.certificateInfo.value.holderName, req.certificateInfo.value.issueDate,
              req.certificateInfo.value.certificateType))
  {
    var registry := new Registry();
    var registered := registry.Register(Some(user), req, crypto, Inserted(id, createdAt));
    assert registered.Registered?;
    var row := registry.rows[0];
    var lookup := SelectResponse(Some(row), None);
    verdict := registry.Verify(Some(user), VerifyRequest(req.fileData, req.filename, req.metadata), crypto,
                                   lookup, true, InsertFailed(StoreError("", "")), now);
    assert registry.rows == [row.(updatedAt := now.at)];
  }
}
