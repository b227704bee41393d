/**
 * supabase/functions/verify-certificate: authenticate the caller, hash the
 * submitted text, look the hash up, and either mark the matched row verified
 * or record the unknown attempt as a rejected audit row.
 */
module VerifyHandler {
  import opened Wrappers
  import opened Strings
  import opened CertificateDigest
  import opened Store
  import opened Messages

  const MatchConfidence: int := 95
  const NoMatchConfidence: int := 15
  const FailureConfidence: int := 0
  const FailureError: string := "Verification failed"
  const MatchDetailsPrefix: string := "Certificate verified against blockchain. Originally issued to "
  const NoMatchDetails: string := "Certificate hash not found in blockchain database. This may be a forged document."
  const Unknown: string := "Unknown"

  /** How the handler reads the store's answer to the hash lookup. */
  datatype Lookup = Found(row: CertificateRow) | NotFound | LookupFailed(error: StoreError)

  /** Any error but the no-rows code is rethrown; otherwise a returned row is a match and anything else is no match. */
  function ClassifyLookup(resp: SelectResponse): (l: Lookup)
    ensures l.LookupFailed? <==> resp.error.Some? && resp.error.value.code != NoRowsCode
    ensures l.Found? <==> !l.LookupFailed? && resp.data.Some?
    ensures l.Found? ==> l.row == resp.data.value
    ensures l.LookupFailed? ==> l.error == resp.error.value
  {
    if resp.error.Some? && resp.error.value.code != NoRowsCode then LookupFailed(resp.error.value)
    else if resp.data.Some? then Found(resp.data.value)
    else NotFound
  }

  /** The verdict for a matched row. */
  function MatchedResult(row: CertificateRow, hash: string): VerificationResult {
    VerificationResult(
      true,
      MatchConfidence,
      MatchDetailsPrefix + row.holderName + " on " + row.issueDate,
      Some(hash),
      Some(RecordInfo(row.issuer, row.holderName, row.issueDate, row.certificateType)))
  }

  /** The verdict for a hash that is not in the table. */
  function UnmatchedResult(hash: string): VerificationResult {
    VerificationResult(false, NoMatchConfidence, NoMatchDetails, Some(hash), None)
  }

  /** `new Date().toISOString().split('T')[0]`: the date part of the handler's clock. */
  function IsoDate(now: Now): string {
    SplitOn(now.iso, 'T')[0]
  }

  /** The audit row recorded for an unknown hash; `id` and `createdAt` come from the store. */
  function AuditRow(hash: string, req: VerifyRequest, metadata: Metadata, user: UserId, now: Now,
                    id: RowId, createdAt: Instant): CertificateRow
  {
    CertificateRow(id, hash, req.filename, FileSizeOf(metadata), Unknown, Unknown, IsoDate(now), Unknown,
                   Rejected, user, createdAt, createdAt)
  }

  /**
   * One invocation. `lookup` is the store's answer to the `.single()` select,
   * `updateApplied` whether the status update took effect and `audit` the
   * outcome of the audit insert: the handler never reads the result of either
   * write, so they change only the table, never the response.
   */
  function Handle(rows: seq<CertificateRow>, caller: Option<UserId>, req: VerifyRequest, crypto: Crypto,
                  lookup: SelectResponse, updateApplied: bool, audit: InsertOutcome, now: Now)
    : (o: Outcome<VerifyResponse>)
    ensures caller.None? ==> o == Outcome(VerifyUnauthorized(UnauthorizedError), rows)
    ensures o.response.VerifyUnauthorized? <==> caller.None?
    ensures o.response.VerifyOk? ==> o.response.result.hash == Some(CertificateHash(crypto, req.fileData))
    ensures o.response.VerifyOk? <==> caller.Some? && (lookup.data.Some? || req.metadata.Some?) && !ClassifyLookup(lookup).LookupFailed?
    ensures o.response.VerifyFailed? ==> o.table == rows
    ensures o.table == rows
         || (lookup.data.Some? && o.table == SetStatusById(rows, lookup.data.value.id, Verified, now.at))
         || (|o.table| == |rows| + 1 && o.table[..|rows|] == rows && o.table[|rows|].verificationStatus == Rejected)
  {
    if caller.None? then Outcome(VerifyUnauthorized(UnauthorizedError), rows)
    else
      var hash := CertificateHash(crypto, req.fileData);
      match ClassifyLookup(lookup)
      case LookupFailed(e) =>
        Outcome(VerifyFailed(FailureError, e.message, false, FailureConfidence), rows)
      case Found(row) =>
        Outcome(VerifyOk(MatchedResult(row, hash)),
                if updateApplied then SetStatusById(rows, row.id, Verified, now.at) else rows)
      case NotFound =>
        match req.metadata
        case None =>
          Outcome(VerifyFailed(FailureError, MissingPropertyMessage("size"), false, FailureConfidence), rows)
        case Some(metadata) =>
          var table := match audit
            case Inserted(id, createdAt) => rows + [AuditRow(hash, req, metadata, caller.value, now, id, createdAt)]
            case InsertFailed(_) => rows;
          assert table == rows || table[..|rows|] == rows;
          Outcome(VerifyOk(UnmatchedResult(hash)), table)
  }

  /** An unauthenticated caller gets a 401 and the table is untouched. */
  lemma UnauthorizedChangesNothing(rows: seq<CertificateRow>, req: VerifyRequest, crypto: Crypto,
                                   lookup: SelectResponse, updateApplied: bool, audit: InsertOutcome, now: Now)
    ensures var o := Handle(rows, None, req, crypto, lookup, updateApplied, audit, now);
            o.response.StatusCode() == 401 && o.response == VerifyUnauthorized("Unauthorized") && o.table == rows
  {
  }

  /**
   * A match yields an authentic verdict with confidence 95, the computed hash
   * and the row's attributes; the only change to the table is the status
   * update of the rows carrying the matched id.
   */
  lemma MatchIsAuthentic(rows: seq<CertificateRow>, user: UserId, req: VerifyRequest, crypto: Crypto,
                         lookup: SelectResponse, updateApplied: bool, audit: InsertOutcome, now: Now,
                         row: CertificateRow)
    requires ClassifyLookup(lookup) == Found(row)
    ensures var o := Handle(rows, Some(user), req, crypto, lookup, updateApplied, audit, now);
            && o.response.StatusCode() == 200
            && o.response.result.isAuthentic
            && o.response.result.confidence == 95
            && o.response.result.details
               == "Certificate verified against blockchain. Originally issued to " + row.holderName + " on " + row.issueDate
            && o.response.result.hash == Some(CertificateHash(crypto, req.fileData))
            && o.response.result.certificateInfo
               == Some(RecordInfo(row.issuer, row.holderName, row.issueDate, row.certificateType))
            && |o.table| == |rows|
            && (!updateApplied ==> o.table == rows)
            && (forall i :: 0 <= i < |rows| && rows[i].id != row.id ==> o.table[i] == rows[i])
            && (forall i :: 0 <= i < |rows| && rows[i].id == row.id && updateApplied ==>
                  o.table[i] == rows[i].(verificationStatus := Verified, updatedAt := now.at))
  {
  }

  /** The response to a lookup that found a row. */
  lemma MatchedResponse(rows: seq<CertificateRow>, user: UserId, req: VerifyRequest, crypto: Crypto,
                        lookup: SelectResponse, updateApplied: bool, audit: InsertOutcome, now: Now,
                        row: CertificateRow)
    requires ClassifyLookup(lookup) == Found(row)
    ensures Handle(rows, Some(user), req, crypto, lookup, updateApplied, audit, now).response
         == VerifyOk(MatchedResult(row, CertificateHash(crypto, req.fileData)))
  {
  }

  /** Re-verifying an already verified row leaves every status as it was. */
  lemma MatchOnVerifiedKeepsStatuses(rows: seq<CertificateRow>, user: UserId, req: VerifyRequest, crypto: Crypto,
                                     lookup: SelectResponse, updateApplied: bool, audit: InsertOutcome, now: Now,
                                     row: CertificateRow)
    requires ClassifyLookup(lookup) == Found(row)
    requires forall i :: 0 <= i < |rows| && rows[i].id == row.id ==> rows[i].verificationStatus == Verified
    ensures var o := Handle(rows, Some(user), req, crypto, lookup, updateApplied, audit, now);
            forall i :: 0 <= i < |rows| ==> o.table[i].verificationStatus == rows[i].verificationStatus
  {
    SetVerifiedKeepsVerified(rows, row.id, now.at);
  }

  /**
   * No match yields a negative verdict with confidence 15 and no attributes;
   * a successful audit insert appends exactly one rejected "Unknown" row
   * owned by the caller.
   */
  lemma NoMatchRecordsAudit(rows: seq<CertificateRow>, user: UserId, req: VerifyRequest, crypto: Crypto,
                            lookup: SelectResponse, updateApplied: bool, audit: InsertOutcome, now: Now)
    requires ClassifyLookup(lookup) == NotFound
    requires req.metadata.Some?
    ensures var o := Handle(rows, Some(user), req, crypto, lookup, updateApplied, audit, now);
            var hash := CertificateHash(crypto, req.fileData);
            && o.response.StatusCode() == 200
            && !o.response.result.isAuthentic
            && o.response.result.confidence == 15
            && o.response.result.details
               == "Certificate hash not found in blockchain database. This may be a forged document."
            && o.response.result.certificateInfo.None?
            && o.response.result.hash == Some(hash)
            && (audit.InsertFailed? ==> o.table == rows)
            && (audit.Inserted? ==>
                  && |o.table| == |rows| + 1
                  && o.table[..|rows|] == rows
                  && var r := o.table[|rows|];
                  && r.id == audit.id
                  && r.certificateHash == hash
                  && r.issuer == "Unknown" && r.holderName == "Unknown" && r.certificateType == "Unknown"
                  && r.issueDate == IsoDate(now)
                  && r.verificationStatus == Rejected
                  && r.uploadedBy == user
                  && r.originalFilename == req.filename
                  && r.fileSize == req.metadata.value.size.GetOr(0))
  {
    var hash := CertificateHash(crypto, req.fileData);
    UnmatchedOutcome(rows, user, req, crypto, lookup, updateApplied, audit, now);
    if audit.Inserted? {
      var r := AuditRow(hash, req, req.metadata.value, user, now, audit.id, audit.createdAt);
      assert (rows + [r])[..|rows|] == rows && (rows + [r])[|rows|] == r;
    }
  }

  /** The whole outcome of a lookup that found nothing, for a request with metadata. */
  lemma UnmatchedOutcome(rows: seq<CertificateRow>, user: UserId, req: VerifyRequest, crypto: Crypto,
                         lookup: SelectResponse, updateApplied: bool, audit: InsertOutcome, now: Now)
    requires ClassifyLookup(lookup) == NotFound
    requires req.metadata.Some?
    ensures Handle(rows, Some(user), req, crypto, lookup, updateApplied, audit, now)
         == Outcome(VerifyOk(UnmatchedResult(CertificateHash(crypto, req.fileData))),
                    if audit.Inserted?
                    then rows + [AuditRow(CertificateHash(crypto, req.fileData), req, req.metadata.value,
                                          user, now, audit.id, audit.createdAt)]
                    else rows)
  {
  }

  /**
   * Without `metadata`, a lookup that finds nothing reads `metadata.size` off
   * `undefined`: the TypeError becomes a 500 with its message, and nothing is written.
   */
  lemma MissingMetadataFails(rows: seq<CertificateRow>, user: UserId, req: VerifyRequest, crypto: Crypto,
                             lookup: SelectResponse, updateApplied: bool, audit: InsertOutcome, now: Now)
    requires ClassifyLookup(lookup) == NotFound
    requires req.metadata.None?
    ensures var o := Handle(rows, Some(user), req, crypto, lookup, updateApplied, audit, now);
            && o.response.StatusCode() == 500
            && o == Outcome(VerifyFailed("Verification failed", "Cannot read properties of undefined (reading '" + "size" + "')",
                                         false, 0), rows)
  {
  }

  /** A lookup error other than the no-rows code is a 500 with confidence 0, and nothing is written. */
  lemma LookupErrorFails(rows: seq<CertificateRow>, user: UserId, req: VerifyRequest, crypto: Crypto,
                         lookup: SelectResponse, updateApplied: bool, audit: InsertOutcome, now: Now)
    requires lookup.error.Some? && lookup.error.value.code != "PGRST116"
    ensures var o := Handle(rows, Some(user), req, crypto, lookup, updateApplied, audit, now);
            && o.response.StatusCode() == 500
            && o == Outcome(VerifyFailed("Verification failed", lookup.error.value.message, false, 0), rows)
  {
  }

  /** The date of the audit row is the part of the ISO timestamp before its 'T'. */
  lemma IsoDateIsDatePart(now: Now, date: string, time: string)
    requires now.iso == date + "T" + time
    requires 'T' !in date
    ensures IsoDate(now) == date
  {
    SplitAfterFirst(date, 'T', time);
  }

  /** Every row a verification leaves behind still carries a well-formed digest. */
  lemma HandleKeepsHashesWellFormed(rows: seq<CertificateRow>, caller: Option<UserId>, req: VerifyRequest, crypto: Crypto,
                                    lookup: SelectResponse, updateApplied: bool, audit: InsertOutcome, now: Now)
    requires HashesWellFormed(rows)
    ensures HashesWellFormed(Handle(rows, caller, req, crypto, lookup, updateApplied, audit, now).table)
  {
    HandleTable(rows, caller, req, crypto, lookup, updateApplied, audit, now);
    if caller.Some? {
      match ClassifyLookup(lookup)
      case LookupFailed(_) =>
      case Found(row) =>
        if updateApplied {
          SetStatusKeepsHashes(rows, row.id, Verified, now.at);
        }
      case NotFound =>
        if req.metadata.Some? && audit.Inserted? {
          AppendKeepsHashesWellFormed(rows, AuditRow(CertificateHash(crypto, req.fileData), req, req.metadata.value,
                                                     caller.value, now, audit.id, audit.createdAt));
        }
    }
  }

  /** The three tables a verification can leave behind, by branch. */
  lemma HandleTable(rows: seq<CertificateRow>, caller: Option<UserId>, req: VerifyRequest, crypto: Crypto,
                    lookup: SelectResponse, updateApplied: bool, audit: InsertOutcome, now: Now)
    ensures var t := Handle(rows, caller, req, crypto, lookup, updateApplied, audit, now).table;
            if caller.Some? && ClassifyLookup(lookup).Found? && updateApplied then
              t == SetStatusById(rows, ClassifyLookup(lookup).row.id, Verified, now.at)
            else if caller.Some? && ClassifyLookup(lookup).NotFound? && req.metadata.Some? && audit.Inserted? then
              t == rows + [AuditRow(CertificateHash(crypto, req.fileData), req, req.metadata.value,
                                    caller.value, now, audit.id, audit.createdAt)]
            else
              t == rows
  {
  }
}
