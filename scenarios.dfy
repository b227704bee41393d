/**
 * Properties of the two handlers run one after the other on the same table,
 * with the store answering the hash lookup when exactly one row matches.
 */
module Scenarios {
  import opened Wrappers
  import opened CertificateDigest
  import opened Store
  import opened Messages
  import VerifyHandler
  import RegisterHandler
  import CertificateService

  /** The verify request the client sends for the same file as a register request. */
  function SameFile(req: RegisterRequest): VerifyRequest {
    VerifyRequest(req.fileData, req.filename, req.metadata)
  }

  /**
   * Registering a file whose hash no row carries yet and then verifying the
   * same `fileData` is authentic with confidence 95, and the verdict carries
   * exactly the attributes that were registered.
   */
  lemma RegisterThenVerify(rows: seq<CertificateRow>, registrant: UserId, verifier: UserId, req: RegisterRequest,
                           crypto: Crypto, id: RowId, createdAt: Instant,
                           lookup: SelectResponse, updateApplied: bool, audit: InsertOutcome, now: Now)
    requires req.metadata.Some? && req.certificateInfo.Some?
    requires Matches(rows, CertificateHash(crypto, req.fileData)) == []
    requires AnswersSingleMatch(RegisterHandler.Handle(rows, Some(registrant), req, crypto, Inserted(id, createdAt)).table,
                                CertificateHash(crypto, req.fileData), lookup)
    ensures var registered := RegisterHandler.Handle(rows, Some(registrant), req, crypto, Inserted(id, createdAt));
            var verified := VerifyHandler.Handle(registered.table, Some(verifier), SameFile(req), crypto,
                                                 lookup, updateApplied, audit, now);
            var info := req.certificateInfo.value;
            && registered.response.Registered?
            && verified.response.VerifyOk?
            && verified.response.result.isAuthentic
            && verified.response.result.confidence == 95
            && verified.response.result.hash == Some(registered.response.hash)
            && verified.response.result.certificateInfo
               == Some(RecordInfo(info.issuer, info.holderName, info.issueDate, info.certificateType))
  {
    var hash := CertificateHash(crypto, req.fileData);
    var row := RegisterHandler.RegisteredRow(hash, req, req.metadata.value, req.certificateInfo.value,
                                             registrant, id, createdAt);
    RegisteredTable(rows, registrant, req, crypto, id, createdAt);
    SingleMatchIsAppended(rows, row, hash, lookup);
    MatchedVerdict(rows + [row], verifier, SameFile(req), crypto, lookup, updateApplied, audit, now, row);
  }

  /** A lookup answered with a row and no error gives the match verdict for that row. */
  lemma MatchedVerdict(t: seq<CertificateRow>, verifier: UserId, vreq: VerifyRequest, crypto: Crypto,
                       lookup: SelectResponse, updateApplied: bool, audit: InsertOutcome, now: Now,
                       row: CertificateRow)
    requires lookup == SelectResponse(Some(row), None)
    ensures VerifyHandler.Handle(t, Some(verifier), vreq, crypto, lookup, updateApplied, audit, now).response
         == VerifyOk(VerifyHandler.MatchedResult(row, CertificateHash(crypto, vreq.fileData)))
  {
    VerifyHandler.MatchedResponse(t, verifier, vreq, crypto, lookup, updateApplied, audit, now, row);
  }

  /** When no earlier row carries the hash, the single-row answer after an append is the appended row. */
  lemma SingleMatchIsAppended(rows: seq<CertificateRow>, row: CertificateRow, hash: string, lookup: SelectResponse)
    requires Matches(rows, hash) == [] && row.certificateHash == hash
    requires AnswersSingleMatch(rows + [row], hash, lookup)
    ensures lookup == SelectResponse(Some(row), None)
  {
    MatchesAppend(rows, row, hash);
  }

  /** After such a registration the registered row is the only one carrying its hash, so the lookup above can be answered. */
  lemma RegisteredRowIsOnlyMatch(rows: seq<CertificateRow>, registrant: UserId, req: RegisterRequest,
                                 crypto: Crypto, id: RowId, createdAt: Instant)
    requires req.metadata.Some? && req.certificateInfo.Some?
    requires Matches(rows, CertificateHash(crypto, req.fileData)) == []
    ensures var table := RegisterHandler.Handle(rows, Some(registrant), req, crypto, Inserted(id, createdAt)).table;
            var hash := CertificateHash(crypto, req.fileData);
            Matches(table, hash) == [table[|rows|]]
  {
    var hash := CertificateHash(crypto, req.fileData);
    var row := RegisterHandler.RegisteredRow(hash, req, req.metadata.value, req.certificateInfo.value,
                                             registrant, id, createdAt);
    RegisterHandler.SuccessAppendsRow(rows, registrant, req, crypto, id, createdAt);
    MatchesAppend(rows, row, hash);
  }

  /**
   * Verifying the same unknown `fileData` twice: the first call is not
   * authentic (confidence 15) and appends a rejected audit row; when the store
   * then returns that row, the second call reports the document authentic
   * with confidence 95 and "Unknown" attributes.
   */
  lemma UnknownFileVerifiedTwice(rows: seq<CertificateRow>, user: UserId, req: VerifyRequest, crypto: Crypto,
                                 first: SelectResponse, updateApplied: bool, auditId: RowId, auditAt: Instant,
                                 now: Now, second: SelectResponse, updateApplied2: bool, audit2: InsertOutcome, now2: Now)
    requires req.metadata.Some?
    requires VerifyHandler.ClassifyLookup(first) == VerifyHandler.NotFound
    requires Matches(rows, CertificateHash(crypto, req.fileData)) == []
    requires AnswersSingleMatch(
      VerifyHandler.Handle(rows, Some(user), req, crypto, first, updateApplied, Inserted(auditId, auditAt), now).table,
      CertificateHash(crypto, req.fileData), second)
    ensures var o1 := VerifyHandler.Handle(rows, Some(user), req, crypto, first, updateApplied, Inserted(auditId, auditAt), now);
            var o2 := VerifyHandler.Handle(o1.table, Some(user), req, crypto, second, updateApplied2, audit2, now2);
            && o1.response.VerifyOk? && !o1.response.result.isAuthentic && o1.response.result.confidence == 15
            && |o1.table| == |rows| + 1 && o1.table[..|rows|] == rows
            && o1.table[|rows|].verificationStatus == Rejected
            && o1.table[|rows|].certificateHash == CertificateHash(crypto, req.fileData)
            && o2.response.VerifyOk? && o2.response.result.isAuthentic && o2.response.result.confidence == 95
            && o2.response.result.certificateInfo
               == Some(RecordInfo("Unknown", "Unknown", VerifyHandler.IsoDate(now), "Unknown"))
  {
    var hash := CertificateHash(crypto, req.fileData);
    var o1 := VerifyHandler.Handle(rows, Some(user), req, crypto, first, updateApplied, Inserted(auditId, auditAt), now);
    var audit := VerifyHandler.AuditRow(hash, req, req.metadata.value, user, now, auditId, auditAt);
    assert o1.table == rows + [audit];
    MatchesAppend(rows, audit, hash);
    assert second.data == Some(audit);
    VerifyHandler.MatchIsAuthentic(o1.table, user, req, crypto, second, updateApplied2, audit2, now2, audit);
  }

  /**
   * Registering a file after an unknown verification of the same `fileData`
   * leaves two rows with its hash, the rejected audit row first; the store's
   * single-row lookup then no longer has exactly one row to return.
   */
  lemma RegisterAfterUnknownVerify(rows: seq<CertificateRow>, user: UserId, req: RegisterRequest, crypto: Crypto,
                                   first: SelectResponse, updateApplied: bool, auditId: RowId, auditAt: Instant,
                                   now: Now, registrant: UserId, id: RowId, createdAt: Instant)
    requires req.metadata.Some? && req.certificateInfo.Some?
    requires VerifyHandler.ClassifyLookup(first) == VerifyHandler.NotFound
    requires Matches(rows, CertificateHash(crypto, req.fileData)) == []
    ensures var o1 := VerifyHandler.Handle(rows, Some(user), SameFile(req), crypto, first, updateApplied,
                                           Inserted(auditId, auditAt), now);
            var o2 := RegisterHandler.Handle(o1.table, Some(registrant), req, crypto, Inserted(id, createdAt));
            var m := Matches(o2.table, CertificateHash(crypto, req.fileData));
            && o2.response.Registered?
            && |m| == 2
            && m[0].verificationStatus == Rejected
            && m[1].verificationStatus == Verified
            && forall lookup :: !AnswersSingleMatch(o2.table, CertificateHash(crypto, req.fileData), lookup)
  {
    var hash := CertificateHash(crypto, req.fileData);
    var vreq := SameFile(req);
    var audit := VerifyHandler.AuditRow(hash, vreq, req.metadata.value, user, now, auditId, auditAt);
    UnmatchedTable(rows, user, vreq, crypto, first, updateApplied, auditId, auditAt, now);
    var t1 := rows + [audit];
    var row := RegisterHandler.RegisteredRow(hash, req, req.metadata.value, req.certificateInfo.value,
                                             registrant, id, createdAt);
    RegisteredTable(t1, registrant, req, crypto, id, createdAt);
    AppendTwoMatches(rows, audit, row, hash);
  }

  /** Appending two rows with a hash no row carries yet makes them its only matches, in order. */
  lemma AppendTwoMatches(rows: seq<CertificateRow>, first: CertificateRow, second: CertificateRow, hash: string)
    requires Matches(rows, hash) == []
    requires first.certificateHash == hash && second.certificateHash == hash
    ensures Matches(rows + [first] + [second], hash) == [first, second]
  {
    MatchesAppend(rows, first, hash);
    MatchesAppend(rows + [first], second, hash);
  }

  /** The table an unmatched verification with a successful audit insert leaves behind. */
  lemma UnmatchedTable(rows: seq<CertificateRow>, user: UserId, req: VerifyRequest, crypto: Crypto,
                       first: SelectResponse, updateApplied: bool, auditId: RowId, auditAt: Instant, now: Now)
    requires req.metadata.Some?
    requires VerifyHandler.ClassifyLookup(first) == VerifyHandler.NotFound
    ensures VerifyHandler.Handle(rows, Some(user), req, crypto, first, updateApplied, Inserted(auditId, auditAt), now).table
         == rows + [VerifyHandler.AuditRow(CertificateHash(crypto, req.fileData), req, req.metadata.value,
                                           user, now, auditId, auditAt)]
  {
  }

  /** The response and table of a registration whose insert succeeds. */
  lemma RegisteredTable(t: seq<CertificateRow>, registrant: UserId, req: RegisterRequest, crypto: Crypto,
                        id: RowId, createdAt: Instant)
    requires req.metadata.Some? && req.certificateInfo.Some?
    ensures var o := RegisterHandler.Handle(t, Some(registrant), req, crypto, Inserted(id, createdAt));
            && o.response.Registered?
            && o.table == t + [RegisterHandler.RegisteredRow(CertificateHash(crypto, req.fileData), req,
                                                             req.metadata.value, req.certificateInfo.value,
                                                             registrant, id, createdAt)]
  {
  }

  /**
   * End to end: when the wrapper's register request reaches the handler and
   * the insert succeeds, the wrapper reports success with the hash of the
   * base64 text it extracted from the data URL.
   */
  lemma ClientRegisterReportsHash(file: CertificateService.File, dataUrl: string, info: CertificateInfo,
                                  rows: seq<CertificateRow>, user: UserId, crypto: Crypto, id: RowId, createdAt: Instant,
                                  invoke: RegisterRequest -> CertificateService.Invocation<CertificateService.RegistrationResult>)
    requires var body := CertificateService.RegisterRequestFor(file, CertificateService.FileToBase64(dataUrl), info);
             invoke(body) == CertificateService.Invoked(
               CertificateService.RegisteredData(RegisterHandler.Handle(rows, Some(user), body, crypto, Inserted(id, createdAt)).response))
    ensures var r := CertificateService.RegisterCertificate(file, CertificateService.Loaded(dataUrl), info, true, invoke);
            && r.success
            && r.hash == Some(CertificateHash(crypto, CertificateService.FileToBase64(dataUrl)))
            && r.certificateId == Some(id)
  {
  }
}
