/**
 * supabase/functions/register-certificate: authenticate the caller, hash the
 * submitted text and insert one verified row carrying the asserted
 * attributes. No lookup precedes the insert.
 */
module RegisterHandler {
  import opened Wrappers
  import opened CertificateDigest
  import opened Store
  import opened Messages

  const FailureError: string := "Registration failed"
  const SuccessMessage: string := "Certificate successfully registered in blockchain"

  /** The row a registration inserts; `id` and `createdAt` come from the store. */
  function RegisteredRow(hash: string, req: RegisterRequest, metadata: Metadata, info: CertificateInfo,
                         user: UserId, id: RowId, createdAt: Instant): CertificateRow
  {
    CertificateRow(id, hash, req.filename, FileSizeOf(metadata), info.issuer, info.holderName, info.issueDate,
                   info.certificateType, Verified, user, createdAt, createdAt)
  }

  /**
   * One invocation; `insert` is the store's outcome for the insert. Building
   * the row reads `metadata.size` and then `certificateInfo.issuer`, so a
   * missing `metadata` or `certificateInfo` throws before anything is written.
   */
  function Handle(rows: seq<CertificateRow>, caller: Option<UserId>, req: RegisterRequest, crypto: Crypto,
                  insert: InsertOutcome)
    : (o: Outcome<RegisterResponse>)
    ensures caller.None? ==> o == Outcome(RegisterUnauthorized(UnauthorizedError), rows)
    ensures o.response.RegisterUnauthorized? <==> caller.None?
    ensures o.response.Registered? <==> caller.Some? && req.metadata.Some? && req.certificateInfo.Some? && insert.Inserted?
    ensures !o.response.Registered? ==> o.table == rows
    ensures o.response.Registered? ==>
      && |o.table| == |rows| + 1
      && o.table[..|rows|] == rows
      && o.response.hash == CertificateHash(crypto, req.fileData) == o.table[|rows|].certificateHash
      && o.response.certificateId == o.table[|rows|].id
      && o.response.registrationDate == o.table[|rows|].createdAt
  {
    if caller.None? then Outcome(RegisterUnauthorized(UnauthorizedError), rows)
    else
      var hash := CertificateHash(crypto, req.fileData);
      if req.metadata.None? then
        Outcome(RegistrationFailed(FailureError, MissingPropertyMessage("size")), rows)
      else if req.certificateInfo.None? then
        Outcome(RegistrationFailed(FailureError, MissingPropertyMessage("issuer")), rows)
      else
        match insert
        case InsertFailed(e) => Outcome(RegistrationFailed(FailureError, e.message), rows)
        case Inserted(id, createdAt) =>
          var row := RegisteredRow(hash, req, req.metadata.value, req.certificateInfo.value, caller.value, id, createdAt);
          assert (rows + [row])[..|rows|] == rows;
          Outcome(Registered(true, SuccessMessage, id, hash, createdAt), rows + [row])
  }

  /** An unauthenticated caller gets a 401 and no row is inserted. */
  lemma UnauthorizedInsertsNothing(rows: seq<CertificateRow>, req: RegisterRequest, crypto: Crypto, insert: InsertOutcome)
    ensures var o := Handle(rows, None, req, crypto, insert);
            o.response.StatusCode() == 401 && o.response == RegisterUnauthorized("Unauthorized") && o.table == rows
  {
  }

  /**
   * A request without `metadata` or without `certificateInfo` throws the
   * TypeError of reading `size` or `issuer` off `undefined`, which becomes a
   * 500 with its message, and no row is inserted.
   */
  lemma MissingPropertyFails(rows: seq<CertificateRow>, user: UserId, req: RegisterRequest, crypto: Crypto,
                             insert: InsertOutcome)
    requires req.metadata.None? || req.certificateInfo.None?
    ensures var o := Handle(rows, Some(user), req, crypto, insert);
            && o.response.StatusCode() == 500
            && o == Outcome(RegistrationFailed("Registration failed",
                                               "Cannot read properties of undefined (reading '"
                                               + (if req.metadata.None? then "size" else "issuer") + "')"), rows)
  {
  }

  /** A successful registration appends exactly one verified row built from the request and the caller. */
  lemma SuccessAppendsRow(rows: seq<CertificateRow>, user: UserId, req: RegisterRequest, crypto: Crypto,
                          id: RowId, createdAt: Instant)
    requires req.metadata.Some? && req.certificateInfo.Some?
    ensures var o := Handle(rows, Some(user), req, crypto, Inserted(id, createdAt));
            var info := req.certificateInfo.value;
            var hash := CertificateHash(crypto, req.fileData);
            && o.response == Registered(true, "Certificate successfully registered in blockchain", id, hash, createdAt)
            && o.response.StatusCode() == 200
            && |o.table| == |rows| + 1
            && o.table[..|rows|] == rows
            && var r := o.table[|rows|];
            && r.id == id && r.createdAt == createdAt
            && r.certificateHash == hash
            && r.verificationStatus == Verified
            && r.issuer == info.issuer && r.holderName == info.holderName
            && r.issueDate == info.issueDate && r.certificateType == info.certificateType
            && r.uploadedBy == user
            && r.originalFilename == req.filename
            && r.fileSize == req.metadata.value.size.GetOr(0)
  {
    var o := Handle(rows, Some(user), req, crypto, Inserted(id, createdAt));
    var r := RegisteredRow(CertificateHash(crypto, req.fileData), req, req.metadata.value,
                           req.certificateInfo.value, user, id, createdAt);
    assert o.table == rows + [r];
    assert o.table[|rows|] == r;
  }

  /** An insert error is a 500 carrying the store's message, with no success response and no new row. */
  lemma InsertErrorFails(rows: seq<CertificateRow>, user: UserId, req: RegisterRequest, crypto: Crypto, error: StoreError)
    requires req.metadata.Some? && req.certificateInfo.Some?
    ensures var o := Handle(rows, Some(user), req, crypto, InsertFailed(error));
            && o.response.StatusCode() == 500
            && o == Outcome(RegistrationFailed("Registration failed", error.message), rows)
  {
  }

  /**
   * Registration does not look for an existing row with the same hash: even
   * when the table already holds rows with that hash, a successful insert
   * adds one more.
   */
  lemma NoDuplicateCheck(rows: seq<CertificateRow>, user: UserId, req: RegisterRequest, crypto: Crypto,
                         id: RowId, createdAt: Instant)
    requires req.metadata.Some? && req.certificateInfo.Some?
    ensures var hash := CertificateHash(crypto, req.fileData);
            var o := Handle(rows, Some(user), req, crypto, Inserted(id, createdAt));
            && o.response.Registered?
            && |Matches(o.table, hash)| == |Matches(rows, hash)| + 1
  {
    var hash := CertificateHash(crypto, req.fileData);
    var o := Handle(rows, Some(user), req, crypto, Inserted(id, createdAt));
    var r := RegisteredRow(hash, req, req.metadata.value, req.certificateInfo.value, user, id, createdAt);
    assert o.table == rows + [r];
    MatchesAppend(rows, r, hash);
  }

  /** The inserted row carries a well-formed digest, so the table keeps that property. */
  lemma HandleKeepsHashesWellFormed(rows: seq<CertificateRow>, caller: Option<UserId>, req: RegisterRequest, crypto: Crypto,
                                    insert: InsertOutcome)
    requires HashesWellFormed(rows)
    ensures HashesWellFormed(Handle(rows, caller, req, crypto, insert).table)
  {
    if caller.Some? && req.metadata.Some? && req.certificateInfo.Some? && insert.Inserted? {
      var row := RegisteredRow(CertificateHash(crypto, req.fileData), req, req.metadata.value,
                               req.certificateInfo.value, caller.value, insert.id, insert.createdAt);
      assert Handle(rows, caller, req, crypto, insert).table == rows + [row];
      AppendKeepsHashesWellFormed(rows, row);
    }
  }
}
