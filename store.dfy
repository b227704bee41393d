/**
 * The `certificates` table and the three operations the handlers use on it:
 * insert a row, select by `certificate_hash` with `.single()`, and update the
 * status of the rows with a given `id`. No uniqueness is enforced on the hash,
 * so the table is a sequence of rows, not a map.
 */
module Store {
  import opened Wrappers
  import opened CertificateDigest
  import opened Hex

  type UserId = string
  type RowId = string

  /** A point in time as the table keeps `created_at` and `updated_at`. */
  type Instant = int

  /** `verification_status`: 'verified' or 'rejected'. */
  datatype Status = Verified | Rejected

  /** One row of `certificates`; `id` and `createdAt` are assigned by the store. */
  datatype CertificateRow = CertificateRow(
    id: RowId,
    certificateHash: string,
    originalFilename: string,
    fileSize: int,
    issuer: string,
    holderName: string,
    issueDate: string,
    certificateType: string,
    verificationStatus: Status,
    uploadedBy: UserId,
    createdAt: Instant,
    updatedAt: Instant)

  /** An error object the store client resolves with. */
  datatype StoreError = StoreError(code: string, message: string)

  /** The code `.single()` reports when it cannot return exactly one row. */
  const NoRowsCode: string := "PGRST116"

  /** What `select('*').eq('certificate_hash', h).single()` resolves to: `{ data, error }`. */
  datatype SelectResponse = SelectResponse(data: Option<CertificateRow>, error: Option<StoreError>)

  /** What an insert resolves to: the id and `created_at` the store gave the new row, or an error. */
  datatype InsertOutcome = Inserted(id: RowId, createdAt: Instant) | InsertFailed(error: StoreError)

  /** A handler's `new Date()`: the instant and its `toISOString()` text. */
  datatype Now = Now(at: Instant, iso: string)

  /** A handler invocation's response together with the table it leaves behind. */
  datatype Outcome<R> = Outcome(response: R, table: seq<CertificateRow>)

  /** Every stored hash is a 64-character lower-case hex digest. */
  predicate HashesWellFormed(rows: seq<CertificateRow>) {
    forall i :: 0 <= i < |rows| ==> IsDigestHex(rows[i].certificateHash)
  }

  /** In a table whose hashes are well formed, every stored hash decodes back to a 32-byte digest. */
  lemma StoredHashesDecode(rows: seq<CertificateRow>)
    requires HashesWellFormed(rows)
    ensures forall i :: 0 <= i < |rows| ==>
      HexDecode(rows[i].certificateHash).Some? && |HexDecode(rows[i].certificateHash).value| == DigestLength
  {
    forall i | 0 <= i < |rows|
      ensures HexDecode(rows[i].certificateHash).Some? && |HexDecode(rows[i].certificateHash).value| == DigestLength
    {
      DigestHexDecodes(rows[i].certificateHash);
    }
  }

  /** Appending a row whose hash is well formed keeps every stored hash well formed. */
  lemma AppendKeepsHashesWellFormed(rows: seq<CertificateRow>, r: CertificateRow)
    requires HashesWellFormed(rows) && IsDigestHex(r.certificateHash)
    ensures HashesWellFormed(rows + [r])
  {
    forall i | 0 <= i < |rows + [r]| ensures IsDigestHex((rows + [r])[i].certificateHash) {
      if i < |rows| { assert (rows + [r])[i] == rows[i]; }
    }
  }

  /** The rows whose `certificate_hash` equals `hash`, in table order. */
  function Matches(rows: seq<CertificateRow>, hash: string): (m: seq<CertificateRow>)
    ensures |m| <= |rows|
    ensures forall r :: r in m <==> r in rows && r.certificateHash == hash
  {
    if rows == [] then []
    else if rows[0].certificateHash == hash then [rows[0]] + Matches(rows[1..], hash)
    else Matches(rows[1..], hash)
  }

  /** Appending a row adds it to the matches of its own hash and to no others. */
  lemma {:induction false} MatchesAppend(rows: seq<CertificateRow>, row: CertificateRow, hash: string)
    ensures Matches(rows + [row], hash) == Matches(rows, hash) + (if row.certificateHash == hash then [row] else [])
  {
    if rows == [] {
      assert [] + [row] == [row];
    } else {
      assert (rows + [row])[1..] == rows[1..] + [row];
      MatchesAppend(rows[1..], row, hash);
    }
  }

  /**
   * The answer `.single()` gives when exactly one row carries the hash: that
   * row and no error. (What it answers when several rows share the hash is
   * not part of this model.)
   */
  predicate AnswersSingleMatch(rows: seq<CertificateRow>, hash: string, resp: SelectResponse) {
    var m := Matches(rows, hash);
    |m| == 1 && resp == SelectResponse(Some(m[0]), None)
  }

  /** `update({ verification_status: status, updated_at: at }).eq('id', id)`. */
  function SetStatusById(rows: seq<CertificateRow>, id: RowId, status: Status, at: Instant): (r: seq<CertificateRow>)
    ensures |r| == |rows|
    ensures forall i :: 0 <= i < |rows| && rows[i].id != id ==> r[i] == rows[i]
    ensures forall i :: 0 <= i < |rows| && rows[i].id == id ==>
      r[i] == rows[i].(verificationStatus := status, updatedAt := at)
  {
    if rows == [] then []
    else
      var head := if rows[0].id == id then rows[0].(verificationStatus := status, updatedAt := at) else rows[0];
      [head] + SetStatusById(rows[1..], id, status, at)
  }

  /** Updating the same rows to the same values again changes nothing. */
  lemma SetStatusIdempotent(rows: seq<CertificateRow>, id: RowId, status: Status, at: Instant)
    ensures SetStatusById(SetStatusById(rows, id, status, at), id, status, at) == SetStatusById(rows, id, status, at)
  {
  }

  /** Setting 'verified' on rows that are already verified leaves every status as it was. */
  lemma SetVerifiedKeepsVerified(rows: seq<CertificateRow>, id: RowId, at: Instant)
    requires forall i :: 0 <= i < |rows| && rows[i].id == id ==> rows[i].verificationStatus == Verified
    ensures forall i :: 0 <= i < |rows| ==>
      SetStatusById(rows, id, Verified, at)[i].verificationStatus == rows[i].verificationStatus
  {
  }

  /** A status update touches neither the hashes nor the certificate attributes of any row. */
  lemma SetStatusKeepsHashes(rows: seq<CertificateRow>, id: RowId, status: Status, at: Instant)
    requires HashesWellFormed(rows)
    ensures HashesWellFormed(SetStatusById(rows, id, status, at))
    ensures forall i :: 0 <= i < |rows| ==> Matches(SetStatusById(rows, id, status, at), rows[i].certificateHash) != []
  {
    var r := SetStatusById(rows, id, status, at);
    forall i | 0 <= i < |rows| ensures Matches(r, rows[i].certificateHash) != [] {
      assert r[i] in r && r[i].certificateHash == rows[i].certificateHash;
    }
  }

  /** Newest first: `created_at` never increases along the sequence. */
  predicate NewestFirst(rows: seq<CertificateRow>) {
    forall i, j :: 0 <= i < j < |rows| ==> rows[i].createdAt >= rows[j].createdAt
  }

  /** Places `row` before the first row that is older than it. */
  function InsertNewestFirst(row: CertificateRow, sorted: seq<CertificateRow>): (r: seq<CertificateRow>)
    ensures multiset(r) == multiset(sorted) + multiset{row}
    ensures forall x :: x in r <==> x == row || x in sorted
  {
    if sorted == [] || row.createdAt >= sorted[0].createdAt then
      [row] + sorted
    else
      assert sorted == [sorted[0]] + sorted[1..];
      [sorted[0]] + InsertNewestFirst(row, sorted[1..])
  }

  /** Insertion keeps a newest-first sequence newest first. */
  lemma {:induction false} InsertKeepsNewestFirst(row: CertificateRow, sorted: seq<CertificateRow>)
    requires NewestFirst(sorted)
    ensures NewestFirst(InsertNewestFirst(row, sorted))
  {
    if sorted != [] && row.createdAt < sorted[0].createdAt {
      var rest := InsertNewestFirst(row, sorted[1..]);
      InsertKeepsNewestFirst(row, sorted[1..]);
      forall k | 0 <= k < |rest| ensures rest[k].createdAt <= sorted[0].createdAt {
        assert rest[k] in rest;
        if rest[k] != row {
          assert rest[k] in sorted[1..];
          var j :| 0 <= j < |sorted[1..]| && sorted[1..][j] == rest[k];
          assert sorted[j + 1] == rest[k];
        }
      }
      var r := [sorted[0]] + rest;
      forall i, j | 0 <= i < j < |r| ensures r[i].createdAt >= r[j].createdAt {
        if i > 0 { assert r[i] == rest[i - 1] && r[j] == rest[j - 1]; }
        else { assert r[j] == rest[j - 1]; }
      }
    }
  }

  /** `select('*').order('created_at', { ascending: false })`: the table newest first. */
  function OrderByCreatedAtDesc(rows: seq<CertificateRow>): (r: seq<CertificateRow>)
    ensures NewestFirst(r)
    ensures multiset(r) == multiset(rows)
  {
    if rows == [] then []
    else
      assert rows == [rows[0]] + rows[1..];
      var sortedTail := OrderByCreatedAtDesc(rows[1..]);
      InsertKeepsNewestFirst(rows[0], sortedTail);
      InsertNewestFirst(rows[0], sortedTail)
  }
}
