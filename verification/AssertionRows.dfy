/** The assertion table as checkpoints carry it: database records, read back as rows before their histories are
    checked (src/assertions.rs:182-234). */
module AssertionRows {
  import opened Prelude
  import opened Events
  import opened Records
  import opened Assertions
  import opened AssertionMerge

  /** Every column a row must have is there and holds text or a number as its event's projection would. */
  predicate Readable(r: Record) {
    && "id" in r && r["id"].Ref? && "data" in r && r["data"].Data?
    && "project" in r && r["project"].Str? && "namespace" in r && r["namespace"].Str?
    && "subject" in r && r["subject"].Str? && "predicate" in r && r["predicate"].Str?
    && "version" in r && r["version"].Num? && "memory_id" in r && r["memory_id"].Num?
    && "recorded_at" in r && r["recorded_at"].Num?
  }

  function RowFrom(r: Record): Row
    requires Readable(r)
  {
    Row(r["id"].id, Scope(r["namespace"].s, r["project"].s, r["subject"].s, r["predicate"].s),
      r["version"].n, r["memory_id"].n, r["recorded_at"].n, r["data"].event)
  }

  function RowsFrom(rs: seq<Record>): seq<Row>
    requires forall i | 0 <= i < |rs| :: Readable(rs[i])
  {
    seq(|rs|, i requires 0 <= i < |rs| => RowFrom(rs[i]))
  }

  /** What `validate_checkpoint` accepts. */
  ghost predicate ValidRecords(rs: seq<Record>) {
    (forall i | 0 <= i < |rs| :: Readable(rs[i])) && ValidTable(RowsFrom(rs))
  }

  /** The record of a row as the database holds it. */
  function RecordFor(row: Row): Record {
    map["id" := Ref(row.id), "data" := Data(row.data),
        "project" := Str(row.scope.project), "namespace" := Str(row.scope.namespace),
        "subject" := Str(row.scope.subject), "predicate" := Str(row.scope.predicate_),
        "version" := Num(row.version), "memory_id" := Num(row.memoryId), "recorded_at" := Num(row.recordedAt)]
  }

  /** Every row of the live table reads back as itself. */
  lemma RecordReadsBack(row: Row)
    ensures Readable(RecordFor(row)) && RowFrom(RecordFor(row)) == row
  {
  }

  /** A record reads as a row exactly when it holds each column of the row as the database would. */
  lemma ReadsAsIff(r: Record, row: Row)
    ensures Readable(r) && RowFrom(r) == row <==>
      forall column :: column in RecordFor(row) ==> column in r && r[column] == RecordFor(row)[column]
  {
    var full := RecordFor(row);
    if Readable(r) && RowFrom(r) == row {
      forall column | column in full ensures column in r && r[column] == full[column] {
      }
    }
    if forall column :: column in full ==> column in r && r[column] == full[column] {
      assert "id" in full && "data" in full && "project" in full && "namespace" in full && "subject" in full;
      assert "predicate" in full && "version" in full && "memory_id" in full && "recorded_at" in full;
    }
  }

  method ValidateRecords(rs: seq<Record>) returns (ok: bool)
    ensures ok <==> ValidRecords(rs)
  {
    hide ValidTable, Readable;
    var rows: seq<Row> := [];
    for i := 0 to |rs|
      invariant forall k | 0 <= k < i :: Readable(rs[k])
      invariant |rows| == i && forall k | 0 <= k < i :: rows[k] == RowFrom(rs[k])
    {
      if !Readable(rs[i]) {
        return false;
      }
      rows := rows + [RowFrom(rs[i])];
    }
    assert rows == RowsFrom(rs);
    ok := ValidateCheckpoint(rows);
  }

  lemma NoRecordsValid()
    ensures ValidRecords([])
  {
  }
}
