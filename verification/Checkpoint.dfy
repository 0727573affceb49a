/** Content-addressed checkpoint envelopes: `validate` and `load` (src/checkpoint.rs:40-50, 334-490).

    A blob's key is the SHA-256 of its bytes.  `BlobHash` and `StateHash` are injective
    constructors over the hashed content, so collision freedom holds by construction. */
module Checkpoint {
  import opened Prelude
  import opened Events
  import opened Records
  import opened Delta
  import AssertionRows

  datatype StateHash = StateHash(state: State)

  datatype Content = Bytes(text: string) | Checkpoint(e: Envelope)

  datatype BlobHash = BlobHash(content: Content)

  datatype Envelope = Envelope(
    version: nat,
    project: string,
    stateHash: StateHash,
    parent: Option<BlobHash>,
    parentHash: Option<StateHash>,
    depth: nat,
    full: Option<State>,
    delta: Option<Delta>)

  const VERSION: nat := 5
  const MAX_DEPTH: nat := 8

  // ---- validate -------------------------------------------------------------------------

  const ASSERTIONS := "assertion_events"
  const TABLES: set<string> := {
    "sessions", "observations", "memories", "memory_meta", "memory_evidence_roots",
    "memory_influence_policy", "memory_entities", "memory_edges", "memory_chunks", "code_anchors",
    "reflection_proposals", "contradiction_sets", "contradiction_members", ASSERTIONS}
  const PROJECT_TABLES: set<string> := {
    "sessions", "observations", "memories", "memory_edges", "memory_chunks", "code_anchors",
    "reflection_proposals", "contradiction_sets", ASSERTIONS}
  const MEMORY_TABLES: set<string> := {
    "memory_meta", "memory_evidence_roots", "memory_influence_policy", "memory_entities",
    "memory_edges", "memory_chunks", "code_anchors", "contradiction_members"}
  const SOURCE_COLUMNS: set<(string, string)> := {
    ("memory_meta", "session_blob"), ("observations", "output_blob"), ("memory_chunks", "source_hash")}

  const COLUMN_TYPES: set<string> := {"integer", "bigint", "bigserial", "real", "double precision", "text", ""}

  predicate HasValue(row: Record, column: string, v: Value) {
    column in row && row[column] == v
  }

  /** Older checkpoints have no assertion table; every other table must be there. */
  predicate ValidInventory(s: State) {
    TABLES - {ASSERTIONS} <= s.tables.Keys <= TABLES
  }

  predicate ColumnName(name: string) {
    forall c | c in name :: 'a' <= c <= 'z' || 'A' <= c <= 'Z' || '0' <= c <= '9' || c == '_'
  }

  function AsciiLower(c: char): char {
    if 'A' <= c <= 'Z' then ((c as int) + 32) as char else c
  }

  function LowerCase(s: string): string {
    seq(|s|, i requires 0 <= i < |s| => AsciiLower(s[i]))
  }

  predicate FieldsSupported(s: State) {
    forall name | name in s.tables :: forall f | f in s.tables[name].fields ::
      ColumnName(f.0) && LowerCase(f.1) in COLUMN_TYPES
  }

  predicate RowsMatchFields(s: State) {
    forall name | name in s.tables :: forall row: Record | row in s.tables[name].rows ::
      && |row| == |s.tables[name].fields|
      && forall f | f in s.tables[name].fields :: f.0 in row
  }

  predicate RowsInProject(s: State) {
    forall name | name in PROJECT_TABLES && name in s.tables ::
      forall row: Record | row in s.tables[name].rows :: HasValue(row, "project", Str(s.project))
  }

  function MemoryIds(s: State): set<Value>
    requires ValidInventory(s)
  {
    set row: Record | row in s.tables["memories"].rows && "id" in row :: row["id"]
  }

  predicate MemoriesIdentified(s: State)
    requires ValidInventory(s)
  {
    && (forall row: Record | row in s.tables["memories"].rows :: "id" in row && row["id"].Num?)
    && |MemoryIds(s)| == |s.tables["memories"].rows|
  }

  predicate NoForeignMemory(s: State)
    requires ValidInventory(s)
  {
    forall name | name in MEMORY_TABLES ::
      forall row: Record | row in s.tables[name].rows :: "memory_id" in row && row["memory_id"] in MemoryIds(s)
  }

  predicate SourcesAuthentic(s: State) {
    forall h | h in s.sources :: h == Sha(s.sources[h])
  }

  predicate SourcesClosed(s: State)
    requires ValidInventory(s)
  {
    forall c | c in SOURCE_COLUMNS :: forall row: Record | row in s.tables[c.0].rows && c.1 in row ::
      match row[c.1]
      case Digest(sha) => sha in s.sources
      case Null => true
      case Num(_) => true
      case _ => false
  }

  ghost predicate AssertionsValid(s: State) {
    ASSERTIONS in s.tables ==> AssertionRows.ValidRecords(s.tables[ASSERTIONS].rows)
  }

  /** All that `validate` asks besides the histories of the assertion table. */
  predicate ValidRows(s: State) {
    && ValidInventory(s)
    && FieldsSupported(s)
    && RowsMatchFields(s)
    && RowsInProject(s)
    && MemoriesIdentified(s)
    && NoForeignMemory(s)
    && SourcesAuthentic(s)
    && SourcesClosed(s)
  }

  ghost predicate Validate(s: State) {
    ValidRows(s) && AssertionsValid(s)
  }

  method ValidateState(s: State) returns (ok: bool)
    ensures ok <==> Validate(s)
  {
    hide ValidRows;
    if ASSERTIONS in s.tables {
      var valid := AssertionRows.ValidateRecords(s.tables[ASSERTIONS].rows);
      if !valid {
        return false;
      }
    }
    return ValidRows(s);
  }

  // ---- what validation means --------------------------------------------------------------

  /** The row has one value for every column of the table and no other. */
  ghost predicate Fits(row: Record, fields: seq<(string, string)>) {
    |row| == |fields| && forall i :: 0 <= i < |fields| ==> fields[i].0 in row
  }

  ghost predicate OwnMemory(s: State, row: Record)
    requires "memories" in s.tables
  {
    "memory_id" in row && exists m: Record :: m in s.tables["memories"].rows && "id" in m && m["id"] == row["memory_id"]
  }

  ghost predicate NumberedApart(rows: seq<Record>) {
    && (forall i :: 0 <= i < |rows| ==> "id" in rows[i] && rows[i]["id"].Num?)
    && (forall i, j :: 0 <= i < j < |rows| ==> rows[i]["id"] != rows[j]["id"])
  }

  function IdsIn(rows: seq<Record>): set<Value> {
    set row: Record | row in rows && "id" in row :: row["id"]
  }

  lemma IdsSnoc(rows: seq<Record>, last: Record)
    requires "id" in last
    ensures IdsIn(rows + [last]) == IdsIn(rows) + {last["id"]}
  {
    forall v ensures v in IdsIn(rows + [last]) <==> v in IdsIn(rows) + {last["id"]} {
      assert forall row: Record :: row in rows + [last] <==> row in rows || row == last;
      assert last in rows + [last];
    }
  }

  /** As many ids as rows means that no two rows share one. */
  lemma {:induction false} IdsApart(rows: seq<Record>)
    requires forall i :: 0 <= i < |rows| ==> "id" in rows[i] && rows[i]["id"].Num?
    ensures |IdsIn(rows)| <= |rows| && (|IdsIn(rows)| == |rows| <==> NumberedApart(rows))
  {
    if rows == [] {
      assert IdsIn(rows) == {};
    } else {
      var init, last := rows[..|rows| - 1], rows[|rows| - 1];
      IdsApart(init);
      assert rows == init + [last];
      IdsSnoc(init, last);
      NumberedSnoc(init, last);
      hide IdsIn, NumberedApart;
      assert last["id"] in IdsIn(init) ==> IdsIn(rows) == IdsIn(init);
    }
  }

  lemma NumberedSnoc(rows: seq<Record>, last: Record)
    requires forall i :: 0 <= i < |rows| ==> "id" in rows[i] && rows[i]["id"].Num?
    requires "id" in last && last["id"].Num?
    ensures NumberedApart(rows + [last]) <==> NumberedApart(rows) && last["id"] !in IdsIn(rows)
  {
    var all := rows + [last];
    if last["id"] in IdsIn(rows) {
      var m: Record :| m in rows && "id" in m && m["id"] == last["id"];
      var i :| 0 <= i < |rows| && rows[i] == m;
      assert all[i]["id"] == all[|rows|]["id"];
    } else {
      forall i | 0 <= i < |rows| ensures rows[i]["id"] != last["id"] {
        assert rows[i] in rows;
      }
    }
    if NumberedApart(all) {
      assert forall i :: 0 <= i < |rows| ==> rows[i] == all[i];
    }
  }

  lemma MemoriesIff(s: State)
    requires ValidInventory(s)
    ensures MemoriesIdentified(s) <==> NumberedApart(s.tables["memories"].rows)
  {
    var rows := s.tables["memories"].rows;
    assert MemoryIds(s) == IdsIn(rows);
    if MemoriesIdentified(s) || NumberedApart(rows) {
      forall i | 0 <= i < |rows| ensures "id" in rows[i] && rows[i]["id"].Num? {
        assert rows[i] in rows;
      }
      IdsApart(rows);
    }
  }

  /** Letters, digits and underscores name a column; seven kinds, in either case, type it. */
  ghost predicate Supported(f: (string, string)) {
    && (forall i :: 0 <= i < |f.0| ==>
          'a' <= f.0[i] <= 'z' || 'A' <= f.0[i] <= 'Z' || '0' <= f.0[i] <= '9' || f.0[i] == '_')
    && exists kind :: kind in COLUMN_TYPES && SameUpToCase(f.1, kind)
  }

  ghost predicate SameUpToCase(s: string, t: string) {
    && |s| == |t|
    && forall i :: 0 <= i < |s| ==> if 'A' <= s[i] <= 'Z' then t[i] as int == s[i] as int + 32 else t[i] == s[i]
  }

  lemma SupportedIff(f: (string, string))
    ensures Supported(f) <==> ColumnName(f.0) && LowerCase(f.1) in COLUMN_TYPES
  {
    assert SameUpToCase(f.1, LowerCase(f.1));
    forall kind | kind in COLUMN_TYPES && SameUpToCase(f.1, kind) ensures kind == LowerCase(f.1) {
    }
    assert ColumnName(f.0) ==> forall i :: 0 <= i < |f.0| ==> f.0[i] in f.0;
  }

  ghost predicate ColumnsSupported(t: Table) {
    forall i :: 0 <= i < |t.fields| ==> Supported(t.fields[i])
  }

  ghost predicate RowsFit(t: Table) {
    forall row: Record :: row in t.rows ==> Fits(row, t.fields)
  }

  lemma ColumnsIff(s: State)
    ensures FieldsSupported(s) <==> forall name :: name in s.tables ==> ColumnsSupported(s.tables[name])
  {
    hide ColumnName, LowerCase, Supported;
    forall name, f | name in s.tables && f in s.tables[name].fields
      ensures Supported(f) <==> ColumnName(f.0) && LowerCase(f.1) in COLUMN_TYPES
    {
      SupportedIff(f);
    }
    if FieldsSupported(s) {
      forall name, i | name in s.tables && 0 <= i < |s.tables[name].fields| ensures Supported(s.tables[name].fields[i]) {
        var f := s.tables[name].fields[i];
        assert f in s.tables[name].fields;
      }
    }
  }

  lemma FitsIff(s: State)
    ensures RowsMatchFields(s) <==> forall name :: name in s.tables ==> RowsFit(s.tables[name])
  {
    forall name, row: Record | name in s.tables && row in s.tables[name].rows
      ensures Fits(row, s.tables[name].fields) <==>
        |row| == |s.tables[name].fields| && forall f | f in s.tables[name].fields :: f.0 in row
    {
      if |row| == |s.tables[name].fields| && forall f | f in s.tables[name].fields :: f.0 in row {
        assert forall i :: 0 <= i < |s.tables[name].fields| ==> s.tables[name].fields[i] in s.tables[name].fields;
      }
    }
  }

  ghost predicate RowsOfMemories(s: State, t: Table)
    requires "memories" in s.tables
  {
    forall row: Record :: row in t.rows ==> OwnMemory(s, row)
  }

  lemma OwnersIff(s: State)
    requires ValidInventory(s)
    ensures NoForeignMemory(s) <==> forall name :: name in MEMORY_TABLES ==> RowsOfMemories(s, s.tables[name])
  {
    forall row: Record ensures OwnMemory(s, row) <==> "memory_id" in row && row["memory_id"] in MemoryIds(s) {
    }
  }

  /** A value in a source column is empty, a number, or the hash of a text the checkpoint carries. */
  ghost predicate Resolves(s: State, v: Value) {
    v.Null? || v.Num? || (v.Digest? && v.sha in s.sources)
  }

  ghost predicate ColumnResolves(s: State, table: string, column: string) {
    table in s.tables && forall row: Record :: row in s.tables[table].rows && column in row ==> Resolves(s, row[column])
  }

  lemma SourcesIff(s: State)
    requires ValidInventory(s)
    ensures SourcesClosed(s) <==>
      && ColumnResolves(s, "memory_meta", "session_blob")
      && ColumnResolves(s, "observations", "output_blob")
      && ColumnResolves(s, "memory_chunks", "source_hash")
  {
    if SourcesClosed(s) {
      forall c | c in SOURCE_COLUMNS ensures ColumnResolves(s, c.0, c.1) {
      }
      assert ("memory_meta", "session_blob") in SOURCE_COLUMNS;
      assert ("observations", "output_blob") in SOURCE_COLUMNS;
      assert ("memory_chunks", "source_hash") in SOURCE_COLUMNS;
    } else {
      var c :| c in SOURCE_COLUMNS && !forall row: Record | row in s.tables[c.0].rows && c.1 in row ::
        match row[c.1]
        case Digest(sha) => sha in s.sources
        case Null => true
        case Num(_) => true
        case _ => false;
      assert !ColumnResolves(s, c.0, c.1);
    }
  }

  /** What `validate` accepts: every table but the assertion table is there and none besides; columns are supported and
      every row fits them; every row belongs to the project or to one of its memories, which are told apart by number;
      and every source a row names is there, each with exactly the text its hash was taken of. */
  lemma ValidIff(s: State)
    ensures ValidRows(s) <==>
      && (forall name :: name in TABLES && name != ASSERTIONS ==> name in s.tables)
      && (forall name :: name in s.tables ==> name in TABLES)
      && (forall name :: name in s.tables ==> ColumnsSupported(s.tables[name]))
      && (forall name :: name in s.tables ==> RowsFit(s.tables[name]))
      && (forall name, row: Record :: name in PROJECT_TABLES && name in s.tables && row in s.tables[name].rows ==>
            "project" in row && row["project"] == Str(s.project))
      && NumberedApart(s.tables["memories"].rows)
      && (forall name :: name in MEMORY_TABLES ==> RowsOfMemories(s, s.tables[name]))
      && (forall h :: h in s.sources ==> s.sources[h] == h.of)
      && ColumnResolves(s, "memory_meta", "session_blob")
      && ColumnResolves(s, "observations", "output_blob")
      && ColumnResolves(s, "memory_chunks", "source_hash")
  {
    hide FieldsSupported, ColumnsSupported, RowsMatchFields, RowsFit, MemoriesIdentified, NumberedApart, NoForeignMemory,
      RowsOfMemories, SourcesClosed, ColumnResolves;
    InventoryIff(s);
    if ValidInventory(s) {
      ColumnsIff(s);
      FitsIff(s);
      MemoriesIff(s);
      OwnersIff(s);
      SourcesIff(s);
    }
  }

  lemma InventoryIff(s: State)
    ensures ValidInventory(s) <==>
      && (forall name :: name in TABLES && name != ASSERTIONS ==> name in s.tables)
      && (forall name :: name in s.tables ==> name in TABLES)
  {
    if (forall name :: name in TABLES && name != ASSERTIONS ==> name in s.tables)
       && (forall name :: name in s.tables ==> name in TABLES) {
      assert ValidInventory(s);
    }
  }

  // ---- load -----------------------------------------------------------------------------

  predicate WellFormed(e: Envelope) {
    e.version == VERSION && e.depth <= MAX_DEPTH && e.full.Some? != e.delta.Some?
  }

  /** The envelopes read by `steps` iterations of the walk from `h` towards its base. */
  function Walk(blobs: set<BlobHash>, h: BlobHash, steps: nat): Result<seq<Envelope>> {
    if steps == 0 then Ok([])
    else if h !in blobs then Err("blob not found")
    else match h.content
      case Bytes(_) => Err("not an envelope")
      case Checkpoint(e) =>
        if !WellFormed(e) then Err("invalid checkpoint envelope")
        else if e.parent.None? then Ok([e])
        else match Walk(blobs, e.parent.value, steps - 1)
          case Ok(rest) => Ok([e] + rest)
          case Err(error) => Err(error)
  }

  function ReplayBase(e: Envelope): Result<State> {
    if !(e.depth == 0 && e.parent.None? && e.parentHash.None?) then Err("checkpoint chain has no base")
    else if e.full.None? then Err("checkpoint base missing")
    else if StateHash(e.full.value) != e.stateHash then Err("checkpoint state hash mismatch")
    else Ok(e.full.value)
  }

  function ReplayStep(state: State, e: Envelope, depth: nat): Result<State> {
    if !(e.project == state.project && e.depth == depth && e.parentHash == Some(StateHash(state))) then
      Err("checkpoint parent mismatch")
    else if e.delta.None? then Err("missing delta")
    else match ApplyDelta(state, e.delta.value)
      case Err(error) => Err(error)
      case Ok(next) => if StateHash(next) != e.stateHash then Err("delta result hash mismatch") else Ok(next)
  }

  /** Replays a chain, whose last envelope is its base. */
  function Replay(chain: seq<Envelope>): Result<State> {
    if chain == [] then Err("empty checkpoint chain")
    else if |chain| == 1 then ReplayBase(chain[0])
    else match Replay(chain[1..])
      case Err(error) => Err(error)
      case Ok(state) => ReplayStep(state, chain[0], |chain| - 1)
  }

  ghost function LoadWithin(blobs: set<BlobHash>, h: BlobHash, steps: nat): Result<State> {
    match Walk(blobs, h, steps)
    case Err(error) => Err(error)
    case Ok(chain) =>
      match Replay(chain)
      case Err(error) => Err(error)
      case Ok(state) => if Validate(state) then Ok(state) else Err("invalid state")
  }

  ghost function LoadState(blobs: set<BlobHash>, h: BlobHash): Result<State> {
    LoadWithin(blobs, h, MAX_DEPTH + 1)
  }

  /** How many envelopes hang below a hash; a parent's hash is always lower than its child's. */
  ghost function Height(h: BlobHash): nat {
    match h.content
    case Bytes(_) => 0
    case Checkpoint(e) => if e.parent.None? then 0 else 1 + Height(e.parent.value)
  }

  /** The walk loop of `load`.  A content-addressed chain is never cyclic, so the cycle guard never fires. */
  method WalkChain(blobs: map<BlobHash, int>, hash: BlobHash) returns (r: Result<seq<Envelope>>)
    ensures r == Walk(blobs.Keys, hash, MAX_DEPTH + 1)
  {
    var next := hash;
    var chain: seq<Envelope>, seen: set<BlobHash> := [], {};
    ghost var full := Walk(blobs.Keys, hash, MAX_DEPTH + 1);
    assert full.Ok? ==> [] + full.value == full.value;
    for i := 0 to MAX_DEPTH + 1
      invariant |chain| == i
      invariant forall s :: s in seen ==> Height(next) < Height(s)
      invariant full == match Walk(blobs.Keys, next, MAX_DEPTH + 1 - i) case Ok(rest) => Ok(chain + rest) case Err(e) => Err(e)
    {
      if next in seen {
        return Err("cyclic checkpoint chain");
      }
      seen := seen + {next};
      if next !in blobs {
        return Err("blob not found");
      }
      if next.content.Bytes? {
        return Err("not an envelope");
      }
      var e := next.content.e;
      if !WellFormed(e) {
        return Err("invalid checkpoint envelope");
      }
      chain := chain + [e];
      if e.parent.None? {
        return Ok(chain);
      }
      ghost var rest := Walk(blobs.Keys, e.parent.value, MAX_DEPTH - i);
      assert rest.Ok? ==> chain + rest.value == chain[..i] + ([e] + rest.value);
      next := e.parent.value;
    }
    assert chain + [] == chain;
    return Ok(chain);
  }

  /** The replay loop of `load`: pops the base, then applies every delta on the way back up. */
  method ReplayChain(start: seq<Envelope>) returns (r: Result<State>)
    ensures r == Replay(start)
  {
    var chain := start;
    if chain == [] {
      return Err("empty checkpoint chain");
    }
    var full := chain[|chain| - 1];
    chain := chain[..|chain| - 1];
    var base := ReplayBase(full);
    if base.Err? {
      ReplayFailsFrom(start, |start| - 1);
      return base;
    }
    var state, depth := base.value, 0;
    while chain != []
      invariant |chain| + depth + 1 == |start| && chain == start[..|chain|]
      invariant Replay(start[|chain|..]) == Ok(state)
      decreases |chain|
    {
      var e := chain[|chain| - 1];
      assert start[|chain| - 1..][1..] == start[|chain|..];
      chain := chain[..|chain| - 1];
      depth := depth + 1;
      var next := ReplayStep(state, e, depth);
      if next.Err? {
        ReplayFailsFrom(start, |chain|);
        return next;
      }
      state := next.value;
    }
    assert start[0..] == start;
    return Ok(state);
  }

  /** A failure while replaying a suffix of a chain is the failure of the whole chain. */
  lemma {:induction false} ReplayFailsFrom(chain: seq<Envelope>, i: nat)
    requires i < |chain| && Replay(chain[i..]).Err?
    ensures Replay(chain) == Replay(chain[i..])
    decreases i
  {
    if i == 0 {
      assert chain[0..] == chain;
    } else {
      assert chain[i - 1..][1..] == chain[i..];
      ReplayFailsFrom(chain, i - 1);
    }
  }

  method Load(blobs: map<BlobHash, int>, hash: BlobHash) returns (r: Result<State>)
    ensures r == LoadState(blobs.Keys, hash)
  {
    var chain := WalkChain(blobs, hash);
    if chain.Err? {
      return Err(chain.error);
    }
    r := ReplayChain(chain.value);
    if r.Ok? {
      var valid := ValidateState(r.value);
      if !valid {
        r := Err("invalid state");
      }
    }
  }

  // ---- what `create` builds ---------------------------------------------------------------

  function FullEnvelope(s: State): Envelope {
    Envelope(VERSION, s.project, StateHash(s), None, None, 0, Some(s), None)
  }

  function DeltaEnvelope(s: State, parent: BlobHash, base: StateHash, depth: nat, d: Delta): Envelope {
    Envelope(VERSION, s.project, StateHash(s), Some(parent), Some(base), depth, None, Some(d))
  }

  /** The state a checkpoint hash stands for. */
  function StateOf(h: BlobHash): State
    requires h.content.Checkpoint?
  {
    h.content.e.stateHash.state
  }

  /** Hashes of envelopes as `create` writes them: a valid full state, or a difference on a built parent. */
  ghost predicate Built(h: BlobHash) {
    match h.content
    case Bytes(_) => false
    case Checkpoint(e) =>
      var s := e.stateHash.state;
      && Validate(s) && Canonical(s)
      && match e.parent
         case None => e == FullEnvelope(s)
         case Some(p) =>
           && Built(p) && p.content.e.depth < MAX_DEPTH
           && Difference(StateOf(p), s).Ok?
           && e == DeltaEnvelope(s, p, p.content.e.stateHash, p.content.e.depth + 1, Difference(StateOf(p), s).value)
  }

  /** Every envelope of the chain is stored. */
  ghost predicate Present(blobs: set<BlobHash>, h: BlobHash) {
    h in blobs && match h.content
      case Bytes(_) => true
      case Checkpoint(e) => e.parent.Some? ==> Present(blobs, e.parent.value)
  }

  lemma {:induction false} BuiltDepth(h: BlobHash)
    requires Built(h)
    ensures h.content.e.depth <= MAX_DEPTH && Height(h) == h.content.e.depth && WellFormed(h.content.e)
  {
    if h.content.e.parent.Some? {
      BuiltDepth(h.content.e.parent.value);
    }
  }

  lemma ValidStatesAgree(s: State, t: State)
    requires Validate(s) && Validate(t)
    ensures SourcesAgree(s, t)
  {
    forall h | h in s.sources && h in t.sources ensures s.sources[h] == t.sources[h] {
      assert h == Sha(s.sources[h]) && h == Sha(t.sources[h]);
    }
  }

  /** One replayed delta gives back the captured state. */
  lemma {:induction false} BuiltStep(h: BlobHash, p: BlobHash)
    requires Built(h) && h.content.e.parent == Some(p)
    ensures p.content.Checkpoint? && ReplayStep(StateOf(p), h.content.e, h.content.e.depth) == Ok(StateOf(h))
  {
    var d := Difference(StateOf(p), StateOf(h)).value;
    ValidStatesAgree(StateOf(p), StateOf(h));
    RoundTrip(StateOf(p), StateOf(h), d);
  }

  /** The envelopes from a hash down to its base. */
  ghost function ChainOf(h: BlobHash): (chain: seq<Envelope>)
    requires h.content.Checkpoint?
    ensures chain != []
  {
    var e := h.content.e;
    [e] + if e.parent.Some? && e.parent.value.content.Checkpoint? then ChainOf(e.parent.value) else []
  }

  lemma {:induction false} ReplayCons(e: Envelope, rest: seq<Envelope>)
    requires rest != []
    ensures Replay([e] + rest) == match Replay(rest)
                                  case Err(error) => Err(error)
                                  case Ok(state) => ReplayStep(state, e, |rest|)
  {
    hide ReplayStep, ReplayBase;
    var chain := [e] + rest;
    assert chain[1..] == rest && chain[0] == e && |chain| == |rest| + 1;
  }

  lemma {:induction false} BuiltValid(h: BlobHash)
    requires Built(h)
    ensures h.content.Checkpoint? && Validate(StateOf(h))
  {
  }

  lemma {:induction false} ChainLength(h: BlobHash)
    requires Built(h)
    ensures |ChainOf(h)| == h.content.e.depth + 1
  {
    if h.content.e.parent.Some? {
      ChainLength(h.content.e.parent.value);
    }
  }

  lemma {:induction false} ChainReplays(h: BlobHash)
    requires Built(h)
    ensures Replay(ChainOf(h)) == Ok(StateOf(h))
  {
    var e := h.content.e;
    if e.parent.Some? {
      ChainReplays(e.parent.value);
      ChainLength(e.parent.value);
      BuiltStep(h, e.parent.value);
      ReplayCons(e, ChainOf(e.parent.value));
    }
  }

  /** The first `steps` envelopes of the chain. */
  ghost function ChainPrefix(h: BlobHash, steps: nat): seq<Envelope>
    requires h.content.Checkpoint?
  {
    if steps < |ChainOf(h)| then ChainOf(h)[..steps] else ChainOf(h)
  }

  lemma ChainPrefixCons(h: BlobHash, p: BlobHash, steps: nat)
    requires h.content.Checkpoint? && h.content.e.parent == Some(p) && p.content.Checkpoint? && steps > 0
    ensures ChainPrefix(h, steps) == [h.content.e] + ChainPrefix(p, steps - 1)
  {
  }

  lemma {:induction false} WalkReadsChain(blobs: set<BlobHash>, h: BlobHash, steps: nat)
    requires Built(h) && Present(blobs, h)
    ensures Walk(blobs, h, steps) == Ok(ChainPrefix(h, steps))
    decreases steps
  {
    hide Validate, Canonical, Difference, DeltaEnvelope;
    BuiltDepth(h);
    if steps > 0 && h.content.e.parent.Some? {
      WalkReadsChain(blobs, h.content.e.parent.value, steps - 1);
      ChainPrefixCons(h, h.content.e.parent.value, steps);
    } else if steps == 0 {
      assert ChainPrefix(h, 0) == [];
    } else {
      assert ChainPrefix(h, steps) == [h.content.e];
    }
  }

  lemma {:induction false} ReplayNeedsBase(chain: seq<Envelope>)
    requires chain != [] ==> chain[|chain| - 1].parent.Some?
    ensures Replay(chain).Err?
  {
    if |chain| > 1 {
      ReplayNeedsBase(chain[1..]);
    }
  }

  lemma {:induction false} InnerEnvelopesHaveParents(h: BlobHash, i: nat)
    requires h.content.Checkpoint? && i + 1 < |ChainOf(h)|
    ensures ChainOf(h)[i].parent.Some?
    decreases i
  {
    if i > 0 {
      InnerEnvelopesHaveParents(h.content.e.parent.value, i - 1);
    }
  }

  /** The loop bound is tight: a stored chain loads, to its own state, exactly when the walk may read
      more envelopes than its depth.  Depth never exceeds eight, so nine reads always suffice. */
  lemma {:induction false} LoadBoundIsTight(blobs: set<BlobHash>, h: BlobHash, steps: nat)
    requires Built(h) && Present(blobs, h)
    ensures LoadWithin(blobs, h, steps).Ok? <==> steps > h.content.e.depth
    ensures steps > h.content.e.depth ==> LoadWithin(blobs, h, steps) == Ok(StateOf(h))
    ensures LoadState(blobs, h) == Ok(StateOf(h))
  {
    hide Built, Present, Walk, Replay, ChainOf, Validate, StateOf;
    BuiltDepth(h);
    ChainLength(h);
    ChainReplays(h);
    BuiltValid(h);
    WalkReadsChain(blobs, h, MAX_DEPTH + 1);
    WalkReadsChain(blobs, h, steps);
    if steps <= h.content.e.depth {
      if steps > 0 {
        InnerEnvelopesHaveParents(h, steps - 1);
      }
      ReplayNeedsBase(ChainOf(h)[..steps]);
    }
  }

  /** Conversely whatever loads, from any store, loads to the state its hash commits to. */
  lemma LoadedMatchesHash(blobs: set<BlobHash>, h: BlobHash, steps: nat)
    requires LoadWithin(blobs, h, steps).Ok?
    ensures h.content.Checkpoint? && LoadWithin(blobs, h, steps) == Ok(StateOf(h)) && Validate(StateOf(h))
  {
    hide ApplyDelta, Validate;
    var chain := Walk(blobs, h, steps).value;
    assert chain != [] && chain[0] == h.content.e;
  }

  /** A chain that loads, read off the envelopes themselves: the base carries its whole state, every other envelope hangs
      one level above its parent, names its parent's state and gets its own state from it by its delta. */
  ghost predicate Linked(blobs: set<BlobHash>, h: BlobHash) {
    && h in blobs && h.content.Checkpoint?
    && var e := h.content.e;
       && e.version == 5 && e.depth <= 8
       && match e.parent
          case None => e.depth == 0 && e.parentHash.None? && e.delta.None? && e.full == Some(StateOf(h))
          case Some(p) =>
            && Linked(blobs, p) && e.depth == p.content.e.depth + 1
            && e.project == StateOf(p).project && e.parentHash == Some(StateHash(StateOf(p)))
            && e.full.None? && e.delta.Some? && ApplyDelta(StateOf(p), e.delta.value) == Ok(StateOf(h))
  }

  /** From any store and with any bound on the walk, the linked chains that fit in the bound load, and no others. */
  lemma {:induction false} LoadsIff(blobs: set<BlobHash>, h: BlobHash, steps: nat)
    ensures LoadWithin(blobs, h, steps).Ok? <==> Linked(blobs, h) && h.content.e.depth < steps && Validate(StateOf(h))
  {
    hide Linked, Walk, Replay, Validate, StateOf;
    ReplaysIff(blobs, h, steps);
    if LoadWithin(blobs, h, steps).Ok? {
      LoadedMatchesHash(blobs, h, steps);
    }
  }

  lemma {:induction false} ReplaysIff(blobs: set<BlobHash>, h: BlobHash, steps: nat)
    ensures Linked(blobs, h) && h.content.e.depth < steps ==>
      && Walk(blobs, h, steps).Ok? && |Walk(blobs, h, steps).value| == h.content.e.depth + 1
      && Replay(Walk(blobs, h, steps).value) == Ok(StateOf(h))
    ensures Walk(blobs, h, steps).Ok? && Replay(Walk(blobs, h, steps).value).Ok? ==>
      && Linked(blobs, h) && h.content.e.depth < steps
    decreases steps
  {
    hide ApplyDelta;
    if steps > 0 && h in blobs && h.content.Checkpoint? && h.content.e.parent.Some? {
      var e, p := h.content.e, h.content.e.parent.value;
      ReplaysIff(blobs, p, steps - 1);
      if Walk(blobs, h, steps).Ok? {
        var rest := Walk(blobs, p, steps - 1).value;
        if rest == [] {
          ReplayNeedsBase([e]);
        } else {
          ReplayCons(e, rest);
        }
      }
    }
  }

  // ---- export and import --------------------------------------------------------------------

  /** What `export` writes for a stored checkpoint: an independent full envelope. */
  ghost function Export(blobs: set<BlobHash>, h: BlobHash): Result<Envelope> {
    match LoadState(blobs, h)
    case Err(error) => Err(error)
    case Ok(state) => Ok(FullEnvelope(state))
  }

  /** The checks of `import` before it restores the state; `restore` then validates the state itself. */
  ghost function Import(e: Envelope): Result<State> {
    if !(e.version == VERSION && e.depth == 0 && e.parent.None? && e.delta.None?) then Err("export must be a full independent checkpoint")
    else if e.full.None? then Err("missing exported state")
    else if !(e.full.value.project == e.project && StateHash(e.full.value) == e.stateHash) then Err("export integrity mismatch")
    else if !Validate(e.full.value) then Err("invalid state")
    else Ok(e.full.value)
  }

  /** An exported checkpoint imports as exactly the state that loads from the store. */
  lemma ExportImports(blobs: set<BlobHash>, h: BlobHash)
    ensures LoadState(blobs, h).Ok? ==> Export(blobs, h).Ok? && Import(Export(blobs, h).value) == LoadState(blobs, h)
  {
    hide Validate, Walk, Replay;
    if LoadState(blobs, h).Ok? {
      LoadedMatchesHash(blobs, h, MAX_DEPTH + 1);
    }
  }

  /** An accepted file is the full envelope of its valid state, up to the parent hash nobody reads. */
  lemma ImportAcceptsIff(e: Envelope, s: State)
    ensures Import(e) == Ok(s) <==> Validate(s) && e.(parentHash := None) == FullEnvelope(s)
  {
    hide Validate;
  }
}
