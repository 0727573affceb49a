/** The tables behind project checkpoints: create, delete and blob garbage collection
    (src/checkpoint.rs:492-582, 993-1016; src/db.rs:7623-7769). */
module CheckpointStore {
  import opened Prelude
  import opened Events
  import opened Records
  import opened Delta
  import opened Checkpoint

  datatype Snapshot = Snapshot(project: Option<string>, blob: BlobHash, createdAt: int)

  /** `blobs` maps a hash to its reference count; `deps` holds (child, parent) pairs. */
  datatype Repo = Repo(
    blobs: map<BlobHash, int>,
    objects: set<BlobHash>,
    deps: set<(BlobHash, BlobHash)>,
    snapshots: map<string, Snapshot>,
    heads: map<string, BlobHash>)

  const EMPTY := Repo(map[], {}, {}, map[], map[])

  // ---- operations -------------------------------------------------------------------------

  function DropRepeats(rows: seq<Record>): seq<Record> {
    if |rows| < 2 then rows
    else if rows[0] == rows[1] then DropRepeats(rows[1..])
    else [rows[0]] + DropRepeats(rows[1..])
  }

  /** Capture reads the rows in any order and stores them sorted, audit evidence without repeats. */
  function Capture(raw: State): State {
    raw.(tables := SortedTables(raw), audit := DropRepeats(SortRows(raw.audit)))
  }

  /** An incremental capture on a loaded head.  `smaller` is the outcome of the size test. */
  function Increment(head: BlobHash, parent: Envelope, base: State, state: State, smaller: bool): Result<Envelope> {
    if parent.stateHash == StateHash(state) then Ok(parent)
    else if parent.depth < MAX_DEPTH && base.tables.Keys == state.tables.Keys then
      match Difference(base, state)
      case Err(error) => Err(error)
      case Ok(d) => Ok(if smaller then DeltaEnvelope(state, head, parent.stateHash, parent.depth + 1, d) else FullEnvelope(state))
    else Ok(FullEnvelope(state))
  }

  /** The envelope `create` publishes for a captured state. */
  ghost function Choose(r: Repo, state: State, incremental: bool, smaller: bool): Result<Envelope> {
    if !incremental || state.project !in r.heads then Ok(FullEnvelope(state))
    else
      var head := r.heads[state.project];
      if head !in r.blobs then Err("blob not found")
      else match head.content
        case Bytes(_) => Ok(FullEnvelope(state))
        case Checkpoint(parent) =>
          match LoadState(r.blobs.Keys, head)
          case Err(error) => Err(error)
          case Ok(base) => Increment(head, parent, base, state, smaller)
  }

  /** Storing bytes that are already there only counts another reference. */
  function AddBlob(blobs: map<BlobHash, int>, h: BlobHash): map<BlobHash, int> {
    blobs[h := if h in blobs then blobs[h] + 1 else 1]
  }

  function DropRef(blobs: map<BlobHash, int>, h: BlobHash): map<BlobHash, int> {
    if h in blobs && blobs[h] > 0 then blobs[h := blobs[h] - 1] else blobs
  }

  function Publish(r: Repo, id: string, project: string, e: Envelope, now: int): Repo {
    var h := BlobHash(Checkpoint(e));
    r.(blobs := AddBlob(r.blobs, h),
       objects := r.objects + {h},
       deps := if e.parent.Some? then r.deps + {(h, e.parent.value)} else r.deps,
       snapshots := r.snapshots[id := Snapshot(Some(project), h, now)],
       heads := r.heads[project := h])
  }

  ghost function Create(r: Repo, id: string, raw: State, incremental: bool, smaller: bool, now: int): Result<Repo> {
    var state := Capture(raw);
    if !Validate(state) then Err("invalid state")
    else match Choose(r, state, incremental, smaller)
      case Err(error) => Err(error)
      case Ok(e) => if id in r.snapshots then Err("snapshot exists") else Ok(Publish(r, id, state.project, e, now))
  }

  predicate IdLeq(a: string, b: string) {
    Leq(Letters(a), Letters(b))
  }

  /** `a` sorts at or before `b` by creation time and then id. */
  predicate NotNewer(snapshots: map<string, Snapshot>, a: string, b: string)
    requires a in snapshots && b in snapshots
  {
    snapshots[a].createdAt < snapshots[b].createdAt
    || (snapshots[a].createdAt == snapshots[b].createdAt && IdLeq(a, b))
  }

  ghost predicate IsNewest(snapshots: map<string, Snapshot>, ids: set<string>, id: string)
    requires ids <= snapshots.Keys
  {
    id in ids && forall j :: j in ids ==> NotNewer(snapshots, j, id)
  }

  function OfProject(snapshots: map<string, Snapshot>, project: string): set<string> {
    set id | id in snapshots && snapshots[id].project == Some(project)
  }

  lemma NewestUnique(snapshots: map<string, Snapshot>, ids: set<string>, a: string, b: string)
    requires ids <= snapshots.Keys && IsNewest(snapshots, ids, a) && IsNewest(snapshots, ids, b)
    ensures a == b
  {
    assert NotNewer(snapshots, a, b) && NotNewer(snapshots, b, a);
    LeqAntisymmetric(Letters(a), Letters(b));
    LettersInjective(a, b);
  }

  lemma NotNewerTransitive(snapshots: map<string, Snapshot>, a: string, b: string, c: string)
    requires a in snapshots && b in snapshots && c in snapshots
    requires NotNewer(snapshots, a, b) && NotNewer(snapshots, b, c)
    ensures NotNewer(snapshots, a, c)
  {
    if IdLeq(a, b) && IdLeq(b, c) {
      LeqTransitive(Letters(a), Letters(b), Letters(c));
    }
  }

  /** Scans for the newest snapshot. */
  method FindNewest(snapshots: map<string, Snapshot>, ids: set<string>) returns (id: string)
    requires ids <= snapshots.Keys && ids != {}
    ensures IsNewest(snapshots, ids, id)
  {
    id :| id in ids;
    LeqTotal(Letters(id), Letters(id));
    var left := ids - {id};
    while left != {}
      invariant left <= ids && IsNewest(snapshots, ids - left, id)
      decreases left
    {
      var j :| j in left;
      LeqTotal(Letters(id), Letters(j));
      LeqTotal(Letters(j), Letters(j));
      if NotNewer(snapshots, id, j) {
        forall k | k in ids - left ensures NotNewer(snapshots, k, j) {
          NotNewerTransitive(snapshots, k, id, j);
        }
        id := j;
      }
      left := left - {j};
    }
    assert ids - left == ids;
  }

  lemma {:induction false} NewestExists(snapshots: map<string, Snapshot>, ids: set<string>)
    requires ids <= snapshots.Keys && ids != {}
    ensures exists id :: IsNewest(snapshots, ids, id)
  {
    var id :| id in ids;
    LeqTotal(Letters(id), Letters(id));
    if ids == {id} {
      assert IsNewest(snapshots, ids, id);
    } else {
      NewestExists(snapshots, ids - {id});
      var j :| IsNewest(snapshots, ids - {id}, j);
      LeqTotal(Letters(id), Letters(j));
      if NotNewer(snapshots, j, id) {
        forall k | k in ids ensures NotNewer(snapshots, k, id) {
          if k != id {
            NotNewerTransitive(snapshots, k, j, id);
          }
        }
        assert IsNewest(snapshots, ids, id);
      } else {
        assert IsNewest(snapshots, ids, j);
      }
    }
  }

  ghost function Newest(snapshots: map<string, Snapshot>, ids: set<string>): (id: string)
    requires ids <= snapshots.Keys && ids != {}
    ensures IsNewest(snapshots, ids, id)
  {
    NewestExists(snapshots, ids);
    var id :| IsNewest(snapshots, ids, id);
    id
  }

  /** Heads once a snapshot of `project` is gone: a head on its blob falls back to the newest snapshot left. */
  ghost function HeadsAfter(heads: map<string, BlobHash>, left: map<string, Snapshot>, project: string, gone: BlobHash)
    : map<string, BlobHash>
  {
    var kept := if project in heads && heads[project] == gone then heads - {project} else heads;
    if project in kept || OfProject(left, project) == {} then kept
    else kept[project := left[Newest(left, OfProject(left, project))].blob]
  }

  ghost function Delete(r: Repo, id: string): Result<Repo> {
    if id !in r.snapshots then Err("snapshot not found")
    else
      var s := r.snapshots[id];
      Ok(r.(blobs := DropRef(r.blobs, s.blob),
            snapshots := r.snapshots - {id},
            heads := match s.project
                     case None => r.heads
                     case Some(p) => HeadsAfter(r.heads, r.snapshots - {id}, p, s.blob)))
  }

  /** A snapshot of the whole brain: no project, any stored blob. */
  function RegisterBrain(r: Repo, id: string, h: BlobHash, now: int): Result<Repo> {
    if id in r.snapshots || h !in r.blobs then Err("constraint failed")
    else Ok(r.(snapshots := r.snapshots[id := Snapshot(None, h, now)], objects := r.objects + {h}))
  }

  /** Restore writes back the exact sources of a state, without counting a reference. */
  function AddSources(blobs: map<BlobHash, int>, hashes: set<BlobHash>): map<BlobHash, int> {
    (map h | h in hashes :: 0) + blobs
  }

  // ---- garbage collection -----------------------------------------------------------------

  /** `pins` are the hashes that live memories, observations and chunks refer to. */
  predicate IsRoot(r: Repo, pins: set<BlobHash>, h: BlobHash) {
    || h in pins
    || (exists id | id in r.snapshots :: r.snapshots[id].blob == h)
    || (exists p | p in r.heads :: r.heads[p] == h)
  }

  predicate Kept(r: Repo, pins: set<BlobHash>, h: BlobHash) {
    h in r.blobs && (r.blobs[h] > 0 || IsRoot(r, pins, h))
  }

  predicate IsParent(r: Repo, h: BlobHash) {
    exists d | d in r.deps :: d.1 == h
  }

  function Garbage(r: Repo, pins: set<BlobHash>): set<BlobHash> {
    set h | h in r.blobs && !Kept(r, pins, h) && !IsParent(r, h)
  }

  /** Deletes blobs; their object and dependency rows go with them. */
  function Drop(r: Repo, dead: set<BlobHash>): Repo {
    r.(blobs := r.blobs - dead, objects := r.objects - dead, deps := set d | d in r.deps && d.0 !in dead)
  }

  function Gc(r: Repo, pins: set<BlobHash>): Repo {
    Drop(r, Garbage(r, pins))
  }

  // ---- the invariant ----------------------------------------------------------------------

  /** Every envelope of the chain is stored, and each parent is pinned by a dependency row. */
  ghost predicate Anchored(r: Repo, h: BlobHash) {
    h in r.blobs && match h.content
      case Bytes(_) => true
      case Checkpoint(e) => e.parent.Some? ==> (h, e.parent.value) in r.deps && Anchored(r, e.parent.value)
  }

  ghost predicate IsProjectRoot(r: Repo, project: string, h: BlobHash) {
    exists id :: id in r.snapshots && r.snapshots[id].project == Some(project) && r.snapshots[id].blob == h
  }

  ghost predicate DepsBuilt(r: Repo) {
    forall d :: d in r.deps ==> Built(d.0) && d.0.content.e.parent == Some(d.1) && d.0 in r.blobs && d.1 in r.blobs
  }

  ghost predicate SnapshotsSound(r: Repo) {
    forall id :: id in r.snapshots && r.snapshots[id].project.Some? ==>
      && Built(r.snapshots[id].blob) && Anchored(r, r.snapshots[id].blob)
      && StateOf(r.snapshots[id].blob).project == r.snapshots[id].project.value
  }

  ghost predicate HeadsSound(r: Repo) {
    forall p :: p in r.heads ==> IsProjectRoot(r, p, r.heads[p])
  }

  ghost predicate Sound(r: Repo) {
    DepsBuilt(r) && SnapshotsSound(r) && HeadsSound(r)
  }

  lemma {:induction false} AnchoredPresent(r: Repo, h: BlobHash)
    requires Anchored(r, h)
    ensures Present(r.blobs.Keys, h)
  {
    if h.content.Checkpoint? && h.content.e.parent.Some? {
      AnchoredPresent(r, h.content.e.parent.value);
    }
  }

  lemma {:induction false} AnchoredMonotone(r: Repo, q: Repo, h: BlobHash)
    requires Anchored(r, h) && r.blobs.Keys <= q.blobs.Keys && r.deps <= q.deps
    ensures Anchored(q, h)
  {
    if h.content.Checkpoint? && h.content.e.parent.Some? {
      AnchoredMonotone(r, q, h.content.e.parent.value);
    }
  }

  /** A sweep cannot break a chain whose top it does not delete. */
  lemma {:induction false} AnchoredSurvivesGc(r: Repo, pins: set<BlobHash>, h: BlobHash)
    requires Anchored(r, h) && h !in Garbage(r, pins)
    ensures Anchored(Gc(r, pins), h)
  {
    if h.content.Checkpoint? && h.content.e.parent.Some? {
      var p := h.content.e.parent.value;
      assert (h, p) in r.deps && (h, p).1 == p;
      assert IsParent(r, p);
      AnchoredSurvivesGc(r, pins, p);
    }
  }

  /** In every sound store a listed project snapshot loads to the state its hash commits to. */
  lemma SoundLoads(r: Repo, id: string)
    requires Sound(r) && id in r.snapshots && r.snapshots[id].project.Some?
    ensures LoadState(r.blobs.Keys, r.snapshots[id].blob) == Ok(StateOf(r.snapshots[id].blob))
  {
    AnchoredPresent(r, r.snapshots[id].blob);
    LoadBoundIsTight(r.blobs.Keys, r.snapshots[id].blob, MAX_DEPTH + 1);
  }

  lemma {:induction false} HeadLoads(r: Repo, p: string)
    requires Sound(r) && p in r.heads
    ensures var h := r.heads[p];
            && Built(h) && Anchored(r, h) && StateOf(h).project == p
            && LoadState(r.blobs.Keys, h) == Ok(StateOf(h))
  {
    var id :| id in r.snapshots && r.snapshots[id].project == Some(p) && r.snapshots[id].blob == r.heads[p];
    SoundLoads(r, id);
  }

  lemma {:induction false} DropKeepsMembers(rows: seq<Record>, r: Record)
    ensures r in DropRepeats(rows) <==> r in rows
  {
    if |rows| >= 2 {
      assert rows == [rows[0]] + rows[1..];
      DropKeepsMembers(rows[1..], r);
    }
  }

  lemma {:induction false} DropSortsDistinct(rows: seq<Record>)
    requires Sorted(rows)
    ensures Sorted(DropRepeats(rows)) && Distinct(DropRepeats(rows))
  {
    hide RowLeq;
    if |rows| >= 2 {
      SortedTail(rows);
      DropSortsDistinct(rows[1..]);
      var rest := DropRepeats(rows[1..]);
      if rows[0] != rows[1] {
        forall r | r in rest ensures RowLeq(rows[0], r) && r != rows[0] {
          DropKeepsMembers(rows[1..], r);
          SortedApart(rows, r);
        }
        ConsSorted(rows[0], rest);
      }
    }
  }

  /** In a sorted sequence equal rows stand together. */
  lemma SortedApart(rows: seq<Record>, r: Record)
    requires Sorted(rows) && |rows| >= 2 && rows[0] != rows[1] && r in rows[1..]
    ensures RowLeq(rows[0], r) && r != rows[0]
  {
    SortedHeadIsLeast(rows, r);
    SortedTail(rows);
    SortedHeadIsLeast(rows[1..], r);
    if r == rows[0] {
      LeqAntisymmetric(Code(rows[0]), Code(rows[1]));
      CodeInjective(rows[0], rows[1]);
    }
  }

  /** The state holds what was read, put in order: every table its columns and its rows as often as they were read,
      the sources as they are, and each audit record once. */
  ghost predicate IsCaptureOf(s: State, raw: State) {
    && s.project == raw.project && s.sources == raw.sources && s.tables.Keys == raw.tables.Keys
    && (forall name :: name in raw.tables ==>
          && s.tables[name].fields == raw.tables[name].fields
          && Sorted(s.tables[name].rows) && multiset(s.tables[name].rows) == multiset(raw.tables[name].rows))
    && Sorted(s.audit) && Distinct(s.audit) && (forall r :: r in s.audit <==> r in raw.audit)
  }

  lemma CaptureHolds(raw: State)
    ensures IsCaptureOf(Capture(raw), raw)
  {
    hide SortRows, DropRepeats, RowLeq, Sorted;
    forall name | name in raw.tables
      ensures Sorted(Capture(raw).tables[name].rows) && multiset(Capture(raw).tables[name].rows) == multiset(raw.tables[name].rows)
    {
      SortRowsSorts(raw.tables[name].rows);
    }
    SortRowsSorts(raw.audit);
    DropSortsDistinct(SortRows(raw.audit));
    forall r ensures r in Capture(raw).audit <==> r in raw.audit {
      DropKeepsMembers(SortRows(raw.audit), r);
      SameMultisetSameMembers(SortRows(raw.audit), raw.audit);
    }
  }

  lemma CaptureCanonical(raw: State)
    ensures Canonical(Capture(raw)) && Capture(raw).project == raw.project
  {
    forall name | name in raw.tables ensures Sorted(Capture(raw).tables[name].rows) {
      SortRowsSorts(raw.tables[name].rows);
    }
  }

  lemma FullIsBuilt(s: State)
    requires Validate(s) && Canonical(s)
    ensures Built(BlobHash(Checkpoint(FullEnvelope(s))))
  {
  }

  lemma DeltaIsBuilt(s: State, parent: BlobHash, d: Delta)
    requires Validate(s) && Canonical(s) && Built(parent) && parent.content.e.depth < MAX_DEPTH
    requires Difference(StateOf(parent), s) == Ok(d)
    ensures Built(BlobHash(Checkpoint(DeltaEnvelope(s, parent, parent.content.e.stateHash, parent.content.e.depth + 1, d))))
  {
  }

  /** What `create` may publish instead of the full state: the head again, or a difference on the head. */
  ghost predicate IsIncrement(head: BlobHash, state: State, e: Envelope) {
    && Built(head)
    && var parent := head.content.e;
       || (e == parent && e.stateHash == StateHash(state))
       || (parent.depth < MAX_DEPTH && Difference(StateOf(head), state).Ok?
           && e == DeltaEnvelope(state, head, parent.stateHash, parent.depth + 1, Difference(StateOf(head), state).value))
  }

  lemma {:induction false} IncrementCases(head: BlobHash, state: State, smaller: bool, e: Envelope)
    requires Built(head) && Increment(head, head.content.e, StateOf(head), state, smaller) == Ok(e)
    ensures e == FullEnvelope(state) || IsIncrement(head, state, e)
  {
  }

  lemma ChooseCases(r: Repo, state: State, incremental: bool, smaller: bool, e: Envelope)
    requires Sound(r) && Choose(r, state, incremental, smaller) == Ok(e)
    ensures e == FullEnvelope(state) || (state.project in r.heads && IsIncrement(r.heads[state.project], state, e))
  {
    if incremental && state.project in r.heads {
      HeadLoads(r, state.project);
      IncrementCases(r.heads[state.project], state, smaller, e);
    }
  }

  lemma {:induction false} IncrementIsBuilt(r: Repo, head: BlobHash, state: State, e: Envelope)
    requires Validate(state) && Canonical(state) && IsIncrement(head, state, e) && Anchored(r, head)
    ensures Built(BlobHash(Checkpoint(e))) && e.stateHash == StateHash(state)
    ensures e.parent.Some? ==> Anchored(r, e.parent.value)
  {
    if e == head.content.e && e.stateHash == StateHash(state) {
      assert BlobHash(Checkpoint(e)) == head;
    } else {
      DeltaIsBuilt(state, head, Difference(StateOf(head), state).value);
    }
  }

  lemma {:induction false} ChosenIsBuilt(r: Repo, state: State, incremental: bool, smaller: bool, e: Envelope)
    requires Sound(r) && Validate(state) && Canonical(state) && Choose(r, state, incremental, smaller) == Ok(e)
    ensures Built(BlobHash(Checkpoint(e))) && e.stateHash == StateHash(state)
    ensures e.parent.Some? ==> Anchored(r, e.parent.value)
  {
    ChooseCases(r, state, incremental, smaller, e);
    if e == FullEnvelope(state) {
      FullIsBuilt(state);
    } else {
      HeadLoads(r, state.project);
      IncrementIsBuilt(r, r.heads[state.project], state, e);
    }
  }

  lemma {:induction false} SnapshotsSoundMonotone(r: Repo, q: Repo)
    requires SnapshotsSound(r) && r.blobs.Keys <= q.blobs.Keys && r.deps <= q.deps
    ensures forall j :: j in r.snapshots && r.snapshots[j].project.Some? ==> Anchored(q, r.snapshots[j].blob)
  {
    forall j | j in r.snapshots && r.snapshots[j].project.Some? ensures Anchored(q, r.snapshots[j].blob) {
      AnchoredMonotone(r, q, r.snapshots[j].blob);
    }
  }

  /** A listed snapshot that stays listed unchanged still backs a head. */
  lemma RootStays(r: Repo, q: Repo, project: string, h: BlobHash)
    requires IsProjectRoot(r, project, h)
    requires forall id :: id in r.snapshots && r.snapshots[id].blob == h ==> id in q.snapshots && q.snapshots[id] == r.snapshots[id]
    ensures IsProjectRoot(q, project, h)
  {
    var j :| j in r.snapshots && r.snapshots[j].project == Some(project) && r.snapshots[j].blob == h;
    assert q.snapshots[j] == r.snapshots[j];
  }

  lemma PublishHeadsSound(r: Repo, q: Repo, id: string, project: string, e: Envelope, now: int)
    requires HeadsSound(r) && id !in r.snapshots && q == Publish(r, id, project, e, now)
    ensures HeadsSound(q)
  {
    assert q.snapshots[id] == Snapshot(Some(project), BlobHash(Checkpoint(e)), now);
    forall p | p in q.heads ensures IsProjectRoot(q, p, q.heads[p]) {
      if p != project {
        assert q.heads[p] == r.heads[p];
        RootStays(r, q, p, r.heads[p]);
      }
    }
  }

  lemma {:induction false} PublishDepsBuilt(r: Repo, q: Repo, id: string, project: string, e: Envelope, now: int)
    requires DepsBuilt(r) && Built(BlobHash(Checkpoint(e))) && q == Publish(r, id, project, e, now)
    requires e.parent.Some? ==> e.parent.value in r.blobs
    ensures DepsBuilt(q) && r.blobs.Keys <= q.blobs.Keys && r.deps <= q.deps
  {
  }

  /** Publishing a built envelope on an anchored parent keeps the store sound. */
  lemma {:induction false} PublishSound(r: Repo, q: Repo, id: string, project: string, e: Envelope, now: int)
    requires Sound(r) && id !in r.snapshots && q == Publish(r, id, project, e, now)
    requires Built(BlobHash(Checkpoint(e))) && e.stateHash.state.project == project
    requires e.parent.Some? ==> Anchored(r, e.parent.value)
    ensures Sound(q)
  {
    PublishDepsBuilt(r, q, id, project, e, now);
    PublishHeadsSound(r, q, id, project, e, now);
    SnapshotsSoundMonotone(r, q);
    if e.parent.Some? {
      AnchoredMonotone(r, q, e.parent.value);
    }
    assert Anchored(q, BlobHash(Checkpoint(e)));
  }

  /** A successful create keeps the store sound and lists a snapshot that stands for the captured state. */
  lemma CreateSound(r: Repo, id: string, raw: State, incremental: bool, smaller: bool, now: int, q: Repo)
    requires Sound(r) && Create(r, id, raw, incremental, smaller, now) == Ok(q)
    ensures Sound(q) && id in q.snapshots && q.snapshots[id].project == Some(raw.project)
    ensures raw.project in q.heads && q.heads[raw.project] == q.snapshots[id].blob
    ensures q.snapshots[id].blob.content.Checkpoint? && StateOf(q.snapshots[id].blob) == Capture(raw)
  {
    CaptureCanonical(raw);
    var e := Choose(r, Capture(raw), incremental, smaller).value;
    ChosenIsBuilt(r, Capture(raw), incremental, smaller, e);
    PublishSound(r, q, id, raw.project, e, now);
  }

  /** What an incremental create publishes over a head: an unchanged project publishes the head again, a changed
      one a child of the head one level deeper when that is allowed and smaller, else the full state. */
  lemma IncrementalChoice(r: Repo, state: State, smaller: bool, e: Envelope)
    requires Sound(r) && state.project in r.heads && Choose(r, state, true, smaller) == Ok(e)
    ensures var head := r.heads[state.project];
            && Built(head)
            && (StateOf(head) == state ==> BlobHash(Checkpoint(e)) == head)
            && (StateOf(head) != state && smaller && head.content.e.depth < MAX_DEPTH && SameSchema(StateOf(head), state) ==>
                  e.parent == Some(head) && e.depth == head.content.e.depth + 1)
            && (StateOf(head) != state && !SameSchema(StateOf(head), state) ==> e == FullEnvelope(state))
            && (StateOf(head) != state && (!smaller || head.content.e.depth == MAX_DEPTH) ==> e == FullEnvelope(state))
  {
    hide Validate, Canonical;
    HeadLoads(r, state.project);
    BuiltDepth(r.heads[state.project]);
  }

  /** Create fails only on an invalid capture, a taken id, or an incremental capture whose columns changed since the head. */
  lemma CreateSucceedsIff(r: Repo, id: string, raw: State, incremental: bool, smaller: bool, now: int)
    requires Sound(r)
    ensures Create(r, id, raw, incremental, smaller, now).Ok? <==>
      && Validate(Capture(raw)) && id !in r.snapshots
      && !(incremental && raw.project in r.heads
           && var head := r.heads[raw.project];
              head.content.Checkpoint? && StateOf(head) != Capture(raw) && head.content.e.depth < MAX_DEPTH
              && SameSchema(StateOf(head), Capture(raw)) && !SameFields(StateOf(head), Capture(raw)))
  {
    if incremental && raw.project in r.heads {
      HeadLoads(r, raw.project);
      IncrementSucceedsIff(r.heads[raw.project], Capture(raw), smaller);
    }
  }

  /** A head whose blob is gone fails an incremental create; any other create does not look at it. */
  lemma HeadMustBeStored(r: Repo, state: State, smaller: bool)
    requires state.project in r.heads && r.heads[state.project] !in r.blobs
    ensures Choose(r, state, true, smaller).Err? && Choose(r, state, false, smaller).Ok?
  {
  }

  lemma {:induction false} IncrementSucceedsIff(head: BlobHash, state: State, smaller: bool)
    requires Built(head) && StateOf(head).project == state.project
    ensures Increment(head, head.content.e, StateOf(head), state, smaller).Ok? <==>
      !(StateOf(head) != state && head.content.e.depth < MAX_DEPTH
        && SameSchema(StateOf(head), state) && !SameFields(StateOf(head), state))
  {
  }

  // ---- delete -----------------------------------------------------------------------------

  lemma DeleteHeadsSound(r: Repo, id: string, q: Repo)
    requires HeadsSound(r) && Delete(r, id) == Ok(q)
    ensures HeadsSound(q)
  {
    var gone := r.snapshots[id];
    var left := r.snapshots - {id};
    forall p | p in q.heads ensures IsProjectRoot(q, p, q.heads[p]) {
      if gone.project == Some(p) && (p !in r.heads || r.heads[p] == gone.blob) {
        var j := Newest(left, OfProject(left, p));
        assert q.snapshots[j].blob == q.heads[p];
      } else {
        assert q.heads[p] == r.heads[p];
        var j :| j in r.snapshots && r.snapshots[j].project == Some(p) && r.snapshots[j].blob == r.heads[p];
        assert j != id;
        assert q.snapshots[j] == r.snapshots[j];
      }
    }
  }

  /** When the head's blob goes, the newest remaining snapshot of the project becomes the head. */
  lemma DeleteFallsBack(r: Repo, id: string, q: Repo, p: string)
    requires Delete(r, id) == Ok(q) && r.snapshots[id].project == Some(p)
    requires p in r.heads && r.heads[p] == r.snapshots[id].blob
    ensures q.snapshots == r.snapshots - {id}
    ensures if OfProject(q.snapshots, p) == {} then p !in q.heads
            else p in q.heads && exists j :: IsNewest(q.snapshots, OfProject(q.snapshots, p), j) && q.snapshots[j].blob == q.heads[p]
  {
    var left := r.snapshots - {id};
    if OfProject(left, p) != {} {
      assert IsNewest(left, OfProject(left, p), Newest(left, OfProject(left, p)));
    }
  }

  /** A delete is refused exactly for an unknown id; it takes that snapshot and, if the blob has any, one of the blob's
      references. */
  lemma DeleteCounts(r: Repo, id: string)
    ensures Delete(r, id).Ok? <==> id in r.snapshots
    ensures id in r.snapshots ==>
      var q, gone := Delete(r, id).value, r.snapshots[id].blob;
      && (forall j :: j in q.snapshots <==> j in r.snapshots && j != id)
      && (forall j :: j in q.snapshots ==> q.snapshots[j] == r.snapshots[j])
      && q.objects == r.objects && q.deps == r.deps && q.blobs.Keys == r.blobs.Keys
      && forall h :: h in r.blobs ==> q.blobs[h] == r.blobs[h] - if h == gone && r.blobs[h] > 0 then 1 else 0
  {
    hide HeadsAfter;
  }

  /** What else a delete leaves: other projects' heads, a head on another blob, and every other snapshot. */
  lemma DeleteSpares(r: Repo, id: string, q: Repo, p: string)
    requires Delete(r, id) == Ok(q)
    requires r.snapshots[id].project != Some(p) || (p in r.heads && r.heads[p] != r.snapshots[id].blob)
    ensures q.snapshots == r.snapshots - {id} && q.deps == r.deps && q.objects == r.objects && q.blobs.Keys == r.blobs.Keys
    ensures (p in q.heads <==> p in r.heads) && (p in r.heads ==> q.heads[p] == r.heads[p])
  {
  }

  /** A project that had lost its head gets one back on the newest snapshot it has left. */
  lemma DeleteFindsHead(r: Repo, id: string, q: Repo, p: string)
    requires Delete(r, id) == Ok(q) && r.snapshots[id].project == Some(p) && p !in r.heads
    ensures if OfProject(q.snapshots, p) == {} then p !in q.heads
            else p in q.heads && exists j :: IsNewest(q.snapshots, OfProject(q.snapshots, p), j) && q.snapshots[j].blob == q.heads[p]
  {
    var left := r.snapshots - {id};
    if OfProject(left, p) != {} {
      assert IsNewest(left, OfProject(left, p), Newest(left, OfProject(left, p)));
    }
  }

  lemma DeleteSound(r: Repo, id: string, q: Repo)
    requires Sound(r) && Delete(r, id) == Ok(q)
    ensures Sound(q)
  {
    assert q.blobs.Keys == r.blobs.Keys && q.deps == r.deps;
    SnapshotsSoundMonotone(r, q);
    DeleteHeadsSound(r, id, q);
  }

  // ---- sweeps -----------------------------------------------------------------------------

  lemma GcSound(r: Repo, pins: set<BlobHash>)
    requires Sound(r)
    ensures Sound(Gc(r, pins))
  {
    var q := Gc(r, pins);
    forall d | d in q.deps ensures Built(d.0) && d.0.content.e.parent == Some(d.1) && d.0 in q.blobs && d.1 in q.blobs {
      assert d in r.deps;
      assert IsParent(r, d.1);
    }
    forall id | id in q.snapshots && q.snapshots[id].project.Some? ensures Anchored(q, q.snapshots[id].blob) {
      assert r.snapshots[id].blob !in Garbage(r, pins);
      AnchoredSurvivesGc(r, pins, r.snapshots[id].blob);
    }
    forall p | p in q.heads ensures IsProjectRoot(q, p, q.heads[p]) {
      RootStays(r, q, p, r.heads[p]);
    }
  }

  // ---- runs -------------------------------------------------------------------------------

  datatype Op =
    | CreateOp(id: string, raw: State, incremental: bool, smaller: bool, now: int)
    | DeleteOp(id: string)
    | DecrefOp(h: BlobHash)
    | StoreOp(content: Content)
    | BrainOp(id: string, h: BlobHash, now: int)
    | RestoreOp(hashes: set<BlobHash>)
    | GcOp(pins: set<BlobHash>)

  ghost function Attempt(r: Repo, op: Op): Result<Repo> {
    match op
    case CreateOp(id, raw, incremental, smaller, now) => Create(r, id, raw, incremental, smaller, now)
    case DeleteOp(id) => Delete(r, id)
    case DecrefOp(h) => Ok(r.(blobs := DropRef(r.blobs, h)))
    case StoreOp(content) => Ok(r.(blobs := AddBlob(r.blobs, BlobHash(content))))
    case BrainOp(id, h, now) => RegisterBrain(r, id, h, now)
    case RestoreOp(hashes) => Ok(r.(blobs := AddSources(r.blobs, hashes)))
    case GcOp(pins) => Ok(Gc(r, pins))
  }

  /** A failed operation rolls back. */
  ghost function Step(r: Repo, op: Op): Repo {
    match Attempt(r, op)
    case Ok(q) => q
    case Err(_) => r
  }

  ghost function Run(r: Repo, ops: seq<Op>): Repo
    decreases ops
  {
    if ops == [] then r else Run(Step(r, ops[0]), ops[1..])
  }

  lemma MoreBlobsSound(r: Repo, q: Repo)
    requires Sound(r) && r.blobs.Keys <= q.blobs.Keys && q.deps == r.deps && q.heads == r.heads
    requires forall id :: id in r.snapshots ==> id in q.snapshots && q.snapshots[id] == r.snapshots[id]
    requires forall id :: id in q.snapshots && id !in r.snapshots ==> q.snapshots[id].project.None?
    ensures Sound(q)
  {
    SnapshotsSoundMonotone(r, q);
    forall p | p in q.heads ensures IsProjectRoot(q, p, q.heads[p]) {
      RootStays(r, q, p, r.heads[p]);
    }
  }

  lemma StepSound(r: Repo, op: Op)
    requires Sound(r)
    ensures Sound(Step(r, op))
  {
    if Attempt(r, op).Ok? {
      var q := Attempt(r, op).value;
      match op
      case CreateOp(id, raw, incremental, smaller, now) => CreateSound(r, id, raw, incremental, smaller, now, q);
      case DeleteOp(id) => DeleteSound(r, id, q);
      case GcOp(pins) => GcSound(r, pins);
      case _ => MoreBlobsSound(r, q);
    }
  }

  lemma {:induction false} RunSound(r: Repo, ops: seq<Op>)
    requires Sound(r)
    ensures Sound(Run(r, ops))
    decreases ops
  {
    if ops != [] {
      StepSound(r, ops[0]);
      RunSound(Step(r, ops[0]), ops[1..]);
    }
  }

  lemma StepKeepsSnapshot(r: Repo, op: Op, id: string)
    requires id in r.snapshots && op != DeleteOp(id)
    ensures id in Step(r, op).snapshots && Step(r, op).snapshots[id] == r.snapshots[id]
  {
    hide Choose, Validate, Garbage, HeadsAfter, Capture;
  }

  lemma {:induction false} RunKeepsSnapshot(r: Repo, ops: seq<Op>, id: string)
    requires id in r.snapshots && DeleteOp(id) !in ops
    ensures id in Run(r, ops).snapshots && Run(r, ops).snapshots[id] == r.snapshots[id]
    decreases ops
  {
    if ops != [] {
      StepKeepsSnapshot(r, ops[0], id);
      RunKeepsSnapshot(Step(r, ops[0]), ops[1..], id);
    }
  }

  lemma EmptySound()
    ensures Sound(EMPTY)
  {
  }

  lemma CreatePublishes(r: Repo, id: string, raw: State, incremental: bool, smaller: bool, now: int, q: Repo)
    requires Create(r, id, raw, incremental, smaller, now) == Ok(q)
    ensures Choose(r, Capture(raw), incremental, smaller).Ok?
    ensures raw.project in q.heads && q.heads[raw.project] == BlobHash(Checkpoint(Choose(r, Capture(raw), incremental, smaller).value))
    ensures id !in r.snapshots && q.snapshots.Keys == r.snapshots.Keys + {id} && q.snapshots[id].createdAt == now
    ensures forall p :: p != raw.project ==> (p in q.heads <==> p in r.heads) && (p in r.heads ==> q.heads[p] == r.heads[p])
    ensures forall j :: j in r.snapshots ==> q.snapshots[j] == r.snapshots[j]
  {
    hide Validate, Choose, AddBlob, DropRepeats, SortedTables;
  }

  /** What a create writes besides: the snapshot on the new head, one reference more for that blob and no other count,
      its object, and the one dependency its envelope names. */
  lemma CreateWrites(r: Repo, id: string, raw: State, incremental: bool, smaller: bool, now: int, q: Repo)
    requires Create(r, id, raw, incremental, smaller, now) == Ok(q)
    ensures raw.project in q.heads && id in q.snapshots
    ensures var h := q.heads[raw.project];
      && h.content.Checkpoint? && q.snapshots[id] == Snapshot(Some(raw.project), h, now)
      && q.blobs.Keys == r.blobs.Keys + {h} && q.blobs[h] == 1 + (if h in r.blobs then r.blobs[h] else 0)
      && (forall b :: b in r.blobs && b != h ==> q.blobs[b] == r.blobs[b])
      && (forall b :: b in q.objects <==> b in r.objects || b == h)
      && (forall d :: d in q.deps <==> d in r.deps || (d.0 == h && h.content.e.parent == Some(d.1)))
  {
    hide Validate, Choose, DropRepeats, SortedTables;
  }

  /** After any run, and through any later run that does not delete it, a snapshot loads to exactly the
      state captured when it was created. */
  lemma {:induction false} SnapshotAlwaysLoads(before: seq<Op>, id: string, raw: State, incremental: bool, smaller: bool, now: int, later: seq<Op>)
    requires Create(Run(EMPTY, before), id, raw, incremental, smaller, now).Ok? && DeleteOp(id) !in later
    ensures var r := Run(Create(Run(EMPTY, before), id, raw, incremental, smaller, now).value, later);
            && id in r.snapshots && LoadState(r.blobs.Keys, r.snapshots[id].blob) == Ok(Capture(raw))
            && IsCaptureOf(LoadState(r.blobs.Keys, r.snapshots[id].blob).value, raw)
            && r.snapshots[id].createdAt == now
  {
    hide Capture, IsCaptureOf, LoadState, Sound, Create, Run;
    CaptureHolds(raw);
    CreatePublishes(Run(EMPTY, before), id, raw, incremental, smaller, now, Create(Run(EMPTY, before), id, raw, incremental, smaller, now).value);
    EmptySound();
    RunSound(EMPTY, before);
    var q := Create(Run(EMPTY, before), id, raw, incremental, smaller, now).value;
    CreateSound(Run(EMPTY, before), id, raw, incremental, smaller, now, q);
    RunSound(q, later);
    RunKeepsSnapshot(q, later, id);
    SoundLoads(Run(q, later), id);
  }

  // ---- every depth up to the bound occurs ----------------------------------------------------

  function AuditRow(i: nat): Record {
    map["seq" := Num(i)]
  }

  /** An empty project whose ledger holds `n` audit records. */
  function Audited(project: string, n: nat): State {
    State(project, map name | name in TABLES :: Table([("id", "text")], []), map[], seq(n, i requires 0 <= i < n => AuditRow(i)))
  }

  lemma AuditRowsOrdered(i: nat, j: nat)
    requires i <= j
    ensures RowLeq(AuditRow(i), AuditRow(j))
  {
    AuditRowCode(i);
    AuditRowCode(j);
    var a, b := [i], [j];
    assert Leq(a, b);
    LeqBehind(TextCode("seq") + [1], a, b);
  }

  lemma AuditRowCode(i: nat)
    ensures Code(AuditRow(i)) == (TextCode("seq") + [1]) + [i]
  {
    var r := AuditRow(i);
    assert r.Keys == {"seq"} && LeastName(r.Keys) == "seq";
    assert r - {"seq"} == map[] && Code(r - {"seq"}) == [];
    assert ValueCode(Num(i), []) == [1] + [i];
    assert Code(r) == TextCode("seq") + ([1] + [i]);
  }

  lemma {:induction false} LeqBehind(p: seq<int>, a: seq<int>, b: seq<int>)
    requires Leq(a, b)
    ensures Leq(p + a, p + b)
  {
    if p == [] {
      assert p + a == a && p + b == b;
    } else {
      assert (p + a)[1..] == p[1..] + a && (p + b)[1..] == p[1..] + b;
      LeqBehind(p[1..], a, b);
    }
  }

  lemma {:induction false} DropNoRepeats(rows: seq<Record>)
    requires Distinct(rows)
    ensures DropRepeats(rows) == rows
  {
    if |rows| >= 2 {
      assert rows[0] != rows[1];
      DropNoRepeats(rows[1..]);
    }
  }

  lemma AuditedValid(project: string, n: nat)
    ensures Validate(Audited(project, n))
  {
    var s := Audited(project, n);
    assert LowerCase("text") == "text";
    assert MemoryIds(s) == {};
    AssertionRows.NoRecordsValid();
  }

  /** Capture returns these states as they are: their records are sorted and differ. */
  lemma AuditedCaptured(project: string, n: nat)
    ensures Capture(Audited(project, n)) == Audited(project, n)
  {
    hide Code, RowLeq;
    var s := Audited(project, n);
    forall i, j | 0 <= i < j < n ensures RowLeq(s.audit[i], s.audit[j]) && s.audit[i] != s.audit[j] {
      AuditRowsOrdered(i, j);
      assert AuditRow(i)["seq"] != AuditRow(j)["seq"];
    }
    SortRowsSorts(s.audit);
    SortedUnique(SortRows(s.audit), s.audit);
    DropNoRepeats(s.audit);
    SortedTablesIdentity(s);
  }

  function Name(n: nat): (id: string)
    ensures |id| == n
  {
    seq(n, _ => 'x')
  }

  /** One incremental checkpoint of a project after each new audit record. */
  function Growing(project: string, n: nat): seq<Op> {
    if n == 0 then [] else Growing(project, n - 1) + [CreateOp(Name(n), Audited(project, n), true, true, n)]
  }

  lemma {:induction false} RunSnoc(r: Repo, ops: seq<Op>, op: Op)
    ensures Run(r, ops + [op]) == Step(Run(r, ops), op)
    decreases ops
  {
    hide Step;
    if ops == [] {
      assert ops + [op] == [op] && [op][1..] == [];
    } else {
      assert (ops + [op])[0] == ops[0] && (ops + [op])[1..] == ops[1..] + [op];
      RunSnoc(Step(r, ops[0]), ops[1..], op);
    }
  }

  predicate NamesUpTo(ids: set<string>, n: nat) {
    forall id | id in ids :: |id| <= n
  }

  lemma OneNameMore(ids: set<string>, n: nat)
    requires NamesUpTo(ids, n)
    ensures Name(n + 1) !in ids && NamesUpTo(ids + {Name(n + 1)}, n + 1)
  {
  }

  /** The store after `n` of them: the head stands for the last state, and no later id is taken. */
  ghost predicate Grown(r: Repo, project: string, n: nat, depth: nat) {
    && Sound(r)
    && NamesUpTo(r.snapshots.Keys, n)
    && project in r.heads
    && var head := r.heads[project];
       head.content.Checkpoint? && StateOf(head) == Audited(project, n) && head.content.e.depth == depth
  }

  lemma GrowsDeeper(r: Repo, project: string, n: nat, e: Envelope)
    requires Sound(r) && project in r.heads && r.heads[project].content.Checkpoint?
    requires StateOf(r.heads[project]) == Audited(project, n) && Choose(r, Audited(project, n + 1), true, true) == Ok(e)
    ensures var depth := r.heads[project].content.e.depth;
            e.depth == if depth < MAX_DEPTH then depth + 1 else 0
  {
    hide Sound, Choose, Audited, FullEnvelope, SameFields, Anchored, Built, DeltaEnvelope, LoadState;
    AuditedDiffer(project, n);
    HeadLoads(r, project);
    BuiltDepth(r.heads[project]);
    IncrementalChoice(r, Audited(project, n + 1), true, e);
    FullDepth(Audited(project, n + 1));
  }

  lemma GrowingSucceeds(r: Repo, project: string, n: nat, id: string)
    requires Sound(r) && project in r.heads && r.heads[project].content.Checkpoint? && id !in r.snapshots
    requires StateOf(r.heads[project]) == Audited(project, n)
    ensures Create(r, id, Audited(project, n + 1), true, true, n + 1).Ok?
  {
    hide Sound, Audited, Create, Validate;
    AuditedDiffer(project, n);
    AuditedCaptured(project, n + 1);
    AuditedValid(project, n + 1);
    CreateSucceedsIff(r, id, Audited(project, n + 1), true, true, n + 1);
  }

  lemma GrowsOnHead(r: Repo, project: string, n: nat, depth: nat, q: Repo)
    requires Grown(r, project, n, depth)
    requires Create(r, Name(n + 1), Audited(project, n + 1), true, true, n + 1) == Ok(q)
    ensures Grown(q, project, n + 1, NextDepth(depth))
  {
    hide Sound, Capture, Audited, Create, Choose, Name, NamesUpTo;
    OneNameMore(r.snapshots.Keys, n);
    var id, s := Name(n + 1), Audited(project, n + 1);
    AuditedCaptured(project, n + 1);
    AuditedDiffer(project, n + 1);
    CreateSound(r, id, s, true, true, n + 1, q);
    CreatePublishes(r, id, s, true, true, n + 1, q);
    GrowsDeeper(r, project, n, Choose(r, s, true, true).value);
  }

  lemma FullDepth(s: State)
    ensures FullEnvelope(s).depth == 0
  {
  }

  lemma AuditedDiffer(project: string, n: nat)
    ensures Audited(project, n) != Audited(project, n + 1) && Audited(project, n).project == project
    ensures SameSchema(Audited(project, n), Audited(project, n + 1)) && SameFields(Audited(project, n), Audited(project, n + 1))
  {
    assert |Audited(project, n).audit| == n;
  }

  lemma FirstGrows(project: string, q: Repo)
    requires q == Step(EMPTY, CreateOp(Name(1), Audited(project, 1), true, true, 1))
    ensures Grown(q, project, 1, 0)
  {
    hide Validate, Capture, Audited;
    var id, s := Name(1), Audited(project, 1);
    AuditedCaptured(project, 1);
    AuditedValid(project, 1);
    AuditedDiffer(project, 1);
    CreateSound(EMPTY, id, s, true, true, 1, q);
  }

  lemma HeadOfGrown(r: Repo, project: string, n: nat, depth: nat)
    requires Grown(r, project, n, depth)
    ensures Sound(r) && project in r.heads && r.heads[project].content.Checkpoint? && Name(n + 1) !in r.snapshots
    ensures StateOf(r.heads[project]) == Audited(project, n) && r.heads[project].content.e.depth == depth
  {
    OneNameMore(r.snapshots.Keys, n);
  }

  function NextDepth(depth: nat): nat {
    if depth < MAX_DEPTH then depth + 1 else 0
  }

  lemma NextDepthCycles(n: nat)
    requires n > 0
    ensures NextDepth((n - 1) % (MAX_DEPTH + 1)) == n % (MAX_DEPTH + 1)
  {
  }

  lemma GrowsOn(project: string, n: nat, depth: nat)
    requires n > 0 && Grown(Run(EMPTY, Growing(project, n)), project, n, depth)
    ensures Grown(Run(EMPTY, Growing(project, n + 1)), project, n + 1, NextDepth(depth))
  {
    hide Run, Grown, Audited, Create, Name;
    var r := Run(EMPTY, Growing(project, n));
    var op := CreateOp(Name(n + 1), Audited(project, n + 1), true, true, n + 1);
    RunSnoc(EMPTY, Growing(project, n), op);
    HeadOfGrown(r, project, n, depth);
    GrowingSucceeds(r, project, n, op.id);
    GrowsOnHead(r, project, n, depth, Step(r, op));
  }

  /** Chains of every depth up to eight are created, so the bound on the walk is met and not just respected: the
      depth of the head goes 0, 1, ..., 8 and starts again with a full state, for as long as a project grows. */
  lemma {:induction false} DepthCycles(project: string, n: nat)
    ensures Grown(Run(EMPTY, Growing(project, n + 1)), project, n + 1, n % (MAX_DEPTH + 1))
  {
    hide Run, Step, Grown, Audited, Name, NextDepth;
    if n == 0 {
      var op := CreateOp(Name(1), Audited(project, 1), true, true, 1);
      RunSnoc(EMPTY, Growing(project, 0), op);
      RunNothing(EMPTY);
      FirstGrows(project, Step(EMPTY, op));
    } else {
      DepthCycles(project, n - 1);
      GrowsOn(project, n, (n - 1) % (MAX_DEPTH + 1));
      NextDepthCycles(n);
    }
  }

  lemma {:induction false} RunNothing(r: Repo)
    ensures Run(r, []) == r
  {
  }

  /** After the ninth of them eight reads no longer reach the base of the head, and nine do. */
  lemma NineReadsNeeded(project: string)
    ensures var r := Run(EMPTY, Growing(project, MAX_DEPTH + 1));
            && project in r.heads
            && LoadWithin(r.blobs.Keys, r.heads[project], MAX_DEPTH).Err?
            && LoadState(r.blobs.Keys, r.heads[project]) == Ok(Audited(project, MAX_DEPTH + 1))
  {
    hide Run, Growing, Audited, LoadWithin, Sound, Grown, Name;
    var r := Run(EMPTY, Growing(project, MAX_DEPTH + 1));
    DepthCycles(project, MAX_DEPTH);
    HeadOfGrown(r, project, MAX_DEPTH + 1, MAX_DEPTH);
    HeadLoads(r, project);
    AnchoredPresent(r, r.heads[project]);
    LoadBoundIsTight(r.blobs.Keys, r.heads[project], MAX_DEPTH);
  }
}
