/** Memories through insert, governance, governed delete, purge and restore, and who can still read them
    (src/checkpoint.rs:626-957; src/db.rs:2223-2297, 2687-2781, 3345-3480, 7521-7545, 7815-7856). */
module Visibility {
  import opened Prelude
  import opened RestorePolicy

  datatype Memory = Memory(project: string, text: string)

  /** The tables a memory's visibility depends on.  `ledgered` holds the ids the audit ledger names;
      `highwater` is the persistent bound below which no id is issued again. */
  datatype Db = Db(
    memories: map<int, Memory>,
    meta: map<int, Meta>,
    policies: map<int, string>,
    ledgered: set<int>,
    highwater: int,
    snapshots: set<string>)

  const EMPTY := Db(map[], map[], map[], {}, 0, {})

  /** The rows of a checkpoint that concern memories, in stored order. */
  datatype Saved = Saved(
    project: string,
    memories: seq<(int, Memory)>,
    metas: seq<(int, Meta)>,
    policies: seq<(int, string)>)

  const DEFAULT_META := Meta("local", "derived", None, None, None, "project", "medium", "internal", None, None, 0, None, None)
  const RESTORED_AFTER_REMOVAL := "Historical memory restored after removal; review required"

  // ---- ids --------------------------------------------------------------------------------

  lemma {:induction false} HasLargest(ids: set<int>)
    requires ids != {}
    ensures exists i :: i in ids && forall j :: j in ids ==> j <= i
  {
    var i := Pick(ids);
    var rest := ids - {i};
    if rest == {} {
      assert ids == {i};
    } else {
      HasLargest(rest);
      var j :| j in rest && forall k :: k in rest ==> k <= j;
      var top := if i < j then j else i;
      forall k | k in ids ensures k <= top {
        assert k == i || k in rest;
      }
      assert top in ids;
    }
  }

  function Largest(ids: set<int>): (top: int)
    ensures forall i :: i in ids ==> i <= top
    ensures if ids == {} then top == 0 else top in ids
  {
    if ids == {} then 0
    else
      HasLargest(ids);
      var i :| i in ids && forall j :: j in ids ==> j <= i;
      i
  }

  /** Every id in use or once issued is at most this. */
  function Top(db: Db): int {
    Max(db.highwater, Max(Largest(db.memories.Keys), Largest(db.meta.Keys)))
  }

  // ---- operations on one memory -------------------------------------------------------------

  function Insert(db: Db, memory: Memory): Db {
    var id := Top(db) + 1;
    db.(highwater := id, memories := db.memories[id := memory], meta := db.meta[id := DEFAULT_META])
  }

  /** `apply_memory_governance`: an upsert that never touches the tombstone.  `accepted` says whether the
      request and its lineage pass validation. */
  function Govern(db: Db, id: int, meta: Meta, accepted: bool): Result<Db> {
    if id !in db.memories || !accepted then Err("rejected")
    else
      var kept := if id in db.meta then db.meta[id] else DEFAULT_META;
      var row := meta.(tombstonedAt := kept.tombstonedAt, tombstoneReason := kept.tombstoneReason);
      Ok(db.(meta := db.meta[id := row], ledgered := db.ledgered + {id}))
  }

  function EnsureMeta(db: Db, id: int): Db {
    if id in db.meta then db else db.(meta := db.meta[id := DEFAULT_META])
  }

  function SetPolicy(db: Db, id: int, policy: string): Result<Db> {
    if id !in db.meta then Err("no such memory") else Ok(db.(policies := db.policies[id := policy]))
  }

  function Tombstone(meta: Meta, now: int, reason: Option<string>): Meta {
    meta.(tombstonedAt := Some(now), tombstoneReason := reason)
  }

  /** The first of the three commits of a governed delete: an update that finds no row changes nothing. */
  function WriteTombstone(db: Db, id: int, now: int, reason: Option<string>): Db {
    if id in db.meta then db.(meta := db.meta[id := Tombstone(db.meta[id], now, reason)]) else db
  }

  /** `governed_delete_memory` left alone: tombstone, ledger entry, then the row itself, three commits after one
      look at the row and its hold.  The `memory_meta` row stays. */
  function Forget(db: Db, id: int, now: int, reason: Option<string>): Result<Db> {
    if id !in db.memories then Ok(db)
    else if id in db.meta && db.meta[id].legalHold != 0 then Err("under legal hold")
    else Ok(db.(
      meta := if id in db.meta then db.meta[id := Tombstone(db.meta[id], now, reason)] else db.meta,
      ledgered := db.ledgered + {id},
      memories := db.memories - {id}))
  }

  function Purge(db: Db, id: int): Db {
    db.(meta := db.meta - {id}, policies := db.policies - {id})
  }

  // ---- restore ------------------------------------------------------------------------------

  function Ids<V>(rows: seq<(int, V)>): set<int> {
    set i | 0 <= i < |rows| :: rows[i].0
  }

  predicate DistinctIds<V>(rows: seq<(int, V)>) {
    forall i, j | 0 <= i < j < |rows| :: rows[i].0 != rows[j].0
  }

  predicate ValidSaved(s: Saved) {
    && (forall i | 0 <= i < |s.memories| :: s.memories[i].1.project == s.project)
    && DistinctIds(s.memories)
    && Ids(s.metas) <= Ids(s.memories) && Ids(s.policies) <= Ids(s.memories)
  }

  function Live(db: Db, project: string): set<int> {
    set id | id in db.memories && db.memories[id].project == project
  }

  /** The governance row to write back for a saved one. */
  function PrepareMeta(db: Db, project: string, snapshot: string, now: int, id: int, row: Meta): Result<Meta> {
    if id in Live(db, project) && id in db.meta then MergeMeta(db.meta[id], row)
    else if id in db.ledgered || snapshot in db.snapshots then Ok(Tombstone(row, now, Some(RESTORED_AFTER_REMOVAL)))
    else Ok(row)
  }

  function PrepareMetas(db: Db, project: string, snapshot: string, now: int, rows: seq<(int, Meta)>): Result<seq<(int, Meta)>> {
    if rows == [] then Ok([])
    else match PrepareMetas(db, project, snapshot, now, rows[..|rows| - 1])
      case Err(e) => Err(e)
      case Ok(done) =>
        match PrepareMeta(db, project, snapshot, now, rows[|rows| - 1].0, rows[|rows| - 1].1)
        case Err(e) => Err(e)
        case Ok(row) => Ok(done + [(rows[|rows| - 1].0, row)])
  }

  /** Keyed insertion: a taken key fails the whole transaction. */
  function InsertAll<V>(table: map<int, V>, rows: seq<(int, V)>): Result<map<int, V>> {
    if rows == [] then Ok(table)
    else match InsertAll(table, rows[..|rows| - 1])
      case Err(e) => Err(e)
      case Ok(t) =>
        var row := rows[|rows| - 1];
        if row.0 in t then Err("unique constraint failed") else Ok(t[row.0 := row.1])
  }

  /** The live policy of every restored memory replaces the saved one. */
  function OverlayPolicies(rows: seq<(int, string)>, live: map<int, string>): seq<(int, string)> {
    seq(|rows|, i requires 0 <= i < |rows| => if rows[i].0 in live then (rows[i].0, live[rows[i].0]) else rows[i])
  }

  function LivePolicies(db: Db, s: Saved): map<int, string> {
    map id | id in db.policies && id in Live(db, s.project) && id in Ids(s.memories) :: db.policies[id]
  }

  function RestoredPolicies(db: Db, s: Saved, kept: map<int, string>): Result<map<int, string>> {
    var live := LivePolicies(db, s);
    match InsertAll(kept, OverlayPolicies(s.policies, live))
    case Err(e) => Err(e)
    case Ok(p) => Ok(p + (live - Ids(s.policies)))
  }

  predicate Foreign(db: Db, s: Saved) {
    exists id | id in Ids(s.memories) :: id in db.memories && db.memories[id].project != s.project
  }

  /** The project's rows go before the saved ones come back; rows of removed memories are not seen. */
  function Restore(db: Db, s: Saved, snapshot: string, now: int, dryRun: bool): Result<Db> {
    if !ValidSaved(s) then Err("invalid state")
    else match PrepareMetas(db, s.project, snapshot, now, s.metas)
      case Err(e) => Err(e)
      case Ok(metas) =>
        if Foreign(db, s) then Err("checkpoint identity collision")
        else if dryRun then Ok(db)
        else
          var gone := Live(db, s.project);
          match InsertAll(db.memories - gone, s.memories)
          case Err(e) => Err(e)
          case Ok(memories) =>
            match InsertAll(db.meta - gone, metas)
            case Err(e) => Err(e)
            case Ok(meta) =>
              match RestoredPolicies(db, s, db.policies - gone)
              case Err(e) => Err(e)
              case Ok(policies) =>
                if !(policies.Keys <= meta.Keys) then Err("foreign key constraint failed")
                else Ok(db.(memories := memories, meta := meta, policies := policies, highwater := Top(db)))
  }

  // ---- runs ---------------------------------------------------------------------------------

  datatype Op =
    | InsertOp(memory: Memory)
    | GovernOp(id: int, meta: Meta, accepted: bool)
    | EnsureMetaOp(id: int)
    | SetPolicyOp(id: int, policy: string)
    | ForgetOp(id: int, now: int, reason: Option<string>)
    | TombstoneOp(id: int, now: int, reason: Option<string>)
    | LedgerOp(id: int)
    | DeleteOp(id: int)
    | PurgeOp(id: int)
    | ListOp(snapshot: string)
    | UnlistOp(snapshot: string)
    | RestoreOp(saved: Saved, snapshot: string, now: int, dryRun: bool)

  function Attempt(db: Db, op: Op): Result<Db> {
    match op
    case InsertOp(memory) => Ok(Insert(db, memory))
    case GovernOp(id, meta, accepted) => Govern(db, id, meta, accepted)
    case EnsureMetaOp(id) => Ok(EnsureMeta(db, id))
    case SetPolicyOp(id, policy) => SetPolicy(db, id, policy)
    case ForgetOp(id, now, reason) => Forget(db, id, now, reason)
    case TombstoneOp(id, now, reason) => Ok(WriteTombstone(db, id, now, reason))
    case LedgerOp(id) => Ok(db.(ledgered := db.ledgered + {id}))
    case DeleteOp(id) => Ok(db.(memories := db.memories - {id}))
    case PurgeOp(id) => Ok(Purge(db, id))
    case ListOp(snapshot) => Ok(db.(snapshots := db.snapshots + {snapshot}))
    case UnlistOp(snapshot) => Ok(db.(snapshots := db.snapshots - {snapshot}))
    case RestoreOp(saved, snapshot, now, dryRun) => Restore(db, saved, snapshot, now, dryRun)
  }

  /** A failed operation rolls back. */
  function Step(db: Db, op: Op): Db {
    match Attempt(db, op)
    case Ok(q) => q
    case Err(_) => db
  }

  function Run(db: Db, ops: seq<Op>): Db
    decreases ops
  {
    if ops == [] then db else Run(Step(db, ops[0]), ops[1..])
  }

  // ---- what each operation does to the tables -------------------------------------------------

  /** The tables agree on every key but one. */
  ghost predicate SameBut<V>(a: map<int, V>, b: map<int, V>, id: int) {
    forall k :: k != id ==> (k in a <==> k in b) && (k in a ==> a[k] == b[k])
  }

  /** Nothing but memories and governance rows differs. */
  ghost predicate OnlyRows(db: Db, q: Db) {
    q.policies == db.policies && q.ledgered == db.ledgered && q.snapshots == db.snapshots
  }

  ghost predicate SameTombstone(a: Meta, b: Meta) {
    a.tombstonedAt == b.tombstonedAt && a.tombstoneReason == b.tombstoneReason
  }

  /** A new memory gets an id above every one in use or once issued, and the default governance row. */
  lemma InsertOutcome(db: Db, memory: Memory)
    ensures var q := Step(db, InsertOp(memory));
      && (forall id :: id in db.memories || id in db.meta ==> id < q.highwater) && db.highwater < q.highwater
      && (q.highwater - 1 in {db.highwater, 0} || q.highwater - 1 in db.memories || q.highwater - 1 in db.meta)
      && SameBut(db.memories, q.memories, q.highwater) && SameBut(db.meta, q.meta, q.highwater) && OnlyRows(db, q)
      && q.highwater in q.memories && q.memories[q.highwater] == memory
      && q.highwater in q.meta && q.meta[q.highwater] == DEFAULT_META
  {
    assert db.memories.Keys == {} || Largest(db.memories.Keys) in db.memories;
    assert db.meta.Keys == {} || Largest(db.meta.Keys) in db.meta;
  }

  /** Governance takes every field as given except the tombstone, which only a governed delete writes; it is refused for
      a memory that is not there. */
  lemma GovernOutcome(db: Db, id: int, meta: Meta, accepted: bool)
    ensures Attempt(db, GovernOp(id, meta, accepted)).Ok? <==> id in db.memories && accepted
    ensures id !in db.memories || !accepted ==> Step(db, GovernOp(id, meta, accepted)) == db
    ensures id in db.memories && accepted ==>
      var q := Step(db, GovernOp(id, meta, accepted));
      && q.memories == db.memories && q.highwater == db.highwater && q.policies == db.policies && q.snapshots == db.snapshots
      && (forall k :: k in q.ledgered <==> k in db.ledgered || k == id)
      && SameBut(db.meta, q.meta, id) && id in q.meta
      && q.meta[id] == meta.(tombstonedAt := q.meta[id].tombstonedAt, tombstoneReason := q.meta[id].tombstoneReason)
      && (if id in db.meta then SameTombstone(q.meta[id], db.meta[id]) else SameTombstone(q.meta[id], DEFAULT_META))
  {
  }

  /** A missing governance row is added with the defaults; one that is there stays. */
  lemma EnsureOutcome(db: Db, id: int)
    ensures var q := Step(db, EnsureMetaOp(id));
      && q.memories == db.memories && q.highwater == db.highwater && OnlyRows(db, q) && SameBut(db.meta, q.meta, id)
      && id in q.meta && q.meta[id] == if id in db.meta then db.meta[id] else DEFAULT_META
  {
  }

  lemma PolicyOutcome(db: Db, id: int, policy: string)
    ensures Attempt(db, SetPolicyOp(id, policy)).Ok? <==> id in db.meta
    ensures var q := Step(db, SetPolicyOp(id, policy));
      && q.(policies := db.policies) == db
      && (id in db.meta ==> id in q.policies && q.policies[id] == policy && SameBut(db.policies, q.policies, id))
      && (id !in db.meta ==> q.policies == db.policies)
  {
  }

  /** A governed delete is refused exactly under a hold.  Else the memory is gone, the ledger names it, its governance
      row stays with nothing but the tombstone new, and no other memory is touched. */
  lemma ForgetOutcome(db: Db, id: int, now: int, reason: Option<string>)
    ensures Forget(db, id, now, reason).Ok? <==> id !in db.memories || id !in db.meta || db.meta[id].legalHold == 0
    ensures id !in db.memories || Forget(db, id, now, reason).Err? ==> Step(db, ForgetOp(id, now, reason)) == db
    ensures id in db.memories && Forget(db, id, now, reason).Ok? ==>
      var q := Step(db, ForgetOp(id, now, reason));
      && q.highwater == db.highwater && q.policies == db.policies && q.snapshots == db.snapshots
      && (forall k :: k in q.ledgered <==> k in db.ledgered || k == id)
      && SameBut(db.memories, q.memories, id) && id !in q.memories
      && SameBut(db.meta, q.meta, id) && (id in q.meta <==> id in db.meta)
      && (id in db.meta ==>
            && q.meta[id].tombstonedAt == Some(now) && q.meta[id].tombstoneReason == reason
            && q.meta[id] == db.meta[id].(tombstonedAt := Some(now), tombstoneReason := reason))
  {
  }

  /** A purge takes the governance row and the influence policy, and leaves the memory itself and the ledger. */
  lemma PurgeOutcome(db: Db, id: int)
    ensures var q := Step(db, PurgeOp(id));
      && q.(meta := db.meta, policies := db.policies) == db
      && SameBut(db.meta, q.meta, id) && SameBut(db.policies, q.policies, id) && id !in q.meta && id !in q.policies
  {
  }

  /** Snapshots come and go without touching any memory. */
  lemma ListOutcome(db: Db, snapshot: string)
    ensures var q, r := Step(db, ListOp(snapshot)), Step(db, UnlistOp(snapshot));
      && q.(snapshots := db.snapshots) == db && r.(snapshots := db.snapshots) == db
      && forall k :: (k in q.snapshots <==> k in db.snapshots || k == snapshot)
                  && (k in r.snapshots <==> k in db.snapshots && k != snapshot)
  {
  }

  // ---- what restore does to one id ------------------------------------------------------------

  lemma IdsSnoc<V>(rows: seq<(int, V)>)
    requires rows != []
    ensures Ids(rows) == Ids(rows[..|rows| - 1]) + {rows[|rows| - 1].0}
    ensures DistinctIds(rows) <==> DistinctIds(rows[..|rows| - 1]) && rows[|rows| - 1].0 !in Ids(rows[..|rows| - 1])
  {
    var init, last := rows[..|rows| - 1], rows[|rows| - 1];
    forall k ensures k in Ids(rows) <==> k in Ids(init) + {last.0} {
      if k in Ids(init) {
        var i :| 0 <= i < |init| && init[i].0 == k;
        assert rows[i].0 == k;
      }
      assert rows[|rows| - 1].0 == last.0;
    }
    if DistinctIds(init) && last.0 !in Ids(init) {
      forall i, j | 0 <= i < j < |rows| ensures rows[i].0 != rows[j].0 {
        assert init[i] == rows[i];
        assert init[i].0 in Ids(init);
      }
    }
    if DistinctIds(rows) {
      forall i | 0 <= i < |init| ensures init[i].0 != last.0 {
        assert rows[i].0 != rows[|rows| - 1].0;
      }
    }
  }

  /** Keyed insertion succeeds exactly on new, distinct keys, and then adds just those rows. */
  lemma {:induction false} InsertAllAdds<V>(table: map<int, V>, rows: seq<(int, V)>)
    ensures InsertAll(table, rows).Ok? <==> DistinctIds(rows) && table.Keys !! Ids(rows)
    ensures InsertAll(table, rows).Ok? ==>
      && InsertAll(table, rows).value.Keys == table.Keys + Ids(rows)
      && (forall k :: k in table ==> InsertAll(table, rows).value[k] == table[k])
      && (forall i :: 0 <= i < |rows| ==> InsertAll(table, rows).value[rows[i].0] == rows[i].1)
  {
    if rows != [] {
      var init := rows[..|rows| - 1];
      InsertAllAdds(table, init);
      IdsSnoc(rows);
      forall i | 0 <= i < |init| ensures rows[i].0 in Ids(init) && rows[i] == init[i] {
        assert init[i].0 == rows[i].0;
      }
    }
  }

  lemma {:induction false} PreparedRows(db: Db, project: string, snapshot: string, now: int, rows: seq<(int, Meta)>)
    requires PrepareMetas(db, project, snapshot, now, rows).Ok?
    ensures var done := PrepareMetas(db, project, snapshot, now, rows).value;
            && |done| == |rows|
            && forall i :: 0 <= i < |rows| ==>
                 done[i].0 == rows[i].0 && PrepareMeta(db, project, snapshot, now, rows[i].0, rows[i].1) == Ok(done[i].1)
  {
    if rows != [] {
      PreparedRows(db, project, snapshot, now, rows[..|rows| - 1]);
    }
  }

  /** A committed restore is two keyed insertions into what is left of the tables. */
  lemma {:induction false} RestoreParts(db: Db, s: Saved, snapshot: string, now: int, q: Db)
    requires Restore(db, s, snapshot, now, false) == Ok(q)
    ensures ValidSaved(s) && !Foreign(db, s) && PrepareMetas(db, s.project, snapshot, now, s.metas).Ok?
    ensures InsertAll(db.memories - Live(db, s.project), s.memories) == Ok(q.memories)
    ensures InsertAll(db.meta - Live(db, s.project), PrepareMetas(db, s.project, snapshot, now, s.metas).value) == Ok(q.meta)
    ensures q.highwater == Top(db) && q.ledgered == db.ledgered
    ensures RestoredPolicies(db, s, db.policies - Live(db, s.project)) == Ok(q.policies)
  {
  }

  lemma SameIds(a: seq<(int, Meta)>, b: seq<(int, Meta)>)
    requires |a| == |b| && forall i :: 0 <= i < |a| ==> a[i].0 == b[i].0
    ensures Ids(a) == Ids(b)
  {
    forall k ensures k in Ids(a) <==> k in Ids(b) {
      if k in Ids(a) {
        var i :| 0 <= i < |a| && a[i].0 == k;
        assert b[i].0 == k;
      }
    }
  }

  lemma {:induction false} PrepareSucceedsIff(db: Db, project: string, snapshot: string, now: int, rows: seq<(int, Meta)>)
    ensures PrepareMetas(db, project, snapshot, now, rows).Ok? <==>
      forall i :: 0 <= i < |rows| ==>
        (rows[i].0 in Live(db, project) && rows[i].0 in db.meta ==> Mergeable(db.meta[rows[i].0], rows[i].1))
  {
    hide Mergeable;
    if rows != [] {
      var init, last := rows[..|rows| - 1], rows[|rows| - 1];
      PrepareSucceedsIff(db, project, snapshot, now, init);
      assert PrepareMeta(db, project, snapshot, now, last.0, last.1).Ok? <==>
        (last.0 in Live(db, project) && last.0 in db.meta ==> Mergeable(db.meta[last.0], last.1));
      forall i | 0 <= i < |init| ensures rows[i] == init[i] {
      }
    }
  }

  lemma OverlayKeepsIds(rows: seq<(int, string)>, live: map<int, string>)
    ensures Ids(OverlayPolicies(rows, live)) == Ids(rows)
    ensures DistinctIds(OverlayPolicies(rows, live)) <==> DistinctIds(rows)
  {
    var out := OverlayPolicies(rows, live);
    assert forall i :: 0 <= i < |rows| ==> out[i].0 == rows[i].0;
    forall k ensures k in Ids(out) <==> k in Ids(rows) {
      if k in Ids(rows) {
        var i :| 0 <= i < |rows| && rows[i].0 == k;
        assert out[i].0 == k;
      }
    }
    if DistinctIds(out) {
      forall i, j | 0 <= i < j < |rows| ensures rows[i].0 != rows[j].0 {
        assert out[i].0 != out[j].0;
      }
    }
  }

  /** Restored policies and the rows they belong to after a restore. */
  ghost predicate PoliciesFit(db: Db, s: Saved) {
    var gone := Live(db, s.project);
    && DistinctIds(s.policies) && (db.policies - gone).Keys !! Ids(s.policies)
    && (db.policies - gone).Keys + Ids(s.policies) + LivePolicies(db, s).Keys <= (db.meta - gone).Keys + Ids(s.metas)
  }

  /** What a restore asks of the tables: its governance rows merge, no memory belongs to another project, and no
      governance row repeats an id or meets the leftover row of a removed memory. */
  ghost predicate Commits(db: Db, s: Saved) {
    && ValidSaved(s) && !Foreign(db, s)
    && (forall i :: 0 <= i < |s.metas| ==>
          (s.metas[i].0 in Live(db, s.project) && s.metas[i].0 in db.meta ==> Mergeable(db.meta[s.metas[i].0], s.metas[i].1)))
    && DistinctIds(s.metas) && (db.meta - Live(db, s.project)).Keys !! Ids(s.metas)
    && PoliciesFit(db, s)
  }

  /** A restore commits exactly then; the memory rows never collide. */
  lemma RestoreSucceedsIff(db: Db, s: Saved, snapshot: string, now: int)
    ensures Restore(db, s, snapshot, now, false).Ok? <==> Commits(db, s)
  {
    hide Mergeable, InsertAll, PrepareMetas, PrepareMeta;
    PrepareSucceedsIff(db, s.project, snapshot, now, s.metas);
    if ValidSaved(s) && !Foreign(db, s) && PrepareMetas(db, s.project, snapshot, now, s.metas).Ok? {
      var gone := Live(db, s.project);
      var metas := PrepareMetas(db, s.project, snapshot, now, s.metas).value;
      PreparedRows(db, s.project, snapshot, now, s.metas);
      SameIds(metas, s.metas);
      assert DistinctIds(metas) <==> DistinctIds(s.metas) by {
        assert forall i :: 0 <= i < |metas| ==> metas[i].0 == s.metas[i].0;
      }
      assert (db.memories - gone).Keys !! Ids(s.memories) by {
        forall k | k in (db.memories - gone).Keys ensures k !in Ids(s.memories) {
          assert db.memories[k].project != s.project;
        }
      }
      InsertAllAdds(db.memories - gone, s.memories);
      InsertAllAdds(db.meta - gone, metas);
      var live := LivePolicies(db, s);
      OverlayKeepsIds(s.policies, live);
      InsertAllAdds(db.policies - gone, OverlayPolicies(s.policies, live));
    }
  }

  ghost predicate PreparedFrom(db: Db, s: Saved, snapshot: string, now: int, id: int, i: nat, row: Meta) {
    i < |s.metas| && s.metas[i].0 == id && PrepareMeta(db, s.project, snapshot, now, id, s.metas[i].1) == Ok(row)
  }

  /** After a committed restore: which rows are there, and where the governance row of a memory comes from. */
  lemma RestoredMeta(db: Db, s: Saved, snapshot: string, now: int, q: Db, id: int)
    requires Restore(db, s, snapshot, now, false) == Ok(q)
    ensures q.memories.Keys == db.memories.Keys - Live(db, s.project) + Ids(s.memories)
    ensures q.meta.Keys == db.meta.Keys - Live(db, s.project) + Ids(s.metas)
    ensures id in db.meta && id !in Live(db, s.project) ==> q.meta[id] == db.meta[id]
    ensures id in Ids(s.metas) ==> exists i :: PreparedFrom(db, s, snapshot, now, id, i, q.meta[id])
  {
    hide Restore, PrepareMetas, InsertAll, PrepareMeta, RestoredPolicies, Top;
    RestoreParts(db, s, snapshot, now, q);
    var metas := PrepareMetas(db, s.project, snapshot, now, s.metas).value;
    PreparedRows(db, s.project, snapshot, now, s.metas);
    SameIds(metas, s.metas);
    InsertAllAdds(db.memories - Live(db, s.project), s.memories);
    InsertAllAdds(db.meta - Live(db, s.project), metas);
    if id in Ids(s.metas) {
      var i :| 0 <= i < |s.metas| && s.metas[i].0 == id;
      assert metas[i].0 == id && q.meta[metas[i].0] == metas[i].1;
      assert PreparedFrom(db, s, snapshot, now, id, i, q.meta[id]);
    }
  }

  /** The governance row of a memory without a live one comes back as saved; if the ledger or the list of snapshots
      knows it, only its tombstone is new. */
  lemma RestoredAsSaved(db: Db, s: Saved, snapshot: string, now: int, q: Db, i: nat)
    requires Restore(db, s, snapshot, now, false) == Ok(q) && i < |s.metas|
    requires !(s.metas[i].0 in Live(db, s.project) && s.metas[i].0 in db.meta)
    ensures var (id, row) := s.metas[i];
            && id in q.meta
            && if id in db.ledgered || snapshot in db.snapshots
               then && q.meta[id] == row.(tombstonedAt := q.meta[id].tombstonedAt, tombstoneReason := q.meta[id].tombstoneReason)
                    && q.meta[id].tombstonedAt == Some(now) && q.meta[id].tombstoneReason == Some(RESTORED_AFTER_REMOVAL)
               else q.meta[id] == row
  {
    hide MergeMeta, PrepareMetas, InsertAll, Restore, RestoredPolicies, PoliciesFit, Top, Foreign;
    var id := s.metas[i].0;
    RestoreSucceedsIff(db, s, snapshot, now);
    RestoredMeta(db, s, snapshot, now, q, id);
    assert id in Ids(s.metas);
    var j: nat :| PreparedFrom(db, s, snapshot, now, id, j, q.meta[id]);
    OneRowEach(s.metas, i);
  }

  /** The governance row of a live memory is merged with its live one. */
  lemma RestoredMerged(db: Db, s: Saved, snapshot: string, now: int, q: Db, i: nat)
    requires Restore(db, s, snapshot, now, false) == Ok(q) && i < |s.metas|
    requires s.metas[i].0 in Live(db, s.project) && s.metas[i].0 in db.meta
    ensures var (id, row) := s.metas[i]; id in q.meta && MergeMeta(db.meta[id], row) == Ok(q.meta[id])
  {
    hide MergeMeta, PrepareMetas, InsertAll, Restore, RestoredPolicies, PoliciesFit, Top, Foreign;
    var id := s.metas[i].0;
    RestoreSucceedsIff(db, s, snapshot, now);
    RestoredMeta(db, s, snapshot, now, q, id);
    assert id in Ids(s.metas);
    var j: nat :| PreparedFrom(db, s, snapshot, now, id, j, q.meta[id]);
    OneRowEach(s.metas, i);
  }

  /** The memories of the project are the saved ones, all others stay, and so do the ledger and the snapshot list; the
      high-water mark rises to the largest id that was in use. */
  lemma RestoredMemories(db: Db, s: Saved, snapshot: string, now: int, q: Db)
    requires Restore(db, s, snapshot, now, false) == Ok(q)
    ensures forall i :: 0 <= i < |s.memories| ==> s.memories[i].0 in q.memories && q.memories[s.memories[i].0] == s.memories[i].1
    ensures forall id :: id in db.memories && db.memories[id].project != s.project ==> id in q.memories && q.memories[id] == db.memories[id]
    ensures forall id :: id in q.memories ==> id in Ids(s.memories) || (id in db.memories && db.memories[id].project != s.project)
    ensures q.ledgered == db.ledgered && q.snapshots == db.snapshots
    ensures db.highwater <= q.highwater && forall id :: id in db.memories || id in db.meta ==> id <= q.highwater
    ensures q.highwater in {db.highwater, 0} || q.highwater in db.memories || q.highwater in db.meta
  {
    hide PrepareMetas, RestoredPolicies, PrepareMeta, Foreign;
    RestoreParts(db, s, snapshot, now, q);
    InsertAllAdds(db.memories - Live(db, s.project), s.memories);
    assert db.memories.Keys == {} || Largest(db.memories.Keys) in db.memories;
    assert db.meta.Keys == {} || Largest(db.meta.Keys) in db.meta;
  }

  /** Influence policies after a restore: the live one of a memory that was live and comes back, else the saved one;
      of other memories those that were there. */
  lemma RestoredInfluence(db: Db, s: Saved, snapshot: string, now: int, q: Db, id: int)
    requires Restore(db, s, snapshot, now, false) == Ok(q)
    ensures id in q.policies <==>
      (id in db.policies && (id !in Live(db, s.project) || id in Ids(s.memories))) || id in Ids(s.policies)
    ensures id in db.policies && (id !in Live(db, s.project) || id in Ids(s.memories)) ==> q.policies[id] == db.policies[id]
    ensures forall i :: 0 <= i < |s.policies| && s.policies[i].0 == id && id !in db.policies ==> q.policies[id] == s.policies[i].1
  {
    hide PrepareMetas, Top, Foreign, PrepareMeta;
    RestoreParts(db, s, snapshot, now, q);
    var kept, live := db.policies - Live(db, s.project), LivePolicies(db, s);
    var rows := OverlayPolicies(s.policies, live);
    InsertAllAdds(kept, rows);
    OverlayKeepsIds(s.policies, live);
    if id in live {
      LivePolicyWins(db, s, kept, id);
    }
    forall i | 0 <= i < |s.policies| && s.policies[i].0 == id && id !in db.policies ensures q.policies[id] == s.policies[i].1 {
      assert rows[i] == s.policies[i];
      assert id in Ids(s.policies);
    }
  }

  /** The checkpoint brings a governance row of `id` that takes up the hold of `live`. */
  ghost predicate Carries(s: Saved, id: int, live: Meta) {
    exists i: nat :: i < |s.metas| && s.metas[i].0 == id && HoldCarries(live, s.metas[i].1)
  }

  /** What a restore leaves of the policy of a live memory.  The row is gone if the checkpoint brings none; what it
      brings keeps every term, and the policy as a whole is no looser exactly when its hold is taken up as well. */
  lemma RestoreNeverLoosens(db: Db, s: Saved, snapshot: string, now: int, q: Db, id: int)
    requires Restore(db, s, snapshot, now, false) == Ok(q)
    requires id in Live(db, s.project) && id in db.meta
    ensures id in q.meta <==> id in Ids(s.metas)
    ensures id in q.meta ==> TermsKept(db.meta[id], q.meta[id])
    ensures id in q.meta && NoLooser(db.meta[id], q.meta[id]) <==> Carries(s, id, db.meta[id])
    ensures id in db.policies && id in Ids(s.memories) ==> id in q.policies && q.policies[id] == db.policies[id]
  {
    hide TermsKept, MergeMeta, Restore, InsertAll, PrepareMetas, RestoredPolicies, Top, Foreign, PoliciesFit, HoldCarries;
    RestoreParts(db, s, snapshot, now, q);
    RestoredMeta(db, s, snapshot, now, q, id);
    RestoreSucceedsIff(db, s, snapshot, now);
    if id in Ids(s.metas) {
      var i: nat :| PreparedFrom(db, s, snapshot, now, id, i, q.meta[id]);
      MergeIsStricter(db.meta[id], s.metas[i].1, q.meta[id]);
      OneRowEach(s.metas, i);
    }
    if id in db.policies && id in Ids(s.memories) {
      LivePolicyWins(db, s, db.policies - Live(db, s.project), id);
    }
  }

  lemma OneRowEach<V>(rows: seq<(int, V)>, i: nat)
    requires DistinctIds(rows) && i < |rows|
    ensures forall j: nat :: j < |rows| && rows[j].0 == rows[i].0 ==> j == i
  {
  }

  lemma LivePolicyWins(db: Db, s: Saved, kept: map<int, string>, id: int)
    requires RestoredPolicies(db, s, kept).Ok? && id in LivePolicies(db, s)
    ensures id in RestoredPolicies(db, s, kept).value && RestoredPolicies(db, s, kept).value[id] == db.policies[id]
  {
    var live := LivePolicies(db, s);
    var rows := OverlayPolicies(s.policies, live);
    InsertAllAdds(kept, rows);
    if id in Ids(s.policies) {
      var i :| 0 <= i < |s.policies| && s.policies[i].0 == id;
      assert rows[i] == (id, live[id]);
    } else {
      assert id in live - Ids(s.policies);
    }
  }

  // ---- forgotten stays forgotten --------------------------------------------------------------

  predicate Visible(db: Db, id: int) {
    id in db.memories && (id in db.meta ==> db.meta[id].tombstonedAt.None?)
  }

  predicate Tombstoned(db: Db, id: int) {
    id in db.meta && db.meta[id].tombstonedAt.Some?
  }

  /** The id is never issued again, and a row under it carries a tombstone. */
  predicate Sealed(db: Db, id: int) {
    && (id <= db.highwater || id in db.meta)
    && (id in db.memories ==> Tombstoned(db, id))
  }

  /** Sealed for good: the ledger names the id too. */
  predicate Forgotten(db: Db, id: int) {
    Sealed(db, id) && id in db.ledgered
  }

  predicate BringsUntombstoned(s: Saved, id: int) {
    exists i | 0 <= i < |s.metas| :: s.metas[i].0 == id && s.metas[i].1.tombstonedAt.None?
  }

  /** The ways back: a restored row that comes without a governance row and finds no tombstone left; a restored
      row of a removed memory that neither the ledger nor the list of snapshots knows; and a purge that removes the
      tombstone of a present row or the last trace of an id above the high-water mark. */
  ghost predicate Exposes(db: Db, op: Op, id: int) {
    match op
    case RestoreOp(s, snapshot, _, dryRun) =>
      && !dryRun && Commits(db, s) && id in Ids(s.memories)
      && if id in Ids(s.metas) then id !in db.memories && id !in db.ledgered && snapshot !in db.snapshots && BringsUntombstoned(s, id)
         else id in db.memories || !Tombstoned(db, id)
    case PurgeOp(purged) => purged == id && (id in db.memories || id > db.highwater)
    case _ => false
  }

  lemma RestoreSealed(db: Db, s: Saved, snapshot: string, now: int, q: Db, id: int)
    requires Sealed(db, id) && Restore(db, s, snapshot, now, false) == Ok(q)
    ensures Sealed(q, id) <==> !Exposes(db, RestoreOp(s, snapshot, now, false), id)
  {
    hide MergeMeta, PrepareMetas, InsertAll, Restore, RestoredPolicies, PoliciesFit, TermsKept, HoldCarries;
    RestoreParts(db, s, snapshot, now, q);
    RestoredMeta(db, s, snapshot, now, q, id);
    RestoreSucceedsIff(db, s, snapshot, now);
    if id in Ids(s.metas) {
      var i: nat :| PreparedFrom(db, s, snapshot, now, id, i, q.meta[id]);
      OneRowEach(s.metas, i);
      if id in Live(db, s.project) {
        MergeIsStricter(db.meta[id], s.metas[i].1, q.meta[id]);
      }
    }
  }

  /** Exactly the exposing steps break the seal of a governed delete. */
  lemma StepSealed(db: Db, op: Op, id: int)
    requires Sealed(db, id)
    ensures Sealed(Step(db, op), id) <==> !Exposes(db, op, id)
  {
    hide Restore, Commits;
    if op.RestoreOp? {
      if op.dryRun {
        DryRunChangesNothing(db, op.saved, op.snapshot, op.now);
      } else {
        RestoreSucceedsIff(db, op.saved, op.snapshot, op.now);
        if Attempt(db, op).Ok? {
          RestoreSealed(db, op.saved, op.snapshot, op.now, Attempt(db, op).value, id);
        }
      }
    }
  }

  lemma LedgerOnlyGrows(db: Db, op: Op)
    ensures db.ledgered <= Step(db, op).ledgered
    ensures op.LedgerOp? ==> op.id in Step(db, op).ledgered
  {
    hide PrepareMetas, InsertAll, RestoredPolicies, ValidSaved, Foreign, Top;
  }

  /** Exactly the exposing steps undo a governed delete. */
  lemma StepForgotten(db: Db, op: Op, id: int)
    requires Forgotten(db, id)
    ensures Forgotten(Step(db, op), id) <==> !Exposes(db, op, id)
  {
    hide Step, Sealed, Exposes;
    StepSealed(db, op, id);
    LedgerOnlyGrows(db, op);
  }

  /** A dry run changes nothing.  It says yes when the saved rows are valid, merge and meet no foreign memory, but does
      not try the insertions. */
  lemma DryRunChangesNothing(db: Db, s: Saved, snapshot: string, now: int)
    ensures Restore(db, s, snapshot, now, true).Ok? ==> Restore(db, s, snapshot, now, true) == Ok(db)
    ensures Restore(db, s, snapshot, now, true).Ok? <==>
      && ValidSaved(s) && !Foreign(db, s)
      && forall i :: 0 <= i < |s.metas| ==>
           (s.metas[i].0 in Live(db, s.project) && s.metas[i].0 in db.meta ==> Mergeable(db.meta[s.metas[i].0], s.metas[i].1))
  {
    hide Mergeable, PrepareMeta, PrepareMetas, Foreign;
    PrepareSucceedsIff(db, s.project, snapshot, now, s.metas);
  }

  ghost predicate NeverExposes(db: Db, ops: seq<Op>, id: int)
    decreases ops
  {
    ops == [] || (!Exposes(db, ops[0], id) && NeverExposes(Step(db, ops[0]), ops[1..], id))
  }

  lemma {:induction false} RunSealed(db: Db, ops: seq<Op>, id: int)
    requires Sealed(db, id) && NeverExposes(db, ops, id)
    ensures Sealed(Run(db, ops), id) && !Visible(Run(db, ops), id)
    ensures db.ledgered <= Run(db, ops).ledgered
    ensures LedgerOp(id) in ops ==> id in Run(db, ops).ledgered
    decreases ops
  {
    hide Step, Exposes;
    if ops != [] {
      StepSealed(db, ops[0], id);
      LedgerOnlyGrows(db, ops[0]);
      assert ops == [ops[0]] + ops[1..];
      RunSealed(Step(db, ops[0]), ops[1..], id);
    }
  }

  lemma {:induction false} RunForgotten(db: Db, ops: seq<Op>, id: int)
    requires Forgotten(db, id) && NeverExposes(db, ops, id)
    ensures Forgotten(Run(db, ops), id) && !Visible(Run(db, ops), id)
  {
    hide Sealed, NeverExposes, Visible, Run;
    RunSealed(db, ops, id);
  }

  lemma {:induction false} RunTwo(db: Db, a: Op, b: Op)
    ensures Run(db, [a, b]) == Step(Step(db, a), b)
  {
    hide Step;
    assert [a, b][1..] == [b];
    assert Run(Step(db, a), [b]) == Run(Step(Step(db, a), b), []);
  }

  lemma {:induction false} RunThree(db: Db, a: Op, b: Op, c: Op)
    ensures Run(db, [a, b, c]) == Step(Step(Step(db, a), b), c)
  {
    hide Step;
    assert [a, b, c][1..] == [b, c];
    RunTwo(Step(db, a), b, c);
  }

  /** Left alone, the three commits are one governed delete. */
  lemma {:induction false} ForgetInSteps(db: Db, id: int, now: int, reason: Option<string>)
    requires id in db.memories && Forget(db, id, now, reason).Ok?
    ensures Run(db, [TombstoneOp(id, now, reason), LedgerOp(id), DeleteOp(id)]) == Forget(db, id, now, reason).value
  {
    RunThree(db, TombstoneOp(id, now, reason), LedgerOp(id), DeleteOp(id));
  }

  /** Interrupted anywhere, a governed delete hides its memory from the first commit on: whatever runs between and
      after the other two, as long as nothing of it exposes the id, and the ledger entry makes that final. */
  lemma {:induction false} InterruptedForget(db: Db, id: int, now: int, reason: Option<string>, later: seq<Op>)
    requires id in db.meta && NeverExposes(Step(db, TombstoneOp(id, now, reason)), later, id)
    ensures var q := Run(Step(db, TombstoneOp(id, now, reason)), later);
            && !Visible(q, id) && Sealed(q, id)
            && (LedgerOp(id) in later ==> Forgotten(q, id))
  {
    RunSealed(Step(db, TombstoneOp(id, now, reason)), later, id);
  }

  /** The hold is looked at once, before the first commit: one placed after that would refuse the delete, and does
      not stop it. */
  lemma HoldAfterLook(db: Db, id: int, held: Meta, now: int, reason: Option<string>)
    requires id in db.memories && Forget(db, id, now, reason).Ok? && Held(held)
    ensures var q := Step(db, GovernOp(id, held, true));
            && Forget(q, id, now, reason).Err?
            && id !in Run(q, [TombstoneOp(id, now, reason), LedgerOp(id), DeleteOp(id)]).memories
  {
    RunThree(Step(db, GovernOp(id, held, true)), TombstoneOp(id, now, reason), LedgerOp(id), DeleteOp(id));
  }

  /** Without a governance row the first commit hides nothing: the memory is visible until its row goes. */
  lemma {:induction false} TombstoneNeedsRow(db: Db, id: int, now: int, reason: Option<string>)
    requires Visible(db, id)
    ensures Visible(Run(db, [TombstoneOp(id, now, reason), LedgerOp(id)]), id) <==> id !in db.meta
  {
    RunTwo(db, TombstoneOp(id, now, reason), LedgerOp(id));
  }

  /** A governed delete forgets every id the database issued itself, or still has a governance row for. */
  lemma ForgetForgets(db: Db, id: int, now: int, reason: Option<string>)
    requires id in db.memories && Forget(db, id, now, reason).Ok?
    ensures Forgotten(Forget(db, id, now, reason).value, id) <==> id <= db.highwater || id in db.meta
  {
  }

  lemma {:induction false} HighwaterOnlyRises(db: Db, ops: seq<Op>)
    ensures db.highwater <= Run(db, ops).highwater
    decreases ops
  {
    if ops != [] {
      HighwaterOnlyRises(Step(db, ops[0]), ops[1..]);
    }
  }

  /** Every saved row of `id` comes with its governance row, and `id` is not purged again. */
  predicate Covers(op: Op, id: int) {
    match op
    case RestoreOp(s, _, _, _) => id in Ids(s.memories) ==> id in Ids(s.metas)
    case PurgeOp(purged) => purged != id
    case _ => true
  }

  lemma {:induction false} CoveredNeverExposes(db: Db, ops: seq<Op>, id: int)
    requires id in db.ledgered
    requires forall i :: 0 <= i < |ops| ==> Covers(ops[i], id)
    ensures NeverExposes(db, ops, id)
    decreases ops
  {
    if ops != [] {
      assert Covers(ops[0], id);
      LedgerOnlyGrows(db, ops[0]);
      CoveredNeverExposes(Step(db, ops[0]), ops[1..], id);
    }
  }

  /** A memory inserted at any point, forgotten at any later point and purged, stays invisible through
      every run of inserts, governance, deletes, purges, snapshots, restores and imports. */
  lemma {:induction false} ForgottenForever(before: seq<Op>, memory: Memory, between: seq<Op>, now: int, reason: Option<string>, later: seq<Op>)
    requires var id := Top(Run(EMPTY, before)) + 1;
             var db := Run(Insert(Run(EMPTY, before), memory), between);
             && id in db.memories && Forget(db, id, now, reason).Ok?
             && forall i :: 0 <= i < |later| ==> Covers(later[i], id)
    ensures var id := Top(Run(EMPTY, before)) + 1;
            var gone := Forget(Run(Insert(Run(EMPTY, before), memory), between), id, now, reason).value;
            !Visible(Run(gone, later), id) && !Visible(Run(Purge(gone, id), later), id)
  {
    hide Step, Forget;
    var first := Insert(Run(EMPTY, before), memory);
    var id := first.highwater;
    var db := Run(first, between);
    HighwaterOnlyRises(first, between);
    ForgetForgets(db, id, now, reason);
    var gone := Forget(db, id, now, reason).value;
    assert gone.highwater == db.highwater && id !in gone.memories by {
      RemovesRow(db, id, now, reason);
    }
    assert Forgotten(Purge(gone, id), id);
    CoveredNeverExposes(gone, later, id);
    CoveredNeverExposes(Purge(gone, id), later, id);
    RunForgotten(gone, later, id);
    RunForgotten(Purge(gone, id), later, id);
  }

  lemma RemovesRow(db: Db, id: int, now: int, reason: Option<string>)
    requires Forget(db, id, now, reason).Ok?
    ensures var q := Forget(db, id, now, reason).value; q.highwater == db.highwater && id !in q.memories
  {
  }

  // ---- policy through runs --------------------------------------------------------------------

  /** Every governance row the checkpoint brings for `id` records its hold as 0 or 1, and there is one. */
  predicate BringsGoverned(s: Saved, id: int) {
    && id in Ids(s.metas)
    && forall i | 0 <= i < |s.metas| :: s.metas[i].0 == id ==> s.metas[i].1.legalHold in {0, 1}
  }

  /** What may happen to a governed memory of a project without its policy being rewritten by hand: restores of its
      project that bring it back with a governance row, restores of other projects, and anything done to other ids. */
  predicate LeavesPolicy(op: Op, id: int, project: string) {
    match op
    case RestoreOp(s, _, _, dryRun) => dryRun || s.project != project || BringsGoverned(s, id)
    case GovernOp(i, _, _) => i != id
    case ForgetOp(i, _, _) => i != id
    case TombstoneOp(i, _, _) => i != id
    case DeleteOp(i) => i != id
    case PurgeOp(i) => i != id
    case _ => true
  }

  predicate GovernedIn(db: Db, id: int, project: string) {
    && id in db.memories && db.memories[id].project == project
    && id in db.meta && db.meta[id].legalHold in {0, 1}
  }

  lemma RestoreOfOther(db: Db, s: Saved, snapshot: string, now: int, q: Db, id: int)
    requires Restore(db, s, snapshot, now, false) == Ok(q)
    requires id in db.memories && id in db.meta && db.memories[id].project != s.project
    ensures id in q.memories && q.memories[id] == db.memories[id]
    ensures id in q.meta && q.meta[id] == db.meta[id]
  {
    hide Restore, PrepareMetas, RestoredPolicies, PrepareMeta, Top;
    RestoreParts(db, s, snapshot, now, q);
    RestoredMeta(db, s, snapshot, now, q, id);
    InsertAllAdds(db.memories - Live(db, s.project), s.memories);
  }

  lemma RestoreOfOwn(db: Db, s: Saved, snapshot: string, now: int, q: Db, id: int)
    requires Restore(db, s, snapshot, now, false) == Ok(q)
    requires GovernedIn(db, id, s.project) && BringsGoverned(s, id)
    ensures GovernedIn(q, id, s.project) && NoLooser(db.meta[id], q.meta[id])
  {
    hide Restore, PrepareMetas, RestoredPolicies, Top, InsertAll, Foreign, TermsKept, Mergeable, Rank, MergedClass, Earliest;
    RestoreParts(db, s, snapshot, now, q);
    RestoredMeta(db, s, snapshot, now, q, id);
    InsertAllAdds(db.memories - Live(db, s.project), s.memories);
    var k :| 0 <= k < |s.memories| && s.memories[k].0 == id;
    assert q.memories[id] == s.memories[k].1;
    var i: nat :| PreparedFrom(db, s, snapshot, now, id, i, q.meta[id]);
    assert s.metas[i].1.legalHold in {0, 1};
    MergeIsStricter(db.meta[id], s.metas[i].1, q.meta[id]);
  }

  lemma StepLeavesPolicy(db: Db, op: Op, id: int, project: string)
    requires GovernedIn(db, id, project) && LeavesPolicy(op, id, project)
    ensures GovernedIn(Step(db, op), id, project) && NoLooser(db.meta[id], Step(db, op).meta[id])
  {
    hide Restore, TermsKept, BringsGoverned;
    SameTerms(db.meta[id]);
    match op
    case RestoreOp(s, snapshot, now, dryRun) =>
      if dryRun {
        DryRunChangesNothing(db, s, snapshot, now);
      } else if Restore(db, s, snapshot, now, false).Ok? {
        var q := Restore(db, s, snapshot, now, false).value;
        if s.project == project {
          RestoreOfOwn(db, s, snapshot, now, q, id);
        } else {
          RestoreOfOther(db, s, snapshot, now, q, id);
        }
      }
    case _ =>
  }

  /** Through every run of restores and other work that brings a governed memory along, its policy never loosens,
      and a hold it started with still refuses a governed delete. */
  lemma {:induction false} PolicyNeverLoosens(db: Db, ops: seq<Op>, id: int, project: string)
    requires GovernedIn(db, id, project)
    requires forall i :: 0 <= i < |ops| ==> LeavesPolicy(ops[i], id, project)
    ensures GovernedIn(Run(db, ops), id, project) && NoLooser(db.meta[id], Run(db, ops).meta[id])
    ensures Held(db.meta[id]) ==> forall now, reason :: Forget(Run(db, ops), id, now, reason).Err?
    decreases ops
  {
    hide Step, TermsKept, LeavesPolicy;
    if ops == [] {
      SameTerms(db.meta[id]);
    } else {
      StepLeavesPolicy(db, ops[0], id, project);
      var q := Step(db, ops[0]);
      PolicyNeverLoosens(q, ops[1..], id, project);
      TermsKeptTransitive(db.meta[id], q.meta[id], Run(q, ops[1..]).meta[id]);
    }
  }

  // ---- the look of a governed delete ----------------------------------------------------------------

  /** The steps of a governed delete that looks at `db`, with anything in between and after: refused under hold, else
      its three commits. */
  function Interrupted(db: Db, id: int, now: int, reason: Option<string>, a: seq<Op>, b: seq<Op>, c: seq<Op>): seq<Op> {
    if id in db.meta && Held(db.meta[id]) then a + b + c
    else a + [TombstoneOp(id, now, reason)] + b + [LedgerOp(id)] + c + [DeleteOp(id)]
  }

  /** The step does not itself take the memory away: it deletes no such id, and a restore of its project brings it back. */
  predicate LeavesRow(op: Op, id: int, project: string) {
    match op
    case RestoreOp(s, _, _, dryRun) => dryRun || s.project != project || id in Ids(s.memories)
    case ForgetOp(i, _, _) => i != id
    case DeleteOp(i) => i != id
    case _ => true
  }

  predicate PresentIn(db: Db, id: int, project: string) {
    id in db.memories && db.memories[id].project == project
  }

  lemma RestoreLeavesRow(db: Db, s: Saved, snapshot: string, now: int, q: Db, id: int, project: string)
    requires Restore(db, s, snapshot, now, false) == Ok(q) && PresentIn(db, id, project)
    requires s.project == project ==> id in Ids(s.memories)
    ensures PresentIn(q, id, project)
  {
    hide Restore, PrepareMetas, RestoredPolicies, Top, InsertAll, Foreign;
    RestoreParts(db, s, snapshot, now, q);
    InsertAllAdds(db.memories - Live(db, s.project), s.memories);
    if s.project == project {
      var k :| 0 <= k < |s.memories| && s.memories[k].0 == id;
      assert q.memories[id] == s.memories[k].1;
    }
  }

  lemma StepLeavesRow(db: Db, op: Op, id: int, project: string)
    requires PresentIn(db, id, project) && LeavesRow(op, id, project)
    ensures PresentIn(Step(db, op), id, project)
  {
    hide Restore, Ids;
    match op
    case RestoreOp(s, snapshot, now, dryRun) =>
      if dryRun {
        DryRunChangesNothing(db, s, snapshot, now);
      } else if Restore(db, s, snapshot, now, false).Ok? {
        RestoreLeavesRow(db, s, snapshot, now, Restore(db, s, snapshot, now, false).value, id, project);
      }
    case _ =>
  }

  lemma {:induction false} RunLeavesRow(db: Db, ops: seq<Op>, id: int, project: string)
    requires PresentIn(db, id, project) && forall i :: 0 <= i < |ops| ==> LeavesRow(ops[i], id, project)
    ensures PresentIn(Run(db, ops), id, project)
    decreases ops
  {
    hide Step, LeavesRow, PresentIn;
    if ops != [] {
      StepLeavesRow(db, ops[0], id, project);
      RunLeavesRow(Step(db, ops[0]), ops[1..], id, project);
    }
  }

  lemma {:induction false} RunSnoc(db: Db, ops: seq<Op>, op: Op)
    ensures Run(db, ops + [op]) == Step(Run(db, ops), op)
    decreases ops
  {
    hide Step;
    if ops == [] {
      assert ops + [op] == [op] && [op][1..] == [];
    } else {
      assert (ops + [op])[0] == ops[0] && (ops + [op])[1..] == ops[1..] + [op];
      RunSnoc(Step(db, ops[0]), ops[1..], op);
    }
  }

  /** The look alone decides: whatever holds are placed or lifted and whatever else happens in between, short of taking
      the memory away itself, the memory is gone after the last commit if and only if the look found no hold. */
  lemma {:induction false} LookDecides(db: Db, id: int, project: string, now: int, reason: Option<string>, a: seq<Op>, b: seq<Op>, c: seq<Op>)
    requires PresentIn(db, id, project)
    requires forall i :: 0 <= i < |a + b + c| ==> LeavesRow((a + b + c)[i], id, project)
    ensures id !in Run(db, Interrupted(db, id, now, reason, a, b, c)).memories <==> Forget(db, id, now, reason).Ok?
  {
    hide Run, LeavesRow, Step;
    if Forget(db, id, now, reason).Ok? {
      var ops := a + [TombstoneOp(id, now, reason)] + b + [LedgerOp(id)] + c;
      RunSnoc(db, ops, DeleteOp(id));
      DeleteRemoves(Run(db, ops), id);
    } else {
      RunLeavesRow(db, a + b + c, id, project);
    }
  }

  lemma DeleteRemoves(db: Db, id: int)
    ensures id !in Step(db, DeleteOp(id)).memories
  {
  }

  // ---- the conditions are needed ----------------------------------------------------------------

  const NOTE := Memory("p", "note")

  /** A checkpoint whose memory has no governance row brings a forgotten and purged memory back. */
  lemma BareRestoreExposes()
    ensures var db := Step(Step(Step(EMPTY, InsertOp(NOTE)), ForgetOp(1, 0, None)), PurgeOp(1));
            && Forgotten(db, 1)
            && Visible(Step(db, RestoreOp(Saved("p", [(1, NOTE)], [], []), "import", 0, false)), 1)
  {
    var a := Insert(EMPTY, NOTE);
    assert a.memories == map[1 := NOTE] && a.meta == map[1 := DEFAULT_META];
    var db := Purge(Forget(a, 1, 0, None).value, 1);
    assert db == Db(map[], map[], map[], {1}, 1, {});
    var s := Saved("p", [(1, NOTE)], [], []);
    assert s.memories[0] == (1, NOTE);
    assert InsertAll(db.memories - Live(db, "p"), s.memories[..0]) == Ok(map[]);
    assert InsertAll(db.memories - Live(db, "p"), s.memories) == Ok(map[1 := NOTE]);
    assert Restore(db, s, "import", 0, false).Ok?;
    RestoredMeta(db, s, "import", 0, Restore(db, s, "import", 0, false).value, 1);
  }

  const STRICT := DEFAULT_META.(legalHold := 1, consent := Some("denied"), expiresAt := Some(5))

  /** The same kind of checkpoint erases the hold, the denied consent and the expiry of a memory that is live. */
  lemma BareRestoreLoosens()
    ensures var db := Step(Step(EMPTY, InsertOp(NOTE)), GovernOp(1, STRICT, true));
            var q := Step(db, RestoreOp(Saved("p", [(1, NOTE)], [], []), "import", 0, false));
            && db.meta == map[1 := STRICT] && Forget(db, 1, 0, None).Err?
            && 1 in q.memories && 1 !in q.meta && Forget(q, 1, 0, None).Ok?
  {
    var a := Insert(EMPTY, NOTE);
    assert a.memories == map[1 := NOTE] && a.meta == map[1 := DEFAULT_META];
    var db := Step(a, GovernOp(1, STRICT, true));
    assert db == Db(map[1 := NOTE], map[1 := STRICT], map[], {1}, 1, {});
    var s := Saved("p", [(1, NOTE)], [], []);
    assert s.memories[0] == (1, NOTE);
    RestoreSucceedsIff(db, s, "import", 0);
    assert Live(db, "p") == {1} && Ids(s.memories) == {1};
    var q := Restore(db, s, "import", 0, false).value;
    RestoredMeta(db, s, "import", 0, q, 1);
  }

  /** An imported id above the high-water mark, forgotten and purged, is issued again to the next memory. */
  lemma PurgedImportIsReissued()
    ensures var db := Step(Step(Step(EMPTY, RestoreOp(Saved("p", [(1, NOTE)], [], []), "import", 0, false)), ForgetOp(1, 0, None)), PurgeOp(1));
            && 1 in db.ledgered && !Visible(db, 1) && Visible(Insert(db, NOTE), 1)
  {
    var s := Saved("p", [(1, NOTE)], [], []);
    assert s.memories[0] == (1, NOTE);
    assert InsertAll(EMPTY.memories - Live(EMPTY, "p"), s.memories[..0]) == Ok(map[]);
    RestoreSucceedsIff(EMPTY, s, "import", 0);
    var a := Restore(EMPTY, s, "import", 0, false).value;
    RestoreParts(EMPTY, s, "import", 0, a);
    assert a.memories.Keys == {1} && a.meta == map[] && a.highwater == 0;
    var db := Purge(Forget(a, 1, 0, None).value, 1);
    assert db.memories == map[] && db.meta == map[] && db.highwater == 0;
  }

  lemma {:induction false} InsertFails<V>(table: map<int, V>, rows: seq<(int, V)>, n: nat)
    requires n <= |rows| && InsertAll(table, rows[..n]).Err?
    ensures InsertAll(table, rows).Err?
    decreases |rows| - n
  {
    if n == |rows| {
      assert rows[..n] == rows;
    } else {
      assert rows[..n + 1][..n] == rows[..n];
      InsertFails(table, rows, n + 1);
    }
  }

  lemma {:induction false} PrepareFails(db: Db, project: string, snapshot: string, now: int, rows: seq<(int, Meta)>, n: nat)
    requires n <= |rows| && PrepareMetas(db, project, snapshot, now, rows[..n]).Err?
    ensures PrepareMetas(db, project, snapshot, now, rows) == PrepareMetas(db, project, snapshot, now, rows[..n])
    decreases |rows| - n
  {
    if n == |rows| {
      assert rows[..n] == rows;
    } else {
      assert rows[..n + 1][..n] == rows[..n];
      PrepareFails(db, project, snapshot, now, rows, n + 1);
    }
  }

  // ---- the tables in place ----------------------------------------------------------------------

  /** One write transaction per method; a failure puts every table back. */
  class MemoryTables {
    var memories: map<int, Memory>
    var meta: map<int, Meta>
    var policies: map<int, string>
    var ledgered: set<int>
    var highwater: int
    var snapshots: set<string>

    function View(): Db
      reads this
    {
      Db(memories, meta, policies, ledgered, highwater, snapshots)
    }

    constructor ()
      ensures View() == EMPTY
    {
      memories, meta, policies, ledgered, highwater, snapshots := map[], map[], map[], {}, 0, {};
    }

    method InsertMemory(memory: Memory) returns (id: int)
      modifies this
      ensures View() == Insert(old(View()), memory)
      ensures id !in old(memories) && id !in old(meta) && id > old(highwater) && id == highwater
    {
      highwater := Top(View()) + 1;
      id := highwater;
      memories := memories[id := memory];
      meta := meta[id := DEFAULT_META];
    }

    method MarkForgotten(id: int, now: int, reason: Option<string>)
      modifies this`meta
      ensures View() == Step(old(View()), TombstoneOp(id, now, reason))
    {
      if id in meta {
        meta := meta[id := Tombstone(meta[id], now, reason)];
      }
    }

    method AppendForget(id: int)
      modifies this`ledgered
      ensures View() == Step(old(View()), LedgerOp(id))
    {
      ledgered := ledgered + {id};
    }

    method DeleteMemory(id: int) returns (deleted: bool)
      modifies this`memories
      ensures View() == Step(old(View()), DeleteOp(id)) && deleted == (id in old(memories))
    {
      deleted := id in memories;
      memories := memories - {id};
    }

    /** The look at the row, then three commits, here with nothing in between. */
    method GovernedDelete(id: int, now: int, reason: Option<string>) returns (r: Result<bool>)
      modifies this
      ensures match Forget(old(View()), id, now, reason)
              case Ok(q) => View() == q && r == Ok(id in old(memories))
              case Err(e) => View() == old(View()) && r == Err(e)
    {
      if id !in memories {
        return Ok(false);
      }
      if id in meta && meta[id].legalHold != 0 {
        return Err("under legal hold");
      }
      MarkForgotten(id, now, reason);
      AppendForget(id);
      var deleted := DeleteMemory(id);
      return Ok(deleted);
    }

    /** The first loop of restore: every saved governance row against the live tables. */
    method PrepareRows(s: Saved, snapshot: string, now: int) returns (r: Result<seq<(int, Meta)>>)
      ensures r == PrepareMetas(View(), s.project, snapshot, now, s.metas)
    {
      hide MergeMeta;
      var done: seq<(int, Meta)> := [];
      for i := 0 to |s.metas|
        invariant PrepareMetas(View(), s.project, snapshot, now, s.metas[..i]) == Ok(done)
      {
        var id, start := s.metas[i].0, s.metas[i].1;
        assert s.metas[..i + 1][..i] == s.metas[..i];
        var row := Ok(start);
        if id in memories && memories[id].project == s.project && id in meta {
          row := MergeRow(meta[id], start);
        } else if id in ledgered || snapshot in snapshots {
          row := Ok(start.(tombstonedAt := Some(now), tombstoneReason := Some(RESTORED_AFTER_REMOVAL)));
        }
        assert row == PrepareMeta(View(), s.project, snapshot, now, id, start);
        if row.Err? {
          PrepareFails(View(), s.project, snapshot, now, s.metas, i + 1);
          return Err(row.error);
        }
        done := done + [(id, row.value)];
      }
      assert s.metas[..|s.metas|] == s.metas;
      return Ok(done);
    }

    method InsertMemories(rows: seq<(int, Memory)>) returns (ok: bool)
      modifies this`memories
      ensures ok <==> InsertAll(old(memories), rows).Ok?
      ensures ok ==> InsertAll(old(memories), rows) == Ok(memories)
    {
      for i := 0 to |rows|
        invariant InsertAll(old(memories), rows[..i]) == Ok(memories)
      {
        assert rows[..i + 1][..i] == rows[..i];
        if rows[i].0 in memories {
          InsertFails(old(memories), rows, i + 1);
          return false;
        }
        memories := memories[rows[i].0 := rows[i].1];
      }
      assert rows[..|rows|] == rows;
      return true;
    }

    method InsertMetas(rows: seq<(int, Meta)>) returns (ok: bool)
      modifies this`meta
      ensures ok <==> InsertAll(old(meta), rows).Ok?
      ensures ok ==> InsertAll(old(meta), rows) == Ok(meta)
    {
      for i := 0 to |rows|
        invariant InsertAll(old(meta), rows[..i]) == Ok(meta)
      {
        assert rows[..i + 1][..i] == rows[..i];
        if rows[i].0 in meta {
          InsertFails(old(meta), rows, i + 1);
          return false;
        }
        meta := meta[rows[i].0 := rows[i].1];
      }
      assert rows[..|rows|] == rows;
      return true;
    }

    method Rollback(db: Db)
      modifies this
      ensures View() == db
    {
      memories, meta, policies := db.memories, db.meta, db.policies;
      ledgered, highwater, snapshots := db.ledgered, db.highwater, db.snapshots;
    }

    /** Validation and replacement in one transaction. */
    method RestoreProject(s: Saved, snapshot: string, now: int, dryRun: bool) returns (ok: bool)
      modifies this
      ensures ok <==> Restore(old(View()), s, snapshot, now, dryRun).Ok?
      ensures View() == Step(old(View()), RestoreOp(s, snapshot, now, dryRun))
    {
      hide InsertAll, PrepareMetas, RestoredPolicies, Top, ValidSaved, Foreign;
      var start := View();
      if !ValidSaved(s) {
        return false;
      }
      var rows := PrepareRows(s, snapshot, now);
      if rows.Err? || Foreign(start, s) {
        return false;
      }
      if dryRun {
        return true;
      }
      var gone := Live(start, s.project);
      highwater := Top(start);
      meta, policies, memories := meta - gone, policies - gone, memories - gone;
      var inserted := InsertMemories(s.memories);
      if inserted {
        inserted := InsertMetas(rows.value);
      }
      if !inserted {
        Rollback(start);
        return false;
      }
      var restored := RestoredPolicies(start, s, policies);
      if restored.Err? || !(restored.value.Keys <= meta.Keys) {
        Rollback(start);
        return false;
      }
      policies := restored.value;
      return true;
    }
  }
}
