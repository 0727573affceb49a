/** Checkpoint validation of the assertion table, and the merge restore makes of a saved table and the
    live one (src/assertions.rs:182-234, src/checkpoint.rs:661-682). */
module AssertionMerge {
  import opened Prelude
  import opened Events
  import opened Assertions

  ghost predicate AllProjected(rows: seq<Row>) {
    forall i :: 0 <= i < |rows| ==> Projected(rows[i])
  }

  ghost predicate VersionSorted(s: seq<Entry>) {
    forall i, j :: 0 <= i < j < |s| ==> s[i].event.version <= s[j].event.version
  }

  // ---- histories as multisets ---------------------------------------------------------------

  lemma {:induction false} InsertSorted(e: Entry, s: seq<Entry>)
    requires VersionSorted(s)
    ensures VersionSorted(InsertByVersion(e, s))
    ensures forall x :: x in InsertByVersion(e, s) ==> x == e || x in s
  {
    if s != [] && e.event.version >= s[0].event.version {
      InsertSorted(e, s[1..]);
      var rest := InsertByVersion(e, s[1..]);
      forall j | 0 <= j < |rest| ensures s[0].event.version <= rest[j].event.version {
        assert rest[j] in rest;
      }
    }
  }

  lemma {:induction false} HistorySorted(rows: seq<Row>, scope: Scope)
    ensures VersionSorted(History(rows, scope))
  {
    if rows != [] {
      HistorySorted(rows[..|rows| - 1], scope);
      InsertSorted(Entry(rows[|rows| - 1].id, rows[|rows| - 1].data), History(rows[..|rows| - 1], scope));
    }
  }

  /** A history holds each row of its scope as often as the table does, whatever their order. */
  lemma {:induction false} HistoryCounts(rows: seq<Row>, scope: Scope, e: Entry)
    requires AllProjected(rows)
    ensures multiset(History(rows, scope))[e] == if e.event.scope == scope then multiset(rows)[RowOf(e)] else 0
  {
    if rows != [] {
      var rest, row := rows[..|rows| - 1], rows[|rows| - 1];
      HistoryCounts(rest, scope, e);
      assert rows == rest + [row];
      assert Projected(row);
      InsertMembers(Entry(row.id, row.data), History(rest, scope));
    }
  }

  lemma ChainCounts(h: seq<Entry>, e: Entry)
    requires ValidChain(h)
    ensures multiset(h)[e] <= 1
  {
    if e in h {
      var i :| 0 <= i < |h| && h[i] == e;
      assert h == h[..i] + [e] + h[i + 1..];
      forall j | 0 <= j < |h| && j != i ensures h[j] != e {
        ChainVersions(h, i);
        ChainVersions(h, j);
      }
      assert e !in h[..i] && e !in h[i + 1..];
    }
  }

  /** The rows of a valid table are all different. */
  lemma ValidCounts(rows: seq<Row>, row: Row)
    requires ValidTable(rows)
    ensures multiset(rows)[row] <= 1
  {
    if row in rows {
      var e := Entry(row.id, row.data);
      assert Projected(row);
      HistoryCounts(rows, row.data.scope, e);
      ChainCounts(History(rows, row.data.scope), e);
    }
  }

  lemma SortedSameTop(s: seq<Entry>, h: seq<Entry>)
    requires VersionSorted(s) && ValidChain(h) && h != [] && |s| == |h|
    requires forall e :: e in s <==> e in h
    ensures s[|h| - 1] == h[|h| - 1]
  {
    hide ValidEntry;
    var n := |h| - 1;
    assert s[n] in h && h[n] in s;
    var i :| 0 <= i < |h| && h[i] == s[n];
    var j :| 0 <= j < |s| && s[j] == h[n];
    ChainVersions(h, i);
    ChainVersions(h, n);
    assert s[j].event.version <= s[n].event.version;
  }

  /** Version order and contents determine a valid history. */
  lemma {:induction false} SortedHistoryUnique(s: seq<Entry>, h: seq<Entry>)
    requires VersionSorted(s) && ValidChain(h) && multiset(s) == multiset(h)
    ensures s == h
  {
    hide ValidChain, ValidEntry;
    SameMultisetSameMembers(s, h);
    if h == [] {
      assert s == [];
    } else {
      var n := |h| - 1;
      SortedSameTop(s, h);
      MultisetInit(s);
      MultisetInit(h);
      PrefixValid(h, n);
      SortedHistoryUnique(s[..n], h[..n]);
      assert s == s[..n] + [s[n]] == h[..n] + [h[n]] == h;
    }
  }

  lemma {:induction false} SameCountsSameHistory(a: seq<Row>, b: seq<Row>, scope: Scope)
    requires AllProjected(a) && AllProjected(b) && ValidChain(History(a, scope))
    requires forall row: Row :: row.data.scope == scope ==> multiset(a)[row] == multiset(b)[row]
    ensures History(b, scope) == History(a, scope)
  {
    forall e ensures multiset(History(a, scope))[e] == multiset(History(b, scope))[e] {
      HistoryCounts(a, scope, e);
      HistoryCounts(b, scope, e);
      assert RowOf(e).data == e.event;
    }
    HistorySorted(b, scope);
    SortedHistoryUnique(History(b, scope), History(a, scope));
  }

  /** Row order never matters to validation, so the final sort of a merged table is harmless. */
  lemma {:induction false} ReorderValid(a: seq<Row>, b: seq<Row>)
    requires multiset(a) == multiset(b) && ValidTable(a)
    ensures ValidTable(b) && forall scope :: History(b, scope) == History(a, scope)
  {
    SameMultisetSameMembers(a, b);
    forall i | 0 <= i < |b| ensures Projected(b[i]) {
      assert b[i] in a;
    }
    forall scope ensures History(b, scope) == History(a, scope) {
      SameCountsSameHistory(a, b, scope);
    }
  }

  // ---- the merge ------------------------------------------------------------------------------

  predicate HasId(rows: seq<Row>, id: EventId) {
    exists i | 0 <= i < |rows| :: rows[i].id == id
  }

  /** The first saved row with an id. */
  function Find(rows: seq<Row>, id: EventId): Row
    requires HasId(rows, id)
  {
    if rows[0].id == id then rows[0] else Find(rows[1..], id)
  }

  function Merge(saved: seq<Row>, live: seq<Row>): Result<seq<Row>>
    decreases live
  {
    if live == [] then Ok(saved)
    else if !HasId(saved, live[0].id) then Merge(saved + [live[0]], live[1..])
    else if Find(saved, live[0].id) == live[0] then Merge(saved, live[1..])
    else Err("assertion immutable identity collision")
  }

  /** The merge loop of `restore`. */
  method MergeLive(start: seq<Row>, live: seq<Row>) returns (r: Result<seq<Row>>)
    ensures r == Merge(start, live)
  {
    var saved := start;
    for i := 0 to |live|
      invariant Merge(start, live) == Merge(saved, live[i..])
    {
      assert live[i..][1..] == live[i + 1..];
      if HasId(saved, live[i].id) {
        if Find(saved, live[i].id) != live[i] {
          return Err("assertion immutable identity collision");
        }
      } else {
        saved := saved + [live[i]];
      }
    }
    return Ok(saved);
  }

  lemma {:induction false} FindFinds(rows: seq<Row>, id: EventId)
    requires HasId(rows, id)
    ensures Find(rows, id) in rows && Find(rows, id).id == id
  {
    if rows[0].id != id {
      FindFinds(rows[1..], id);
    }
  }

  /** A successful merge keeps every saved and every live row. */
  lemma {:induction false} MergeLosesNothing(saved: seq<Row>, live: seq<Row>)
    requires Merge(saved, live).Ok?
    ensures forall row :: row in Merge(saved, live).value <==> row in saved || row in live
    ensures saved <= Merge(saved, live).value
    decreases live
  {
    if live != [] {
      assert live == [live[0]] + live[1..];
      if HasId(saved, live[0].id) {
        FindFinds(saved, live[0].id);
        MergeLosesNothing(saved, live[1..]);
      } else {
        MergeLosesNothing(saved + [live[0]], live[1..]);
      }
    }
  }

  /** Ids are the hash of the row they name. */
  ghost predicate Hashed(rows: seq<Row>) {
    AllProjected(rows) && forall i :: 0 <= i < |rows| ==> rows[i].id == EventId(rows[i].data)
  }

  lemma ValidHashed(rows: seq<Row>)
    requires ValidTable(rows)
    ensures Hashed(rows)
  {
    forall i | 0 <= i < |rows| ensures rows[i].id == EventId(rows[i].data) {
      var row := rows[i];
      var e := Entry(row.id, row.data);
      assert Projected(row);
      HistoryCounts(rows, row.data.scope, e);
      assert e in History(rows, row.data.scope) by {
        assert row in multiset(rows);
        assert e in multiset(History(rows, row.data.scope));
      }
      var k :| 0 <= k < |History(rows, row.data.scope)| && History(rows, row.data.scope)[k] == e;
      assert ValidEntry(History(rows, row.data.scope), k);
    }
  }

  function Joined(a: nat, b: nat): nat {
    if a > 0 then a else b
  }

  /** Hashed tables never collide, and the merge is their union. */
  lemma {:induction false} MergeIsUnion(saved: seq<Row>, live: seq<Row>)
    requires Hashed(saved) && Hashed(live)
    requires forall row :: multiset(live)[row] <= 1
    ensures Merge(saved, live).Ok? && Hashed(Merge(saved, live).value)
    ensures forall row :: multiset(Merge(saved, live).value)[row] == Joined(multiset(saved)[row], multiset(live)[row])
    decreases live
  {
    if live != [] {
      MultisetTail(live);
      assert Projected(live[0]);
      assert multiset(live)[live[0]] == 1;
      if HasId(saved, live[0].id) {
        FindFinds(saved, live[0].id);
        assert Find(saved, live[0].id) == live[0];
        MergeIsUnion(saved, live[1..]);
      } else {
        assert live[0] !in saved;
        MergeIsUnion(saved + [live[0]], live[1..]);
      }
    }
  }

  // ---- what the merged table means ------------------------------------------------------------

  ghost predicate Aligned(saved: seq<Row>, live: seq<Row>, scope: Scope) {
    History(saved, scope) <= History(live, scope) || History(live, scope) <= History(saved, scope)
  }

  /** A valid history whose entries all occur in another valid history is a prefix of it. */
  lemma ContainedIsPrefix(a: seq<Entry>, m: seq<Entry>)
    requires ValidChain(a) && ValidChain(m) && forall e :: e in a ==> e in m
    ensures a <= m
  {
    forall i | 0 <= i < |a| ensures i < |m| && a[i] == m[i] {
      assert a[i] in m;
      var j :| 0 <= j < |m| && m[j] == a[i];
      ChainVersions(a, i);
      ChainVersions(m, j);
    }
    if a != [] {
      var last := a[|a| - 1];
      assert |a| - 1 < |m|;
    }
    assert a == m[..|a|];
  }

  lemma {:induction false} HistoryMembers(rows: seq<Row>, scope: Scope, e: Entry)
    requires AllProjected(rows)
    ensures e in History(rows, scope) <==> e.event.scope == scope && RowOf(e) in rows
  {
    HistoryCounts(rows, scope, e);
    assert e in History(rows, scope) <==> e in multiset(History(rows, scope));
    assert RowOf(e) in rows <==> RowOf(e) in multiset(rows);
  }

  /** The merged history of a scope, when one side's history extends the other's. */
  lemma {:induction false} AlignedMerge(saved: seq<Row>, live: seq<Row>, scope: Scope)
    requires ValidTable(saved) && ValidTable(live) && Merge(saved, live).Ok? && Aligned(saved, live, scope)
    requires Hashed(Merge(saved, live).value)
    requires forall row :: multiset(Merge(saved, live).value)[row] == Joined(multiset(saved)[row], multiset(live)[row])
    ensures History(Merge(saved, live).value, scope) ==
      if History(saved, scope) <= History(live, scope) then History(live, scope) else History(saved, scope)
  {
    var less, more := live, saved;
    if History(saved, scope) <= History(live, scope) {
      less, more := saved, live;
    }
    var m := Merge(saved, live).value;
    forall row: Row | row.data.scope == scope ensures multiset(more)[row] == multiset(m)[row] {
      ValidCounts(saved, row);
      ValidCounts(live, row);
      if row in less {
        var e := Entry(row.id, row.data);
        assert Projected(row);
        HistoryMembers(less, scope, e);
        assert e in History(more, scope);
        HistoryMembers(more, scope, e);
        assert row in multiset(more);
      }
    }
    SameCountsSameHistory(more, m, scope);
  }

  lemma {:induction false} ValidMergeAligned(saved: seq<Row>, live: seq<Row>, scope: Scope)
    requires ValidTable(saved) && ValidTable(live) && Merge(saved, live).Ok? && ValidTable(Merge(saved, live).value)
    ensures Aligned(saved, live, scope)
  {
    var m := Merge(saved, live).value;
    MergeLosesNothing(saved, live);
    forall e | e in History(saved, scope) || e in History(live, scope) ensures e in History(m, scope) {
      HistoryMembers(saved, scope, e);
      HistoryMembers(live, scope, e);
      HistoryMembers(m, scope, e);
    }
    ContainedIsPrefix(History(saved, scope), History(m, scope));
    ContainedIsPrefix(History(live, scope), History(m, scope));
  }

  /** Merging two valid tables never collides; the result validates exactly when in every scope one history
      extends the other, and then each scope keeps the longer one: nothing is lost and nothing rewinds. */
  lemma {:induction false} MergeValidIff(saved: seq<Row>, live: seq<Row>)
    requires ValidTable(saved) && ValidTable(live)
    ensures Merge(saved, live).Ok?
    ensures ValidTable(Merge(saved, live).value) <==> forall scope :: Aligned(saved, live, scope)
    ensures ValidTable(Merge(saved, live).value) ==>
      forall scope :: History(live, scope) <= History(Merge(saved, live).value, scope)
        && History(saved, scope) <= History(Merge(saved, live).value, scope)
        && History(Merge(saved, live).value, scope) in {History(saved, scope), History(live, scope)}
  {
    hide ValidChain, History;
    ValidHashed(saved);
    ValidHashed(live);
    forall row ensures multiset(live)[row] <= 1 {
      ValidCounts(live, row);
    }
    MergeIsUnion(saved, live);
    var m := Merge(saved, live).value;
    if forall scope :: Aligned(saved, live, scope) {
      forall scope ensures ValidChain(History(m, scope)) {
        AlignedMerge(saved, live, scope);
      }
    }
    if ValidTable(m) {
      forall scope
        ensures Aligned(saved, live, scope)
        ensures History(live, scope) <= History(m, scope) && History(saved, scope) <= History(m, scope)
             && History(m, scope) in {History(saved, scope), History(live, scope)}
      {
        ValidMergeAligned(saved, live, scope);
        AlignedMerge(saved, live, scope);
      }
    }
  }

  // ---- the rows of one project --------------------------------------------------------------------

  function OfProject(rows: seq<Row>, project: string): seq<Row> {
    if rows == [] then []
    else
      var rest := OfProject(rows[..|rows| - 1], project);
      if rows[|rows| - 1].data.scope.project == project then rest + [rows[|rows| - 1]] else rest
  }

  lemma {:induction false} ProjectCounts(rows: seq<Row>, project: string, row: Row)
    ensures multiset(OfProject(rows, project))[row] == if row.data.scope.project == project then multiset(rows)[row] else 0
  {
    if rows != [] {
      assert rows == rows[..|rows| - 1] + [rows[|rows| - 1]];
      ProjectCounts(rows[..|rows| - 1], project, row);
    }
  }

  /** The rows of one project of a valid table are a valid table. */
  lemma {:induction false} ProjectValid(rows: seq<Row>, project: string)
    requires ValidTable(rows)
    ensures ValidTable(OfProject(rows, project))
  {
    var part := OfProject(rows, project);
    forall i | 0 <= i < |part| ensures Projected(part[i]) {
      ProjectCounts(rows, project, part[i]);
      assert part[i] in multiset(part);
      assert part[i] in rows;
    }
    forall scope ensures ValidChain(History(part, scope)) {
      if scope.project == project {
        forall row: Row | row.data.scope == scope ensures multiset(rows)[row] == multiset(part)[row] {
          ProjectCounts(rows, project, row);
        }
        SameCountsSameHistory(rows, part, scope);
      } else {
        if History(part, scope) != [] {
          var e := History(part, scope)[0];
          assert e in multiset(History(part, scope));
          HistoryCounts(part, scope, e);
          ProjectCounts(rows, project, RowOf(e));
          assert false;
        }
      }
    }
  }

  // ---- writes and restores mixed ----------------------------------------------------------------

  function OfOthers(rows: seq<Row>, project: string): seq<Row> {
    if rows == [] then []
    else
      var rest := OfOthers(rows[..|rows| - 1], project);
      if rows[|rows| - 1].data.scope.project != project then rest + [rows[|rows| - 1]] else rest
  }

  lemma {:induction false} OtherCounts(rows: seq<Row>, project: string, row: Row)
    ensures multiset(OfOthers(rows, project))[row] == if row.data.scope.project != project then multiset(rows)[row] else 0
  {
    if rows != [] {
      assert rows == rows[..|rows| - 1] + [rows[|rows| - 1]];
      OtherCounts(rows[..|rows| - 1], project, row);
    }
  }

  predicate AllOf(rows: seq<Row>, project: string) {
    forall i | 0 <= i < |rows| :: rows[i].data.scope.project == project
  }

  /** A restore of one project: its rows are replaced by the merge, if the saved table and the merge both validate. */
  ghost function Restore(rows: seq<Row>, project: string, saved: seq<Row>): seq<Row> {
    var live := OfProject(rows, project);
    if ValidTable(saved) && AllOf(saved, project) && Merge(saved, live).Ok? && ValidTable(Merge(saved, live).value)
    then OfOthers(rows, project) + Merge(saved, live).value
    else rows
  }

  /** The replaced table counts the rows of the project as the merge does, and all others as before. */
  lemma {:induction false} RestoredCounts(rows: seq<Row>, project: string, saved: seq<Row>, row: Row)
    requires AllOf(saved, project) && Merge(saved, OfProject(rows, project)).Ok?
    ensures var m := Merge(saved, OfProject(rows, project)).value;
            multiset(OfOthers(rows, project) + m)[row] == multiset(if row.data.scope.project == project then m else rows)[row]
  {
    var live := OfProject(rows, project);
    var m := Merge(saved, live).value;
    OtherCounts(rows, project, row);
    ProjectCounts(rows, project, row);
    MergeLosesNothing(saved, live);
    if row.data.scope.project != project {
      assert row !in multiset(live);
      assert row !in m;
    }
  }

  lemma {:induction false} ProjectHistory(rows: seq<Row>, scope: Scope)
    requires ValidTable(rows)
    ensures History(OfProject(rows, scope.project), scope) == History(rows, scope)
  {
    ProjectValid(rows, scope.project);
    forall row: Row | row.data.scope == scope ensures multiset(rows)[row] == multiset(OfProject(rows, scope.project))[row] {
      ProjectCounts(rows, scope.project, row);
    }
    SameCountsSameHistory(rows, OfProject(rows, scope.project), scope);
  }

  lemma {:induction false} RestoredProjected(rows: seq<Row>, project: string, saved: seq<Row>)
    requires AllProjected(rows) && AllOf(saved, project) && Merge(saved, OfProject(rows, project)).Ok?
    requires AllProjected(Merge(saved, OfProject(rows, project)).value)
    ensures AllProjected(OfOthers(rows, project) + Merge(saved, OfProject(rows, project)).value)
  {
    var others := OfOthers(rows, project);
    forall i | 0 <= i < |others| ensures Projected(others[i]) {
      OtherCounts(rows, project, others[i]);
      assert others[i] in multiset(others);
      assert others[i] in rows;
    }
  }

  /** Whatever checkpoint is restored, the live table stays valid and no history loses or changes an event. */
  lemma {:induction false} RestoreExtends(rows: seq<Row>, project: string, saved: seq<Row>)
    requires ValidTable(rows)
    ensures ValidTable(Restore(rows, project, saved))
    ensures forall scope :: History(rows, scope) <= History(Restore(rows, project, saved), scope)
  {
    hide ValidChain, History, Merge, OfProject, OfOthers;
    var q, live := Restore(rows, project, saved), OfProject(rows, project);
    if q != rows {
      var m := Merge(saved, live).value;
      ProjectValid(rows, project);
      MergeValidIff(saved, live);
      RestoredProjected(rows, project, saved);
      forall scope
        ensures ValidChain(History(q, scope)) && History(rows, scope) <= History(q, scope)
      {
        var same := if scope.project == project then m else rows;
        forall row: Row | row.data.scope == scope ensures multiset(same)[row] == multiset(q)[row] {
          RestoredCounts(rows, project, saved, row);
        }
        SameCountsSameHistory(same, q, scope);
        if scope.project == project {
          ProjectHistory(rows, scope);
        }
      }
    }
  }

  /** What a restore leaves: other projects' histories as they were, and of its own the longer of the saved and the live
      one in every scope; if somewhere neither extends the other, nothing at all changes. */
  lemma {:induction false} RestoreKeepsLonger(rows: seq<Row>, project: string, saved: seq<Row>, scope: Scope)
    requires ValidTable(rows) && ValidTable(saved) && AllOf(saved, project)
    ensures var q := Restore(rows, project, saved);
            if forall s: Scope :: s.project == project ==> Aligned(saved, rows, s)
            then History(q, scope) ==
                 if scope.project != project || History(saved, scope) <= History(rows, scope) then History(rows, scope) else History(saved, scope)
            else q == rows
  {
    hide ValidChain, History, Merge, OfProject, OfOthers;
    var live := OfProject(rows, project);
    ProjectValid(rows, project);
    MergeValidIff(saved, live);
    forall s: Scope ensures Aligned(saved, live, s) <==> (s.project == project ==> Aligned(saved, rows, s)) {
      if s.project == project {
        ProjectHistory(rows, s);
      } else {
        NoForeignHistory(saved, project, s);
      }
    }
    if forall s: Scope :: s.project == project ==> Aligned(saved, rows, s) {
      var m := Merge(saved, live).value;
      RestoredProjected(rows, project, saved);
      RestoredHistory(rows, project, saved, scope);
      if scope.project == project {
        ProjectHistory(rows, scope);
        ValidHashed(saved);
        ValidHashed(live);
        AlignedMergeIs(saved, live, scope);
      }
    }
  }

  lemma {:induction false} AlignedMergeIs(saved: seq<Row>, live: seq<Row>, scope: Scope)
    requires ValidTable(saved) && ValidTable(live) && Merge(saved, live).Ok? && Aligned(saved, live, scope)
    ensures History(Merge(saved, live).value, scope) ==
      if History(saved, scope) <= History(live, scope) then History(live, scope) else History(saved, scope)
  {
    hide ValidChain, History;
    ValidHashed(saved);
    ValidHashed(live);
    forall row ensures multiset(live)[row] <= 1 {
      ValidCounts(live, row);
    }
    MergeIsUnion(saved, live);
    AlignedMerge(saved, live, scope);
  }

  lemma {:induction false} NoForeignHistory(rows: seq<Row>, project: string, scope: Scope)
    requires ValidTable(rows) && AllOf(rows, project) && scope.project != project
    ensures History(rows, scope) == []
  {
    var h := History(rows, scope);
    forall e ensures multiset(h)[e] == 0 {
      HistoryCounts(rows, scope, e);
      assert RowOf(e) in multiset(rows) ==> RowOf(e) in rows;
    }
    assert multiset(h) == multiset{} && |h| == |multiset(h)|;
  }

  lemma {:induction false} RestoredHistory(rows: seq<Row>, project: string, saved: seq<Row>, scope: Scope)
    requires ValidTable(rows) && AllOf(saved, project) && Merge(saved, OfProject(rows, project)).Ok?
    requires ValidTable(Merge(saved, OfProject(rows, project)).value)
    requires AllProjected(OfOthers(rows, project) + Merge(saved, OfProject(rows, project)).value)
    ensures var m := Merge(saved, OfProject(rows, project)).value;
            History(OfOthers(rows, project) + m, scope) == History(if scope.project == project then m else rows, scope)
  {
    hide ValidChain, History, Merge, OfProject, OfOthers;
    var m := Merge(saved, OfProject(rows, project)).value;
    var same := if scope.project == project then m else rows;
    forall row: Row | row.data.scope == scope
      ensures multiset(same)[row] == multiset(OfOthers(rows, project) + m)[row]
    {
      RestoredCounts(rows, project, saved, row);
    }
    SameCountsSameHistory(same, OfOthers(rows, project) + m, scope);
  }

  datatype Act = Append(req: Request) | Replace(project: string, saved: seq<Row>)

  ghost function Perform(rows: seq<Row>, act: Act): seq<Row> {
    match act
    case Append(req) => Step(rows, req)
    case Replace(project, saved) => Restore(rows, project, saved)
  }

  ghost function Play(rows: seq<Row>, acts: seq<Act>): seq<Row>
    decreases acts
  {
    if acts == [] then rows else Play(Perform(rows, acts[0]), acts[1..])
  }

  lemma {:induction false} PerformExtends(rows: seq<Row>, act: Act)
    requires ValidTable(rows)
    ensures ValidTable(Perform(rows, act))
    ensures forall scope :: History(rows, scope) <= History(Perform(rows, act), scope)
  {
    hide ValidTable, Restore, History;
    match act
    case Append(req) =>
      StepValid(rows, req);
      forall scope ensures History(rows, scope) <= History(Step(rows, req), scope) {
        RunExtends(rows, [req], scope);
        RunOne(rows, req);
      }
    case Replace(project, saved) => RestoreExtends(rows, project, saved);
  }

  lemma {:induction false} RunOne(rows: seq<Row>, req: Request)
    ensures Run(rows, [req]) == Step(rows, req)
  {
    hide Step;
    assert Run(Step(rows, req), []) == Step(rows, req);
  }

  /** Append-only: through any mix of writes and restores of any checkpoints the table stays valid, and every
      history extends what it was. */
  lemma {:induction false} HistoriesOnlyGrow(rows: seq<Row>, acts: seq<Act>)
    requires ValidTable(rows)
    ensures ValidTable(Play(rows, acts))
    ensures forall scope :: History(rows, scope) <= History(Play(rows, acts), scope)
    decreases acts
  {
    hide ValidTable, Perform, History;
    if acts != [] {
      PerformExtends(rows, acts[0]);
      var q := Perform(rows, acts[0]);
      HistoriesOnlyGrow(q, acts[1..]);
      forall scope ensures History(rows, scope) <= History(Play(q, acts[1..]), scope) {
        assert History(rows, scope) <= History(q, scope) <= History(Play(q, acts[1..]), scope);
      }
    }
  }

  /** An expected version is used up once for all: no restore makes a stale writer succeed again. */
  lemma {:induction false} VersionStaysUsed(rows: seq<Row>, first: Request, between: seq<Act>, second: Request)
    requires ValidTable(rows) && first.scope == second.scope && first.expectedVersion == second.expectedVersion
    requires Write(rows, first).Ok?
    ensures Write(Play(Step(rows, first), between), second).Err?
  {
    hide History, Play, Step, ValidEntry;
    StepValid(rows, first);
    WriteExtends(rows, first, first.scope);
    HistoriesOnlyGrow(Step(rows, first), between);
    CurrentVersionIsLength(History(rows, first.scope));
    CurrentVersionIsLength(History(Play(Step(rows, first), between), first.scope));
  }

  lemma {:induction false} RowStays(rows: seq<Row>, acts: seq<Act>, row: Row)
    requires ValidTable(rows) && row in rows
    ensures row in Play(rows, acts)
  {
    hide Play, History, ValidChain;
    HistoriesOnlyGrow(rows, acts);
    var scope, e := row.data.scope, Entry(row.id, row.data);
    assert Projected(row);
    HistoryMembers(rows, scope, e);
    HistoryMembers(Play(rows, acts), scope, e);
    var before, after := History(rows, scope), History(Play(rows, acts), scope);
    var i :| 0 <= i < |before| && before[i] == e;
    assert after[i] == e;
  }

  /** Restoring an earlier snapshot of the same database always passes the merge and yields exactly the live events,
      whatever writes, restores and imports lie in between. */
  lemma {:induction false} EarlierSnapshotMerges(earlier: seq<Row>, acts: seq<Act>, project: string, saved: seq<Row>, live: seq<Row>)
    requires ValidTable(earlier)
    requires multiset(saved) == multiset(OfProject(earlier, project))
    requires multiset(live) == multiset(OfProject(Play(earlier, acts), project))
    ensures Merge(saved, live).Ok? && ValidTable(Merge(saved, live).value)
    ensures multiset(Merge(saved, live).value) == multiset(live)
  {
    hide ValidTable, Play, History;
    HistoriesOnlyGrow(earlier, acts);
    var later := Play(earlier, acts);
    ProjectValid(earlier, project);
    ProjectValid(later, project);
    ReorderValid(OfProject(earlier, project), saved);
    ReorderValid(OfProject(later, project), live);
    ValidHashed(saved);
    ValidHashed(live);
    forall row ensures multiset(live)[row] <= 1 {
      ValidCounts(live, row);
    }
    MergeIsUnion(saved, live);
    var m := Merge(saved, live).value;
    forall row ensures multiset(m)[row] == multiset(live)[row] {
      ProjectCounts(earlier, project, row);
      ProjectCounts(later, project, row);
      ValidCounts(saved, row);
      ValidCounts(live, row);
      if row in earlier {
        RowStays(earlier, acts, row);
        assert row in multiset(later);
      } else {
        assert row !in multiset(earlier);
      }
    }
    ReorderValid(live, m);
  }

  /** What is recorded after a cut-off is invisible at it, so an as-of answer never changes, whatever writes, restores
      and imports come later. */
  lemma {:induction false} AsOfStable(rows: seq<Row>, acts: seq<Act>, scope: Scope, validAt: int, recordedBefore: int)
    requires ValidTable(rows)
    requires var before, after := History(rows, scope), History(Play(rows, acts), scope);
             |after| > |before| >= 0 ==> recordedBefore < after[|before|].event.recordedAt
    ensures Known(History(Play(rows, acts), scope), recordedBefore) == Known(History(rows, scope), recordedBefore)
    ensures Candidates(History(Play(rows, acts), scope), validAt, recordedBefore)
         == Candidates(History(rows, scope), validAt, recordedBefore)
  {
    hide ValidEntry, History, Play;
    HistoriesOnlyGrow(rows, acts);
    KnownStays(History(rows, scope), History(Play(rows, acts), scope), recordedBefore);
  }

  /** Once superseded, always superseded: at later valid times, later record times, and after any later writes,
      restores and imports, whatever becomes of the superseder. */
  lemma {:induction false} SupersessionIsPermanent(rows: seq<Row>, acts: seq<Act>, scope: Scope, id: EventId, v: int, r: int, v': int, r': int)
    requires ValidTable(rows) && v <= v' && r <= r'
    requires Suppressed(Known(History(rows, scope), r), id, v)
    ensures Suppressed(Known(History(Play(rows, acts), scope), r'), id, v')
  {
    hide ValidEntry, History, Play, Suppressed, Known;
    HistoriesOnlyGrow(rows, acts);
    SuppressedStays(History(rows, scope), History(Play(rows, acts), scope), id, v, r, v', r');
  }

  // ---- validate_checkpoint ----------------------------------------------------------------------

  /** The entries of a scope in table order. */
  function Grouped(rows: seq<Row>, scope: Scope): seq<Entry> {
    if rows == [] then []
    else
      var rest := Grouped(rows[..|rows| - 1], scope);
      var row := rows[|rows| - 1];
      if row.data.scope == scope then rest + [Entry(row.id, row.data)] else rest
  }

  function SortByVersion(entries: seq<Entry>): seq<Entry> {
    if entries == [] then [] else InsertByVersion(entries[|entries| - 1], SortByVersion(entries[..|entries| - 1]))
  }

  lemma {:induction false} GroupedSorts(rows: seq<Row>, scope: Scope)
    ensures SortByVersion(Grouped(rows, scope)) == History(rows, scope)
  {
    if rows != [] {
      GroupedSorts(rows[..|rows| - 1], scope);
      var rest := Grouped(rows[..|rows| - 1], scope);
      var row := rows[|rows| - 1];
      if row.data.scope == scope {
        assert (rest + [Entry(row.id, row.data)])[..|rest|] == rest;
      }
    }
  }

  method ValidateCheckpoint(rows: seq<Row>) returns (ok: bool)
    ensures ok <==> ValidTable(rows)
  {
    hide ValidChain;
    var scopes: map<Scope, seq<Entry>> := map[];
    for i := 0 to |rows|
      invariant forall k :: 0 <= k < i ==> Projected(rows[k])
      invariant forall s :: (if s in scopes then scopes[s] else []) == Grouped(rows[..i], s)
    {
      var row := rows[i];
      if !Projected(row) {
        return false;
      }
      var scope := row.data.scope;
      var group := if scope in scopes then scopes[scope] else [];
      assert rows[..i + 1][..i] == rows[..i];
      scopes := scopes[scope := group + [Entry(row.id, row.data)]];
    }
    assert rows[..|rows|] == rows;
    var left := scopes.Keys;
    while left != {}
      invariant left <= scopes.Keys
      invariant forall s :: s in scopes && s !in left ==> ValidChain(History(rows, s))
      decreases left
    {
      var s :| s in left;
      GroupedSorts(rows, s);
      var valid := ValidateChain(SortByVersion(scopes[s]));
      if !valid {
        return false;
      }
      left := left - {s};
    }
    forall s ensures ValidChain(History(rows, s)) {
      GroupedSorts(rows, s);
      EmptyChain();
    }
    return true;
  }

  lemma EmptyChain()
    ensures ValidChain([])
  {
  }
}
