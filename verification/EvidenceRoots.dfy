/** Backfill of evidence roots over the parent graph of memories (src/db.rs:365-594): a stack walk to the
    nearest rooted ancestor, with repair of broken parents, cycle reports and a batched cursor. */
module EvidenceRoots {
  import opened Prelude

  datatype SourceRef = Given(text: string) | LegacyMemory(id: int)

  datatype RecordHash = Known(text: string) | LegacyRecord(id: int)

  /** A root is a hash of its source, or a stored id from elsewhere. */
  datatype Root =
    | SourceRoot(namespace: string, sourceType: string, source: SourceRef, record: RecordHash)
    | Stored(text: string)

  datatype Row = Row(
    namespace: string,
    sourceType: string,
    sourceRef: Option<string>,
    parent: Option<int>,
    recordHash: Option<string>,
    root: Option<Root>,
    depth: int)

  datatype Report = Report(backfilled: nat, inherited: nat, newRoots: nat, broken: seq<int>, cycle: seq<int>, last: int)

  type Meta = map<int, Row>

  const BATCH: nat := 256

  function OwnRoot(id: int, row: Row): Root {
    SourceRoot(row.namespace, row.sourceType,
      match row.sourceRef case Some(r) => Given(r) case None => LegacyMemory(id),
      match row.recordHash case Some(h) => Known(h) case None => LegacyRecord(id))
  }

  // ---- what a settled row is --------------------------------------------------------------------

  predicate HasParent(meta: Meta, id: int)
    requires id in meta
  {
    meta[id].parent.Some? && meta[id].parent.value in meta
  }

  /** A row that got its root from the parent graph `before`: its parent's root one level deeper, or its own. */
  ghost predicate SettledRow(before: Meta, now: Meta, id: int)
    requires before.Keys == now.Keys && id in before
  {
    && now[id] == before[id].(root := now[id].root, depth := now[id].depth)
    && if HasParent(before, id) then
         var p := before[id].parent.value;
         now[p].root.Some? && now[id].root == now[p].root && now[id].depth == now[p].depth + 1
       else now[id].root == Some(OwnRoot(id, before[id])) && now[id].depth == 0
  }

  /** Rooted rows are untouched; every other row is untouched or settled. */
  ghost predicate Settles(before: Meta, now: Meta) {
    && before.Keys == now.Keys
    && forall id :: id in before ==> now[id] == before[id] || (before[id].root.None? && SettledRow(before, now, id))
  }

  function Unrooted(meta: Meta): set<int> {
    set id | id in meta && meta[id].root.None?
  }

  function Successor(cycle: seq<int>, i: nat): int
    requires i < |cycle|
  {
    if i + 1 < |cycle| then cycle[i + 1] else cycle[0]
  }

  /** Distinct unrooted rows, each the child of the next and the last the child of the first. */
  ghost predicate IsCycle(meta: Meta, cycle: seq<int>) {
    && cycle != [] && Distinct(cycle)
    && forall i :: 0 <= i < |cycle| ==>
         cycle[i] in meta && meta[cycle[i]].root.None? && meta[cycle[i]].parent == Some(Successor(cycle, i))
  }

  /** Row `id` leads over `n` unrooted rows to `top`, where the climb ends. */
  ghost predicate ClimbsTo(before: Meta, id: int, top: int, n: nat)
    requires id in before
    decreases n
  {
    if n == 0 then id == top
    else before[id].root.None? && HasParent(before, id) && ClimbsTo(before, before[id].parent.value, top, n - 1)
  }

  /** An unrooted row that has to be its own root: it has no parent, or its parent is gone. */
  predicate IsAnchor(before: Meta, id: int) {
    id in before && before[id].root.None? && !HasParent(before, id)
  }

  /** The same source as far as can be told: the same row, or rows that agree in where they come from, what kind that
      is, its reference and its record hash, both of them known. */
  predicate SameOrigin(a: int, x: Row, b: int, y: Row) {
    && x.namespace == y.namespace && x.sourceType == y.sourceType && x.sourceRef == y.sourceRef && x.recordHash == y.recordHash
    && (a == b || (x.sourceRef.Some? && x.recordHash.Some?))
  }

  /** A lineage has the root of the row it climbs to and counts its depth from there. */
  lemma {:induction false} LineageShares(before: Meta, now: Meta, id: int, top: int, n: nat)
    requires Settles(before, now) && id in before && ClimbsTo(before, id, top, n) && now[id].root.Some?
    ensures top in before && now[top].root == now[id].root && now[id].depth == now[top].depth + n
    decreases n
  {
    if n > 0 {
      LineageShares(before, now, before[id].parent.value, top, n - 1);
    }
  }

  /** Every settled row has a lineage that ends, at a row that had a root or at one that had to become its own. */
  lemma {:induction false} LineageEnds(before: Meta, now: Meta, id: int, path: set<int>) returns (top: int, n: nat)
    requires Settles(before, now) && id in before && now[id].root.Some?
    requires path <= before.Keys && forall x :: x in path ==> now[x].depth > now[id].depth
    ensures ClimbsTo(before, id, top, n) && top in before && (before[top].root.Some? || IsAnchor(before, top))
    decreases before.Keys - path
  {
    if before[id].root.None? && HasParent(before, id) {
      assert id !in path;
      var m: nat;
      top, m := LineageEnds(before, now, before[id].parent.value, path + {id});
      n := m + 1;
    } else {
      top, n := id, 0;
    }
  }

  /** Two settled rows end with the same root if and only if the rows their lineages begin with are of the same origin:
      independent memories never count as one piece of evidence, and one source never counts twice. */
  lemma {:induction false} SharedRootIff(before: Meta, now: Meta, a: int, top: int, n: nat, b: int, bottom: int, m: nat)
    requires Settles(before, now) && a in before && b in before && now[a].root.Some? && now[b].root.Some?
    requires ClimbsTo(before, a, top, n) && IsAnchor(before, top) && ClimbsTo(before, b, bottom, m) && IsAnchor(before, bottom)
    ensures now[a].root == now[b].root <==> SameOrigin(top, before[top], bottom, before[bottom])
  {
    LineageShares(before, now, a, top, n);
    LineageShares(before, now, b, bottom, m);
  }

  /** A lineage that climbs to a rooted row takes over exactly that root. */
  lemma {:induction false} InheritedRoot(before: Meta, now: Meta, id: int, top: int, n: nat)
    requires Settles(before, now) && id in before && ClimbsTo(before, id, top, n) && now[id].root.Some?
    requires top in before && before[top].root.Some?
    ensures now[id].root == before[top].root && now[id].depth == before[top].depth + n
  {
    LineageShares(before, now, id, top, n);
  }

  lemma SettlesTransitive(a: Meta, b: Meta, c: Meta)
    requires Settles(a, b) && Settles(b, c)
    ensures Settles(a, c)
  {
    forall id | id in a ensures c[id] == a[id] || (a[id].root.None? && SettledRow(a, c, id)) {
      assert id in b;
      if HasParent(a, id) {
        var p := a[id].parent.value;
        assert p in b;
        assert b[p].root.Some? ==> c[p] == b[p];
      }
    }
  }

  /** The parent graph and the graph's settled rows leave no choice: two backfills of one graph agree on
      every row both have rooted. */
  lemma {:induction false} SettledUnique(before: Meta, a: Meta, b: Meta, id: int, path: set<int>)
    requires Settles(before, a) && Settles(before, b) && id in before && a[id].root.Some? && b[id].root.Some?
    requires path <= before.Keys && forall x :: x in path ==> before[x].root.None? && a[x].depth > a[id].depth
    ensures a[id] == b[id]
    decreases before.Keys - path
  {
    if before[id].root.None? && HasParent(before, id) {
      var p := before[id].parent.value;
      assert id !in path;
      SettledUnique(before, a, b, p, path + {id});
    }
  }

  lemma {:induction false} RootReachesStart(before: Meta, now: Meta, cycle: seq<int>, i: nat)
    requires Settles(before, now) && IsCycle(before, cycle) && i < |cycle| && now[cycle[i]].root.Some?
    ensures now[cycle[0]].root.Some?
    decreases |cycle| - i
  {
    assert SettledRow(before, now, cycle[i]);
    if i + 1 < |cycle| {
      RootReachesStart(before, now, cycle, i + 1);
    } else {
      assert cycle[0] in before;
      assert before[cycle[i]].parent == Some(cycle[0]);
      assert HasParent(before, cycle[i]);
      assert now[cycle[0]].root.Some?;
    }
  }

  /** Along a cycle of rooted rows depths would fall one by one. */
  lemma {:induction false} DepthsFall(before: Meta, now: Meta, cycle: seq<int>, i: nat)
    requires Settles(before, now) && IsCycle(before, cycle) && i < |cycle| && now[cycle[0]].root.Some?
    ensures now[cycle[i]].root.Some? && now[cycle[i]].depth == now[cycle[0]].depth - i
    decreases i
  {
    if i > 0 {
      DepthsFall(before, now, cycle, i - 1);
      assert SettledRow(before, now, cycle[i - 1]);
    }
  }

  /** No row of a cycle is ever rooted. */
  lemma CycleStaysUnrooted(before: Meta, now: Meta, cycle: seq<int>, i: nat)
    requires Settles(before, now) && IsCycle(before, cycle) && i < |cycle|
    ensures now[cycle[i]].root.None?
  {
    if now[cycle[i]].root.Some? {
      RootReachesStart(before, now, cycle, i);
      DepthsFall(before, now, cycle, |cycle| - 1);
      CycleTurns(before, now, cycle);
      assert false;
    }
  }

  lemma CycleTurns(before: Meta, now: Meta, cycle: seq<int>)
    requires Settles(before, now) && IsCycle(before, cycle) && now[cycle[|cycle| - 1]].root.Some?
    ensures now[cycle[|cycle| - 1]].depth == now[cycle[0]].depth + 1
  {
    assert SettledRow(before, now, cycle[|cycle| - 1]);
    assert cycle[0] in before;
  }

  // ---- numbers in order -------------------------------------------------------------------------

  ghost predicate Ascending(ids: seq<int>) {
    forall i, j :: 0 <= i < j < |ids| ==> ids[i] < ids[j]
  }

  function Members(ids: seq<int>): set<int> {
    set x | x in ids
  }

  lemma {:induction false} LeastExists(ids: set<int>)
    requires ids != {}
    ensures exists i :: i in ids && forall j :: j in ids ==> i <= j
  {
    var i := Pick(ids);
    var rest := ids - {i};
    if rest == {} {
      assert ids == {i};
    } else {
      LeastExists(rest);
      var j :| j in rest && forall k :: k in rest ==> j <= k;
      var least := if i < j then i else j;
      forall k | k in ids ensures least <= k {
        assert k == i || k in rest;
      }
      assert least in ids;
    }
  }

  function Least(ids: set<int>): (least: int)
    requires ids != {}
    ensures least in ids && forall j :: j in ids ==> least <= j
  {
    LeastExists(ids);
    var i :| i in ids && forall j :: j in ids ==> i <= j;
    i
  }

  /** Sort and drop repeats. */
  method SortDedup(ids: seq<int>) returns (out: seq<int>)
    ensures Ascending(out) && Members(out) == Members(ids)
  {
    out := Smallest(Members(ids), |Members(ids)|);
  }

  /** The `n` smallest members in ascending order. */
  method Smallest(ids: set<int>, n: nat) returns (out: seq<int>)
    ensures Ascending(out) && Members(out) <= ids && |out| <= n
    ensures |out| < n || n >= |ids| ==> Members(out) == ids
    ensures out != [] ==> forall x :: x in ids && x <= out[|out| - 1] ==> x in out
    ensures out == [] <==> n == 0 || ids == {}
  {
    hide Members;
    out := [];
    var left := ids;
    NoMembers();
    while left != {} && |out| < n
      invariant left <= ids && Members(out) == ids - left && |out| <= n && |out| + |left| == |ids|
      invariant Ascending(out)
      invariant forall x, y :: x in out && y in left ==> x < y
      decreases left
    {
      var x := Least(left);
      forall i | 0 <= i < |out| ensures out[i] < x {
        assert out[i] in out;
      }
      MembersSnoc(out, x);
      out := out + [x];
      left := left - {x};
    }
    SmallestCovers(ids, left, out);
  }

  lemma SmallestCovers(ids: set<int>, left: set<int>, out: seq<int>)
    requires Members(out) == ids - left && forall x, y :: x in out && y in left ==> x < y
    ensures out != [] ==> forall x :: x in ids && x <= out[|out| - 1] ==> x in out
  {
    if out != [] {
      assert out[|out| - 1] in out;
      forall x | x in ids && x <= out[|out| - 1] ensures x in out {
        assert x in Members(out) || x in left;
      }
    }
  }

  lemma NoMembers()
    ensures Members([]) == {}
  {
  }

  lemma LastMember(ids: seq<int>)
    requires ids != []
    ensures ids[|ids| - 1] in Members(ids)
  {
  }

  lemma MembersSnoc(ids: seq<int>, x: int)
    ensures Members(ids + [x]) == Members(ids) + {x}
  {
  }

  // ---- progress of a backfill -------------------------------------------------------------------

  datatype View = View(meta: Meta, primary: map<int, Root>, report: Report)

  ghost function OwnRooted(before: Meta, after: Meta): set<int> {
    set id | id in before && id in after && before[id].root.None? && after[id].root.Some? && !HasParent(before, id)
  }

  /** Rows repaired because their parent does not exist. */
  ghost function Repaired(before: Meta, after: Meta): set<int> {
    set id | id in OwnRooted(before, after) && before[id].parent.Some?
  }

  /** One count for every row that lost its missing root, split by where the root came from. */
  ghost predicate Tallied(r: Report, q: Report, before: Meta, after: Meta) {
    && q.backfilled - r.backfilled == |Unrooted(before)| - |Unrooted(after)|
    && q.backfilled - r.backfilled == (q.inherited - r.inherited) + (q.newRoots - r.newRoots)
    && q.newRoots - r.newRoots == |OwnRooted(before, after)|
    && Members(q.broken) == Members(r.broken) + Repaired(before, after)
  }

  /** The primary-root table follows every root written. */
  ghost predicate Mirrors(a: View, b: View) {
    && a.primary.Keys <= b.primary.Keys
    && (forall id :: id in Unrooted(a.meta) - Unrooted(b.meta) ==> id in b.primary && id in b.meta && Some(b.primary[id]) == b.meta[id].root)
    && (forall id :: id in b.primary ==>
          (id in a.primary && b.primary[id] == a.primary[id]) || (id in b.meta && Some(b.primary[id]) == b.meta[id].root))
  }

  ghost predicate Progress(a: View, b: View) {
    Settles(a.meta, b.meta) && Tallied(a.report, b.report, a.meta, b.meta) && Mirrors(a, b)
  }

  lemma ProgressStays(a: View)
    ensures Progress(a, a)
  {
    assert OwnRooted(a.meta, a.meta) == {};
  }

  lemma OwnRootedJoins(a: Meta, b: Meta, c: Meta)
    requires Settles(a, b) && Settles(b, c)
    ensures OwnRooted(a, c) == OwnRooted(a, b) + OwnRooted(b, c) && OwnRooted(a, b) !! OwnRooted(b, c)
    ensures Repaired(a, c) == Repaired(a, b) + Repaired(b, c)
  {
    hide SettledRow;
    forall id | id in a
      ensures a[id].parent == b[id].parent
      ensures a[id].root.Some? ==> b[id].root.Some?
      ensures b[id].root.Some? ==> c[id].root.Some?
    {
      assert id in b;
      SameParent(a, b, id);
    }
  }

  lemma SameParent(a: Meta, b: Meta, id: int)
    requires Settles(a, b) && id in a
    ensures a[id].parent == b[id].parent && (a[id].root.Some? ==> a[id] == b[id])
  {
  }

  lemma ProgressJoins(a: View, b: View, c: View)
    requires Progress(a, b) && Progress(b, c)
    ensures Progress(a, c)
  {
    hide Settles, Mirrors, Unrooted, OwnRooted, Repaired, Members;
    SettlesTransitive(a.meta, b.meta, c.meta);
    OwnRootedJoins(a.meta, b.meta, c.meta);
    MirrorsJoins(a, b, c);
  }

  lemma MirrorsJoins(a: View, b: View, c: View)
    requires Mirrors(a, b) && Mirrors(b, c) && Settles(a.meta, b.meta) && Settles(b.meta, c.meta)
    ensures Mirrors(a, c)
  {
    hide SettledRow;
    forall id | id in b.meta && b.meta[id].root.Some? ensures c.meta[id] == b.meta[id] {
      SameParent(b.meta, c.meta, id);
    }
  }

  lemma ProgressKeeps(a: View, b: View)
    requires Progress(a, b)
    ensures a.meta.Keys == b.meta.Keys
    ensures forall id :: id in a.meta && a.meta[id].root.Some? ==> b.meta[id] == a.meta[id]
  {
  }

  lemma RelabelProgress(a: View, b: View, broken: seq<int>, last: int, cycle: seq<int>)
    requires Progress(a, b) && Members(broken) == Members(b.report.broken)
    ensures Progress(a, b.(report := b.report.(last := last, broken := broken, cycle := cycle)))
  {
  }

  function Beyond(meta: Meta, cursor: int): set<int> {
    set id | id in meta && id > cursor
  }

  /** After a batch every row up to its last id is rooted, and fewer ids remain beyond the cursor. */
  lemma BatchDone(before: Meta, after: Meta, start: int, cursor: int, ids: seq<int>, pending: set<int>)
    requires before.Keys == after.Keys && ids != [] && ids[|ids| - 1] in Members(ids) && Members(ids) <= pending
    requires pending == set id | id in Unrooted(before) && id > cursor
    requires forall id :: id in before && start < id <= cursor ==> before[id].root.Some?
    requires forall id :: id in before && before[id].root.Some? ==> after[id] == before[id]
    requires forall x :: x in ids ==> x in after && after[x].root.Some?
    requires forall x :: x in pending && x <= ids[|ids| - 1] ==> x in ids
    ensures forall id :: id in after && start < id <= ids[|ids| - 1] ==> after[id].root.Some?
    ensures Beyond(after, ids[|ids| - 1]) < Beyond(before, cursor)
    ensures ids[|ids| - 1] > cursor
  {
    var last := ids[|ids| - 1];
    assert last in Beyond(before, cursor) && last !in Beyond(after, last);
    forall id | id in after && start < id <= last ensures after[id].root.Some? {
      if before[id].root.None? {
        assert id in pending;
      }
    }
  }

  /** The rows a batch may take are exactly those beyond the cursor without a root. */
  lemma PendingRows(meta: Meta, cursor: int, pending: set<int>)
    requires pending == set id | id in Unrooted(meta) && id > cursor
    ensures pending <= meta.Keys && forall id :: id in pending <==> id in meta && id > cursor && meta[id].root.None?
  {
  }

  function Written(meta: Meta, id: int, root: Root, depth: int): Meta
    requires id in meta
  {
    meta[id := meta[id].(root := Some(root), depth := depth)]
  }

  lemma WriteShrinks(meta: Meta, id: int, root: Root, depth: int)
    requires id in meta && meta[id].root.None?
    ensures Unrooted(Written(meta, id, root, depth)) == Unrooted(meta) - {id}
    ensures OwnRooted(meta, Written(meta, id, root, depth)) == if HasParent(meta, id) then {} else {id}
  {
  }

  /** A row without a parent, or whose parent is gone, becomes its own root. */
  lemma AnchorProgress(a: View, id: int, broken: seq<int>)
    requires id in a.meta && a.meta[id].root.None? && !HasParent(a.meta, id)
    requires Members(broken) == Members(a.report.broken) + if a.meta[id].parent.Some? then {id} else {}
    ensures var root := OwnRoot(id, a.meta[id]);
            Progress(a, View(Written(a.meta, id, root, 0), a.primary[id := root],
              a.report.(backfilled := a.report.backfilled + 1, newRoots := a.report.newRoots + 1, broken := broken)))
  {
    WriteShrinks(a.meta, id, OwnRoot(id, a.meta[id]), 0);
  }

  /** A row below a rooted parent takes its root, one level deeper. */
  lemma InheritProgress(a: View, id: int, root: Root, depth: int)
    requires id in a.meta && a.meta[id].root.None? && HasParent(a.meta, id)
    requires var p := a.meta[id].parent.value; a.meta[p].root == Some(root) && depth == a.meta[p].depth + 1
    ensures Progress(a, View(Written(a.meta, id, root, depth), a.primary[id := root],
              a.report.(backfilled := a.report.backfilled + 1, inherited := a.report.inherited + 1)))
  {
    WriteShrinks(a.meta, id, root, depth);
  }

  /** What a finished backfill from `start` means for the graph it began with: every row beyond the cursor is
      settled, the counters account for exactly the rows that were missing a root, and no cycle reaches
      beyond the cursor. */
  lemma BackfillOutcome(a: View, b: View, start: int)
    requires Progress(a, b) && forall id :: id in b.meta && id > start ==> b.meta[id].root.Some?
    ensures forall id :: id in Unrooted(a.meta) && id > start ==> SettledRow(a.meta, b.meta, id)
    ensures forall id :: id in a.meta && a.meta[id].root.Some? ==> b.meta[id] == a.meta[id]
    ensures b.report.backfilled - a.report.backfilled == |Unrooted(a.meta)| - |Unrooted(b.meta)|
    ensures forall cycle, i :: IsCycle(a.meta, cycle) && 0 <= i < |cycle| ==> cycle[i] <= start
  {
    forall cycle, i | IsCycle(a.meta, cycle) && 0 <= i < |cycle| ensures cycle[i] <= start {
      CycleStaysUnrooted(a.meta, b.meta, cycle, i);
      assert cycle[i] in b.meta;
    }
  }

  /** A reported cycle was a cycle of the graph the backfill began with. */
  lemma ReportedCycleIsReal(a: View, b: View, cycle: seq<int>)
    requires Progress(a, b) && IsCycle(b.meta, cycle)
    ensures IsCycle(a.meta, cycle)
  {
    forall i | 0 <= i < |cycle|
      ensures cycle[i] in a.meta && a.meta[cycle[i]].root.None? && a.meta[cycle[i]].parent == Some(Successor(cycle, i))
    {
      var x := cycle[i];
      assert x in b.meta;
      SameParent(a.meta, b.meta, x);
    }
  }

  // ---- the stack of a walk ------------------------------------------------------------------------

  function Above(chain: seq<int>, i: nat, cursor: int): int
    requires i < |chain|
  {
    if i + 1 < |chain| then chain[i + 1] else cursor
  }

  /** The rows on the stack: unrooted, each the child of the next, the last the child of `cursor`. */
  ghost predicate Climbs(meta: Meta, chain: seq<int>, start: int, cursor: int) {
    && Distinct(chain)
    && (if chain == [] then cursor == start else chain[0] == start)
    && forall i :: 0 <= i < |chain| ==>
         chain[i] in meta && meta[chain[i]].root.None? && meta[chain[i]].parent == Some(Above(chain, i, cursor))
  }

  lemma ClimbStarts(meta: Meta, start: int)
    ensures Climbs(meta, [], start, start)
  {
  }

  lemma ClimbsOn(meta: Meta, chain: seq<int>, start: int, cursor: int, next: int)
    requires Climbs(meta, chain, start, cursor) && cursor !in chain
    requires cursor in meta && meta[cursor].root.None? && meta[cursor].parent == Some(next)
    ensures Climbs(meta, chain + [cursor], start, next)
  {
    var all := chain + [cursor];
    forall i | 0 <= i < |all|
      ensures all[i] in meta && meta[all[i]].root.None? && meta[all[i]].parent == Some(Above(all, i, next))
    {
      if i < |chain| {
        assert Above(all, i, next) == Above(chain, i, cursor);
      }
    }
  }

  lemma ClimbsBack(meta: Meta, chain: seq<int>, start: int, cursor: int)
    requires Climbs(meta, chain, start, cursor) && chain != []
    ensures var last := chain[|chain| - 1];
            && Climbs(meta, chain[..|chain| - 1], start, last) && last !in chain[..|chain| - 1]
            && last in meta && meta[last].root.None? && meta[last].parent == Some(cursor)
            && (|chain| == 1 ==> last == start)
  {
    var rest, last := chain[..|chain| - 1], chain[|chain| - 1];
    assert Above(chain, |chain| - 1, cursor) == cursor;
    forall i | 0 <= i < |rest|
      ensures rest[i] in meta && meta[rest[i]].root.None? && meta[rest[i]].parent == Some(Above(rest, i, last))
    {
      assert rest[i] == chain[i] && Above(chain, i, cursor) == Above(rest, i, last);
    }
  }

  lemma ClimbsAfterWrite(meta: Meta, chain: seq<int>, start: int, cursor: int, id: int, root: Root, depth: int)
    requires Climbs(meta, chain, start, cursor) && id in meta && id !in chain
    ensures Climbs(Written(meta, id, root, depth), chain, start, cursor)
  {
  }

  /** The ids are those of a cycle, each once and in order. */
  ghost predicate CycleReport(meta: Meta, ids: seq<int>) {
    ids != [] && Ascending(ids) && exists cycle :: IsCycle(meta, cycle) && Members(cycle) == Members(ids)
  }

  lemma CycleNotEmpty(meta: Meta, ids: seq<int>)
    requires CycleReport(meta, ids)
    ensures ids != []
  {
  }

  lemma CycleReported(meta: Meta, cycle: seq<int>, ids: seq<int>)
    requires IsCycle(meta, cycle) && Ascending(ids) && Members(cycle) == Members(ids)
    ensures CycleReport(meta, ids)
  {
    assert cycle[0] in Members(ids);
  }

  /** A walk that meets a row of its own stack has found a cycle: the stack from that row on. */
  lemma ClimbCloses(meta: Meta, chain: seq<int>, start: int, k: nat)
    requires k < |chain| && Climbs(meta, chain, start, chain[k])
    ensures IsCycle(meta, chain[k..])
  {
    var cycle := chain[k..];
    forall i | 0 <= i < |cycle|
      ensures cycle[i] in meta && meta[cycle[i]].root.None? && meta[cycle[i]].parent == Some(Successor(cycle, i))
    {
      assert cycle[i] == chain[k + i] && Above(chain, k + i, chain[k]) == Successor(cycle, i);
    }
  }

  /** `skip_while` up to the row the walk came back to. */
  method FromFirst(chain: seq<int>, cursor: int) returns (k: nat)
    requires cursor in chain
    ensures k < |chain| && chain[k] == cursor
  {
    k := 0;
    while chain[k] != cursor
      invariant k < |chain| && cursor in chain[k..]
      decreases |chain| - k
    {
      k := k + 1;
    }
  }

  /** Rewriting the primary row of a rooted row changes no root. */
  lemma RepairProgress(a: View, id: int)
    requires id in a.meta && a.meta[id].root.Some?
    ensures Progress(a, a.(primary := a.primary[id := a.meta[id].root.value]))
  {
    assert OwnRooted(a.meta, a.meta) == {};
  }

  /** A supporting root goes only by becoming the root of its row. */
  ghost predicate Promoted(before: set<(int, Root)>, after: set<(int, Root)>, meta: Meta) {
    after <= before && forall p :: p in before - after ==> p.0 in meta && meta[p.0].root == Some(p.1)
  }

  lemma PromotedStays(s: set<(int, Root)>, meta: Meta)
    ensures Promoted(s, s, meta)
  {
  }

  lemma PromotedJoins(s: set<(int, Root)>, t: set<(int, Root)>, u: set<(int, Root)>, b: View, c: View)
    requires Progress(b, c) && Promoted(s, t, b.meta) && Promoted(t, u, c.meta)
    ensures Promoted(s, u, c.meta)
  {
    hide Progress;
    ProgressKeeps(b, c);
    forall p | p in s - u ensures p.0 in c.meta && c.meta[p.0].root == Some(p.1) {
      if p in t {
        assert p in t - u;
      } else {
        var id := p.0;
        assert p in s - t;
        assert c.meta[id] == b.meta[id];
      }
    }
  }

  /** Room to inherit: no rooted row lies so deep that all rows without a root could not hang below it. */
  ghost predicate Headroom(meta: Meta) {
    && |Unrooted(meta)| <= MAX_I64
    && forall id :: id in meta && meta[id].root.Some? ==> meta[id].depth + |Unrooted(meta)| <= MAX_I64
  }

  lemma WrittenHeadroom(meta: Meta, id: int, root: Root, depth: int)
    requires Headroom(meta) && id in meta && meta[id].root.None?
    requires depth == 0 || exists p :: p in meta && meta[p].root.Some? && depth == meta[p].depth + 1
    ensures Headroom(Written(meta, id, root, depth))
  {
    WriteShrinks(meta, id, root, depth);
  }

  /** With room, a row that still lacks a root can always go one deeper. */
  lemma RoomToInherit(meta: Meta, top: int, id: int)
    requires Headroom(meta) && top in meta && meta[top].root.Some? && id in meta && meta[id].root.None?
    ensures meta[top].depth < MAX_I64
  {
    assert id in Unrooted(meta);
  }

  // ---- the tables in place ------------------------------------------------------------------------

  /** `primary` and `supporting` are the two kinds of rows of `memory_evidence_roots`. */
  class EvidenceTables {
    var meta: Meta
    var primary: map<int, Root>
    var supporting: set<(int, Root)>
    var report: Report

    ghost function Now(): View
      reads this
    {
      View(meta, primary, report)
    }

    /** The roots attached to a memory, in either role. */
    ghost function Attached(id: int): set<Root>
      reads this
    {
      (if id in primary then {primary[id]} else {}) + set p | p in supporting && p.0 == id :: p.1
    }

    /** One row per memory and root. */
    ghost predicate Keyed()
      reads this
    {
      forall id :: id in primary ==> (id, primary[id]) !in supporting
    }

    constructor (meta: Meta, primary: map<int, Root>, supporting: set<(int, Root)>, report: Report)
      ensures Now() == View(meta, primary, report) && this.supporting == supporting
    {
      this.meta, this.primary, this.supporting, this.report := meta, primary, supporting, report;
    }

    /** `persist_primary_evidence_root`: the row gets its root, and the root replaces the primary one in the list of
        the memory, which may have held it as a supporting root.  No other root of any memory is lost, and a table
        with one row per root stays one. */
    method Persist(id: int, root: Root, depth: int)
      requires id in meta
      modifies this`meta, this`primary, this`supporting
      ensures meta == Written(old(meta), id, root, depth) && primary == old(primary)[id := root]
      ensures supporting == old(supporting) - {(id, root)}
      ensures Attached(id) >= old(Attached(id)) - (if id in old(primary) then {old(primary)[id]} else {})
      ensures forall other :: other != id ==> Attached(other) == old(Attached(other))
      ensures old(Keyed()) ==> Keyed() && Attached(id) == old(Attached(id)) - (if id in old(primary) then {old(primary)[id]} else {}) + {root}
    {
      meta := meta[id := meta[id].(root := Some(root), depth := depth)];
      ghost var gone: set<Root> := if id in primary then {primary[id]} else {};
      primary := primary - {id};
      supporting := supporting - {(id, root)};
      primary := primary[id := root];
      assert Attached(id) >= old(Attached(id)) - gone by {
        forall r | r in old(Attached(id)) - gone ensures r in Attached(id) {
          assert r == root || (id, r) in supporting;
        }
      }
      forall other | other != id ensures Attached(other) == old(Attached(other)) {
        assert forall r :: (other, r) in supporting <==> (other, r) in old(supporting);
      }
      assert old(Keyed()) ==> Attached(id) == old(Attached(id)) - gone + {root};
    }

    /** Makes a row its own root. */
    method Anchor(id: int) returns (root: Root)
      requires id in meta && meta[id].root.None? && !HasParent(meta, id)
      modifies this
      ensures root == OwnRoot(id, old(meta)[id]) && meta == Written(old(meta), id, root, 0)
      ensures Headroom(old(meta)) ==> Headroom(meta)
      ensures Promoted(old(supporting), supporting, meta)
      ensures Progress(old(Now()), Now()) && report.cycle == old(report).cycle && report.last == old(report).last
    {
      if Headroom(meta) {
        WrittenHeadroom(meta, id, OwnRoot(id, meta[id]), 0);
      }
      root := OwnRoot(id, meta[id]);
      var broken := report.broken;
      if meta[id].parent.Some? {
        MembersSnoc(broken, id);
        broken := broken + [id];
      }
      AnchorProgress(Now(), id, broken);
      Persist(id, root, 0);
      report := report.(backfilled := report.backfilled + 1, newRoots := report.newRoots + 1, broken := broken);
    }

    /** Writes the primary row of a rooted row again, which older partial migrations may have left out. */
    method Repair(id: int)
      requires id in meta && meta[id].root.Some?
      modifies this`meta, this`primary, this`supporting
      ensures meta == old(meta) && Progress(old(Now()), Now()) && Promoted(old(supporting), supporting, meta)
    {
      RepairProgress(Now(), id);
      Persist(id, meta[id].root.value, meta[id].depth);
      assert meta == old(meta);
    }

    /** Climbs to the nearest row with a root, or one that becomes its own; `None` means a cycle. */
    method Climb(start: int) returns (chain: seq<int>, top: int, found: Option<(Root, int)>)
      requires start in meta
      modifies this
      ensures Progress(old(Now()), Now()) && report.last == old(report).last && Promoted(old(supporting), supporting, meta)
      ensures Headroom(old(meta)) ==> Headroom(meta)
      ensures found.None? ==>
        && meta == old(meta) && primary == old(primary) && supporting == old(supporting) && report == old(report).(cycle := report.cycle)
        && CycleReport(meta, report.cycle)
      ensures found.Some? ==>
        && report.cycle == old(report).cycle && Climbs(meta, chain, start, top) && (chain == [] ==> top == start)
        && top in meta && meta[top].root == Some(found.value.0) && meta[top].depth == found.value.1
    {
      hide Progress, Climbs, IsCycle, Ascending, CycleReport;
      chain, top, found := [], start, None;
      var seen: set<int> := {};
      ProgressStays(Now());
      ClimbStarts(meta, start);
      while true
        invariant Now() == old(Now()) && supporting == old(supporting)
        invariant seen == Members(chain) && seen <= meta.Keys && Climbs(meta, chain, start, top)
        invariant chain == [] ==> top == start
        decreases meta.Keys - seen
      {
        if top in seen {
          var k := FromFirst(chain, top);
          ClimbCloses(meta, chain, start, k);
          var cycle := SortDedup(chain[k..]);
          CycleReported(meta, chain[k..], cycle);
          RelabelProgress(Now(), Now(), report.broken, report.last, cycle);
          report := report.(cycle := cycle);
          return;
        }
        if top !in meta {
          ClimbsBack(meta, chain, start, top);
          top := chain[|chain| - 1];
          chain := chain[..|chain| - 1];
          ClimbsAfterWrite(meta, chain, start, top, top, OwnRoot(top, meta[top]), 0);
          var root := Anchor(top);
          found := Some((root, 0));
          return;
        }
        var row := meta[top];
        if row.root.Some? {
          Repair(top);
          found := Some((row.root.value, row.depth));
          return;
        }
        if row.parent.None? {
          ClimbsAfterWrite(meta, chain, start, top, top, OwnRoot(top, meta[top]), 0);
          var root := Anchor(top);
          found := Some((root, 0));
          return;
        }
        ClimbsOn(meta, chain, start, top, row.parent.value);
        MembersSnoc(chain, top);
        chain := chain + [top];
        seen := seen + {top};
        top := row.parent.value;
      }
    }

    /** `resolve_missing_evidence_root`: roots a row and every unrooted row above it, or reports a cycle and
        writes nothing. */
    method Resolve(start: int) returns (r: Result<bool>)
      modifies this
      ensures Progress(old(Now()), Now()) && report.last == old(report).last && Promoted(old(supporting), supporting, meta)
      ensures r == Ok(true) ==> start in meta && meta[start].root.Some? && report.cycle == old(report).cycle
      ensures r == Ok(false) ==>
        && meta == old(meta) && primary == old(primary) && supporting == old(supporting) && report == old(report).(cycle := report.cycle)
        && CycleReport(meta, report.cycle)
      ensures r.Err? ==> start !in meta || exists id :: id in meta && meta[id].root.Some? && meta[id].depth == MAX_I64
      ensures Headroom(old(meta)) ==> Headroom(meta) && (start in old(meta) ==> r.Ok?)
    {
      hide Progress, Climbs, IsCycle, Ascending, CycleReport, Headroom, Unrooted;
      ProgressStays(Now());
      if start !in meta {
        return Err("memory_meta row disappeared");
      }
      var chain, top, found := Climb(start);
      if found.None? {
        return Ok(false);
      }
      var (root, depth) := found.value;
      while chain != []
        invariant Progress(old(Now()), Now()) && report.last == old(report).last && report.cycle == old(report).cycle
        invariant Promoted(old(supporting), supporting, meta) && (Headroom(old(meta)) ==> Headroom(meta))
        invariant Climbs(meta, chain, start, top) && top in meta && meta[top].root == Some(root) && meta[top].depth == depth
        invariant chain == [] ==> top == start
        decreases |chain|
      {
        ClimbsBack(meta, chain, start, top);
        if Headroom(meta) {
          RoomToInherit(meta, top, chain[|chain| - 1]);
          WrittenHeadroom(meta, chain[|chain| - 1], root, depth + 1);
        }
        if depth == MAX_I64 {
          return Err("derivation depth overflow");
        }
        depth := depth + 1;
        var id := chain[|chain| - 1];
        chain := chain[..|chain| - 1];
        InheritProgress(Now(), id, root, depth);
        ClimbsAfterWrite(meta, chain, start, id, id, root, depth);
        ghost var before, kept := Now(), supporting;
        Persist(id, root, depth);
        report := report.(backfilled := report.backfilled + 1, inherited := report.inherited + 1);
        ProgressJoins(old(Now()), before, Now());
        PromotedJoins(old(supporting), kept, supporting, before, Now());
        top := id;
      }
      return Ok(true);
    }

    /** One batch, then the cursor and the sorted list of repaired parents. */
    method RunBatch(ids: seq<int>) returns (r: Result<bool>)
      requires ids != [] && Members(ids) <= meta.Keys
      modifies this
      ensures Progress(old(Now()), Now()) && Promoted(old(supporting), supporting, meta)
      ensures r == Ok(true) ==> report.cycle == old(report).cycle && forall x :: x in ids ==> x in meta && meta[x].root.Some?
      ensures r == Ok(false) ==> CycleReport(meta, report.cycle)
      ensures r.Err? ==> exists id :: id in meta && meta[id].root.Some? && meta[id].depth == MAX_I64
      ensures Headroom(old(meta)) ==> Headroom(meta) && r.Ok?
    {
      hide Progress, CycleReport, Ascending, Headroom;
      ProgressStays(Now());
      for i := 0 to |ids|
        invariant Progress(old(Now()), Now()) && report.cycle == old(report).cycle && Members(ids) <= meta.Keys
        invariant Promoted(old(supporting), supporting, meta) && (Headroom(old(meta)) ==> Headroom(meta))
        invariant forall k :: 0 <= k < i ==> ids[k] in meta && meta[ids[k]].root.Some?
      {
        ghost var before, kept := Now(), supporting;
        assert ids[i] in Members(ids);
        r := Resolve(ids[i]);
        ProgressJoins(old(Now()), before, Now());
        PromotedJoins(old(supporting), kept, supporting, before, Now());
        ProgressKeeps(before, Now());
        if r != Ok(true) {
          return;
        }
        forall k | 0 <= k < i ensures ids[k] in meta && meta[ids[k]].root.Some? {
          var x := ids[k];
          assert x in before.meta && before.meta[x].root.Some?;
          assert Now().meta[x] == before.meta[x];
        }
      }
      var broken := SortDedup(report.broken);
      RelabelProgress(old(Now()), Now(), broken, ids[|ids| - 1], report.cycle);
      report := report.(last := ids[|ids| - 1], broken := broken);
      return Ok(true);
    }

    /** `evidence_backfill_from_cursor`: batches of unrooted rows in id order, from the cursor on. */
    method Backfill(start: int) returns (r: Result<()>)
      modifies this
      ensures Progress(old(Now()), Now()) && Promoted(old(supporting), supporting, meta)
      ensures r.Ok? && report.cycle == [] ==> forall id :: id in meta && id > start ==> meta[id].root.Some?
      ensures r.Ok? && old(report).cycle == [] && report.cycle != [] ==> CycleReport(meta, report.cycle)
      ensures r.Err? ==> exists id :: id in meta && meta[id].root.Some? && meta[id].depth == MAX_I64
      ensures Headroom(old(meta)) ==> r.Ok?
      ensures (forall id :: id in old(meta) && id > start ==> old(meta)[id].root.Some?) ==> Now() == old(Now()) && supporting == old(supporting) && r.Ok?
    {
      hide Progress, CycleReport, Ascending, Beyond, Members, Headroom, Promoted, Unrooted;
      PromotedStays(supporting, meta);
      var cursor := start;
      ProgressStays(Now());
      while true
        invariant Progress(old(Now()), Now()) && report.cycle == old(report).cycle && Promoted(old(supporting), supporting, meta)
        invariant Headroom(old(meta)) ==> Headroom(meta)
        invariant cursor >= start && forall id :: id in meta && start < id <= cursor ==> meta[id].root.Some?
        invariant (forall id :: id in old(meta) && id > start ==> old(meta)[id].root.Some?) ==> Now() == old(Now()) && supporting == old(supporting)
        decreases Beyond(meta, cursor)
      {
        var pending := set id | id in Unrooted(meta) && id > cursor;
        PendingRows(meta, cursor, pending);
        var ids := Smallest(pending, BATCH);
        if ids == [] {
          return Ok(());
        }
        ghost var before, kept := Now(), supporting;
        assert Members(ids) <= pending;
        var done := RunBatch(ids);
        ProgressJoins(old(Now()), before, Now());
        PromotedJoins(old(supporting), kept, supporting, before, Now());
        ProgressKeeps(before, Now());
        if done.Err? {
          return Err(done.error);
        }
        if !done.value {
          assert report.cycle != [] by { CycleNotEmpty(meta, report.cycle); }
          return Ok(());
        }
        LastMember(ids);
        BatchDone(before.meta, meta, start, cursor, ids, pending);
        cursor := ids[|ids| - 1];
      }
    }
  }
}
