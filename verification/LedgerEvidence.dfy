/** Fork evidence over a ledger with branches (src/compliance.rs:401-445, 516-520). */
module LedgerEvidence {
  import opened Prelude
  import opened Ledger

  datatype Fork = Fork(prev: Option<Hash>, childIds: seq<int>, childHashes: seq<Hash>)

  datatype Evidence = Evidence(namespace: string, entries: seq<Entry>, forks: seq<Fork>, tips: seq<Hash>)

  // ---- declarative reading of a ledger as a tree ----------------------------------------------

  function Prevs(entries: seq<Entry>): set<Option<Hash>> {
    set i | 0 <= i < |entries| :: entries[i].prev
  }

  function Referenced(entries: seq<Entry>): set<Hash> {
    set i | 0 <= i < |entries| && entries[i].prev.Some? :: entries[i].prev.value
  }

  function Children(entries: seq<Entry>, p: Option<Hash>): seq<Entry> {
    if entries == [] then []
    else
      var rest := Children(entries[..|entries| - 1], p);
      if entries[|entries| - 1].prev == p then rest + [entries[|entries| - 1]] else rest
  }

  function IdsOf(entries: seq<Entry>): seq<int> {
    seq(|entries|, i requires 0 <= i < |entries| => entries[i].id)
  }

  function HashesOf(entries: seq<Entry>): seq<Hash> {
    seq(|entries|, i requires 0 <= i < |entries| => entries[i].hash)
  }

  function ForkAt(entries: seq<Entry>, p: Option<Hash>): Fork {
    Fork(p, IdsOf(Children(entries, p)), HashesOf(Children(entries, p)))
  }

  function ForkKeys(entries: seq<Entry>): set<Option<Hash>> {
    set p | p in Prevs(entries) && |Children(entries, p)| > 1
  }

  function KeysOf(forks: seq<Fork>): set<Option<Hash>> {
    set i | 0 <= i < |forks| :: forks[i].prev
  }

  /** Each parent with more than one child is listed once, with all its children in order. */
  ghost predicate IsForkList(entries: seq<Entry>, forks: seq<Fork>) {
    && (forall i :: 0 <= i < |forks| ==> forks[i] == ForkAt(entries, forks[i].prev))
    && (forall i, j :: 0 <= i < j < |forks| ==> forks[i].prev != forks[j].prev)
    && KeysOf(forks) == ForkKeys(entries)
  }

  function Tips(entries: seq<Entry>, referenced: set<Hash>): seq<Hash> {
    if entries == [] then []
    else
      var rest := Tips(entries[..|entries| - 1], referenced);
      if entries[|entries| - 1].hash in referenced then rest else rest + [entries[|entries| - 1].hash]
  }

  lemma {:induction false} ChildrenJoin(a: seq<Entry>, b: seq<Entry>, p: Option<Hash>)
    ensures Children(a + b, p) == Children(a, p) + Children(b, p)
    decreases b
  {
    if b == [] {
      assert a + b == a;
    } else {
      assert (a + b)[..|a + b| - 1] == a + b[..|b| - 1];
      ChildrenJoin(a, b[..|b| - 1], p);
    }
  }

  /** The children of a parent are exactly the entries that point at it, as often and (by the join) in the order they
      stand. */
  lemma {:induction false} ChildrenAre(a: seq<Entry>, p: Option<Hash>, e: Entry)
    ensures multiset(Children(a, p))[e] == if e.prev == p then multiset(a)[e] else 0
  {
    if a != [] {
      assert a == a[..|a| - 1] + [a[|a| - 1]];
      ChildrenAre(a[..|a| - 1], p, e);
    }
  }

  /** `at` lists the places of the entries that point at `p`, in order. */
  ghost predicate PlacesOf(entries: seq<Entry>, p: Option<Hash>, at: seq<nat>) {
    && (forall k :: 0 <= k < |at| ==> at[k] < |entries| && entries[at[k]].prev == p)
    && (forall j, k :: 0 <= j < k < |at| ==> at[j] < at[k])
    && (forall i: nat :: i < |entries| && entries[i].prev == p ==> i in at)
  }

  lemma {:induction false} ChildrenPlaces(entries: seq<Entry>, p: Option<Hash>) returns (at: seq<nat>)
    ensures PlacesOf(entries, p, at) && |at| == |Children(entries, p)|
    ensures forall k :: 0 <= k < |at| ==> Children(entries, p)[k] == entries[at[k]]
  {
    if entries == [] {
      at := [];
    } else {
      var n := |entries| - 1;
      at := ChildrenPlaces(entries[..n], p);
      assert forall k :: 0 <= k < |at| ==> entries[..n][at[k]] == entries[at[k]];
      assert forall i: nat :: i < n ==> entries[..n][i] == entries[i];
      if entries[n].prev == p {
        at := at + [n];
      }
    }
  }

  /** A listed fork names ids and hashes of the entries that point at its parent, all of them and in ledger order. */
  lemma ForkReads(entries: seq<Entry>, forks: seq<Fork>, i: nat) returns (at: seq<nat>)
    requires IsForkList(entries, forks) && i < |forks|
    ensures PlacesOf(entries, forks[i].prev, at) && |at| > 1
    ensures |forks[i].childIds| == |forks[i].childHashes| == |at|
    ensures forall k :: 0 <= k < |at| ==>
      forks[i].childIds[k] == entries[at[k]].id && forks[i].childHashes[k] == entries[at[k]].hash
  {
    at := ChildrenPlaces(entries, forks[i].prev);
    assert forks[i].prev in KeysOf(forks);
  }

  lemma {:induction false} TipsJoin(a: seq<Entry>, b: seq<Entry>, referenced: set<Hash>)
    ensures Tips(a + b, referenced) == Tips(a, referenced) + Tips(b, referenced)
    decreases b
  {
    if b == [] {
      assert a + b == a;
    } else {
      assert (a + b)[..|a + b| - 1] == a + b[..|b| - 1];
      TipsJoin(a, b[..|b| - 1], referenced);
    }
  }

  /** The tips are exactly the hashes nothing refers to, as often and (by the join) in the order they stand. */
  lemma {:induction false} TipsAre(a: seq<Entry>, referenced: set<Hash>, h: Hash)
    ensures multiset(Tips(a, referenced))[h] == if h in referenced then 0 else multiset(HashesOf(a))[h]
  {
    if a != [] {
      var init, last := a[..|a| - 1], a[|a| - 1];
      TipsAre(init, referenced, h);
      assert HashesOf(a) == HashesOf(init) + [last.hash];
      assert Tips(a, referenced) == Tips(init, referenced) + if last.hash in referenced then [] else [last.hash];
    }
  }

  lemma ReferencedAre(entries: seq<Entry>, h: Hash)
    ensures h in Referenced(entries) <==> exists i :: 0 <= i < |entries| && entries[i].prev == Some(h)
  {
    if i :| 0 <= i < |entries| && entries[i].prev == Some(h) {
      assert entries[i].prev.value in Referenced(entries);
    }
  }

  // ---- the loops of `build_ledger_evidence` ---------------------------------------------------

  ghost predicate Grouped(children: map<Option<Hash>, seq<Entry>>, entries: seq<Entry>) {
    children.Keys == Prevs(entries) && forall p :: p in children ==> children[p] == Children(entries, p)
  }

  lemma PrevsSnoc(entries: seq<Entry>, e: Entry)
    ensures Prevs(entries + [e]) == Prevs(entries) + {e.prev}
    ensures Referenced(entries + [e]) == Referenced(entries) + (if e.prev.Some? then {e.prev.value} else {})
  {
    var all := entries + [e];
    forall i | 0 <= i < |entries| ensures all[i] == entries[i] {
    }
    assert all[|entries|] == e;
    forall p | p in Prevs(entries) ensures p in Prevs(all) {
      var i :| 0 <= i < |entries| && entries[i].prev == p;
      assert all[i].prev == p;
    }
    forall h | h in Referenced(entries) ensures h in Referenced(all) {
      var i :| 0 <= i < |entries| && entries[i].prev == Some(h);
      assert all[i].prev == Some(h);
    }
  }

  lemma {:induction false} NoChildren(entries: seq<Entry>, p: Option<Hash>)
    ensures Children(entries, p) == [] <==> p !in Prevs(entries)
  {
    if entries != [] {
      NoChildren(entries[..|entries| - 1], p);
      PrevsSnoc(entries[..|entries| - 1], entries[|entries| - 1]);
      assert entries == entries[..|entries| - 1] + [entries[|entries| - 1]];
    }
  }

  method GroupChildren(entries: seq<Entry>) returns (children: map<Option<Hash>, seq<Entry>>, referenced: set<Hash>)
    ensures Grouped(children, entries) && referenced == Referenced(entries)
  {
    children, referenced := map[], {};
    for i := 0 to |entries|
      invariant Grouped(children, entries[..i]) && referenced == Referenced(entries[..i])
    {
      var entry := entries[i];
      TakeSnoc(entries, i);
      PrevsSnoc(entries[..i], entry);
      assert (entries[..i] + [entry])[..i] == entries[..i];
      NoChildren(entries[..i], entry.prev);
      children := children[entry.prev := (if entry.prev in children then children[entry.prev] else []) + [entry]];
      if entry.prev.Some? {
        referenced := referenced + {entry.prev.value};
      }
    }
    assert entries[..|entries|] == entries;
  }

  lemma KeysSnoc(forks: seq<Fork>, f: Fork)
    ensures KeysOf(forks + [f]) == KeysOf(forks) + {f.prev}
  {
    var all := forks + [f];
    assert all[|forks|] == f;
    forall p | p in KeysOf(forks) ensures p in KeysOf(all) {
      var i :| 0 <= i < |forks| && forks[i].prev == p;
      assert all[i].prev == p;
    }
  }

  method BuildEvidence(namespace: string, entries: seq<Entry>) returns (e: Evidence)
    ensures e.namespace == namespace && e.entries == entries
    ensures IsForkList(entries, e.forks)
    ensures e.tips == Tips(entries, Referenced(entries))
  {
    hide Children, Prevs;
    var children, referenced := GroupChildren(entries);
    var forks: seq<Fork> := [];
    var left := children.Keys;
    while left != {}
      invariant left <= children.Keys
      invariant forall i :: 0 <= i < |forks| ==> forks[i] == ForkAt(entries, forks[i].prev)
      invariant forall i, j :: 0 <= i < j < |forks| ==> forks[i].prev != forks[j].prev
      invariant KeysOf(forks) == ForkKeys(entries) - left
      decreases left
    {
      var p :| p in left;
      left := left - {p};
      if |children[p]| > 1 {
        var fork := Fork(p, IdsOf(children[p]), HashesOf(children[p]));
        KeysSnoc(forks, fork);
        forall i | 0 <= i < |forks| ensures forks[i].prev != p {
          assert forks[i].prev in KeysOf(forks);
        }
        forks := forks + [fork];
      }
    }
    var tips := [];
    for i := 0 to |entries|
      invariant tips == Tips(entries[..i], referenced)
    {
      assert entries[..i + 1][..i] == entries[..i];
      if entries[i].hash !in referenced {
        tips := tips + [entries[i].hash];
      }
    }
    assert entries[..|entries|] == entries;
    return Evidence(namespace, entries, forks, tips);
  }

  /** The fork count of `verify_current_ledger_epoch`. */
  method CountForkPoints(entries: seq<Entry>) returns (points: nat)
    ensures points == |ForkKeys(entries)|
  {
    var counts: map<Option<Hash>, nat> := map[];
    for i := 0 to |entries|
      invariant counts.Keys == Prevs(entries[..i])
      invariant forall p :: p in counts ==> counts[p] == |Children(entries[..i], p)|
    {
      var p := entries[i].prev;
      TakeSnoc(entries, i);
      PrevsSnoc(entries[..i], entries[i]);
      assert (entries[..i] + [entries[i]])[..i] == entries[..i];
      NoChildren(entries[..i], p);
      counts := counts[p := (if p in counts then counts[p] else 0) + 1];
    }
    assert entries[..|entries|] == entries;
    var points' := set p | p in counts && counts[p] > 1;
    assert points' == ForkKeys(entries);
    return |points'|;
  }

  lemma {:induction false} ForkListSize(forks: seq<Fork>)
    requires forall i, j :: 0 <= i < j < |forks| ==> forks[i].prev != forks[j].prev
    ensures |KeysOf(forks)| == |forks|
  {
    if forks != [] {
      var init, last := forks[..|forks| - 1], forks[|forks| - 1];
      ForkListSize(init);
      KeysSnoc(init, last);
      assert forks == init + [last];
      forall i | 0 <= i < |init| ensures init[i].prev != last.prev {
        assert forks[i].prev != forks[|forks| - 1].prev;
      }
    }
  }

  // ---- counting tips --------------------------------------------------------------------------

  function ExtraChildren(forks: seq<Fork>): int {
    if forks == [] then 0 else ExtraChildren(forks[..|forks| - 1]) + |forks[|forks| - 1].childIds| - 1
  }

  /** How many entries have their parent in `keys`. */
  function CountIn(entries: seq<Entry>, keys: set<Option<Hash>>): nat {
    if entries == [] then 0
    else CountIn(entries[..|entries| - 1], keys) + if entries[|entries| - 1].prev in keys then 1 else 0
  }

  lemma {:induction false} CountInOne(entries: seq<Entry>, keys: set<Option<Hash>>, p: Option<Hash>)
    requires p !in keys
    ensures CountIn(entries, keys + {p}) == CountIn(entries, keys) + |Children(entries, p)|
  {
    if entries != [] {
      CountInOne(entries[..|entries| - 1], keys, p);
    }
  }

  lemma {:induction false} CountInNone(entries: seq<Entry>)
    ensures CountIn(entries, {}) == 0
  {
    if entries != [] {
      CountInNone(entries[..|entries| - 1]);
    }
  }

  lemma {:induction false} CountInAll(entries: seq<Entry>, keys: set<Option<Hash>>)
    requires Prevs(entries) <= keys
    ensures CountIn(entries, keys) == |entries|
  {
    if entries != [] {
      var init, last := entries[..|entries| - 1], entries[|entries| - 1];
      PrevsSnoc(init, last);
      assert entries == init + [last];
      CountInAll(init, keys);
    }
  }

  /** Parents with a single child contribute as many entries as there are such parents. */
  lemma {:induction false} CountSingles(entries: seq<Entry>, keys: set<Option<Hash>>, singles: set<Option<Hash>>)
    requires keys !! singles && forall p :: p in singles ==> |Children(entries, p)| == 1
    ensures CountIn(entries, keys + singles) == CountIn(entries, keys) + |singles|
    decreases singles
  {
    if singles == {} {
      assert keys + singles == keys;
    } else {
      var p :| p in singles;
      CountSingles(entries, keys, singles - {p});
      CountInOne(entries, keys + (singles - {p}), p);
      assert keys + singles == keys + (singles - {p}) + {p};
    }
  }

  lemma {:induction false} CountForks(entries: seq<Entry>, forks: seq<Fork>)
    requires forall i :: 0 <= i < |forks| ==> forks[i] == ForkAt(entries, forks[i].prev)
    requires forall i, j :: 0 <= i < j < |forks| ==> forks[i].prev != forks[j].prev
    ensures CountIn(entries, KeysOf(forks)) == ExtraChildren(forks) + |forks|
  {
    if forks == [] {
      CountInNone(entries);
      assert KeysOf(forks) == {};
    } else {
      var init, last := forks[..|forks| - 1], forks[|forks| - 1];
      CountForks(entries, init);
      KeysSnoc(init, last);
      assert forks == init + [last];
      forall i | 0 <= i < |init| ensures init[i].prev != last.prev {
        assert forks[i].prev != forks[|forks| - 1].prev;
      }
      CountInOne(entries, KeysOf(init), last.prev);
    }
  }

  /** Entries beyond the first child of each parent. */
  lemma {:induction false} ForkSum(entries: seq<Entry>, forks: seq<Fork>)
    requires IsForkList(entries, forks)
    ensures ExtraChildren(forks) == |entries| - |Prevs(entries)|
  {
    var keys := ForkKeys(entries);
    var singles := Prevs(entries) - keys;
    forall p | p in singles ensures |Children(entries, p)| == 1 {
      NoChildren(entries, p);
    }
    CountForks(entries, forks);
    ForkListSize(forks);
    CountSingles(entries, keys, singles);
    assert keys + singles == Prevs(entries);
    CountInAll(entries, Prevs(entries));
  }

  ghost predicate UniqueHashes(entries: seq<Entry>) {
    forall i, j :: 0 <= i < j < |entries| ==> entries[i].hash != entries[j].hash
  }

  /** Every parent is absent or an earlier entry. */
  ghost predicate Rooted(entries: seq<Entry>) {
    forall i :: 0 <= i < |entries| ==>
      entries[i].prev.None? || exists j :: 0 <= j < i && entries[i].prev == Some(entries[j].hash)
  }

  lemma {:induction false} TipsCount(entries: seq<Entry>, referenced: set<Hash>)
    requires UniqueHashes(entries) && referenced <= set i | 0 <= i < |entries| :: entries[i].hash
    ensures |Tips(entries, referenced)| == |entries| - |referenced|
    decreases |entries|
  {
    if entries == [] {
      assert referenced == {};
    } else {
      var init, last := entries[..|entries| - 1], entries[|entries| - 1];
      forall h | h in referenced - {last.hash} ensures h in set i | 0 <= i < |init| :: init[i].hash {
        var i :| 0 <= i < |entries| && entries[i].hash == h;
        assert init[i].hash == h;
      }
      TipsCount(init, referenced - {last.hash});
      TipsSame(init, referenced, last.hash);
    }
  }

  lemma {:induction false} TipsSame(entries: seq<Entry>, referenced: set<Hash>, h: Hash)
    requires forall i :: 0 <= i < |entries| ==> entries[i].hash != h
    ensures Tips(entries, referenced - {h}) == Tips(entries, referenced)
  {
    if entries != [] {
      TipsSame(entries[..|entries| - 1], referenced, h);
    }
  }

  lemma {:induction false} SomeCount(hashes: set<Hash>)
    ensures |set h | h in hashes :: Some(h)| == |hashes|
  {
    if hashes != {} {
      var h :| h in hashes;
      SomeCount(hashes - {h});
      assert (set k | k in hashes :: Some(k)) == (set k | k in hashes - {h} :: Some(k)) + {Some(h)};
    }
  }

  lemma PrevsCount(entries: seq<Entry>)
    requires entries != [] && Rooted(entries)
    ensures |Prevs(entries)| == |Referenced(entries)| + 1
  {
    var some := set h | h in Referenced(entries) :: Some(h);
    SomeCount(Referenced(entries));
    assert entries[0].prev == None;
    forall p ensures p in Prevs(entries) <==> p in some + {None} {
      if p in Prevs(entries) && p.Some? {
        var i :| 0 <= i < |entries| && entries[i].prev == p;
        assert entries[i].prev.value in Referenced(entries);
      }
    }
    assert Prevs(entries) == some + {None};
  }

  /** A ledger whose every entry hangs on an earlier one has one tip more than it has extra children at forks,
      so it has exactly one tip if and only if it has no fork. */
  lemma {:induction false} TipsCountForks(entries: seq<Entry>, forks: seq<Fork>)
    requires entries != [] && UniqueHashes(entries) && Rooted(entries) && IsForkList(entries, forks)
    ensures |Tips(entries, Referenced(entries))| == 1 + ExtraChildren(forks)
    ensures |Tips(entries, Referenced(entries))| == 1 <==> forks == []
  {
    forall h | h in Referenced(entries) ensures h in set i | 0 <= i < |entries| :: entries[i].hash {
      var i :| 0 <= i < |entries| && entries[i].prev == Some(h);
      var j :| 0 <= j < i && entries[i].prev == Some(entries[j].hash);
      assert entries[j].hash == h;
    }
    TipsCount(entries, Referenced(entries));
    ForkSum(entries, forks);
    PrevsCount(entries);
    ExtraChildrenPositive(entries, forks);
  }

  lemma {:induction false} ExtraChildrenPositive(entries: seq<Entry>, forks: seq<Fork>)
    requires forall i :: 0 <= i < |forks| ==> forks[i] == ForkAt(entries, forks[i].prev)
    requires KeysOf(forks) <= ForkKeys(entries)
    ensures ExtraChildren(forks) >= |forks|
  {
    if forks != [] {
      var init, last := forks[..|forks| - 1], forks[|forks| - 1];
      KeysSnoc(init, last);
      assert forks == init + [last];
      ExtraChildrenPositive(entries, init);
      assert last.prev in ForkKeys(entries);
    }
  }

  // ---- evidence and verification agree --------------------------------------------------------

  lemma {:induction false} TwoChildren(entries: seq<Entry>, a: nat, b: nat)
    requires a < b < |entries| && entries[a].prev == entries[b].prev
    ensures |Children(entries, entries[a].prev)| > 1
  {
    var init := entries[..|entries| - 1];
    if b == |entries| - 1 {
      NoChildren(init, entries[a].prev);
      assert init[a].prev in Prevs(init);
    } else {
      TwoChildren(init, a, b);
    }
  }

  lemma SharedParentIsFork(entries: seq<Entry>, a: nat, b: nat)
    requires a < b < |entries| && entries[a].prev == entries[b].prev
    ensures entries[a].prev in ForkKeys(entries)
  {
    TwoChildren(entries, a, b);
  }

  lemma {:induction false} OneChild(entries: seq<Entry>, p: Option<Hash>)
    requires forall i, j :: 0 <= i < j < |entries| ==> entries[i].prev != entries[j].prev
    ensures |Children(entries, p)| <= 1
  {
    if entries != [] {
      var init := entries[..|entries| - 1];
      OneChild(init, p);
      NoChildren(init, p);
      forall i | 0 <= i < |init| ensures init[i].prev != entries[|entries| - 1].prev {
        assert entries[i].prev != entries[|entries| - 1].prev;
      }
    }
  }

  lemma {:induction false} NoForksLinks(entries: seq<Entry>, i: nat)
    requires UniqueHashes(entries) && Rooted(entries) && ForkKeys(entries) == {} && i < |entries|
    ensures entries[i].prev == Before(entries, i, None)
  {
    if i > 0 {
      if entries[i].prev.None? {
        assert entries[0].prev.None?;
        SharedParentIsFork(entries, 0, i);
        assert false;
      } else {
        var j :| 0 <= j < i && entries[i].prev == Some(entries[j].hash);
        if j + 1 < i {
          NoForksLinks(entries, j + 1);
          SharedParentIsFork(entries, j + 1, i);
          assert false;
        }
      }
    }
  }

  /** When every entry hashes correctly and hangs on an earlier one, verification accepts the ledger
      if and only if the evidence lists no fork. */
  lemma VerifiesIffNoForks(entries: seq<Entry>, forks: seq<Fork>)
    requires UniqueHashes(entries) && Rooted(entries) && IsForkList(entries, forks)
    requires forall i :: 0 <= i < |entries| ==> Derived(entries[i]) == entries[i].hash
    ensures Linked(entries, None) <==> forks == []
  {
    ForkListSize(forks);
    if forks == [] {
      assert KeysOf(forks) == {};
      forall i | 0 <= i < |entries| ensures Holds(entries, i, None) {
        NoForksLinks(entries, i);
      }
    } else {
      var p := forks[0].prev;
      assert p in ForkKeys(entries);
      if Linked(entries, None) {
        forall i, j | 0 <= i < j < |entries| ensures entries[i].prev != entries[j].prev {
          assert Holds(entries, i, None) && Holds(entries, j, None);
          if i > 0 {
            LinkedDistinct(entries, i - 1, j - 1);
          }
        }
        OneChild(entries, p);
      }
    }
  }
}
