/** The hash-chained audit ledger of one namespace and its verification
    (src/governance.rs:329-348, src/compliance.rs:36-76). */
module Ledger {
  import opened Prelude
  import Text

  /** A stored hash: the SHA-256 of an entry's fields, or any other text that found its way into the column. */
  datatype Hash =
    | EntryHash(prev: Option<Hash>, namespace: string, memoryId: Option<int>, op: string, actor: Option<string>,
                payload: string, createdAt: int)
    | Other(text: string)

  datatype Entry = Entry(
    id: int,
    namespace: string,
    memoryId: Option<int>,
    op: string,
    actor: Option<string>,
    prev: Option<Hash>,
    hash: Hash,
    payload: string,
    createdAt: int)

  /** The hash recomputed from an entry's own fields. */
  function Derived(e: Entry): Hash {
    EntryHash(e.prev, Text.NormalizeNamespace(e.namespace), e.memoryId, e.op, e.actor, e.payload, e.createdAt)
  }

  /** The hash an entry at position `i` must point to, when the chain starts from `start`. */
  function Before(entries: seq<Entry>, i: nat, start: Option<Hash>): Option<Hash>
    requires i <= |entries|
  {
    if i == 0 then start else Some(entries[i - 1].hash)
  }

  predicate Holds(entries: seq<Entry>, i: nat, start: Option<Hash>)
    requires i < |entries|
  {
    entries[i].prev == Before(entries, i, start) && Derived(entries[i]) == entries[i].hash
  }

  predicate Linked(entries: seq<Entry>, start: Option<Hash>) {
    forall i | 0 <= i < |entries| :: Holds(entries, i, start)
  }

  /** The entry with this id is the first whose link or hash is wrong. */
  ghost predicate BreaksFirst(entries: seq<Entry>, start: Option<Hash>, id: int) {
    exists i :: 0 <= i < |entries| && entries[i].id == id
      && !Holds(entries, i, start) && forall j :: 0 <= j < i ==> Holds(entries, j, start)
  }

  /** The verification loop; it reports the first entry that breaks the chain. */
  method VerifyFrom(entries: seq<Entry>, start: Option<Hash>) returns (firstBroken: Option<int>)
    ensures firstBroken.None? <==> Linked(entries, start)
    ensures firstBroken.Some? ==> BreaksFirst(entries, start, firstBroken.value)
  {
    var prev := start;
    for i := 0 to |entries|
      invariant prev == Before(entries, i, start)
      invariant forall j :: 0 <= j < i ==> Holds(entries, j, start)
    {
      var entry := entries[i];
      if entry.prev != prev || Derived(entry) != entry.hash {
        assert !Holds(entries, i, start);
        return Some(entry.id);
      }
      prev := Some(entry.hash);
    }
    return None;
  }

  method VerifyLedgerChain(entries: seq<Entry>) returns (valid: bool, firstBroken: Option<int>)
    ensures valid <==> Linked(entries, None)
    ensures valid <==> firstBroken.None?
    ensures firstBroken.Some? ==> BreaksFirst(entries, None, firstBroken.value)
  {
    firstBroken := VerifyFrom(entries, None);
    valid := firstBroken.None?;
  }

  // ---- what an accepted ledger commits to -----------------------------------------------------

  /** All rows a query for a namespace returns carry that namespace. */
  predicate InNamespace(entries: seq<Entry>, namespace: string) {
    forall i | 0 <= i < |entries| :: entries[i].namespace == namespace
  }

  /** Every hashed field agrees; only the row id is not covered by the hash. */
  predicate SameFields(a: Entry, b: Entry) {
    a.(id := b.id) == b
  }

  /** Number of hashes a hash is built on. */
  ghost function Depth(h: Hash): nat {
    match h
    case Other(_) => 0
    case EntryHash(prev, _, _, _, _, _, _) => if prev.None? then 1 else 1 + Depth(prev.value)
  }

  lemma {:induction false} LinkedDepth(entries: seq<Entry>, i: nat)
    requires Linked(entries, None) && i < |entries|
    ensures Depth(entries[i].hash) == i + 1
  {
    assert Holds(entries, i, None);
    if i > 0 {
      LinkedDepth(entries, i - 1);
    }
  }

  /** No two entries of an accepted ledger share a hash. */
  lemma LinkedDistinct(entries: seq<Entry>, i: nat, j: nat)
    requires Linked(entries, None) && i < j < |entries|
    ensures entries[i].hash != entries[j].hash
  {
    LinkedDepth(entries, i);
    LinkedDepth(entries, j);
  }

  lemma {:induction false} SameHashSameHistory(a: seq<Entry>, b: seq<Entry>, namespace: string, i: nat)
    requires Linked(a, None) && Linked(b, None) && InNamespace(a, namespace) && InNamespace(b, namespace)
    requires i < |a| && i < |b| && a[i].hash == b[i].hash
    ensures forall k :: 0 <= k <= i ==> SameFields(a[k], b[k])
  {
    assert Holds(a, i, None) && Holds(b, i, None);
    if i > 0 {
      SameHashSameHistory(a, b, namespace, i - 1);
    }
  }

  /** The last hash commits to the whole ledger: two accepted ledgers of a namespace that end in the same hash
      have the same length and agree entry by entry in every hashed field. */
  lemma LastHashCommits(a: seq<Entry>, b: seq<Entry>, namespace: string)
    requires Linked(a, None) && Linked(b, None) && InNamespace(a, namespace) && InNamespace(b, namespace)
    requires a != [] && b != [] && a[|a| - 1].hash == b[|b| - 1].hash
    ensures |a| == |b| && forall k :: 0 <= k < |a| ==> SameFields(a[k], b[k])
  {
    LinkedDepth(a, |a| - 1);
    LinkedDepth(b, |b| - 1);
    SameHashSameHistory(a, b, namespace, |a| - 1);
  }

  lemma {:induction false} HashDepths(entries: seq<Entry>, start: Option<Hash>, i: nat)
    requires Linked(entries, start) && i < |entries|
    ensures Depth(entries[i].hash) == Depth(entries[0].hash) + i
  {
    assert Holds(entries, i, start);
    if i > 0 {
      HashDepths(entries, start, i - 1);
    }
  }

  /** Counted from the end, two chains that end in the same hash agree as far as both reach. */
  lemma {:induction false} SameEndSameFields(a: seq<Entry>, x: Option<Hash>, b: seq<Entry>, y: Option<Hash>, namespace: string, k: nat)
    requires Linked(a, x) && Linked(b, y) && InNamespace(a, namespace) && InNamespace(b, namespace)
    requires k < |a| && k < |b| && a[|a| - 1].hash == b[|b| - 1].hash
    ensures SameFields(a[|a| - 1 - k], b[|b| - 1 - k])
    decreases k
  {
    var i, j := |a| - 1 - k, |b| - 1 - k;
    assert Holds(a, i, x) && Holds(b, j, y);
    if k > 0 {
      SameEndSameFields(a, x, b, y, namespace, k - 1);
      assert Holds(a, i + 1, x) && Holds(b, j + 1, y);
    }
  }

  /** A chain from a given first hash to a given last one is fixed in its length and every hashed field. */
  lemma EndsCommit(a: seq<Entry>, x: Option<Hash>, b: seq<Entry>, y: Option<Hash>, namespace: string)
    requires Linked(a, x) && Linked(b, y) && InNamespace(a, namespace) && InNamespace(b, namespace) && a != [] && b != []
    requires a[0].hash == b[0].hash && a[|a| - 1].hash == b[|b| - 1].hash
    ensures |a| == |b| && forall k :: 0 <= k < |a| ==> SameFields(a[k], b[k])
  {
    HashDepths(a, x, |a| - 1);
    HashDepths(b, y, |b| - 1);
    forall k | 0 <= k < |a| ensures SameFields(a[k], b[k]) {
      SameEndSameFields(a, x, b, y, namespace, |a| - 1 - k);
    }
  }

  /** Editing any hashed field of any entry, whatever hashes are kept, breaks verification or changes the last hash. */
  lemma EditIsDetected(a: seq<Entry>, i: nat, edited: seq<Entry>, namespace: string)
    requires Linked(a, None) && InNamespace(a, namespace) && InNamespace(edited, namespace)
    requires i < |a| && (i >= |edited| || !SameFields(edited[i], a[i])) && edited != []
    ensures !Linked(edited, None) || edited[|edited| - 1].hash != a[|a| - 1].hash
  {
    if Linked(edited, None) && edited[|edited| - 1].hash == a[|a| - 1].hash {
      LastHashCommits(edited, a, namespace);
    }
  }
}
