/** Repeated blob sweeps over checkpoint chains: what survives and how soon
    (src/db.rs:7747-7769 over the dependencies of src/checkpoint.rs:538-566). */
module BlobGc {
  import opened Prelude
  import opened Checkpoint
  import opened CheckpointStore

  function Rounds(r: Repo, pins: set<BlobHash>, n: nat): Repo
    decreases n
  {
    if n == 0 then r else Gc(Rounds(r, pins, n - 1), pins)
  }

  /** `h` and its ancestors along recorded dependencies. */
  ghost function Ancestors(r: Repo, h: BlobHash): set<BlobHash> {
    {h} + match h.content
          case Bytes(_) => {}
          case Checkpoint(e) =>
            if e.parent.Some? && (h, e.parent.value) in r.deps then Ancestors(r, e.parent.value) else {}
  }

  /** Blobs that must stay: referenced ones, durable roots, and their transitive parents. */
  ghost predicate IsNeeded(r: Repo, pins: set<BlobHash>, h: BlobHash) {
    h in r.blobs && exists k :: k in r.blobs && Kept(r, pins, k) && h in Ancestors(r, k)
  }

  ghost function Needed(r: Repo, pins: set<BlobHash>): set<BlobHash> {
    set h | h in r.blobs && IsNeeded(r, pins, h)
  }

  lemma {:induction false} ParentOfAncestor(r: Repo, k: BlobHash, c: BlobHash, p: BlobHash)
    requires DepsBuilt(r) && c in Ancestors(r, k) && (c, p) in r.deps
    ensures p in Ancestors(r, k)
  {
    assert (c, p).0 == c && (c, p).1 == p;
    if c != k {
      ParentOfAncestor(r, k.content.e.parent.value, c, p);
    } else {
      assert p in Ancestors(r, p);
    }
  }

  /** A needed parent is the parent of something needed, or kept itself. */
  lemma ParentOfNeeded(r: Repo, pins: set<BlobHash>, c: BlobHash, p: BlobHash)
    requires DepsBuilt(r) && IsNeeded(r, pins, c) && (c, p) in r.deps
    ensures IsNeeded(r, pins, p)
  {
    var k :| k in r.blobs && Kept(r, pins, k) && c in Ancestors(r, k);
    ParentOfAncestor(r, k, c, p);
    assert (c, p).1 in r.blobs;
  }

  /** An ancestor is the start of its line or the recorded parent of another ancestor. */
  lemma {:induction false} AncestorIsParent(r: Repo, k: BlobHash, h: BlobHash)
    requires h in Ancestors(r, k)
    ensures h == k || IsParent(r, h)
  {
    if h != k {
      var p := k.content.e.parent.value;
      assert (k, p).1 == p;
      AncestorIsParent(r, p, h);
    }
  }

  lemma NeededNotGarbage(r: Repo, pins: set<BlobHash>, h: BlobHash)
    requires IsNeeded(r, pins, h)
    ensures h !in Garbage(r, pins)
  {
    var k :| k in r.blobs && Kept(r, pins, k) && h in Ancestors(r, k);
    AncestorIsParent(r, k, h);
  }

  /** A line from a blob that stays is untouched by a sweep. */
  lemma {:induction false} AncestorsAfterGc(r: Repo, pins: set<BlobHash>, h: BlobHash)
    requires h !in Garbage(r, pins)
    ensures Ancestors(Gc(r, pins), h) == Ancestors(r, h)
  {
    if h.content.Checkpoint? && h.content.e.parent.Some? {
      var p := h.content.e.parent.value;
      if (h, p) in r.deps {
        assert (h, p).1 == p && (h, p).0 == h;
        assert IsParent(r, p);
        assert (h, p) in Gc(r, pins).deps;
        AncestorsAfterGc(r, pins, p);
      }
    }
  }

  lemma KeptAfterGc(r: Repo, pins: set<BlobHash>, k: BlobHash)
    ensures Kept(Gc(r, pins), pins, k) <==> Kept(r, pins, k)
  {
  }

  /** A sweep deletes nothing that is needed, and changes nothing about what is needed. */
  lemma GcKeepsNeeded(r: Repo, pins: set<BlobHash>)
    ensures Needed(Gc(r, pins), pins) == Needed(r, pins)
  {
    var q := Gc(r, pins);
    forall h ensures IsNeeded(q, pins, h) <==> IsNeeded(r, pins, h) {
      if IsNeeded(r, pins, h) {
        NeededNotGarbage(r, pins, h);
        var k :| k in r.blobs && Kept(r, pins, k) && h in Ancestors(r, k);
        KeptAfterGc(r, pins, k);
        AncestorsAfterGc(r, pins, k);
        assert k in q.blobs && Kept(q, pins, k) && h in Ancestors(q, k);
      }
      if IsNeeded(q, pins, h) {
        var k :| k in q.blobs && Kept(q, pins, k) && h in Ancestors(q, k);
        KeptAfterGc(r, pins, k);
        AncestorsAfterGc(r, pins, k);
        assert k in r.blobs && Kept(r, pins, k) && h in Ancestors(r, k);
      }
    }
  }

  lemma {:induction false} RoundsSound(r: Repo, pins: set<BlobHash>, n: nat)
    requires Sound(r)
    ensures Sound(Rounds(r, pins, n)) && Needed(Rounds(r, pins, n), pins) == Needed(r, pins)
    ensures Rounds(r, pins, n).blobs.Keys <= r.blobs.Keys
  {
    if n > 0 {
      RoundsSound(r, pins, n - 1);
      GcSound(Rounds(r, pins, n - 1), pins);
      GcKeepsNeeded(Rounds(r, pins, n - 1), pins);
    }
  }

  /** What an unneeded blob is spared by is a recorded child, itself unneeded. */
  lemma UnneededChild(q: Repo, pins: set<BlobHash>, h: BlobHash) returns (c: BlobHash)
    requires DepsBuilt(q) && h in q.blobs && h !in Needed(q, pins) && h !in Garbage(q, pins)
    ensures (c, h) in q.deps && c in q.blobs && c !in Needed(q, pins)
  {
    assert h in Ancestors(q, h);
    assert !Kept(q, pins, h);
    var d :| d in q.deps && d.1 == h;
    c := d.0;
    assert d == (c, h);
    if IsNeeded(q, pins, c) {
      ParentOfNeeded(q, pins, c, h);
    }
  }

  lemma {:induction false} ChildIsDeeper(q: Repo, c: BlobHash, h: BlobHash)
    requires DepsBuilt(q) && (c, h) in q.deps
    ensures Height(c) == Height(h) + 1 && Height(c) <= MAX_DEPTH
  {
    assert (c, h).0 == c && (c, h).1 == h;
    BuiltDepth(c);
  }

  /** An unneeded blob that a sweep spares is one envelope below an unneeded child. */
  lemma SparedOnce(q: Repo, pins: set<BlobHash>, h: BlobHash) returns (c: BlobHash)
    requires Sound(q) && h in Gc(q, pins).blobs && h !in Needed(q, pins)
    ensures Height(c) == Height(h) + 1 && Height(c) <= MAX_DEPTH
    ensures c in q.blobs && c !in Needed(q, pins)
  {
    c := UnneededChild(q, pins, h);
    ChildIsDeeper(q, c, h);
  }

  /** After `n` sweeps an unneeded survivor is the base of at least `n` deeper envelopes. */
  lemma {:induction false} LeftoverIsShallow(r: Repo, pins: set<BlobHash>, n: nat, h: BlobHash)
    requires Sound(r) && n > 0
    requires h in Rounds(r, pins, n).blobs && h !in Needed(r, pins)
    ensures Height(h) + n <= MAX_DEPTH
    decreases n
  {
    hide Sound, Needed, Gc, Height;
    var q := Rounds(r, pins, n - 1);
    RoundsSound(r, pins, n - 1);
    var c := SparedOnce(q, pins, h);
    if n > 1 {
      LeftoverIsShallow(r, pins, n - 1, c);
    }
  }

  /** Nine sweeps leave exactly the needed blobs, however the store was built. */
  lemma {:induction false} NineRoundsLeaveNeeded(r: Repo, pins: set<BlobHash>, n: nat)
    requires Sound(r) && n > MAX_DEPTH
    ensures Rounds(r, pins, n).blobs.Keys == Needed(r, pins)
  {
    RoundsSound(r, pins, n);
    forall h | h in Rounds(r, pins, n).blobs ensures h in Needed(r, pins) {
      if h !in Needed(r, pins) {
        LeftoverIsShallow(r, pins, n, h);
      }
    }
  }

  lemma NeededOnlyNoGarbage(q: Repo, pins: set<BlobHash>)
    requires q.blobs.Keys == Needed(q, pins)
    ensures Gc(q, pins).blobs == q.blobs && Garbage(q, pins) == {}
  {
    hide IsNeeded, Kept, IsParent;
    forall h | h in q.blobs ensures h !in Garbage(q, pins) {
      NeededNotGarbage(q, pins, h);
    }
  }

  /** ...so from the ninth sweep on, a further sweep changes nothing at all. */
  lemma NineRoundsFixpoint(r: Repo, pins: set<BlobHash>, n: nat)
    requires Sound(r) && n > MAX_DEPTH
    ensures Rounds(r, pins, n + 1) == Rounds(r, pins, n)
  {
    var q := Rounds(r, pins, n);
    NineRoundsLeaveNeeded(r, pins, n);
    RoundsSound(r, pins, n);
    NeededOnlyNoGarbage(q, pins);
    assert Rounds(r, pins, n + 1) == Drop(q, {});
    assert Drop(q, {}).deps == q.deps && Drop(q, {}).objects == q.objects;
  }

  // ---- the bound is reached ---------------------------------------------------------------

  /** The ancestor `k` generations down a chain. */
  ghost function Generation(h: BlobHash, k: nat): BlobHash
    requires k <= Height(h)
    decreases k
  {
    if k == 0 then h else Generation(h.content.e.parent.value, k - 1)
  }

  lemma {:induction false} ParentSurvivesOnce(q: Repo, pins: set<BlobHash>, child: BlobHash, parent: BlobHash)
    requires Anchored(q, child) && child.content.Checkpoint? && child.content.e.parent == Some(parent)
    ensures Anchored(Gc(q, pins), parent)
  {
    assert (child, parent) in q.deps && (child, parent).1 == parent;
    assert IsParent(q, parent);
    AnchoredSurvivesGc(q, pins, parent);
  }

  lemma {:induction false} RoundsFromFirst(r: Repo, pins: set<BlobHash>, n: nat)
    ensures Rounds(r, pins, n + 1) == Rounds(Gc(r, pins), pins, n)
    decreases n
  {
    if n > 0 {
      RoundsFromFirst(r, pins, n - 1);
    }
  }

  /** Each sweep uncovers only one generation, so the base of a chain of depth d outlives d sweeps. */
  lemma {:induction false} GenerationsGoOneByOne(r: Repo, pins: set<BlobHash>, h: BlobHash, k: nat)
    requires Anchored(r, h) && k <= Height(h)
    ensures Generation(h, k) in Rounds(r, pins, k).blobs
    decreases k
  {
    if k > 0 {
      ParentSurvivesOnce(r, pins, h, h.content.e.parent.value);
      GenerationsGoOneByOne(Gc(r, pins), pins, h.content.e.parent.value, k - 1);
      RoundsFromFirst(r, pins, k - 1);
    }
  }
}
