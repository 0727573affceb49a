/** Reference counts of checkpoint blobs over runs that store and drop any other blobs beside them
    (src/checkpoint.rs:498-504, 506-582, 895-901, 993-1016; src/compress.rs:366-382; src/db.rs:7057-7086, 7747-7769). */
module CheckpointRefs {
  import opened Prelude
  import opened Checkpoint
  import opened CheckpointStore

  /** The snapshots listed on a blob. */
  function Holders(r: Repo, h: BlobHash): set<string> {
    set id | id in r.snapshots && r.snapshots[id].blob == h
  }

  /** Every listed blob is stored, and the count of each checkpoint is the number of snapshots listed on it.  A plain
      blob may be counted for a transcript or a memory that no snapshot lists. */
  ghost predicate Balanced(r: Repo) {
    && (forall id :: id in r.snapshots ==> r.snapshots[id].blob in r.blobs)
    && (forall h :: h in r.blobs && h.content.Checkpoint? ==> r.blobs[h] == |Holders(r, h)|)
  }

  lemma ListingHolders(r: Repo, q: Repo, id: string, snapshot: Snapshot, h: BlobHash)
    requires id !in r.snapshots && q.snapshots == r.snapshots[id := snapshot]
    ensures id !in Holders(r, h)
    ensures Holders(q, h) == if h == snapshot.blob then Holders(r, h) + {id} else Holders(r, h)
  {
  }

  lemma NoHolders(r: Repo, h: BlobHash)
    requires h !in r.blobs && forall id :: id in r.snapshots ==> r.snapshots[id].blob in r.blobs
    ensures Holders(r, h) == {}
  {
  }

  lemma ListingBalances(r: Repo, q: Repo, id: string, snapshot: Snapshot)
    requires Balanced(r) && id !in r.snapshots
    requires q.blobs == AddBlob(r.blobs, snapshot.blob) && q.snapshots == r.snapshots[id := snapshot]
    ensures Balanced(q)
  {
    hide Holders;
    forall h | h in q.blobs && h.content.Checkpoint? ensures q.blobs[h] == |Holders(q, h)| {
      ListingHolders(r, q, id, snapshot, h);
      if h !in r.blobs {
        NoHolders(r, h);
      }
    }
  }

  lemma PublishBalances(r: Repo, q: Repo, id: string, project: string, e: Envelope, now: int)
    requires Balanced(r) && id !in r.snapshots && q == Publish(r, id, project, e, now)
    ensures Balanced(q)
  {
    hide Balanced, AddBlob;
    ListingBalances(r, q, id, Snapshot(Some(project), BlobHash(Checkpoint(e)), now));
  }

  lemma DeleteBalances(r: Repo, id: string, q: Repo)
    requires Balanced(r) && Delete(r, id) == Ok(q)
    ensures Balanced(q)
  {
    hide HeadsAfter;
    var gone := r.snapshots[id].blob;
    assert id in Holders(r, gone);
    forall h | h in q.blobs && h.content.Checkpoint? ensures q.blobs[h] == |Holders(q, h)| {
      assert Holders(q, h) == Holders(r, h) - (if h == gone then {id} else {});
    }
  }

  lemma GcBalances(r: Repo, pins: set<BlobHash>)
    requires Balanced(r)
    ensures Balanced(Gc(r, pins))
  {
    var q := Gc(r, pins);
    forall id | id in q.snapshots ensures q.snapshots[id].blob in q.blobs {
      assert IsRoot(r, pins, r.snapshots[id].blob);
    }
    forall h | h in q.blobs && h.content.Checkpoint? ensures q.blobs[h] == |Holders(q, h)| {
      assert Holders(q, h) == Holders(r, h);
    }
  }

  lemma SourcesBalance(r: Repo, hashes: set<BlobHash>)
    requires Balanced(r)
    ensures Balanced(r.(blobs := AddSources(r.blobs, hashes)))
  {
    var q := r.(blobs := AddSources(r.blobs, hashes));
    forall h | h in q.blobs && h.content.Checkpoint? ensures q.blobs[h] == |Holders(q, h)| {
      assert Holders(q, h) == Holders(r, h);
      if h !in r.blobs {
        NoHolders(r, h);
      }
    }
  }

  /** A listing that counts nothing: a snapshot of the whole brain. */
  lemma BrainBalances(r: Repo, id: string, h: BlobHash, now: int, q: Repo)
    requires Balanced(r) && RegisterBrain(r, id, h, now) == Ok(q)
    ensures Balanced(q) <==> h.content.Bytes?
  {
    hide Holders;
    forall b ensures Holders(q, b) == (if b == h then Holders(r, b) + {id} else Holders(r, b)) && id !in Holders(r, b) {
      ListingHolders(r, q, id, Snapshot(None, h, now), b);
    }
  }

  lemma RecountBalances(r: Repo, q: Repo, h: BlobHash)
    requires Balanced(r) && q == r.(blobs := q.blobs)
    requires q.blobs.Keys == r.blobs.Keys + {h} && forall b :: b in r.blobs && b != h ==> q.blobs[b] == r.blobs[b]
    ensures Balanced(q) <==> (h.content.Checkpoint? ==> q.blobs[h] == if h in r.blobs then r.blobs[h] else 0)
  {
    forall b ensures Holders(q, b) == Holders(r, b) {
    }
    if h !in r.blobs {
      NoHolders(r, h);
    }
  }

  /** The steps after which a checkpoint's count is off: storing its bytes or dropping a reference to it outside of
      create and delete, and listing it as a snapshot of the whole brain. */
  predicate Miscounts(r: Repo, op: Op) {
    match op
    case StoreOp(content) => content.Checkpoint?
    case DecrefOp(h) => h.content.Checkpoint? && h in r.blobs && r.blobs[h] > 0
    case BrainOp(id, h, _) => h.content.Checkpoint? && h in r.blobs && id !in r.snapshots
    case _ => false
  }

  /** Every other step keeps the counts, and each of these breaks them. */
  lemma StepBalances(r: Repo, op: Op)
    requires Balanced(r)
    ensures Balanced(Step(r, op)) <==> !Miscounts(r, op)
  {
    hide Delete, Gc, AddSources, Publish, Choose, Balanced;
    if Attempt(r, op).Ok? {
      var q := Attempt(r, op).value;
      match op
      case CreateOp(id, raw, incremental, smaller, now) =>
        PublishBalances(r, q, id, raw.project, Choose(r, Capture(raw), incremental, smaller).value, now);
      case DeleteOp(id) => DeleteBalances(r, id, q);
      case GcOp(pins) => GcBalances(r, pins);
      case RestoreOp(hashes) => SourcesBalance(r, hashes);
      case StoreOp(content) => RecountBalances(r, q, BlobHash(content));
      case DecrefOp(h) =>
        if h in r.blobs {
          assert q.blobs.Keys == r.blobs.Keys + {h};
          RecountBalances(r, q, h);
        } else {
          assert q == r;
        }
      case BrainOp(id, h, now) => BrainBalances(r, id, h, now, q);
    }
  }

  ghost predicate NeverMiscounts(r: Repo, ops: seq<Op>)
    decreases ops
  {
    ops == [] || (!Miscounts(r, ops[0]) && NeverMiscounts(Step(r, ops[0]), ops[1..]))
  }

  lemma {:induction false} RunKeepsBalance(r: Repo, ops: seq<Op>)
    requires Balanced(r) && NeverMiscounts(r, ops)
    ensures Balanced(Run(r, ops))
    decreases ops
  {
    hide Balanced, Step, Miscounts;
    if ops != [] {
      StepBalances(r, ops[0]);
      RunKeepsBalance(Step(r, ops[0]), ops[1..]);
    }
  }

  /** Conservation: however transcripts and other plain blobs are stored, dropped and listed in between, each
      checkpoint counts exactly the snapshots listed on it, and a sweep takes it exactly when no snapshot, head, live
      row or stored child refers to it. */
  lemma {:induction false} RunBalances(ops: seq<Op>, pins: set<BlobHash>)
    requires NeverMiscounts(EMPTY, ops)
    ensures var r := Run(EMPTY, ops);
            && Balanced(r)
            && forall h :: h in r.blobs && h.content.Checkpoint? ==>
                 (h in Gc(r, pins).blobs <==> IsRoot(r, pins, h) || IsParent(r, h))
  {
    hide Run, NeverMiscounts;
    var r := Run(EMPTY, ops);
    RunKeepsBalance(EMPTY, ops);
    forall h | h in r.blobs && h.content.Checkpoint?
      ensures h in Gc(r, pins).blobs <==> IsRoot(r, pins, h) || IsParent(r, h)
    {
      if r.blobs[h] > 0 {
        var id := Pick(Holders(r, h));
        assert r.snapshots[id].blob == h;
      }
    }
  }
}
