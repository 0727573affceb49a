/** The checkpoint tables as the program updates them, statement by statement, inside one transaction
    (src/checkpoint.rs:492-582, 993-1016; src/db.rs:7641-7769, 7057-7086). */
module CheckpointTables {
  import opened Prelude
  import opened Records
  import opened Delta
  import opened Checkpoint
  import opened CheckpointStore

  lemma NoSources(start: map<BlobHash, int>)
    ensures AddSources(start, {}) == start
  {
  }

  /** Adding one more source either adds a row with no reference or changes nothing. */
  lemma SourceAdded(start: map<BlobHash, int>, done: set<BlobHash>, h: BlobHash)
    ensures var before := AddSources(start, done);
            AddSources(start, done + {h}) == if h in before then before else before[h := 0]
  {
  }

  lemma SourcesAdded(start: map<BlobHash, int>, hashes: set<BlobHash>)
    ensures AddSources(start, hashes).Keys == start.Keys + hashes
    ensures forall h :: h in AddSources(start, hashes) ==> AddSources(start, hashes)[h] == if h in start then start[h] else 0
  {
  }

  /** Nothing holds on to a blob: no reference, live row, snapshot, head or stored child. */
  ghost predicate Loose(r: Repo, pins: set<BlobHash>, h: BlobHash) {
    && h in r.blobs && r.blobs[h] <= 0 && h !in pins
    && (forall id :: id in r.snapshots ==> r.snapshots[id].blob != h)
    && (forall p :: p in r.heads ==> r.heads[p] != h)
    && (forall d :: d in r.deps ==> d.1 != h)
  }

  lemma GarbageIsLoose(r: Repo, pins: set<BlobHash>, h: BlobHash)
    ensures h in Garbage(r, pins) <==> Loose(r, pins, h)
  {
  }

  lemma GarbageStored(r: Repo, pins: set<BlobHash>)
    ensures Garbage(r, pins) <= r.blobs.Keys
  {
  }

  lemma SweepSound(r: Repo, pins: set<BlobHash>)
    ensures Step(r, GcOp(pins)) == Gc(r, pins)
    ensures Sound(r) ==> Sound(Gc(r, pins))
  {
    hide Sound, Gc;
    if Sound(r) {
      GcSound(r, pins);
    }
  }

  class Tables {
    var blobs: map<BlobHash, int>
    var objects: set<BlobHash>
    var deps: set<(BlobHash, BlobHash)>
    var snapshots: map<string, Snapshot>
    var heads: map<string, BlobHash>

    function View(): Repo
      reads this
    {
      Repo(blobs, objects, deps, snapshots, heads)
    }

    constructor ()
      ensures View() == EMPTY
    {
      blobs, objects, deps, snapshots, heads := map[], {}, {}, map[], map[];
    }

    /** Picks the envelope to publish, loading the project's head when the capture is incremental. */
    method ChooseEnvelope(state: State, incremental: bool, smaller: bool) returns (r: Result<Envelope>)
      ensures r == Choose(View(), state, incremental, smaller)
    {
      hide LoadState, Difference, DeltaEnvelope;
      var envelope := FullEnvelope(state);
      if incremental && state.project in heads {
        var hash := heads[state.project];
        if hash !in blobs {
          return Err("blob not found");
        }
        if hash.content.Checkpoint? {
          var parent := hash.content.e;
          var loaded := Load(blobs, hash);
          if loaded.Err? {
            return Err(loaded.error);
          }
          var base := loaded.value;
          if parent.stateHash == envelope.stateHash {
            envelope := parent;
          } else if parent.depth < MAX_DEPTH && base.tables.Keys == state.tables.Keys {
            var delta := ComputeDifference(base, state);
            if delta.Err? {
              return Err(delta.error);
            }
            var candidate := DeltaEnvelope(state, hash, parent.stateHash, parent.depth + 1, delta.value);
            if smaller {
              envelope := candidate;
            }
          }
        }
      }
      return Ok(envelope);
    }

    /** Either the whole checkpoint is published or no table changes. */
    method Create(id: string, raw: State, incremental: bool, smaller: bool, now: int) returns (r: Result<BlobHash>)
      modifies this
      ensures match CheckpointStore.Create(old(View()), id, raw, incremental, smaller, now)
              case Ok(q) => View() == q && r == Ok(q.snapshots[id].blob)
              case Err(e) => View() == old(View()) && r == Err(e)
    {
      var state := Capture(raw);
      var valid := ValidateState(state);
      if !valid {
        return Err("invalid state");
      }
      var chosen := ChooseEnvelope(state, incremental, smaller);
      if chosen.Err? {
        return Err(chosen.error);
      }
      var envelope := chosen.value;
      var hash := BlobHash(Checkpoint(envelope));
      if id in snapshots {
        return Err("snapshot exists");
      }
      blobs := AddBlob(blobs, hash);
      objects := objects + {hash};
      if envelope.parent.Some? {
        deps := deps + {(hash, envelope.parent.value)};
      }
      snapshots := snapshots[id := Snapshot(Some(state.project), hash, now)];
      heads := heads[state.project := hash];
      return Ok(hash);
    }

    /** Removes a snapshot root; the head falls back to the newest snapshot of the project. */
    method Delete(id: string) returns (r: Result<()>)
      modifies this
      ensures match CheckpointStore.Delete(old(View()), id)
              case Ok(q) => View() == q && r.Ok?
              case Err(e) => View() == old(View()) && r == Err(e)
    {
      if id !in snapshots {
        return Err("snapshot not found");
      }
      var gone := snapshots[id];
      snapshots := snapshots - {id};
      blobs := DropRef(blobs, gone.blob);
      if gone.project.Some? {
        var project := gone.project.value;
        if project in heads && heads[project] == gone.blob {
          heads := heads - {project};
        }
        var left := OfProject(snapshots, project);
        if project !in heads && left != {} {
          var newest := FindNewest(snapshots, left);
          NewestUnique(snapshots, left, newest, Newest(snapshots, left));
          heads := heads[project := snapshots[newest].blob];
        }
      }
      return Ok(());
    }

    /** Refused for a listed id or bytes that are not stored; else the one snapshot and its object are new, no count
        moves, and whatever loads still does. */
    method RegisterBrain(id: string, h: BlobHash, now: int) returns (r: Result<()>)
      modifies this
      ensures View() == Step(old(View()), BrainOp(id, h, now))
      ensures r.Err? <==> id in old(snapshots) || h !in old(blobs)
      ensures r.Err? ==> View() == old(View())
      ensures blobs == old(blobs) && deps == old(deps) && heads == old(heads)
      ensures r.Ok? ==> snapshots.Keys == old(snapshots).Keys + {id} && objects == old(objects) + {h}
      ensures r.Ok? ==> snapshots[id].project.None? && snapshots[id].blob == h && snapshots[id].createdAt == now
      ensures forall j :: j in old(snapshots) ==> j in snapshots && snapshots[j] == old(snapshots)[j]
      ensures Sound(old(View())) ==> Sound(View())
    {
      hide Sound;
      if Sound(View()) {
        StepSound(View(), BrainOp(id, h, now));
      }
      if id in snapshots || h !in blobs {
        return Err("constraint failed");
      }
      snapshots := snapshots[id := Snapshot(None, h, now)];
      objects := objects + {h};
      return Ok(());
    }

    /** The blob is stored with one more reference than it had, and no other row moves. */
    method StoreBlob(content: Content) returns (h: BlobHash)
      modifies this`blobs
      ensures h == BlobHash(content) && View() == Step(old(View()), StoreOp(content))
      ensures blobs.Keys == old(blobs).Keys + {h}
      ensures blobs[h] == 1 + if h in old(blobs) then old(blobs)[h] else 0
      ensures forall b :: b in old(blobs) && b != h ==> blobs[b] == old(blobs)[b]
      ensures Sound(old(View())) ==> Sound(View())
    {
      hide Sound;
      h := BlobHash(content);
      blobs := AddBlob(blobs, h);
      if Sound(old(View())) {
        StepSound(old(View()), StoreOp(content));
      }
    }

    /** No row goes: the count is one lower, unless it had none to give. */
    method Decref(h: BlobHash)
      modifies this`blobs
      ensures View() == Step(old(View()), DecrefOp(h))
      ensures blobs.Keys == old(blobs).Keys
      ensures h in blobs ==> blobs[h] == old(blobs)[h] - if old(blobs)[h] > 0 then 1 else 0
      ensures forall b :: b in blobs && b != h ==> blobs[b] == old(blobs)[b]
      ensures Sound(old(View())) ==> Sound(View())
    {
      hide Sound;
      blobs := DropRef(blobs, h);
      if Sound(old(View())) {
        StepSound(old(View()), DecrefOp(h));
      }
    }

    /** Restore upserts each exact source: a new one with no reference, while known blobs keep their count. */
    method WriteSources(hashes: set<BlobHash>)
      modifies this`blobs
      ensures View() == Step(old(View()), RestoreOp(hashes))
      ensures blobs.Keys == old(blobs).Keys + hashes
      ensures forall h :: h in blobs ==> blobs[h] == if h in old(blobs) then old(blobs)[h] else 0
    {
      hide AddSources;
      var left := hashes;
      ghost var start := blobs;
      assert hashes - left == {};
      NoSources(start);
      while left != {}
        invariant left <= hashes
        invariant blobs == AddSources(start, hashes - left)
        decreases left
      {
        var h :| h in left;
        SourceAdded(start, hashes - left, h);
        assert hashes - (left - {h}) == (hashes - left) + {h};
        if h !in blobs {
          blobs := blobs[h := 0];
        }
        left := left - {h};
      }
      assert hashes - left == hashes;
      SourcesAdded(start, hashes);
    }

    /** One sweep; `pins` are the hashes live rows refer to.  A blob goes exactly when its count is used up, nothing
        pins it, no snapshot or head is on it, and no stored delta names it as parent.  Its own rows go with it, and
        whatever loads still does. */
    method Sweep(pins: set<BlobHash>) returns (removed: nat)
      modifies this
      ensures View() == Step(old(View()), GcOp(pins))
      ensures blobs.Keys <= old(blobs).Keys && forall h :: h in blobs ==> blobs[h] == old(blobs)[h]
      ensures forall h :: h in old(blobs) ==> (h !in blobs <==> Loose(old(View()), pins, h))
      ensures snapshots == old(snapshots) && heads == old(heads) && removed == |old(blobs).Keys - blobs.Keys|
      ensures forall d :: d in deps <==> d in old(deps) && d.0 !in old(blobs).Keys - blobs.Keys
      ensures Sound(old(View())) ==> Sound(View())
    {
      hide Sound, Garbage, Loose, Step;
      ghost var start := View();
      var dead := Garbage(View(), pins);
      removed := |dead|;
      blobs := blobs - dead;
      objects := objects - dead;
      deps := set d | d in deps && d.0 !in dead;
      assert start.blobs.Keys - blobs.Keys == dead by {
        GarbageStored(start, pins);
      }
      SweepSound(start, pins);
      forall h ensures h in dead <==> Loose(start, pins, h) {
        GarbageIsLoose(start, pins, h);
      }
    }
  }
}
