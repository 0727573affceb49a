/** Concurrent ledger writers and the forward-only epoch migration (src/db.rs:4604-4852;
    src/compliance.rs:401-551).  Every append and every migration locks its namespace, reads the head,
    inserts and commits; evidence builds and the first check of a migration run outside the lock. */
module LedgerEpochs {
  import opened Prelude
  import opened Ledger
  import opened LedgerEvidence
  import Text

  datatype EvidenceHash = EvidenceHash(evidence: Evidence)

  datatype Bundle = Bundle(sha: EvidenceHash, evidence: Evidence)

  datatype Epoch = Epoch(epoch: int, startId: int, startHash: Hash, sha: EvidenceHash, prior: nat)

  datatype Plan =
    | Append(ns: string, memoryId: Option<int>, op: string, actor: Option<string>, payload: string)
    | Migrate(bundle: Bundle, agent: string, summary: string)

  /** Where a writer stands in its transaction. */
  datatype Writer =
    | Idle
    | Checked(plan: Plan)
    | Locked(plan: Plan)
    | HeadRead(plan: Plan, head: Option<Hash>)
    | Written(plan: Plan, entry: Entry, epoch: Option<Epoch>)

  /** `bundles` is the evidence built while its namespace had no epoch. */
  datatype World = World(
    ledgers: map<string, seq<Entry>>,
    epochs: map<string, seq<Epoch>>,
    nextId: int,
    locks: map<string, nat>,
    writers: map<nat, Writer>,
    bundles: set<Bundle>)

  function Namespace(plan: Plan): string {
    match plan
    case Append(ns, _, _, _, _) => ns
    case Migrate(bundle, _, _) => bundle.evidence.namespace
  }

  function LedgerOf(w: World, ns: string): seq<Entry> {
    if ns in w.ledgers then w.ledgers[ns] else []
  }

  function EpochsOf(w: World, ns: string): seq<Epoch> {
    if ns in w.epochs then w.epochs[ns] else []
  }

  function WriterAt(w: World, who: nat): Writer {
    if who in w.writers then w.writers[who] else Idle
  }

  function Head(entries: seq<Entry>): Option<Hash> {
    Before(entries, |entries|, None)
  }

  /** The entry a plan writes on top of `head`. */
  function EntryFor(plan: Plan, id: int, head: Option<Hash>, now: int): Entry {
    var ns := Namespace(plan);
    match plan
    case Append(_, memoryId, op, actor, payload) =>
      var e := Entry(id, ns, memoryId, op, actor, head, Other(""), payload, now);
      e.(hash := Derived(e))
    case Migrate(_, agent, summary) =>
      var e := Entry(id, ns, None, "migration_genesis", Some(agent), head, Other(""), summary, now);
      e.(hash := Derived(e))
  }

  predicate Taken(w: World, h: Hash) {
    exists ns | ns in w.ledgers :: h in HashesOf(w.ledgers[ns])
  }

  /** A migration only goes on top of the last entry of its evidence. */
  predicate HeadExpected(plan: Plan, head: Option<Hash>) {
    plan.Migrate? ==>
      plan.bundle.evidence.entries != []
      && head == Some(plan.bundle.evidence.entries[|plan.bundle.evidence.entries| - 1].hash)
  }

  function EpochFor(w: World, plan: Plan, entry: Entry): Option<Epoch> {
    match plan
    case Append(_, _, _, _, _) => None
    case Migrate(bundle, _, _) =>
      Some(Epoch(|EpochsOf(w, Namespace(plan))| + 1, entry.id, entry.hash, bundle.sha, |bundle.evidence.entries|))
  }

  /** `bundle` is what `build_ledger_evidence` returns for the ledger as it stands. */
  ghost predicate IsEvidence(bundle: Bundle, entries: seq<Entry>) {
    && bundle.sha == EvidenceHash(bundle.evidence) && bundle.evidence.entries == entries
    && IsForkList(entries, bundle.evidence.forks) && bundle.evidence.tips == Tips(entries, Referenced(entries))
  }

  datatype Act =
    | BuildAct(bundle: Bundle)
    | CheckAct(plan: Plan)
    | LockAct(plan: Plan)
    | ReadAct
    | InsertAct(now: int)
    | CommitAct
    | AbortAct

  function Put(w: World, who: nat, x: Writer): World {
    w.(writers := w.writers[who := x])
  }

  function Unlock(w: World, who: nat, plan: Plan): World {
    Put(w, who, Idle).(locks := w.locks - {Namespace(plan)})
  }

  function InsertStep(w: World, who: nat, plan: Plan, head: Option<Hash>, now: int): World {
    var entry := EntryFor(plan, w.nextId, head, now);
    if !HeadExpected(plan, head) || Taken(w, entry.hash) then Unlock(w, who, plan)
    else Put(w, who, Written(plan, entry, EpochFor(w, plan, entry))).(nextId := w.nextId + 1)
  }

  function CommitStep(w: World, who: nat, plan: Plan, entry: Entry, epoch: Option<Epoch>): World {
    var ns := Namespace(plan);
    var q := Unlock(w, who, plan);
    q.(ledgers := q.ledgers[ns := LedgerOf(w, ns) + [entry]],
       epochs := if epoch.Some? then q.epochs[ns := EpochsOf(w, ns) + [epoch.value]] else q.epochs)
  }

  /** One step of one writer; a step that is not enabled changes nothing. */
  ghost function Perform(w: World, who: nat, act: Act): World {
    var x := WriterAt(w, who);
    match act
    case BuildAct(bundle) =>
      if IsEvidence(bundle, LedgerOf(w, bundle.evidence.namespace)) && EpochsOf(w, bundle.evidence.namespace) == []
      then w.(bundles := w.bundles + {bundle}) else w
    case CheckAct(plan) =>
      if x.Idle? && plan.Migrate? && EpochsOf(w, Namespace(plan)) == []
         && plan.bundle.sha == EvidenceHash(plan.bundle.evidence) && plan.bundle.evidence.entries != []
      then Put(w, who, Checked(plan)) else w
    case LockAct(plan) =>
      if Namespace(plan) !in w.locks && ((x.Idle? && plan.Append?) || x == Checked(plan))
      then Put(w, who, Locked(plan)).(locks := w.locks[Namespace(plan) := who]) else w
    case ReadAct =>
      if x.Locked? then Put(w, who, HeadRead(x.plan, Head(LedgerOf(w, Namespace(x.plan))))) else w
    case InsertAct(now) =>
      if x.HeadRead? then InsertStep(w, who, x.plan, x.head, now) else w
    case CommitAct =>
      if x.Written? then CommitStep(w, who, x.plan, x.entry, x.epoch) else w
    case AbortAct =>
      if x.Checked? then Put(w, who, Idle) else if x.Idle? then w else Unlock(w, who, x.plan)
  }

  ghost function Run(w: World, acts: seq<(nat, Act)>): World
    decreases acts
  {
    if acts == [] then w else Run(Perform(w, acts[0].0, acts[0].1), acts[1..])
  }

  /** A writer that gives up is idle again and gives back its lock, and nobody else notices. */
  lemma AbortFrees(w: World, who: nat)
    ensures var x, q := WriterAt(w, who), Perform(w, who, AbortAct);
      && WriterAt(q, who).Idle? && q.ledgers == w.ledgers && q.epochs == w.epochs && q.nextId == w.nextId
      && (forall other: nat :: other != who ==> WriterAt(q, other) == WriterAt(w, other))
      && (forall ns :: ns in q.locks <==>
            ns in w.locks && (x.Locked? || x.HeadRead? || x.Written? ==> ns != Namespace(x.plan)))
      && (forall ns :: ns in q.locks ==> q.locks[ns] == w.locks[ns])
  {
  }

  /** Evidence built before there is an epoch is on record; nothing else happens. */
  lemma BuildRecords(w: World, who: nat, bundle: Bundle)
    ensures var q := Perform(w, who, BuildAct(bundle));
      && q.(bundles := w.bundles) == w
      && (bundle in q.bundles <==>
            || bundle in w.bundles
            || (IsEvidence(bundle, LedgerOf(w, bundle.evidence.namespace)) && EpochsOf(w, bundle.evidence.namespace) == []))
      && (forall b :: b != bundle ==> (b in q.bundles <==> b in w.bundles))
  {
    hide IsEvidence;
  }

  // ---- the invariant --------------------------------------------------------------------------

  ghost predicate Increasing(entries: seq<Entry>, bound: int) {
    && (forall i, j :: 0 <= i < j < |entries| ==> entries[i].id < entries[j].id)
    && (forall i :: 0 <= i < |entries| ==> entries[i].id < bound)
  }

  /** From position `n` on, every entry hashes correctly and points at the one before it. */
  ghost predicate LinkedAfter(entries: seq<Entry>, n: nat) {
    forall i :: n <= i < |entries| ==> Holds(entries, i, None)
  }

  ghost predicate LedgerOk(base: seq<Entry>, entries: seq<Entry>, bound: int) {
    base <= entries && Increasing(entries, bound) && UniqueHashes(entries) && LinkedAfter(entries, |base|)
  }

  /** A migration still on its way: its evidence was built or came from elsewhere; if it was built and an epoch got
      in first, the ledger has outgrown it. */
  ghost predicate Pending(w: World, plan: Plan) {
    plan.Migrate? ==>
      && plan.bundle.sha == EvidenceHash(plan.bundle.evidence) && plan.bundle.evidence.entries != []
      && (plan.bundle in w.bundles && EpochsOf(w, Namespace(plan)) != [] ==>
            |plan.bundle.evidence.entries| < |LedgerOf(w, Namespace(plan))|)
  }

  ghost predicate CanAppend(entries: seq<Entry>, e: Entry, bound: int) {
    && e.prev == Head(entries) && Derived(e) == e.hash && e.hash !in HashesOf(entries)
    && e.id < bound && Increasing(entries, e.id)
  }

  ghost predicate WriterOk(w: World, who: nat, x: Writer) {
    match x
    case Idle => true
    case Checked(plan) => Pending(w, plan)
    case Locked(plan) => Pending(w, plan) && Holder(w, plan, who)
    case HeadRead(plan, head) => Pending(w, plan) && Holder(w, plan, who) && head == Head(LedgerOf(w, Namespace(plan)))
    case Written(plan, entry, epoch) =>
      && Pending(w, plan) && Holder(w, plan, who)
      && CanAppend(LedgerOf(w, Namespace(plan)), entry, w.nextId)
      && HeadExpected(plan, Head(LedgerOf(w, Namespace(plan))))
      && (plan.Migrate? && plan.bundle in w.bundles ==> plan.bundle.evidence.entries == LedgerOf(w, Namespace(plan)))
      && epoch == EpochFor(w, plan, entry)
  }

  predicate Holder(w: World, plan: Plan, who: nat) {
    Namespace(plan) in w.locks && w.locks[Namespace(plan)] == who
  }

  ghost predicate BundleOk(w: World, b: Bundle) {
    b.evidence.entries <= LedgerOf(w, b.evidence.namespace) && IsEvidence(b, b.evidence.entries)
  }

  /** The epoch commits to exactly the history before its first entry, and starts a chain of its own. */
  ghost predicate EpochFits(entries: seq<Entry>, ep: Epoch, e: Evidence) {
    && ep.sha == EvidenceHash(e) && ep.prior == |e.entries| < |entries|
    && entries[..ep.prior] == e.entries
    && entries[ep.prior].id == ep.startId && entries[ep.prior].hash == ep.startHash
    && LinkedAfter(entries, ep.prior)
    && IsForkList(e.entries, e.forks)
  }

  /** The epoch begins at position `p`, on top of the last entry of its evidence. */
  ghost predicate StartsAt(entries: seq<Entry>, ep: Epoch, p: nat) {
    var part := ep.sha.evidence.entries;
    && 0 < p < |entries| && entries[p].id == ep.startId && entries[p].hash == ep.startHash && LinkedAfter(entries, p)
    && part != [] && part[|part| - 1].hash == entries[p - 1].hash && ep.prior == |part|
  }

  /** The evidence of the epoch was built while there was none. */
  ghost predicate Built(w: World, ep: Epoch) {
    Bundle(ep.sha, ep.sha.evidence) in w.bundles
  }

  ghost predicate EpochOk(w: World, ns: string, k: nat)
    requires k < |EpochsOf(w, ns)|
  {
    var ep, l := EpochsOf(w, ns)[k], LedgerOf(w, ns);
    && ep.epoch == k + 1 && ep.sha.evidence.namespace == ns
    && (exists p: nat :: StartsAt(l, ep, p))
    && (Built(w, ep) ==> k == 0 && EpochFits(l, ep, ep.sha.evidence))
  }

  ghost predicate EpochsOk(w: World, ns: string) {
    forall k: nat :: k < |EpochsOf(w, ns)| ==> EpochOk(w, ns, k)
  }

  ghost predicate LedgersOk(w: World, base: map<string, seq<Entry>>) {
    forall ns: string :: LedgerOk(if ns in base then base[ns] else [], LedgerOf(w, ns), w.nextId)
  }

  ghost predicate WritersOk(w: World) {
    forall who: nat :: WriterOk(w, who, WriterAt(w, who))
  }

  ghost predicate BundlesOk(w: World) {
    forall b :: b in w.bundles ==> BundleOk(w, b)
  }

  ghost predicate AllEpochsOk(w: World) {
    forall ns: string :: EpochsOk(w, ns)
  }

  ghost predicate Good(w: World, base: map<string, seq<Entry>>) {
    LedgersOk(w, base) && WritersOk(w) && BundlesOk(w) && AllEpochsOk(w)
  }

  /** Any legacy ledgers, forked or broken as they may be; only the unique index is relied on. */
  ghost predicate IsStart(w: World, base: map<string, seq<Entry>>) {
    && w.ledgers == base && w.epochs == map[] && w.locks == map[] && w.writers == map[] && w.bundles == {}
    && forall ns :: ns in base ==> Increasing(base[ns], w.nextId) && UniqueHashes(base[ns])
  }

  lemma StartGood(w: World, base: map<string, seq<Entry>>)
    requires IsStart(w, base)
    ensures Good(w, base)
  {
  }

  // ---- every step keeps the invariant -----------------------------------------------------------

  lemma LinkedSnoc(entries: seq<Entry>, e: Entry, n: nat)
    requires LinkedAfter(entries, n) && e.prev == Head(entries) && Derived(e) == e.hash
    ensures LinkedAfter(entries + [e], n)
  {
    forall i | n <= i < |entries| + 1 ensures Holds(entries + [e], i, None) {
      if i < |entries| {
        assert Holds(entries, i, None);
      }
    }
  }

  lemma AppendKeepsLedger(base: seq<Entry>, entries: seq<Entry>, e: Entry, bound: int)
    requires LedgerOk(base, entries, bound) && CanAppend(entries, e, bound)
    ensures LedgerOk(base, entries + [e], bound)
  {
    LinkedSnoc(entries, e, |base|);
    var all := entries + [e];
    forall i, j | 0 <= i < j < |all| ensures all[i].hash != all[j].hash {
      if j == |entries| {
        assert HashesOf(entries)[i] == entries[i].hash;
      }
    }
  }

  /** Only one hash ends a ledger of unique hashes. */
  lemma SameHeadWhole(entries: seq<Entry>, part: seq<Entry>)
    requires UniqueHashes(entries) && part <= entries && part != []
    requires Head(entries) == Some(part[|part| - 1].hash)
    ensures part == entries
  {
    assert entries[|part| - 1] == part[|part| - 1];
  }

  lemma LargerBound(base: seq<Entry>, entries: seq<Entry>, bound: int, larger: int)
    requires LedgerOk(base, entries, bound) && bound <= larger
    ensures LedgerOk(base, entries, larger)
  {
  }

  lemma WriterKeeps(w: World, q: World, who: nat, x: Writer)
    requires q.ledgers == w.ledgers && q.epochs == w.epochs && q.bundles == w.bundles && w.nextId <= q.nextId
    requires forall ns :: ns in w.locks && w.locks[ns] == who ==> ns in q.locks && q.locks[ns] == who
    requires WriterOk(w, who, x)
    ensures WriterOk(q, who, x)
  {
    hide Increasing, Derived, HashesOf, Head;
  }

  /** Steps that leave ledgers, epochs and bundles alone. */
  lemma LocalStep(w: World, q: World, base: map<string, seq<Entry>>, who: nat)
    requires Good(w, base)
    requires q.ledgers == w.ledgers && q.epochs == w.epochs && q.bundles == w.bundles && w.nextId <= q.nextId
    requires forall other: nat :: other != who ==> WriterAt(q, other) == WriterAt(w, other)
    requires forall ns :: ns in w.locks && w.locks[ns] != who ==> ns in q.locks && q.locks[ns] == w.locks[ns]
    requires WriterOk(q, who, WriterAt(q, who))
    ensures Good(q, base)
  {
    hide LedgerOk, EpochFits, IsEvidence, WriterOk, StartsAt;
    forall ns: string ensures LedgerOk(if ns in base then base[ns] else [], LedgerOf(q, ns), q.nextId) {
      LargerBound(if ns in base then base[ns] else [], LedgerOf(w, ns), w.nextId, q.nextId);
    }
    forall other: nat ensures WriterOk(q, other, WriterAt(q, other)) {
      if other != who {
        WriterKeeps(w, q, other, WriterAt(w, other));
      }
    }
    forall b | b in q.bundles ensures BundleOk(q, b) {
      assert BundleOk(w, b);
    }
    forall ns: string ensures EpochsOk(q, ns) {
      assert EpochsOk(w, ns);
      forall k: nat | k < |EpochsOf(q, ns)| ensures EpochOk(q, ns, k) {
        assert EpochOk(w, ns, k);
      }
    }
  }

  lemma BuildKeeps(w: World, base: map<string, seq<Entry>>, bundle: Bundle)
    requires Good(w, base) && IsEvidence(bundle, LedgerOf(w, bundle.evidence.namespace))
    requires EpochsOf(w, bundle.evidence.namespace) == []
    ensures Good(w.(bundles := w.bundles + {bundle}), base)
  {
    hide LedgerOk, EpochFits, IsForkList, WriterOk, StartsAt;
    var q := w.(bundles := w.bundles + {bundle});
    forall ns: string
      ensures LedgerOk(if ns in base then base[ns] else [], LedgerOf(q, ns), q.nextId) && EpochsOk(q, ns)
    {
      assert LedgerOf(q, ns) == LedgerOf(w, ns) && EpochsOk(w, ns);
      forall k: nat | k < |EpochsOf(q, ns)| ensures EpochOk(q, ns, k) {
        assert EpochOk(w, ns, k);
      }
    }
    forall who: nat ensures WriterOk(q, who, WriterAt(q, who)) {
      assert WriterOk(w, who, WriterAt(w, who));
      BuiltWriterKeeps(w, bundle, who, WriterAt(w, who));
    }
    forall b | b in q.bundles ensures BundleOk(q, b) {
      assert b != bundle ==> BundleOk(w, b);
    }
  }

  lemma BuiltWriterKeeps(w: World, bundle: Bundle, who: nat, x: Writer)
    requires IsEvidence(bundle, LedgerOf(w, bundle.evidence.namespace)) && EpochsOf(w, bundle.evidence.namespace) == []
    requires WriterOk(w, who, x)
    ensures WriterOk(w.(bundles := w.bundles + {bundle}), who, x)
  {
    hide Increasing, Derived, HashesOf, Head, IsForkList, Tips;
  }

  lemma InsertKeeps(w: World, base: map<string, seq<Entry>>, who: nat, plan: Plan, head: Option<Hash>, now: int)
    requires Good(w, base) && WriterAt(w, who) == HeadRead(plan, head)
    ensures Good(InsertStep(w, who, plan, head, now), base)
  {
    hide LedgerOk, EpochFits, IsEvidence;
    assert WriterOk(w, who, WriterAt(w, who));
    var q := InsertStep(w, who, plan, head, now);
    var entry := EntryFor(plan, w.nextId, head, now);
    var ns := Namespace(plan);
    if HeadExpected(plan, head) && !Taken(w, entry.hash) {
      InsertFits(w, base, plan, head, now);
    }
    LocalStep(w, q, base, who);
  }

  lemma InsertFits(w: World, base: map<string, seq<Entry>>, plan: Plan, head: Option<Hash>, now: int)
    requires Good(w, base) && Pending(w, plan) && head == Head(LedgerOf(w, Namespace(plan)))
    requires HeadExpected(plan, head) && !Taken(w, EntryFor(plan, w.nextId, head, now).hash)
    ensures CanAppend(LedgerOf(w, Namespace(plan)), EntryFor(plan, w.nextId, head, now), w.nextId + 1)
    ensures plan.Migrate? && plan.bundle in w.bundles ==> plan.bundle.evidence.entries == LedgerOf(w, Namespace(plan))
  {
    var ns := Namespace(plan);
    assert LedgerOk(if ns in base then base[ns] else [], LedgerOf(w, ns), w.nextId);
    if plan.Migrate? && plan.bundle in w.bundles {
      assert BundleOk(w, plan.bundle);
      SameHeadWhole(LedgerOf(w, ns), plan.bundle.evidence.entries);
    }
  }

  lemma EpochGrows(entries: seq<Entry>, e: Entry, ep: Epoch, evidence: Evidence)
    requires EpochFits(entries, ep, evidence) && e.prev == Head(entries) && Derived(e) == e.hash
    ensures EpochFits(entries + [e], ep, evidence)
  {
    LinkedSnoc(entries, e, ep.prior);
    assert (entries + [e])[..ep.prior] == entries[..ep.prior];
  }

  lemma EpochStarts(entries: seq<Entry>, e: Entry, ep: Epoch, evidence: Evidence)
    requires entries == evidence.entries && e.prev == Head(entries) && Derived(e) == e.hash
    requires ep.sha == EvidenceHash(evidence) && ep.prior == |entries| && ep.startId == e.id && ep.startHash == e.hash
    requires IsForkList(entries, evidence.forks)
    ensures EpochFits(entries + [e], ep, evidence)
  {
    LinkedSnoc(entries, e, ep.prior);
    assert (entries + [e])[..ep.prior] == entries;
  }

  lemma StartGrows(entries: seq<Entry>, e: Entry, ep: Epoch, p: nat)
    requires StartsAt(entries, ep, p) && e.prev == Head(entries) && Derived(e) == e.hash
    ensures StartsAt(entries + [e], ep, p)
  {
    hide Derived, Head;
    LinkedSnoc(entries, e, p);
  }

  /** A registered migration starts its epoch at the end of the ledger, whatever its evidence is. */
  lemma StartsHere(w: World, plan: Plan, entry: Entry)
    requires plan.Migrate? && Pending(w, plan) && CanAppend(LedgerOf(w, Namespace(plan)), entry, w.nextId)
    requires HeadExpected(plan, Head(LedgerOf(w, Namespace(plan))))
    ensures var l := LedgerOf(w, Namespace(plan)); StartsAt(l + [entry], EpochFor(w, plan, entry).value, |l|)
  {
    var l := LedgerOf(w, Namespace(plan));
    LinkedSnoc(l, entry, |l|);
  }

  lemma CommitEpochs(w: World, base: map<string, seq<Entry>>, who: nat, plan: Plan, entry: Entry, epoch: Option<Epoch>, ns: string)
    requires Good(w, base) && WriterAt(w, who) == Written(plan, entry, epoch)
    ensures EpochsOk(CommitStep(w, who, plan, entry, epoch), ns)
  {
    hide LedgerOk, IsForkList, Tips, StartsAt, EpochFits, Increasing;
    assert WriterOk(w, who, WriterAt(w, who));
    assert EpochsOk(w, ns);
    var q := CommitStep(w, who, plan, entry, epoch);
    forall k: nat | k < |EpochsOf(q, ns)| ensures EpochOk(q, ns, k) {
      if k < |EpochsOf(w, ns)| {
        assert EpochOk(w, ns, k);
        var ep, l := EpochsOf(w, ns)[k], LedgerOf(w, ns);
        var p: nat :| StartsAt(l, ep, p);
        if ns == Namespace(plan) {
          StartGrows(l, entry, ep, p);
          if Built(w, ep) {
            EpochGrows(l, entry, ep, ep.sha.evidence);
          }
        }
        assert EpochsOf(q, ns)[k] == ep && StartsAt(LedgerOf(q, ns), ep, p);
      } else {
        StartsHere(w, plan, entry);
        if plan.bundle in w.bundles {
          assert BundleOk(w, plan.bundle);
          EpochStarts(LedgerOf(w, ns), entry, epoch.value, plan.bundle.evidence);
        }
        assert EpochsOf(q, ns)[k] == epoch.value && LedgerOf(q, ns) == LedgerOf(w, ns) + [entry];
      }
    }
  }

  lemma CommitKeeps(w: World, base: map<string, seq<Entry>>, who: nat, plan: Plan, entry: Entry, epoch: Option<Epoch>)
    requires Good(w, base) && WriterAt(w, who) == Written(plan, entry, epoch)
    ensures Good(CommitStep(w, who, plan, entry, epoch), base)
  {
    hide IsEvidence, EpochFits, LedgerOk, EpochsOk, CanAppend;
    assert WriterOk(w, who, WriterAt(w, who));
    var q := CommitStep(w, who, plan, entry, epoch);
    var ns := Namespace(plan);
    forall other: string ensures LedgerOk(if other in base then base[other] else [], LedgerOf(q, other), q.nextId) {
      assert LedgerOk(if other in base then base[other] else [], LedgerOf(w, other), w.nextId);
      if other == ns {
        AppendKeepsLedger(if other in base then base[other] else [], LedgerOf(w, ns), entry, w.nextId);
      }
    }
    forall other: nat ensures WriterOk(q, other, WriterAt(q, other)) {
      assert WriterOk(w, other, WriterAt(w, other));
      CommitKeepsWriter(w, base, who, plan, entry, epoch, other);
    }
    forall b | b in q.bundles ensures BundleOk(q, b) {
      assert BundleOk(w, b);
    }
    forall other: string ensures EpochsOk(q, other) {
      CommitEpochs(w, base, who, plan, entry, epoch, other);
    }
  }

  lemma CommitKeepsWriter(w: World, base: map<string, seq<Entry>>, who: nat, plan: Plan, entry: Entry, epoch: Option<Epoch>, other: nat)
    requires Good(w, base) && WriterAt(w, who) == Written(plan, entry, epoch) && WriterOk(w, other, WriterAt(w, other))
    ensures var q := CommitStep(w, who, plan, entry, epoch); WriterOk(q, other, WriterAt(q, other))
  {
    hide IsEvidence, EpochFits, LedgerOk, EpochsOk, CanAppend;
    assert WriterOk(w, who, WriterAt(w, who));
    var q := CommitStep(w, who, plan, entry, epoch);
    var x := WriterAt(w, other);
    if other != who && !x.Idle? {
      if Namespace(x.plan) == Namespace(plan) && x.plan.Migrate? && x.plan.bundle in w.bundles {
        assert BundleOk(w, x.plan.bundle);
      }
    }
  }

  predicate Local(act: Act) {
    act.CheckAct? || act.LockAct? || act.ReadAct? || act.AbortAct?
  }

  /** Checking, locking, reading and giving up touch nothing but the writer and its lock. */
  lemma LocalFrame(w: World, who: nat, act: Act)
    requires Local(act)
    ensures var q := Perform(w, who, act);
            && q.ledgers == w.ledgers && q.epochs == w.epochs && q.bundles == w.bundles && w.nextId == q.nextId
            && (forall other: nat :: other != who ==> WriterAt(q, other) == WriterAt(w, other))
            && (forall ns :: ns in w.locks && w.locks[ns] != who && WriterOk(w, who, WriterAt(w, who)) ==>
                  ns in q.locks && q.locks[ns] == w.locks[ns])
  {
    hide Pending, CanAppend, EpochFor, HeadExpected, Head;
  }

  lemma LocalWriter(w: World, who: nat, act: Act)
    requires Local(act) && WriterOk(w, who, WriterAt(w, who))
    ensures WriterOk(Perform(w, who, act), who, WriterAt(Perform(w, who, act), who))
  {
    hide CanAppend, EpochFor, HeadExpected, Head;
  }

  lemma LocalKeeps(w: World, base: map<string, seq<Entry>>, who: nat, act: Act)
    requires Good(w, base) && Local(act)
    ensures Good(Perform(w, who, act), base)
  {
    hide LedgersOk, BundlesOk, AllEpochsOk, Perform, WriterOk, WriterAt;
    assert WriterOk(w, who, WriterAt(w, who));
    LocalFrame(w, who, act);
    LocalWriter(w, who, act);
    LocalStep(w, Perform(w, who, act), base, who);
  }

  lemma PerformKeeps(w: World, base: map<string, seq<Entry>>, who: nat, act: Act)
    requires Good(w, base)
    ensures Good(Perform(w, who, act), base)
  {
    hide Good, InsertStep, CommitStep, IsEvidence;
    var x := WriterAt(w, who);
    match act
    case BuildAct(bundle) =>
      if IsEvidence(bundle, LedgerOf(w, bundle.evidence.namespace)) && EpochsOf(w, bundle.evidence.namespace) == [] {
        BuildKeeps(w, base, bundle);
      }
    case InsertAct(now) =>
      if x.HeadRead? {
        InsertKeeps(w, base, who, x.plan, x.head, now);
      }
    case CommitAct =>
      if x.Written? {
        CommitKeeps(w, base, who, x.plan, x.entry, x.epoch);
      }
    case _ => LocalKeeps(w, base, who, act);
  }

  /** Whatever the interleaving, the invariant holds. */
  lemma {:induction false} RunGood(w: World, base: map<string, seq<Entry>>, acts: seq<(nat, Act)>)
    requires Good(w, base)
    ensures Good(Run(w, acts), base)
    decreases acts
  {
    if acts != [] {
      PerformKeeps(w, base, acts[0].0, acts[0].1);
      RunGood(Perform(w, acts[0].0, acts[0].1), base, acts[1..]);
    }
  }

  // ---- what every interleaving guarantees -------------------------------------------------------

  /** A namespace that starts empty, or with a verified chain, keeps a single chain that verification accepts,
      with ids in chain order. */
  lemma {:induction false} EveryInterleavingLinks(w: World, base: map<string, seq<Entry>>, acts: seq<(nat, Act)>, ns: string)
    requires IsStart(w, base) && (ns in base ==> Linked(base[ns], None))
    ensures var l := LedgerOf(Run(w, acts), ns); Linked(l, None) && Increasing(l, Run(w, acts).nextId)
  {
    hide Run, IsStart, Holds, IsForkList;
    StartGood(w, base);
    RunGood(w, base, acts);
    var l := LedgerOf(Run(w, acts), ns);
    var start := if ns in base then base[ns] else [];
    assert LedgerOk(start, l, Run(w, acts).nextId);
    forall i | 0 <= i < |l| ensures Holds(l, i, None) {
      if i < |start| {
        HoldsInPrefix(start, l, i);
      }
    }
  }

  lemma HoldsInPrefix(part: seq<Entry>, entries: seq<Entry>, i: nat)
    requires part <= entries && i < |part|
    ensures Holds(part, i, None) <==> Holds(entries, i, None)
  {
  }

  /** History is append-only: from any point of a run on, every ledger only grows at its end. */
  lemma {:induction false} LedgersOnlyGrow(w: World, acts: seq<(nat, Act)>, ns: string)
    ensures LedgerOf(w, ns) <= LedgerOf(Run(w, acts), ns)
    decreases acts
  {
    hide IsEvidence;
    if acts != [] {
      PerformGrows(w, acts[0].0, acts[0].1, ns);
      LedgersOnlyGrow(Perform(w, acts[0].0, acts[0].1), acts[1..], ns);
    }
  }

  lemma PerformGrows(w: World, who: nat, act: Act, ns: string)
    ensures LedgerOf(w, ns) <= LedgerOf(Perform(w, who, act), ns)
  {
    hide IsEvidence, EntryFor, HeadExpected, Taken;
  }

  /** The entries from an epoch's first entry on. */
  function Since(entries: seq<Entry>, startId: int): seq<Entry> {
    if entries == [] then []
    else
      var rest := Since(entries[..|entries| - 1], startId);
      if entries[|entries| - 1].id >= startId then rest + [entries[|entries| - 1]] else rest
  }

  lemma {:induction false} SinceIsSuffix(entries: seq<Entry>, bound: int, n: nat)
    requires Increasing(entries, bound) && n < |entries|
    ensures Since(entries, entries[n].id) == entries[n..]
    decreases |entries|
  {
    var init := entries[..|entries| - 1];
    if n == |init| {
      SinceNone(init, entries[n].id);
    } else {
      SinceIsSuffix(init, bound, n);
      assert init[n] == entries[n];
      assert entries[n..] == init[n..] + [entries[|entries| - 1]];
    }
  }

  lemma {:induction false} SinceNone(entries: seq<Entry>, id: int)
    requires Increasing(entries, id)
    ensures Since(entries, id) == []
  {
    if entries != [] {
      SinceNone(entries[..|entries| - 1], id);
    }
  }

  /** What `verify_current_ledger_epoch` accepts once an epoch exists. */
  predicate EpochValid(entries: seq<Entry>, ep: Epoch) {
    var current := Since(entries, ep.startId);
    current != [] && Linked(current, current[0].prev)
  }

  /** The first entry of the epoch whose hash is wrong or, after the first, whose link is. */
  ghost predicate EpochBreaksFirst(entries: seq<Entry>, ep: Epoch, id: int) {
    var current := Since(entries, ep.startId);
    current != [] && BreaksFirst(current, current[0].prev, id)
  }

  method VerifyCurrentEpoch(entries: seq<Entry>, ep: Epoch) returns (valid: bool, firstBroken: Option<int>, forkPoints: nat)
    ensures valid <==> EpochValid(entries, ep)
    ensures valid ==> firstBroken.None?
    ensures !valid ==> match firstBroken
                       case None => Since(entries, ep.startId) == []
                       case Some(id) => EpochBreaksFirst(entries, ep, id)
    ensures forkPoints == |ForkKeys(if ep.prior <= |entries| then entries[..ep.prior] else entries)|
  {
    forkPoints := CountForkPoints(if ep.prior <= |entries| then entries[..ep.prior] else entries);
    var current := Since(entries, ep.startId);
    var start := if current == [] then None else current[0].prev;
    firstBroken := VerifyFrom(current, start);
    valid := firstBroken.None? && current != [];
  }

  /** The entry hashes to what it stores and, unless it opens the epoch, points at the one before it. */
  predicate Intact(entries: seq<Entry>, p: nat, i: nat)
    requires p <= i < |entries|
  {
    Derived(entries[i]) == entries[i].hash && (i > p ==> entries[i].prev == Some(entries[i - 1].hash))
  }

  /** The check accepts an epoch exactly when every entry from its first one on is intact, and otherwise names the
      first that is not. */
  lemma EpochValidIff(entries: seq<Entry>, bound: int, ep: Epoch, p: nat)
    requires Increasing(entries, bound) && p < |entries| && entries[p].id == ep.startId
    ensures EpochValid(entries, ep) <==> forall i :: p <= i < |entries| ==> Intact(entries, p, i)
    ensures forall id :: EpochBreaksFirst(entries, ep, id) <==>
      exists i :: p <= i < |entries| && entries[i].id == id && !Intact(entries, p, i) && forall j :: p <= j < i ==> Intact(entries, p, j)
  {
    hide Increasing, Since, Derived;
    SinceIsSuffix(entries, bound, p);
    var current := entries[p..];
    forall i | p <= i < |entries| ensures Holds(current, i - p, current[0].prev) <==> Intact(entries, p, i) {
    }
    forall i | 0 <= i < |current| ensures Holds(current, i, current[0].prev) <==> Intact(entries, p, p + i) {
    }
    forall id ensures EpochBreaksFirst(entries, ep, id) <==>
      exists i :: p <= i < |entries| && entries[i].id == id && !Intact(entries, p, i) && forall j :: p <= j < i ==> Intact(entries, p, j)
    {
      if EpochBreaksFirst(entries, ep, id) {
        var k :| 0 <= k < |current| && current[k].id == id && !Holds(current, k, current[0].prev)
          && forall j :: 0 <= j < k ==> Holds(current, j, current[0].prev);
        assert entries[p + k].id == id && !Intact(entries, p, p + k);
        assert forall j :: p <= j < p + k ==> Intact(entries, p, j);
      }
      if i :| p <= i < |entries| && entries[i].id == id && !Intact(entries, p, i) && forall j :: p <= j < i ==> Intact(entries, p, j) {
        assert current[i - p].id == id && !Holds(current, i - p, current[0].prev);
        forall j | 0 <= j < i - p ensures Holds(current, j, current[0].prev) {
          assert Intact(entries, p, p + j);
        }
      }
    }
  }

  /** Two accepted forms of an epoch with the same first and last hash agree in length and in every hashed field. */
  lemma EpochEndsCommit(a: seq<Entry>, p: nat, b: seq<Entry>, q: nat, ep: Epoch, bound: int, ns: string, k: nat)
    requires Increasing(a, bound) && Increasing(b, bound) && p < |a| && q < |b|
    requires a[p].id == ep.startId && b[q].id == ep.startId && InNamespace(a, ns) && InNamespace(b, ns)
    requires EpochValid(a, ep) && EpochValid(b, ep) && a[p].hash == b[q].hash && a[|a| - 1].hash == b[|b| - 1].hash
    ensures |a| - p == |b| - q && (p + k < |a| ==> SameFields(b[q + k], a[p + k]))
  {
    hide Increasing, Since, Linked, SameFields;
    SinceIsSuffix(a, bound, p);
    SinceIsSuffix(b, bound, q);
    SuffixInNamespace(a, p, ns);
    SuffixInNamespace(b, q, ns);
    EndsCommit(b[q..], b[q].prev, a[p..], a[p].prev, ns);
    if p + k < |a| {
      assert SameFields(b[q..][k], a[p..][k]);
    }
  }

  /** So editing or removing any entry of an accepted epoch, while its first and last hash stay, breaks verification. */
  lemma EpochEditIsDetected(a: seq<Entry>, p: nat, edited: seq<Entry>, q: nat, ep: Epoch, bound: int, ns: string, i: nat)
    requires Increasing(a, bound) && Increasing(edited, bound) && p < |a| && q < |edited|
    requires a[p].id == ep.startId && edited[q].id == ep.startId && InNamespace(a, ns) && InNamespace(edited, ns)
    requires EpochValid(a, ep) && a[p].hash == edited[q].hash && a[|a| - 1].hash == edited[|edited| - 1].hash
    requires p + i < |a| && (q + i >= |edited| || !SameFields(edited[q + i], a[p + i]))
    ensures !EpochValid(edited, ep)
  {
    hide Increasing, Since, Linked, SameFields, EpochValid;
    if EpochValid(edited, ep) {
      EpochEndsCommit(a, p, edited, q, ep, bound, ns, i);
    }
  }

  lemma SuffixInNamespace(entries: seq<Entry>, p: nat, ns: string)
    requires p <= |entries| && InNamespace(entries, ns)
    ensures InNamespace(entries[p..], ns)
  {
  }

  lemma LinkedSuffix(entries: seq<Entry>, n: nat)
    requires LinkedAfter(entries, n) && n < |entries|
    ensures Linked(entries[n..], entries[n].prev)
  {
    forall i | 0 <= i < |entries[n..]| ensures Holds(entries[n..], i, entries[n].prev) {
      assert Holds(entries, n + i, None);
    }
  }

  lemma PrefixEndsHere(l: seq<Entry>, ep: Epoch, p: nat)
    requires UniqueHashes(l) && StartsAt(l, ep, p)
    ensures ep.sha.evidence.entries <= l <==> ep.sha.evidence.entries == l[..p]
  {
    var part := ep.sha.evidence.entries;
    if part <= l {
      assert part[|part| - 1] == l[|part| - 1];
    }
  }

  /** Under every interleaving of appends, evidence builds and migrations, whatever forks the history had and whatever
      evidence the migrations bring: an epoch starts a chain that verifies, now and after everything that follows,
      and `id >= start` cuts it off exactly.  Its evidence is the whole ledger before its first entry if and only if
      it is a prefix of the ledger, and then `take(prior)` is the other half of the same cut.  Built evidence is one,
      makes only the first epoch, and lists as many fork points as the epoch reports. */
  lemma {:induction false} EpochCommitsToHistory(w: World, base: map<string, seq<Entry>>, acts: seq<(nat, Act)>, ns: string, k: nat)
    requires IsStart(w, base) && k < |EpochsOf(Run(w, acts), ns)|
    ensures var q := Run(w, acts);
            var ep, l := EpochsOf(q, ns)[k], LedgerOf(q, ns);
            var p := |l| - |Since(l, ep.startId)|;
            && 0 < p < |l| && Since(l, ep.startId) == l[p..] && l[p].hash == ep.startHash && EpochValid(l, ep)
            && ep.epoch == k + 1 && ep.prior == |ep.sha.evidence.entries|
            && (ep.sha.evidence.entries <= l <==> ep.sha.evidence.entries == l[..p])
            && (Built(q, ep) ==>
                  && k == 0 && ep.prior == p && l[..p] == ep.sha.evidence.entries
                  && |ForkKeys(l[..p])| == |ep.sha.evidence.forks|)
  {
    hide Run, IsStart, ForkKeys, Since, Linked, ForkAt, Increasing;
    StartGood(w, base);
    RunGood(w, base, acts);
    var q := Run(w, acts);
    var ep, l := EpochsOf(q, ns)[k], LedgerOf(q, ns);
    assert EpochsOk(q, ns);
    assert EpochOk(q, ns, k) && LedgerOk(if ns in base then base[ns] else [], l, q.nextId);
    var p: nat :| StartsAt(l, ep, p);
    SinceIsSuffix(l, q.nextId, p);
    LinkedSuffix(l, p);
    PrefixEndsHere(l, ep, p);
    if Built(q, ep) {
      ForkListSize(ep.sha.evidence.forks);
    }
  }

  ghost predicate AllBuilt(w: World, ns: string) {
    forall k: nat :: k < |EpochsOf(w, ns)| ==> Built(w, EpochsOf(w, ns)[k])
  }

  /** Migrations that only bring built evidence give a namespace at most one epoch. */
  lemma {:induction false} OneBuiltEpoch(w: World, base: map<string, seq<Entry>>, acts: seq<(nat, Act)>, ns: string)
    requires IsStart(w, base) && AllBuilt(Run(w, acts), ns)
    ensures |EpochsOf(Run(w, acts), ns)| <= 1
  {
    hide Run, IsStart, Since, EpochValid, ForkKeys, Built;
    if |EpochsOf(Run(w, acts), ns)| > 1 {
      EpochCommitsToHistory(w, base, acts, ns, 1);
      assert false;
    }
  }

  /** Evidence of the last entry alone passes every check of a migration, though the ledger is longer: its epoch
      commits to one entry of the history, and `take(1)` is not that entry. */
  lemma {:induction false} ShortEvidencePasses(w: World, base: map<string, seq<Entry>>, plan: Plan, now: int)
    requires IsStart(w, base) && plan.Migrate? && |LedgerOf(w, Namespace(plan))| > 1
    requires var l := LedgerOf(w, Namespace(plan));
             && plan.bundle.evidence.entries == [l[|l| - 1]] && plan.bundle.sha == EvidenceHash(plan.bundle.evidence)
             && !Taken(w, EntryFor(plan, w.nextId, Head(l), now).hash)
    ensures var ns, who := Namespace(plan), 0;
            var q := Run(w, [(who, CheckAct(plan)), (who, LockAct(plan)), (who, ReadAct), (who, InsertAct(now)), (who, CommitAct)]);
            && |EpochsOf(q, ns)| == 1 && EpochsOf(q, ns)[0].prior == 1 && |LedgerOf(q, ns)| > 2
            && LedgerOf(q, ns)[..1] != EpochsOf(q, ns)[0].sha.evidence.entries
  {
    hide Perform, EntryFor, Taken;
    var l := LedgerOf(w, Namespace(plan));
    RunFive(w, CheckAct(plan), LockAct(plan), ReadAct, InsertAct(now), CommitAct);
    FirstCheck(w, plan);
    TransactedOutcome(w, 0, plan, now);
  }

  lemma FirstCheck(w: World, plan: Plan)
    requires plan.Migrate? && EpochsOf(w, Namespace(plan)) == [] && WriterAt(w, 0).Idle?
    requires plan.bundle.sha == EvidenceHash(plan.bundle.evidence) && plan.bundle.evidence.entries != []
    ensures Perform(w, 0, CheckAct(plan)) == Put(w, 0, Checked(plan))
  {
  }

  lemma {:induction false} RunFive(w: World, a: Act, b: Act, c: Act, d: Act, e: Act)
    ensures Run(w, [(0, a), (0, b), (0, c), (0, d), (0, e)])
      == Perform(Perform(Perform(Perform(Perform(w, 0, a), 0, b), 0, c), 0, d), 0, e)
  {
    hide Perform, Run;
    RunCons(w, a, [(0, b), (0, c), (0, d), (0, e)]);
    var x := Perform(w, 0, a);
    RunCons(x, b, [(0, c), (0, d), (0, e)]);
    var y := Perform(x, 0, b);
    RunCons(y, c, [(0, d), (0, e)]);
    var z := Perform(y, 0, c);
    RunCons(z, d, [(0, e)]);
    RunCons(Perform(z, 0, d), e, []);
    RunNothing(Perform(Perform(z, 0, d), 0, e));
    assert [(0, e)] + [] == [(0, e)];
    assert [(0, d)] + [(0, e)] == [(0, d), (0, e)];
    assert [(0, c)] + [(0, d), (0, e)] == [(0, c), (0, d), (0, e)];
    assert [(0, b)] + [(0, c), (0, d), (0, e)] == [(0, b), (0, c), (0, d), (0, e)];
    assert [(0, a)] + [(0, b), (0, c), (0, d), (0, e)] == [(0, a), (0, b), (0, c), (0, d), (0, e)];
  }

  lemma {:induction false} RunCons(w: World, act: Act, rest: seq<(nat, Act)>)
    ensures Run(w, [(0, act)] + rest) == Run(Perform(w, 0, act), rest)
  {
    hide Perform;
    assert ([(0, act)] + rest)[1..] == rest;
  }

  lemma {:induction false} RunNothing(w: World)
    ensures Run(w, []) == w
  {
  }

  // ---- one transaction in place -------------------------------------------------------------------

  ghost function ReadyToInsert(w: World, who: nat, plan: Plan): World {
    Perform(Perform(Put(w, who, if plan.Migrate? then Checked(plan) else Idle), who, LockAct(plan)), who, ReadAct)
  }

  /** Lock, read, insert and commit with nobody in between. */
  ghost function Transacted(w: World, who: nat, plan: Plan, now: int): World {
    Perform(Perform(ReadyToInsert(w, who, plan), who, InsertAct(now)), who, CommitAct)
  }

  lemma ReadyState(w: World, who: nat, plan: Plan)
    requires w.locks == map[]
    ensures var q := ReadyToInsert(w, who, plan);
            && WriterAt(q, who) == HeadRead(plan, Head(LedgerOf(w, Namespace(plan))))
            && q.ledgers == w.ledgers && q.epochs == w.epochs && q.nextId == w.nextId
  {
    hide InsertStep, CommitStep, Head;
    var a := Put(w, who, if plan.Migrate? then Checked(plan) else Idle);
    var b := Perform(a, who, LockAct(plan));
    assert WriterAt(b, who) == Locked(plan);
  }

  lemma TransactedOutcome(w: World, who: nat, plan: Plan, now: int)
    requires w.locks == map[]
    ensures var ns, head := Namespace(plan), Head(LedgerOf(w, Namespace(plan)));
            var entry := EntryFor(plan, w.nextId, head, now);
            var q := Transacted(w, who, plan, now);
            if !HeadExpected(plan, head) || Taken(w, entry.hash)
            then q.ledgers == w.ledgers && q.epochs == w.epochs && q.nextId == w.nextId
            else
              && q.ledgers == w.ledgers[ns := LedgerOf(w, ns) + [entry]] && q.nextId == w.nextId + 1
              && q.epochs == match EpochFor(w, plan, entry)
                             case None => w.epochs
                             case Some(ep) => w.epochs[ns := EpochsOf(w, ns) + [ep]]
  {
    hide ReadyToInsert, EntryFor, HeadExpected, Head;
    ReadyState(w, who, plan);
  }

  /** What a committed transaction writes: the plan's own fields, on top of the head, under a new id, hashed. */
  lemma TransactionRecords(w: World, who: nat, plan: Plan, now: int)
    requires w.locks == map[] && LedgerOf(Transacted(w, who, plan, now), Namespace(plan)) != LedgerOf(w, Namespace(plan))
    ensures var before, after := LedgerOf(w, Namespace(plan)), LedgerOf(Transacted(w, who, plan, now), Namespace(plan));
            && |after| == |before| + 1 && before <= after
            && var e := after[|before|];
               && e.id == w.nextId && e.namespace == Namespace(plan) && e.createdAt == now
               && e.prev == (if before == [] then None else Some(before[|before| - 1].hash))
               && e.hash == EntryHash(e.prev, Text.NormalizeNamespace(e.namespace), e.memoryId, e.op, e.actor, e.payload, e.createdAt)
               && match plan
                  case Append(_, memoryId, op, actor, payload) =>
                    e.memoryId == memoryId && e.op == op && e.actor == actor && e.payload == payload
                  case Migrate(bundle, agent, summary) =>
                    && e.memoryId == None && e.op == "migration_genesis" && e.actor == Some(agent) && e.payload == summary
                    && bundle.evidence.entries != [] && e.prev == Some(bundle.evidence.entries[|bundle.evidence.entries| - 1].hash)
  {
    hide Transacted, Taken;
    TransactedOutcome(w, who, plan, now);
  }

  /** The hash the plan's entry would get on top of `prev`. */
  function HashToBe(plan: Plan, prev: Option<Hash>, now: int): Hash {
    match plan
    case Append(ns, memoryId, op, actor, payload) => EntryHash(prev, Text.NormalizeNamespace(ns), memoryId, op, actor, payload, now)
    case Migrate(bundle, agent, summary) =>
      EntryHash(prev, Text.NormalizeNamespace(bundle.evidence.namespace), None, "migration_genesis", Some(agent), summary, now)
  }

  /** An undisturbed transaction commits exactly when no entry of any namespace has its hash yet and, for a migration,
      the ledger ends like the evidence; else it changes no table. */
  lemma TransactionCommitsIff(w: World, who: nat, plan: Plan, now: int)
    requires w.locks == map[]
    ensures var l, q := LedgerOf(w, Namespace(plan)), Transacted(w, who, plan, now);
            var prev := if l == [] then None else Some(l[|l| - 1].hash);
            if (forall ns, i :: ns in w.ledgers && 0 <= i < |w.ledgers[ns]| ==> w.ledgers[ns][i].hash != HashToBe(plan, prev, now))
               && (plan.Migrate? ==>
                     var part := plan.bundle.evidence.entries;
                     l != [] && part != [] && l[|l| - 1].hash == part[|part| - 1].hash)
            then |LedgerOf(q, Namespace(plan))| == |l| + 1 && |EpochsOf(q, Namespace(plan))| == |EpochsOf(w, Namespace(plan))| + (if plan.Migrate? then 1 else 0)
            else q.ledgers == w.ledgers && q.epochs == w.epochs
  {
    hide Transacted;
    TransactedOutcome(w, who, plan, now);
    var l := LedgerOf(w, Namespace(plan));
    var prev := Head(l);
    assert EntryFor(plan, w.nextId, prev, now).hash == HashToBe(plan, prev, now);
    TakenIff(w, HashToBe(plan, prev, now));
    hide EntryFor, Taken, HashToBe;
  }

  lemma TakenIff(w: World, h: Hash)
    ensures Taken(w, h) <==> !forall ns, i :: ns in w.ledgers && 0 <= i < |w.ledgers[ns]| ==> w.ledgers[ns][i].hash != h
  {
    forall ns, i | ns in w.ledgers && 0 <= i < |w.ledgers[ns]| && w.ledgers[ns][i].hash == h ensures Taken(w, h) {
      assert HashesOf(w.ledgers[ns])[i] == h;
    }
  }

  class LedgerTables {
    var ledgers: map<string, seq<Entry>>
    var epochs: map<string, seq<Epoch>>
    var nextId: int

    function View(): World
      reads this
    {
      World(ledgers, epochs, nextId, map[], map[], {})
    }

    /** Append an entry, and for a migration register its epoch; either all of it happens or nothing. */
    method Transact(plan: Plan, now: int) returns (ok: bool)
      modifies this
      ensures var q := Transacted(old(View()), 0, plan, now);
              ledgers == q.ledgers && epochs == q.epochs && nextId == q.nextId
      ensures !ok ==> View() == old(View())
    {
      hide EntryFor, HeadExpected, Taken, Transacted;
      TransactedOutcome(View(), 0, plan, now);
      var ns := Namespace(plan);
      var history := LedgerOf(View(), ns);
      var head := if history == [] then None else Some(history[|history| - 1].hash);
      var entry := EntryFor(plan, nextId, head, now);
      if !HeadExpected(plan, head) || Taken(View(), entry.hash) {
        return false;
      }
      if plan.Migrate? {
        var previous := EpochsOf(View(), ns);
        epochs := epochs[ns := previous + [Epoch(|previous| + 1, entry.id, entry.hash, plan.bundle.sha, |plan.bundle.evidence.entries|)]];
      }
      ledgers := ledgers[ns := history + [entry]];
      nextId := nextId + 1;
      return true;
    }
  }
}
