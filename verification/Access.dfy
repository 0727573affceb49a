/** Delivery counting with deduplicated operations (src/access.rs:26-75). */
module Access {
  import opened Prelude

  datatype Kind = Recall | Expansion

  datatype Tally = Tally(count: nat, last: Option<int>)

  datatype Counter = Counter(observedSince: int, recalls: Tally, expansions: Tally)

  /** `receipts` remember which operation has already been counted for a memory, and since when. */
  datatype State = State(meta: set<int>, access: map<int, Counter>, receipts: map<(string, Kind, int), int>)

  datatype Call = Call(kind: Kind, ids: seq<int>, op: Option<string>, now: int)

  const WINDOW: int := 7 * 86400
  const MAX_IDS: nat := 10_000

  function Zero(now: int): Counter {
    Counter(now, Tally(0, None), Tally(0, None))
  }

  function TallyOf(c: Counter, kind: Kind): Tally {
    match kind case Recall => c.recalls case Expansion => c.expansions
  }

  function Bump(t: Tally, now: int): Tally {
    Tally(t.count + 1, if t.last.None? || t.last.value < now then Some(now) else t.last)
  }

  function BumpKind(c: Counter, kind: Kind, now: int): Counter {
    match kind
    case Recall => c.(recalls := Bump(c.recalls, now))
    case Expansion => c.(expansions := Bump(c.expansions, now))
  }

  // ---- one call -----------------------------------------------------------------------------------

  function Prune(receipts: map<(string, Kind, int), int>, now: int): map<(string, Kind, int), int> {
    map k | k in receipts && receipts[k] >= now - WINDOW :: receipts[k]
  }

  /** Rows are made for memories with metadata only. */
  function Known(st: State, call: Call): set<int> {
    st.access.Keys + set id | id in call.ids && id in st.meta
  }

  predicate IsNew(receipts: map<(string, Kind, int), int>, call: Call, id: int) {
    call.op.None? || (call.op.value, call.kind, id) !in receipts
  }

  function Base(st: State, call: Call, id: int): Counter {
    if id in st.access then st.access[id] else Zero(call.now)
  }

  /** The ids a call counts: known ones without a receipt for its operation. */
  function Counted(st: State, call: Call): set<int> {
    set id | id in call.ids && id in Known(st, call) && IsNew(Prune(st.receipts, call.now), call, id)
  }

  function Signed(op: Option<string>, kind: Kind, counted: set<int>): set<(string, Kind, int)> {
    if op.None? then {} else set id | id in counted :: (op.value, kind, id)
  }

  function Recorded(st: State, call: Call): State {
    var counted := Counted(st, call);
    State(st.meta,
      map id | id in Known(st, call) ::
        if id in counted then BumpKind(Base(st, call, id), call.kind, call.now) else Base(st, call, id),
      Prune(st.receipts, call.now) + map k | k in Signed(call.op, call.kind, counted) :: call.now)
  }

  function Record(st: State, call: Call): Result<State> {
    if call.ids == [] then Ok(st)
    else if |call.ids| > MAX_IDS then Err("too many delivery IDs")
    else Ok(Recorded(st, call))
  }

  function Step(st: State, call: Call): State {
    match Record(st, call)
    case Ok(q) => q
    case Err(_) => st
  }

  function Run(st: State, calls: seq<Call>): State {
    if calls == [] then st else Step(Run(st, calls[..|calls| - 1]), calls[|calls| - 1])
  }

  // ---- what a run of calls should count -------------------------------------------------------------

  predicate Delivers(call: Call, kind: Kind, id: int) {
    call.kind == kind && id in call.ids && |call.ids| <= MAX_IDS
  }

  /** Calls without an operation id that include the memory. */
  function UnnamedCalls(calls: seq<Call>, kind: Kind, id: int): nat {
    if calls == [] then 0
    else
      var last := calls[|calls| - 1];
      UnnamedCalls(calls[..|calls| - 1], kind, id) + (if Delivers(last, kind, id) && last.op.None? then 1 else 0)
  }

  /** The distinct operation ids that named the memory. */
  function Operations(calls: seq<Call>, kind: Kind, id: int): set<string> {
    set i | 0 <= i < |calls| && Delivers(calls[i], kind, id) && calls[i].op.Some? :: calls[i].op.value
  }

  /** The operations a table already holds a receipt of for the memory. */
  function Receipted(st: State, kind: Kind, id: int): set<string> {
    set k | k in st.receipts && k.1 == kind && k.2 == id :: k.0
  }

  /** A call counts unless its operation had delivered the memory already, before the run or earlier in it. */
  ghost predicate Counts(prior: set<string>, calls: seq<Call>, kind: Kind, id: int, i: nat) {
    && i < |calls| && Delivers(calls[i], kind, id)
    && (calls[i].op.Some? ==> calls[i].op.value !in prior)
    && (calls[i].op.Some? ==> forall j :: 0 <= j < i ==> !(Delivers(calls[j], kind, id) && calls[j].op == calls[i].op))
  }

  ghost predicate InWindow(calls: seq<Call>, lo: int) {
    forall i :: 0 <= i < |calls| ==> lo <= calls[i].now <= lo + WINDOW
  }

  /** No receipt is older than the window. */
  predicate Recent(st: State, lo: int) {
    forall k | k in st.receipts :: st.receipts[k] >= lo
  }

  /** `last` is the largest of `start` and the times of the calls that count. */
  ghost predicate IsLatest(prior: set<string>, calls: seq<Call>, kind: Kind, id: int, start: Option<int>, last: Option<int>) {
    match last
    case None => start.None? && forall i: nat :: !Counts(prior, calls, kind, id, i)
    case Some(t) =>
      && (start == Some(t) || exists i: nat :: i < |calls| && Counts(prior, calls, kind, id, i) && calls[i].now == t)
      && (start.Some? ==> start.value <= t)
      && (forall i: nat :: Counts(prior, calls, kind, id, i) ==> calls[i].now <= t)
  }

  function TallyAt(st: State, kind: Kind, id: int): Tally {
    if id in st.access then TallyOf(st.access[id], kind) else Tally(0, None)
  }

  /** The memory has a receipt for the operation, no older than seven days. */
  predicate HasReceipt(st: State, op: string, kind: Kind, id: int, now: int) {
    (op, kind, id) in st.receipts && st.receipts[(op, kind, id)] >= now - 7 * 86400
  }

  predicate CountsNow(st: State, call: Call, id: int) {
    && id in call.ids && (id in st.access || id in st.meta)
    && (call.op.Some? ==> !HasReceipt(st, call.op.value, call.kind, id, call.now))
  }

  predicate Later(before: Option<int>, now: int, after: Option<int>) {
    after.Some? && now <= after.value && (after == before || (after.value == now && (before.Some? ==> before.value < now)))
  }

  /** The whole new state of one call: rows for the delivered memories that have metadata; one more delivery of the
      kind for those it counts and nothing else in their rows; and of the receipts those of the last seven days, with
      one more for every memory counted under an operation id. */
  lemma CallOutcome(st: State, call: Call)
    ensures call.ids == [] || |call.ids| > 10_000 ==> Step(st, call) == st
    ensures 0 < |call.ids| <= 10_000 ==> Step(st, call).meta == st.meta && (forall id ::
      id in Step(st, call).access <==> id in st.access || (id in call.ids && id in st.meta))
    ensures 0 < |call.ids| <= 10_000 ==> forall id :: id in Step(st, call).access ==>
      Step(st, call).access[id].observedSince == if id in st.access then st.access[id].observedSince else call.now
    ensures 0 < |call.ids| <= 10_000 ==> forall id, kind :: id in Step(st, call).access ==>
      var before, after := TallyAt(st, kind, id), TallyAt(Step(st, call), kind, id);
      if kind == call.kind && CountsNow(st, call, id) then
        after.count == before.count + 1 && Later(before.last, call.now, after.last)
      else after == before
    ensures 0 < |call.ids| <= 10_000 ==> forall op, kind, id :: (op, kind, id) in Step(st, call).receipts <==>
      HasReceipt(st, op, kind, id, call.now) || (call.op == Some(op) && kind == call.kind && CountsNow(st, call, id))
    ensures 0 < |call.ids| <= 10_000 ==> forall op, kind, id :: (op, kind, id) in Step(st, call).receipts ==>
      Step(st, call).receipts[(op, kind, id)] ==
        if HasReceipt(st, op, kind, id, call.now) then st.receipts[(op, kind, id)] else call.now
  {
    if 0 < |call.ids| <= 10_000 {
      var kept := Prune(st.receipts, call.now);
      forall op, kind, id ensures (op, kind, id) in kept <==> HasReceipt(st, op, kind, id, call.now) {
      }
      forall id ensures id in Counted(st, call) <==> CountsNow(st, call, id) {
      }
      forall op, kind, id
        ensures (op, kind, id) in Signed(call.op, call.kind, Counted(st, call)) <==>
          call.op == Some(op) && kind == call.kind && CountsNow(st, call, id)
      {
        SignedIff(call.op, call.kind, Counted(st, call), op, kind, id);
      }
    }
  }

  lemma SignedIff(op: Option<string>, kind: Kind, counted: set<int>, o: string, k: Kind, id: int)
    ensures (o, k, id) in Signed(op, kind, counted) <==> op == Some(o) && k == kind && id in counted
  {
  }

  lemma OperationsSnoc(calls: seq<Call>, kind: Kind, id: int)
    requires calls != []
    ensures var last := calls[|calls| - 1];
            Operations(calls, kind, id) == Operations(calls[..|calls| - 1], kind, id)
              + if Delivers(last, kind, id) && last.op.Some? then {last.op.value} else {}
  {
    hide Delivers;
    var init, last := calls[..|calls| - 1], calls[|calls| - 1];
    forall i | 0 <= i < |init| ensures init[i] == calls[i] {
    }
    forall op | op in Operations(init, kind, id) ensures op in Operations(calls, kind, id) {
      var i :| 0 <= i < |init| && Delivers(init[i], kind, id) && init[i].op == Some(op);
      assert calls[i] == init[i];
    }
    assert calls[|calls| - 1] == last;
  }

  /** What one call does to one memory and one kind. */
  lemma StepTally(st: State, call: Call, kind: Kind, id: int)
    requires id in st.meta
    ensures TallyAt(Step(st, call), kind, id) ==
      if Delivers(call, kind, id) && (call.op.None? || !HasReceipt(st, call.op.value, kind, id, call.now))
      then Bump(TallyAt(st, kind, id), call.now) else TallyAt(st, kind, id)
  {
    hide Bump;
  }

  /** Receipts of a memory after one call that keeps all earlier ones. */
  lemma StepReceipts(st: State, call: Call, kind: Kind, id: int, op: string, lo: int)
    requires id in st.meta && lo <= call.now <= lo + WINDOW && Recent(st, lo)
    ensures (op, kind, id) in Step(st, call).receipts <==>
      (op, kind, id) in st.receipts || (Delivers(call, kind, id) && call.op == Some(op))
    ensures Recent(Step(st, call), lo)
    ensures Prune(st.receipts, call.now) == st.receipts && Step(st, call).meta == st.meta
  {
    hide BumpKind, Base;
    assert Prune(st.receipts, call.now) == st.receipts;
    var key := (op, kind, id);
    if Delivers(call, kind, id) && call.op == Some(op) && key !in st.receipts {
      assert id in Counted(st, call);
      assert key in Signed(call.op, call.kind, Counted(st, call));
    }
  }

  lemma ReceiptedKeys(st: State, kind: Kind, id: int, op: string)
    ensures op in Receipted(st, kind, id) <==> (op, kind, id) in st.receipts
  {
    if (op, kind, id) in st.receipts {
      assert (op, kind, id).0 == op;
    }
  }

  lemma {:induction false} RunReceipts(st: State, calls: seq<Call>, kind: Kind, id: int, lo: int)
    requires id in st.meta && Recent(st, lo) && InWindow(calls, lo)
    ensures var q := Run(st, calls);
            && q.meta == st.meta && Recent(q, lo)
            && forall op :: (op, kind, id) in q.receipts <==> op in Receipted(st, kind, id) || op in Operations(calls, kind, id)
  {
    hide Step, Delivers, Recent, Receipted;
    if calls == [] {
      forall op ensures op in Receipted(st, kind, id) <==> (op, kind, id) in st.receipts {
        ReceiptedKeys(st, kind, id, op);
      }
    } else {
      var init, last := calls[..|calls| - 1], calls[|calls| - 1];
      RunReceipts(st, init, kind, id, lo);
      OperationsSnoc(calls, kind, id);
      forall op ensures (op, kind, id) in Run(st, calls).receipts <==> op in Receipted(st, kind, id) || op in Operations(calls, kind, id) {
        StepReceipts(Run(st, init), last, kind, id, op, lo);
      }
      StepReceipts(Run(st, init), last, kind, id, "", lo);
    }
  }

  lemma NoOperations(kind: Kind, id: int)
    ensures Operations([], kind, id) == {}
  {
  }

  /** One more call adds one new operation or none. */
  lemma FreshSnoc(prior: set<string>, calls: seq<Call>, kind: Kind, id: int)
    requires calls != []
    ensures var init, last := calls[..|calls| - 1], calls[|calls| - 1];
            |Operations(calls, kind, id) - prior| == |Operations(init, kind, id) - prior|
              + if Delivers(last, kind, id) && last.op.Some? && last.op.value !in prior && last.op.value !in Operations(init, kind, id)
                then 1 else 0
  {
    hide Delivers, Operations;
    var last := calls[|calls| - 1];
    OperationsSnoc(calls, kind, id);
    var before, after := Operations(calls[..|calls| - 1], kind, id) - prior, Operations(calls, kind, id) - prior;
    if Delivers(last, kind, id) && last.op.Some? && last.op.value !in prior && last.op.value !in before {
      assert after == before + {last.op.value};
    } else {
      assert after == before;
    }
  }

  /** Within one seven-day window a memory's count grows by the calls without an operation id that include it plus
      the distinct operations that named it and had no receipt before, whatever the order, and however often a call
      repeats an id. */
  lemma {:induction false} CountIsExact(st: State, calls: seq<Call>, kind: Kind, id: int, lo: int)
    requires id in st.meta && Recent(st, lo) && InWindow(calls, lo)
    ensures TallyAt(Run(st, calls), kind, id).count ==
      TallyAt(st, kind, id).count + UnnamedCalls(calls, kind, id) + |Operations(calls, kind, id) - Receipted(st, kind, id)|
  {
    hide Step, Delivers, Recent, Receipted, Operations;
    var prior := Receipted(st, kind, id);
    if calls == [] {
      NoOperations(kind, id);
      assert Operations(calls, kind, id) - prior == {};
    } else {
      var init, last := calls[..|calls| - 1], calls[|calls| - 1];
      CountIsExact(st, init, kind, id, lo);
      RunReceipts(st, init, kind, id, lo);
      FreshSnoc(prior, calls, kind, id);
      StepTally(Run(st, init), last, kind, id);
      StepReceipts(Run(st, init), last, kind, id, "", lo);
    }
  }

  lemma CountsSnoc(prior: set<string>, calls: seq<Call>, kind: Kind, id: int, i: nat)
    requires calls != []
    ensures var last := |calls| - 1;
            && (i < last ==> (Counts(prior, calls, kind, id, i) <==> Counts(prior, calls[..last], kind, id, i)))
            && (i == last ==>
                  (Counts(prior, calls, kind, id, i) <==>
                    (Delivers(calls[i], kind, id)
                     && (calls[i].op.Some? ==> calls[i].op.value !in prior && calls[i].op.value !in Operations(calls[..last], kind, id)))))
  {
    hide Delivers;
    var last := |calls| - 1;
    var init := calls[..last];
    forall j | 0 <= j < last ensures init[j] == calls[j] {
    }
    if i == last && calls[i].op.Some? {
      if calls[i].op.value in Operations(init, kind, id) {
        var j :| 0 <= j < |init| && Delivers(init[j], kind, id) && init[j].op == Some(calls[i].op.value);
        assert Delivers(calls[j], kind, id) && calls[j].op == calls[i].op;
      } else {
        forall j | 0 <= j < i ensures !(Delivers(calls[j], kind, id) && calls[j].op == calls[i].op) {
          assert init[j] == calls[j];
        }
      }
    }
  }

  /** ...and its last delivery time becomes the largest time of a call that counted, if that is later. */
  lemma {:induction false} LatestIsExact(st: State, calls: seq<Call>, kind: Kind, id: int, lo: int)
    requires id in st.meta && Recent(st, lo) && InWindow(calls, lo)
    ensures IsLatest(Receipted(st, kind, id), calls, kind, id, TallyAt(st, kind, id).last, TallyAt(Run(st, calls), kind, id).last)
  {
    hide Step, Delivers, Counts, Recent, Receipted;
    var prior := Receipted(st, kind, id);
    if calls == [] {
      forall i: nat ensures !Counts(prior, calls, kind, id, i) {
        NothingCounts(prior, kind, id, i);
      }
    } else {
      var init, last := calls[..|calls| - 1], calls[|calls| - 1];
      LatestIsExact(st, init, kind, id, lo);
      RunReceipts(st, init, kind, id, lo);
      StepTally(Run(st, init), last, kind, id);
      StepReceipts(Run(st, init), last, kind, id, "", lo);
      LatestSnoc(prior, calls, kind, id, TallyAt(st, kind, id).last, TallyAt(Run(st, init), kind, id).last, TallyAt(Run(st, calls), kind, id).last);
    }
  }

  lemma NothingCounts(prior: set<string>, kind: Kind, id: int, i: nat)
    ensures !Counts(prior, [], kind, id, i)
  {
  }

  lemma LatestSnoc(prior: set<string>, calls: seq<Call>, kind: Kind, id: int, start: Option<int>, before: Option<int>, after: Option<int>)
    requires calls != [] && IsLatest(prior, calls[..|calls| - 1], kind, id, start, before)
    requires var last := calls[|calls| - 1];
             after == if Delivers(last, kind, id)
                         && (last.op.Some? ==> last.op.value !in prior && last.op.value !in Operations(calls[..|calls| - 1], kind, id))
                      then Bump(Tally(0, before), last.now).last else before
    ensures IsLatest(prior, calls, kind, id, start, after)
  {
    hide Delivers, Counts, Operations;
    var n := |calls| - 1;
    forall i: nat
      ensures Counts(prior, calls, kind, id, i) <==> (i < n && Counts(prior, calls[..n], kind, id, i)) || (i == n && Counts(prior, calls, kind, id, n))
    {
      CountsSnoc(prior, calls, kind, id, i);
      if Counts(prior, calls, kind, id, i) {
        CountsInside(prior, calls, kind, id, i);
      }
    }
    CountsSnoc(prior, calls, kind, id, n);
    if before.Some? && start != before {
      var i: nat :| i < n && Counts(prior, calls[..n], kind, id, i) && calls[..n][i].now == before.value;
      assert Counts(prior, calls, kind, id, i);
    }
    forall i: nat | i < n && Counts(prior, calls[..n], kind, id, i) ensures calls[i] == calls[..n][i] {
    }
  }

  lemma CountsInside(prior: set<string>, calls: seq<Call>, kind: Kind, id: int, i: nat)
    requires Counts(prior, calls, kind, id, i)
    ensures i < |calls|
  {
  }

  // ---- beyond one window ----------------------------------------------------------------------------

  ghost predicate Ascending(calls: seq<Call>) {
    forall i, j :: 0 <= i < j < |calls| ==> calls[i].now <= calls[j].now
  }

  ghost predicate AllBefore(times: set<int>, now: int) {
    forall t :: t in times ==> t < now - 7 * 86400
  }

  /** When the operation was counted for the memory, before the run or in it: at a call more than seven days after all
      such times before it. */
  ghost function CountedTimes(st: State, calls: seq<Call>, kind: Kind, id: int, op: string): set<int> {
    if calls == [] then if (op, kind, id) in st.receipts then {st.receipts[(op, kind, id)]} else {}
    else
      var earlier, last := CountedTimes(st, calls[..|calls| - 1], kind, id, op), calls[|calls| - 1];
      if last.op == Some(op) && Delivers(last, kind, id) && AllBefore(earlier, last.now) then earlier + {last.now} else earlier
  }

  /** The last call delivers the memory, and its operation was not counted for it in the seven days before. */
  ghost predicate LastCounts(st: State, calls: seq<Call>, kind: Kind, id: int)
    requires calls != []
  {
    var init, last := calls[..|calls| - 1], calls[|calls| - 1];
    && Delivers(last, kind, id)
    && (last.op.Some? ==> AllBefore(CountedTimes(st, init, kind, id, last.op.value), last.now))
  }

  ghost function CountedCalls(st: State, calls: seq<Call>, kind: Kind, id: int): nat {
    if calls == [] then 0
    else CountedCalls(st, calls[..|calls| - 1], kind, id) + if LastCounts(st, calls, kind, id) then 1 else 0
  }

  /** A receipt tells when its operation was counted, and until seven days later it is there. */
  ghost predicate Tells(q: State, key: (string, Kind, int), times: set<int>, now: int) {
    && (key in q.receipts ==> q.receipts[key] in times)
    && forall t :: t in times && t >= now - WINDOW ==> key in q.receipts && q.receipts[key] >= t
  }

  lemma {:induction false} RunTells(st: State, calls: seq<Call>, kind: Kind, id: int, op: string, now: int)
    requires id in st.meta && Ascending(calls) && forall i :: 0 <= i < |calls| ==> calls[i].now <= now
    ensures Run(st, calls).meta == st.meta
    ensures Tells(Run(st, calls), (op, kind, id), CountedTimes(st, calls, kind, id, op), now)
  {
    hide Step, Delivers, AllBefore;
    if calls != [] {
      var init, last := calls[..|calls| - 1], calls[|calls| - 1];
      RunTells(st, init, kind, id, op, last.now);
      StepTells(Run(st, init), last, kind, id, op, CountedTimes(st, init, kind, id, op), now);
    }
  }

  lemma StepTells(p: State, last: Call, kind: Kind, id: int, op: string, times: set<int>, now: int)
    requires last.now <= now && id in p.meta && Tells(p, (op, kind, id), times, last.now)
    ensures Step(p, last).meta == p.meta
    ensures Tells(Step(p, last), (op, kind, id),
      if last.op == Some(op) && Delivers(last, kind, id) && AllBefore(times, last.now) then times + {last.now} else times, now)
  {
    CallOutcome(p, last);
    hide Step;
  }

  /** However long a run lasts, as long as the clock never goes back: a memory's count grows by the calls that deliver it
      and whose operation, if they name one, was not counted for it in the seven days before.  So an operation id counts
      again once seven days have passed since it last counted, and a retry does not put that off. */
  lemma {:induction false} CountOverTime(st: State, calls: seq<Call>, kind: Kind, id: int)
    requires id in st.meta && Ascending(calls)
    ensures TallyAt(Run(st, calls), kind, id).count == TallyAt(st, kind, id).count + CountedCalls(st, calls, kind, id)
  {
    if calls != [] {
      var init, last := calls[..|calls| - 1], calls[|calls| - 1];
      CountOverTime(st, init, kind, id);
      var op := last.op.GetOr("");
      RunTells(st, init, kind, id, op, last.now);
      StepTally(Run(st, init), last, kind, id);
      hide Step, Delivers, CountedTimes;
    }
  }

  // ---- order does not matter ------------------------------------------------------------------------

  lemma {:induction false} UnnamedJoins(a: seq<Call>, b: seq<Call>, kind: Kind, id: int)
    ensures UnnamedCalls(a + b, kind, id) == UnnamedCalls(a, kind, id) + UnnamedCalls(b, kind, id)
  {
    hide Delivers;
    if b == [] {
      assert a + b == a;
    } else {
      UnnamedJoins(a, b[..|b| - 1], kind, id);
      assert (a + b)[..|a + b| - 1] == a + b[..|b| - 1];
    }
  }

  lemma {:induction false} UnnamedReorders(a: seq<Call>, b: seq<Call>, kind: Kind, id: int)
    requires multiset(a) == multiset(b)
    ensures UnnamedCalls(a, kind, id) == UnnamedCalls(b, kind, id)
  {
    hide Delivers;
    SameMultisetSameMembers(a, b);
    if a != [] {
      var init, last := a[..|a| - 1], a[|a| - 1];
      assert last in b;
      var k :| 0 <= k < |b| && b[k] == last;
      MultisetInit(a);
      Extracted(b, k, kind, id);
      UnnamedReorders(init, b[..k] + b[k + 1..], kind, id);
    }
  }

  /** Taking one call out of a run takes away just its own contribution. */
  lemma {:induction false} Extracted(b: seq<Call>, k: nat, kind: Kind, id: int)
    requires k < |b|
    ensures multiset(b[..k] + b[k + 1..]) == multiset(b) - multiset{b[k]}
    ensures UnnamedCalls(b, kind, id) ==
      UnnamedCalls(b[..k] + b[k + 1..], kind, id) + (if Delivers(b[k], kind, id) && b[k].op.None? then 1 else 0)
  {
    hide Delivers;
    var last := b[k];
    assert b == b[..k] + [last] + b[k + 1..];
    UnnamedJoins(b[..k], b[k + 1..], kind, id);
    UnnamedJoins(b[..k] + [last], b[k + 1..], kind, id);
    UnnamedJoins(b[..k], [last], kind, id);
    assert [last][..0] == [];
  }

  /** Any order of the same calls leaves the same counts. */
  lemma {:induction false} OrderIrrelevant(st: State, a: seq<Call>, b: seq<Call>, kind: Kind, id: int, lo: int)
    requires id in st.meta && Recent(st, lo) && InWindow(a, lo) && multiset(a) == multiset(b)
    ensures TallyAt(Run(st, a), kind, id).count == TallyAt(Run(st, b), kind, id).count
  {
    hide Delivers, Run, Recent, Receipted;
    SameMultisetSameMembers(a, b);
    forall i | 0 <= i < |b| ensures lo <= b[i].now <= lo + WINDOW {
      assert b[i] in a;
    }
    forall op ensures op in Operations(a, kind, id) <==> op in Operations(b, kind, id) {
      SameOperations(a, b, kind, id, op);
      SameOperations(b, a, kind, id, op);
    }
    assert Operations(a, kind, id) == Operations(b, kind, id);
    UnnamedReorders(a, b, kind, id);
    CountIsExact(st, a, kind, id, lo);
    CountIsExact(st, b, kind, id, lo);
  }

  lemma SameOperations(a: seq<Call>, b: seq<Call>, kind: Kind, id: int, op: string)
    requires forall c :: c in a ==> c in b
    ensures op in Operations(a, kind, id) ==> op in Operations(b, kind, id)
  {
    hide Delivers;
    if op in Operations(a, kind, id) {
      var i :| 0 <= i < |a| && Delivers(a[i], kind, id) && a[i].op == Some(op);
      assert a[i] in b;
      var j :| 0 <= j < |b| && b[j] == a[i];
    }
  }

  /** The tables once the ids in `done` have been handled. */
  function Partly(st: State, call: Call, done: set<int>): State {
    var counted := Counted(st, call) * done;
    State(st.meta,
      map id | id in st.access.Keys + (Known(st, call) * done) ::
        if id in counted then BumpKind(Base(st, call, id), call.kind, call.now) else Base(st, call, id),
      Prune(st.receipts, call.now) + map k | k in Signed(call.op, call.kind, counted) :: call.now)
  }

  lemma PartlyNone(st: State, call: Call)
    ensures Partly(st, call, {}) == State(st.meta, st.access, Prune(st.receipts, call.now))
  {
    hide Prune, BumpKind;
    assert Counted(st, call) * {} == {} && Known(st, call) * {} == {};
    assert Signed(call.op, call.kind, {}) == {};
  }

  /** Which ids of a call have a row, and which of them it counts. */
  lemma Handled(st: State, call: Call, id: int)
    requires id in call.ids
    ensures id in Known(st, call) <==> id in st.access || id in st.meta
    ensures id in Counted(st, call) <==>
      id in Known(st, call) && (call.op.None? || (call.op.value, call.kind, id) !in Prune(st.receipts, call.now))
    ensures Base(st, call, id) == if id in st.access then st.access[id] else Zero(call.now)
  {
  }

  lemma PartlyAccess(st: State, call: Call, done: set<int>, id: int)
    requires id in call.ids && id !in done
    ensures var p, q := Partly(st, call, done), Partly(st, call, done + {id});
            && (id in p.access <==> id in st.access) && (id in st.access ==> p.access[id] == st.access[id])
            && q.meta == st.meta
            && q.access ==
                 if id !in Known(st, call) then p.access
                 else p.access[id := if id in Counted(st, call) then BumpKind(Base(st, call, id), call.kind, call.now) else Base(st, call, id)]
  {
    hide BumpKind, Prune, Signed, IsNew;
  }

  lemma PartlyReceipts(st: State, call: Call, done: set<int>, id: int)
    requires id in call.ids && id !in done
    ensures var p, q := Partly(st, call, done), Partly(st, call, done + {id});
            && (call.op.Some? ==>
                  ((call.op.value, call.kind, id) in p.receipts <==> (call.op.value, call.kind, id) in Prune(st.receipts, call.now)))
            && q.receipts ==
                 if call.op.Some? && id in Counted(st, call) then p.receipts[(call.op.value, call.kind, id) := call.now] else p.receipts
  {
    hide BumpKind, Prune, IsNew, Known, Base;
    var before, after := Counted(st, call) * done, Counted(st, call) * (done + {id});
    if id !in Counted(st, call) {
      assert after == before;
    } else {
      assert after == before + {id};
      if call.op.Some? {
        SignedSnoc(call.op, call.kind, before, id);
      }
    }
  }

  lemma SignedSnoc(op: Option<string>, kind: Kind, counted: set<int>, id: int)
    requires op.Some?
    ensures Signed(op, kind, counted + {id}) == Signed(op, kind, counted) + {(op.value, kind, id)}
  {
  }

  lemma PartlyAll(st: State, call: Call)
    ensures Partly(st, call, set id | id in call.ids) == Recorded(st, call)
  {
    hide BumpKind, Base, Prune, Signed;
    var done := set id | id in call.ids;
    assert Counted(st, call) * done == Counted(st, call);
    assert st.access.Keys + (Known(st, call) * done) == Known(st, call);
  }

  // ---- the tables in place --------------------------------------------------------------------------

  class AccessTables {
    var meta: set<int>
    var access: map<int, Counter>
    var receipts: map<(string, Kind, int), int>

    function View(): State
      reads this
    {
      State(meta, access, receipts)
    }

    constructor (meta: set<int>)
      ensures View() == State(meta, map[], map[])
    {
      this.meta, access, receipts := meta, map[], map[];
    }

    /** `record`: one transaction over the distinct ids of a delivery. */
    method Deliver(call: Call) returns (ok: bool)
      modifies this
      ensures View() == Step(old(View()), call)
      ensures ok <==> |call.ids| <= MAX_IDS
    {
      hide BumpKind, Partly, Counted, Known, Base, Prune, Recorded;
      if call.ids == [] {
        return true;
      }
      if |call.ids| > MAX_IDS {
        return false;
      }
      ghost var start := View();
      receipts := Prune(receipts, call.now);
      PartlyNone(start, call);
      var ids := set id | id in call.ids;
      var left := ids;
      assert ids - left == {};
      while left != {}
        invariant left <= ids && meta == start.meta
        invariant View() == Partly(start, call, ids - left)
        decreases left
      {
        ghost var some := Pick(left);
        var id :| id in left;
        ghost var done := ids - left;
        left := left - {id};
        assert ids - left == done + {id};
        Handled(start, call, id);
        PartlyAccess(start, call, done, id);
        PartlyReceipts(start, call, done, id);
        if id !in access && id in meta {
          access := access[id := Zero(call.now)];
        }
        if id !in access {
          continue;
        }
        if call.op.Some? {
          if (call.op.value, call.kind, id) in receipts {
            continue;
          }
          receipts := receipts[(call.op.value, call.kind, id) := call.now];
        }
        access := access[id := BumpKind(access[id], call.kind, call.now)];
      }
      assert ids - left == ids;
      PartlyAll(start, call);
      return true;
    }
  }
}
