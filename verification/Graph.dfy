/** The temporal graph: reconciliation when an edge is inserted, and the batch sweep over stored edges
    (src/db.rs:5280-5480, 5737-5879).  Columns hold normalised text. */
module Graph {
  import opened Prelude

  /** A closing time: the text of a `valid_from`, or an observation time printed in decimal. */
  datatype Stamp = Text(text: string) | Seconds(at: int)

  datatype Reason = Duplicate | CurrentStateUpdate

  datatype NewEdge = NewEdge(
    project: string, source: string, relation: string, target: string,
    validFrom: Option<string>, validUntil: Option<Stamp>, now: int)

  datatype Edge = Edge(
    id: int,
    project: string, source: string, relation: string, target: string,
    validFrom: Option<string>, validUntil: Option<Stamp>,
    observedAt: int, createdAt: int,
    supersededBy: Option<int>, reason: Option<Reason>)

  type ExactKey = (string, string, string, string, string)
  type StateKey = (string, string, string)

  const CURRENT := "current_"
  const STATE_RELATIONS: set<string> := {
    "is", "status", "state", "role", "location", "works_at", "lives_at", "assigned_to", "owner", "primary"}

  predicate IsCurrentState(relation: string) {
    CURRENT <= relation || relation in STATE_RELATIONS
  }

  function Exact(e: Edge): ExactKey {
    (e.project, e.source, e.relation, e.target, e.validFrom.GetOr(""))
  }

  function State(e: Edge): StateKey {
    (e.project, e.source, e.relation)
  }

  predicate Active(e: Edge) {
    e.supersededBy.None?
  }

  predicate OpenState(e: Edge) {
    e.validUntil.None? && IsCurrentState(e.relation)
  }

  function ClosesAt(e: Edge): Stamp {
    match e.validFrom
    case Some(text) => Text(text)
    case None => Seconds(e.observedAt)
  }

  // ---- reconciliation at insert -----------------------------------------------------------------

  predicate Accepted(n: NewEdge) {
    n.source != "" && n.relation != "" && n.target != ""
  }

  function Raw(n: NewEdge, id: int): Edge {
    Edge(id, n.project, n.source, n.relation, n.target, n.validFrom, n.validUntil, n.now, n.now, None, None)
  }

  predicate Displaces(n: Edge, e: Edge) {
    Exact(n) == Exact(e) || (OpenState(n) && State(n) == State(e) && n.target != e.target)
  }

  function MarkDuplicate(e: Edge, n: Edge): Edge {
    if Active(e) && Exact(n) == Exact(e) then e.(supersededBy := Some(n.id), reason := Some(Duplicate)) else e
  }

  function MarkState(e: Edge, n: Edge): Edge {
    if Active(e) && OpenState(n) && State(n) == State(e) && n.target != e.target then
      e.(supersededBy := Some(n.id), reason := Some(CurrentStateUpdate),
         validUntil := if e.validUntil.Some? then e.validUntil else Some(ClosesAt(n)))
    else e
  }

  function Mark(e: Edge, n: Edge): Edge {
    MarkState(MarkDuplicate(e, n), n)
  }

  // An insertion commits its row and then each of the two updates of the other rows by itself.

  function MarkDuplicates(edges: seq<Edge>, n: Edge): seq<Edge> {
    seq(|edges|, j requires 0 <= j < |edges| => if edges[j].id == n.id then edges[j] else MarkDuplicate(edges[j], n))
  }

  function MarkStates(edges: seq<Edge>, n: Edge): seq<Edge> {
    seq(|edges|, j requires 0 <= j < |edges| => if edges[j].id == n.id then edges[j] else MarkState(edges[j], n))
  }

  /** Ids count the rows. */
  predicate Numbered(edges: seq<Edge>) {
    forall i | 0 <= i < |edges| :: edges[i].id == i + 1
  }

  /** A whole insertion without interruption. */
  function Insert(edges: seq<Edge>, n: NewEdge): seq<Edge> {
    var incoming := Raw(n, |edges| + 1);
    seq(|edges|, i requires 0 <= i < |edges| => Mark(edges[i], incoming)) + [incoming]
  }

  /** The three commits of an insertion, run alone, are the whole insertion. */
  lemma InsertInSteps(edges: seq<Edge>, n: NewEdge)
    requires Numbered(edges)
    ensures var incoming := Raw(n, |edges| + 1);
            MarkStates(MarkDuplicates(edges + [incoming], incoming), incoming) == Insert(edges, n)
    ensures Numbered(Insert(edges, n))
  {
  }

  /** The row repeats the edge: the same columns, where a missing start is the empty one. */
  predicate Repeats(n: NewEdge, e: Edge) {
    && n.project == e.project && n.source == e.source && n.relation == e.relation && n.target == e.target
    && n.validFrom.GetOr("") == e.validFrom.GetOr("")
  }

  /** The row is open and gives a relation with one value at a time another value than the edge. */
  predicate Supplants(n: NewEdge, e: Edge) {
    && n.validUntil.None? && IsCurrentState(n.relation)
    && n.project == e.project && n.source == e.source && n.relation == e.relation && n.target != e.target
  }

  /** What an insertion does, column by column: an active row under the next id, and of the active rows before it those
      it repeats or supplants superseded. */
  lemma InsertOutcome(edges: seq<Edge>, n: NewEdge)
    ensures var q := Insert(edges, n);
      && |q| == |edges| + 1
      && var e := q[|edges|];
         && e.id == |edges| + 1 && e.project == n.project && e.source == n.source && e.relation == n.relation
         && e.target == n.target && e.validFrom == n.validFrom && e.validUntil == n.validUntil
         && e.observedAt == n.now && e.createdAt == n.now && e.supersededBy.None? && e.reason.None?
    ensures forall i :: 0 <= i < |edges| ==>
      var e, q := edges[i], Insert(edges, n)[i];
      if e.supersededBy.None? && Repeats(n, e) then q == e.(supersededBy := Some(|edges| + 1), reason := Some(Duplicate))
      else if e.supersededBy.None? && Supplants(n, e) then
        q == e.(supersededBy := Some(|edges| + 1), reason := Some(CurrentStateUpdate), validUntil := q.validUntil)
        && q.validUntil == match e.validUntil
                           case Some(stamp) => Some(stamp)
                           case None => Some(match n.validFrom case Some(text) => Text(text) case None => Seconds(n.now))
      else q == e
  {
  }

  function Run(news: seq<NewEdge>): seq<Edge> {
    if news == [] then [] else Insert(Run(news[..|news| - 1]), news[|news| - 1])
  }

  function Inserted(news: seq<NewEdge>, i: nat): Edge
    requires i < |news|
  {
    Raw(news[i], i + 1)
  }

  /** The first later insertion that displaces insertion `i`. */
  function Superseder(news: seq<NewEdge>, i: nat): (k: Option<nat>)
    requires i < |news|
    ensures k.Some? ==> i < k.value < |news|
    decreases |news|
  {
    var last := |news| - 1;
    if i == last then None
    else
      var earlier := Superseder(news[..last], i);
      if earlier.Some? then earlier
      else if Displaces(Inserted(news, last), Inserted(news, i)) then Some(last)
      else None
  }

  lemma {:induction false} SupersederIsFirst(news: seq<NewEdge>, i: nat)
    requires i < |news|
    ensures match Superseder(news, i)
            case None => forall j :: i < j < |news| ==> !Displaces(Inserted(news, j), Inserted(news, i))
            case Some(k) =>
              && i < k < |news| && Displaces(Inserted(news, k), Inserted(news, i))
              && forall j :: i < j < k ==> !Displaces(Inserted(news, j), Inserted(news, i))
    decreases |news|
  {
    hide Displaces;
    var last := |news| - 1;
    if i < last {
      var init := news[..last];
      SupersederIsFirst(init, i);
      forall j | 0 <= j < last ensures Inserted(init, j) == Inserted(news, j) {
        assert init[j] == news[j];
      }
    }
  }

  /** What stays of an edge whatever supersedes it. */
  predicate SameColumns(a: Edge, b: Edge) {
    a.(validUntil := b.validUntil, supersededBy := b.supersededBy, reason := b.reason) == b
  }

  /** One insertion supersedes exactly the active edges it displaces. */
  lemma MarkSupersedes(e: Edge, n: Edge)
    ensures SameColumns(Mark(e, n), e)
    ensures Mark(e, n).supersededBy == if Active(e) && Displaces(n, e) then Some(n.id) else e.supersededBy
    ensures !Active(e) || !Displaces(n, e) ==> Mark(e, n) == e
    ensures Active(e) && Exact(n) == Exact(e) ==> Mark(e, n).reason == Some(Duplicate) && Mark(e, n).validUntil == e.validUntil
    ensures Active(e) && Displaces(n, e) && Exact(n) != Exact(e) ==>
      && Mark(e, n).reason == Some(CurrentStateUpdate)
      && Mark(e, n).validUntil == Some(match e.validUntil
                                       case Some(stamp) => stamp
                                       case None => if n.validFrom.Some? then Text(n.validFrom.value) else Seconds(n.observedAt))
  {
  }

  /** The relations that hold one value at a time. */
  lemma StateRelations(relation: string)
    ensures IsCurrentState("current_" + relation)
    ensures relation in ["is", "status", "state", "role", "location", "works_at", "lives_at", "assigned_to", "owner", "primary"]
            ==> IsCurrentState(relation)
    ensures IsCurrentState(relation) ==>
      (|relation| >= 8 && relation[..8] == "current_") || relation in STATE_RELATIONS
    ensures !IsCurrentState("knows") && !IsCurrentState("current")
  {
    assert "current_" + relation == CURRENT + relation;
    assert "current"[0] != 'k' && |"current"| < |CURRENT|;
  }

  lemma RunUnfolds(news: seq<NewEdge>, i: nat)
    requires i + 1 < |news| && |Run(news[..|news| - 1])| == |news| - 1
    ensures |Run(news)| == |news|
    ensures Run(news)[i] == Mark(Run(news[..|news| - 1])[i], Inserted(news, |news| - 1))
  {
    hide Mark;
  }

  /** After any run an edge is exactly as inserted, or superseded by the first insertion that displaced it. */
  lemma {:induction false} RunSpec(news: seq<NewEdge>, i: nat)
    requires i < |news|
    ensures |Run(news)| == |news| && SameColumns(Run(news)[i], Inserted(news, i))
    ensures Run(news)[i].supersededBy == match Superseder(news, i) case None => None case Some(k) => Some(k + 1)
    ensures Run(news)[i] == match Superseder(news, i)
                            case None => Inserted(news, i)
                            case Some(k) => Mark(Inserted(news, i), Inserted(news, k))
    decreases |news|
  {
    hide Mark, Displaces;
    var last := |news| - 1;
    var init := news[..last];
    RunLength(news);
    RunLength(init);
    if i < last {
      RunSpec(init, i);
      assert init[i] == news[i];
      RunUnfolds(news, i);
      MarkSupersedes(Run(init)[i], Inserted(news, last));
      if Superseder(init, i).Some? {
        assert init[Superseder(init, i).value] == news[Superseder(init, i).value];
      }
      DisplacesColumns(Inserted(news, last), Run(init)[i], Inserted(news, i));
    }
  }

  lemma DisplacesColumns(n: Edge, a: Edge, b: Edge)
    requires SameColumns(a, b)
    ensures Displaces(n, a) <==> Displaces(n, b)
  {
  }

  lemma {:induction false} RunLength(news: seq<NewEdge>)
    ensures |Run(news)| == |news|
  {
    if news != [] {
      RunLength(news[..|news| - 1]);
    }
  }

  /** Over any run of inserts no two active edges share an exact key. */
  lemma {:induction false} InsertKeysUnique(news: seq<NewEdge>, i: nat, j: nat)
    requires i < j < |news|
    ensures |Run(news)| == |news|
    ensures Active(Run(news)[i]) && Active(Run(news)[j]) ==> Exact(Run(news)[i]) != Exact(Run(news)[j])
  {
    RunSpec(news, i);
    RunSpec(news, j);
    SupersederIsFirst(news, i);
  }

  /** The target last given to each current-state key by an open edge. */
  function LastValue(news: seq<NewEdge>): map<StateKey, string> {
    if news == [] then map[]
    else
      var rest, e := LastValue(news[..|news| - 1]), Inserted(news, |news| - 1);
      if OpenState(e) then rest[State(e) := e.target] else rest
  }

  lemma {:induction false} UndisplacedHoldsLast(news: seq<NewEdge>, i: nat)
    requires i < |news| && Superseder(news, i).None? && OpenState(Inserted(news, i))
    ensures var e := Inserted(news, i); State(e) in LastValue(news) && LastValue(news)[State(e)] == e.target
    decreases |news|
  {
    var last := |news| - 1;
    if i < last {
      assert news[..last][i] == news[i];
      UndisplacedHoldsLast(news[..last], i);
    }
  }

  /** Every active open edge of a current-state key has the target of the last open edge inserted for it. */
  lemma {:induction false} LastValueWins(news: seq<NewEdge>, i: nat)
    requires i < |news|
    ensures |Run(news)| == |news|
    ensures var e := Run(news)[i];
            Active(e) && OpenState(e) ==> State(e) in LastValue(news) && LastValue(news)[State(e)] == e.target
  {
    RunSpec(news, i);
    if Active(Run(news)[i]) && OpenState(Run(news)[i]) {
      UndisplacedHoldsLast(news, i);
    }
  }

  lemma {:induction false} SomebodySetIt(news: seq<NewEdge>, key: StateKey) returns (i: nat)
    requires key in LastValue(news)
    ensures i < |news| && OpenState(Inserted(news, i)) && State(Inserted(news, i)) == key
    ensures Inserted(news, i).target == LastValue(news)[key]
    ensures forall j :: i < j < |news| && OpenState(Inserted(news, j)) ==> State(Inserted(news, j)) != key
  {
    hide IsCurrentState;
    var last := |news| - 1;
    var e := Inserted(news, last);
    if OpenState(e) && State(e) == key {
      i := last;
    } else {
      var init := news[..last];
      i := SomebodySetIt(init, key);
      forall j | 0 <= j < last ensures Inserted(init, j) == Inserted(news, j) {
        assert init[j] == news[j];
      }
    }
  }

  ghost predicate HeldOrRepeated(news: seq<NewEdge>, i: nat)
    requires i < |news| == |Run(news)|
  {
    Active(Run(news)[i])
    || exists j :: i < j < |news| && Exact(Inserted(news, j)) == Exact(Inserted(news, i)) && Inserted(news, j).validUntil.Some?
  }

  /** The edge that set the last value is still active unless a later closed edge repeats its exact key. */
  lemma {:induction false} LastValueIsHeld(news: seq<NewEdge>, key: StateKey)
    requires key in LastValue(news)
    ensures |Run(news)| == |news|
    ensures exists i :: 0 <= i < |news| && State(Run(news)[i]) == key && Run(news)[i].target == LastValue(news)[key] && HeldOrRepeated(news, i)
  {
    var i := SomebodySetIt(news, key);
    RunSpec(news, i);
    SupersederIsFirst(news, i);
    if Superseder(news, i).Some? {
      var j := Superseder(news, i).value;
      assert Exact(Inserted(news, j)) == Exact(Inserted(news, i)) && Inserted(news, j).validUntil.Some?;
    }
    assert State(Run(news)[i]) == key;
  }

  /** The superseded-by links of a table lead from row `i`, each to a strictly newer row, to the active row `end`. */
  predicate Leads(edges: seq<Edge>, i: nat, end: nat)
    requires i < |edges|
    decreases |edges| - i
  {
    match edges[i].supersededBy
    case None => i == end
    case Some(id) => i + 1 < id <= |edges| && Leads(edges, id - 1, end)
  }

  lemma {:induction false} LeadsToActive(edges: seq<Edge>, i: nat, end: nat)
    requires i < |edges| && Leads(edges, i, end)
    ensures i <= end < |edges| && Active(edges[end])
    decreases |edges| - i
  {
    if edges[i].supersededBy.Some? {
      LeadsToActive(edges, edges[i].supersededBy.value - 1, end);
    }
  }

  /** From every row of a run the links lead to an active edge. */
  ghost function Follow(news: seq<NewEdge>, i: nat): (end: nat)
    requires i < |news|
    ensures |Run(news)| == |news| && Leads(Run(news), i, end) && end < |news| && Active(Run(news)[end])
    decreases |news| - i
  {
    RunSpec(news, i);
    SupersederIsFirst(news, i);
    match Superseder(news, i)
    case None => i
    case Some(k) => Follow(news, k)
  }

  // ---- the batch sweep ----------------------------------------------------------------------------

  /** `a` sorts before `b` when the newest comes first. */
  predicate Newer(a: Edge, b: Edge) {
    || a.observedAt > b.observedAt
    || (a.observedAt == b.observedAt && a.createdAt > b.createdAt)
    || (a.observedAt == b.observedAt && a.createdAt == b.createdAt && a.id > b.id)
  }

  function Newest(group: seq<Edge>): Edge
    requires group != []
  {
    var last := group[|group| - 1];
    if |group| == 1 then last
    else
      var best := Newest(group[..|group| - 1]);
      if Newer(last, best) then last else best
  }

  lemma {:induction false} NewestIsNewest(group: seq<Edge>)
    requires group != []
    ensures Newest(group) in group && forall e :: e in group ==> !Newer(e, Newest(group))
  {
    if |group| > 1 {
      var init := group[..|group| - 1];
      NewestIsNewest(init);
      assert group == init + [group[|group| - 1]];
    }
  }

  ghost predicate DistinctIds(edges: seq<Edge>) {
    forall i, j :: 0 <= i < j < |edges| ==> edges[i].id != edges[j].id
  }

  function ExactGroup(edges: seq<Edge>, key: ExactKey): seq<Edge> {
    if edges == [] then []
    else
      var rest, e := ExactGroup(edges[..|edges| - 1], key), edges[|edges| - 1];
      if Active(e) && Exact(e) == key then rest + [e] else rest
  }

  function StateGroup(edges: seq<Edge>, key: StateKey): seq<Edge> {
    if edges == [] then []
    else
      var rest, e := StateGroup(edges[..|edges| - 1], key), edges[|edges| - 1];
      if Active(e) && OpenState(e) && State(e) == key then rest + [e] else rest
  }

  lemma {:induction false} ExactGroupMembers(edges: seq<Edge>, key: ExactKey, e: Edge)
    ensures e in ExactGroup(edges, key) <==> e in edges && Active(e) && Exact(e) == key
  {
    if edges != [] {
      ExactGroupMembers(edges[..|edges| - 1], key, e);
      assert edges == edges[..|edges| - 1] + [edges[|edges| - 1]];
    }
  }

  lemma {:induction false} StateGroupMembers(edges: seq<Edge>, key: StateKey, e: Edge)
    ensures e in StateGroup(edges, key) <==> e in edges && Active(e) && OpenState(e) && State(e) == key
  {
    if edges != [] {
      StateGroupMembers(edges[..|edges| - 1], key, e);
      assert edges == edges[..|edges| - 1] + [edges[|edges| - 1]];
    }
  }

  function Winner(group: seq<Edge>, e: Edge): Edge {
    if group == [] then e else Newest(group)
  }

  predicate IsDuplicate(edges: seq<Edge>, e: Edge) {
    Active(e) && Winner(ExactGroup(edges, Exact(e)), e).id != e.id
  }

  function DropDuplicate(edges: seq<Edge>, e: Edge): Edge {
    if IsDuplicate(edges, e)
    then e.(supersededBy := Some(Winner(ExactGroup(edges, Exact(e)), e).id), reason := Some(Duplicate)) else e
  }

  predicate IsOutdated(edges: seq<Edge>, e: Edge) {
    Active(e) && OpenState(e) && Winner(StateGroup(edges, State(e)), e).target != e.target
  }

  function CloseOutdated(edges: seq<Edge>, e: Edge): Edge {
    if IsOutdated(edges, e) then
      var winner := Winner(StateGroup(edges, State(e)), e);
      e.(supersededBy := Some(winner.id), reason := Some(CurrentStateUpdate), validUntil := Some(ClosesAt(winner)))
    else e
  }

  function DuplicateStep(edges: seq<Edge>): seq<Edge> {
    seq(|edges|, i requires 0 <= i < |edges| => DropDuplicate(edges, edges[i]))
  }

  function StateStep(edges: seq<Edge>): seq<Edge> {
    seq(|edges|, i requires 0 <= i < |edges| => CloseOutdated(edges, edges[i]))
  }

  function Sweep(edges: seq<Edge>): seq<Edge> {
    StateStep(DuplicateStep(edges))
  }

  // ---- what the sweep guarantees, for any stored edges ----------------------------------------------

  lemma {:induction false} ExactWinner(edges: seq<Edge>, e: Edge)
    requires e in edges && Active(e)
    ensures var w := Winner(ExactGroup(edges, Exact(e)), e);
            w in edges && Active(w) && Exact(w) == Exact(e)
            && forall f :: f in edges && Active(f) && Exact(f) == Exact(e) ==> !Newer(f, w)
  {
    var group := ExactGroup(edges, Exact(e));
    ExactGroupMembers(edges, Exact(e), e);
    NewestIsNewest(group);
    ExactGroupMembers(edges, Exact(e), Newest(group));
    forall f | f in edges && Active(f) && Exact(f) == Exact(e) ensures !Newer(f, Newest(group)) {
      ExactGroupMembers(edges, Exact(e), f);
    }
  }

  lemma {:induction false} StateWinner(edges: seq<Edge>, e: Edge)
    requires e in edges && Active(e) && OpenState(e)
    ensures var w := Winner(StateGroup(edges, State(e)), e);
            w in edges && Active(w) && OpenState(w) && State(w) == State(e)
            && forall f :: f in edges && Active(f) && OpenState(f) && State(f) == State(e) ==> !Newer(f, w)
  {
    var group := StateGroup(edges, State(e));
    StateGroupMembers(edges, State(e), e);
    NewestIsNewest(group);
    StateGroupMembers(edges, State(e), Newest(group));
    forall f | f in edges && Active(f) && OpenState(f) && State(f) == State(e) ensures !Newer(f, Newest(group)) {
      StateGroupMembers(edges, State(e), f);
    }
  }

  /** An edge active after the first step is the newest of its exact key, and was there unchanged. */
  lemma {:induction false} ActiveIsExactNewest(edges: seq<Edge>, i: nat)
    requires i < |edges| && Active(DuplicateStep(edges)[i])
    ensures DuplicateStep(edges)[i] == edges[i] && Active(edges[i])
    ensures Winner(ExactGroup(edges, Exact(edges[i])), edges[i]).id == edges[i].id
  {
  }

  lemma DuplicateStepUnique(edges: seq<Edge>, i: nat, j: nat)
    requires DistinctIds(edges) && i < j < |edges|
    requires Active(DuplicateStep(edges)[i]) && Active(DuplicateStep(edges)[j])
    ensures Exact(edges[i]) != Exact(edges[j])
  {
    hide Exact, Newest, ExactGroup;
    ActiveIsExactNewest(edges, i);
    ActiveIsExactNewest(edges, j);
    ExactGroupMembers(edges, Exact(edges[i]), edges[i]);
    ExactGroupMembers(edges, Exact(edges[j]), edges[j]);
  }

  /** No two edges left active share an exact key. */
  lemma SweepKeysUnique(edges: seq<Edge>, i: nat, j: nat)
    requires DistinctIds(edges) && i < j < |edges|
    requires Active(Sweep(edges)[i]) && Active(Sweep(edges)[j])
    ensures Exact(Sweep(edges)[i]) != Exact(Sweep(edges)[j])
  {
    hide Winner, ExactGroup, StateGroup;
    DuplicateStepUnique(edges, i, j);
  }

  predicate Rivals(e: Edge, f: Edge) {
    Active(e) && Active(f) && OpenState(e) && OpenState(f) && State(e) == State(f)
  }

  /** Every current-state key keeps a single target among its active open edges. */
  lemma SweepSingleTarget(edges: seq<Edge>, i: nat, j: nat)
    requires i < |edges| && j < |edges|
    requires Rivals(Sweep(edges)[i], Sweep(edges)[j])
    ensures Sweep(edges)[i].target == Sweep(edges)[j].target
  {
    hide StateGroup, DropDuplicate, Newest;
    var d := DuplicateStep(edges);
    assert Sweep(edges)[i] == d[i] && Sweep(edges)[j] == d[j];
    StateGroupMembers(d, State(d[i]), d[i]);
  }

  lemma NothingDuplicate(edges: seq<Edge>)
    requires forall i, j :: 0 <= i < j < |edges| && Active(edges[i]) && Active(edges[j]) ==> Exact(edges[i]) != Exact(edges[j])
    ensures DuplicateStep(edges) == edges
  {
    hide Exact, ExactGroup, Newest;
    forall i | 0 <= i < |edges| ensures !IsDuplicate(edges, edges[i]) {
      if Active(edges[i]) {
        ExactWinner(edges, edges[i]);
      }
    }
  }

  lemma NothingOutdated(edges: seq<Edge>)
    requires forall i, j :: 0 <= i < |edges| && 0 <= j < |edges| && Rivals(edges[i], edges[j]) ==> edges[i].target == edges[j].target
    ensures StateStep(edges) == edges
  {
    hide StateGroup, Newest;
    forall i | 0 <= i < |edges| ensures !IsOutdated(edges, edges[i]) {
      if Active(edges[i]) && OpenState(edges[i]) {
        StateWinner(edges, edges[i]);
      }
    }
  }

  /** A second sweep changes nothing. */
  lemma SweepIdempotent(edges: seq<Edge>)
    requires DistinctIds(edges)
    ensures Sweep(Sweep(edges)) == Sweep(edges)
  {
    hide DuplicateStep, StateStep, Exact, OpenState, State;
    var s := Sweep(edges);
    SweepLength(edges);
    forall i, j | 0 <= i < j < |s| && Active(s[i]) && Active(s[j]) ensures Exact(s[i]) != Exact(s[j]) {
      SweepKeysUnique(edges, i, j);
    }
    NothingDuplicate(s);
    forall i, j | 0 <= i < |s| && 0 <= j < |s| && Rivals(s[i], s[j]) ensures s[i].target == s[j].target {
      SweepSingleTarget(edges, i, j);
    }
    NothingOutdated(s);
  }

  lemma SweepLength(edges: seq<Edge>)
    ensures |Sweep(edges)| == |edges|
  {
  }

  /** The newest active edge of its exact key. */
  ghost predicate Leading(edges: seq<Edge>, e: Edge) {
    && e in edges && Active(e)
    && forall f :: f in edges && Active(f) && Exact(f) == Exact(e) ==> !Newer(f, e)
  }

  /** The newest open edge of its state key among those. */
  ghost predicate Current(edges: seq<Edge>, e: Edge) {
    && Leading(edges, e) && OpenState(e)
    && forall f :: Leading(edges, f) && OpenState(f) && State(f) == State(e) ==> !Newer(f, e)
  }

  /** `v` is the edge that contradicts `e` in the sweep. */
  ghost predicate Contradicts(edges: seq<Edge>, v: Edge, e: Edge) {
    OpenState(e) && Current(edges, v) && State(v) == State(e) && v.target != e.target
  }

  lemma NewestOnly(edges: seq<Edge>, a: Edge, b: Edge)
    requires DistinctIds(edges) && a in edges && b in edges && !Newer(a, b) && !Newer(b, a)
    ensures a == b
  {
    SameIdSameEdge(edges, a, b);
  }

  /** The first phase leaves the leading edges as they are and links every other active one to the leading one of its key. */
  lemma DuplicateOutcome(edges: seq<Edge>, i: nat)
    requires DistinctIds(edges) && i < |edges|
    ensures var e, d := edges[i], DuplicateStep(edges)[i];
            && (!Active(e) || Leading(edges, e) ==> d == e)
            && (Active(e) && !Leading(edges, e) ==>
                  exists w :: Leading(edges, w) && Exact(w) == Exact(e) && d == e.(supersededBy := Some(w.id), reason := Some(Duplicate)))
  {
    hide ExactGroup, Newest, Exact;
    var e := edges[i];
    if Active(e) {
      ExactWinner(edges, e);
      var w := Winner(ExactGroup(edges, Exact(e)), e);
      assert Leading(edges, w);
      if Leading(edges, e) {
        NewestOnly(edges, e, w);
      } else if w.id == e.id {
        SameIdSameEdge(edges, w, e);
      }
    }
  }

  lemma SameIdSameEdge(edges: seq<Edge>, a: Edge, b: Edge)
    requires DistinctIds(edges) && a in edges && b in edges && a.id == b.id
    ensures a == b
  {
    var i: nat :| i < |edges| && edges[i] == a;
    var j: nat :| j < |edges| && edges[j] == b;
    SameIdSameRow(edges, i, j);
  }

  lemma SameIdSameRow(edges: seq<Edge>, i: nat, j: nat)
    requires DistinctIds(edges) && i < |edges| && j < |edges| && edges[i].id == edges[j].id
    ensures i == j
  {
  }

  lemma LeadingAfter(edges: seq<Edge>, e: Edge)
    requires DistinctIds(edges)
    ensures e in DuplicateStep(edges) && Active(e) <==> Leading(edges, e)
  {
    hide DropDuplicate, Exact;
    var d := DuplicateStep(edges);
    if e in d && Active(e) {
      var i :| 0 <= i < |d| && d[i] == e;
      DuplicateOutcome(edges, i);
    }
    if Leading(edges, e) {
      var i :| 0 <= i < |edges| && edges[i] == e;
      DuplicateOutcome(edges, i);
      assert d[i] == e;
    }
  }

  /** What the sweep does to one edge: nothing to a superseded one; an active one that does not lead its exact key is a
      duplicate of the one that does; a leading one that the current edge of its state key contradicts is closed at the
      time that one begins; any other stays as it is. */
  lemma SweepOutcome(edges: seq<Edge>, i: nat)
    requires DistinctIds(edges) && i < |edges|
    ensures |Sweep(edges)| == |edges|
    ensures var e, s := edges[i], Sweep(edges)[i];
            && (!Active(e) ==> s == e)
            && (Active(e) && !Leading(edges, e) ==>
                  exists w :: Leading(edges, w) && Exact(w) == Exact(e) && s == e.(supersededBy := Some(w.id), reason := Some(Duplicate)))
            && (Leading(edges, e) && (forall v :: !Contradicts(edges, v, e)) ==> s == e)
            && (Leading(edges, e) ==> forall v :: Contradicts(edges, v, e) ==>
                  s == e.(supersededBy := Some(v.id), reason := Some(CurrentStateUpdate),
                          validUntil := Some(if v.validFrom.Some? then Text(v.validFrom.value) else Seconds(v.observedAt))))
  {
    hide StateGroup, Newest, Exact, DropDuplicate;
    var e, d := edges[i], DuplicateStep(edges);
    DuplicateOutcome(edges, i);
    if Leading(edges, e) && OpenState(e) {
      LeadingAfter(edges, e);
      StateWinner(d, d[i]);
      var v := Winner(StateGroup(d, State(d[i])), d[i]);
      LeadingAfter(edges, v);
      forall f | Leading(edges, f) && OpenState(f) && State(f) == State(v) ensures !Newer(f, v) {
        LeadingAfter(edges, f);
      }
      assert Current(edges, v);
      forall u | Contradicts(edges, u, e) ensures u == v {
        NewestOnly(edges, u, v);
      }
      assert v.target != e.target ==> Contradicts(edges, v, e);
    }
  }

  /** History is kept: columns and earlier links stay, and each new link leads to a newer edge. */
  lemma SweepKeepsHistory(edges: seq<Edge>, i: nat)
    requires DistinctIds(edges) && i < |edges|
    ensures SameColumns(Sweep(edges)[i], edges[i])
    ensures !Active(edges[i]) ==> Sweep(edges)[i] == edges[i]
    ensures Active(edges[i]) && !Active(Sweep(edges)[i]) ==>
      exists w :: w in edges && Active(w) && Some(w.id) == Sweep(edges)[i].supersededBy && Newer(w, edges[i]) && State(w) == State(edges[i])
  {
    hide ExactGroup, StateGroup, Newest;
    var d := DuplicateStep(edges);
    var e := edges[i];
    if Active(e) {
      ExactWinner(edges, e);
      var w := Winner(ExactGroup(edges, Exact(e)), e);
      if w.id != e.id {
        assert !Newer(e, w) && State(w) == State(e);
      } else if Active(d[i]) && OpenState(e) {
        StateWinner(d, d[i]);
        var v := Winner(StateGroup(d, State(d[i])), d[i]);
        var k :| 0 <= k < |d| && d[k] == v;
        ActiveIsExactNewest(edges, k);
        assert v in edges && !Newer(e, v);
      }
    }
  }

  // ---- insert-time against batch --------------------------------------------------------------------

  /** The same insertions stored without reconciliation. */
  function Unreconciled(news: seq<NewEdge>): seq<Edge> {
    seq(|news|, i requires 0 <= i < |news| => Inserted(news, i))
  }

  function Times(news: seq<NewEdge>): seq<int> {
    seq(|news|, i requires 0 <= i < |news| => news[i].now)
  }

  ghost predicate NonDecreasing(times: seq<int>) {
    forall i, j :: 0 <= i < j < |times| ==> times[i] <= times[j]
  }

  /** What insert-time reconciliation leaves active, the batch sweep leaves active too. */
  ghost predicate Contained(news: seq<NewEdge>) {
    |Run(news)| == |news| && forall i :: 0 <= i < |news| && Active(Run(news)[i]) ==> Active(Sweep(Unreconciled(news))[i])
  }

  lemma EarlierTimes(news: seq<NewEdge>, i: nat)
    requires NonDecreasing(Times(news)) && i < |news|
    ensures forall k :: 0 <= k < i ==> news[k].now <= news[i].now
  {
    forall k | 0 <= k < i ensures news[k].now <= news[i].now {
      assert Times(news)[k] <= Times(news)[i];
    }
  }

  lemma {:induction false} UndisplacedIsExactNewest(news: seq<NewEdge>, i: nat)
    requires i < |news| && NonDecreasing(Times(news)) && Superseder(news, i).None?
    ensures Active(DuplicateStep(Unreconciled(news))[i])
  {
    hide ExactGroup, Newest, Displaces;
    var raw := Unreconciled(news);
    EarlierTimes(news, i);
    SupersederIsFirst(news, i);
    ExactWinner(raw, raw[i]);
    var w := Winner(ExactGroup(raw, Exact(raw[i])), raw[i]);
    var k :| 0 <= k < |raw| && raw[k] == w;
    assert !Newer(raw[i], raw[k]);
    if k > i {
      ExactDisplaces(raw[k], raw[i]);
    }
  }

  lemma ExactDisplaces(n: Edge, e: Edge)
    requires Exact(n) == Exact(e)
    ensures Displaces(n, e)
  {
  }

  lemma {:induction false} HistoryContained(news: seq<NewEdge>, i: nat)
    requires NonDecreasing(Times(news)) && i < |news| && Superseder(news, i).None?
    ensures Active(Sweep(Unreconciled(news))[i])
  {
    hide ExactGroup, StateGroup, Newest, Exact, IsCurrentState;
    var raw := Unreconciled(news);
    var d := DuplicateStep(raw);
    EarlierTimes(news, i);
    UndisplacedIsExactNewest(news, i);
    SupersederIsFirst(news, i);
    assert d[i] == raw[i];
    if OpenState(d[i]) {
      StateWinner(d, d[i]);
      var w := Winner(StateGroup(d, State(d[i])), d[i]);
      var k :| 0 <= k < |d| && d[k] == w;
      assert d[k] == raw[k] && !Newer(raw[i], raw[k]);
      if k > i {
        assert !Displaces(Inserted(news, k), Inserted(news, i));
      }
    }
  }

  // A clock that runs back at i < j: insertions up to j share one exact key, later ones another.

  function Witness(times: seq<int>, j: nat): seq<NewEdge> {
    seq(|times|, k requires 0 <= k < |times| =>
      NewEdge("p", if k <= j then "a" else "b", "knows", "c", None, None, times[k]))
  }

  lemma {:induction false} WitnessKept(times: seq<int>, j: nat)
    requires j < |times|
    ensures Superseder(Witness(times, j), j).None?
  {
    var news := Witness(times, j);
    SupersederIsFirst(news, j);
    assert !IsCurrentState("knows");
    forall k | j < k < |news| ensures !Displaces(Inserted(news, k), Inserted(news, j)) {
      assert Inserted(news, k).source == "b" && Inserted(news, j).source == "a";
    }
  }

  lemma WitnessLost(times: seq<int>, i: nat, j: nat)
    requires i < j < |times| && times[i] > times[j]
    ensures !Active(Sweep(Unreconciled(Witness(times, j)))[j])
  {
    hide ExactGroup, StateGroup, Newest;
    var raw := Unreconciled(Witness(times, j));
    assert raw[i] in raw && Newer(raw[i], raw[j]) && Exact(raw[i]) == Exact(raw[j]);
    ExactWinner(raw, raw[j]);
    var w := Winner(ExactGroup(raw, Exact(raw[j])), raw[j]);
    var k :| 0 <= k < |raw| && raw[k] == w;
    assert IsDuplicate(raw, raw[j]);
  }

  lemma BackwardClockBreaks(times: seq<int>, i: nat, j: nat)
    requires i < j < |times| && times[i] > times[j]
    ensures Times(Witness(times, j)) == times && !Contained(Witness(times, j))
  {
    hide Sweep, Superseder;
    var news := Witness(times, j);
    RunSpec(news, j);
    WitnessKept(times, j);
    WitnessLost(times, i, j);
  }

  /** For a given sequence of clock readings, the insert-time active set is contained in the batch one on every
      history if and only if the clock never runs backwards. */
  lemma ContainmentNeedsClock(times: seq<int>)
    ensures NonDecreasing(times) <==> forall news :: Times(news) == times ==> Contained(news)
  {
    hide Sweep;
    if NonDecreasing(times) {
      forall news | Times(news) == times ensures Contained(news) {
        RunLength(news);
        SweepLength(Unreconciled(news));
        forall i | 0 <= i < |news| && Active(Run(news)[i]) ensures Active(Sweep(Unreconciled(news))[i]) {
          RunSpec(news, i);
          HistoryContained(news, i);
        }
      }
    } else {
      var i, j :| 0 <= i < j < |times| && times[i] > times[j];
      BackwardClockBreaks(times, i, j);
    }
  }

  // ---- the table in place -----------------------------------------------------------------------------

  datatype Report = Report(scanned: nat, duplicates: nat, updates: nat, active: nat)

  function CountActive(edges: seq<Edge>): nat {
    if edges == [] then 0 else CountActive(edges[..|edges| - 1]) + if Active(edges[|edges| - 1]) then 1 else 0
  }

  /** How many of the first `n` edges lose their place between two versions of the table. */
  function Retired(before: seq<Edge>, after: seq<Edge>, n: nat): nat
    requires n <= |before| == |after|
  {
    if n == 0 then 0
    else Retired(before, after, n - 1) + if Active(before[n - 1]) && !Active(after[n - 1]) then 1 else 0
  }

  lemma {:induction false} RetiredAccounts(before: seq<Edge>, after: seq<Edge>, n: nat)
    requires n <= |before| == |after| && forall i :: 0 <= i < n && Active(after[i]) ==> Active(before[i])
    ensures CountActive(after[..n]) + Retired(before, after, n) == CountActive(before[..n])
  {
    hide Active;
    if n > 0 {
      RetiredAccounts(before, after, n - 1);
      assert before[..n][..n - 1] == before[..n - 1] && after[..n][..n - 1] == after[..n - 1];
    }
  }

  lemma {:induction false} ActiveAtMost(edges: seq<Edge>)
    ensures CountActive(edges) <= |edges|
    ensures CountActive(edges) == |edges| <==> forall i :: 0 <= i < |edges| ==> Active(edges[i])
  {
    if edges != [] {
      ActiveAtMost(edges[..|edges| - 1]);
      assert edges == edges[..|edges| - 1] + [edges[|edges| - 1]];
    }
  }

  function SweepReport(edges: seq<Edge>, dryRun: bool): Report {
    var d := DuplicateStep(edges);
    var duplicates, updates := Retired(edges, d, |edges|), Retired(d, StateStep(d), |d|);
    var left := |edges| - duplicates - updates;
    Report(|edges|, duplicates, updates, if dryRun then (if left < 0 then 0 else left) else CountActive(Sweep(edges)))
  }

  lemma {:induction false} RetiredIndices(before: seq<Edge>, after: seq<Edge>, n: nat)
    requires n <= |before| == |after|
    ensures Retired(before, after, n) == |set i | 0 <= i < n && Active(before[i]) && !Active(after[i])|
  {
    var all := set i | 0 <= i < n && Active(before[i]) && !Active(after[i]);
    if n == 0 {
      assert all == {};
    } else {
      RetiredIndices(before, after, n - 1);
      var rest := set i | 0 <= i < n - 1 && Active(before[i]) && !Active(after[i]);
      assert all == rest + if Active(before[n - 1]) && !Active(after[n - 1]) then {n - 1} else {};
    }
  }

  lemma {:induction false} ActiveIndices(edges: seq<Edge>)
    ensures CountActive(edges) == |set i | 0 <= i < |edges| && Active(edges[i])|
  {
    var all := set i | 0 <= i < |edges| && Active(edges[i]);
    if edges == [] {
      assert all == {};
    } else {
      var n, init := |edges| - 1, edges[..|edges| - 1];
      ActiveIndices(init);
      var rest := set i | 0 <= i < n && Active(init[i]);
      assert all == rest + if Active(edges[n]) then {n} else {};
    }
  }

  /** The active edges that do not lead their exact key. */
  ghost function Duplicates(edges: seq<Edge>): set<int> {
    set i | 0 <= i < |edges| && Active(edges[i]) && !Leading(edges, edges[i])
  }

  /** The leading edges the sweep supersedes. */
  ghost function Contradicted(edges: seq<Edge>): set<int>
    requires |Sweep(edges)| == |edges|
  {
    set i | 0 <= i < |edges| && Leading(edges, edges[i]) && !Active(Sweep(edges)[i])
  }

  lemma {:induction false} DuplicatesRetired(edges: seq<Edge>)
    requires DistinctIds(edges)
    ensures Retired(edges, DuplicateStep(edges), |edges|) == |Duplicates(edges)|
  {
    hide DropDuplicate, Leading;
    var d := DuplicateStep(edges);
    forall i | 0 <= i < |edges| ensures Active(edges[i]) && !Active(d[i]) <==> i in Duplicates(edges) {
      DuplicateOutcome(edges, i);
    }
    RetiredIndices(edges, d, |edges|);
    assert (set i | 0 <= i < |edges| && Active(edges[i]) && !Active(d[i])) == Duplicates(edges);
  }

  lemma {:induction false} ContradictedRetired(edges: seq<Edge>)
    requires DistinctIds(edges)
    ensures |Sweep(edges)| == |edges|
    ensures Retired(DuplicateStep(edges), Sweep(edges), |edges|) == |Contradicted(edges)|
  {
    hide DropDuplicate, CloseOutdated, Leading;
    var d, s := DuplicateStep(edges), Sweep(edges);
    SweepLength(edges);
    forall i | 0 <= i < |edges| ensures Active(d[i]) && !Active(s[i]) <==> i in Contradicted(edges) {
      DuplicateOutcome(edges, i);
      LeadingWasActive(edges, i);
    }
    RetiredIndices(d, s, |edges|);
    assert (set i | 0 <= i < |edges| && Active(d[i]) && !Active(s[i])) == Contradicted(edges);
  }

  lemma LeadingWasActive(edges: seq<Edge>, i: nat)
    requires i < |edges|
    ensures Leading(edges, edges[i]) ==> Active(edges[i])
  {
  }

  /** The report counts the rows read, the duplicates, the contradicted edges, and the edges left active; a dry run
      takes the second and third from the first, already superseded rows included. */
  lemma ReportCounts(edges: seq<Edge>, dryRun: bool)
    requires DistinctIds(edges)
    ensures |Sweep(edges)| == |edges|
    ensures var r := SweepReport(edges, dryRun);
            && r.scanned == |edges| && r.duplicates == |Duplicates(edges)| && r.updates == |Contradicted(edges)|
            && r.active == if dryRun then |edges| - |Duplicates(edges)| - |Contradicted(edges)|
                           else |set i | 0 <= i < |edges| && Active(Sweep(edges)[i])|
  {
    hide Duplicates, Contradicted, CloseOutdated, DropDuplicate;
    var d, s := DuplicateStep(edges), Sweep(edges);
    SweepLength(edges);
    DuplicatesRetired(edges);
    ContradictedRetired(edges);
    ActiveIndices(s);
    assert (set i | 0 <= i < |s| && Active(s[i])) == set i | 0 <= i < |edges| && Active(s[i]);
    SweepBalance(edges);
    ActiveAtMost(edges);
  }

  /** What the two phases retire and what is left make up what was active. */
  lemma {:induction false} SweepBalance(edges: seq<Edge>)
    ensures |Sweep(edges)| == |edges|
    ensures CountActive(edges) == CountActive(Sweep(edges)) + Retired(edges, DuplicateStep(edges), |edges|)
              + Retired(DuplicateStep(edges), Sweep(edges), |edges|)
  {
    hide ExactGroup, StateGroup, Newest;
    var d := DuplicateStep(edges);
    var s := StateStep(d);
    RetiredAccounts(edges, d, |edges|);
    RetiredAccounts(d, s, |d|);
    assert edges[..|edges|] == edges && d[..|d|] == d && s[..|d|] == s;
  }

  /** A dry run predicts the number of active edges exactly when nothing was superseded beforehand. */
  lemma DryRunPredicts(edges: seq<Edge>)
    ensures SweepReport(edges, true) == SweepReport(edges, false) <==> forall i :: 0 <= i < |edges| ==> Active(edges[i])
  {
    hide ExactGroup, StateGroup, Newest;
    SweepBalance(edges);
    ActiveAtMost(edges);
  }

  method FindNewest(group: seq<Edge>) returns (best: Edge)
    requires group != []
    ensures best == Newest(group)
  {
    best := group[0];
    assert group[..1] == [group[0]];
    for i := 1 to |group|
      invariant best == Newest(group[..i])
    {
      assert group[..i + 1][..i] == group[..i];
      if Newer(group[i], best) {
        best := group[i];
      }
    }
    assert group[..|group|] == group;
  }

  method GroupExact(edges: seq<Edge>) returns (groups: map<ExactKey, seq<Edge>>)
    ensures forall k :: (if k in groups then groups[k] else []) == ExactGroup(edges, k)
  {
    groups := map[];
    for i := 0 to |edges|
      invariant forall k :: (if k in groups then groups[k] else []) == ExactGroup(edges[..i], k)
    {
      assert edges[..i + 1][..i] == edges[..i];
      if Active(edges[i]) {
        var k := Exact(edges[i]);
        groups := groups[k := (if k in groups then groups[k] else []) + [edges[i]]];
      }
    }
    assert edges[..|edges|] == edges;
  }

  /** Groups the active edges by exact key and supersedes all but the newest of each group. */
  method RetireDuplicates(edges: seq<Edge>) returns (out: seq<Edge>, retired: nat)
    ensures out == DuplicateStep(edges) && retired == Retired(edges, out, |edges|)
  {
    hide ExactGroup, Newest, Exact;
    var groups := GroupExact(edges);
    out, retired := [], 0;
    for i := 0 to |edges|
      invariant |out| == i && forall j :: 0 <= j < i ==> out[j] == DropDuplicate(edges, edges[j])
      invariant retired == Retired(edges[..i], out, i)
    {
      var e := edges[i];
      if Active(e) {
        ExactGroupMembers(edges, Exact(e), e);
        var group := groups[Exact(e)];
        var winner := FindNewest(group);
        if winner.id != e.id {
          e := e.(supersededBy := Some(winner.id), reason := Some(Duplicate));
        }
      }
      RetiredPrefix(edges, out, e, i);
      retired := retired + if Active(edges[i]) && !Active(e) then 1 else 0;
      out := out + [e];
    }
    assert edges[..|edges|] == edges;
  }

  method GroupState(edges: seq<Edge>) returns (groups: map<StateKey, seq<Edge>>)
    ensures forall k :: (if k in groups then groups[k] else []) == StateGroup(edges, k)
  {
    groups := map[];
    for i := 0 to |edges|
      invariant forall k :: (if k in groups then groups[k] else []) == StateGroup(edges[..i], k)
    {
      assert edges[..i + 1][..i] == edges[..i];
      if Active(edges[i]) && OpenState(edges[i]) {
        var k := State(edges[i]);
        groups := groups[k := (if k in groups then groups[k] else []) + [edges[i]]];
      }
    }
    assert edges[..|edges|] == edges;
  }

  /** Groups the remaining open current-state edges and closes those that contradict the newest of their group. */
  method RetireOutdated(edges: seq<Edge>) returns (out: seq<Edge>, retired: nat)
    ensures out == StateStep(edges) && retired == Retired(edges, out, |edges|)
  {
    hide StateGroup, Newest, State;
    var groups := GroupState(edges);
    out, retired := [], 0;
    for i := 0 to |edges|
      invariant |out| == i && forall j :: 0 <= j < i ==> out[j] == CloseOutdated(edges, edges[j])
      invariant retired == Retired(edges[..i], out, i)
    {
      var e := edges[i];
      if Active(e) && OpenState(e) {
        StateGroupMembers(edges, State(e), e);
        var group := groups[State(e)];
        var winner := FindNewest(group);
        if winner.target != e.target {
          e := e.(supersededBy := Some(winner.id), reason := Some(CurrentStateUpdate), validUntil := Some(ClosesAt(winner)));
        }
      }
      RetiredPrefix(edges, out, e, i);
      retired := retired + if Active(edges[i]) && !Active(e) then 1 else 0;
      out := out + [e];
    }
    assert edges[..|edges|] == edges;
  }

  lemma RetiredPrefix(edges: seq<Edge>, out: seq<Edge>, e: Edge, i: nat)
    requires i < |edges| && |out| == i
    ensures Retired(edges[..i + 1], out + [e], i + 1) ==
      Retired(edges[..i], out, i) + if Active(edges[i]) && !Active(e) then 1 else 0
  {
    RetiredSame(edges[..i + 1], out + [e], edges[..i], out, i);
  }

  lemma {:induction false} RetiredSame(a: seq<Edge>, b: seq<Edge>, c: seq<Edge>, d: seq<Edge>, n: nat)
    requires n <= |a| == |b| && n <= |c| == |d| && a[..n] == c[..n] && b[..n] == d[..n]
    ensures Retired(a, b, n) == Retired(c, d, n)
  {
    if n > 0 {
      assert a[n - 1] == a[..n][n - 1] && c[n - 1] == c[..n][n - 1];
      assert b[n - 1] == b[..n][n - 1] && d[n - 1] == d[..n][n - 1];
      assert a[..n - 1] == a[..n][..n - 1] && c[..n - 1] == c[..n][..n - 1];
      assert b[..n - 1] == b[..n][..n - 1] && d[..n - 1] == d[..n][..n - 1];
      RetiredSame(a, b, c, d, n - 1);
    }
  }

  class EdgeTable {
    var edges: seq<Edge>

    constructor ()
      ensures edges == []
    {
      edges := [];
    }

    /** The INSERT: one active row under an id no row has, with the given columns, and no other row touched. */
    method AddRow(n: NewEdge) returns (incoming: Edge)
      requires Numbered(edges)
      modifies this
      ensures Numbered(edges) && edges == old(edges) + [incoming]
      ensures (forall i :: 0 <= i < |old(edges)| ==> old(edges)[i].id < incoming.id) && Active(incoming)
      ensures incoming == Raw(n, |edges|)
    {
      incoming := Raw(n, |edges| + 1);
      edges := edges + [incoming];
    }

    /** The first UPDATE, over every row of the table as it now is. */
    method SupersedeDuplicates(incoming: Edge)
      modifies this
      ensures edges == MarkDuplicates(old(edges), incoming)
    {
      for i := 0 to |edges|
        invariant |edges| == |old(edges)|
        invariant forall j :: 0 <= j < i ==> edges[j] == MarkDuplicates(old(edges), incoming)[j]
        invariant forall j :: i <= j < |edges| ==> edges[j] == old(edges)[j]
      {
        var e := edges[i];
        if Exact(e) == Exact(incoming) && e.id != incoming.id && e.supersededBy.None? {
          edges := edges[i := e.(supersededBy := Some(incoming.id), reason := Some(Duplicate))];
        }
      }
    }

    /** The second UPDATE, for open current-state edges only. */
    method CloseContradicted(incoming: Edge)
      modifies this
      ensures edges == MarkStates(old(edges), incoming)
    {
      if incoming.validUntil.Some? || !IsCurrentState(incoming.relation) {
        return;
      }
      var closesAt := ClosesAt(incoming);
      for i := 0 to |edges|
        invariant |edges| == |old(edges)|
        invariant forall j :: 0 <= j < i ==> edges[j] == MarkStates(old(edges), incoming)[j]
        invariant forall j :: i <= j < |edges| ==> edges[j] == old(edges)[j]
      {
        var e := edges[i];
        if State(e) == State(incoming) && e.target != incoming.target && e.id != incoming.id && e.supersededBy.None? {
          edges := edges[i := e.(supersededBy := Some(incoming.id), reason := Some(CurrentStateUpdate),
                                 validUntil := if e.validUntil.Some? then e.validUntil else Some(closesAt))];
        }
      }
    }

    /** `insert_memory_edge` when nothing runs between its three commits. */
    method InsertEdge(n: NewEdge) returns (r: Result<int>)
      requires Numbered(edges)
      modifies this
      ensures Numbered(edges)
      ensures r.Err? <==> n.source == "" || n.relation == "" || n.target == ""
      ensures if Accepted(n) then r == Ok(|old(edges)| + 1) && edges == Insert(old(edges), n)
              else r.Err? && edges == old(edges)
    {
      if !Accepted(n) {
        return Err("memory edge source, relation, and target must not be empty");
      }
      hide MarkDuplicates, MarkStates, Insert;
      InsertInSteps(edges, n);
      var incoming := AddRow(n);
      SupersedeDuplicates(incoming);
      CloseContradicted(incoming);
      return Ok(incoming.id);
    }

    /** `reconcile_memory_graph` over the whole table. */
    method Reconcile(dryRun: bool) returns (report: Report)
      modifies this
      ensures Numbered(old(edges)) ==> Numbered(edges)
      ensures edges == (if dryRun then old(edges) else Sweep(old(edges)))
      ensures report == SweepReport(old(edges), dryRun)
    {
      var kept, duplicates := RetireDuplicates(edges);
      var swept, updates := RetireOutdated(kept);
      var scanned := |edges|;
      var left := scanned - duplicates - updates;
      var active: nat := if left < 0 then 0 else left;
      if !dryRun {
        edges := swept;
        active := CountActive(edges);
      }
      return Report(scanned, duplicates, updates, active);
    }
  }
}
