/** Overlapping edge insertions (src/db.rs:5344-5480): the row and the two updates of other rows are three
    commits, and other insertions may commit in between. */
module GraphInterleaving {
  import opened Prelude
  import opened Graph

  /** How many commits of an insertion have happened: its window is open until it is `Closed`. */
  datatype Stage = RowOnly | Deduplicated | Closed

  /** `edges` are the rows in order of insertion, `news` what was inserted, `stages` how far each insertion is. */
  datatype World = World(news: seq<NewEdge>, edges: seq<Edge>, stages: seq<Stage>)

  const EMPTY := World([], [], [])

  datatype Act = Begin(n: NewEdge) | Advance(i: nat)

  /** The update an insertion makes on its way out of a stage. */
  function Update(edges: seq<Edge>, n: Edge, stage: Stage): seq<Edge> {
    match stage
    case RowOnly => MarkDuplicates(edges, n)
    case Deduplicated => MarkStates(edges, n)
    case Closed => edges
  }

  function Next(stage: Stage): Stage {
    if stage == RowOnly then Deduplicated else Closed
  }

  /** One commit; what is not enabled changes nothing. */
  function Perform(w: World, act: Act): World {
    match act
    case Begin(n) =>
      if Accepted(n) then World(w.news + [n], w.edges + [Raw(n, |w.edges| + 1)], w.stages + [RowOnly]) else w
    case Advance(i) =>
      if i < |w.news| && i < |w.stages| then
        w.(edges := Update(w.edges, Inserted(w.news, i), w.stages[i]), stages := w.stages[i := Next(w.stages[i])])
      else w
  }

  function Play(w: World, acts: seq<Act>): World
    decreases acts
  {
    if acts == [] then w else Play(Perform(w, acts[0]), acts[1..])
  }

  predicate AllClosed(w: World) {
    forall i | 0 <= i < |w.stages| :: w.stages[i] == Closed
  }

  // ---- what every interleaving keeps --------------------------------------------------------------

  ghost predicate Sized(w: World) {
    |w.news| == |w.edges| == |w.stages|
  }

  /** Columns never change, and an active row is as inserted. */
  ghost predicate RowKept(w: World, i: nat)
    requires Sized(w) && i < |w.news|
  {
    SameColumns(w.edges[i], Inserted(w.news, i)) && (Active(w.edges[i]) ==> w.edges[i] == Inserted(w.news, i))
  }

  /** A later insertion has already superseded what its finished updates displace. */
  ghost predicate Settled(w: World, i: nat, j: nat)
    requires Sized(w) && i < j < |w.news|
  {
    && (w.stages[j] != RowOnly && Exact(Inserted(w.news, j)) == Exact(Inserted(w.news, i)) ==> !Active(w.edges[i]))
    && (w.stages[j] == Closed && Displaces(Inserted(w.news, j), Inserted(w.news, i)) ==> !Active(w.edges[i]))
  }

  ghost predicate Tracks(w: World) {
    && Sized(w)
    && (forall i :: 0 <= i < |w.news| ==> RowKept(w, i))
    && (forall i, j :: 0 <= i < j < |w.news| ==> Settled(w, i, j))
  }

  /** What one update does to one row. */
  lemma UpdateRow(edges: seq<Edge>, n: Edge, stage: Stage, j: nat)
    requires j < |edges|
    ensures |Update(edges, n, stage)| == |edges|
    ensures var e, q := edges[j], Update(edges, n, stage)[j];
            && SameColumns(q, e) && (!Active(e) ==> q == e) && (Active(q) ==> q == e)
            && (e.id == n.id ==> q == e)
            && (Active(e) && !Active(q) ==> q.supersededBy == Some(n.id) && Displaces(n, e))
            && (e.id != n.id && stage == RowOnly ==> (Active(q) <==> Active(e) && Exact(n) != Exact(e)))
            && (e.id != n.id && stage == Deduplicated && Exact(n) != Exact(e) ==> (Active(q) <==> Active(e) && !Displaces(n, e)))
            && (stage == Deduplicated && Exact(n) == Exact(e) ==> q == e)
            && (State(n) != State(e) ==> q == e)
  {
  }

  lemma SameKeys(a: Edge, b: Edge)
    requires SameColumns(a, b)
    ensures Exact(a) == Exact(b) && State(a) == State(b) && a.id == b.id
  {
  }

  lemma BeginTracks(w: World, n: NewEdge)
    requires Tracks(w)
    ensures Tracks(Perform(w, Begin(n)))
  {
    hide Exact, Displaces, SameColumns;
    if Accepted(n) {
      var q := Perform(w, Begin(n));
      forall i | 0 <= i < |w.news| ensures Inserted(q.news, i) == Inserted(w.news, i) && RowKept(w, i) {
      }
      forall i, j | 0 <= i < j < |q.news| ensures Settled(q, i, j) {
        if j < |w.news| {
          assert Settled(w, i, j);
        }
      }
      SameAsItself(Inserted(q.news, |w.news|));
    }
  }

  lemma SameAsItself(e: Edge)
    ensures SameColumns(e, e)
  {
  }

  lemma ColumnsJoin(a: Edge, b: Edge, c: Edge)
    requires SameColumns(a, b) && SameColumns(b, c)
    ensures SameColumns(a, c)
  {
  }

  lemma AdvanceRow(w: World, k: nat, i: nat)
    requires Tracks(w) && k < |w.news| && i < |w.news|
    ensures var q := Perform(w, Advance(k)); Sized(q) && q.news == w.news && RowKept(q, i)
  {
    hide Exact, Displaces, SameColumns, Update;
    var q := Perform(w, Advance(k));
    assert RowKept(w, i);
    UpdateRow(w.edges, Inserted(w.news, k), w.stages[k], i);
    ColumnsJoin(q.edges[i], w.edges[i], Inserted(w.news, i));
  }

  lemma AdvanceSettles(w: World, k: nat, i: nat, j: nat)
    requires Tracks(w) && k < |w.news| && i < j < |w.news|
    ensures var q := Perform(w, Advance(k)); Sized(q) && q.news == w.news && Settled(q, i, j)
  {
    hide Exact, Displaces, SameColumns, Update, State;
    assert Settled(w, i, j) && RowKept(w, i);
    UpdateRow(w.edges, Inserted(w.news, k), w.stages[k], i);
    SameKeys(w.edges[i], Inserted(w.news, i));
    DisplacesColumns(Inserted(w.news, k), w.edges[i], Inserted(w.news, i));
    if Exact(Inserted(w.news, j)) == Exact(Inserted(w.news, i)) {
      ExactDisplaces(Inserted(w.news, j), Inserted(w.news, i));
    }
  }

  lemma PerformTracks(w: World, act: Act)
    requires Tracks(w)
    ensures Tracks(Perform(w, act))
  {
    hide RowKept, Settled;
    match act
    case Begin(n) => BeginTracks(w, n);
    case Advance(k) =>
      if k < |w.news| {
        var q := Perform(w, act);
        AdvanceRow(w, k, k);
        forall i | 0 <= i < |q.news| ensures RowKept(q, i) {
          AdvanceRow(w, k, i);
        }
        forall i, j | 0 <= i < j < |q.news| ensures Settled(q, i, j) {
          AdvanceSettles(w, k, i, j);
        }
      }
  }

  lemma {:induction false} PlayTracks(w: World, acts: seq<Act>)
    requires Tracks(w)
    ensures Tracks(Play(w, acts))
    decreases acts
  {
    if acts != [] {
      PerformTracks(w, acts[0]);
      PlayTracks(Perform(w, acts[0]), acts[1..]);
    }
  }

  /** Under every interleaving, once all windows are closed no two active edges share an exact key. */
  lemma {:induction false} ClosedKeysUnique(acts: seq<Act>, i: nat, j: nat)
    requires var w := Play(EMPTY, acts);
             AllClosed(w) && i < j < |w.edges| && Active(w.edges[i]) && Active(w.edges[j])
    ensures var w := Play(EMPTY, acts); Exact(w.edges[i]) != Exact(w.edges[j])
  {
    hide Exact, Displaces, SameColumns;
    var w := Play(EMPTY, acts);
    PlayTracks(EMPTY, acts);
    assert RowKept(w, i) && RowKept(w, j) && Settled(w, i, j);
  }

  /** Under every interleaving, once all windows are closed an active open edge of a current-state key has the
      target of the last open edge inserted for it. */
  lemma {:induction false} ClosedLastValueWins(acts: seq<Act>, i: nat)
    requires var w := Play(EMPTY, acts);
             AllClosed(w) && i < |w.edges| && Active(w.edges[i]) && OpenState(w.edges[i])
    ensures var w := Play(EMPTY, acts);
            State(w.edges[i]) in LastValue(w.news) && LastValue(w.news)[State(w.edges[i])] == w.edges[i].target
  {
    hide Exact, Displaces, SameColumns;
    var w := Play(EMPTY, acts);
    PlayTracks(EMPTY, acts);
    assert RowKept(w, i);
    forall j | i < j < |w.news| ensures !Displaces(Inserted(w.news, j), Inserted(w.news, i)) {
      assert Settled(w, i, j);
    }
    SupersederIsFirst(w.news, i);
    UndisplacedHoldsLast(w.news, i);
  }

  // ---- insertions that do not overlap ---------------------------------------------------------------

  /** No insertion for the key is under way. */
  predicate Quiet(w: World, key: StateKey) {
    forall i | 0 <= i < |w.news| && i < |w.stages| :: State(Inserted(w.news, i)) == key ==> w.stages[i] == Closed
  }

  /** Each insertion begins when none of the same source and relation is under way. */
  predicate Serial(w: World, acts: seq<Act>)
    decreases acts
  {
    acts == [] ||
    ((acts[0].Begin? ==> Quiet(w, State(Raw(acts[0].n, 0)))) && Serial(Perform(w, acts[0]), acts[1..]))
  }

  function Effect(e: Edge, n: Edge, stage: Stage): Edge {
    match stage
    case RowOnly => e
    case Deduplicated => MarkDuplicate(e, n)
    case Closed => Mark(e, n)
  }

  /** Row `i` after insertions up to `m` have each had the effect of their stage, in order. */
  function Folded(news: seq<NewEdge>, stages: seq<Stage>, i: nat, m: nat): Edge
    requires i < m <= |news| == |stages|
    decreases m
  {
    if m == i + 1 then Inserted(news, i)
    else Effect(Folded(news, stages, i, m - 1), Inserted(news, m - 1), stages[m - 1])
  }

  /** Only the latest insertion of a key may be under way, and every row is the ordered effect of the others. */
  ghost predicate InOrder(w: World) {
    && Sized(w)
    && (forall i, j :: 0 <= i < j < |w.news| && State(Inserted(w.news, i)) == State(Inserted(w.news, j)) ==> w.stages[i] == Closed)
    && (forall i :: 0 <= i < |w.news| ==> w.edges[i] == Folded(w.news, w.stages, i, |w.news|))
  }

  lemma EffectElsewhere(e: Edge, n: Edge, stage: Stage)
    ensures SameColumns(Effect(e, n, stage), e)
    ensures State(n) != State(e) ==> Effect(e, n, stage) == e
  {
  }

  lemma {:induction false} FoldedColumns(news: seq<NewEdge>, stages: seq<Stage>, i: nat, m: nat)
    requires i < m <= |news| == |stages|
    ensures SameColumns(Folded(news, stages, i, m), Inserted(news, i))
    decreases m
  {
    hide SameColumns, Effect;
    if m == i + 1 {
      SameAsItself(Inserted(news, i));
    } else {
      FoldedColumns(news, stages, i, m - 1);
      EffectElsewhere(Folded(news, stages, i, m - 1), Inserted(news, m - 1), stages[m - 1]);
      ColumnsJoin(Folded(news, stages, i, m), Folded(news, stages, i, m - 1), Inserted(news, i));
    }
  }

  /** Insertions of other keys leave a row alone, so only agreement on the row's own key matters. */
  lemma {:induction false} FoldedLocal(news: seq<NewEdge>, stages: seq<Stage>, more: seq<NewEdge>, later: seq<Stage>, i: nat, m: nat)
    requires i < m <= |news| == |stages| && m <= |more| == |later| && news[..m] == more[..m]
    requires forall j :: i < j < m && State(Inserted(news, j)) == State(Inserted(news, i)) ==> stages[j] == later[j]
    ensures Folded(news, stages, i, m) == Folded(more, later, i, m)
    decreases m
  {
    hide SameColumns, Effect, State;
    assert news[m - 1] == news[..m][m - 1] == more[m - 1] && news[i] == news[..m][i] == more[i];
    if m > i + 1 {
      assert news[..m - 1] == news[..m][..m - 1] && more[..m - 1] == more[..m][..m - 1];
      FoldedLocal(news, stages, more, later, i, m - 1);
      var e, n := Folded(news, stages, i, m - 1), Inserted(news, m - 1);
      FoldedColumns(news, stages, i, m - 1);
      SameKeys(e, Inserted(news, i));
      EffectElsewhere(e, n, stages[m - 1]);
      EffectElsewhere(e, n, later[m - 1]);
    }
  }

  lemma BeginInOrder(w: World, n: NewEdge)
    requires InOrder(w) && Quiet(w, State(Raw(n, 0)))
    ensures InOrder(Perform(w, Begin(n)))
  {
    hide Effect;
    if Accepted(n) {
      var q := Perform(w, Begin(n));
      forall i | 0 <= i < |w.news| ensures Inserted(q.news, i) == Inserted(w.news, i) {
      }
      forall i | 0 <= i < |w.news| ensures q.edges[i] == Folded(q.news, q.stages, i, |q.news|) {
        FoldedLocal(w.news, w.stages, q.news, q.stages, i, |w.news|);
        StillRowOnly(Folded(q.news, q.stages, i, |w.news|), Inserted(q.news, |w.news|));
      }
    }
  }

  lemma StillRowOnly(e: Edge, n: Edge)
    ensures Effect(e, n, RowOnly) == e
  {
  }

  /** One more update of the latest insertion of a key takes its effect one stage further. */
  lemma UpdateEffect(edges: seq<Edge>, n: Edge, stage: Stage, j: nat, e: Edge)
    requires j < |edges| && edges[j].id != n.id && edges[j] == Effect(e, n, stage)
    ensures |Update(edges, n, stage)| == |edges| && Update(edges, n, stage)[j] == Effect(e, n, Next(stage))
  {
  }

  /** A row's fold up to an insertion is its fold to the end when every later insertion has another key. */
  lemma {:induction false} FoldedTail(news: seq<NewEdge>, stages: seq<Stage>, i: nat, k: nat, m: nat)
    requires i < k <= m <= |news| == |stages|
    requires forall j :: k <= j < m ==> State(Inserted(news, j)) != State(Inserted(news, i))
    ensures Folded(news, stages, i, m) == Folded(news, stages, i, k)
    decreases m
  {
    hide SameColumns, Effect, State;
    if k < m {
      FoldedTail(news, stages, i, k, m - 1);
      FoldedColumns(news, stages, i, m - 1);
      SameKeys(Folded(news, stages, i, m - 1), Inserted(news, i));
      EffectElsewhere(Folded(news, stages, i, m - 1), Inserted(news, m - 1), stages[m - 1]);
    }
  }

  lemma {:induction false} AdvanceFold(w: World, k: nat, i: nat)
    requires InOrder(w) && k < |w.news| && i < |w.news| && w.stages[k] != Closed
    ensures var q := Perform(w, Advance(k)); Sized(q) && q.edges[i] == Folded(q.news, q.stages, i, |q.news|)
  {
    hide Effect, State, Update, SameColumns;
    var q := Perform(w, Advance(k));
    var n, size := Inserted(w.news, k), |w.news|;
    FoldedColumns(w.news, w.stages, i, size);
    SameKeys(w.edges[i], Inserted(w.news, i));
    UpdateRow(w.edges, n, w.stages[k], i);
    if i < k && State(n) == State(Inserted(w.news, i)) {
      FoldedTail(w.news, w.stages, i, k + 1, size);
      FoldedTail(q.news, q.stages, i, k + 1, size);
      FoldedLocal(w.news, w.stages, q.news, q.stages, i, k);
      UpdateEffect(w.edges, n, w.stages[k], i, Folded(w.news, w.stages, i, k));
    } else {
      FoldedLocal(w.news, w.stages, q.news, q.stages, i, size);
    }
  }

  lemma AdvanceClosed(edges: seq<Edge>, n: Edge)
    ensures Update(edges, n, Closed) == edges
  {
  }

  lemma PerformInOrder(w: World, act: Act)
    requires InOrder(w) && (act.Begin? ==> Quiet(w, State(Raw(act.n, 0))))
    ensures InOrder(Perform(w, act))
  {
    hide State, Update, Folded;
    match act
    case Begin(n) => BeginInOrder(w, n);
    case Advance(k) =>
      if k < |w.news| {
        var q := Perform(w, act);
        if w.stages[k] == Closed {
          AdvanceClosed(w.edges, Inserted(w.news, k));
          assert q == w;
        } else {
          AdvanceFold(w, k, k);
          forall i | 0 <= i < |q.news| ensures q.edges[i] == Folded(q.news, q.stages, i, |q.news|) {
            AdvanceFold(w, k, i);
          }
        }
      }
  }

  lemma {:induction false} PlayInOrder(w: World, acts: seq<Act>)
    requires InOrder(w) && Serial(w, acts)
    ensures InOrder(Play(w, acts))
    decreases acts
  {
    hide InOrder, Perform;
    if acts != [] {
      PerformInOrder(w, acts[0]);
      PlayInOrder(Perform(w, acts[0]), acts[1..]);
    }
  }

  lemma {:induction false} FoldedIsRun(news: seq<NewEdge>, stages: seq<Stage>, i: nat, m: nat)
    requires i < m <= |news| == |stages| && forall j :: 0 <= j < |stages| ==> stages[j] == Closed
    ensures |Run(news[..m])| == m && Folded(news, stages, i, m) == Run(news[..m])[i]
    decreases m
  {
    hide Mark;
    RunLength(news[..m]);
    assert news[..m][..m - 1] == news[..m - 1];
    RunLength(news[..m - 1]);
    if m > i + 1 {
      FoldedIsRun(news, stages, i, m - 1);
      RunUnfolds(news[..m], i);
      assert Inserted(news[..m], m - 1) == Inserted(news, m - 1);
    }
  }

  /** Insertions of one source and relation that never overlap leave, once closed, exactly the table of whole
      insertions in the same order, whatever insertions of other keys do meanwhile.  So the last value of a key is
      held and its superseded-by links lead to an active edge. */
  lemma {:induction false} SerialIsAtomic(acts: seq<Act>)
    requires Serial(EMPTY, acts) && AllClosed(Play(EMPTY, acts))
    ensures var w := Play(EMPTY, acts); w.edges == Run(w.news)
  {
    hide Serial, Folded;
    PlayInOrder(EMPTY, acts);
    var w := Play(EMPTY, acts);
    RunLength(w.news);
    assert w.news[..|w.news|] == w.news;
    forall i | 0 <= i < |w.news| ensures w.edges[i] == Run(w.news)[i] {
      FoldedIsRun(w.news, w.stages, i, |w.news|);
    }
  }

  /** Of such runs the atomic results hold: the last value of a key is held, and from every row the links, each
      to a strictly newer row, lead to an active one. */
  lemma {:induction false} SerialKeepsValues(acts: seq<Act>, key: StateKey, i: nat)
    requires Serial(EMPTY, acts) && AllClosed(Play(EMPTY, acts))
    requires var w := Play(EMPTY, acts); key in LastValue(w.news) && i < |w.news|
    ensures var w := Play(EMPTY, acts);
            && |w.news| == |w.edges| == |Run(w.news)|
            && (exists j :: 0 <= j < |w.edges| && State(w.edges[j]) == key && w.edges[j].target == LastValue(w.news)[key]
                  && HeldOrRepeated(w.news, j))
            && Leads(w.edges, i, Follow(w.news, i)) && Active(w.edges[Follow(w.news, i)])
  {
    hide Serial, AllClosed, Play, Follow, State;
    var w := Play(EMPTY, acts);
    SerialIsAtomic(acts);
    RunLength(w.news);
    PlayTracks(EMPTY, acts);
    LastValueIsHeld(w.news, key);
  }

  // ---- insertions that do overlap -------------------------------------------------------------------

  function Rank(stage: Stage): nat {
    match stage
    case RowOnly => 0
    case Deduplicated => 1
    case Closed => 2
  }

  /** The update of `n` that hits `e` has been made. */
  predicate Made(n: Edge, e: Edge, stage: Stage) {
    if Exact(n) == Exact(e) then stage != RowOnly else Displaces(n, e) && stage == Closed
  }

  /** For each row that begins, how far the insertions before it are at that moment. */
  function Log(w: World, acts: seq<Act>): seq<seq<Stage>>
    decreases acts
  {
    if acts == [] then []
    else (if acts[0].Begin? && Accepted(acts[0].n) then [w.stages] else []) + Log(Perform(w, acts[0]), acts[1..])
  }

  ghost predicate LogFits(w: World, seen: seq<seq<Stage>>) {
    && Sized(w) && |seen| == |w.news|
    && (forall j :: 0 <= j < |seen| ==> |seen[j]| == j)
    && (forall i, j :: 0 <= i < j < |seen| ==> Rank(seen[j][i]) <= Rank(w.stages[i]))
  }

  /** Insertion `i` has made an update that hits row `j`, and row `j` was there. */
  ghost predicate Hit(w: World, seen: seq<seq<Stage>>, i: nat, j: nat)
    requires LogFits(w, seen) && i < |w.news| && j < |w.news|
  {
    && i != j && Made(Inserted(w.news, i), Inserted(w.news, j), w.stages[i])
    && (i < j ==> !Made(Inserted(w.news, i), Inserted(w.news, j), seen[j][i]))
  }

  /** A row is active exactly as long as nothing has hit it, and a superseded one names an insertion that has. */
  ghost predicate RowTold(w: World, seen: seq<seq<Stage>>, j: nat)
    requires LogFits(w, seen) && j < |w.news|
  {
    match w.edges[j].supersededBy
    case None => forall i: nat :: i < |w.news| ==> !Hit(w, seen, i, j)
    case Some(id) => 0 < id <= |w.news| && Hit(w, seen, id - 1, j)
  }

  ghost predicate Told(w: World, seen: seq<seq<Stage>>) {
    Tracks(w) && LogFits(w, seen) && forall j: nat :: j < |w.news| ==> RowTold(w, seen, j)
  }

  lemma BeginTold(w: World, seen: seq<seq<Stage>>, n: NewEdge)
    requires Told(w, seen) && Accepted(n)
    ensures Told(Perform(w, Begin(n)), seen + [w.stages])
  {
    hide Exact, Displaces, SameColumns, RowKept, Settled;
    var q, log := Perform(w, Begin(n)), seen + [w.stages];
    PerformTracks(w, Begin(n));
    forall i | 0 <= i < |w.news| ensures Inserted(q.news, i) == Inserted(w.news, i) {
    }
    forall j: nat | j < |q.news| ensures RowTold(q, log, j) {
      if j < |w.news| {
        assert RowTold(w, seen, j);
        forall i: nat | i < |w.news| ensures Hit(q, log, i, j) <==> Hit(w, seen, i, j) {
        }
        assert !Hit(q, log, |w.news|, j);
      }
    }
  }

  lemma LaterMade(n: Edge, e: Edge, stage: Stage)
    ensures Made(n, e, stage) ==> Made(n, e, Next(stage))
  {
  }

  /** An update supersedes exactly the other active rows it hits for the first time. */
  lemma UpdateHits(edges: seq<Edge>, n: Edge, stage: Stage, j: nat)
    requires j < |edges| && edges[j].id != n.id
    ensures |Update(edges, n, stage)| == |edges|
    ensures Update(edges, n, stage)[j].supersededBy ==
      if Active(edges[j]) && Made(n, edges[j], Next(stage)) && !Made(n, edges[j], stage) then Some(n.id) else edges[j].supersededBy
  {
  }

  lemma MadeColumns(n: Edge, a: Edge, b: Edge, stage: Stage)
    requires SameColumns(a, b)
    ensures Made(n, a, stage) <==> Made(n, b, stage)
  {
  }

  lemma EarlierMade(n: Edge, e: Edge, early: Stage, late: Stage)
    requires Rank(early) <= Rank(late) && Made(n, e, early)
    ensures Made(n, e, late)
  {
  }

  lemma AdvanceFits(w: World, seen: seq<seq<Stage>>, k: nat)
    requires LogFits(w, seen) && k < |w.news|
    ensures LogFits(Perform(w, Advance(k)), seen) && Perform(w, Advance(k)).news == w.news
  {
    hide MarkDuplicate, MarkState;
  }

  /** The update of insertion `k` makes a new hit on row `j` exactly when its stage does. */
  lemma AdvanceHits(w: World, seen: seq<seq<Stage>>, k: nat, j: nat)
    requires LogFits(w, seen) && k < |w.news| && j < |w.news| && k != j
    ensures LogFits(Perform(w, Advance(k)), seen)
    ensures var n, e := Inserted(w.news, k), Inserted(w.news, j);
            Hit(Perform(w, Advance(k)), seen, k, j) <==>
              Hit(w, seen, k, j) || (Made(n, e, Next(w.stages[k])) && !Made(n, e, w.stages[k]))
  {
    hide Made, Update;
    AdvanceFits(w, seen, k);
    var n, e := Inserted(w.news, k), Inserted(w.news, j);
    LaterMade(n, e, w.stages[k]);
    if k < j && Made(n, e, seen[j][k]) {
      EarlierMade(n, e, seen[j][k], w.stages[k]);
    }
  }

  lemma AdvanceTold(w: World, seen: seq<seq<Stage>>, k: nat, j: nat)
    requires Told(w, seen) && k < |w.news| && j < |w.news|
    ensures LogFits(Perform(w, Advance(k)), seen) && RowTold(Perform(w, Advance(k)), seen, j)
  {
    hide Exact, Displaces, SameColumns, Update, Settled, Made;
    var q := Perform(w, Advance(k));
    var n, e := Inserted(w.news, k), Inserted(w.news, j);
    assert RowTold(w, seen, j) && RowKept(w, j);
    AdvanceFits(w, seen, k);
    SameKeys(w.edges[j], e);
    UpdateRow(w.edges, n, w.stages[k], j);
    forall i: nat | i < |w.news| && i != k ensures Hit(q, seen, i, j) <==> Hit(w, seen, i, j) {
    }
    if j == k {
      assert q.edges[j] == w.edges[j] && !Hit(q, seen, k, j) && !Hit(w, seen, k, j);
    } else {
      AdvanceHits(w, seen, k, j);
      UpdateHits(w.edges, n, w.stages[k], j);
      MadeColumns(n, w.edges[j], e, w.stages[k]);
      MadeColumns(n, w.edges[j], e, Next(w.stages[k]));
    }
  }

  lemma PerformTold(w: World, seen: seq<seq<Stage>>, act: Act)
    requires Told(w, seen)
    ensures Told(Perform(w, act), seen + if act.Begin? && Accepted(act.n) then [w.stages] else [])
  {
    hide RowTold, Tracks, Update;
    match act
    case Begin(n) =>
      if Accepted(n) {
        BeginTold(w, seen, n);
      } else {
        assert seen + [] == seen;
      }
    case Advance(k) =>
      assert seen + [] == seen;
      PerformTracks(w, act);
      if k < |w.news| {
        AdvanceTold(w, seen, k, k);
        forall j: nat | j < |w.news| ensures RowTold(Perform(w, act), seen, j) {
          AdvanceTold(w, seen, k, j);
        }
      }
  }

  lemma {:induction false} PlayTold(w: World, seen: seq<seq<Stage>>, acts: seq<Act>)
    requires Told(w, seen)
    ensures Told(Play(w, acts), seen + Log(w, acts))
    decreases acts
  {
    hide Told, Perform;
    if acts == [] {
      assert seen + Log(w, acts) == seen;
    } else {
      PerformTold(w, seen, acts[0]);
      var more := if acts[0].Begin? && Accepted(acts[0].n) then [w.stages] else [];
      PlayTold(Perform(w, acts[0]), seen + more, acts[1..]);
      assert (seen + more) + Log(Perform(w, acts[0]), acts[1..]) == seen + Log(w, acts);
    }
  }

  lemma StartTold()
    ensures Told(EMPTY, [])
  {
  }

  /** Insertion `i`, if it displaces row `j`, came first and had hit all it would hit before row `j` was there. */
  ghost predicate Spares(news: seq<NewEdge>, seen: seq<seq<Stage>>, i: nat, j: nat)
    requires i < |news| == |seen| && j < |news| && |seen[j]| == j
  {
    i != j && Displaces(Inserted(news, i), Inserted(news, j)) ==>
      i < j && Made(Inserted(news, i), Inserted(news, j), seen[j][i])
  }

  lemma HitSpares(w: World, seen: seq<seq<Stage>>, i: nat, j: nat)
    requires LogFits(w, seen) && AllClosed(w) && i < |w.news| && j < |w.news|
    ensures Hit(w, seen, i, j) <==> !Spares(w.news, seen, i, j)
  {
    hide State, OpenState;
  }

  /** Which rows of a table are active, and what the superseded ones name. */
  lemma ToldRow(w: World, seen: seq<seq<Stage>>, j: nat)
    requires Told(w, seen) && j < |w.news|
    ensures Active(w.edges[j]) <==> forall i: nat :: i < |w.news| ==> !Hit(w, seen, i, j)
    ensures AllClosed(w) ==> (Active(w.edges[j]) <==> forall i: nat :: i < |w.news| ==> Spares(w.news, seen, i, j))
    ensures !Active(w.edges[j]) ==>
      var id := w.edges[j].supersededBy.value;
      0 < id <= |w.news| && Hit(w, seen, id - 1, j) && (AllClosed(w) ==> !Spares(w.news, seen, id - 1, j))
  {
    hide Tracks, Spares, Hit, AllClosed;
    assert RowTold(w, seen, j);
    if AllClosed(w) {
      forall i: nat | i < |w.news| ensures Hit(w, seen, i, j) <==> !Spares(w.news, seen, i, j) {
        HitSpares(w, seen, i, j);
      }
    }
  }

  /** Under every interleaving a row is active if and only if no insertion has hit it so far; once all windows are
      closed, if and only if every insertion that displaces it came before it and had made its update before the row
      was there.  A superseded row names an insertion of which that is not true. */
  lemma {:induction false} ActiveIff(acts: seq<Act>, j: nat)
    requires j < |Play(EMPTY, acts).news|
    ensures var w, seen := Play(EMPTY, acts), Log(EMPTY, acts);
            && LogFits(w, seen)
            && (Active(w.edges[j]) <==> forall i: nat :: i < |w.news| ==> !Hit(w, seen, i, j))
            && (AllClosed(w) ==> (Active(w.edges[j]) <==> forall i: nat :: i < |w.news| ==> Spares(w.news, seen, i, j)))
            && (!Active(w.edges[j]) ==>
                  var id := w.edges[j].supersededBy.value;
                  0 < id <= |w.news| && Hit(w, seen, id - 1, j) && (AllClosed(w) ==> !Spares(w.news, seen, id - 1, j)))
  {
    hide Told, Spares, Hit, Play, Log, AllClosed;
    StartTold();
    PlayTold(EMPTY, [], acts);
    assert [] + Log(EMPTY, acts) == Log(EMPTY, acts);
    ToldFits(Play(EMPTY, acts), Log(EMPTY, acts));
    ToldRow(Play(EMPTY, acts), Log(EMPTY, acts), j);
  }

  lemma ToldFits(w: World, seen: seq<seq<Stage>>)
    requires Told(w, seen)
    ensures LogFits(w, seen) && Tracks(w)
  {
  }

  /** Every row that nothing later displaces was there only after the older insertions that displace it had struck. */
  ghost predicate NoneLate(news: seq<NewEdge>, seen: seq<seq<Stage>>)
    requires |seen| == |news| && forall j :: 0 <= j < |seen| ==> |seen[j]| == j
  {
    forall i: nat, j: nat :: i < j < |news| && Superseder(news, j).None? ==> Spares(news, seen, i, j)
  }

  /** An interleaving leaves active exactly the rows that uninterrupted insertions in the same order leave active, if
      and only if no insertion strikes late at a row that nothing later displaces. */
  lemma {:induction false} ActiveAsAtomicIff(acts: seq<Act>)
    requires AllClosed(Play(EMPTY, acts))
    ensures var w, seen := Play(EMPTY, acts), Log(EMPTY, acts);
            && LogFits(w, seen) && |Run(w.news)| == |w.news|
            && ((forall j: nat :: j < |w.news| ==> (Active(w.edges[j]) <==> Active(Run(w.news)[j]))) <==> NoneLate(w.news, seen))
  {
    hide Play, Log, AllClosed, Displaces, Made, Run, Superseder;
    var w, seen := Play(EMPTY, acts), Log(EMPTY, acts);
    LogAlways(acts);
    RunLength(w.news);
    forall j: nat | j < |w.news|
      ensures Active(Run(w.news)[j]) <==> Superseder(w.news, j).None?
      ensures Active(w.edges[j]) <==> Superseder(w.news, j).None? && forall i: nat :: i < j ==> Spares(w.news, seen, i, j)
    {
      ActiveIff(acts, j);
      RunSpec(w.news, j);
      UndisplacedSpared(w.news, seen, j);
    }
  }

  lemma {:induction false} UndisplacedSpared(news: seq<NewEdge>, seen: seq<seq<Stage>>, j: nat)
    requires j < |news| == |seen| && forall k :: 0 <= k < |seen| ==> |seen[k]| == k
    ensures (forall i: nat :: i < |news| ==> Spares(news, seen, i, j)) <==>
      Superseder(news, j).None? && forall i: nat :: i < j ==> Spares(news, seen, i, j)
  {
    hide Displaces, Made, Superseder;
    SupersederIsFirst(news, j);
    if Superseder(news, j).Some? {
      assert !Spares(news, seen, Superseder(news, j).value, j);
    }
  }

  lemma {:induction false} LogAlways(acts: seq<Act>)
    ensures LogFits(Play(EMPTY, acts), Log(EMPTY, acts)) && Tracks(Play(EMPTY, acts))
  {
    hide Told, Play, Log;
    StartTold();
    PlayTold(EMPTY, [], acts);
    assert [] + Log(EMPTY, acts) == Log(EMPTY, acts);
    ToldFits(Play(EMPTY, acts), Log(EMPTY, acts));
  }

  /** The last value of a key is held by an active row if and only if some row of the key with that value is spared
      by every insertion: all that displace it came before it and had struck before it was there. */
  lemma {:induction false} LastValueHeldIff(acts: seq<Act>, key: StateKey)
    requires AllClosed(Play(EMPTY, acts)) && key in LastValue(Play(EMPTY, acts).news)
    ensures var w, seen := Play(EMPTY, acts), Log(EMPTY, acts);
            && LogFits(w, seen)
            && ((exists j: nat :: j < |w.news| && HasValue(w.edges[j], key, LastValue(w.news)[key]) && Active(w.edges[j])) <==>
                (exists j: nat :: j < |w.news| && HasValue(Inserted(w.news, j), key, LastValue(w.news)[key])
                  && forall i: nat :: i < |w.news| ==> Spares(w.news, seen, i, j)))
  {
    hide Play, Log, AllClosed, Spares, LastValue;
    var w, seen := Play(EMPTY, acts), Log(EMPTY, acts);
    var value := LastValue(w.news)[key];
    LogAlways(acts);
    forall j: nat | j < |w.news|
      ensures HasValue(w.edges[j], key, value) <==> HasValue(Inserted(w.news, j), key, value)
      ensures Active(w.edges[j]) <==> forall i: nat :: i < |w.news| ==> Spares(w.news, seen, i, j)
    {
      ActiveIff(acts, j);
      assert RowKept(w, j);
    }
  }

  predicate HasValue(e: Edge, key: StateKey, value: string) {
    State(e) == key && e.target == value
  }

  // ---- which insertion a row names --------------------------------------------------------------------

  /** The commit is the one in which an insertion's update hits row `j`. */
  predicate StrikesNow(w: World, act: Act, j: nat) {
    match act
    case Begin(_) => false
    case Advance(i) =>
      && i < |w.news| && i < |w.stages| && j < |w.news| && i != j
      && Made(Inserted(w.news, i), Inserted(w.news, j), Next(w.stages[i]))
      && !Made(Inserted(w.news, i), Inserted(w.news, j), w.stages[i])
  }

  /** The insertions that strike row `j`, in the order in which they do. */
  function Strikers(w: World, acts: seq<Act>, j: nat): seq<nat>
    decreases acts
  {
    if acts == [] then []
    else (if StrikesNow(w, acts[0], j) then [acts[0].i] else []) + Strikers(Perform(w, acts[0]), acts[1..], j)
  }

  /** They depend on what is inserted and on the order of the commits, never on the table. */
  lemma {:induction false} StrikersIgnoreTable(w: World, v: World, acts: seq<Act>, j: nat)
    requires w.news == v.news && w.stages == v.stages
    ensures Strikers(w, acts, j) == Strikers(v, acts, j)
    decreases acts
  {
    hide Made, Update;
    if acts != [] {
      StrikersIgnoreTable(Perform(w, acts[0]), Perform(v, acts[0]), acts[1..], j);
    }
  }

  predicate Displacer(w: World, i: nat, j: nat)
    requires j < |w.news|
  {
    i < |w.news| && i != j && Displaces(Inserted(w.news, i), Inserted(w.news, j))
  }

  /** Row `j` as inserted, or as the first of its strikers marked it; before it is there nothing strikes it. */
  ghost predicate Struck(w: World, j: nat, strikers: seq<nat>) {
    && Sized(w)
    && (j >= |w.news| ==> strikers == [])
    && (j < |w.news| ==>
          && (forall h :: 0 <= h < |strikers| ==> Displacer(w, strikers[h], j))
          && w.edges[j] == if strikers == [] then Inserted(w.news, j) else Mark(Inserted(w.news, j), Inserted(w.news, strikers[0])))
  }

  /** An update marks exactly the active rows it hits for the first time, as a whole insertion would. */
  lemma UpdateMarks(edges: seq<Edge>, n: Edge, stage: Stage, j: nat)
    requires j < |edges|
    ensures |Update(edges, n, stage)| == |edges|
    ensures Update(edges, n, stage)[j] ==
      if Active(edges[j]) && edges[j].id != n.id && Made(n, edges[j], Next(stage)) && !Made(n, edges[j], stage)
      then Mark(edges[j], n) else edges[j]
    ensures Made(n, edges[j], stage) ==> Displaces(n, edges[j])
  {
  }

  lemma MadeDisplaces(n: Edge, e: Edge, stage: Stage)
    requires Made(n, e, stage)
    ensures Displaces(n, e)
  {
  }

  lemma MarkedId(e: Edge, n: Edge)
    requires Displaces(n, e) && Active(e)
    ensures Mark(e, n).supersededBy == Some(n.id) && Mark(e, n).id == e.id
  {
  }

  lemma AdvanceStruck(w: World, k: nat, j: nat, strikers: seq<nat>)
    requires Struck(w, j, strikers) && k < |w.news|
    ensures Struck(Perform(w, Advance(k)), j, strikers + if StrikesNow(w, Advance(k), j) then [k] else [])
  {
    hide Made, Displaces, Mark, Update;
    var q, n := Perform(w, Advance(k)), Inserted(w.news, k);
    assert strikers + [] == strikers;
    UpdateLength(w.edges, n, w.stages[k]);
    if j < |w.news| {
      var e := Inserted(w.news, j);
      UpdateMarks(w.edges, n, w.stages[k], j);
      if strikers == [] {
        if StrikesNow(w, Advance(k), j) {
          MadeDisplaces(n, e, Next(w.stages[k]));
        }
      } else {
        MarkedId(e, Inserted(w.news, strikers[0]));
        if StrikesNow(w, Advance(k), j) {
          MadeDisplaces(n, e, Next(w.stages[k]));
        }
      }
    }
  }

  lemma UpdateLength(edges: seq<Edge>, n: Edge, stage: Stage)
    ensures |Update(edges, n, stage)| == |edges|
  {
  }

  lemma BeginStruck(w: World, n: NewEdge, j: nat, strikers: seq<nat>)
    requires Struck(w, j, strikers)
    ensures Struck(Perform(w, Begin(n)), j, strikers)
  {
    hide Displaces, Mark;
    if Accepted(n) {
      var q := Perform(w, Begin(n));
      forall i: nat | i < |w.news| ensures Inserted(q.news, i) == Inserted(w.news, i) {
      }
    }
  }

  lemma {:induction false} PlayStruck(w: World, acts: seq<Act>, j: nat, strikers: seq<nat>)
    requires Struck(w, j, strikers)
    ensures Struck(Play(w, acts), j, strikers + Strikers(w, acts, j))
    decreases acts
  {
    hide Struck, Made, Update, Displaces;
    if acts == [] {
      assert strikers + Strikers(w, acts, j) == strikers;
    } else {
      var now := if StrikesNow(w, acts[0], j) then [acts[0].i] else [];
      assert strikers + [] == strikers;
      StruckSized(w, j, strikers);
      match acts[0]
      {
        case Begin(n) => BeginStruck(w, n, j, strikers);
        case Advance(k) =>
          if k < |w.news| {
            AdvanceStruck(w, k, j, strikers);
          }
      }
      PlayStruck(Perform(w, acts[0]), acts[1..], j, strikers + now);
      assert (strikers + now) + Strikers(Perform(w, acts[0]), acts[1..], j) == strikers + Strikers(w, acts, j);
    }
  }

  lemma StruckSized(w: World, j: nat, strikers: seq<nat>)
    requires Struck(w, j, strikers)
    ensures Sized(w)
  {
  }

  /** At every point of every interleaving a row is as inserted, or as the first insertion to strike it marked it:
      that one it names, with its reason and closing time, whatever strikes later. */
  lemma {:induction false} FirstStrikerMarks(acts: seq<Act>, j: nat)
    requires j < |Play(EMPTY, acts).news|
    ensures var w, strikers := Play(EMPTY, acts), Strikers(EMPTY, acts, j);
            && Sized(w)
            && (forall h :: 0 <= h < |strikers| ==> Displacer(w, strikers[h], j))
            && w.edges[j] == (if strikers == [] then Inserted(w.news, j) else Mark(Inserted(w.news, j), Inserted(w.news, strikers[0])))
            && w.edges[j].supersededBy == if strikers == [] then None else Some(strikers[0] + 1)
  {
    hide Play, Strikers, Mark, Displaces;
    PlayStruck(EMPTY, acts, j, []);
    assert [] + Strikers(EMPTY, acts, j) == Strikers(EMPTY, acts, j);
    var w, strikers := Play(EMPTY, acts), Strikers(EMPTY, acts, j);
    if strikers != [] {
      MarkedId(Inserted(w.news, j), Inserted(w.news, strikers[0]));
    }
  }

  /** The links lead from row `j` to an active row. */
  ghost predicate Led(edges: seq<Edge>, j: nat)
    requires j < |edges|
  {
    exists end: nat :: Leads(edges, j, end)
  }

  ghost predicate StruckByNewer(acts: seq<Act>, j: nat) {
    Strikers(EMPTY, acts, j) == [] || Strikers(EMPTY, acts, j)[0] > j
  }

  lemma LedOn(edges: seq<Edge>, j: nat)
    requires j < |edges|
    ensures Led(edges, j) <==> (edges[j].supersededBy.Some? ==>
      j + 1 < edges[j].supersededBy.value <= |edges| && Led(edges, edges[j].supersededBy.value - 1))
  {
    match edges[j].supersededBy
    case None =>
      assert Leads(edges, j, j);
    case Some(id) =>
      if Led(edges, j) {
        var end: nat :| Leads(edges, j, end);
        assert Leads(edges, id - 1, end);
      } else if j + 1 < id <= |edges| && Led(edges, id - 1) {
        var end: nat :| Leads(edges, id - 1, end);
        assert Leads(edges, j, end);
      }
  }

  lemma {:induction false} NewerStrikersLead(acts: seq<Act>, j: nat)
    requires j < |Play(EMPTY, acts).news| && forall k: nat :: k < |Play(EMPTY, acts).news| ==> StruckByNewer(acts, k)
    ensures j < |Play(EMPTY, acts).edges| && Led(Play(EMPTY, acts).edges, j)
    decreases |Play(EMPTY, acts).news| - j
  {
    hide Play, Strikers, Led, Mark, Displaces;
    FirstStrikerMarks(acts, j);
    var strikers := Strikers(EMPTY, acts, j);
    if strikers != [] {
      assert StruckByNewer(acts, j);
      NewerStrikersLead(acts, strikers[0]);
    }
    LedOn(Play(EMPTY, acts).edges, j);
  }

  /** At every point of every interleaving the links lead from every row, each to a strictly newer row, to an active
      one, if and only if the first insertion to strike a row is always a newer one. */
  lemma {:induction false} LinksLeadIff(acts: seq<Act>)
    ensures var w := Play(EMPTY, acts);
            && |w.edges| == |w.news|
            && ((forall j: nat :: j < |w.news| ==> Led(w.edges, j)) <==> (forall j: nat :: j < |w.news| ==> StruckByNewer(acts, j)))
  {
    hide Play, Strikers, Led, Mark, Displaces;
    var w := Play(EMPTY, acts);
    PlayTracks(EMPTY, acts);
    TracksSized(w);
    if forall j: nat :: j < |w.news| ==> StruckByNewer(acts, j) {
      forall j: nat | j < |w.news| ensures Led(w.edges, j) {
        NewerStrikersLead(acts, j);
      }
    }
    forall j: nat | j < |w.news| && Led(w.edges, j) ensures StruckByNewer(acts, j) {
      FirstStrikerMarks(acts, j);
      LedOn(w.edges, j);
    }
  }

  lemma TracksSized(w: World)
    requires Tracks(w)
    ensures Sized(w)
  {
  }

  /** Every insertion that displaces a newer row had struck before that row was there. */
  ghost predicate NoneOverlaps(news: seq<NewEdge>, seen: seq<seq<Stage>>)
    requires |seen| == |news| && forall j :: 0 <= j < |seen| ==> |seen[j]| == j
  {
    forall i: nat, j: nat :: i < j < |news| ==> Spares(news, seen, i, j)
  }

  /** It is enough that no insertion strikes an older one's row late, as when insertions of a key do not overlap. */
  lemma LinksLead(acts: seq<Act>, j: nat) returns (end: nat)
    requires AllClosed(Play(EMPTY, acts)) && j < |Play(EMPTY, acts).news|
    requires LogFits(Play(EMPTY, acts), Log(EMPTY, acts)) && NoneOverlaps(Play(EMPTY, acts).news, Log(EMPTY, acts))
    ensures var w := Play(EMPTY, acts); Leads(w.edges, j, end) && end < |w.edges| && Active(w.edges[end])
  {
    hide Play, Log, AllClosed, Strikers, Leads, Mark, Displaces, Spares;
    var w, seen := Play(EMPTY, acts), Log(EMPTY, acts);
    forall k: nat | k < |w.news| ensures StruckByNewer(acts, k) {
      FirstStrikerMarks(acts, k);
      ActiveIff(acts, k);
      var strikers := Strikers(EMPTY, acts, k);
      if strikers != [] {
        assert w.edges[k].supersededBy == Some(strikers[0] + 1) && strikers[0] != k;
      }
    }
    LinksLeadIff(acts);
    assert Led(w.edges, j);
    end :| Leads(w.edges, j, end);
    LeadsToActive(w.edges, j, end);
  }

  /** A sweep finds nothing to do after any interleaving, so it brings no lost value back. */
  lemma {:induction false} SweepFindsNothing(acts: seq<Act>)
    requires AllClosed(Play(EMPTY, acts))
    ensures var w := Play(EMPTY, acts); Sweep(w.edges) == w.edges
  {
    hide Play, Exact, State, OpenState, AllClosed, DuplicateStep, StateStep;
    var s := Play(EMPTY, acts).edges;
    forall i, j | 0 <= i < j < |s| && Active(s[i]) && Active(s[j]) ensures Exact(s[i]) != Exact(s[j]) {
      ClosedKeysUnique(acts, i, j);
    }
    NothingDuplicate(s);
    forall i, j | 0 <= i < |s| && 0 <= j < |s| && Rivals(s[i], s[j]) ensures s[i].target == s[j].target {
      ClosedLastValueWins(acts, i);
      ClosedLastValueWins(acts, j);
    }
    NothingOutdated(s);
  }

  /** What any interleaving leaves active, a batch sweep of the same edges would leave active too, if their observation
      times do not run backwards. */
  lemma {:induction false} InterleavedContained(acts: seq<Act>, j: nat)
    requires AllClosed(Play(EMPTY, acts)) && NonDecreasing(Times(Play(EMPTY, acts).news)) && j < |Play(EMPTY, acts).news|
    ensures var w := Play(EMPTY, acts);
            && |w.edges| == |Sweep(Unreconciled(w.news))| == |w.news|
            && (Active(w.edges[j]) ==> Active(Sweep(Unreconciled(w.news))[j]))
  {
    hide Play, Log, AllClosed, Spares, Hit, Superseder, StateStep, DuplicateStep;
    var w, seen := Play(EMPTY, acts), Log(EMPTY, acts);
    LogAlways(acts);
    SweepLength(Unreconciled(w.news));
    if Active(w.edges[j]) {
      ActiveIff(acts, j);
      UndisplacedSpared(w.news, seen, j);
      HistoryContained(w.news, j);
    }
  }

  // ---- two insertions that compete ------------------------------------------------------------------

  predicate OnlyAdvances(acts: seq<Act>) {
    forall i | 0 <= i < |acts| :: acts[i].Advance?
  }

  /** Either insertion displaces the other: the same exact key, or different open targets of one current-state key. */
  predicate Compete(n: NewEdge, m: NewEdge) {
    var a, b := Raw(n, 1), Raw(m, 2);
    Accepted(n) && Accepted(m) && Displaces(a, b) && Displaces(b, a)
  }

  /** The rows two competing insertions compete with. */
  predicate Contested(n: NewEdge, m: NewEdge, e: Edge) {
    if Exact(Raw(n, 1)) == Exact(Raw(m, 2)) then Exact(e) == Exact(Raw(n, 1)) else State(e) == State(Raw(n, 1))
  }

  lemma CompetingRows(n: NewEdge, m: NewEdge, r: nat, s: nat, e: Edge)
    requires Compete(n, m)
    ensures Displaces(Raw(n, r), Raw(m, s)) && Displaces(Raw(m, s), Raw(n, r)) && Contested(n, m, Raw(m, s))
    ensures forall stage :: Made(Raw(n, r), Raw(m, s), stage) <==> Made(Raw(n, 1), Raw(m, 2), stage)
    ensures Contested(n, m, e) ==> Displaces(Raw(n, r), e) || Displaces(Raw(m, s), e)
  {
  }

  predicate ClosedUpTo(stages: seq<Stage>, r: nat) {
    r <= |stages| && forall k | 0 <= k < r :: stages[k] == Closed
  }

  lemma {:induction false} AdvancesOnly(w: World, acts: seq<Act>)
    requires OnlyAdvances(acts)
    ensures Play(w, acts).news == w.news && Log(w, acts) == []
    decreases acts
  {
    hide Update;
    if acts != [] {
      assert acts[0].Advance?;
      AdvancesOnly(Perform(w, acts[0]), acts[1..]);
    }
  }

  /** Two rows at the end of a closed table, on top of a closed history, of which neither the first's row nor any
      older one of their key can be active, and the second's is exactly if the first had struck before it came. */
  lemma PairDecides(d: World, seen: seq<seq<Stage>>, r: nat, n: NewEdge, m: NewEdge, i: nat)
    requires Told(d, seen) && AllClosed(d) && |d.news| == r + 2 && d.news[r] == n && d.news[r + 1] == m && Compete(n, m)
    requires ClosedUpTo(seen[r], r) && ClosedUpTo(seen[r + 1], r)
    requires i < r
    ensures Contested(n, m, d.edges[i]) ==> !Active(d.edges[i])
  {
    hide Tracks, RowTold, Displaces, Made, Contested, SameColumns, Exact, Compete, Settled;
    TrackedRow(d, i);
    CompetingRows(n, m, r + 1, r + 2, d.edges[i]);
    DisplacesColumns(Raw(n, r + 1), d.edges[i], Inserted(d.news, i));
    DisplacesColumns(Raw(m, r + 2), d.edges[i], Inserted(d.news, i));
    ToldRow(d, seen, i);
    assert Contested(n, m, d.edges[i]) ==> !Spares(d.news, seen, r, i) || !Spares(d.news, seen, r + 1, i);
  }

  lemma TrackedRow(w: World, i: nat)
    requires Tracks(w) && i < |w.news|
    ensures i < |w.edges| && SameColumns(w.edges[i], Inserted(w.news, i))
  {
    assert RowKept(w, i);
  }

  lemma ClosedSpares(news: seq<NewEdge>, seen: seq<seq<Stage>>, i: nat, j: nat)
    requires i < j < |news| == |seen| && |seen[j]| == j && seen[j][i] == Closed
    ensures Spares(news, seen, i, j)
  {
  }

  lemma PairEnds(d: World, seen: seq<seq<Stage>>, r: nat, n: NewEdge, m: NewEdge)
    requires Told(d, seen) && AllClosed(d) && |d.news| == r + 2 && d.news[r] == n && d.news[r + 1] == m && Compete(n, m)
    requires ClosedUpTo(seen[r], r) && ClosedUpTo(seen[r + 1], r)
    ensures d.edges[r].supersededBy == Some(r + 2)
    ensures var struck := Made(Raw(n, 1), Raw(m, 2), seen[r + 1][r]);
            (Active(d.edges[r + 1]) <==> struck) && (!struck ==> d.edges[r + 1].supersededBy == Some(r + 1))
    ensures Contested(n, m, d.edges[r + 1])
  {
    hide Tracks, RowTold, Made, Exact, Displaces, Compete, Contested, SameColumns;
    CompetingRows(n, m, r + 1, r + 2, Raw(n, 1));
    ToldRow(d, seen, r);
    ToldRow(d, seen, r + 1);
    forall k: nat | k < r ensures Spares(d.news, seen, k, r) {
      ClosedSpares(d.news, seen, k, r);
    }
    var s := r + 1;
    forall k: nat | k < r ensures Spares(d.news, seen, k, s) {
      ClosedSpares(d.news, seen, k, s);
    }
    assert !Spares(d.news, seen, r + 1, r) && Spares(d.news, seen, r, r) && Spares(d.news, seen, r + 1, r + 1);
    assert Spares(d.news, seen, r, r + 1) <==> Made(Raw(n, r + 1), Raw(m, r + 2), seen[r + 1][r]);
    var stage := seen[r + 1][r];
    assert Made(Raw(n, r + 1), Raw(m, r + 2), stage) <==> Made(Raw(n, 1), Raw(m, 2), stage);
    if !Active(d.edges[r + 1]) {
      var k: nat := d.edges[r + 1].supersededBy.value - 1;
      assert k == r;
    } else {
      assert Spares(d.news, seen, r, r + 1);
    }
    TrackedRow(d, r + 1);
    ContestedColumns(n, m, d.edges[r + 1], Inserted(d.news, r + 1));
  }

  lemma ContestedColumns(n: NewEdge, m: NewEdge, a: Edge, b: Edge)
    requires SameColumns(a, b)
    ensures Contested(n, m, a) <==> Contested(n, m, b)
  {
  }

  /** Two competing insertions on any closed history: after both windows close, the key they compete for has an active
      edge if and only if the first had made the update that would hit the second before the second's row came.
      Otherwise the two supersede each other in a circle and the value is lost. */
  lemma {:induction false} OverlapDecides(before: seq<Act>, n: NewEdge, m: NewEdge, between: seq<Act>, after: seq<Act>)
    requires AllClosed(Play(EMPTY, before)) && Compete(n, m) && OnlyAdvances(between) && OnlyAdvances(after)
    requires AllClosed(Play(Perform(Play(Perform(Play(EMPTY, before), Begin(n)), between), Begin(m)), after))
    ensures var q := Play(EMPTY, before);
            var b := Play(Perform(q, Begin(n)), between);
            var d := Play(Perform(b, Begin(m)), after);
            var r := |q.news|;
            && r < |b.stages| && |d.edges| == r + 2
            && (var struck := Made(Raw(n, 1), Raw(m, 2), b.stages[r]);
                && ((exists i :: 0 <= i < |d.edges| && Contested(n, m, d.edges[i]) && Active(d.edges[i])) <==> struck)
                && (Active(d.edges[r + 1]) <==> struck)
                && d.edges[r].supersededBy == Some(r + 2)
                && (!struck ==> d.edges[r + 1].supersededBy == Some(r + 1)))
  {
    hide Play, Log, Contested, Exact, Made, Told, Update, Displaces, Tracks;
    var q := Play(EMPTY, before);
    var r := |q.news|;
    StartTold();
    PlayTold(EMPTY, [], before);
    var s0 := [] + Log(EMPTY, before);
    ToldFits(q, s0);
    assert Accepted(n) && Accepted(m);
    var c := Perform(q, Begin(n));
    var s1 := s0 + [q.stages];
    PerformTold(q, s0, Begin(n));
    PlayTold(c, s1, between);
    AdvancesOnly(c, between);
    assert s1 + Log(c, between) == s1;
    var b := Play(c, between);
    ToldFits(b, s1);
    var s2 := s1 + [b.stages];
    PerformTold(b, s1, Begin(m));
    var e := Perform(b, Begin(m));
    PlayTold(e, s2, after);
    AdvancesOnly(e, after);
    assert s2 + Log(e, after) == s2;
    var d := Play(e, after);
    ToldFits(d, s2);
    assert |d.news| == r + 2 && d.news[r] == n && d.news[r + 1] == m;
    assert s2[r] == q.stages && s2[r + 1] == b.stages && s1[r] == q.stages;
    forall k | 0 <= k < r ensures b.stages[k] == Closed {
      assert Rank(s1[r][k]) <= Rank(b.stages[k]);
    }
    PairEnds(d, s2, r, n, m);
    forall i | 0 <= i < r && Contested(n, m, d.edges[i]) ensures !Active(d.edges[i]) {
      PairDecides(d, s2, r, n, m, i);
    }
  }

  /** The shortest such run: both rows, then the updates of the first, then those of the second. */
  lemma OverlappingPairLost(n: NewEdge, m: NewEdge)
    requires Compete(n, m)
    ensures var w := Play(EMPTY, [Begin(n), Begin(m), Advance(0), Advance(0), Advance(1), Advance(1)]);
            && AllClosed(w) && |w.edges| == 2
            && w.edges[0].supersededBy == Some(2) && w.edges[1].supersededBy == Some(1)
  {
    hide Update;
    var after := [Advance(0), Advance(0), Advance(1), Advance(1)];
    var a := Perform(EMPTY, Begin(n));
    var c := Perform(a, Begin(m));
    var w := Perform(Perform(Perform(Perform(c, Advance(0)), Advance(0)), Advance(1)), Advance(1));
    FourAdvances(c, 0, 0, 1, 1);
    assert AllClosed(w);
    PlayNothing(EMPTY);
    PlayNothing(a);
    OverlapDecides([], n, m, [], after);
    var acts := [Begin(n), Begin(m), Advance(0), Advance(0), Advance(1), Advance(1)];
    PlayUnfolds(EMPTY, acts);
    PlayUnfolds(a, acts[1..]);
    assert acts[1..][1..] == after;
  }

  lemma {:induction false} PlayUnfolds(w: World, acts: seq<Act>)
    requires acts != []
    ensures Play(w, acts) == Play(Perform(w, acts[0]), acts[1..])
  {
  }

  lemma {:induction false} PlayNothing(w: World)
    ensures Play(w, []) == w
  {
  }

  lemma {:induction false} FourAdvances(w: World, a: nat, b: nat, c: nat, d: nat)
    ensures Play(w, [Advance(a), Advance(b), Advance(c), Advance(d)])
      == Perform(Perform(Perform(Perform(w, Advance(a)), Advance(b)), Advance(c)), Advance(d))
  {
    hide Perform;
    var acts := [Advance(a), Advance(b), Advance(c), Advance(d)];
    assert acts[1..] == [Advance(b), Advance(c), Advance(d)];
    assert acts[2..] == [Advance(c), Advance(d)] == acts[1..][1..];
    assert acts[3..] == [Advance(d)] == acts[2..][1..];
    var x := Perform(w, Advance(a));
    var y := Perform(x, Advance(b));
    var z := Perform(y, Advance(c));
    PlayUnfolds(w, acts);
    PlayUnfolds(x, acts[1..]);
    PlayUnfolds(y, acts[2..]);
    PlayUnfolds(z, acts[3..]);
    assert acts[3..][1..] == [];
    PlayNothing(Perform(z, Advance(d)));
  }
}
