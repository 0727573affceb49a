/** Row-set differences between project states: `difference` and `apply_delta`
    (src/checkpoint.rs:249-332).  Rows are counted with multiplicity. */
module Delta {
  import opened Prelude
  import opened Events
  import opened Records

  datatype Table = Table(fields: seq<(string, string)>, rows: seq<Record>)

  datatype State = State(
    project: string,
    tables: map<string, Table>,
    sources: map<Sha, string>,
    audit: seq<Record>)

  datatype Delta = Delta(
    removed: map<string, seq<Record>>,
    added: map<string, seq<Record>>,
    sources: map<Sha, string>,
    removedSources: set<Sha>,
    audit: seq<Record>)

  // ---- rows -------------------------------------------------------------------------

  /** `rows` without its first occurrence of `row`. */
  function RemoveFirst(rows: seq<Record>, row: Record): seq<Record> {
    if rows == [] then []
    else if rows[0] == row then rows[1..]
    else [rows[0]] + RemoveFirst(rows[1..], row)
  }

  lemma {:induction false} RemoveFirstRemovesOne(rows: seq<Record>, row: Record)
    requires row in rows
    ensures multiset(RemoveFirst(rows, row)) == multiset(rows) - multiset{row}
  {
    MultisetTail(rows);
    if rows[0] != row {
      RemoveFirstRemovesOne(rows[1..], row);
    }
  }

  function RemoveRows(rows: seq<Record>, removed: seq<Record>): Result<seq<Record>>
    decreases removed
  {
    if removed == [] then Ok(rows)
    else if removed[0] !in rows then Err("delta removes absent record")
    else RemoveRows(RemoveFirst(rows, removed[0]), removed[1..])
  }

  /** Removal succeeds exactly when every copy asked for is there, and takes away just those. */
  lemma {:induction false} RemoveRowsSubtracts(rows: seq<Record>, removed: seq<Record>)
    ensures var r := RemoveRows(rows, removed);
            && (r.Ok? <==> multiset(removed) <= multiset(rows))
            && (r.Ok? ==> multiset(r.value) == multiset(rows) - multiset(removed))
    decreases removed
  {
    if removed != [] {
      MultisetTail(removed);
      if removed[0] in rows {
        RemoveFirstRemovesOne(rows, removed[0]);
        RemoveRowsSubtracts(RemoveFirst(rows, removed[0]), removed[1..]);
      } else {
        assert multiset(removed)[removed[0]] >= 1 && multiset(rows)[removed[0]] == 0;
      }
    }
  }

  function ApplyRows(rows: seq<Record>, removed: seq<Record>, added: seq<Record>): Result<seq<Record>> {
    match RemoveRows(rows, removed)
    case Ok(kept) => Ok(SortRows(kept + added))
    case Err(e) => Err(e)
  }

  /** Drops from `rows` one copy for every copy counted in `other`. */
  function Without(rows: seq<Record>, other: multiset<Record>): seq<Record> {
    if rows == [] then []
    else if rows[0] in other then Without(rows[1..], other - multiset{rows[0]})
    else [rows[0]] + Without(rows[1..], other)
  }

  lemma {:induction false} WithoutSubtracts(rows: seq<Record>, other: multiset<Record>)
    ensures multiset(Without(rows, other)) == multiset(rows) - other
    ensures forall r :: r in Without(rows, other) ==> r in rows
  {
    if rows != [] {
      MultisetTail(rows);
      if rows[0] in other {
        WithoutSubtracts(rows[1..], other - multiset{rows[0]});
      } else {
        WithoutSubtracts(rows[1..], other);
      }
    }
  }

  lemma {:induction false} WithoutSorted(rows: seq<Record>, other: multiset<Record>)
    requires Sorted(rows)
    ensures Sorted(Without(rows, other))
  {
    if rows != [] {
      SortedTail(rows);
      if rows[0] in other {
        WithoutSorted(rows[1..], other - multiset{rows[0]});
      } else {
        WithoutSorted(rows[1..], other);
        WithoutSubtracts(rows[1..], other);
        ConsSorted(rows[0], Without(rows[1..], other));
      }
    }
  }

  /** The rows of `rows` in excess of those of `other`, in canonical order. */
  function Surplus(rows: seq<Record>, other: seq<Record>): seq<Record> {
    Without(SortRows(rows), multiset(other))
  }

  lemma SurplusIsExcess(rows: seq<Record>, other: seq<Record>)
    ensures Sorted(Surplus(rows, other))
    ensures multiset(Surplus(rows, other)) == multiset(rows) - multiset(other)
  {
    SortRowsSorts(rows);
    WithoutSubtracts(SortRows(rows), multiset(other));
    WithoutSorted(SortRows(rows), multiset(other));
  }

  // ---- states -----------------------------------------------------------------------

  predicate SameSchema(base: State, next: State) {
    base.project == next.project && base.tables.Keys == next.tables.Keys
  }

  predicate SameFields(base: State, next: State)
    requires SameSchema(base, next)
  {
    forall name | name in next.tables :: next.tables[name].fields == base.tables[name].fields
  }

  function SurplusTables(tables: map<string, Table>, other: map<string, Table>): map<string, seq<Record>>
    requires tables.Keys == other.Keys
  {
    map name | name in tables :: Surplus(tables[name].rows, other[name].rows)
  }

  function Difference(base: State, next: State): Result<Delta> {
    if !SameSchema(base, next) then Err("checkpoint schemas differ")
    else if !SameFields(base, next) then Err("checkpoint fields differ")
    else Ok(Delta(
      SurplusTables(base.tables, next.tables),
      SurplusTables(next.tables, base.tables),
      next.sources - base.sources.Keys,
      base.sources.Keys - next.sources.Keys,
      next.audit))
  }

  predicate CoversTables(tables: map<string, Table>, delta: Delta) {
    tables.Keys == delta.added.Keys == delta.removed.Keys
  }

  predicate RowsApply(tables: map<string, Table>, delta: Delta)
    requires CoversTables(tables, delta)
  {
    forall name | name in tables :: ApplyRows(tables[name].rows, delta.removed[name], delta.added[name]).Ok?
  }

  function PatchedTables(tables: map<string, Table>, delta: Delta): map<string, Table>
    requires CoversTables(tables, delta) && RowsApply(tables, delta)
  {
    map name | name in tables :: Table(tables[name].fields,
      ApplyRows(tables[name].rows, delta.removed[name], delta.added[name]).value)
  }

  function PatchedSources(sources: map<Sha, string>, delta: Delta): map<Sha, string> {
    (sources - delta.removedSources) + delta.sources
  }

  function ApplyDelta(base: State, delta: Delta): Result<State> {
    if !CoversTables(base.tables, delta) then Err("delta table set mismatch")
    else if !RowsApply(base.tables, delta) then Err("delta removes absent record")
    else if !(delta.removedSources <= base.sources.Keys) then Err("delta removes absent source")
    else Ok(State(base.project, PatchedTables(base.tables, delta), PatchedSources(base.sources, delta), delta.audit))
  }

  /** What capture guarantees of every state: rows in canonical order. */
  ghost predicate Canonical(s: State) {
    forall name :: name in s.tables ==> Sorted(s.tables[name].rows)
  }

  ghost predicate SourcesAgree(s: State, t: State) {
    forall h :: h in s.sources && h in t.sources ==> s.sources[h] == t.sources[h]
  }

  /** Any delta, hand-written ones included: it applies exactly when it lists the tables of the state, takes away only rows
      and sources that are there, and then each table has its rows less the removed and with the added ones, in order,
      and the sources are the kept ones and the delta's own. */
  lemma AppliesIff(base: State, delta: Delta)
    ensures ApplyDelta(base, delta).Ok? <==>
      && delta.removed.Keys == base.tables.Keys && delta.added.Keys == base.tables.Keys
      && (forall name :: name in base.tables ==> multiset(delta.removed[name]) <= multiset(base.tables[name].rows))
      && (forall h :: h in delta.removedSources ==> h in base.sources)
    ensures ApplyDelta(base, delta).Ok? ==> forall name :: name in base.tables ==>
      var q := ApplyDelta(base, delta).value;
      && name in q.tables && q.tables[name].fields == base.tables[name].fields && Sorted(q.tables[name].rows)
      && multiset(q.tables[name].rows)
         == multiset(base.tables[name].rows) - multiset(delta.removed[name]) + multiset(delta.added[name])
    ensures ApplyDelta(base, delta).Ok? ==>
      var q := ApplyDelta(base, delta).value;
      && q.project == base.project && q.audit == delta.audit && q.tables.Keys == base.tables.Keys
      && forall h :: (h in q.sources <==> h in delta.sources || (h in base.sources && h !in delta.removedSources))
                  && (h in q.sources ==> q.sources[h] == if h in delta.sources then delta.sources[h] else base.sources[h])
  {
    hide RemoveRows, SortRows, Sorted;
    if CoversTables(base.tables, delta) {
      forall name | name in base.tables
        ensures ApplyRows(base.tables[name].rows, delta.removed[name], delta.added[name]).Ok?
                <==> multiset(delta.removed[name]) <= multiset(base.tables[name].rows)
        ensures var r := ApplyRows(base.tables[name].rows, delta.removed[name], delta.added[name]);
                var rows := multiset(base.tables[name].rows) - multiset(delta.removed[name]) + multiset(delta.added[name]);
                r.Ok? ==> Sorted(r.value) && multiset(r.value) == rows
      {
        RowsApplyIff(base.tables[name].rows, delta.removed[name], delta.added[name]);
      }
    }
  }

  lemma RowsApplyIff(rows: seq<Record>, removed: seq<Record>, added: seq<Record>)
    ensures ApplyRows(rows, removed, added).Ok? <==> multiset(removed) <= multiset(rows)
    ensures var r := ApplyRows(rows, removed, added);
            r.Ok? ==> Sorted(r.value) && multiset(r.value) == multiset(rows) - multiset(removed) + multiset(added)
  {
    RemoveRowsSubtracts(rows, removed);
    if RemoveRows(rows, removed).Ok? {
      SortRowsSorts(RemoveRows(rows, removed).value + added);
    }
  }

  // ---- the diff/patch laws ------------------------------------------------------------

  lemma {:induction false} SurplusRestores(base: seq<Record>, next: seq<Record>)
    ensures var r := ApplyRows(base, Surplus(base, next), Surplus(next, base));
            r.Ok? && r.value == SortRows(next)
  {
    var gone, incoming := Surplus(base, next), Surplus(next, base);
    SurplusIsExcess(base, next);
    SurplusIsExcess(next, base);
    RemoveRowsSubtracts(base, gone);
    var kept := RemoveRows(base, gone).value;
    assert multiset(kept + incoming) == multiset(next);
    SortRowsSorts(kept + incoming);
    SortRowsSorts(next);
    SortedUnique(SortRows(kept + incoming), SortRows(next));
  }

  /** No row is both removed and added, and the two lists account for every change of multiplicity. */
  lemma DifferenceIsMinimal(base: State, next: State, name: string, row: Record)
    requires Difference(base, next).Ok? && name in next.tables
    ensures var d, before, after := Difference(base, next).value, multiset(base.tables[name].rows), multiset(next.tables[name].rows);
            && !(row in d.removed[name] && row in d.added[name])
            && before[row] + multiset(d.added[name])[row] == after[row] + multiset(d.removed[name])[row]
  {
    var d := Difference(base, next).value;
    SurplusIsExcess(base.tables[name].rows, next.tables[name].rows);
    SurplusIsExcess(next.tables[name].rows, base.tables[name].rows);
    assert row in d.removed[name] <==> row in multiset(d.removed[name]);
    assert row in d.added[name] <==> row in multiset(d.added[name]);
  }

  /** `next` with its tables sorted: what a delta can reproduce. */
  function SortedTables(next: State): map<string, Table> {
    map name | name in next.tables :: Table(next.tables[name].fields, SortRows(next.tables[name].rows))
  }

  lemma DifferenceTablesApply(base: State, next: State, d: Delta)
    requires Difference(base, next) == Ok(d) && CoversTables(base.tables, d)
    ensures RowsApply(base.tables, d) && PatchedTables(base.tables, d) == SortedTables(next)
  {
    hide Surplus, ApplyRows, SortRows;
    forall name | name in next.tables
      ensures ApplyRows(base.tables[name].rows, d.removed[name], d.added[name]) == Ok(SortRows(next.tables[name].rows))
    {
      SurplusRestores(base.tables[name].rows, next.tables[name].rows);
    }
  }

  lemma DifferenceShape(base: State, next: State, d: Delta)
    requires Difference(base, next) == Ok(d)
    ensures CoversTables(base.tables, d) && d.removedSources <= base.sources.Keys
    ensures base.project == next.project && d.audit == next.audit
  {
  }

  /** Every difference applies to its base; the result is `next` up to row order and shared sources. */
  lemma DifferenceApplies(base: State, next: State, d: Delta)
    requires Difference(base, next) == Ok(d)
    ensures ApplyDelta(base, d) == Ok(State(next.project, SortedTables(next), PatchedSources(base.sources, d), next.audit))
  {
    DifferenceShape(base, next, d);
    DifferenceTablesApply(base, next, d);
    var expected := State(next.project, SortedTables(next), PatchedSources(base.sources, d), next.audit);
    assert ApplyDelta(base, d) == Ok(expected) by {
      assert State(base.project, PatchedTables(base.tables, d), PatchedSources(base.sources, d), d.audit) == expected;
    }
  }

  lemma PatchedSourcesRoundTrip(base: State, next: State, d: Delta)
    requires Difference(base, next) == Ok(d)
    ensures PatchedSources(base.sources, d) == next.sources <==> SourcesAgree(base, next)
  {
    var sources := PatchedSources(base.sources, d);
    assert sources.Keys == next.sources.Keys;
    assert forall h :: h in next.sources ==> sources[h] == (if h in base.sources then base.sources[h] else next.sources[h]);
    if SourcesAgree(base, next) {
      assert forall h :: h in next.sources ==> sources[h] == next.sources[h];
    }
  }

  lemma SortedTablesIdentity(next: State)
    ensures SortedTables(next) == next.tables <==> Canonical(next)
  {
    forall name | name in next.tables
      ensures SortRows(next.tables[name].rows) == next.tables[name].rows <==> Sorted(next.tables[name].rows)
    {
      SortRowsSorts(next.tables[name].rows);
      if Sorted(next.tables[name].rows) {
        SortedUnique(SortRows(next.tables[name].rows), next.tables[name].rows);
      }
    }
    if SortedTables(next) == next.tables {
      forall name | name in next.tables ensures Sorted(next.tables[name].rows) {
        assert SortedTables(next)[name] == next.tables[name];
      }
    }
  }

  /** The round trip returns `next` exactly when `next` is canonical and agrees with `base` on shared sources. */
  lemma RoundTrip(base: State, next: State, d: Delta)
    requires Difference(base, next) == Ok(d)
    ensures ApplyDelta(base, d) == Ok(next) <==> Canonical(next) && SourcesAgree(base, next)
  {
    hide Difference, ApplyDelta, Canonical, SourcesAgree;
    DifferenceApplies(base, next, d);
    SortedTablesIdentity(next);
    PatchedSourcesRoundTrip(base, next, d);
  }

  // ---- the loops of `difference` ------------------------------------------------------

  function CountOf(counts: map<Record, nat>, row: Record): nat {
    if row in counts then counts[row] else 0
  }

  ghost predicate Counts(counts: map<Record, nat>, rows: seq<Record>) {
    (forall r :: r in counts <==> r in rows) && (forall r :: CountOf(counts, r) == multiset(rows)[r])
  }

  method CountRows(rows: seq<Record>) returns (counts: map<Record, nat>)
    ensures Counts(counts, rows)
  {
    counts := map[];
    for i := 0 to |rows|
      invariant Counts(counts, rows[..i])
    {
      TakeSnoc(rows, i);
      counts := counts[rows[i] := CountOf(counts, rows[i]) + 1];
    }
    assert rows[..|rows|] == rows;
  }

  method KeysInOrder(counts: map<Record, nat>) returns (keys: seq<Record>)
    ensures Sorted(keys) && multiset(keys) == multiset(counts.Keys)
  {
    keys := [];
    var left := counts.Keys;
    while left != {}
      invariant left <= counts.Keys
      invariant Sorted(keys) && multiset(keys) == multiset(counts.Keys - left)
      decreases left
    {
      var k :| k in left;
      assert counts.Keys - (left - {k}) == (counts.Keys - left) + {k};
      InsertRowSorts(k, keys);
      InsertRowCounts(k, keys);
      keys := InsertRow(k, keys);
      left := left - {k};
    }
    assert counts.Keys - left == counts.Keys;
  }

  lemma SnocSorted(out: seq<Record>, row: Record)
    requires Sorted(out) && forall r :: r in out ==> RowLeq(r, row)
    ensures Sorted(out + [row])
  {
  }

  /** `n` copies of `row` after a sorted list that does not exceed it. */
  method Repeat(start: seq<Record>, row: Record, n: nat) returns (out: seq<Record>)
    requires Sorted(start) && forall r :: r in start ==> RowLeq(r, row)
    ensures Sorted(out) && multiset(out) == multiset(start)[row := multiset(start)[row] + n]
    ensures forall r :: r in out ==> r in start || r == row
  {
    out := start;
    LeqTotal(Code(row), Code(row));
    for c := 0 to n
      invariant Sorted(out) && multiset(out) == multiset(start)[row := multiset(start)[row] + c]
      invariant forall r :: r in out ==> r in start || r == row
    {
      SnocSorted(out, row);
      out := out + [row];
    }
  }

  function SurplusCount(mine: map<Record, nat>, other: map<Record, nat>, row: Record): nat {
    if CountOf(mine, row) > CountOf(other, row) then CountOf(mine, row) - CountOf(other, row) else 0
  }

  lemma KeysDistinct(keys: seq<Record>, names: set<Record>)
    requires multiset(keys) == multiset(names)
    ensures Distinct(keys) && forall r :: r in keys <==> r in names
  {
    forall r ensures r in keys <==> r in names {
      assert r in keys <==> r in multiset(keys);
    }
    forall i, j | 0 <= i < j < |keys| ensures keys[i] != keys[j] {
      var row := keys[j];
      assert keys == keys[..j] + keys[j..];
      assert multiset(keys)[row] == multiset(keys[..j])[row] + multiset(keys[j..])[row];
      assert row == keys[j..][0];
      assert row !in multiset(keys[..j]);
      assert keys[i] in keys[..j];
    }
  }

  /** Emits every row as often as `mine` counts it beyond `other`, in key order. */
  method Excess(mine: map<Record, nat>, other: map<Record, nat>) returns (out: seq<Record>)
    ensures Sorted(out)
    ensures forall r :: multiset(out)[r] == SurplusCount(mine, other, r)
  {
    var keys := KeysInOrder(mine);
    KeysDistinct(keys, mine.Keys);
    out := [];
    for i := 0 to |keys|
      invariant Sorted(out)
      invariant forall r :: r in out ==> r in keys[..i]
      invariant forall r :: multiset(out)[r] == (if r in keys[..i] then SurplusCount(mine, other, r) else 0)
    {
      assert keys[i] !in keys[..i] && keys[i] !in out;
      assert forall r :: r in keys[..i] ==> RowLeq(r, keys[i]);
      out := Repeat(out, keys[i], SurplusCount(mine, other, keys[i]));
      TakeSnoc(keys, i);
    }
    assert keys[..|keys|] == keys;
  }

  lemma ExcessIsSurplus(a: seq<Record>, b: seq<Record>, mine: map<Record, nat>, other: map<Record, nat>, out: seq<Record>)
    requires Counts(mine, a) && Counts(other, b) && Sorted(out)
    requires forall r :: multiset(out)[r] == SurplusCount(mine, other, r)
    ensures out == Surplus(a, b)
  {
    SurplusIsExcess(a, b);
    assert multiset(out) == multiset(a) - multiset(b) by {
      assert forall r :: multiset(out)[r] == (multiset(a) - multiset(b))[r];
    }
    SortedUnique(out, Surplus(a, b));
  }

  method TableDifference(base: seq<Record>, next: seq<Record>) returns (deletes: seq<Record>, inserts: seq<Record>)
    ensures deletes == Surplus(base, next) && inserts == Surplus(next, base)
  {
    var outgoing := CountRows(base);
    var incoming := CountRows(next);
    deletes := Excess(outgoing, incoming);
    inserts := Excess(incoming, outgoing);
    ExcessIsSurplus(base, next, outgoing, incoming, deletes);
    ExcessIsSurplus(next, base, incoming, outgoing, inserts);
  }

  /** Tables done so far by the loop of `difference`. */
  ghost predicate SurplusSoFar(base: map<string, Table>, next: map<string, Table>, names: set<string>, out: map<string, seq<Record>>)
    requires names <= next.Keys == base.Keys
  {
    out.Keys == next.Keys - names && forall n :: n in out ==> out[n] == Surplus(base[n].rows, next[n].rows)
  }

  /** The loop over the tables of `difference`, which stops at the first table whose fields differ. */
  method DifferenceTables(base: map<string, Table>, next: map<string, Table>)
    returns (ok: bool, removed: map<string, seq<Record>>, added: map<string, seq<Record>>)
    requires base.Keys == next.Keys
    ensures ok <==> forall name :: name in next ==> next[name].fields == base[name].fields
    ensures ok ==> removed == SurplusTables(base, next) && added == SurplusTables(next, base)
  {
    hide Surplus;
    removed, added := map[], map[];
    var names := next.Keys;
    while names != {}
      invariant names <= next.Keys
      invariant forall n :: n in next && n !in names ==> next[n].fields == base[n].fields
      invariant SurplusSoFar(base, next, names, removed) && SurplusSoFar(next, base, names, added)
      decreases names
    {
      var name :| name in names;
      if next[name].fields != base[name].fields {
        return false, removed, added;
      }
      var deletes, inserts := TableDifference(base[name].rows, next[name].rows);
      removed, added := removed[name := deletes], added[name := inserts];
      names := names - {name};
    }
    ok := true;
  }

  method ComputeDifference(base: State, next: State) returns (r: Result<Delta>)
    ensures r == Difference(base, next)
  {
    if !SameSchema(base, next) {
      return Err("checkpoint schemas differ");
    }
    var ok, removed, added := DifferenceTables(base.tables, next.tables);
    if !ok {
      return Err("checkpoint fields differ");
    }
    return Ok(Delta(removed, added, next.sources - base.sources.Keys, base.sources.Keys - next.sources.Keys, next.audit));
  }

  // ---- the loops of `apply_delta` -----------------------------------------------------

  method ApplyTable(start: seq<Record>, removed: seq<Record>, added: seq<Record>) returns (r: Result<seq<Record>>)
    ensures r == ApplyRows(start, removed, added)
  {
    var rows := start;
    for i := 0 to |removed|
      invariant RemoveRows(start, removed) == RemoveRows(rows, removed[i..])
    {
      if removed[i] !in rows {
        return Err("delta removes absent record");
      }
      rows := RemoveFirst(rows, removed[i]);
      assert removed[i..][1..] == removed[i + 1..];
    }
    ghost var kept := rows;
    for i := 0 to |added|
      invariant rows == kept + added[..i]
    {
      TakeSnoc(added, i);
      rows := rows + [added[i]];
    }
    assert added[..|added|] == added;
    return Ok(SortRows(rows));
  }

  method ApplyInPlace(start: State, delta: Delta) returns (r: Result<State>)
    ensures r == ApplyDelta(start, delta)
  {
    hide ApplyRows;
    if !CoversTables(start.tables, delta) {
      return Err("delta table set mismatch");
    }
    var base := start;
    var names := start.tables.Keys;
    while names != {}
      invariant names <= start.tables.Keys == base.tables.Keys
      invariant base.project == start.project && base.sources == start.sources
      invariant forall n :: n in names ==> base.tables[n] == start.tables[n]
      invariant forall n :: n in start.tables && n !in names ==>
        && ApplyRows(start.tables[n].rows, delta.removed[n], delta.added[n]).Ok?
        && base.tables[n] == Table(start.tables[n].fields, ApplyRows(start.tables[n].rows, delta.removed[n], delta.added[n]).value)
      decreases names
    {
      var name :| name in names;
      var rows := ApplyTable(base.tables[name].rows, delta.removed[name], delta.added[name]);
      if rows.Err? {
        assert !RowsApply(start.tables, delta);
        return Err("delta removes absent record");
      }
      base := base.(tables := base.tables[name := base.tables[name].(rows := rows.value)]);
      names := names - {name};
    }
    if !(delta.removedSources <= base.sources.Keys) {
      return Err("delta removes absent source");
    }
    base := base.(sources := PatchedSources(base.sources, delta), audit := delta.audit);
    assert base.tables == PatchedTables(start.tables, delta);
    return Ok(base);
  }
}
