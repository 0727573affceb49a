/** Database rows as the checkpoint engine sees them (src/checkpoint.rs).

    A record is a finite map from column names to scalar values.  The source keys its
    count maps and sorts its tables by the record's canonical JSON text; here that text
    is `Code`, a length-prefixed encoding which is proved injective. */
module Records {
  import opened Prelude
  import opened Events

  /** A column value.  `Digest` is the text of a source's hash; `Data` and `Ref` are the texts of a serialised event
      and of its hash, told apart from other text by what they stand for. */
  datatype Value = Null | Num(n: int) | Str(s: string) | Digest(sha: Sha) | Data(event: Event) | Ref(id: EventId)

  type Record = map<string, Value>

  // ---- lexicographic order on codes -------------------------------------------------

  predicate Leq(a: seq<int>, b: seq<int>) {
    a == [] || (b != [] && (a[0] < b[0] || (a[0] == b[0] && Leq(a[1..], b[1..]))))
  }

  lemma {:induction false} LeqTotal(a: seq<int>, b: seq<int>)
    ensures Leq(a, b) || Leq(b, a)
  {
    if a != [] && b != [] && a[0] == b[0] {
      LeqTotal(a[1..], b[1..]);
    }
  }

  lemma {:induction false} LeqAntisymmetric(a: seq<int>, b: seq<int>)
    requires Leq(a, b) && Leq(b, a)
    ensures a == b
  {
    if a != [] && b != [] {
      LeqAntisymmetric(a[1..], b[1..]);
      assert a == [a[0]] + a[1..] && b == [b[0]] + b[1..];
    }
  }

  lemma {:induction false} LeqTransitive(a: seq<int>, b: seq<int>, c: seq<int>)
    requires Leq(a, b) && Leq(b, c)
    ensures Leq(a, c)
  {
    if a != [] && a[0] == b[0] == c[0] {
      LeqTransitive(a[1..], b[1..], c[1..]);
    }
  }

  // ---- the canonical code of a record -----------------------------------------------

  function Letters(s: string): (code: seq<int>)
    ensures |code| == |s| && forall i :: 0 <= i < |s| ==> code[i] == s[i] as int
  {
    seq(|s|, i requires 0 <= i < |s| => s[i] as int)
  }

  function TextCode(s: string): seq<int> {
    [|s|] + Letters(s)
  }

  // Every code is written in front of the rest of the text, `x`.

  function OptionalTextCode(s: Option<string>, x: seq<int>): seq<int> {
    match s case None => [0] + x case Some(v) => [1] + (TextCode(v) + x)
  }

  function OptionalIntCode(n: Option<int>, x: seq<int>): seq<int> {
    match n case None => [0] + x case Some(v) => [1] + ([v] + x)
  }

  function ScopeCode(s: Scope, x: seq<int>): seq<int> {
    TextCode(s.namespace) + (TextCode(s.project) + (TextCode(s.subject) + (TextCode(s.predicate_) + x)))
  }

  function OptionalIdCode(id: Option<EventId>, x: seq<int>): seq<int> {
    match id case None => [0] + x case Some(i) => [1] + EventCode(i.event, x)
  }

  function EventCode(e: Event, x: seq<int>): seq<int>
    decreases e, 1
  {
    ScopeCode(e.scope, [e.version] + ([e.memoryId] + (TextCode(e.evidence.of) + OptionalTextCode(e.value, TermCode(e, x)))))
  }

  function TermCode(e: Event, x: seq<int>): seq<int>
    decreases e, 0
  {
    [e.validFrom] + OptionalIntCode(e.validUntil,
      OptionalIdCode(e.supersedes, [e.recordedAt] + (TextCode(e.actor) + OptionalIdCode(e.previous, x))))
  }

  function ValueCode(v: Value, x: seq<int>): seq<int> {
    match v
    case Null => [0] + x
    case Num(n) => [1] + ([n] + x)
    case Str(s) => [2] + (TextCode(s) + x)
    case Digest(sha) => [3] + (TextCode(sha.of) + x)
    case Data(event) => [4] + EventCode(event, x)
    case Ref(id) => [5] + EventCode(id.event, x)
  }

  lemma LettersInjective(s: string, t: string)
    requires Letters(s) == Letters(t)
    ensures s == t
  {
    forall i | 0 <= i < |s| ensures s[i] == t[i] {
      assert s[i] as int == t[i] as int;
    }
  }

  lemma SplitPrefix(p: seq<int>, q: seq<int>, x: seq<int>, y: seq<int>)
    requires p + x == q + y && |p| == |q|
    ensures p == q && x == y
  {
    assert p == (p + x)[..|p|] && q == (q + y)[..|q|];
    assert x == (p + x)[|p|..] && y == (q + y)[|q|..];
  }

  lemma TextCodePrefixFree(s: string, t: string, x: seq<int>, y: seq<int>)
    requires TextCode(s) + x == TextCode(t) + y
    ensures s == t && x == y
  {
    assert |s| == (TextCode(s) + x)[0] == (TextCode(t) + y)[0] == |t|;
    SplitPrefix(TextCode(s), TextCode(t), x, y);
    assert Letters(s) == TextCode(s)[1..] && Letters(t) == TextCode(t)[1..];
    LettersInjective(s, t);
  }

  lemma HeadPrefixFree(a: int, b: int, x: seq<int>, y: seq<int>)
    requires [a] + x == [b] + y
    ensures a == b && x == y
  {
    SplitPrefix([a], [b], x, y);
  }

  lemma OptionalTextPrefixFree(s: Option<string>, t: Option<string>, x: seq<int>, y: seq<int>)
    requires OptionalTextCode(s, x) == OptionalTextCode(t, y)
    ensures s == t && x == y
  {
    HeadPrefixFree(OptionalTextCode(s, x)[0], OptionalTextCode(t, y)[0], OptionalTextCode(s, x)[1..], OptionalTextCode(t, y)[1..]);
    if s.Some? {
      HeadPrefixFree(1, 1, TextCode(s.value) + x, TextCode(t.value) + y);
      TextCodePrefixFree(s.value, t.value, x, y);
    } else {
      HeadPrefixFree(0, 0, x, y);
    }
  }

  lemma OptionalIntPrefixFree(m: Option<int>, n: Option<int>, x: seq<int>, y: seq<int>)
    requires OptionalIntCode(m, x) == OptionalIntCode(n, y)
    ensures m == n && x == y
  {
    assert OptionalIntCode(m, x)[0] == OptionalIntCode(n, y)[0];
    if m.Some? {
      HeadPrefixFree(1, 1, [m.value] + x, [n.value] + y);
      HeadPrefixFree(m.value, n.value, x, y);
    } else {
      HeadPrefixFree(0, 0, x, y);
    }
  }

  lemma ScopePrefixFree(s: Scope, t: Scope, x: seq<int>, y: seq<int>)
    requires ScopeCode(s, x) == ScopeCode(t, y)
    ensures s == t && x == y
  {
    var s4, t4 := TextCode(s.predicate_) + x, TextCode(t.predicate_) + y;
    var s3, t3 := TextCode(s.subject) + s4, TextCode(t.subject) + t4;
    TextCodePrefixFree(s.namespace, t.namespace, TextCode(s.project) + s3, TextCode(t.project) + t3);
    TextCodePrefixFree(s.project, t.project, s3, t3);
    TextCodePrefixFree(s.subject, t.subject, s4, t4);
    TextCodePrefixFree(s.predicate_, t.predicate_, x, y);
  }

  lemma {:induction false} OptionalIdPrefixFree(i: Option<EventId>, j: Option<EventId>, x: seq<int>, y: seq<int>)
    requires OptionalIdCode(i, x) == OptionalIdCode(j, y)
    ensures i == j && x == y
    decreases i
  {
    hide EventCode;
    assert OptionalIdCode(i, x)[0] == OptionalIdCode(j, y)[0];
    if i.Some? {
      HeadPrefixFree(1, 1, EventCode(i.value.event, x), EventCode(j.value.event, y));
      EventPrefixFree(i.value.event, j.value.event, x, y);
    } else {
      HeadPrefixFree(0, 0, x, y);
    }
  }

  lemma {:induction false} TermPrefixFree(e: Event, f: Event, x: seq<int>, y: seq<int>)
    requires TermCode(e, x) == TermCode(f, y)
    ensures x == y && e.validFrom == f.validFrom && e.validUntil == f.validUntil && e.supersedes == f.supersedes
    ensures e.recordedAt == f.recordedAt && e.actor == f.actor && e.previous == f.previous
    decreases e, 0
  {
    hide OptionalIdCode, OptionalIntCode, TextCode;
    var e3, f3 := OptionalIdCode(e.previous, x), OptionalIdCode(f.previous, y);
    var e2, f2 := [e.recordedAt] + (TextCode(e.actor) + e3), [f.recordedAt] + (TextCode(f.actor) + f3);
    var e1, f1 := OptionalIdCode(e.supersedes, e2), OptionalIdCode(f.supersedes, f2);
    HeadPrefixFree(e.validFrom, f.validFrom, OptionalIntCode(e.validUntil, e1), OptionalIntCode(f.validUntil, f1));
    OptionalIntPrefixFree(e.validUntil, f.validUntil, e1, f1);
    OptionalIdPrefixFree(e.supersedes, f.supersedes, e2, f2);
    HeadPrefixFree(e.recordedAt, f.recordedAt, TextCode(e.actor) + e3, TextCode(f.actor) + f3);
    TextCodePrefixFree(e.actor, f.actor, e3, f3);
    OptionalIdPrefixFree(e.previous, f.previous, x, y);
  }

  /** Serialised events are told apart, down the whole history they link to. */
  lemma {:induction false} EventPrefixFree(e: Event, f: Event, x: seq<int>, y: seq<int>)
    requires EventCode(e, x) == EventCode(f, y)
    ensures e == f && x == y
    decreases e, 1
  {
    hide TermCode, OptionalTextCode, TextCode, ScopeCode;
    var e3, f3 := OptionalTextCode(e.value, TermCode(e, x)), OptionalTextCode(f.value, TermCode(f, y));
    var e2, f2 := TextCode(e.evidence.of) + e3, TextCode(f.evidence.of) + f3;
    ScopePrefixFree(e.scope, f.scope, [e.version] + ([e.memoryId] + e2), [f.version] + ([f.memoryId] + f2));
    HeadPrefixFree(e.version, f.version, [e.memoryId] + e2, [f.memoryId] + f2);
    HeadPrefixFree(e.memoryId, f.memoryId, e2, f2);
    TextCodePrefixFree(e.evidence.of, f.evidence.of, e3, f3);
    OptionalTextPrefixFree(e.value, f.value, TermCode(e, x), TermCode(f, y));
    TermPrefixFree(e, f, x, y);
  }

  lemma ValueCodePrefixFree(v: Value, w: Value, x: seq<int>, y: seq<int>)
    requires ValueCode(v, x) == ValueCode(w, y)
    ensures v == w && x == y
  {
    hide EventCode, TextCode;
    assert ValueCode(v, x)[0] == ValueCode(w, y)[0];
    match v
    case Null => HeadPrefixFree(0, 0, x, y);
    case Num(n) =>
      HeadPrefixFree(1, 1, [n] + x, [w.n] + y);
      HeadPrefixFree(n, w.n, x, y);
    case Str(s) =>
      HeadPrefixFree(2, 2, TextCode(s) + x, TextCode(w.s) + y);
      TextCodePrefixFree(s, w.s, x, y);
    case Digest(sha) =>
      HeadPrefixFree(3, 3, TextCode(sha.of) + x, TextCode(w.sha.of) + y);
      TextCodePrefixFree(sha.of, w.sha.of, x, y);
    case Data(event) =>
      HeadPrefixFree(4, 4, EventCode(event, x), EventCode(w.event, y));
      EventPrefixFree(event, w.event, x, y);
    case Ref(id) =>
      HeadPrefixFree(5, 5, EventCode(id.event, x), EventCode(w.id.event, y));
      EventPrefixFree(id.event, w.id.event, x, y);
  }

  predicate IsLeastName(keys: set<string>, k: string) {
    k in keys && forall j :: j in keys ==> Leq(Letters(k), Letters(j))
  }

  lemma {:induction false} LeastNameExists(keys: set<string>)
    requires keys != {}
    ensures exists k :: IsLeastName(keys, k)
  {
    var k :| k in keys;
    LeqTotal(Letters(k), Letters(k));
    if keys - {k} == {} {
      assert keys == {k};
      assert IsLeastName(keys, k);
    } else {
      LeastNameExists(keys - {k});
      var m :| IsLeastName(keys - {k}, m);
      LeqTotal(Letters(k), Letters(m));
      var least := if Leq(Letters(k), Letters(m)) then k else m;
      forall j | j in keys ensures Leq(Letters(least), Letters(j)) {
        if j != k && least == k {
          LeqTransitive(Letters(k), Letters(m), Letters(j));
        }
      }
      assert IsLeastName(keys, least);
    }
  }

  /** The first column in iteration order of an ordered map. */
  function LeastName(keys: set<string>): (k: string)
    requires keys != {}
    ensures IsLeastName(keys, k)
  {
    LeastNameExists(keys);
    assert forall k, l :: IsLeastName(keys, k) && IsLeastName(keys, l) ==> k == l by {
      forall k, l | IsLeastName(keys, k) && IsLeastName(keys, l) ensures k == l {
        LeqAntisymmetric(Letters(k), Letters(l));
        LettersInjective(k, l);
      }
    }
    var k :| IsLeastName(keys, k);
    k
  }

  function Code(r: Record): seq<int>
    decreases r.Keys
  {
    if r == map[] then [] else
    var k := LeastName(r.Keys);
    TextCode(k) + ValueCode(r[k], Code(r - {k}))
  }

  /** Two records with the same canonical text are the same record. */
  lemma {:induction false} CodeInjective(r: Record, q: Record)
    requires Code(r) == Code(q)
    ensures r == q
    decreases r.Keys
  {
    hide ValueCode;
    if r != map[] && q != map[] {
      var k, l := LeastName(r.Keys), LeastName(q.Keys);
      TextCodePrefixFree(k, l, ValueCode(r[k], Code(r - {k})), ValueCode(q[l], Code(q - {l})));
      ValueCodePrefixFree(r[k], q[k], Code(r - {k}), Code(q - {k}));
      CodeInjective(r - {k}, q - {k});
      assert r == (r - {k})[k := r[k]] && q == (q - {k})[k := q[k]];
    }
  }

  // ---- sorted tables ------------------------------------------------------------------

  predicate RowLeq(r: Record, q: Record) {
    Leq(Code(r), Code(q))
  }

  ghost predicate Sorted(rows: seq<Record>) {
    forall i, j :: 0 <= i < j < |rows| ==> RowLeq(rows[i], rows[j])
  }

  function InsertRow(row: Record, rows: seq<Record>): seq<Record> {
    if rows == [] then [row]
    else if RowLeq(row, rows[0]) then [row] + rows
    else [rows[0]] + InsertRow(row, rows[1..])
  }

  /** The library sort the source calls after each capture and each applied delta. */
  function SortRows(rows: seq<Record>): seq<Record> {
    if rows == [] then [] else InsertRow(rows[0], SortRows(rows[1..]))
  }

  lemma ConsSorted(row: Record, rows: seq<Record>)
    requires Sorted(rows) && forall r :: r in rows ==> RowLeq(row, r)
    ensures Sorted([row] + rows)
  {
  }

  lemma SortedTail(a: seq<Record>)
    requires a != [] && Sorted(a)
    ensures Sorted(a[1..])
  {
  }

  lemma {:induction false} InsertRowCounts(row: Record, rows: seq<Record>)
    ensures multiset(InsertRow(row, rows)) == multiset(rows) + multiset{row}
    ensures forall r :: r in InsertRow(row, rows) ==> r == row || r in rows
  {
    hide RowLeq;
    if rows != [] {
      assert rows == [rows[0]] + rows[1..];
      if !RowLeq(row, rows[0]) {
        InsertRowCounts(row, rows[1..]);
      }
    }
  }

  lemma {:induction false} InsertRowSorts(row: Record, rows: seq<Record>)
    requires Sorted(rows)
    ensures Sorted(InsertRow(row, rows))
  {
    if rows != [] {
      if RowLeq(row, rows[0]) {
        forall r | r in rows ensures RowLeq(row, r) {
          if r != rows[0] {
            LeqTransitive(Code(row), Code(rows[0]), Code(r));
          }
        }
        ConsSorted(row, rows);
      } else {
        SortedTail(rows);
        InsertRowSorts(row, rows[1..]);
        InsertRowCounts(row, rows[1..]);
        LeqTotal(Code(row), Code(rows[0]));
        ConsSorted(rows[0], InsertRow(row, rows[1..]));
      }
    }
  }

  lemma {:induction false} SortRowsSorts(rows: seq<Record>)
    ensures Sorted(SortRows(rows)) && multiset(SortRows(rows)) == multiset(rows)
  {
    if rows != [] {
      assert rows == [rows[0]] + rows[1..];
      SortRowsSorts(rows[1..]);
      InsertRowSorts(rows[0], SortRows(rows[1..]));
      InsertRowCounts(rows[0], SortRows(rows[1..]));
    }
  }

  lemma SortedHeadIsLeast(a: seq<Record>, r: Record)
    requires Sorted(a) && r in a
    ensures RowLeq(a[0], r)
  {
    LeqTotal(Code(r), Code(r));
  }

  lemma SortedSameHead(a: seq<Record>, b: seq<Record>)
    requires a != [] && b != [] && Sorted(a) && Sorted(b) && b[0] in a && a[0] in b
    ensures a[0] == b[0]
  {
    SortedHeadIsLeast(a, b[0]);
    SortedHeadIsLeast(b, a[0]);
    LeqAntisymmetric(Code(a[0]), Code(b[0]));
    CodeInjective(a[0], b[0]);
  }

  /** A sorted table is determined by its rows counted with multiplicity. */
  lemma {:induction false} SortedUnique(a: seq<Record>, b: seq<Record>)
    requires Sorted(a) && Sorted(b) && multiset(a) == multiset(b)
    ensures a == b
  {
    SameMultisetSameMembers(a, b);
    if a != [] {
      SortedSameHead(a, b);
      MultisetTail(a);
      MultisetTail(b);
      SortedTail(a);
      SortedTail(b);
      SortedUnique(a[1..], b[1..]);
    }
  }
}
