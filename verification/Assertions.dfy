/** The bitemporal assertion log (src/assertions.rs): an append-only, hash-linked, optimistically
    versioned history per scope, read by valid time and by record time. */
module Assertions {
  import opened Prelude
  import opened Events
  import Text

  datatype Entry = Entry(id: EventId, event: Event)

  /** A row of `assertion_events`: the event and its projected columns. */
  datatype Row = Row(id: EventId, scope: Scope, version: int, memoryId: int, recordedAt: int, data: Event)

  // ---- validate_chain ---------------------------------------------------------------------

  predicate ValidName(s: string, max: nat) {
    s != "" && Text.Trim(s) == s && Text.ByteLen(s) <= max && forall c | c in s :: !Text.IsControl(c)
  }

  predicate ValidScope(s: Scope) {
    && ValidName(s.namespace, 128) && ValidName(s.project, 4096)
    && ValidName(s.subject, 256) && ValidName(s.predicate_, 128)
    && Text.NormalizeNamespace(s.namespace) == s.namespace
  }

  /** A name has at most so many bytes of UTF-8, no white space at its ends and no control character. */
  ghost predicate Named(s: string, max: nat) {
    && 0 < |s| && |Text.Utf8(s)| <= max && !Text.IsSpace(s[0]) && !Text.IsSpace(s[|s| - 1])
    && forall i :: 0 <= i < |s| ==> !Text.IsControl(s[i])
  }

  lemma NamedIff(s: string, max: nat)
    ensures ValidName(s, max) <==> Named(s, max)
  {
    Text.Utf8Length(s);
    Text.TrimTrims(s);
    if s != "" && Text.Untrimmable(s) {
      Text.UntrimmableStays(s);
    }
    if ValidName(s, max) {
      assert forall i :: 0 <= i < |s| ==> s[i] in s;
    }
  }

  /** The four names of a scope, and what a namespace may not have at all. */
  lemma ScopeIff(s: Scope)
    ensures ValidScope(s) <==>
      && Named(s.namespace, 128) && Named(s.project, 4096) && Named(s.subject, 256) && Named(s.predicate_, 128)
      && forall i :: 0 <= i < |s.namespace| ==> !Text.IsSpace(s.namespace[i])
  {
    NamedIff(s.namespace, 128);
    NamedIff(s.project, 4096);
    NamedIff(s.subject, 256);
    NamedIff(s.predicate_, 128);
    var n := s.namespace;
    if Named(n, 128) {
      assert Text.NormalizeNamespace(n) == Text.Underscored(n);
      if Text.Underscored(n) == n {
        forall i | 0 <= i < |n| ensures !Text.IsSpace(n[i]) {
          assert Text.Underscored(n)[i] == n[i];
          Text.CharacterClasses(n[i]);
        }
      }
      if forall i :: 0 <= i < |n| ==> !Text.IsSpace(n[i]) {
        assert Text.Underscored(n) == n;
      }
    }
  }

  predicate ValidContent(e: Event) {
    && (e.validUntil.Some? ==> e.validUntil.value > e.validFrom)
    && (e.value.Some? ==> Text.Trim(e.value.value) != "" && Text.ByteLen(e.value.value) <= 4096)
    && (e.value.Some? || e.supersedes.Some?)
  }

  /** The event follows `entries[i - 1]`, or opens the history. */
  predicate Continues(entries: seq<Entry>, i: nat)
    requires i < |entries|
  {
    var e := entries[i].event;
    if i == 0 then e.version == 1 && e.previous.None?
    else
      var p := entries[i - 1];
      && e.version == p.event.version + 1 && e.previous == Some(p.id)
      && p.event.scope == e.scope && p.event.recordedAt <= e.recordedAt
  }

  /** A supersession names an earlier value that starts no later. */
  predicate ValidTarget(entries: seq<Entry>, e: Event) {
    e.supersedes.Some? ==> exists j | 0 <= j < |entries| ::
      && entries[j].id == e.supersedes.value && entries[j].event.version < e.version
      && entries[j].event.value.Some? && entries[j].event.validFrom <= e.validFrom
  }

  predicate ValidEntry(entries: seq<Entry>, i: nat)
    requires i < |entries|
  {
    && ValidScope(entries[i].event.scope)
    && EventId(entries[i].event) == entries[i].id
    && Continues(entries, i)
    && ValidContent(entries[i].event)
    && ValidTarget(entries, entries[i].event)
  }

  ghost predicate ValidChain(entries: seq<Entry>) {
    forall i :: 0 <= i < |entries| ==> ValidEntry(entries, i)
  }

  /** The loop of `validate_chain`, which carries only the previous entry. */
  method ValidateChain(entries: seq<Entry>) returns (ok: bool)
    ensures ok <==> ValidChain(entries)
  {
    var previous: Option<Entry> := None;
    for i := 0 to |entries|
      invariant forall k :: 0 <= k < i ==> ValidEntry(entries, k)
      invariant previous == if i == 0 then None else Some(entries[i - 1])
    {
      var entry := entries[i];
      var event := entry.event;
      var linked := match previous
        case None => event.version == 1 && event.previous.None?
        case Some(p) =>
          && event.version == p.event.version + 1 && event.previous == Some(p.id)
          && p.event.scope == event.scope && p.event.recordedAt <= event.recordedAt;
      if !(ValidScope(event.scope) && EventId(event) == entry.id && linked
           && ValidContent(event) && ValidTarget(entries, event)) {
        assert !ValidEntry(entries, i);
        return false;
      }
      previous := Some(entry);
    }
    return true;
  }

  lemma {:induction false} ChainVersions(entries: seq<Entry>, i: nat)
    requires ValidChain(entries) && i < |entries|
    ensures entries[i].event.version == i + 1 && entries[i].event.scope == entries[0].event.scope
  {
    assert ValidEntry(entries, i);
    if i > 0 {
      ChainVersions(entries, i - 1);
    }
  }

  lemma {:induction false} ChainClock(entries: seq<Entry>, i: nat, j: nat)
    requires ValidChain(entries) && i <= j < |entries|
    ensures entries[i].event.recordedAt <= entries[j].event.recordedAt
    decreases j
  {
    if i < j {
      assert ValidEntry(entries, j);
      ChainClock(entries, i, j - 1);
    }
  }

  /** Every prefix of a valid history is a valid history. */
  lemma PrefixValid(entries: seq<Entry>, n: nat)
    requires ValidChain(entries) && n <= |entries|
    ensures ValidChain(entries[..n])
  {
    var c := entries[..n];
    forall i | 0 <= i < n ensures ValidEntry(c, i) {
      assert ValidEntry(entries, i);
      var e := entries[i].event;
      if e.supersedes.Some? {
        var j :| 0 <= j < |entries| && entries[j].id == e.supersedes.value && entries[j].event.version < e.version
          && entries[j].event.value.Some? && entries[j].event.validFrom <= e.validFrom;
        ChainVersions(entries, j);
        ChainVersions(entries, i);
        assert c[j] == entries[j];
      }
    }
  }

  // ---- the table and its histories ----------------------------------------------------------

  function RowOf(entry: Entry): Row {
    var e := entry.event;
    Row(entry.id, e.scope, e.version, e.memoryId, e.recordedAt, e)
  }

  predicate Projected(row: Row) {
    row == RowOf(Entry(row.id, row.data))
  }

  function InsertByVersion(e: Entry, sorted: seq<Entry>): seq<Entry> {
    if sorted == [] then [e]
    else if e.event.version < sorted[0].event.version then [e] + sorted
    else [sorted[0]] + InsertByVersion(e, sorted[1..])
  }

  /** The rows of one scope in version order (a stable sort of the table order). */
  function History(rows: seq<Row>, scope: Scope): seq<Entry> {
    if rows == [] then []
    else
      var rest := History(rows[..|rows| - 1], scope);
      var row := rows[|rows| - 1];
      if row.data.scope == scope then InsertByVersion(Entry(row.id, row.data), rest) else rest
  }

  /** What `validate_checkpoint` accepts. */
  ghost predicate ValidTable(rows: seq<Row>) {
    && (forall i :: 0 <= i < |rows| ==> Projected(rows[i]))
    && forall scope :: ValidChain(History(rows, scope))
  }

  lemma {:induction false} InsertLast(e: Entry, sorted: seq<Entry>)
    requires forall i :: 0 <= i < |sorted| ==> sorted[i].event.version <= e.event.version
    ensures InsertByVersion(e, sorted) == sorted + [e]
  {
    if sorted != [] {
      InsertLast(e, sorted[1..]);
    }
  }

  lemma {:induction false} InsertMembers(e: Entry, sorted: seq<Entry>)
    ensures multiset(InsertByVersion(e, sorted)) == multiset(sorted) + multiset{e}
  {
    if sorted != [] {
      MultisetTail(sorted);
      InsertMembers(e, sorted[1..]);
    }
  }

  // ---- writing ------------------------------------------------------------------------------

  /** A write request, with what the transaction reads: the active evidence summary and the clock. */
  datatype Request = Request(
    scope: Scope,
    expectedVersion: int,
    memoryId: int,
    value: Option<string>,
    validFrom: int,
    validUntil: Option<int>,
    supersedes: Option<EventId>,
    actor: string,
    evidence: Option<Sha>,
    now: int)

  function Last(h: seq<Entry>): Option<Entry> {
    if h == [] then None else Some(h[|h| - 1])
  }

  function CurrentVersion(h: seq<Entry>): int {
    match Last(h)
    case None => 0
    case Some(p) => p.event.version
  }

  /** The event a request appends; its record time never precedes the last one. */
  function NextEvent(h: seq<Entry>, req: Request, evidence: Sha): Event {
    Event(req.scope, CurrentVersion(h) + 1, req.memoryId, evidence, req.value, req.validFrom, req.validUntil,
      req.supersedes,
      Max(req.now, match Last(h) case None => 0 case Some(p) => p.event.recordedAt),
      req.actor,
      match Last(h) case None => None case Some(p) => Some(p.id))
  }

  function EntryFor(e: Event): Entry {
    Entry(EventId(e), e)
  }

  ghost function Write(rows: seq<Row>, req: Request): Result<Entry> {
    var h := History(rows, req.scope);
    if !ValidScope(req.scope) then Err("invalid scope")
    else if !(0 <= req.expectedVersion < MAX_I64) then Err("invalid expected_version")
    else if !ValidChain(h) then Err("invalid history")
    else if CurrentVersion(h) != req.expectedVersion then Err("assertion version conflict")
    else if req.evidence.None? then Err("active scoped evidence memory required")
    else
      var entry := EntryFor(NextEvent(h, req, req.evidence.value));
      if ValidChain(h + [entry]) then Ok(entry) else Err("invalid assertion")
  }

  ghost function Step(rows: seq<Row>, req: Request): seq<Row> {
    match Write(rows, req)
    case Ok(entry) => rows + [RowOf(entry)]
    case Err(_) => rows
  }

  ghost function Run(rows: seq<Row>, reqs: seq<Request>): seq<Row>
    decreases reqs
  {
    if reqs == [] then rows else Run(Step(rows, reqs[0]), reqs[1..])
  }

  lemma {:induction false} HistorySnoc(rows: seq<Row>, row: Row, scope: Scope)
    ensures History(rows + [row], scope) ==
      if row.data.scope == scope then InsertByVersion(Entry(row.id, row.data), History(rows, scope)) else History(rows, scope)
  {
    assert (rows + [row])[..|rows|] == rows;
  }

  lemma CurrentVersionIsLength(h: seq<Entry>)
    requires ValidChain(h)
    ensures CurrentVersion(h) == |h|
  {
    if h != [] {
      ChainVersions(h, |h| - 1);
    }
  }

  /** A committed write extends its scope's history by its entry and leaves every other scope alone. */
  lemma {:induction false} WriteExtends(rows: seq<Row>, req: Request, scope: Scope)
    requires Write(rows, req).Ok?
    ensures var h := History(rows, scope);
            History(Step(rows, req), scope) == if scope == req.scope then h + [Write(rows, req).value] else h
  {
    var entry := Write(rows, req).value;
    HistorySnoc(rows, RowOf(entry), scope);
    if scope == req.scope {
      var h := History(rows, scope);
      CurrentVersionIsLength(h);
      forall i | 0 <= i < |h| ensures h[i].event.version <= entry.event.version {
        ChainVersions(h, i);
      }
      InsertLast(entry, h);
    }
  }

  /** What a committed write records: everything the request says, the evidence as it was read, and a record time that
      is the clock's unless the clock has fallen behind the last event (or reads before the epoch). */
  lemma {:induction false} WriteRecords(rows: seq<Row>, req: Request, entry: Entry)
    requires Write(rows, req) == Ok(entry)
    ensures var e, h := entry.event, History(rows, req.scope);
            && e.scope == req.scope && e.memoryId == req.memoryId && Some(e.evidence) == req.evidence && e.value == req.value
            && e.validFrom == req.validFrom && e.validUntil == req.validUntil && e.supersedes == req.supersedes
            && e.actor == req.actor && e.version == req.expectedVersion + 1 == |h| + 1
            && e.previous == (if h == [] then None else Some(h[|h| - 1].id))
            && entry.id == EventId(e)
            && req.now <= e.recordedAt && (forall i :: 0 <= i < |h| ==> h[i].event.recordedAt <= e.recordedAt)
            && e.recordedAt in {req.now, if h == [] then 0 else h[|h| - 1].event.recordedAt}
  {
    var h := History(rows, req.scope);
    CurrentVersionIsLength(h);
    forall i | 0 <= i < |h| ensures h[i].event.recordedAt <= entry.event.recordedAt {
      ChainClock(h, i, |h| - 1);
    }
  }

  /** A value that can be asserted: not blank, and at most 4096 bytes. */
  predicate Assertable(value: string) {
    Text.ByteLen(value) <= 4096 && exists i | 0 <= i < |value| :: !Text.IsSpace(value[i])
  }

  /** The event a request may supersede: an earlier one of its scope that holds a value and starts no later. */
  predicate Supersedable(h: seq<Entry>, id: EventId, validFrom: int) {
    exists j | 0 <= j < |h| :: h[j].id == id && h[j].event.value.Some? && h[j].event.validFrom <= validFrom
  }

  /** Exactly when a write commits, in terms of what the caller asks for and what is there. */
  lemma {:induction false} WriteSucceedsIff(rows: seq<Row>, req: Request)
    requires ValidTable(rows)
    ensures var h := History(rows, req.scope);
            Write(rows, req).Ok? <==>
              && ValidScope(req.scope) && 0 <= req.expectedVersion < MAX_I64 && req.expectedVersion == |h| && req.evidence.Some?
              && (req.validUntil.Some? ==> req.validFrom < req.validUntil.value)
              && (req.value.Some? ==> Assertable(req.value.value))
              && (req.value.Some? || req.supersedes.Some?)
              && (req.supersedes.Some? ==> Supersedable(h, req.supersedes.value, req.validFrom))
  {
    hide ValidScope;
    var h := History(rows, req.scope);
    CurrentVersionIsLength(h);
    HistoryScope(rows, req.scope);
    if req.value.Some? {
      Text.TrimEmptyIff(req.value.value);
    }
    if req.evidence.Some? && req.expectedVersion == |h| {
      var entry := EntryFor(NextEvent(h, req, req.evidence.value));
      LastEntryValid(h, entry);
      NextContinues(h, req, entry);
      TargetIff(h, entry);
    }
  }

  lemma {:induction false} HistoryScope(rows: seq<Row>, scope: Scope)
    ensures forall e :: e in History(rows, scope) ==> e.event.scope == scope
  {
    if rows != [] {
      var rest, row := rows[..|rows| - 1], rows[|rows| - 1];
      HistoryScope(rest, scope);
      if row.data.scope == scope {
        InsertMembers(Entry(row.id, row.data), History(rest, scope));
        forall e | e in History(rows, scope) ensures e.event.scope == scope {
          assert e in multiset(History(rows, scope));
        }
      }
    }
  }

  /** Appending needs only the new entry to be checked. */
  lemma LastEntryValid(h: seq<Entry>, entry: Entry)
    requires ValidChain(h)
    ensures ValidChain(h + [entry]) <==> ValidEntry(h + [entry], |h|)
  {
    var c := h + [entry];
    forall i | 0 <= i < |h| ensures ValidEntry(c, i) {
      assert ValidEntry(h, i);
      var e := h[i].event;
      if e.supersedes.Some? {
        var j :| 0 <= j < |h| && h[j].id == e.supersedes.value && h[j].event.version < e.version
          && h[j].event.value.Some? && h[j].event.validFrom <= e.validFrom;
        assert c[j] == h[j];
      }
    }
  }

  lemma NextContinues(h: seq<Entry>, req: Request, entry: Entry)
    requires ValidChain(h) && req.evidence.Some? && entry == EntryFor(NextEvent(h, req, req.evidence.value))
    requires h != [] ==> h[0].event.scope == req.scope
    ensures Continues(h + [entry], |h|)
  {
    if h != [] {
      ChainVersions(h, |h| - 1);
    }
  }

  lemma TargetIff(h: seq<Entry>, entry: Entry)
    requires ValidChain(h) && entry.event.version == |h| + 1
    ensures ValidTarget(h + [entry], entry.event) <==>
      (entry.event.supersedes.Some? ==> Supersedable(h, entry.event.supersedes.value, entry.event.validFrom))
  {
    var c, e := h + [entry], entry.event;
    if e.supersedes.Some? {
      if Supersedable(h, e.supersedes.value, e.validFrom) {
        var j :| 0 <= j < |h| && h[j].id == e.supersedes.value && h[j].event.value.Some? && h[j].event.validFrom <= e.validFrom;
        ChainVersions(h, j);
        assert c[j] == h[j];
      }
      if ValidTarget(c, e) {
        var j :| 0 <= j < |c| && c[j].id == e.supersedes.value && c[j].event.version < e.version
          && c[j].event.value.Some? && c[j].event.validFrom <= e.validFrom;
        assert h[j] == c[j];
      }
    }
  }

  lemma StepValid(rows: seq<Row>, req: Request)
    requires ValidTable(rows)
    ensures ValidTable(Step(rows, req)) && rows <= Step(rows, req)
  {
    if Write(rows, req).Ok? {
      forall scope ensures ValidChain(History(Step(rows, req), scope)) {
        WriteExtends(rows, req, scope);
      }
    }
  }

  /** Whatever the writers ask for and whatever the clock says, the live table stays one that checkpoint
      validation accepts, and only ever grows. */
  lemma {:induction false} RunValid(rows: seq<Row>, reqs: seq<Request>)
    requires ValidTable(rows)
    ensures ValidTable(Run(rows, reqs)) && rows <= Run(rows, reqs)
    decreases reqs
  {
    if reqs != [] {
      StepValid(rows, reqs[0]);
      RunValid(Step(rows, reqs[0]), reqs[1..]);
    }
  }

  lemma {:induction false} RunExtends(rows: seq<Row>, reqs: seq<Request>, scope: Scope)
    requires ValidTable(rows)
    ensures History(rows, scope) <= History(Run(rows, reqs), scope)
    decreases reqs
  {
    if reqs != [] {
      StepValid(rows, reqs[0]);
      if Write(rows, reqs[0]).Ok? {
        WriteExtends(rows, reqs[0], scope);
      }
      RunExtends(Step(rows, reqs[0]), reqs[1..], scope);
    }
  }

  /** Of all requests of a run that name one version of one scope, at most one commits. */
  lemma {:induction false} OneWritePerVersion(rows: seq<Row>, first: Request, between: seq<Request>, second: Request)
    requires ValidTable(rows) && first.scope == second.scope && first.expectedVersion == second.expectedVersion
    requires Write(rows, first).Ok?
    ensures Write(Run(Step(rows, first), between), second).Err?
  {
    var h := History(rows, first.scope);
    StepValid(rows, first);
    WriteExtends(rows, first, first.scope);
    RunExtends(Step(rows, first), between, first.scope);
    RunValid(Step(rows, first), between);
    CurrentVersionIsLength(h);
    CurrentVersionIsLength(History(Run(Step(rows, first), between), first.scope));
  }

  /** What makes an entry part of a history, field by field. */
  ghost predicate Coherent(h: seq<Entry>, i: nat)
    requires i < |h|
  {
    var e := h[i].event;
    && h[i].id == EventId(e) && e.scope == h[0].event.scope && e.version == i + 1
    && e.previous == (if i == 0 then None else Some(h[i - 1].id))
    && (forall j :: 0 <= j < i ==> h[j].event.recordedAt <= e.recordedAt)
    && (e.validUntil.Some? ==> e.validFrom < e.validUntil.value)
    && (e.value.Some? ==> Assertable(e.value.value)) && (e.value.Some? || e.supersedes.Some?)
    && (e.supersedes.Some? ==> Supersedable(h[..i], e.supersedes.value, e.validFrom))
  }

  /** A history is valid exactly when it is of one valid scope and every entry coheres with those before it. */
  lemma ChainIff(h: seq<Entry>)
    ensures ValidChain(h) <==> (h != [] ==> ValidScope(h[0].event.scope)) && forall i: nat :: i < |h| ==> Coherent(h, i)
  {
    hide ValidScope, ValidEntry, Coherent;
    if ValidChain(h) {
      forall i: nat | i < |h| ensures Coherent(h, i) {
        ValidCoheres(h, i);
      }
      if h != [] {
        ValidCoheres(h, 0);
      }
    }
    if (h != [] ==> ValidScope(h[0].event.scope)) && forall i: nat :: i < |h| ==> Coherent(h, i) {
      forall i: nat | i < |h| ensures h[i].event.version == i + 1 {
        CoherentVersion(h, i);
      }
      forall i | 0 <= i < |h| ensures ValidEntry(h, i) {
        CoherentIsValid(h, i);
      }
    }
  }

  lemma ValidCoheres(h: seq<Entry>, i: nat)
    requires ValidChain(h) && i < |h|
    ensures Coherent(h, i) && ValidScope(h[0].event.scope)
  {
    hide ValidScope;
    var e := h[i].event;
    assert ValidEntry(h, i) && ValidEntry(h, 0);
    ChainVersions(h, i);
    ChainVersions(h, 0);
    forall j | 0 <= j < i ensures h[j].event.recordedAt <= e.recordedAt {
      ChainClock(h, j, i);
    }
    if e.value.Some? {
      Text.TrimEmptyIff(e.value.value);
    }
    if e.supersedes.Some? {
      var j :| 0 <= j < |h| && h[j].id == e.supersedes.value && h[j].event.version < e.version
        && h[j].event.value.Some? && h[j].event.validFrom <= e.validFrom;
      ChainVersions(h, j);
      assert h[..i][j] == h[j];
    }
  }

  lemma CoherentVersion(h: seq<Entry>, i: nat)
    requires i < |h| && Coherent(h, i)
    ensures h[i].event.version == i + 1
  {
  }

  lemma CoherentIsValid(h: seq<Entry>, i: nat)
    requires i < |h| && ValidScope(h[0].event.scope) && Coherent(h, i) && (i > 0 ==> Coherent(h, i - 1))
    requires forall j: nat :: j < i ==> h[j].event.version == j + 1
    ensures ValidEntry(h, i)
  {
    hide ValidScope;
    var e := h[i].event;
    if e.value.Some? {
      Text.TrimEmptyIff(e.value.value);
    }
    if e.supersedes.Some? {
      var past := h[..i];
      var j :| 0 <= j < |past| && past[j].id == e.supersedes.value && past[j].event.value.Some? && past[j].event.validFrom <= e.validFrom;
      assert h[j] == past[j];
    }
  }

  // ---- reading ------------------------------------------------------------------------------

  function Known(h: seq<Entry>, recordedBefore: int): seq<Entry> {
    if h == [] then []
    else
      var rest := Known(h[..|h| - 1], recordedBefore);
      if h[|h| - 1].event.recordedAt <= recordedBefore then rest + [h[|h| - 1]] else rest
  }

  predicate Suppressed(known: seq<Entry>, id: EventId, validAt: int) {
    exists i | 0 <= i < |known| :: known[i].event.supersedes == Some(id) && known[i].event.validFrom <= validAt
  }

  predicate IsCandidate(known: seq<Entry>, e: Entry, validAt: int) {
    && e.event.value.Some? && e.event.validFrom <= validAt
    && (e.event.validUntil.Some? ==> validAt < e.event.validUntil.value)
    && !Suppressed(known, e.id, validAt)
  }

  function Select(known: seq<Entry>, from: seq<Entry>, validAt: int, history: bool): seq<Entry> {
    if from == [] then []
    else
      var rest := Select(known, from[..|from| - 1], validAt, history);
      if history || IsCandidate(known, from[|from| - 1], validAt) then rest + [from[|from| - 1]] else rest
  }

  function Candidates(h: seq<Entry>, validAt: int, recordedBefore: int): seq<Entry> {
    var known := Known(h, recordedBefore);
    Select(known, known, validAt, false)
  }

  /** In a valid history what is known at a record time is a prefix. */
  lemma {:induction false} KnownIsPrefix(h: seq<Entry>, r: int)
    requires ValidChain(h)
    ensures Known(h, r) <= h
    ensures forall i :: 0 <= i < |h| ==> (h[i].event.recordedAt <= r <==> i < |Known(h, r)|)
  {
    if h != [] {
      PrefixValid(h, |h| - 1);
      KnownIsPrefix(h[..|h| - 1], r);
      forall i | 0 <= i < |h| ensures h[i].event.recordedAt <= h[|h| - 1].event.recordedAt {
        ChainClock(h, i, |h| - 1);
      }
    }
  }

  /** What an extended history adds after a cut-off is invisible at it. */
  lemma {:induction false} KnownStays(before: seq<Entry>, after: seq<Entry>, recordedBefore: int)
    requires ValidChain(before) && ValidChain(after) && before <= after
    requires |after| > |before| ==> recordedBefore < after[|before|].event.recordedAt
    ensures Known(after, recordedBefore) == Known(before, recordedBefore)
  {
    hide ValidEntry;
    KnownIsPrefix(before, recordedBefore);
    KnownIsPrefix(after, recordedBefore);
    var a, b := Known(after, recordedBefore), Known(before, recordedBefore);
    if b != [] {
      assert before[|b| - 1] == after[|b| - 1];
    }
    assert |b| <= |a|;
    if |b| < |before| {
      assert before[|b|] == after[|b|];
    }
    assert |a| <= |b|;
    assert a == after[..|a|] == before[..|b|] == b;
  }

  /** Suppression lasts in every extension of a history, at later valid and record times. */
  lemma {:induction false} SuppressedStays(before: seq<Entry>, after: seq<Entry>, id: EventId, v: int, r: int, v': int, r': int)
    requires ValidChain(before) && ValidChain(after) && before <= after && v <= v' && r <= r'
    requires Suppressed(Known(before, r), id, v)
    ensures Suppressed(Known(after, r'), id, v')
  {
    hide ValidEntry;
    KnownIsPrefix(before, r);
    KnownIsPrefix(after, r');
    var i :| 0 <= i < |Known(before, r)| && Known(before, r)[i].event.supersedes == Some(id)
          && Known(before, r)[i].event.validFrom <= v;
    assert before[i] == after[i];
    assert Known(after, r')[i] == after[i];
  }

  /** A committed write is unknown at every record time before its clock reading; from its record time on it is known,
      and it is a candidate inside its interval as long as nothing suppresses it. */
  lemma {:induction false} WriteIsRead(rows: seq<Row>, req: Request, entry: Entry, validAt: int, recordedBefore: int)
    requires ValidTable(rows) && Write(rows, req) == Ok(entry)
    ensures var h := History(Step(rows, req), req.scope);
            && (recordedBefore < req.now ==> entry !in Known(h, recordedBefore))
            && (entry.event.recordedAt <= recordedBefore ==> entry in Known(h, recordedBefore))
            && (entry in Candidates(h, validAt, recordedBefore) <==>
                  && entry.event.recordedAt <= recordedBefore && req.value.Some? && req.validFrom <= validAt
                  && (req.validUntil.Some? ==> validAt < req.validUntil.value))
  {
    hide ValidChain, ValidTable, Step, Write, Known, Candidates;
    var h := History(Step(rows, req), req.scope);
    StepValid(rows, req);
    TableChain(Step(rows, req), req.scope);
    WriteExtends(rows, req, req.scope);
    WriteRecords(rows, req, entry);
    assert h[|h| - 1] == entry;
    NotEarlier(h, entry, recordedBefore);
    LastCandidate(h, validAt, recordedBefore);
  }

  lemma {:induction false} TableChain(rows: seq<Row>, scope: Scope)
    requires ValidTable(rows)
    ensures ValidChain(History(rows, scope))
  {
  }

  /** The last event of a history can only be ruled out by its own value, interval and record time. */
  lemma LastCandidate(h: seq<Entry>, validAt: int, recordedBefore: int)
    requires ValidChain(h) && h != []
    ensures var e := h[|h| - 1].event;
            h[|h| - 1] in Candidates(h, validAt, recordedBefore) <==>
              && e.recordedAt <= recordedBefore && e.value.Some? && e.validFrom <= validAt
              && (e.validUntil.Some? ==> validAt < e.validUntil.value)
  {
    hide ValidEntry, Known, Suppressed, Select;
    var known, last := Known(h, recordedBefore), h[|h| - 1];
    NotEarlier(h, last, recordedBefore);
    KnownIsPrefix(h, recordedBefore);
    SelectedInOrder(h, validAt, recordedBefore, false);
    if |known| == |h| {
      assert known == h;
      NothingSupersedesLast(h, validAt);
    }
  }

  lemma {:induction false} NotEarlier(h: seq<Entry>, entry: Entry, recordedBefore: int)
    requires ValidChain(h) && h != [] && h[|h| - 1] == entry
    ensures entry in Known(h, recordedBefore) <==> |Known(h, recordedBefore)| == |h|
    ensures entry in Known(h, recordedBefore) <==> entry.event.recordedAt <= recordedBefore
  {
    hide ValidEntry;
    KnownIsPrefix(h, recordedBefore);
    var known := Known(h, recordedBefore);
    if entry in known {
      var i :| 0 <= i < |known| && known[i] == entry;
      ChainVersions(h, i);
      ChainVersions(h, |h| - 1);
      assert h[i] == entry;
    }
    if |known| == |h| {
      assert known[|h| - 1] == h[|h| - 1];
    }
  }

  /** The last event of a valid history is superseded by none. */
  lemma NothingSupersedesLast(h: seq<Entry>, validAt: int)
    requires ValidChain(h) && h != []
    ensures !Suppressed(h, h[|h| - 1].id, validAt)
  {
    var last := |h| - 1;
    assert ValidEntry(h, last);
    forall i | 0 <= i < |h| && h[i].event.supersedes == Some(h[last].id) ensures false {
      assert ValidEntry(h, i);
      var j :| 0 <= j < |h| && h[j].id == h[i].event.supersedes.value && h[j].event.version < h[i].event.version;
      assert ValidEntry(h, j);
      assert h[j].event == h[last].event;
      ChainVersions(h, i);
      ChainVersions(h, last);
    }
  }

  // ---- linear histories ---------------------------------------------------------------------

  /** Each event after the first supersedes the one before it. */
  ghost predicate Linear(h: seq<Entry>) {
    forall i :: 0 < i < |h| ==> h[i].event.supersedes == Some(h[i - 1].id)
  }

  lemma LinearStep(h: seq<Entry>, i: nat)
    requires ValidChain(h) && Linear(h) && 0 < i < |h|
    ensures h[i - 1].event.validFrom <= h[i].event.validFrom && h[i - 1].event.value.Some?
  {
    assert ValidEntry(h, i) && ValidEntry(h, i - 1);
    var e := h[i].event;
    var j :| 0 <= j < |h| && h[j].id == e.supersedes.value && h[j].event.version < e.version
      && h[j].event.value.Some? && h[j].event.validFrom <= e.validFrom;
    assert ValidEntry(h, j);
    assert EventId(h[j].event) == EventId(h[i - 1].event);
  }

  lemma {:induction false} LinearStarts(h: seq<Entry>, i: nat, j: nat)
    requires ValidChain(h) && Linear(h) && i <= j < |h|
    ensures h[i].event.validFrom <= h[j].event.validFrom
    decreases j
  {
    if i < j {
      LinearStep(h, j);
      LinearStarts(h, i, j - 1);
    }
  }

  /** How many events of a linear history have been recorded by `r` and have started by `v`. */
  function Started(h: seq<Entry>, v: int, r: int): nat {
    if h == [] then 0
    else if h[|h| - 1].event.recordedAt <= r && h[|h| - 1].event.validFrom <= v then |h|
    else Started(h[..|h| - 1], v, r)
  }

  /** In a linear history an event is suppressed exactly when its successor is known and has started. */
  lemma LinearSuppression(h: seq<Entry>, i: nat, v: int)
    requires ValidChain(h) && Linear(h) && i < |h|
    ensures Suppressed(h, h[i].id, v) <==> i + 1 < |h| && h[i + 1].event.validFrom <= v
  {
    assert ValidEntry(h, i);
    if Suppressed(h, h[i].id, v) {
      var k :| 0 <= k < |h| && h[k].event.supersedes == Some(h[i].id) && h[k].event.validFrom <= v;
      assert ValidEntry(h, k);
      if k == 0 {
        var j :| 0 <= j < |h| && h[j].id == h[0].event.supersedes.value && h[j].event.version < h[0].event.version;
        ChainVersions(h, j);
        assert false;
      } else {
        assert ValidEntry(h, k - 1);
        assert h[k - 1].event == h[i].event;
        ChainVersions(h, k - 1);
        ChainVersions(h, i);
      }
    }
  }

  /** The last event that has started, if it holds a value that has not run out. */
  function Reading(h: seq<Entry>, v: int): seq<Entry> {
    if h != [] && h[|h| - 1].event.value.Some?
       && (h[|h| - 1].event.validUntil.Some? ==> v < h[|h| - 1].event.validUntil.value)
    then [h[|h| - 1]] else []
  }

  /** In a linear history both clocks run forward, so what has been recorded and has started is a prefix. */
  lemma {:induction false} StartedIsPrefix(h: seq<Entry>, v: int, r: int)
    requires ValidChain(h) && Linear(h)
    ensures Started(h, v, r) <= |h|
    ensures forall i :: 0 <= i < |h| ==>
      (h[i].event.recordedAt <= r && h[i].event.validFrom <= v <==> i < Started(h, v, r))
  {
    if h != [] {
      var last := |h| - 1;
      forall i | 0 <= i < |h|
        ensures h[i].event.recordedAt <= h[last].event.recordedAt && h[i].event.validFrom <= h[last].event.validFrom
      {
        ChainClock(h, i, last);
        LinearStarts(h, i, last);
      }
      PrefixValid(h, last);
      StartedIsPrefix(h[..last], v, r);
    }
  }

  lemma {:induction false} SelectOne(known: seq<Entry>, n: nat, s: nat, v: int)
    requires n <= |known| && forall i :: 0 <= i < |known| && IsCandidate(known, known[i], v) ==> i == s
    ensures Select(known, known[..n], v, false) == if s < n && IsCandidate(known, known[s], v) then [known[s]] else []
  {
    if n > 0 {
      assert known[..n][..n - 1] == known[..n - 1];
      SelectOne(known, n - 1, s, v);
    }
  }

  /** In a linear history only the last started event can be a candidate, and it is one if it still holds. */
  lemma {:induction false} LinearCandidate(h: seq<Entry>, i: nat, v: int, r: int)
    requires ValidChain(h) && Linear(h) && i < |Known(h, r)|
    ensures Known(h, r) <= h && Started(h, v, r) <= |Known(h, r)|
    ensures IsCandidate(Known(h, r), Known(h, r)[i], v) <==> i == Started(h, v, r) - 1 && Reading(h[..i + 1], v) != []
  {
    hide Known, Started, ValidEntry;
    var known, s := Known(h, r), Started(h, v, r);
    KnownIsPrefix(h, r);
    PrefixValid(h, |known|);
    StartedIsPrefix(h, v, r);
    assert known == h[..|known|] && known[i] == h[i];
    LinearSuppression(known, i, v);
    if i + 1 < |known| {
      assert known[i + 1] == h[i + 1];
    }
    assert s > 0 ==> h[s - 1].event.recordedAt <= r;
  }

  /** A linear history has exactly one reading at every point of both times: the last event that was
      recorded and had started by then, if it still holds.  So there is never more than one candidate. */
  lemma {:induction false} LinearReading(h: seq<Entry>, v: int, r: int)
    requires ValidChain(h) && Linear(h)
    ensures Started(h, v, r) <= |h|
    ensures Candidates(h, v, r) == Reading(h[..Started(h, v, r)], v)
    ensures |Candidates(h, v, r)| <= 1
  {
    hide Started, Known, IsCandidate, ValidEntry;
    var known, s := Known(h, r), Started(h, v, r);
    StartedIsPrefix(h, v, r);
    forall i | 0 <= i < |known|
      ensures Known(h, r) <= h && s <= |known|
      ensures IsCandidate(known, known[i], v) <==> i == s - 1 && Reading(h[..i + 1], v) != []
    {
      LinearCandidate(h, i, v, r);
    }
    KnownIsPrefix(h, r);
    assert known[..|known|] == known;
    if s > 0 {
      assert h[s - 1].event.recordedAt <= r;
      assert known[s - 1] == h[s - 1];
      SelectOne(known, |known|, s - 1, v);
    } else {
      SelectOne(known, |known|, |known|, v);
    }
  }

  /** What a query sees at a point of both times: an entry recorded by then, with a value that holds then, which no
      entry recorded by then supersedes from then or earlier on. */
  lemma CandidateIff(h: seq<Entry>, e: Entry, validAt: int, recordedBefore: int)
    requires ValidChain(h)
    ensures e in Candidates(h, validAt, recordedBefore) <==>
      && e in h && e.event.recordedAt <= recordedBefore && e.event.value.Some? && e.event.validFrom <= validAt
      && (e.event.validUntil.Some? ==> validAt < e.event.validUntil.value)
      && forall j :: 0 <= j < |h| && h[j].event.recordedAt <= recordedBefore && h[j].event.supersedes == Some(e.id) ==>
           validAt < h[j].event.validFrom
  {
    SelectedInOrder(h, validAt, recordedBefore, false);
    KnownIsPrefix(h, recordedBefore);
    hide ValidEntry, Known, Select;
    var known := Known(h, recordedBefore);
    assert e in known <==> e in h && e.event.recordedAt <= recordedBefore;
  }

  // ---- query --------------------------------------------------------------------------------

  datatype Status = Incomplete | FullHistory | Conflict | Unknown | Current

  ghost predicate VersionsAscend(s: seq<Entry>) {
    forall i, j :: 0 <= i < j < |s| ==> s[i].event.version < s[j].event.version
  }

  lemma {:induction false} SelectAscends(known: seq<Entry>, from: seq<Entry>, validAt: int, history: bool)
    requires VersionsAscend(from)
    ensures VersionsAscend(Select(known, from, validAt, history))
    ensures forall e :: e in Select(known, from, validAt, history) <==> e in from && (history || IsCandidate(known, e, validAt))
  {
    hide IsCandidate;
    if from != [] {
      var init, last := from[..|from| - 1], from[|from| - 1];
      SelectAscends(known, init, validAt, history);
      assert from == init + [last];
      forall e | e in Select(known, init, validAt, history) ensures e.event.version < last.event.version {
        var i :| 0 <= i < |init| && init[i] == e;
        assert from[i] == e;
      }
    }
  }

  /** What a query selects from a valid history: what was known and holds, or all that was known, in version order. */
  lemma {:induction false} SelectedInOrder(h: seq<Entry>, validAt: int, recordedBefore: int, history: bool)
    requires ValidChain(h)
    ensures var known := Known(h, recordedBefore);
            && VersionsAscend(Select(known, known, validAt, history))
            && forall e :: e in Select(known, known, validAt, history) <==> e in known && (history || IsCandidate(known, e, validAt))
  {
    hide IsCandidate, ValidEntry;
    var known := Known(h, recordedBefore);
    KnownIsPrefix(h, recordedBefore);
    forall i, j | 0 <= i < j < |known| ensures known[i].event.version < known[j].event.version {
      ChainVersions(h, i);
      ChainVersions(h, j);
    }
    SelectAscends(known, known, validAt, history);
  }

  /** The candidate loop: `authorized` holds the entries whose evidence memory is live, unchanged and passes the
      egress gate. */
  method Gate(candidates: seq<Entry>, authorized: set<Entry>) returns (visible: seq<Entry>, withheld: bool)
    requires VersionsAscend(candidates)
    ensures VersionsAscend(visible) && forall e :: e in visible <==> e in authorized && e in candidates
    ensures withheld <==> exists e :: e in candidates && e !in authorized
    ensures !withheld ==> visible == candidates
  {
    withheld := false;
    visible := [];
    for i := 0 to |candidates|
      invariant withheld <==> exists e :: e in candidates[..i] && e !in authorized
      invariant forall e :: e in visible <==> e in authorized && e in candidates[..i]
      invariant VersionsAscend(visible)
      invariant !withheld ==> visible == candidates[..i]
    {
      TakeSnoc(candidates, i);
      if candidates[i] !in authorized {
        withheld := true;
      } else {
        forall e | e in visible ensures e.event.version < candidates[i].event.version {
          var j :| 0 <= j < i && candidates[j] == e;
        }
        visible := visible + [candidates[i]];
      }
    }
    assert candidates[..|candidates|] == candidates;
  }

  /** `Query` returns the authorized candidates in version order, and says whether
      it withheld any; only a complete answer has a current value, a conflict, or nothing to tell. */
  method Query(h: seq<Entry>, validAt: int, recordedBefore: int, history: bool, authorized: set<Entry>)
    returns (visible: seq<Entry>, currentId: Option<EventId>, status: Status)
    requires ValidChain(h)
    ensures VersionsAscend(visible)
    ensures forall e :: e in visible <==> e in authorized && e in Known(h, recordedBefore) && (history || IsCandidate(Known(h, recordedBefore), e, validAt))
    ensures status == Incomplete <==>
      exists e :: e in Known(h, recordedBefore) && (history || IsCandidate(Known(h, recordedBefore), e, validAt)) && e !in authorized
    ensures status == FullHistory <==> status != Incomplete && history
    ensures status == Conflict <==> status != Incomplete && !history && |visible| > 1
    ensures status == Unknown <==> status != Incomplete && !history && visible == []
    ensures status == Current <==> currentId.Some?
    ensures currentId.Some? <==> !history && |Candidates(h, validAt, recordedBefore)| == 1 && Candidates(h, validAt, recordedBefore)[0] in authorized
    ensures currentId.Some? ==> currentId == Some(Candidates(h, validAt, recordedBefore)[0].id)
  {
    hide IsCandidate, ValidChain, Known, VersionsAscend;
    var known := Known(h, recordedBefore);
    var candidates := Select(known, known, validAt, history);
    SelectedInOrder(h, validAt, recordedBefore, history);
    var withheld;
    visible, withheld := Gate(candidates, authorized);
    currentId := if !history && !withheld && |visible| == 1 then Some(visible[0].id) else None;
    status :=
      if withheld then Incomplete else if history then FullHistory
      else if |visible| > 1 then Conflict else if visible == [] then Unknown else Current;
    if |candidates| == 1 && candidates[0] in authorized {
      assert forall e :: e in candidates ==> e == candidates[0];
    }
  }

  // ---- the table in place -------------------------------------------------------------------

  class AssertionLog {
    var rows: seq<Row>

    constructor ()
      ensures rows == []
    {
      rows := [];
    }

    /** The rows of a scope in version order, checked. */
    method Entries(scope: Scope) returns (r: Result<seq<Entry>>)
      ensures r == if ValidChain(History(rows, scope)) then Ok(History(rows, scope)) else Err("invalid history")
    {
      var history := History(rows, scope);
      var ok := ValidateChain(history);
      return if ok then Ok(history) else Err("invalid history");
    }

    /** One write transaction. */
    method Append(req: Request) returns (r: Result<Entry>)
      modifies this
      ensures r == Write(old(rows), req) && rows == Step(old(rows), req)
    {
      var namesOk := ValidScope(req.scope);
      if !namesOk {
        return Err("invalid scope");
      }
      if !(0 <= req.expectedVersion < MAX_I64) {
        return Err("invalid expected_version");
      }
      var read := Entries(req.scope);
      if read.Err? {
        return Err(read.error);
      }
      var history := read.value;
      if CurrentVersion(history) != req.expectedVersion {
        return Err("assertion version conflict");
      }
      if req.evidence.None? {
        return Err("active scoped evidence memory required");
      }
      var entry := EntryFor(NextEvent(history, req, req.evidence.value));
      history := history + [entry];
      var ok := ValidateChain(history);
      if !ok {
        return Err("invalid assertion");
      }
      rows := rows + [RowOf(entry)];
      return Ok(entry);
    }
  }
}
