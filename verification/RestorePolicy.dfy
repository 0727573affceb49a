/** How restore merges the governance row of a live memory into the row a checkpoint brings back
    (src/checkpoint.rs:684-751).  Policy may tighten but never loosens. */
module RestorePolicy {
  import opened Prelude

  datatype Meta = Meta(
    namespace: string,
    sourceType: string,
    writer: Option<string>,
    residency: Option<string>,
    retention: Option<string>,
    scope: string,
    trust: string,
    classification: string,
    consent: Option<string>,
    expiresAt: Option<int>,
    legalHold: int,
    tombstonedAt: Option<int>,
    tombstoneReason: Option<string>)

  const TIERS := ["untrusted", "low", "medium", "high"]
  const CLASSES := ["public", "internal", "confidential", "restricted"]
  const BINDING_CONSENT: set<string> := {"denied", "withdrawn", "required"}

  function Position(names: seq<string>, s: string): Option<nat> {
    if names == [] then None
    else if names[0] == s then Some(0)
    else match Position(names[1..], s)
      case None => None
      case Some(i) => Some(i + 1)
  }

  /** An unknown tier ranks with the least trusted. */
  function Rank(trust: string): nat {
    Position(TIERS, trust).GetOr(0)
  }

  function ClassRank(classification: string): Option<nat> {
    Position(CLASSES, classification)
  }

  predicate Compatible(live: Option<string>, row: Option<string>) {
    live.None? || row.None? || live == row
  }

  predicate Comparable(live: string, row: string) {
    live == row || (ClassRank(live).Some? && ClassRank(row).Some?)
  }

  predicate Mergeable(live: Meta, row: Meta) {
    && live.namespace == row.namespace && live.sourceType == row.sourceType && live.writer == row.writer
    && Compatible(live.residency, row.residency) && Compatible(live.retention, row.retention)
    && Comparable(live.classification, row.classification)
  }

  function Earliest(a: Option<int>, b: Option<int>): Option<int> {
    if a.None? then b else if b.None? || a.value <= b.value then a else b
  }

  function Inherited(live: Option<string>, row: Option<string>): Option<string> {
    if live.Some? then live else row
  }

  function MergedClass(live: string, row: string): string
    requires Comparable(live, row)
  {
    if live != row && ClassRank(live).value > ClassRank(row).value then live else row
  }

  function MergeMeta(live: Meta, row: Meta): Result<Meta> {
    if !Mergeable(live, row) then Err("incompatible governance")
    else Ok(Meta(
      row.namespace, row.sourceType, row.writer,
      Inherited(live.residency, row.residency),
      Inherited(live.retention, row.retention),
      if live.scope == "project" then "project" else row.scope,
      if Rank(live.trust) < Rank(row.trust) then live.trust else row.trust,
      MergedClass(live.classification, row.classification),
      if live.consent.Some? && live.consent.value in BINDING_CONSENT then live.consent else row.consent,
      Earliest(row.expiresAt, live.expiresAt),
      if live.legalHold == 1 then 1 else row.legalHold,
      if live.tombstonedAt.Some? then live.tombstonedAt else row.tombstonedAt,
      if live.tombstonedAt.Some? then live.tombstoneReason else row.tombstoneReason))
  }

  /** Identity must agree; residency and retention may only be filled in. */
  method MergeIdentity(live: Meta, start: Meta) returns (r: Result<Meta>)
    ensures r.Ok? <==>
      && live.namespace == start.namespace && live.sourceType == start.sourceType && live.writer == start.writer
      && Compatible(live.residency, start.residency) && Compatible(live.retention, start.retention)
    ensures r.Err? ==> r.error == "incompatible governance"
    ensures r.Ok? ==> r.value == start.(residency := Inherited(live.residency, start.residency),
                                        retention := Inherited(live.retention, start.retention))
  {
    var row := start;
    if live.namespace != row.namespace || live.sourceType != row.sourceType || live.writer != row.writer {
      return Err("incompatible governance");
    }
    if !(live.residency.None? || row.residency.None? || live.residency == row.residency) {
      return Err("incompatible governance");
    }
    if live.residency.Some? {
      row := row.(residency := live.residency);
    }
    if !(live.retention.None? || row.retention.None? || live.retention == row.retention) {
      return Err("incompatible governance");
    }
    if live.retention.Some? {
      row := row.(retention := live.retention);
    }
    return Ok(row);
  }

  method MergeClass(live: string, row: string) returns (r: Result<string>)
    ensures r == if Comparable(live, row) then Ok(MergedClass(live, row)) else Err("incompatible governance")
  {
    if row != live {
      var a, b := ClassRank(row), ClassRank(live);
      if a.None? || b.None? {
        return Err("incompatible governance");
      }
      if b.value > a.value {
        return Ok(live);
      }
    }
    return Ok(row);
  }

  /** The merge as the program performs it, field after field on the row itself. */
  method MergeRow(live: Meta, start: Meta) returns (r: Result<Meta>)
    ensures r == MergeMeta(live, start)
  {
    hide Rank, ClassRank, Earliest, Compatible, Comparable;
    var identified := MergeIdentity(live, start);
    if identified.Err? {
      return identified;
    }
    var row := identified.value;
    if live.scope == "project" {
      row := row.(scope := "project");
    }
    if Rank(live.trust) < Rank(row.trust) {
      row := row.(trust := live.trust);
    }
    var tier := MergeClass(live.classification, row.classification);
    if tier.Err? {
      return Err(tier.error);
    }
    row := row.(classification := tier.value);
    if live.consent.Some? && live.consent.value in BINDING_CONSENT {
      row := row.(consent := live.consent);
    }
    row := row.(expiresAt := Earliest(row.expiresAt, live.expiresAt));
    if live.legalHold == 1 {
      row := row.(legalHold := 1);
    }
    if live.tombstonedAt.Some? {
      row := row.(tombstonedAt := live.tombstonedAt, tombstoneReason := live.tombstoneReason);
    }
    return Ok(row);
  }

  predicate Expired(m: Meta, now: int) {
    m.expiresAt.Some? && m.expiresAt.value <= now
  }

  /** Any non-zero value holds: it is what a governed delete refuses. */
  predicate Held(m: Meta) {
    m.legalHold != 0
  }

  /** Everything but the hold: `b` permits nothing that `a` forbids. */
  ghost predicate TermsKept(a: Meta, b: Meta) {
    && Rank(b.trust) <= Rank(a.trust)
    && (a.classification == b.classification
        || (ClassRank(a.classification).Some? && ClassRank(b.classification).Some?
            && ClassRank(a.classification).value <= ClassRank(b.classification).value))
    && (forall now :: Expired(a, now) ==> Expired(b, now))
    && (a.scope == "project" ==> b.scope == "project")
    && (a.consent.Some? && a.consent.value in BINDING_CONSENT ==> b.consent == a.consent)
    && (a.residency.Some? ==> b.residency == a.residency)
    && (a.retention.Some? ==> b.retention == a.retention)
    && (a.tombstonedAt.Some? ==> b.tombstonedAt == a.tombstonedAt && b.tombstoneReason == a.tombstoneReason)
    && a.namespace == b.namespace && a.sourceType == b.sourceType && a.writer == b.writer
  }

  /** `b` permits nothing that `a` forbids. */
  ghost predicate NoLooser(a: Meta, b: Meta) {
    TermsKept(a, b) && (Held(a) ==> Held(b))
  }

  function Least(a: nat, b: nat): nat {
    if a <= b then a else b
  }

  function Greatest(a: nat, b: nat): nat {
    if a <= b then b else a
  }

  /** The merge carries over a hold recorded as 1 only, though any non-zero value blocks deletion.  The program
      itself writes 0 and 1; an imported row may hold another number. */
  predicate HoldCarries(live: Meta, row: Meta) {
    live.legalHold in {0, 1} || Held(row)
  }

  /** Each field of a merge is the stricter of the two, except that a hold recorded as neither 0 nor 1 is lost on
      a row without one: the merge is no looser exactly when that does not happen.  A time is past the merged
      expiry exactly when it is past either one. */
  lemma MergeIsStricter(live: Meta, row: Meta, m: Meta)
    requires MergeMeta(live, row) == Ok(m)
    ensures TermsKept(live, m) && (NoLooser(live, m) <==> HoldCarries(live, row))
    ensures Rank(m.trust) == Least(Rank(live.trust), Rank(row.trust))
    ensures ClassRank(live.classification).Some? && ClassRank(row.classification).Some? ==>
      ClassRank(m.classification) == Some(Greatest(ClassRank(live.classification).value, ClassRank(row.classification).value))
    ensures forall now :: Expired(m, now) <==> Expired(live, now) || Expired(row, now)
    ensures Held(m) <==> live.legalHold == 1 || Held(row)
    ensures m.scope == "project" <==> live.scope == "project" || row.scope == "project"
    ensures m.tombstonedAt.Some? <==> live.tombstonedAt.Some? || row.tombstonedAt.Some?
  {
    hide Position;
  }

  /** What the live row does not bind comes from the saved one, so a merge makes nothing up; and what the saved row fills
      in is kept. */
  lemma MergeTakesFromEither(live: Meta, row: Meta, m: Meta)
    requires MergeMeta(live, row) == Ok(m)
    ensures m.namespace == row.namespace && m.sourceType == row.sourceType && m.writer == row.writer
    ensures (row.residency.Some? ==> m.residency == row.residency) && (live.residency.None? ==> m.residency == row.residency)
    ensures (row.retention.Some? ==> m.retention == row.retention) && (live.retention.None? ==> m.retention == row.retention)
    ensures m.scope == (if live.scope == "project" then live.scope else row.scope)
    ensures m.trust in {live.trust, row.trust} && (Rank(row.trust) <= Rank(live.trust) ==> m.trust == row.trust)
    ensures m.classification in {live.classification, row.classification}
    ensures m.consent == (if live.consent in [Some("denied"), Some("withdrawn"), Some("required")] then live.consent else row.consent)
    ensures m.expiresAt in {live.expiresAt, row.expiresAt}
    ensures live.expiresAt.Some? ==> m.expiresAt.Some? && m.expiresAt.value <= live.expiresAt.value
    ensures row.expiresAt.Some? ==> m.expiresAt.Some? && m.expiresAt.value <= row.expiresAt.value
    ensures Rank(m.trust) <= Rank(live.trust) && Rank(m.trust) <= Rank(row.trust)
    ensures m.classification != row.classification ==>
      ClassRank(row.classification).Some? && ClassRank(live.classification).Some?
      && ClassRank(row.classification).value < ClassRank(live.classification).value
    ensures m.classification == row.classification && ClassRank(live.classification).Some? && ClassRank(row.classification).Some? ==>
      ClassRank(live.classification).value <= ClassRank(row.classification).value
    ensures m.legalHold == (if live.legalHold == 1 then 1 else row.legalHold)
    ensures live.tombstonedAt.None? ==> m.tombstonedAt == row.tombstonedAt && m.tombstoneReason == row.tombstoneReason
    ensures live.tombstonedAt.Some? ==> m.tombstonedAt == live.tombstonedAt && m.tombstoneReason == live.tombstoneReason
  {
    hide Position;
  }

  /** Exactly when a merge is refused: the rows disagree on who wrote them or on a term only one of them could give, or
      their classifications differ and cannot be compared. */
  lemma MergeRefusedIff(live: Meta, row: Meta)
    ensures MergeMeta(live, row).Err? <==>
      || live.namespace != row.namespace || live.sourceType != row.sourceType || live.writer != row.writer
      || (live.residency.Some? && row.residency.Some? && live.residency != row.residency)
      || (live.retention.Some? && row.retention.Some? && live.retention != row.retention)
      || (live.classification != row.classification && !(live.classification in CLASSES && row.classification in CLASSES))
  {
    PositionIff(CLASSES, live.classification);
    PositionIff(CLASSES, row.classification);
  }

  lemma {:induction false} PositionIff(names: seq<string>, s: string)
    ensures Position(names, s).Some? <==> s in names
    ensures Position(names, s).Some? ==> Position(names, s).value < |names| && names[Position(names, s).value] == s
  {
    if names != [] && names[0] != s {
      assert names == [names[0]] + names[1..];
      PositionIff(names[1..], s);
    }
  }

  /** The order of the tiers and of the classes. */
  lemma RanksAre()
    ensures Rank("untrusted") == 0 && Rank("low") == 1 && Rank("medium") == 2 && Rank("high") == 3
    ensures forall trust :: trust !in TIERS ==> Rank(trust) == 0
    ensures ClassRank("public") == Some(0) && ClassRank("internal") == Some(1) && ClassRank("confidential") == Some(2)
    ensures ClassRank("restricted") == Some(3)
  {
    assert TIERS[1..] == ["low", "medium", "high"] && TIERS[1..][1..] == ["medium", "high"] && TIERS[1..][1..][1..] == ["high"];
    assert CLASSES[1..] == ["internal", "confidential", "restricted"] && CLASSES[1..][1..] == ["confidential", "restricted"];
    assert CLASSES[1..][1..][1..] == ["restricted"];
    forall trust | trust !in TIERS ensures Rank(trust) == 0 {
      PositionIff(TIERS, trust);
    }
  }

  /** A hold recorded as 2 is dropped by merging a row without a hold. */
  lemma HoldOfTwoIsDropped(row: Meta)
    requires row.legalHold == 0
    ensures MergeMeta(row.(legalHold := 2), row) == Ok(row) && !NoLooser(row.(legalHold := 2), row)
  {
    hide Position;
    var live := row.(legalHold := 2);
    assert Mergeable(live, row);
    assert MergeMeta(live, row).value == row;
  }

  /** Merging with the same live row again changes nothing. */
  lemma MergeIdempotent(live: Meta, row: Meta, m: Meta)
    requires MergeMeta(live, row) == Ok(m)
    ensures MergeMeta(live, m) == Ok(m)
  {
    hide Position;
    assert Mergeable(live, m);
  }

  lemma TermsKeptTransitive(a: Meta, b: Meta, c: Meta)
    requires TermsKept(a, b) && TermsKept(b, c)
    ensures TermsKept(a, c)
  {
    hide Position;
  }

  /** The live row after a series of merges of historical rows. */
  function MergeAll(live: Meta, rows: seq<Meta>): Result<Meta>
    decreases rows
  {
    if rows == [] then Ok(live)
    else match MergeMeta(live, rows[0])
      case Err(e) => Err(e)
      case Ok(m) => MergeAll(m, rows[1..])
  }

  predicate AnyHoldOfOne(rows: seq<Meta>) {
    exists i | 0 <= i < |rows| :: rows[i].legalHold == 1
  }

  lemma {:induction false} MergeAllHold(live: Meta, rows: seq<Meta>)
    requires MergeAll(live, rows).Ok?
    ensures MergeAll(live, rows).value.legalHold ==
      if live.legalHold == 1 || AnyHoldOfOne(rows) then 1
      else if rows == [] then live.legalHold else rows[|rows| - 1].legalHold
    decreases rows
  {
    hide Mergeable, Rank, MergedClass, Earliest;
    if rows != [] {
      var m, rest := MergeMeta(live, rows[0]).value, rows[1..];
      MergeAllHold(m, rest);
      assert rows == [rows[0]] + rest;
      if AnyHoldOfOne(rest) {
        var i :| 0 <= i < |rest| && rest[i].legalHold == 1;
        assert rows[i + 1].legalHold == 1;
      } else if AnyHoldOfOne(rows) {
        assert forall i :: 0 < i < |rows| ==> rows[i] == rest[i - 1];
      }
    }
  }

  lemma {:induction false} MergeAllKeepsTerms(live: Meta, rows: seq<Meta>)
    requires MergeAll(live, rows).Ok?
    ensures TermsKept(live, MergeAll(live, rows).value)
    decreases rows
  {
    hide TermsKept, Mergeable;
    if rows == [] {
      SameTerms(live);
    } else {
      var m := MergeMeta(live, rows[0]).value;
      MergeIsStricter(live, rows[0], m);
      MergeAllKeepsTerms(m, rows[1..]);
      TermsKeptTransitive(live, m, MergeAll(m, rows[1..]).value);
    }
  }

  lemma SameTerms(m: Meta)
    ensures TermsKept(m, m)
  {
  }

  /** A series of merges loosens nothing if and only if the hold it started from, when recorded as neither 0 nor 1,
      is taken up by a row: some row records 1, or the last one holds. */
  lemma {:induction false} MergesNeverLoosen(live: Meta, rows: seq<Meta>)
    requires MergeAll(live, rows).Ok?
    ensures NoLooser(live, MergeAll(live, rows).value) <==>
      live.legalHold in {0, 1} || rows == [] || AnyHoldOfOne(rows) || Held(rows[|rows| - 1])
  {
    hide TermsKept;
    MergeAllKeepsTerms(live, rows);
    MergeAllHold(live, rows);
  }
}
