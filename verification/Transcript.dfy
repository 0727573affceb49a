/** Session transcripts, their sections, and the spans facts are traced to (src/compress.rs:313-360, 485-515). */
module Transcript {
  import opened Prelude
  import opened Text

  datatype Observation = Observation(id: int, tool: string, input: Option<string>, output: Option<string>)

  /** Byte range of an observation in the transcript. */
  datatype Section = Section(observationId: int, tool: string, start: nat, end: nat, text: string)

  // ---- what the transcript is -------------------------------------------------------------------

  function Rendered(o: Observation): string {
    "## " + o.tool + "\n"
    + (match o.input case Some(input) => "input: " + input + "\n" case None => "")
    + (match o.output case Some(output) => "output: " + output + "\n" case None => "")
    + "\n"
  }

  /** The heading names the tool; input and output follow whole, each when there is one, and an empty line ends it. */
  lemma RenderedReads(o: Observation)
    ensures var t, a := Rendered(o), 3 + |o.tool|;
            var b := a + 1 + (if o.input.Some? then 8 + |o.input.value| else 0);
            var c := b + (if o.output.Some? then 9 + |o.output.value| else 0);
      && |t| == c + 1
      && t[..3] == "## " && t[3..a] == o.tool && t[a] == '\n' && t[c] == '\n'
      && (o.input.Some? ==> t[a + 1..a + 8] == "input: " && t[a + 8..b - 1] == o.input.value && t[b - 1] == '\n')
      && (o.output.Some? ==> t[b..b + 8] == "output: " && t[b + 8..c - 1] == o.output.value && t[c - 1] == '\n')
  {
  }

  function Joined(observations: seq<Observation>): string {
    if observations == [] then "" else Joined(observations[..|observations| - 1]) + Rendered(observations[|observations| - 1])
  }

  function SectionAt(observations: seq<Observation>, i: nat): Section
    requires i < |observations|
  {
    Section(observations[i].id, observations[i].tool,
      ByteLen(Joined(observations[..i])), ByteLen(Joined(observations[..i + 1])), Rendered(observations[i]))
  }

  /** Pushes one observation onto the buffer. */
  method Push(buffer: string, o: Observation) returns (s: string)
    ensures s == buffer + Rendered(o)
  {
    s := buffer + "## ";
    s := s + o.tool;
    s := s + "\n";
    if o.input.Some? {
      s := s + "input: ";
      s := s + o.input.value;
      s := s + "\n";
    }
    if o.output.Some? {
      s := s + "output: ";
      s := s + o.output.value;
      s := s + "\n";
    }
    s := s + "\n";
  }

  method BuildTranscript(observations: seq<Observation>) returns (s: string, sections: seq<Section>)
    ensures s == Joined(observations) && AreSections(sections, observations)
  {
    hide Rendered;
    s, sections := "", [];
    for i := 0 to |observations|
      invariant s == Joined(observations[..i])
      invariant |sections| == i && forall j :: 0 <= j < i ==> sections[j] == SectionAt(observations, j)
    {
      var o := observations[i];
      var first, start := |s|, ByteLen(s);
      s := Push(s, o);
      assert s[first..] == Rendered(o);
      assert observations[..i + 1][..i] == observations[..i];
      sections := sections + [Section(o.id, o.tool, start, ByteLen(s), s[first..])];
    }
    assert observations[..|observations|] == observations;
  }

  /** The sections of a transcript, as the loop leaves them. */
  ghost predicate AreSections(sections: seq<Section>, observations: seq<Observation>) {
    |sections| == |observations| && forall i :: 0 <= i < |sections| ==> sections[i] == SectionAt(observations, i)
  }

  lemma {:induction false} JoinedGrows(observations: seq<Observation>, i: nat)
    requires i <= |observations|
    ensures Joined(observations[..i]) <= Joined(observations)
    decreases |observations| - i
  {
    if i == |observations| {
      assert observations[..i] == observations;
    } else {
      JoinedGrows(observations, i + 1);
      assert observations[..i + 1][..i] == observations[..i];
    }
  }

  lemma {:induction false} PrefixBytes(a: string, t: string)
    requires a <= t
    ensures |Utf8(a)| <= |Utf8(t)| && Utf8(t)[..|Utf8(a)|] == Utf8(a)
  {
    assert t == a + t[|a|..];
    Utf8Joins(a, t[|a|..]);
  }

  /** Sections tile the transcript: each names its observation, is non-empty and holds its text, each begins where the
      one before it ended, the first at 0 and the last at the end. */
  lemma {:induction false} SectionsTile(observations: seq<Observation>, sections: seq<Section>, i: nat)
    requires AreSections(sections, observations) && i < |sections|
    ensures var bytes := Utf8(Joined(observations));
            && sections[i].observationId == observations[i].id && sections[i].tool == observations[i].tool
            && sections[i].text == Rendered(observations[i])
            && sections[i].start < sections[i].end <= |bytes|
            && bytes[sections[i].start..sections[i].end] == Utf8(sections[i].text)
            && sections[i].start == (if i == 0 then 0 else sections[i - 1].end)
            && (i == |sections| - 1 ==> sections[i].end == |bytes|)
  {
    hide Rendered;
    var a, b := Joined(observations[..i]), Joined(observations[..i + 1]);
    var t := Joined(observations);
    assert observations[..i + 1][..i] == observations[..i];
    assert b == a + Rendered(observations[i]);
    JoinedGrows(observations, i + 1);
    PrefixBytes(b, t);
    Utf8Joins(a, Rendered(observations[i]));
    Utf8Length(a);
    Utf8Length(b);
    Utf8Length(t);
    RenderedNotEmpty(observations[i]);
    Utf8Length(Rendered(observations[i]));
    if i == |sections| - 1 {
      assert observations[..i + 1] == observations;
    }
  }

  lemma RenderedNotEmpty(o: Observation)
    ensures |Rendered(o)| > 0
  {
  }

  // ---- tracing a fact to its source ---------------------------------------------------------------

  predicate MatchesAt(haystack: seq<byte>, needle: seq<byte>, i: nat) {
    i + |needle| <= |haystack| && haystack[i..i + |needle|] == needle
  }

  /** The text stands at `i`, up to the case of its ASCII letters. */
  ghost predicate ReadsAt(transcript: seq<byte>, text: seq<byte>, i: nat) {
    i + |text| <= |transcript| && forall k :: 0 <= k < |text| ==> SameLetter(transcript[i + k], text[k])
  }

  lemma ReadsAtIff(transcript: seq<byte>, text: seq<byte>, i: nat)
    ensures MatchesAt(Lower(transcript), Lower(text), i) <==> ReadsAt(transcript, text, i)
  {
    if i + |text| <= |transcript| {
      var part := transcript[i..i + |text|];
      assert Lower(transcript)[i..i + |text|] == Lower(part);
      LowerIff(part, text);
    }
  }

  /** First occurrence of `needle`. */
  method Find(haystack: seq<byte>, needle: seq<byte>) returns (at: Option<nat>)
    ensures at.None? ==> forall i: nat :: !MatchesAt(haystack, needle, i)
    ensures at.Some? ==> MatchesAt(haystack, needle, at.value) && forall i: nat :: i < at.value ==> !MatchesAt(haystack, needle, i)
  {
    if |needle| > |haystack| {
      return None;
    }
    for i := 0 to |haystack| - |needle| + 1
      invariant forall j: nat :: j < i ==> !MatchesAt(haystack, needle, j)
    {
      if haystack[i..i + |needle|] == needle {
        return Some(i);
      }
    }
    return None;
  }

  const MIN_NEEDLE: nat := 8
  const MIN_OVERLAP: nat := 2

  function Overlap(terms: set<string>, section: Section, termsOf: string -> set<string>): nat {
    |terms * termsOf(section.text)|
  }

  ghost predicate IsMatch(needle: string, transcript: string, span: (nat, nat)) {
    && |needle| >= MIN_NEEDLE && span.1 == span.0 + |Utf8(needle)|
    && MatchesAt(Lower(Utf8(transcript)), Lower(Utf8(needle)), span.0)
    && forall i: nat :: i < span.0 ==> !MatchesAt(Lower(Utf8(transcript)), Lower(Utf8(needle)), i)
  }

  ghost predicate NoMatch(needle: string, transcript: string) {
    |needle| >= MIN_NEEDLE ==> forall i: nat :: !MatchesAt(Lower(Utf8(transcript)), Lower(Utf8(needle)), i)
  }

  ghost predicate IsBestSection(needle: string, sections: seq<Section>, termsOf: string -> set<string>, k: nat) {
    && k < |sections| && Overlap(termsOf(needle), sections[k], termsOf) >= MIN_OVERLAP
    && (forall j :: 0 <= j < |sections| ==> Overlap(termsOf(needle), sections[j], termsOf) <= Overlap(termsOf(needle), sections[k], termsOf))
    && (forall j :: 0 <= j < k ==> Overlap(termsOf(needle), sections[j], termsOf) < Overlap(termsOf(needle), sections[k], termsOf))
  }

  ghost predicate IsBestSpan(needle: string, transcript: string, sections: seq<Section>, termsOf: string -> set<string>, span: Option<(nat, nat)>) {
    match span
    case None =>
      && NoMatch(needle, transcript)
      && forall k :: 0 <= k < |sections| ==> Overlap(termsOf(needle), sections[k], termsOf) < MIN_OVERLAP
    case Some(s) =>
      || IsMatch(needle, transcript, s)
      || (NoMatch(needle, transcript)
          && exists k: nat :: IsBestSection(needle, sections, termsOf, k) && s == (sections[k].start, sections[k].end))
  }

  /** A text has one best span, or none. */
  lemma BestSpanUnique(needle: string, transcript: string, sections: seq<Section>, termsOf: string -> set<string>,
                       a: Option<(nat, nat)>, b: Option<(nat, nat)>)
    requires IsBestSpan(needle, transcript, sections, termsOf, a) && IsBestSpan(needle, transcript, sections, termsOf, b)
    ensures a == b
  {
    hide Overlap, MatchesAt, Lower, Utf8;
  }

  /** `best_source_span`: the first match of the trimmed text up to ASCII case, else the first section that
      shares the most content words, at least two.  `termsOf` extracts the content words. */
  method BestSourceSpan(text: string, transcript: string, sections: seq<Section>, termsOf: string -> set<string>)
    returns (span: Option<(nat, nat)>)
    ensures IsBestSpan(Trim(text), transcript, sections, termsOf, span)
  {
    var needle := Trim(text);
    if |needle| >= MIN_NEEDLE {
      var at := Find(Lower(Utf8(transcript)), Lower(Utf8(needle)));
      if at.Some? {
        return Some((at.value, at.value + |Utf8(needle)|));
      }
    }
    var terms := termsOf(needle);
    if terms == {} {
      forall k | 0 <= k < |sections| ensures Overlap(terms, sections[k], termsOf) == 0 {
        assert terms * termsOf(sections[k].text) == {};
      }
      return None;
    }
    var best: Option<(nat, nat, nat)> := None;
    ghost var k: nat := 0;
    for i := 0 to |sections|
      invariant best.None? ==> forall j :: 0 <= j < i ==> Overlap(terms, sections[j], termsOf) < MIN_OVERLAP
      invariant best.Some? ==>
        && k < i && best.value == (Overlap(terms, sections[k], termsOf), sections[k].start, sections[k].end)
        && best.value.0 >= MIN_OVERLAP
        && (forall j :: 0 <= j < i ==> Overlap(terms, sections[j], termsOf) <= best.value.0)
        && (forall j :: 0 <= j < k ==> Overlap(terms, sections[j], termsOf) < best.value.0)
    {
      var overlap := Overlap(terms, sections[i], termsOf);
      if overlap >= MIN_OVERLAP && (best.None? || overlap > best.value.0) {
        best := Some((overlap, sections[i].start, sections[i].end));
        k := i;
      }
    }
    if best.Some? {
      assert IsBestSection(needle, sections, termsOf, k);
      return Some((best.value.1, best.value.2));
    }
    return None;
  }

  /** Every span lies inside the transcript and is not empty; its bytes match the trimmed text up to ASCII case,
      or are a whole section. */
  lemma {:induction false} SpanIsSound(needle: string, observations: seq<Observation>, sections: seq<Section>, termsOf: string -> set<string>, span: (nat, nat))
    requires AreSections(sections, observations)
    requires IsMatch(needle, Joined(observations), span)
          || exists k: nat :: IsBestSection(needle, sections, termsOf, k) && span == (sections[k].start, sections[k].end)
    ensures var bytes := Utf8(Joined(observations));
            && span.0 < span.1 <= |bytes|
            && (Lower(bytes[span.0..span.1]) == Lower(Utf8(needle))
                || exists k :: 0 <= k < |sections| && bytes[span.0..span.1] == Utf8(sections[k].text))
  {
    hide Utf8, ByteLen, Joined, Overlap, Rendered;
    var bytes := Utf8(Joined(observations));
    if IsMatch(needle, Joined(observations), span) {
      Utf8Length(needle);
      assert |Lower(Utf8(needle))| == |Utf8(needle)|;
      assert Lower(bytes)[span.0..span.1] == Lower(bytes[span.0..span.1]);
    } else {
      var k: nat :| IsBestSection(needle, sections, termsOf, k) && span == (sections[k].start, sections[k].end);
      SectionsTile(observations, sections, k);
    }
  }

  ghost predicate Reads(text: string, observations: seq<Observation>, i: nat) {
    ReadsAt(Utf8(Joined(observations)), Utf8(text), i)
  }

  ghost function Shared(text: string, o: Observation, termsOf: string -> set<string>): nat {
    |termsOf(text) * termsOf(Rendered(o))|
  }

  /** The observation shares the most content words with the text, and none before it as many. */
  ghost predicate SharesMost(text: string, observations: seq<Observation>, termsOf: string -> set<string>, k: nat) {
    && k < |observations|
    && forall j :: 0 <= j < |observations| ==>
         && Shared(text, observations[j], termsOf) <= Shared(text, observations[k], termsOf)
         && (j < k ==> Shared(text, observations[j], termsOf) < Shared(text, observations[k], termsOf))
  }

  /** Where the best span is: with eight characters or more at the first place the transcript reads like the text;
      else, at the first observation that shares the most content words when that is two or more; and nowhere else. */
  lemma {:induction false} BestSpanIs(text: string, observations: seq<Observation>, sections: seq<Section>, termsOf: string -> set<string>, span: Option<(nat, nat)>)
    requires AreSections(sections, observations) && IsBestSpan(text, Joined(observations), sections, termsOf, span)
    ensures span.None? <==> (|text| >= 8 ==> forall i: nat :: !Reads(text, observations, i))
                            && forall k :: 0 <= k < |observations| ==> Shared(text, observations[k], termsOf) < 2
    ensures span.Some? && |text| >= 8 && (exists i: nat :: Reads(text, observations, i)) ==>
      && Reads(text, observations, span.value.0) && span.value.1 == span.value.0 + |Utf8(text)|
      && forall i: nat :: i < span.value.0 ==> !Reads(text, observations, i)
    ensures span.Some? && (|text| >= 8 ==> forall i: nat :: !Reads(text, observations, i)) ==>
      exists k: nat :: SharesMost(text, observations, termsOf, k) && span.value == (sections[k].start, sections[k].end)
  {
    hide Utf8, Joined, ByteLen, Rendered, Lower, ReadsAt, MatchesAt;
    forall i: nat ensures Reads(text, observations, i) <==> MatchesAt(Lower(Utf8(Joined(observations))), Lower(Utf8(text)), i) {
      ReadsAtIff(Utf8(Joined(observations)), Utf8(text), i);
    }
    assert forall k :: 0 <= k < |sections| ==> Overlap(termsOf(text), sections[k], termsOf) == Shared(text, observations[k], termsOf);
    if NoMatch(text, Joined(observations)) && span.Some? {
      var k: nat :| IsBestSection(text, sections, termsOf, k) && span.value == (sections[k].start, sections[k].end);
      assert SharesMost(text, observations, termsOf, k);
    }
  }
}
