/** Memory chunks and their expansion back to the exact source bytes (src/compress.rs:517-624,
    src/expansion.rs:55-114). */
module Expansion {
  import opened Prelude
  import opened Text
  import opened Transcript

  /** Blobs are named by the SHA-256 of their bytes. */
  datatype BlobId = BlobId(content: seq<byte>)

  datatype ChunkId = Overview | Fact(n: nat) | Procedure(n: nat) | Observed(observation: int)

  datatype Chunk = Chunk(
    id: ChunkId,
    memoryId: int,
    ordinal: int,
    summary: string,
    sourceHash: Option<BlobId>,
    start: Option<int>,
    end: Option<int>)

  // ---- building chunks ----------------------------------------------------------------------------

  /** A traced span is inside the source and not empty, and holds the fact's words or a whole section. */
  ghost predicate Traced(text: string, observations: seq<Observation>, start: int, end: int) {
    var bytes := Utf8(Joined(observations));
    && 0 <= start < end <= |bytes|
    && (Lower(bytes[start..end]) == Lower(Utf8(Trim(text)))
        || exists k :: 0 <= k < |observations| && bytes[start..end] == Utf8(Rendered(observations[k])))
  }

  function SpanOf(c: Chunk): Option<(nat, nat)> {
    if c.start.Some? && c.end.Some? && c.start.value >= 0 && c.end.value >= 0 then Some((c.start.value, c.end.value)) else None
  }

  /** Source hash and span come together, and only with a sound span.  With a stored transcript the span is the best
      one the text has there, and only a text without any stays untraced. */
  ghost predicate IsDerived(c: Chunk, text: string, observations: seq<Observation>, source: Option<BlobId>, termsOf: string -> set<string>) {
    && c.summary == Trim(text)
    && (c.sourceHash.Some? <==> c.start.Some?) && (c.start.Some? <==> c.end.Some?)
    && (c.start.Some? ==> c.sourceHash == source && Traced(text, observations, c.start.value, c.end.value))
    && if source.Some? && observations != []
       then IsBestSpan(Trim(text), Joined(observations), SectionsOf(observations), termsOf, SpanOf(c))
       else c.start.None?
  }

  function SectionsOf(observations: seq<Observation>): seq<Section> {
    seq(|observations|, i requires 0 <= i < |observations| => SectionAt(observations, i))
  }

  predicate IsObserved(c: Chunk, observations: seq<Observation>, i: nat, source: Option<BlobId>)
    requires i < |observations|
  {
    var s := SectionAt(observations, i);
    c.id == Observed(s.observationId) && c.sourceHash == source && c.start == Some(s.start) && c.end == Some(s.end)
  }

  ghost predicate FactAt(chunks: seq<Chunk>, at: nat, i: nat, facts: seq<string>, observations: seq<Observation>, source: Option<BlobId>, termsOf: string -> set<string>) {
    at + i < |chunks| && i < |facts| && chunks[at + i].id == Fact(i + 1) && IsDerived(chunks[at + i], facts[i], observations, source, termsOf)
  }

  ghost predicate ProcedureAt(chunks: seq<Chunk>, at: nat, i: nat, procedures: seq<string>, observations: seq<Observation>, source: Option<BlobId>, termsOf: string -> set<string>) {
    at + i < |chunks| && i < |procedures| && chunks[at + i].id == Procedure(i + 1) && IsDerived(chunks[at + i], procedures[i], observations, source, termsOf)
  }

  predicate ObservedAt(chunks: seq<Chunk>, at: nat, i: nat, observations: seq<Observation>, source: Option<BlobId>) {
    at + i < |chunks| && i < |observations| && IsObserved(chunks[at + i], observations, i, source)
  }

  /** The chunk list of a memory: overview, facts, procedures, then one chunk per observation when the source
      is stored. */
  ghost predicate IsSkim(chunks: seq<Chunk>, facts: seq<string>, procedures: seq<string>, observations: seq<Observation>, source: Option<BlobId>, termsOf: string -> set<string>) {
    var middle, base := 1 + |facts|, 1 + |facts| + |procedures|;
    && |chunks| == base + (if source.Some? then |observations| else 0)
    && chunks[0].id == Overview && chunks[0].sourceHash.None?
    && (forall i: nat :: i < |facts| ==> FactAt(chunks, 1, i, facts, observations, source, termsOf))
    && (forall i: nat :: i < |procedures| ==> ProcedureAt(chunks, middle, i, procedures, observations, source, termsOf))
    && (source.Some? ==> forall i: nat :: i < |observations| ==> ObservedAt(chunks, base, i, observations, source))
  }

  /** The chunks of one memory, ordinals from 0 without a gap. */
  ghost predicate Numbered(chunks: seq<Chunk>, memoryId: int) {
    forall i :: 0 <= i < |chunks| ==> chunks[i].ordinal == i && chunks[i].memoryId == memoryId
  }

  lemma NumberedOne(c: Chunk)
    requires c.ordinal == 0
    ensures Numbered([c], c.memoryId)
  {
  }

  lemma NumberedSnoc(chunks: seq<Chunk>, c: Chunk)
    requires Numbered(chunks, c.memoryId) && c.ordinal == |chunks|
    ensures Numbered(chunks + [c], c.memoryId)
  {
  }

  /** The chunks from `base` on sum up the observations. */
  ghost predicate Summarized(chunks: seq<Chunk>, base: nat, observations: seq<Observation>, summarize: string -> string) {
    && |chunks| <= base + |observations|
    && forall i :: base <= i < |chunks| ==> chunks[i].summary == summarize(Rendered(observations[i - base]))
  }

  lemma SummarizedNone(chunks: seq<Chunk>, base: nat, observations: seq<Observation>, summarize: string -> string)
    requires |chunks| <= base
    ensures Summarized(chunks, base, observations, summarize)
  {
  }

  lemma SummarizedSnoc(chunks: seq<Chunk>, c: Chunk, base: nat, observations: seq<Observation>, summarize: string -> string)
    requires Summarized(chunks, base, observations, summarize) && base <= |chunks| < base + |observations|
    requires c.summary == summarize(Rendered(observations[|chunks| - base]))
    ensures Summarized(chunks + [c], base, observations, summarize)
  {
    hide Rendered;
  }

  /** The chunk of a fact or procedure, traced when there is a transcript. */
  method DeriveChunk(id: ChunkId, memoryId: int, ordinal: int, text: string, transcript: string, sections: seq<Section>,
                     observations: seq<Observation>, source: Option<BlobId>, termsOf: string -> set<string>)
    returns (c: Chunk)
    requires source.Some? && observations != [] ==> transcript == Joined(observations) && AreSections(sections, observations)
    ensures c.id == id && c.memoryId == memoryId && c.ordinal == ordinal && IsDerived(c, text, observations, source, termsOf)
  {
    var span: Option<(nat, nat)> := None;
    if source.Some? && observations != [] {
      span := BestSourceSpan(text, transcript, sections, termsOf);
      assert sections == SectionsOf(observations);
      if span.Some? {
        SpanIsSound(Trim(text), observations, sections, termsOf, span.value);
      }
    }
    c := Chunk(id, memoryId, ordinal, Trim(text),
      if span.Some? then source else None,
      if span.Some? then Some(span.value.0) else None,
      if span.Some? then Some(span.value.1) else None);
  }

  /** `persist_memory_skim`.  `summarize` stands for the word-clipping of summaries. */
  method BuildChunks(memoryId: int, summary: string, facts: seq<string>, procedures: seq<string>,
                     observations: seq<Observation>, source: Option<BlobId>,
                     termsOf: string -> set<string>, summarize: string -> string)
    returns (chunks: seq<Chunk>)
    ensures IsSkim(chunks, facts, procedures, observations, source, termsOf)
    ensures Numbered(chunks, memoryId) && chunks[0].summary == summarize(summary)
    ensures Summarized(chunks, 1 + |facts| + |procedures|, observations, summarize)
  {
    hide IsDerived, SectionAt, Rendered, IsObserved, Numbered, Summarized;
    var transcript: string, sections: seq<Section> := "", [];
    if source.Some? && observations != [] {
      transcript, sections := BuildTranscript(observations);
      SectionTexts(sections, observations);
    }
    var overview := Chunk(Overview, memoryId, 0, summarize(summary), None, None, None);
    chunks := [overview];
    assert Numbered(chunks, memoryId) by {
      NumberedOne(overview);
    }
    var ordinal := 1;
    for i := 0 to |facts|
      invariant ordinal == |chunks| == 1 + i && chunks[0] == overview
      invariant Numbered(chunks, memoryId)
      invariant forall k: nat :: k < i ==> FactAt(chunks, 1, k, facts, observations, source, termsOf)
    {
      var c := DeriveChunk(Fact(i + 1), memoryId, ordinal, facts[i], transcript, sections, observations, source, termsOf);
      FactsKept(chunks, c, 1, facts, observations, source, termsOf);
      NumberedSnoc(chunks, c);
      chunks := chunks + [c];
      ordinal := ordinal + 1;
    }
    var middle, base := 1 + |facts|, 1 + |facts| + |procedures|;
    for i := 0 to |procedures|
      invariant ordinal == |chunks| == middle + i && chunks[0] == overview
      invariant Numbered(chunks, memoryId)
      invariant forall k: nat :: k < |facts| ==> FactAt(chunks, 1, k, facts, observations, source, termsOf)
      invariant forall k: nat :: k < i ==> ProcedureAt(chunks, middle, k, procedures, observations, source, termsOf)
    {
      var c := DeriveChunk(Procedure(i + 1), memoryId, ordinal, procedures[i], transcript, sections, observations, source, termsOf);
      FactsKept(chunks, c, 1, facts, observations, source, termsOf);
      ProceduresKept(chunks, c, middle, procedures, observations, source, termsOf);
      NumberedSnoc(chunks, c);
      chunks := chunks + [c];
      ordinal := ordinal + 1;
    }
    SummarizedNone(chunks, base, observations, summarize);
    if source.Some? && sections != [] {
      for i := 0 to |sections|
        invariant ordinal == |chunks| == base + i && chunks[0] == overview
        invariant Numbered(chunks, memoryId)
        invariant Summarized(chunks, base, observations, summarize)
        invariant forall k: nat :: k < |facts| ==> FactAt(chunks, 1, k, facts, observations, source, termsOf)
        invariant forall k: nat :: k < |procedures| ==> ProcedureAt(chunks, middle, k, procedures, observations, source, termsOf)
        invariant forall k: nat :: k < i ==> ObservedAt(chunks, base, k, observations, source)
      {
        var s := sections[i];
        var c := Chunk(Observed(s.observationId), memoryId, ordinal, summarize(s.text), source, Some(s.start), Some(s.end));
        SectionIsObserved(c, sections, observations, i, source);
        FactsKept(chunks, c, 1, facts, observations, source, termsOf);
        ProceduresKept(chunks, c, middle, procedures, observations, source, termsOf);
        ObservedKept(chunks, c, base, observations, source);
        NumberedSnoc(chunks, c);
        SummarizedSnoc(chunks, c, base, observations, summarize);
        chunks := chunks + [c];
        ordinal := ordinal + 1;
      }
    }
  }

  lemma SectionTexts(sections: seq<Section>, observations: seq<Observation>)
    requires AreSections(sections, observations)
    ensures forall i :: 0 <= i < |sections| ==> sections[i].text == Rendered(observations[i])
  {
    hide Rendered, Joined;
  }

  lemma SectionIsObserved(c: Chunk, sections: seq<Section>, observations: seq<Observation>, i: nat, source: Option<BlobId>)
    requires AreSections(sections, observations) && i < |sections|
    requires c.id == Observed(sections[i].observationId) && c.sourceHash == source
    requires c.start == Some(sections[i].start) && c.end == Some(sections[i].end)
    ensures IsObserved(c, observations, i, source)
  {
    hide Rendered, Joined;
  }

  lemma FactsKept(chunks: seq<Chunk>, c: Chunk, at: nat, facts: seq<string>, observations: seq<Observation>, source: Option<BlobId>, termsOf: string -> set<string>)
    ensures forall k: nat :: FactAt(chunks, at, k, facts, observations, source, termsOf) ==> FactAt(chunks + [c], at, k, facts, observations, source, termsOf)
  {
    hide IsDerived;
  }

  lemma ProceduresKept(chunks: seq<Chunk>, c: Chunk, at: nat, procedures: seq<string>, observations: seq<Observation>, source: Option<BlobId>, termsOf: string -> set<string>)
    ensures forall k: nat ::
      ProcedureAt(chunks, at, k, procedures, observations, source, termsOf) ==> ProcedureAt(chunks + [c], at, k, procedures, observations, source, termsOf)
  {
    hide IsDerived;
  }

  lemma ObservedKept(chunks: seq<Chunk>, c: Chunk, at: nat, observations: seq<Observation>, source: Option<BlobId>)
    ensures forall k: nat :: ObservedAt(chunks, at, k, observations, source) ==> ObservedAt(chunks + [c], at, k, observations, source)
  {
    hide IsObserved;
  }

  // ---- expansion ------------------------------------------------------------------------------------

  datatype Expanded = Expanded(hash: Option<BlobId>, bytes: seq<byte>, start: Option<int>, end: Option<int>)

  function NotBelow(a: int, least: int): int {
    if a < least then least else a
  }

  /** `retrieve_chunk`: the slice of the source, the whole source, the session transcript, or the summary. */
  function Expand(c: Chunk, blobs: set<BlobId>, sessionBlobs: map<int, BlobId>): Result<Expanded> {
    if c.sourceHash.Some? then
      var hash := c.sourceHash.value;
      if hash !in blobs then Err("blob not found")
      else if c.start.Some? && c.end.Some?
              && NotBelow(c.end.value, NotBelow(c.start.value, 0)) <= |hash.content| then
        var start := NotBelow(c.start.value, 0);
        Ok(Expanded(Some(hash), hash.content[start..NotBelow(c.end.value, start)], c.start, c.end))
      else Ok(Expanded(Some(hash), hash.content, None, None))
    else if c.memoryId in sessionBlobs then
      var hash := sessionBlobs[c.memoryId];
      if hash !in blobs then Err("blob not found") else Ok(Expanded(Some(hash), hash.content, None, None))
    else Ok(Expanded(None, Utf8(c.summary), None, None))
  }

  /** What a chunk that names a source expands to: the bytes from its start to its end, when there are both and they lie
      in the source, with a start below 0 read as 0 and an end before the start as the start; else the whole source. */
  lemma SourceExpands(c: Chunk, blobs: set<BlobId>, sessionBlobs: map<int, BlobId>)
    requires c.sourceHash.Some?
    ensures var e, content := Expand(c, blobs, sessionBlobs), c.sourceHash.value.content;
      && (e.Ok? <==> c.sourceHash.value in blobs)
      && (e.Ok? ==> e.value.hash == c.sourceHash)
      && (e.Ok? && (c.start.None? || c.end.None?) ==> e.value.bytes == content && e.value.start.None? && e.value.end.None?)
      && (e.Ok? && c.start.Some? && c.end.Some? ==>
            var from, to := Max(0, c.start.value), Max(Max(0, c.start.value), c.end.value);
            if to <= |content| then
              && e.value.start == c.start && e.value.end == c.end && |e.value.bytes| == to - from
              && forall i :: from <= i < to ==> e.value.bytes[i - from] == content[i]
            else e.value.bytes == content && e.value.start.None? && e.value.end.None?)
  {
  }

  /** A chunk without a source expands to the transcript of its memory's session, or else to its own summary. */
  lemma SourcelessExpands(c: Chunk, blobs: set<BlobId>, sessionBlobs: map<int, BlobId>)
    requires c.sourceHash.None?
    ensures var e := Expand(c, blobs, sessionBlobs);
      && (e.Err? <==> c.memoryId in sessionBlobs && sessionBlobs[c.memoryId] !in blobs)
      && (e.Ok? ==> e.value.start.None? && e.value.end.None?)
      && (e.Ok? && c.memoryId in sessionBlobs ==>
            e.value.hash == Some(sessionBlobs[c.memoryId]) && e.value.bytes == sessionBlobs[c.memoryId].content)
      && (c.memoryId !in sessionBlobs ==> e.Ok? && e.value.hash.None? && e.value.bytes == Utf8(c.summary))
  {
  }

  /** With the transcript stored both as source and as the session's blob, a fact or procedure expands to where it was
      traced, and one without a trace, like the overview, to the whole transcript. */
  lemma {:induction false} UntracedExpandsToSession(c: Chunk, text: string, observations: seq<Observation>, termsOf: string -> set<string>,
                                 blobs: set<BlobId>, sessionBlobs: map<int, BlobId>)
    requires observations != []
    requires var source := BlobId(Utf8(Joined(observations)));
             && IsDerived(c, text, observations, Some(source), termsOf) && source in blobs
             && c.memoryId in sessionBlobs && sessionBlobs[c.memoryId] == source
    ensures Expand(c, blobs, sessionBlobs).Ok?
    ensures Expand(c, blobs, sessionBlobs).value.start.None? <==>
      && (|Trim(text)| >= 8 ==> forall i: nat :: !Reads(Trim(text), observations, i))
      && forall k :: 0 <= k < |observations| ==> Shared(Trim(text), observations[k], termsOf) < 2
    ensures var e := Expand(c, blobs, sessionBlobs).value;
            e.start.None? ==> e.bytes == Utf8(Joined(observations))
  {
    hide Utf8, Joined, ByteLen, Trim, Reads, Shared;
    BestSpanIs(Trim(text), observations, SectionsOf(observations), termsOf, SpanOf(c));
  }

  /** Expanding an observation chunk gives back exactly the bytes of that observation's section. */
  lemma {:induction false} ObservationExpandsExactly(chunks: seq<Chunk>, facts: seq<string>, procedures: seq<string>, observations: seq<Observation>,
                                  termsOf: string -> set<string>,
                                  blobs: set<BlobId>, sessionBlobs: map<int, BlobId>, i: nat)
    requires var source := BlobId(Utf8(Joined(observations)));
             IsSkim(chunks, facts, procedures, observations, Some(source), termsOf) && source in blobs && i < |observations|
    ensures var c := chunks[1 + |facts| + |procedures| + i];
            Expand(c, blobs, sessionBlobs) == Ok(Expanded(c.sourceHash, Utf8(Rendered(observations[i])), c.start, c.end))
  {
    hide Rendered, Utf8, ByteLen, Joined;
    var c := chunks[1 + |facts| + |procedures| + i];
    var sections := SectionsOf(observations);
    assert ObservedAt(chunks, 1 + |facts| + |procedures|, i, observations, Some(BlobId(Utf8(Joined(observations)))));
    SectionsTile(observations, sections, i);
  }

  function Rejoined(chunks: seq<Chunk>, blobs: set<BlobId>, sessionBlobs: map<int, BlobId>): seq<byte> {
    if chunks == [] then []
    else
      var e := Expand(chunks[|chunks| - 1], blobs, sessionBlobs);
      Rejoined(chunks[..|chunks| - 1], blobs, sessionBlobs) + (if e.Ok? then e.value.bytes else [])
  }

  lemma {:induction false} RejoinedPrefix(chunks: seq<Chunk>, observations: seq<Observation>, n: nat,
                                          blobs: set<BlobId>, sessionBlobs: map<int, BlobId>)
    requires |chunks| == |observations| && n <= |observations|
    requires forall i :: 0 <= i < |chunks| ==>
      Expand(chunks[i], blobs, sessionBlobs).Ok? && Expand(chunks[i], blobs, sessionBlobs).value.bytes == Utf8(Rendered(observations[i]))
    ensures Rejoined(chunks[..n], blobs, sessionBlobs) == Utf8(Joined(observations[..n]))
  {
    hide Rendered, Expand;
    if n > 0 {
      RejoinedPrefix(chunks, observations, n - 1, blobs, sessionBlobs);
      assert chunks[..n][..n - 1] == chunks[..n - 1] && observations[..n][..n - 1] == observations[..n - 1];
      Utf8Joins(Joined(observations[..n - 1]), Rendered(observations[n - 1]));
    }
  }

  /** Round trip: the expansions of all observation chunks, in order, are the whole transcript. */
  lemma ExpansionsRejoin(chunks: seq<Chunk>, facts: seq<string>, procedures: seq<string>, observations: seq<Observation>,
                         termsOf: string -> set<string>,
                         blobs: set<BlobId>, sessionBlobs: map<int, BlobId>)
    requires var source := BlobId(Utf8(Joined(observations)));
             IsSkim(chunks, facts, procedures, observations, Some(source), termsOf) && source in blobs
    ensures Rejoined(chunks[1 + |facts| + |procedures|..], blobs, sessionBlobs) == Utf8(Joined(observations))
  {
    hide Rendered, Utf8, Joined, Expand, Rejoined;
    var observed := chunks[1 + |facts| + |procedures|..];
    forall i | 0 <= i < |observed|
      ensures Expand(observed[i], blobs, sessionBlobs).Ok?
           && Expand(observed[i], blobs, sessionBlobs).value.bytes == Utf8(Rendered(observations[i]))
    {
      ObservationExpandsExactly(chunks, facts, procedures, observations, termsOf, blobs, sessionBlobs, i);
    }
    RejoinedPrefix(observed, observations, |observations|, blobs, sessionBlobs);
    assert observed[..|observations|] == observed && observations[..|observations|] == observations;
  }

  /** Expanding a traced fact gives its own words, up to ASCII case, or the whole text of one observation. */
  lemma {:induction false} FactExpandsToEvidence(c: Chunk, text: string, observations: seq<Observation>, termsOf: string -> set<string>, blobs: set<BlobId>, sessionBlobs: map<int, BlobId>)
    requires var source := BlobId(Utf8(Joined(observations)));
             IsDerived(c, text, observations, Some(source), termsOf) && c.sourceHash.Some? && source in blobs
    ensures Expand(c, blobs, sessionBlobs).Ok?
    ensures var bytes := Expand(c, blobs, sessionBlobs).value.bytes;
            Lower(bytes) == Lower(Utf8(Trim(text)))
            || exists k :: 0 <= k < |observations| && bytes == Utf8(Rendered(observations[k]))
  {
    hide Rendered, Utf8, Joined, Trim, Lower;
  }
}
