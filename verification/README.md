# IronMem: a verified model of its state machines

IronMem stores agent memories in SQL tables. Behind the SQL sit state machines with strong promises: project
checkpoints that must load back to exactly what was captured, a bitemporal assertion log, a hash-chained audit
ledger with fork migration, evidence-root lineage, a temporal graph that reconciles itself, exact expansion of
transcript chunks, correction mining and deduplicated delivery counts. This project models those machines in Dafny
and proves their promises for all inputs and all runs. Where ledger writers, edge insertions or governed deletes commit
in several steps, every interleaving is covered: either the promise holds for all of them, or the exact condition on
the interleaving is proved.

Tables are maps, sets and sequences held in class fields, or in one record value where whole runs are compared.
A transaction is an atomic method; where the program commits in several steps those steps are modelled one by one:
lock, read, insert, commit and abort for ledger writers and epoch migrations, row and two updates for edge insertions,
tombstone, ledger entry and row for governed deletes. SHA-256 (section 6.2 of FIPS 180-4) is an injective datatype constructor
over the hashed content, so collision freedom holds by construction and needs no axiom.

`dafny verify dfyconfig.toml` checks the whole project.

## Layout

| file | models |
|---|---|
| Prelude.dfy, Text.dfy, Events.dfy, Records.dfy | options and results; trimming, namespace normalisation and UTF-8; hashed events; database rows, their canonical text and its order |
| Delta.dfy | row differences between project states and their application, with the count-map loops |
| Checkpoint.dfy | envelopes, `validate`, the walk and replay loops of `load`, export and import |
| CheckpointStore.dfy, CheckpointTables.dfy | create, delete, decref, sources and sweeps over runs; the same as statement-by-statement table updates |
| CheckpointRefs.dfy | reference counts over runs |
| BlobGc.dfy | repeated sweeps: what survives and after how many rounds |
| Assertions.dfy, AssertionMerge.dfy, AssertionRows.dfy | the assertion log, its queries, checkpoint validation, the merge made by restore, runs of writes and restores; the same table as database records |
| RestorePolicy.dfy, Visibility.dfy | the governance merge of restore; who can read a memory after any run of inserts, governance, deletes, purges, restores and imports |
| Ledger.dfy, LedgerEvidence.dfy, LedgerEpochs.dfy | chain verification, fork evidence, concurrent writers and forward-only epochs |
| EvidenceRoots.dfy | the evidence-root backfill |
| Graph.dfy, GraphInterleaving.dfy | edge reconciliation at insert time and in the batch sweep; insertions whose three commits interleave |
| Transcript.dfy, Expansion.dfy | transcript sections, source spans, chunks and their expansion |
| Corrections.dfy | error-to-fix mining |
| Access.dfy | delivery counting |

## Where the code does less than one might expect

Each of these is proved, with the exact condition under which the code does meet the promise.

- A delta gives back the next state only up to row order and shared source bytes: `Delta.RoundTrip` holds if and only
  if the next state is canonical and both states agree on shared sources. Every state `create` captures meets both.
- An incremental create can fail where a full one succeeds, namely when a table's columns changed since the head
  (`CheckpointStore.CreateSucceedsIff`).
- Edge insertions that overlap can supersede each other, so that no edge of a key is active and the superseded-by links
  form a cycle (`GraphInterleaving.OverlappingPairLost`). Under every interleaving, once all insertions are done, a row
  is active if and only if every insertion that displaces it came before it and had struck before it was there
  (`GraphInterleaving.ActiveIff`); the active rows are those of uninterrupted insertions if and only if no insertion
  strikes late at a row that nothing later displaces (`GraphInterleaving.ActiveAsAtomicIff`); and the last value of a
  key is held if and only if some row with it is spared (`GraphInterleaving.LastValueHeldIff`). At every point of every
  interleaving a row names the first insertion to strike it (`GraphInterleaving.FirstStrikerMarks`), and the links lead
  from every row through newer ones to an active edge if and only if that is always a newer one
  (`GraphInterleaving.LinksLeadIff`). That no two active edges share a key holds whenever all insertions are done. A
  batch sweep afterwards finds nothing to do, so it brings no lost value back
  (`GraphInterleaving.SweepFindsNothing`).
- A ledger migration checks the hash and the last entry of the evidence it is given. The epoch commits to the whole
  ledger before it if and only if the evidence is a prefix of the ledger (`LedgerEpochs.EpochCommitsToHistory`), which
  evidence built from the ledger always is; the last entry alone passes every check
  (`LedgerEpochs.ShortEvidencePasses`).
- Restore does loosen the policy of a live memory that the checkpoint lists without its governance row: its hold, denied
  consent and expiry are gone (`Visibility.BareRestoreLoosens`). It also drops a hold recorded as a number other than 0
  and 1, which blocks deletion all the same (`RestorePolicy.HoldOfTwoIsDropped`). The policy stays as strict if and only
  if the checkpoint brings a row that takes up the hold (`Visibility.RestoreNeverLoosens`).
- Restore can bring a forgotten memory back when the checkpoint lists the memory without a governance row and no
  tombstone of it remains, or when neither the ledger nor the snapshot list knows it yet; and a purge can free an
  imported id above the high-water mark for reissue. Exactly these steps undo a governed delete
  (`Visibility.StepSealed`, `Visibility.BareRestoreExposes`, `Visibility.PurgedImportIsReissued`).
- A governed delete looks at the hold once, before its first commit, and the look alone decides: whatever holds are
  placed or lifted after it, the memory is gone at the end if and only if the look found none
  (`Visibility.LookDecides`, `Visibility.HoldAfterLook`). Between the tombstone and the removal of the row the memory is
  visible if and only if it has no governance row (`Visibility.TombstoneNeedsRow`).
- A checkpoint counts exactly the snapshots listed on it as long as its bytes are stored and released through create
  and delete only, and is not listed as a whole-brain snapshot: `CheckpointRefs.StepBalances` names the steps that break it.
- A restore rolls back when a governance row meets the leftover row of a removed memory
  (`Visibility.RestoreSucceedsIff`).
- The merged assertion table of a restore validates if and only if in every scope one history extends the other
  (`AssertionMerge.MergeValidIff`).
- Insert-time and batch reconciliation of the graph agree (insert-time active edges stay active) on every history with
  given observation times if and only if the times never run backwards (`Graph.ContainmentNeedsClock`).
- The dry run of the batch sweep predicts the number of active edges if and only if nothing was superseded beforehand
  (`Graph.DryRunPredicts`).
- Blob collection needs one round per generation: a chain of depth d keeps its base through d sweeps
  (`BlobGc.GenerationsGoOneByOne`), and nine rounds always suffice.

## Model

| member | source | states |
|---|---|---|
| Records.CodeInjective | src/checkpoint.rs:263-268 | rows are equal when their canonical text is, events and the histories they link to included: counting rows by text counts rows |
| Records.SortRowsSorts | src/checkpoint.rs:319-321 | the sort after every capture and every applied delta orders the rows and keeps each as often as it was |
| Records.SortedUnique | src/checkpoint.rs:173 | a sorted table is determined by its rows counted with multiplicity |
| Delta.RemoveRowsSubtracts | src/checkpoint.rs:308-315 | removal succeeds exactly when every copy asked for is there, and takes away just those |
| Delta.SurplusIsExcess | src/checkpoint.rs:269-280 | the listed rows are the multiset excess of one table over the other, sorted |
| Delta.DifferenceIsMinimal | src/checkpoint.rs:261-282 | no row is both removed and added, and the two lists account for every change of multiplicity |
| Delta.DifferenceApplies | src/checkpoint.rs:302-332 | a difference always applies to its base, giving the next state with sorted tables and the base's copy of shared sources |
| Delta.RoundTrip | src/checkpoint.rs:249-332 | applying the difference returns the next state if and only if it is canonical and agrees with the base on shared sources |
| Delta.AppliesIff | src/checkpoint.rs:302-332 | any delta, hand-written ones included, applies if and only if it lists the tables of the state and takes away only rows and sources that are there; each table then has its rows less the removed and with the added ones, sorted, and the sources are the kept ones and its own |
| Delta.CountRows | src/checkpoint.rs:263-268 | the counting loop: each row maps to its multiplicity |
| Delta.Excess | src/checkpoint.rs:271-280 | the emission loop: each row as often as one count exceeds the other, in key order |
| Delta.DifferenceTables | src/checkpoint.rs:254-283 | the loop over tables yields both excess lists of every table, or stops at a table whose fields differ |
| Delta.ComputeDifference | src/checkpoint.rs:249-301 | the loops of `difference` compute the specified difference, errors included |
| Delta.ApplyTable | src/checkpoint.rs:308-321 | removing, pushing and sorting one table in place, or failing on an absent row |
| Delta.ApplyInPlace | src/checkpoint.rs:302-332 | the in-place loop over tables and sources computes the specified application, errors included |
| Checkpoint.WalkChain | src/checkpoint.rs:334-353 | the nine-step walk reads exactly the chain prefix; the cycle guard never fires on content-addressed blobs |
| Checkpoint.ReplayChain | src/checkpoint.rs:354-385 | popping the base and applying deltas upward is the recursive replay, with the same errors |
| Checkpoint.ValidateState | src/checkpoint.rs:390-490 | validation: table inventory, column names and types, row schemas, project and memory ownership, source hashes and closure, and the assertion histories |
| Checkpoint.ValidIff | src/checkpoint.rs:390-490 | spelled out: a state passes if and only if all tables but the assertion table are there and none besides, columns are supported, every row fits them, rows belong to the project or to one of its memories, memories are told apart by number, and every source a row names comes with exactly the text its hash was taken of |
| Checkpoint.Load | src/checkpoint.rs:334-388 | walk, replay and validation together, errors included |
| Checkpoint.BuiltDepth | src/checkpoint.rs:538-546 | chains made by create are never deeper than eight and their depth field is their real height |
| Checkpoint.BuiltStep | src/checkpoint.rs:369-385 | replaying one delta on its parent's state passes every check and gives the captured state |
| Checkpoint.ChainReplays | src/checkpoint.rs:354-387 | a whole chain made by create replays to the state its hash commits to |
| Checkpoint.LoadBoundIsTight | src/checkpoint.rs:338-353 | a stored chain loads, to its own state, if and only if the walk may read more envelopes than its depth; nine always suffice |
| Checkpoint.LoadedMatchesHash | src/checkpoint.rs:364-387 | whatever loads, from any store, is the valid state its hash commits to |
| Checkpoint.LoadsIff | src/checkpoint.rs:334-388 | from any store and with any bound on the walk, a hash loads if and only if its envelopes are linked down to a base that carries its whole state, each one level above its parent, naming its parent's state and reached from it by its delta, within the bound, and the state is valid |
| Checkpoint.ExportImports | src/checkpoint.rs:949-990 | an exported checkpoint imports as exactly the state that loads from the store |
| Checkpoint.ImportAcceptsIff | src/checkpoint.rs:976-990 | import accepts a file if and only if it is the full envelope of its valid state, up to the unread parent hash |
| CheckpointStore.FindNewest | src/checkpoint.rs:1012 | the newest snapshot by creation time and then id |
| CheckpointStore.CaptureHolds | src/checkpoint.rs:173-247 | a capture holds the columns of each table as they are, its rows sorted and as often as they were read, the sources as they are, and each audit record once, in order |
| CheckpointStore.IncrementalChoice | src/checkpoint.rs:526-558 | an unchanged project publishes its head again; a changed one a child one level deeper when allowed and smaller; else, or when the set of tables differs, the full state |
| CheckpointStore.HeadMustBeStored | src/checkpoint.rs:526-536 | an incremental create fails when the blob of the head is gone; any other does not look at it |
| CheckpointStore.ChosenIsBuilt | src/checkpoint.rs:516-558 | whichever envelope create picks commits to the captured state and hangs on a stored chain |
| CheckpointStore.CreateSound | src/checkpoint.rs:506-582 | a create keeps the store sound, lists a snapshot standing for the captured state and makes it the head |
| CheckpointStore.CreateSucceedsIff | src/checkpoint.rs:506-558 | create fails only on an invalid capture, a taken id, or an incremental capture whose columns changed since the head |
| CheckpointStore.CreateWrites | src/checkpoint.rs:559-582 | a create adds one reference to the new head's blob and no other, its object, the one dependency its envelope names, and the snapshot with the time given |
| CheckpointStore.DeleteFallsBack | src/checkpoint.rs:1006-1013 | when the head's blob goes, the newest remaining snapshot of the project becomes the head, or there is none |
| CheckpointStore.DeleteCounts | src/checkpoint.rs:993-1005 | a delete is refused exactly for an unknown id, and takes that snapshot and one reference of its blob, if it has any |
| CheckpointStore.DeleteSpares | src/checkpoint.rs:1005-1011 | heads of other projects, and a head on another blob, stay as they are |
| CheckpointStore.DeleteFindsHead | src/checkpoint.rs:1009-1013 | a project without a head gets one back on its newest remaining snapshot |
| CheckpointStore.DeleteSound | src/checkpoint.rs:993-1016 | deleting a snapshot root leaves every other snapshot, head and dependency sound |
| CheckpointStore.AnchoredSurvivesGc | src/db.rs:7750-7761 | a sweep cannot break a chain whose top it does not delete: dependencies pin parents |
| CheckpointStore.GcSound | src/db.rs:7747-7769 | a sweep keeps the store sound whatever live rows pin |
| CheckpointStore.StepSound | src/checkpoint.rs:506-582 | create, delete, decref, blob writes, whole-brain snapshots, restored sources and sweeps each keep the store sound |
| CheckpointStore.SnapshotAlwaysLoads | src/checkpoint.rs:334-388 | after any run, and through any later run that does not delete it, a snapshot loads, to the same tables, sources and audit records that were read when it was created, and keeps its creation time |
| CheckpointStore.DepthCycles | src/checkpoint.rs:526-558 | a project that grows and is captured incrementally from an empty store has heads of depth 0, 1, ..., 8, then a full state again, for ever |
| CheckpointStore.NineReadsNeeded | src/checkpoint.rs:338-353 | after the ninth such capture eight reads do not load the head and nine do |
| CheckpointRefs.StepBalances | src/checkpoint.rs:498-504 | a step keeps each checkpoint's count equal to the snapshots listed on it if and only if it is not a stray write, release or whole-brain listing of a checkpoint |
| CheckpointRefs.RunBalances | src/db.rs:7747-7769 | from an empty store, whatever transcripts and plain blobs come and go, each checkpoint counts exactly its snapshots, and a sweep takes it exactly when no snapshot, head, live row or stored child refers to it |
| CheckpointRefs.DeleteBalances | src/checkpoint.rs:993-1005 | a delete lowers the count of a checkpoint by the one snapshot that goes |
| CheckpointTables.Tables.ChooseEnvelope | src/checkpoint.rs:516-558 | the branches of create pick the specified envelope |
| CheckpointTables.Tables.Create | src/checkpoint.rs:506-582 | the statements of create publish the whole checkpoint or change nothing |
| CheckpointTables.Tables.Delete | src/checkpoint.rs:993-1016 | the statements of delete compute the specified store, or fail on an unknown snapshot |
| CheckpointTables.Tables.RegisterBrain | src/db.rs:7056-7086 | refused exactly for a listed id or bytes not stored; else one project-free snapshot and its object are new, no count moves, and what loads still does |
| CheckpointTables.Tables.StoreBlob | src/db.rs:7617-7644 | the blob is stored with one more reference than it had, no other row moves, and what loads still does |
| CheckpointTables.Tables.Decref | src/db.rs:7726-7734 | no row goes; the one count is lower by one unless it had none to give; what loads still does |
| CheckpointTables.Tables.WriteSources | src/checkpoint.rs:895-901 | each restored source is there afterwards, a new one without a reference; every other blob and every known count is as before |
| CheckpointTables.Tables.Sweep | src/db.rs:7747-7769 | a blob goes exactly when its count is used up and no live row, snapshot, head or stored child refers to it; its own rows go with it and what loads still does |
| BlobGc.GcKeepsNeeded | src/db.rs:7750-7761 | a sweep deletes nothing that is referenced, rooted, or a transitive parent of such a blob |
| BlobGc.LeftoverIsShallow | src/db.rs:7750-7761 | what survives n sweeps unneeded lies at least n generations below the top of a chain |
| BlobGc.NineRoundsLeaveNeeded | src/db.rs:7747-7769 | after nine sweeps exactly the needed blobs are left |
| BlobGc.NineRoundsFixpoint | src/db.rs:7747-7769 | from the ninth sweep on a further one changes nothing |
| BlobGc.GenerationsGoOneByOne | src/db.rs:7750-7761 | each sweep uncovers one generation, so the base of a chain of depth d survives d sweeps |
| Text.NormalizeIdempotent | src/governance.rs:128-146 | normalising a namespace twice is the same as once |
| Text.NormalizeMeans | src/governance.rs:128-146 | a blank namespace is the default one; else the name is what lies between the white space at both ends, with an underscore for each control character and white space within |
| Text.TrimTakesSpace | src/governance.rs:129 | trimming takes white space off both ends and nothing else |
| Text.Utf8Joins | src/compress.rs:322-344 | byte lengths and bytes of concatenated text add up |
| Text.Utf8Injective | src/compress.rs:322-344 | different texts have different bytes: the first byte of a character tells its length, and its bytes tell which it is |
| Assertions.ValidateChain | src/assertions.rs:136-180 | the loop accepts exactly the chains whose every entry is valid, linked and properly targeted |
| Assertions.ChainIff | src/assertions.rs:136-180 | spelled out: a history is valid if and only if it is of one valid scope and each entry has the hash of its event as id, the next version, the entry before it as predecessor, no earlier record time than any before, a proper interval and value, and supersedes, if anything, an earlier value that starts no later |
| Assertions.ChainVersions | src/assertions.rs:142-152 | an accepted history has versions 1 to n in one scope |
| Assertions.ChainClock | src/assertions.rs:147-152 | record times of an accepted history never decrease |
| Assertions.ScopeIff | src/assertions.rs:29-50 | the scopes accepted: four names within their byte limits, without control characters or white space at the ends, and a namespace without any white space |
| Assertions.WriteExtends | src/assertions.rs:262-312 | a committed write extends its scope's history by its entry and leaves every other scope alone |
| Assertions.WriteSucceedsIff | src/assertions.rs:262-300 | on a valid table a write commits if and only if names and expected version are well formed, that version is the number of events so far, the evidence is there, value and interval are well formed, and what it supersedes is an event of its scope with a value that starts no later |
| Assertions.WriteRecords | src/assertions.rs:281-311 | the one new event carries every field of the request, the next version and the last entry as predecessor, and is recorded at the time of the request or, if that is later, of the last entry |
| Assertions.WriteIsRead | src/assertions.rs:347-364 | the new entry is unknown at every record time before its own, and from then on, inside its interval, it is a candidate |
| Assertions.RunValid | src/assertions.rs:262-312 | under any writers and any clock the table stays valid and only grows |
| Assertions.RunExtends | src/assertions.rs:262-312 | every scope's history extends its old self through any run |
| Assertions.OneWritePerVersion | src/assertions.rs:275-279 | of all requests naming one version of one scope at most one commits, whatever happens in between |
| Assertions.KnownIsPrefix | src/assertions.rs:348-351 | what is known at a record time is a prefix of the history |
| Assertions.LinearReading | src/assertions.rs:348-364 | when each event supersedes the one before, the candidates are the last started event if it still holds: never more than one |
| Assertions.CandidateIff | src/assertions.rs:348-364 | an entry is a candidate if and only if it was recorded by then, holds a value then, and no entry recorded by then supersedes it from then or earlier on |
| Assertions.Query | src/assertions.rs:347-424 | the answer is the authorized candidates in version order; withheld ones make it incomplete, and otherwise it is a history, a conflict, unknown, or the one current value |
| Assertions.AssertionLog.Entries | src/assertions.rs:121-135 | a scope's rows in version order, or an error when the chain is invalid |
| Assertions.AssertionLog.Append | src/assertions.rs:262-312 | one write transaction: checks in order, then exactly one new row, or no change |
| AssertionMerge.ValidateCheckpoint | src/assertions.rs:182-234 | projection checks and grouped chains accept exactly the valid tables |
| AssertionMerge.ReorderValid | src/checkpoint.rs:679-682 | row order never matters to validation or to any history |
| AssertionMerge.MergeLive | src/checkpoint.rs:672-678 | the merge loop: find by id, compare, push |
| AssertionMerge.MergeLosesNothing | src/checkpoint.rs:672-678 | a successful merge holds exactly the saved and the live rows |
| AssertionMerge.MergeIsUnion | src/checkpoint.rs:672-678 | valid tables never collide on an id and their merge is their union |
| AssertionMerge.MergeValidIff | src/checkpoint.rs:661-682 | the merge validates if and only if in every scope one history extends the other; then each scope keeps the longer one |
| AssertionMerge.RestoreKeepsLonger | src/checkpoint.rs:661-682 | when every saved and live history of the project align, each becomes the longer of the two and every other history stays; else nothing changes |
| AssertionMerge.EarlierSnapshotMerges | src/checkpoint.rs:661-682 | an earlier snapshot of the same database always merges and yields exactly the live events, whatever writes, restores and imports lie in between |
| AssertionMerge.RestoreExtends | src/checkpoint.rs:661-682 | restoring any checkpoint of a project keeps the table valid, and every history of every project extends what it was |
| AssertionMerge.HistoriesOnlyGrow | src/checkpoint.rs:661-682 | append-only through any mix of writes and restores of any checkpoints |
| AssertionMerge.VersionStaysUsed | src/assertions.rs:275-279 | an expected version commits once for all: no restore in between lets a second write of it succeed |
| AssertionMerge.AsOfStable | src/assertions.rs:348-364 | candidates at a record time below every later one never change, through any writes, restores and imports |
| AssertionMerge.SupersessionIsPermanent | src/assertions.rs:352-364 | a superseded event stays superseded at later valid and record times and through any later writes, restores and imports |
| AssertionRows.ValidateRecords | src/assertions.rs:182-234 | database records are accepted exactly when every column reads as an event's projection and the rows are a valid table |
| AssertionRows.RecordReadsBack | src/assertions.rs:309-311 | the record written for a row reads back as that row |
| AssertionRows.ReadsAsIff | src/assertions.rs:182-215 | a record reads as a row if and only if it holds each column of the row as the database would |
| RestorePolicy.MergeRow | src/checkpoint.rs:691-751 | the field-by-field update computes the specified merge, errors included |
| RestorePolicy.MergeIsStricter | src/checkpoint.rs:691-751 | lowest trust, highest classification, earliest expiry, project scope, binding consent and tombstones win; with the hold, the merge is no looser if and only if the live hold is 0 or 1 or the row holds |
| RestorePolicy.MergeTakesFromEither | src/checkpoint.rs:691-751 | field by field which of the two rows the merge takes: identity and unknown terms from the saved row, project scope, binding consent, a hold of 1 and a tombstone from the live one |
| RestorePolicy.MergeRefusedIff | src/checkpoint.rs:691-720 | a merge is refused exactly when identity, residency, retention or unknown classifications disagree |
| RestorePolicy.RanksAre | src/checkpoint.rs:705-725 | the order of trust tiers and of classifications; an unknown tier ranks lowest |
| RestorePolicy.HoldOfTwoIsDropped | src/checkpoint.rs:744-746 | a hold recorded as 2 is gone after merging a row without one |
| RestorePolicy.MergeIdempotent | src/checkpoint.rs:691-751 | merging with the same live row again changes nothing |
| RestorePolicy.MergesNeverLoosen | src/checkpoint.rs:684-751 | a series of merges loosens nothing if and only if the first hold is 0 or 1, some row records 1, or the last row holds |
| Visibility.RestoreSucceedsIff | src/checkpoint.rs:635-923 | when a restore commits: rows merge, no foreign memory, no repeated or leftover governance or policy row |
| Visibility.RestoredMeta | src/checkpoint.rs:684-780 | which rows a restore leaves and where each governance row comes from |
| Visibility.RestoredAsSaved | src/checkpoint.rs:768-780 | the governance row of a memory without a live one comes back field by field as saved; if the ledger or the snapshot list knows it, with a new tombstone and nothing else new |
| Visibility.RestoredMerged | src/checkpoint.rs:684-751 | the governance row of a live memory comes back merged with its live one |
| Visibility.RestoredMemories | src/checkpoint.rs:635-680 | the memories of the project are the saved ones, all others stay, as do ledger and snapshot list, and the high-water mark rises to the largest id in use |
| Visibility.RestoredInfluence | src/checkpoint.rs:886-893 | an influence policy after a restore is the live one of a memory that comes back, else the saved one, and of other memories the one that was there |
| Visibility.RestoreNeverLoosens | src/checkpoint.rs:684-893 | a live memory keeps its governance row if and only if the checkpoint brings one, which keeps every term; the policy is no looser if and only if the row takes up the hold; the live influence policy wins |
| Visibility.PolicyNeverLoosens | src/checkpoint.rs:684-893 | through every run that brings a governed memory along with its row, its policy never loosens and a hold still refuses deletion |
| Visibility.BareRestoreLoosens | src/checkpoint.rs:886-893 | a checkpoint listing a live memory without its row erases hold, denied consent and expiry, and the memory can be deleted |
| Visibility.ForgetForgets | src/db.rs:2721-2776 | a governed delete forgets exactly the ids issued here or still holding a governance row |
| Visibility.ForgetOutcome | src/db.rs:2721-2776 | the tables after a governed delete, row by row: refused exactly under a hold; else the memory is gone, the ledger names it, its governance row has a new tombstone and nothing else new, and no other memory is touched |
| Visibility.GovernOutcome | src/db.rs:3345-3480 | governance takes every field as given except the tombstone, and is refused exactly for a missing memory or a rejected request |
| Visibility.InsertOutcome | src/db.rs:2217-2291 | the tables after an insert: one new memory and its default governance row under an id just above all in use or once issued |
| Visibility.EnsureOutcome | src/db.rs:2927-2960 | a missing governance row is added with the defaults; one that is there stays |
| Visibility.PolicyOutcome | src/db.rs:3927-3990 | an influence policy is set exactly for a memory with a governance row, and nothing else changes |
| Visibility.PurgeOutcome | src/db.rs:7521-7545 | a purge takes the governance row and the influence policy of the one memory, and nothing else |
| Visibility.StepSealed | src/checkpoint.rs:747-780 | exactly an exposing restore, or a purge of a present or unreserved id, breaks what the tombstone of a governed delete seals |
| Visibility.StepForgotten | src/checkpoint.rs:747-780 | exactly such a step undoes a governed delete |
| Visibility.RunForgotten | src/db.rs:7815-7856 | through any run without such a step a forgotten memory is never visible |
| Visibility.ForgottenForever | src/db.rs:2721-2776 | a memory inserted, forgotten and even purged stays invisible through every later run that covers it |
| Visibility.InterruptedForget | src/db.rs:2735-2774 | a governed delete interrupted anywhere hides its memory from the tombstone on, and the ledger entry makes that final |
| Visibility.ForgetInSteps | src/db.rs:2735-2774 | left alone, tombstone, ledger entry and row removal are one governed delete |
| Visibility.LookDecides | src/db.rs:2727-2774 | whatever happens between look and last commit, short of taking the memory away itself, it is gone at the end if and only if the look found no hold |
| Visibility.HoldAfterLook | src/db.rs:2731-2743 | a hold placed after the look would refuse the delete and does not stop it |
| Visibility.TombstoneNeedsRow | src/db.rs:2735-2743 | between tombstone and row removal the memory is visible if and only if it has no governance row |
| Visibility.BareRestoreExposes | src/checkpoint.rs:684-780 | a checkpoint without the governance row brings a purged memory back |
| Visibility.PurgedImportIsReissued | src/db.rs:2231-2237 | an imported id above the high-water mark is issued again after a purge |
| Visibility.InsertAllAdds | src/checkpoint.rs:584-623 | keyed insertion succeeds exactly on new distinct keys and adds just those rows |
| Visibility.MemoryTables.InsertMemory | src/db.rs:2217-2291 | a new memory gets an id never used before and a governance row |
| Visibility.MemoryTables.GovernedDelete | src/db.rs:2721-2776 | refusal under legal hold, else the three commits with nothing in between |
| Visibility.MemoryTables.PrepareRows | src/checkpoint.rs:684-780 | the loop merging, tombstoning or keeping each saved governance row |
| Visibility.MemoryTables.RestoreProject | src/checkpoint.rs:635-923 | one transaction: replaced rows and raised high-water mark, or every table as before |
| Ledger.VerifyFrom | src/compliance.rs:42-66 | the loop accepts exactly linked chains and otherwise names the first entry that breaks one |
| Ledger.VerifyLedgerChain | src/compliance.rs:40-76 | a ledger is valid exactly when it is one chain from an empty start, and otherwise the first entry that breaks it is named |
| Ledger.LastHashCommits | src/compliance.rs:36-66 | two accepted ledgers of a namespace with the same last hash agree in length and in every hashed field |
| Ledger.EditIsDetected | src/compliance.rs:36-39 | editing or removing any entry breaks verification or changes the last hash |
| LedgerEvidence.BuildEvidence | src/compliance.rs:401-444 | the loops list every parent with several children once, with all children in order, and every unreferenced hash |
| LedgerEvidence.ChildrenAre | src/compliance.rs:404-426 | the entries listed at a parent are those that point at it, each as often as it is in the ledger |
| LedgerEvidence.ForkReads | src/compliance.rs:404-426 | a listed fork names the ids and hashes of all entries that point at its parent, in ledger order, and there are several |
| LedgerEvidence.TipsAre | src/compliance.rs:427-431 | the tips are the hashes no entry points at, each as often as it is in the ledger |
| LedgerEvidence.CountForkPoints | src/compliance.rs:508-512 | the count of fork points is the number of parents with several children |
| LedgerEvidence.ForkSum | src/compliance.rs:404-426 | the extra children at forks number the entries less the distinct parents |
| LedgerEvidence.TipsCountForks | src/compliance.rs:404-431 | a rooted ledger has one tip more than it has extra children at forks, so one tip if and only if no forks |
| LedgerEvidence.VerifiesIffNoForks | src/compliance.rs:40-76 | a rooted, correctly hashed ledger verifies if and only if its evidence lists no fork |
| LedgerEpochs.PerformKeeps | src/db.rs:4604-4852 | every step of every writer keeps locks, heads, chains, evidence and epochs consistent |
| LedgerEpochs.EveryInterleavingLinks | src/db.rs:4604-4716 | every interleaving of writers leaves one chain that verification accepts, with ids in chain order |
| LedgerEpochs.LedgersOnlyGrow | src/db.rs:4692-4716 | history is append-only from any point of any run |
| LedgerEpochs.AbortFrees | src/db.rs:4667-4852 | a writer that gives up is idle, its lock is free again and no table and no other writer changes |
| LedgerEpochs.SameHeadWhole | src/db.rs:4683-4689 | an evidence prefix that ends in the ledger's head is the whole ledger |
| LedgerEpochs.EpochCommitsToHistory | src/compliance.rs:446-551 | whatever evidence migrations bring, an epoch verifies and is cut off exactly by its start id; its evidence is the whole ledger before it if and only if it is a prefix of the ledger; built evidence is, makes only the first epoch, and its forks are the ones reported |
| LedgerEpochs.OneBuiltEpoch | src/compliance.rs:451-457 | migrations with built evidence give a namespace at most one epoch |
| LedgerEpochs.ShortEvidencePasses | src/compliance.rs:451-484 | evidence of the last entry alone passes every check, and its epoch counts one prior entry, not the history |
| LedgerEpochs.VerifyCurrentEpoch | src/compliance.rs:500-551 | the epoch check accepts exactly a non-empty linked suffix, otherwise names its first broken entry, or none when the suffix is empty, and counts the historical forks |
| LedgerEpochs.EpochValidIff | src/compliance.rs:517-540 | the check accepts an epoch if and only if every entry from its first one on has the hash it stores and, after the first, points at the one before it; otherwise the first that does not is the one named |
| LedgerEpochs.EpochEditIsDetected | src/compliance.rs:517-540 | editing or removing any entry of an accepted epoch while its first and last hash stay breaks verification |
| LedgerEpochs.TransactedOutcome | src/db.rs:4731-4852 | an undisturbed transaction appends its entry and registers its epoch, or does nothing |
| LedgerEpochs.TransactionRecords | src/db.rs:4667-4852 | the committed entry carries the plan's own memory, operation, actor and payload and the time given, on top of the last entry, under a new id, hashed over all of them |
| LedgerEpochs.TransactionCommitsIff | src/db.rs:4683-4716 | an undisturbed transaction commits if and only if no entry has its hash yet and, for a migration, the ledger ends like the evidence; else no table changes |
| LedgerEpochs.LedgerTables.Transact | src/db.rs:4667-4852 | the statements of an append or a migration equal the four protocol steps run alone |
| EvidenceRoots.SettledUnique | src/db.rs:474-558 | the parent graph leaves no choice: two backfills agree on every row both have rooted |
| EvidenceRoots.SharedRootIff | src/db.rs:383-396 | two rows the backfill roots through lineages that begin unrooted share a root if and only if the tops of the lineages agree on namespace, source type, source reference and record hash, a missing one of the last two being told apart by the memory |
| EvidenceRoots.LineageEnds | src/db.rs:474-546 | the climb from a settled row ends at a rooted row or at one without an existing parent |
| EvidenceRoots.InheritedRoot | src/db.rs:548-556 | below a row that was rooted before, the backfill hands that root down |
| EvidenceRoots.CycleStaysUnrooted | src/db.rs:483-497 | no row of a cycle is ever rooted |
| EvidenceRoots.BackfillOutcome | src/db.rs:560-594 | a finished backfill settles every row beyond the cursor, leaves rooted rows alone, counts exactly the rows it rooted, and met no cycle there |
| EvidenceRoots.ReportedCycleIsReal | src/db.rs:484-497 | a reported cycle was a cycle of the graph the backfill began with |
| EvidenceRoots.ClimbCloses | src/db.rs:484-497 | meeting a row of one's own stack means the stack from there on is a cycle |
| EvidenceRoots.AnchorProgress | src/db.rs:499-510 | a row whose parent is absent becomes its own root at depth 0 and is counted and reported |
| EvidenceRoots.InheritProgress | src/db.rs:548-556 | a row below a rooted parent takes its root one level deeper and is counted |
| EvidenceRoots.EvidenceTables.Persist | src/db.rs:440-472 | the new root replaces the primary root of the memory, promoting it if it was a supporting one; no other root of any memory is lost and no root is listed twice |
| EvidenceRoots.EvidenceTables.Climb | src/db.rs:474-546 | the stack walk finds the nearest root, makes one, or reports the exact cycle and writes nothing |
| EvidenceRoots.EvidenceTables.Resolve | src/db.rs:474-558 | the row and all unrooted rows above it are settled, or a cycle is reported untouched, or depth overflows, which it cannot when every rooted row leaves room for all unrooted ones below it |
| EvidenceRoots.EvidenceTables.Backfill | src/db.rs:560-594 | batches of 256 from the cursor root everything beyond it or report a cycle; no overflow when there is room to inherit; a supporting root goes only by becoming the root of its row; with nothing missing nothing changes |
| Graph.SupersederIsFirst | src/db.rs:5432-5480 | the superseder of an edge is the first later insertion that displaces it |
| Graph.MarkSupersedes | src/db.rs:5432-5478 | one insertion supersedes exactly the active edges it displaces, as duplicate or as closed state at the start of the new edge, and touches nothing else |
| Graph.InsertOutcome | src/db.rs:5333-5480 | an insertion column by column: one active row under the next id, and of the active rows before it those that repeat its columns superseded as duplicates, those it gives another current value superseded and closed, every other one as it was |
| Graph.StateRelations | src/db.rs:5293-5312 | which relations hold one value at a time: ten names and whatever begins with `current_` |
| Graph.InsertInSteps | src/db.rs:5344-5478 | the row, the duplicate update and the state update, made in turn, are one insertion |
| Graph.RunSpec | src/db.rs:5422-5480 | after any run of uninterrupted insertions each row is as inserted or as marked by the first insertion that displaced it |
| Graph.InsertKeysUnique | src/db.rs:5432-5450 | over any run of uninterrupted insertions no two active edges share an exact key |
| Graph.LastValueWins | src/db.rs:5452-5478 | of uninterrupted insertions, an active open edge of a current-state key has the target of the last open edge inserted for it |
| Graph.LastValueIsHeld | src/db.rs:5432-5478 | of uninterrupted insertions, the edge that set the last value is active unless a later closed edge repeats its exact key |
| Graph.Follow | src/db.rs:5432-5478 | in the table of uninterrupted insertions the superseded-by links lead from every row, each to a strictly newer row, to an active edge |
| GraphInterleaving.ClosedKeysUnique | src/db.rs:5344-5478 | under every interleaving of the three commits, once all insertions are done no two active edges share an exact key |
| GraphInterleaving.ClosedLastValueWins | src/db.rs:5344-5478 | under every interleaving, once all are done an active open edge of a current-state key has the last inserted target |
| GraphInterleaving.SerialIsAtomic | src/db.rs:5344-5478 | insertions of one source and relation that never overlap leave exactly the table of uninterrupted ones, whatever else interleaves |
| GraphInterleaving.SerialKeepsValues | src/db.rs:5432-5478 | of such runs the last value of a key is held and the stored links lead from every row to an active edge |
| GraphInterleaving.ActiveIff | src/db.rs:5344-5478 | under every interleaving a row is active if and only if nothing has hit it yet; once all are done, if and only if each insertion that displaces it came before it and had struck before it was there; a superseded row names one of which that is false |
| GraphInterleaving.ActiveAsAtomicIff | src/db.rs:5344-5478 | the active rows are those of uninterrupted insertions if and only if no insertion strikes late at a row that nothing later displaces |
| GraphInterleaving.LastValueHeldIff | src/db.rs:5432-5478 | the last value of a key is held by an active row if and only if some row with it is spared by every insertion |
| GraphInterleaving.FirstStrikerMarks | src/db.rs:5432-5478 | at every point of every interleaving a row is as inserted or as the first insertion to strike it marked it, with that one's id, reason and closing time |
| GraphInterleaving.StrikersIgnoreTable | src/db.rs:5432-5478 | which insertions strike a row, and in what order, depends on what is inserted and on the order of the commits alone |
| GraphInterleaving.LinksLeadIff | src/db.rs:5432-5478 | at every point of every interleaving the stored links lead from every row, each to a strictly newer row, to an active one, if and only if the first insertion to strike a row is always a newer one |
| GraphInterleaving.LinksLead | src/db.rs:5432-5478 | it is so when every insertion that displaces a newer row had struck before that row was there |
| GraphInterleaving.SweepFindsNothing | src/db.rs:5768-5879 | after any interleaving a batch sweep changes nothing |
| GraphInterleaving.OverlapDecides | src/db.rs:5344-5478 | after two competing insertions on a finished history their key has an active edge if and only if the first struck before the second's row was there; else the two supersede each other |
| GraphInterleaving.OverlappingPairLost | src/db.rs:5344-5478 | both rows, then the updates of the first, then those of the second: no edge of the key is active |
| Graph.SweepKeysUnique | src/db.rs:5777-5798 | after a sweep of any stored edges no two active ones share an exact key |
| Graph.SweepSingleTarget | src/db.rs:5800-5828 | after a sweep every current-state key has a single target among its active open edges |
| Graph.SweepIdempotent | src/db.rs:5768-5879 | a second sweep changes nothing |
| Graph.SweepKeepsHistory | src/db.rs:5830-5856 | a sweep keeps columns and earlier links, and each new link leads to a newer edge of the same key |
| Graph.SweepOutcome | src/db.rs:5768-5856 | what a sweep does to each row: a repeat of an exact key goes to the newest of its group; of those left an open state edge with another target than the newest is closed at its time; every other row stays |
| Graph.ReportCounts | src/db.rs:5858-5879 | the report counts exactly those rows |
| Graph.ContainmentNeedsClock | src/db.rs:5757-5764 | insert-time active edges stay active in the batch on every history with given observation times if and only if the times never run backwards |
| GraphInterleaving.InterleavedContained | src/db.rs:5757-5764 | with such times what any interleaving leaves active stays active in the batch |
| Graph.DryRunPredicts | src/db.rs:5858-5864 | the dry run's active count is the real one if and only if nothing was superseded beforehand |
| Graph.FindNewest | src/db.rs:5757-5764 | the winner of a group is its newest by observation, creation and id |
| Graph.RetireDuplicates | src/db.rs:5777-5798 | the exact-key phase: all but the newest of each group are superseded, and counted |
| Graph.RetireOutdated | src/db.rs:5800-5828 | the state phase: open edges that contradict the newest of their group are closed, and counted |
| Graph.EdgeTable.AddRow | src/db.rs:5344-5431 | the first commit adds one active row with the given columns under an id above every other |
| Graph.EdgeTable.SupersedeDuplicates | src/db.rs:5432-5450 | the second commit supersedes exactly the other active edges of the same exact key |
| Graph.EdgeTable.CloseContradicted | src/db.rs:5452-5478 | the third closes exactly the other active edges whose target contradicts the new open value of a current-state key |
| Graph.EdgeTable.InsertEdge | src/db.rs:5333-5480 | the three commits with nothing in between give the specified table, or an empty field is refused |
| Graph.EdgeTable.Reconcile | src/db.rs:5768-5879 | the sweep and its report; a dry run changes nothing |
| Transcript.BuildTranscript | src/compress.rs:324-353 | the buffer loop yields the rendered observations and their byte ranges |
| Transcript.SectionsTile | src/compress.rs:322-353 | sections name their observations, are non-empty, hold their bytes and tile the transcript without gap or overlap |
| Transcript.RenderedReads | src/compress.rs:326-343 | a rendered observation holds tool, input and output whole, in this order |
| Transcript.Find | src/compress.rs:494 | the first occurrence, or none |
| Transcript.BestSourceSpan | src/compress.rs:485-515 | the first match up to ASCII case; without one the first section sharing the most content words, at least two; else none |
| Transcript.BestSpanUnique | src/compress.rs:485-515 | a text has at most one such span in a transcript |
| Transcript.BestSpanIs | src/compress.rs:485-515 | with eight characters or more a text is traced to the first place the transcript reads like it up to ASCII case; else to the first observation sharing the most content words, if two or more; else nowhere |
| Transcript.SpanIsSound | src/compress.rs:485-515 | a span is non-empty and in bounds and its bytes are the trimmed text up to ASCII case or a whole section |
| Expansion.BuildChunks | src/compress.rs:517-624 | overview, facts, procedures and observations of the memory in order, each with its own text, ordinals without a gap; with a stored transcript each fact and procedure carries its best span and is untraced exactly when there is none |
| Expansion.ObservationExpandsExactly | src/expansion.rs:60-77 | expanding an observation chunk returns exactly that section's bytes |
| Expansion.ExpansionsRejoin | src/expansion.rs:55-77 | the expansions of all observation chunks, in order, are the whole transcript |
| Expansion.FactExpandsToEvidence | src/expansion.rs:60-77 | expanding a traced fact gives its own words up to ASCII case or one whole observation |
| Expansion.UntracedExpandsToSession | src/expansion.rs:80-92 | with the transcript stored as the session's blob, a fact expands to a part of it exactly when it reads or shares words with it, and otherwise to all of it |
| Expansion.SourceExpands | src/expansion.rs:60-89 | a chunk with a source expands to the bytes between start and end when both are there and lie in it, else to the whole source, and fails exactly when it is not stored |
| Expansion.SourcelessExpands | src/expansion.rs:91-113 | any other expands to the transcript of its memory's session, or to its own summary when there is none |
| Corrections.EditedIff | src/corrections.rs:118-124 | edits are recorded exactly when some edit in the stretch has a non-empty input |
| Corrections.EditedAre | src/corrections.rs:118-124 | the recorded targets are those of the edits of the stretch with an input, each once, in the order of first edit |
| Corrections.FailLineIff | src/corrections.rs:55-58 | a line tells of a failure exactly when one of the markers stands in it, in whatever case |
| Corrections.LinesMean | src/corrections.rs:60-66 | the lines of an output are the stretches between line feeds, in order, without a carriage return before the line feed |
| Corrections.TruncateMeans | src/strutil.rs:10-19 | a text within the byte budget stays; of a longer one the longest prefix that ends between characters stays, and the marker follows |
| Corrections.YieldsOne | src/corrections.rs:117-134 | a failing command yields at most one correction |
| Corrections.FindFix | src/corrections.rs:115-134 | the look-ahead finds the next passing command of the same head word and credits it exactly when the input is identical or an edit came in between |
| Corrections.FixedIff | src/corrections.rs:103-134 | in terms of the session itself: a failed command counts as fixed by the next run of the same first word that does not fail if and only if its input is the same or an edit with an input came in between |
| Corrections.AllIsCatalogue | src/corrections.rs:103-154 | the list holds each correction some failure yields exactly once, in the order of the failures |
| Corrections.CorrectionSays | src/corrections.rs:68-92 | a correction names the command that failed and the first line of its output that tells so, then the edits up to the fix and the command that passed |
| Corrections.MineSession | src/corrections.rs:103-154 | the result is exactly the first at most five distinct corrections, all of them when there are fewer |
| Access.StepTally | src/access.rs:54-72 | one call counts a memory once, unless it has a receipt of the same operation no older than seven days |
| Access.CallOutcome | src/access.rs:48-74 | the whole new state of a call: rows for the delivered memories that have metadata, one more delivery of its kind for those it counts and nothing else in any row, and the receipts of the last seven days with one more for every memory counted under an operation id |
| Access.CountOverTime | src/access.rs:38-75 | however long a run lasts, with a clock that never goes back a count grows by the deliveries whose operation, if named, was not counted for the memory in the seven days before; a retry does not put that off |
| Access.CountIsExact | src/access.rs:40-75 | within one seven-day window a count grows by the unnamed calls plus the distinct operations that named the memory and had no receipt before |
| Access.LatestIsExact | src/access.rs:67-71 | the last delivery time becomes the largest time of a call that counted, if that is later |
| Access.OrderIrrelevant | src/access.rs:40-75 | any order of the same calls leaves the same counts |
| Access.AccessTables.Deliver | src/access.rs:40-75 | the loop over distinct ids computes the specified tables; more than ten thousand ids are refused |

## Left out

- SQL text, connection pools and the SQLite/PostgreSQL split: their effect is an atomic table update or a lock-guarded step. Ids follow SQLite; PostgreSQL sequences are not modelled.
- Zstandard, base64 (section 4 of RFC 4648) and JSON: invertible encodings. Records carry strings and integers; fractional numbers in rows are not distinguished, and bytes that are not canonical envelope text never parse as an envelope.
- A serialised event and its hash are column values of their own (`Data`, `Ref`): two spellings of one JSON event are one, and text that is neither never reads as an event.
- Envelope size comparison (src/checkpoint.rs:550-551): an arbitrary Boolean choice.
- A delta's list of removed sources is a set; a hand-written delta that repeats one fails in the program.
- RestoreSucceedsIff: states when the memory, governance and policy part of the transaction commits; the same transaction also fails on differing table columns, on an assertion merge that does not validate (`AssertionMerge.MergeValidIff` says when), on ids of other tables that belong to another project, and on governance text that does not parse.
- Restore is modelled in three parts that do not interact: blobs and heads (CheckpointStore), assertion rows (AssertionMerge), memories with governance and policies (Visibility). Observations, sessions, chunks, anchors, contradiction rows, embeddings, recomputed record hashes and generated files follow the same replace-and-insert shape and are left out.
- PolicyOutcome: of a policy change that passes its own checks; the version it expects and the refusal of a change that changes nothing are not modelled.
- RunSpec: of uninterrupted insertions; interleaved ones are the subject of GraphInterleaving (FirstStrikerMarks).
- Reconcile: the program commits each row it supersedes on its own; here the sweep is one step, and insertions during a sweep are not modelled.
- The release of a memory's transcript and the sweep inside a governed delete belong to the blob model and are not steps of the memory model.
- A memory's visibility ignores namespace and expiry filters, which only hide more.
- Authorization, egress gating and purpose checks of assertion queries are a given set of authorized entries; the query reads a history that its own chain check has accepted.
- Wrap-around of row ids, versions and counters at 64 bits, except for the expected version of a write and the derivation depth, which are bounded as in the program.
- Evidence roots in a role other than primary are one kind of row here; the program knows several such roles.
- A stored source reference or record hash that spells the legacy fallback of a memory (`legacy-memory:` and its id) is told apart from that fallback; in the program the two would hash alike.
- Fork lists carry no particular order; the program orders them by parent hash.
- Raw ledger rows written around the append path are only present at the start of a run.
- Re-parenting, edge curation and edge deletion, which break lineage and graph relations on purpose.
- Normalisation of graph text (Unicode case folding): columns hold normalised text. Contradiction detection during edge insertion.
- Extraction of content words, densities, titles and clipped summaries of chunks: parameters. Replacement of invalid UTF-8 in returned text, which never occurs in a section.
- Storage of mined corrections, access statistics and telemetry counters; removal of metadata while deliveries are counted.
- Configuration, hooks, embeddings, ranking, LLM compression, code anchors and benchmarks.
