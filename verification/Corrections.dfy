/** Mining error-to-fix corrections from a session (src/corrections.rs:16-154, src/strutil.rs:10-19). */
module Corrections {
  import opened Prelude
  import opened Text
  import opened Transcript

  const COMMAND_TOOL := "Bash"
  const EDIT_TOOLS: set<string> := {"Edit", "Write", "MultiEdit", "NotebookEdit"}
  const FAIL_MARKERS: seq<string> := [
    "error:", "error[", "fatal:", "panicked at", "traceback (most recent call last)", "command not found",
    "no such file or directory", "could not compile", "build failed", "test result: failed", "exit code 1",
    "exit status 1", "segmentation fault", "assertion failed", "cannot find"]
  const MAX_CORRECTIONS: nat := 5

  datatype Correction = Correction(problem: string, solution: string)

  // ---- text helpers -------------------------------------------------------------------------------

  const ELLIPSIS := "\U{2026} [truncated]"

  /** The longest prefix of at most `budget` bytes that ends between characters. */
  function TakeBytes(s: string, budget: nat): string {
    if s == "" || |EncodeChar(s[0])| > budget then ""
    else [s[0]] + TakeBytes(s[1..], budget - |EncodeChar(s[0])|)
  }

  function SafeTruncate(s: string, budget: nat): string {
    if ByteLen(s) <= budget then s else TakeBytes(s, budget) + ELLIPSIS
  }

  function LowerChar(c: char): char {
    if 'A' <= c <= 'Z' then c + 32 as char else c
  }

  function LowerText(s: string): string {
    seq(|s|, i requires 0 <= i < |s| => LowerChar(s[i]))
  }

  predicate OccursAt(s: string, part: string, i: nat) {
    i + |part| <= |s| && s[i..i + |part|] == part
  }

  predicate Contains(s: string, part: string) {
    exists i | 0 <= i <= |s| :: OccursAt(s, part, i)
  }

  /** Index of the first line feed, or the length. */
  function LineEnd(s: string): (n: nat)
    ensures n <= |s|
  {
    if s == "" || s[0] == '\n' then 0 else 1 + LineEnd(s[1..])
  }

  function DropReturn(line: string): string {
    if line != "" && line[|line| - 1] == '\r' then line[..|line| - 1] else line
  }

  function Lines(s: string): seq<string> {
    if s == "" then []
    else
      var n := LineEnd(s);
      if n == |s| then [s] else [DropReturn(s[..n])] + Lines(s[n + 1..])
  }

  function FirstWord(s: string): string {
    if s == "" || IsSpace(s[0]) then "" else [s[0]] + FirstWord(s[1..])
  }

  function JoinList(parts: seq<string>): string {
    if parts == [] then "" else if |parts| == 1 then parts[0] else parts[0] + ", " + JoinList(parts[1..])
  }

  // ---- what the helpers compute -------------------------------------------------------------------

  /** `t` is the longest prefix of `s` within the budget. */
  ghost predicate LongestWithin(s: string, budget: nat, t: string) {
    && t <= s && |Utf8(t)| <= budget
    && forall n :: |t| < n <= |s| ==> |Utf8(s[..n])| > budget
  }

  lemma {:induction false} TakesLongest(s: string, budget: nat)
    ensures LongestWithin(s, budget, TakeBytes(s, budget))
  {
    hide EncodeChar;
    if s != "" {
      forall n | 0 < n <= |s| ensures Utf8(s[..n]) == EncodeChar(s[0]) + Utf8(s[1..][..n - 1]) {
        assert s[..n][1..] == s[1..][..n - 1];
      }
      if |EncodeChar(s[0])| <= budget {
        var rest := budget - |EncodeChar(s[0])|;
        TakesLongest(s[1..], rest);
        var t := TakeBytes(s[1..], rest);
        assert TakeBytes(s, budget) == [s[0]] + t == s[..|t| + 1];
      }
    }
  }

  /** A text within the budget stays; of a longer one the longest prefix stays, never part of a character, and the
      marker follows. */
  lemma {:induction false} TruncateMeans(s: string, budget: nat)
    ensures |Utf8(s)| <= budget ==> SafeTruncate(s, budget) == s
    ensures |Utf8(s)| > budget ==> exists t: string :: LongestWithin(s, budget, t) && SafeTruncate(s, budget) == t + ELLIPSIS
  {
    Utf8Length(s);
    TakesLongest(s, budget);
  }

  lemma {:induction false} FirstWordMeans(s: string)
    ensures var w := FirstWord(s);
      && w <= s && (forall i :: 0 <= i < |w| ==> !IsSpace(w[i])) && (|w| < |s| ==> IsSpace(s[|w|]))
  {
    if s != "" && !IsSpace(s[0]) {
      FirstWordMeans(s[1..]);
      var w := FirstWord(s[1..]);
      assert FirstWord(s) == [s[0]] + w;
      assert s == [s[0]] + s[1..];
    }
  }

  lemma {:induction false} LineEndIs(s: string)
    ensures forall i :: 0 <= i < LineEnd(s) ==> s[i] != '\n'
    ensures LineEnd(s) < |s| ==> s[LineEnd(s)] == '\n'
  {
    if s != "" && s[0] != '\n' {
      LineEndIs(s[1..]);
      forall i | 0 < i < LineEnd(s) ensures s[i] != '\n' {
        assert s[i] == s[1..][i - 1];
      }
    }
  }

  /** The line from `start` to `end`.  A line feed ends it, and then a carriage return before that is not part of it; or
      the text does, and then it is not empty. */
  ghost predicate IsLine(s: string, start: nat, end: nat, line: string) {
    && start <= end <= |s| && '\n' !in s[start..end]
    && if end == |s| then start < end && line == s[start..end]
       else s[end] == '\n' && line == if start < end && s[end - 1] == '\r' then s[start..end - 1] else s[start..end]
  }

  ghost predicate ReadOff(s: string, lines: seq<string>, starts: seq<nat>, ends: seq<nat>) {
    |starts| == |ends| == |lines| && forall k :: 0 <= k < |lines| ==> IsLine(s, starts[k], ends[k], lines[k])
  }

  /** Each begins right after the line feed before it. */
  ghost predicate Consecutive(starts: seq<nat>, ends: seq<nat>) {
    |starts| == |ends| && forall k, j :: 0 <= k && j == k + 1 && j < |starts| ==> starts[j] == ends[k] + 1
  }

  /** The lines cover the text, in order; only after the last line feed there need not be one. */
  ghost predicate AreLines(s: string, lines: seq<string>, starts: seq<nat>, ends: seq<nat>) {
    && ReadOff(s, lines, starts, ends) && Consecutive(starts, ends)
    && (lines == [] <==> s == "")
    && (lines != [] ==> starts[0] == 0 && (ends[|lines| - 1] == |s| || ends[|lines| - 1] + 1 == |s|))
  }

  function Shifted(at: seq<nat>, n: nat): (r: seq<nat>)
    ensures |r| == |at| && forall i :: 0 <= i < |at| ==> r[i] == at[i] + n
  {
    seq(|at|, i requires 0 <= i < |at| => at[i] + n)
  }

  lemma {:induction false} LinesMean(s: string) returns (starts: seq<nat>, ends: seq<nat>)
    ensures AreLines(s, Lines(s), starts, ends)
  {
    if s == "" {
      starts, ends := [], [];
    } else {
      var n := LineEnd(s);
      LineEndIs(s);
      if n == |s| {
        starts, ends := [0], [n];
        assert s[0..n] == s;
      } else {
        var from, to := LinesMean(s[n + 1..]);
        starts, ends := [0] + Shifted(from, n + 1), [n] + Shifted(to, n + 1);
        LinesCons(s, n, Lines(s[n + 1..]), from, to);
      }
    }
  }

  lemma LineShifts(s: string, n: nat, start: nat, end: nat, line: string)
    requires n <= |s| && IsLine(s[n..], start, end, line)
    ensures IsLine(s, start + n, end + n, line)
  {
    assert s[n..][start..end] == s[start + n..end + n];
    if start < end {
      assert s[n..][start..end - 1] == s[start + n..end - 1 + n];
    }
  }

  lemma LinesShift(s: string, n: nat, rest: seq<string>, from: seq<nat>, to: seq<nat>)
    requires n <= |s| && ReadOff(s[n..], rest, from, to)
    ensures ReadOff(s, rest, Shifted(from, n), Shifted(to, n))
  {
    hide IsLine;
    forall i | 0 <= i < |rest| ensures IsLine(s, Shifted(from, n)[i], Shifted(to, n)[i], rest[i]) {
      LineShifts(s, n, from[i], to[i], rest[i]);
    }
  }

  lemma ReadOffCons(s: string, n: nat, rest: seq<string>, from: seq<nat>, to: seq<nat>)
    requires n < |s| && s[n] == '\n' && (forall i :: 0 <= i < n ==> s[i] != '\n') && ReadOff(s[n + 1..], rest, from, to)
    ensures ReadOff(s, [DropReturn(s[..n])] + rest, [0] + Shifted(from, n + 1), [n] + Shifted(to, n + 1))
  {
    FirstLine(s, n);
    LinesShift(s, n + 1, rest, from, to);
    hide IsLine, DropReturn, Shifted;
  }

  lemma FirstLine(s: string, n: nat)
    requires n < |s| && s[n] == '\n' && forall i :: 0 <= i < n ==> s[i] != '\n'
    ensures IsLine(s, 0, n, DropReturn(s[..n]))
  {
    assert s[0..n] == s[..n];
  }

  lemma ConsecutiveCons(n: nat, from: seq<nat>, to: seq<nat>)
    requires Consecutive(from, to) && (from != [] ==> from[0] == 0)
    ensures Consecutive([0] + Shifted(from, n + 1), [n] + Shifted(to, n + 1))
  {
    var starts, ends := [0] + Shifted(from, n + 1), [n] + Shifted(to, n + 1);
    forall k, j | 0 <= k && j == k + 1 && j < |starts| ensures starts[j] == ends[k] + 1 {
      if k > 0 {
        var i := k - 1;
        assert from[k] == to[i] + 1;
      }
    }
  }

  lemma LinesCons(s: string, n: nat, rest: seq<string>, from: seq<nat>, to: seq<nat>)
    requires n < |s| && s[n] == '\n' && (forall i :: 0 <= i < n ==> s[i] != '\n') && AreLines(s[n + 1..], rest, from, to)
    ensures AreLines(s, [DropReturn(s[..n])] + rest, [0] + Shifted(from, n + 1), [n] + Shifted(to, n + 1))
  {
    ReadOffCons(s, n, rest, from, to);
    ConsecutiveCons(n, from, to);
    hide Consecutive, IsLine, DropReturn;
  }

  // ---- observations -------------------------------------------------------------------------------

  predicate IsCommand(o: Observation) {
    o.tool == COMMAND_TOOL
  }

  predicate IsEdit(o: Observation) {
    o.tool in EDIT_TOOLS
  }

  function CmdInput(o: Observation): string {
    Trim(o.input.GetOr(""))
  }

  function Head(o: Observation): Option<string> {
    if CmdInput(o) == "" then None else Some(FirstWord(CmdInput(o)))
  }

  predicate IsFailLine(line: string) {
    exists i | 0 <= i < |FAIL_MARKERS| :: Contains(LowerText(line), FAIL_MARKERS[i])
  }

  predicate OutputFailed(o: Observation) {
    o.output.Some? && exists i | 0 <= i < |Lines(o.output.value)| :: IsFailLine(Lines(o.output.value)[i])
  }

  /** The same character, or the same ASCII letter in upper case. */
  predicate InLower(c: char, lower: char) {
    if 'A' <= c <= 'Z' then lower as int == c as int + 32 else lower == c
  }

  /** The marker stands at `at`, whatever the case of the letters in the line. */
  predicate Shows(line: string, marker: string, at: nat) {
    at + |marker| <= |line| && forall i | 0 <= i < |marker| :: InLower(line[at + i], marker[i])
  }

  lemma ShowsIff(line: string, marker: string, at: nat)
    ensures OccursAt(LowerText(line), marker, at) <==> Shows(line, marker, at)
  {
    if at + |marker| <= |line| {
      if OccursAt(LowerText(line), marker, at) {
        forall i | 0 <= i < |marker| ensures InLower(line[at + i], marker[i]) {
          assert marker[i] == LowerText(line)[at..at + |marker|][i] == LowerChar(line[at + i]);
        }
      }
      if Shows(line, marker, at) {
        assert LowerText(line)[at..at + |marker|] == marker;
      }
    }
  }

  ghost predicate ShowsSome(line: string, m: nat) {
    m < |FAIL_MARKERS| && exists at: nat :: Shows(line, FAIL_MARKERS[m], at)
  }

  /** A line tells of a failure exactly when one of the markers stands in it. */
  lemma FailLineIff(line: string)
    ensures IsFailLine(line) <==> exists m: nat :: ShowsSome(line, m)
  {
    forall m: nat | m < |FAIL_MARKERS| ensures Contains(LowerText(line), FAIL_MARKERS[m]) <==> ShowsSome(line, m) {
      hide Shows, LowerText, OccursAt;
      forall at: nat ensures OccursAt(LowerText(line), FAIL_MARKERS[m], at) <==> Shows(line, FAIL_MARKERS[m], at) {
        ShowsIff(line, FAIL_MARKERS[m], at);
      }
      if ShowsSome(line, m) {
        var at: nat :| Shows(line, FAIL_MARKERS[m], at);
        assert OccursAt(LowerText(line), FAIL_MARKERS[m], at);
        OccursInside(LowerText(line), FAIL_MARKERS[m], at);
      }
    }
    if ShowsSomewhere(line) {
      var m: nat :| ShowsSome(line, m);
      assert Contains(LowerText(line), FAIL_MARKERS[m]);
    }
  }

  ghost predicate ShowsSomewhere(line: string) {
    exists m: nat :: ShowsSome(line, m)
  }

  lemma OccursInside(s: string, part: string, at: nat)
    requires OccursAt(s, part, at)
    ensures Contains(s, part)
  {
  }

  function FirstFailLine(lines: seq<string>): Option<string> {
    if lines == [] then None else if IsFailLine(lines[0]) then Some(lines[0]) else FirstFailLine(lines[1..])
  }

  function FirstTextLine(lines: seq<string>): Option<string> {
    if lines == [] then None else if Trim(lines[0]) != "" then Some(lines[0]) else FirstTextLine(lines[1..])
  }

  function ErrorSnippet(o: Observation): string {
    var lines := Lines(o.output.GetOr(""));
    var line := match FirstFailLine(lines) case Some(l) => l case None => FirstTextLine(lines).GetOr("");
    SafeTruncate(Trim(line), 200)
  }

  function SolutionText(succ: Observation, edited: seq<string>): string {
    var rerun := "re-ran `" + SafeTruncate(CmdInput(succ), 120) + "` \U{2192} passed";
    if edited == [] then rerun else "edited " + JoinList(edited) + "; " + rerun
  }

  function CorrectionOf(fail: Observation, succ: Observation, edited: seq<string>): Correction {
    Correction("`" + SafeTruncate(CmdInput(fail), 200) + "` failed: " + ErrorSnippet(fail), SolutionText(succ, edited))
  }

  // ---- what counts as a fix -----------------------------------------------------------------------

  /** A failing command that has a head word to look for. */
  predicate Failing(obs: seq<Observation>, i: nat)
    requires i < |obs|
  {
    IsCommand(obs[i]) && OutputFailed(obs[i]) && Head(obs[i]).Some?
  }

  predicate Reruns(obs: seq<Observation>, i: nat, j: nat)
    requires i < |obs| && j < |obs|
  {
    IsCommand(obs[j]) && Head(obs[j]) == Head(obs[i])
  }

  /** `j` is the next passing command with the head word of `i`: everything of that word in between fails. */
  ghost predicate IsNextPass(obs: seq<Observation>, i: nat, j: nat) {
    && i < j < |obs| && Reruns(obs, i, j) && !OutputFailed(obs[j])
    && forall k :: i < k < j && Reruns(obs, i, k) ==> OutputFailed(obs[k])
  }

  /** The pass is credited: same input as the failure, or a non-empty edit in between. */
  ghost predicate IsFix(obs: seq<Observation>, i: nat, j: nat) {
    && IsNextPass(obs, i, j)
    && (obs[j].input == obs[i].input || exists k :: i < k < j && IsEdit(obs[k]) && CmdInput(obs[k]) != "")
  }

  /** The distinct non-empty edit targets of a stretch, in order. */
  function Edited(obs: seq<Observation>, lo: nat, hi: nat): seq<string>
    requires lo <= hi <= |obs|
    decreases hi
  {
    if lo == hi then []
    else
      var rest := Edited(obs, lo, hi - 1);
      var target := SafeTruncate(CmdInput(obs[hi - 1]), 80);
      if IsEdit(obs[hi - 1]) && target != "" && target !in rest then rest + [target] else rest
  }

  ghost predicate EditsAt(obs: seq<Observation>, k: nat, target: string) {
    k < |obs| && IsEdit(obs[k]) && CmdInput(obs[k]) != "" && target == SafeTruncate(CmdInput(obs[k]), 80)
  }

  ghost predicate EditedIn(obs: seq<Observation>, lo: nat, hi: nat, target: string) {
    exists k: nat :: lo <= k < hi && EditsAt(obs, k, target)
  }

  /** No target is edited before the one listed ahead of it. */
  ghost predicate InEditOrder(obs: seq<Observation>, lo: nat, hi: nat, targets: seq<string>) {
    forall a, b, k: nat :: 0 <= a < b < |targets| && lo <= k < hi && EditsAt(obs, k, targets[b]) ==> EditedIn(obs, lo, k, targets[a])
  }

  /** The targets listed are those of the edits of the stretch with an input, each once, in the order of first edit. */
  lemma {:induction false} EditedAre(obs: seq<Observation>, lo: nat, hi: nat)
    requires lo <= hi <= |obs|
    ensures Distinct(Edited(obs, lo, hi)) && InEditOrder(obs, lo, hi, Edited(obs, lo, hi))
    ensures forall t :: t in Edited(obs, lo, hi) <==> EditedIn(obs, lo, hi, t)
    decreases hi
  {
    hide IsEdit, CmdInput, SafeTruncate;
    if lo < hi {
      var rest, all := Edited(obs, lo, hi - 1), Edited(obs, lo, hi);
      EditedAre(obs, lo, hi - 1);
      TruncateEmpty(CmdInput(obs[hi - 1]), 80);
      forall t ensures t in all <==> EditedIn(obs, lo, hi, t) {
        if t in all && t !in rest {
          assert EditsAt(obs, hi - 1, t);
        }
      }
      OrderKept(obs, lo, hi, rest, all);
    }
  }

  lemma OrderKept(obs: seq<Observation>, lo: nat, hi: nat, rest: seq<string>, all: seq<string>)
    requires lo < hi && InEditOrder(obs, lo, hi - 1, rest) && (forall t :: t in rest <==> EditedIn(obs, lo, hi - 1, t))
    requires all == rest || (|all| == |rest| + 1 && all[..|rest|] == rest && all[|rest|] !in rest)
    ensures InEditOrder(obs, lo, hi, all)
  {
    hide EditsAt;
    forall a, b, k: nat | 0 <= a < b < |all| && lo <= k < hi && EditsAt(obs, k, all[b]) ensures EditedIn(obs, lo, k, all[a]) {
      assert all[a] == rest[a] && rest[a] in rest;
      if k < hi - 1 {
        assert EditedIn(obs, lo, hi - 1, all[b]);
        assert b < |rest| && all[b] == rest[b];
      }
    }
  }

  lemma {:induction false} EditedIff(obs: seq<Observation>, lo: nat, hi: nat)
    requires lo <= hi <= |obs|
    ensures Edited(obs, lo, hi) != [] <==> (exists k :: lo <= k < hi && IsEdit(obs[k]) && CmdInput(obs[k]) != "")
    decreases hi
  {
    hide IsEdit, CmdInput;
    if lo < hi {
      EditedIff(obs, lo, hi - 1);
      TruncateEmpty(CmdInput(obs[hi - 1]), 80);
    }
  }

  lemma TruncateEmpty(s: string, budget: nat)
    ensures SafeTruncate(s, budget) == "" <==> s == ""
  {
  }

  /** The correction a failing command yields, if any. */
  ghost predicate Yields(obs: seq<Observation>, i: nat, c: Correction) {
    && i < |obs| && Failing(obs, i)
    && exists j: nat :: IsFix(obs, i, j) && c == CorrectionOf(obs[i], obs[j], Edited(obs, i + 1, j))
  }

  lemma NextPassUnique(obs: seq<Observation>, i: nat, j: nat, k: nat)
    requires IsNextPass(obs, i, j) && IsNextPass(obs, i, k)
    ensures j == k
  {
  }

  /** A failing command yields at most one correction. */
  lemma YieldsOne(obs: seq<Observation>, i: nat, c: Correction, d: Correction)
    requires Yields(obs, i, c) && Yields(obs, i, d)
    ensures c == d
  {
    hide CorrectionOf, Edited, Failing, OutputFailed, Head;
    var j: nat :| IsFix(obs, i, j) && c == CorrectionOf(obs[i], obs[j], Edited(obs, i + 1, j));
    var k: nat :| IsFix(obs, i, k) && d == CorrectionOf(obs[i], obs[k], Edited(obs, i + 1, k));
    NextPassUnique(obs, i, j, k);
  }

  /** The inner loop: looks ahead for the pass, collecting edits on the way. */
  method FindFix(obs: seq<Observation>, i: nat) returns (solved: Option<nat>, edited: seq<string>)
    requires i < |obs| && Failing(obs, i)
    ensures solved.None? ==> forall j: nat :: !IsFix(obs, i, j)
    ensures solved.Some? ==> i < solved.value < |obs| && IsFix(obs, i, solved.value) && edited == Edited(obs, i + 1, solved.value)
  {
    hide OutputFailed, CmdInput, Head, SafeTruncate;
    edited := [];
    for j := i + 1 to |obs|
      invariant edited == Edited(obs, i + 1, j)
      invariant forall k :: i < k < j && Reruns(obs, i, k) ==> OutputFailed(obs[k])
    {
      var succ := obs[j];
      if IsEdit(succ) {
        var target := SafeTruncate(CmdInput(succ), 80);
        if target != "" && target !in edited {
          edited := edited + [target];
        }
        continue;
      }
      if IsCommand(succ) && Head(succ) == Head(obs[i]) {
        if OutputFailed(succ) {
          continue;
        }
        assert IsNextPass(obs, i, j);
        EditedIff(obs, i + 1, j);
        if succ.input == obs[i].input || edited != [] {
          return Some(j), edited;
        }
        forall k: nat ensures !IsFix(obs, i, k) {
          if IsNextPass(obs, i, k) {
            NextPassUnique(obs, i, j, k);
          }
        }
        return None, edited;
      }
    }
    return None, edited;
  }

  // ---- the session --------------------------------------------------------------------------------

  /** `all` lists the corrections of the first `n` observations, each once. */
  ghost predicate IsCatalogue(obs: seq<Observation>, n: nat, all: seq<Correction>) {
    && Distinct(all)
    && (forall c :: c in all <==> exists i: nat :: i < n && Yields(obs, i, c))
  }

  /** Every failure that yields `y` comes after one that yields `x`. */
  ghost predicate Precedes(obs: seq<Observation>, x: Correction, y: Correction) {
    forall j: nat :: Yields(obs, j, y) ==> exists i: nat :: i < j && Yields(obs, i, x)
  }

  ghost predicate InOrder(obs: seq<Observation>, all: seq<Correction>) {
    forall a, b :: 0 <= a < b < |all| ==> Precedes(obs, all[a], all[b])
  }

  ghost predicate Yieldless(obs: seq<Observation>, i: nat) {
    forall c :: !Yields(obs, i, c)
  }

  lemma CatalogueSkip(obs: seq<Observation>, n: nat, all: seq<Correction>)
    requires IsCatalogue(obs, n, all) && Yieldless(obs, n)
    ensures IsCatalogue(obs, n + 1, all)
  {
    hide Yields;
  }

  lemma CatalogueAdd(obs: seq<Observation>, n: nat, all: seq<Correction>, c: Correction)
    requires IsCatalogue(obs, n, all) && InOrder(obs, all) && Yields(obs, n, c)
    ensures c in all ==> IsCatalogue(obs, n + 1, all)
    ensures c !in all ==> IsCatalogue(obs, n + 1, all + [c]) && InOrder(obs, all + [c])
  {
    hide Yields;
    forall d | Yields(obs, n, d) ensures d == c {
      YieldsOne(obs, n, c, d);
    }
    if c !in all {
      var more := all + [c];
      forall d ensures d in more <==> exists i: nat :: i < n + 1 && Yields(obs, i, d) {
        if d in more && d != c {
          assert d in all;
        }
      }
      forall a, b | 0 <= a < b < |more| ensures Precedes(obs, more[a], more[b]) {
        if b == |all| {
          assert more[a] == all[a] && all[a] in all && more[b] == c;
          var i: nat :| i < n && Yields(obs, i, all[a]);
          assert forall j: nat :: Yields(obs, j, c) ==> j >= n;
        } else {
          assert more[a] == all[a] && more[b] == all[b];
        }
      }
    }
  }

  ghost function FixAt(obs: seq<Observation>, i: nat): Option<Correction> {
    if exists c :: Yields(obs, i, c) then
      var c :| Yields(obs, i, c);
      Some(c)
    else None
  }

  /** The distinct corrections of the first `n` observations, in order. */
  ghost function All(obs: seq<Observation>, n: nat): seq<Correction>
    requires n <= |obs|
  {
    if n == 0 then []
    else
      var rest := All(obs, n - 1);
      match FixAt(obs, n - 1)
      case None => rest
      case Some(c) => if c in rest then rest else rest + [c]
  }

  /** The list holds each correction some failure yields exactly once, in the order of the failures. */
  lemma {:induction false} AllIsCatalogue(obs: seq<Observation>, n: nat)
    requires n <= |obs|
    ensures IsCatalogue(obs, n, All(obs, n)) && InOrder(obs, All(obs, n))
  {
    hide Yields;
    if n > 0 {
      AllIsCatalogue(obs, n - 1);
      match FixAt(obs, n - 1)
      case None => CatalogueSkip(obs, n - 1, All(obs, n - 1));
      case Some(c) => CatalogueAdd(obs, n - 1, All(obs, n - 1), c);
    }
  }

  lemma {:induction false} AllGrows(obs: seq<Observation>, n: nat)
    requires n <= |obs|
    ensures All(obs, n) <= All(obs, |obs|)
    decreases |obs| - n
  {
    hide Yields;
    if n < |obs| {
      AllGrows(obs, n + 1);
    }
  }

  function FirstFive(all: seq<Correction>): seq<Correction> {
    if |all| <= MAX_CORRECTIONS then all else all[..MAX_CORRECTIONS]
  }

  /** `mine_session` returns exactly the first at most five distinct corrections of the session. */
  method MineSession(obs: seq<Observation>) returns (out: seq<Correction>)
    ensures out == FirstFive(All(obs, |obs|))
    ensures out <= All(obs, |obs|) && |out| <= 5 && (|out| < 5 ==> out == All(obs, |obs|))
  {
    hide Failing, IsFix, CorrectionOf, Edited, FixAt, OutputFailed, Head, IsCommand;
    out := [];
    for i := 0 to |obs|
      invariant |out| < MAX_CORRECTIONS && out == All(obs, i)
    {
      AllGrows(obs, i + 1);
      if !(IsCommand(obs[i]) && OutputFailed(obs[i]) && Head(obs[i]).Some?) {
        NotFailing(obs, i);
        continue;
      }
      IsFailing(obs, i);
      var solved, edited := FindFix(obs, i);
      if solved.Some? {
        var c := CorrectionOf(obs[i], obs[solved.value], edited);
        FixFound(obs, i, solved.value);
        if c !in out {
          out := out + [c];
        }
      } else {
        NoFix(obs, i);
      }
      if |out| >= MAX_CORRECTIONS {
        return;
      }
    }
  }

  lemma {:induction false} FixFound(obs: seq<Observation>, i: nat, j: nat)
    requires i < |obs| && Failing(obs, i) && IsFix(obs, i, j)
    ensures FixAt(obs, i) == Some(CorrectionOf(obs[i], obs[j], Edited(obs, i + 1, j)))
  {
    hide CorrectionOf, Edited;
    var c := CorrectionOf(obs[i], obs[j], Edited(obs, i + 1, j));
    assert Yields(obs, i, c);
    YieldsOne(obs, i, c, FixAt(obs, i).value);
  }

  lemma NotFailing(obs: seq<Observation>, i: nat)
    requires i < |obs| && !(IsCommand(obs[i]) && OutputFailed(obs[i]) && Head(obs[i]).Some?)
    ensures FixAt(obs, i).None?
  {
  }

  lemma NoFix(obs: seq<Observation>, i: nat)
    requires forall j: nat :: !IsFix(obs, i, j)
    ensures FixAt(obs, i).None?
  {
    hide IsFix;
  }

  lemma IsFailing(obs: seq<Observation>, i: nat)
    requires i < |obs| && IsCommand(obs[i]) && OutputFailed(obs[i]) && Head(obs[i]).Some?
    ensures Failing(obs, i)
  {
  }

  // ---- what counts, in terms of the session itself ----------------------------------------------------

  /** `w` is the first stretch without white space in the input. */
  ghost predicate StartsWith(o: Observation, w: string, at: nat) {
    && o.input.Some? && w != "" && at + |w| <= |o.input.value| && o.input.value[at..at + |w|] == w
    && (forall k :: 0 <= k < at ==> IsSpace(o.input.value[k])) && (forall k :: 0 <= k < |w| ==> !IsSpace(w[k]))
    && (at + |w| < |o.input.value| ==> IsSpace(o.input.value[at + |w|]))
  }

  lemma HeadMeans(o: Observation)
    ensures Head(o).None? <==> forall k :: 0 <= k < |o.input.GetOr("")| ==> IsSpace(o.input.value[k])
    ensures Head(o).Some? ==> exists at: nat :: StartsWith(o, Head(o).value, at)
  {
    var input := o.input.GetOr("");
    TrimEmptyIff(input);
    if Head(o).Some? {
      TrimTakesSpace(input);
      TrimTrims(input);
      var i: nat, j: nat :| SpaceAround(input, i, j) && Trim(input) == input[i..j];
      FirstWordMeans(Trim(input));
      WordStarts(o, i, j);
      assert StartsWith(o, FirstWord(Trim(input)), i);
    }
  }

  lemma WordStarts(o: Observation, i: nat, j: nat)
    requires o.input.Some? && SpaceAround(o.input.value, i, j) && i < j && !IsSpace(o.input.value[i])
    ensures StartsWith(o, FirstWord(o.input.value[i..j]), i)
  {
    var input, t := o.input.value, o.input.value[i..j];
    var w := FirstWord(t);
    FirstWordMeans(t);
    assert t[0] == input[i];
    assert input[i..i + |w|] == t[..|w|];
    if |w| < |t| {
      assert t[|w|] == input[i + |w|];
    }
  }

  lemma StartsOnce(o: Observation, v: string, a: nat, w: string, b: nat)
    requires StartsWith(o, v, a) && StartsWith(o, w, b)
    ensures v == w
  {
    var s := o.input.value;
    assert s[a] == v[0] && s[b] == w[0];
    assert a == b;
    assert forall k :: 0 <= k < |v| ==> s[a + k] == v[k];
    assert forall k :: 0 <= k < |w| ==> s[a + k] == w[k];
  }

  /** A command is a call of `Bash`; `Runs` tells its first word. */
  ghost predicate Runs(o: Observation, w: string) {
    o.tool == "Bash" && exists at: nat :: StartsWith(o, w, at)
  }

  lemma RunsIff(o: Observation, w: string)
    ensures Runs(o, w) <==> IsCommand(o) && Head(o) == Some(w)
  {
    HeadMeans(o);
    if Runs(o, w) {
      var b: nat :| StartsWith(o, w, b);
      assert !IsSpace(w[0]) && o.input.value[b] == w[0];
      var a: nat :| StartsWith(o, Head(o).value, a);
      StartsOnce(o, Head(o).value, a, w, b);
    }
  }

  /** Some line of the output tells of a failure. */
  ghost predicate Fails(o: Observation) {
    o.output.Some? && exists k: nat :: k < |Lines(o.output.value)| && ShowsSomewhere(Lines(o.output.value)[k])
  }

  lemma FailsIff(o: Observation)
    ensures Fails(o) <==> OutputFailed(o)
  {
    if o.output.Some? {
      forall k: nat | k < |Lines(o.output.value)|
        ensures IsFailLine(Lines(o.output.value)[k]) <==> ShowsSomewhere(Lines(o.output.value)[k])
      {
        FailLineIff(Lines(o.output.value)[k]);
      }
    }
  }

  /** An edit that says what it edits. */
  ghost predicate Edits(o: Observation) {
    && o.tool in ["Edit", "Write", "MultiEdit", "NotebookEdit"]
    && o.input.Some? && exists k :: 0 <= k < |o.input.value| && !IsSpace(o.input.value[k])
  }

  lemma EditsIff(o: Observation)
    ensures Edits(o) <==> IsEdit(o) && CmdInput(o) != ""
  {
    TrimEmptyIff(o.input.GetOr(""));
  }

  /** When a failed command counts as fixed: the next run of the same word that does not fail has the same input, or an
      edit came in between. */
  lemma FixedIff(obs: seq<Observation>, i: nat, j: nat, w: string)
    requires i < j < |obs| && Runs(obs[i], w)
    ensures Failing(obs, i) <==> Fails(obs[i])
    ensures IsFix(obs, i, j) <==>
      && Runs(obs[j], w) && !Fails(obs[j]) && (forall k :: i < k < j && Runs(obs[k], w) ==> Fails(obs[k]))
      && (obs[j].input == obs[i].input || exists k :: i < k < j && Edits(obs[k]))
  {
    hide Fails, Runs, Edits, OutputFailed, Head, CmdInput, IsCommand, IsEdit;
    forall k | i <= k <= j
      ensures Fails(obs[k]) <==> OutputFailed(obs[k])
      ensures Runs(obs[k], w) <==> IsCommand(obs[k]) && Head(obs[k]) == Some(w)
      ensures Edits(obs[k]) <==> IsEdit(obs[k]) && CmdInput(obs[k]) != ""
    {
      FailsIff(obs[k]);
      RunsIff(obs[k], w);
      EditsIff(obs[k]);
    }
  }

  // ---- what a correction says ---------------------------------------------------------------------

  /** The first of the lines that tells of a failure. */
  ghost predicate IsFirstFailure(lines: seq<string>, k: nat) {
    k < |lines| && IsFailLine(lines[k]) && forall j :: 0 <= j < k ==> !IsFailLine(lines[j])
  }

  lemma {:induction false} FirstFailureFound(lines: seq<string>) returns (k: nat)
    requires exists i :: 0 <= i < |lines| && IsFailLine(lines[i])
    ensures IsFirstFailure(lines, k) && FirstFailLine(lines) == Some(lines[k])
  {
    hide IsFailLine;
    if IsFailLine(lines[0]) {
      k := 0;
    } else {
      var i :| 0 <= i < |lines| && IsFailLine(lines[i]);
      assert lines[1..][i - 1] == lines[i];
      k := FirstFailureFound(lines[1..]);
      k := k + 1;
      assert lines[1..][k - 1] == lines[k];
      forall j | 0 <= j < k ensures !IsFailLine(lines[j]) {
        assert j > 0 ==> lines[1..][j - 1] == lines[j];
      }
    }
  }

  ghost predicate Blank(line: string) {
    forall i :: 0 <= i < |line| ==> IsSpace(line[i])
  }

  /** An output that tells of no failure is summed up by its first line that is not blank, if there is one. */
  lemma {:induction false} FirstTextFound(lines: seq<string>)
    ensures match FirstTextLine(lines)
            case None => forall i :: 0 <= i < |lines| ==> Blank(lines[i])
            case Some(line) => exists k: nat :: k < |lines| && lines[k] == line && !Blank(line) && forall j :: 0 <= j < k ==> Blank(lines[j])
  {
    if lines != [] {
      TrimEmptyIff(lines[0]);
      if !Blank(lines[0]) {
        assert FirstTextLine(lines) == Some(lines[0]) && lines[0] == lines[0];
      } else {
        var rest := lines[1..];
        FirstTextFound(rest);
        assert forall i :: 0 < i < |lines| ==> lines[i] == rest[i - 1];
        if FirstTextLine(rest).Some? {
          var k: nat :| k < |rest| && rest[k] == FirstTextLine(rest).value && forall j :: 0 <= j < k ==> Blank(rest[j]);
          var n := k + 1;
          assert lines[n] == rest[k];
          forall j | 0 <= j < n ensures Blank(lines[j]) {
            assert j > 0 ==> lines[j] == rest[j - 1];
          }
        }
      }
    }
  }

  /** A list read aloud: its parts with a comma between them. */
  lemma {:induction false} JoinListSnoc(parts: seq<string>, last: string)
    ensures JoinList([]) == "" && JoinList([last]) == last
    ensures parts != [] ==> JoinList(parts + [last]) == JoinList(parts) + ", " + last
  {
    if |parts| == 1 {
      assert (parts + [last])[1..] == [last];
    } else if |parts| > 1 {
      JoinListSnoc(parts[1..], last);
      assert (parts + [last])[1..] == parts[1..] + [last];
      assert JoinList(parts + [last]) == parts[0] + ", " + (JoinList(parts[1..]) + ", " + last);
    }
  }

  ghost predicate Says(obs: seq<Observation>, i: nat, j: nat, k: nat, c: Correction)
    requires i < |obs| && j < |obs| && obs[i].input.Some? && obs[i].output.Some? && obs[j].input.Some?
  {
    var lines, targets := Lines(obs[i].output.value), if i < j then Edited(obs, i + 1, j) else [];
    && IsFirstFailure(lines, k)
    && c.problem == "`" + SafeTruncate(Trim(obs[i].input.value), 200) + "` failed: " + SafeTruncate(Trim(lines[k]), 200)
    && c.solution == (if targets == [] then "" else "edited " + JoinList(targets) + "; ")
                     + "re-ran `" + SafeTruncate(Trim(obs[j].input.value), 120) + "` \U{2192} passed"
  }

  /** What is mined names the command that failed and the first line of its output that tells so, then the edits up to
      the fix and the command that passed. */
  lemma CorrectionSays(obs: seq<Observation>, i: nat, c: Correction)
    requires Yields(obs, i, c)
    ensures obs[i].input.Some? && obs[i].output.Some?
    ensures exists j: nat, k: nat :: IsFix(obs, i, j) && obs[j].input.Some? && Says(obs, i, j, k, c)
  {
    hide IsFailLine, Lines, JoinList, SafeTruncate, Edited;
    var j: nat :| IsFix(obs, i, j) && c == CorrectionOf(obs[i], obs[j], Edited(obs, i + 1, j));
    var lines := Lines(obs[i].output.value);
    var k := FirstFailureFound(lines);
    assert CmdInput(obs[i]) == Trim(obs[i].input.value);
    assert Says(obs, i, j, k, c);
  }
}
