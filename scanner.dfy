/**
 * The acronym pattern of both glossary components,
 *
 *     /\b([A-Z]{2,6})\b\s*[-–—:]?\s*(.*?)(?=\n|\.|$)/g  run by String.prototype.matchAll,
 *
 * written out twice: as a declarative description of what the regular
 * expression matches and which of its matches JavaScript's backtracking
 * engine reports (IsPatternMatch, IsChosen, IsGlobalScan), and as a
 * left-to-right scanner (MatchAt, NextMatch, ScanFrom) proved to produce
 * exactly that sequence of matches.
 *
 * JavaScript semantics fixed here: `\b` uses the word characters
 * [A-Za-z0-9_]; `\s` is ECMAScript white space including line terminators;
 * `.` matches anything but a line terminator; `$` is the end of the input
 * (no `m` flag); the global scan resumes at the end of the previous match.
 */
module Scanner {
  import opened Wrappers
  import opened Text

  predicate IsWordChar(c: char) {
    IsAsciiUpper(c) || 'a' <= c <= 'z' || '0' <= c <= '9' || c == '_'
  }

  /** The class `[-–—:]`: hyphen-minus, en dash, em dash, colon. */
  predicate IsSeparator(c: char) {
    c == '-' || c == '\U{2013}' || c == '\U{2014}' || c == ':'
  }

  /** `\b` at position `i` (between s[i-1] and s[i]). */
  predicate AtWordBoundary(s: string, i: nat)
    requires i <= |s|
  {
    (i > 0 && IsWordChar(s[i - 1])) != (i < |s| && IsWordChar(s[i]))
  }

  /**
   * One match, as positions: the group-1 token is s[start..tokenEnd], the
   * group-2 capture is s[capStart..capEnd], and the match ends at capEnd
   * (the lookahead consumes nothing).
   */
  datatype Match = Match(start: nat, tokenEnd: nat, capStart: nat, capEnd: nat) {
    ghost predicate Within(s: string) {
      start < tokenEnd <= capStart <= capEnd <= |s|
    }

    /** Group 1, `match[1]`. */
    function Acronym(s: string): string
      requires Within(s)
    {
      s[start..tokenEnd]
    }

    /** Group 2, `match[2]`. */
    function Captured(s: string): string
      requires Within(s)
    {
      s[capStart..capEnd]
    }
  }

  // ---------------------------------------------------------------------
  // Declarative description
  // ---------------------------------------------------------------------

  ghost predicate AllSpaceIn(s: string, i: nat, j: nat)
    requires i <= j <= |s|
  {
    forall k :: i <= k < j ==> IsSpace(s[k])
  }

  /** `\b([A-Z]{2,6})\b` matches s[i..e]. */
  ghost predicate IsToken(s: string, i: nat, e: nat) {
    && i <= e <= |s|
    && 2 <= e - i <= 6
    && AtWordBoundary(s, i)
    && AtWordBoundary(s, e)
    && forall k :: i <= k < e ==> IsAsciiUpper(s[k])
  }

  /** `\s*[-–—:]?\s*` matches s[t..p], split as s[t..x] spaces, s[x..y] separator or nothing, s[y..p] spaces. */
  ghost predicate GapSplit(s: string, t: nat, x: nat, y: nat, p: nat) {
    && t <= x <= y <= p <= |s|
    && AllSpaceIn(s, t, x)
    && (y == x || (y == x + 1 && IsSeparator(s[x])))
    && AllSpaceIn(s, y, p)
  }

  ghost predicate IsGap(s: string, t: nat, p: nat) {
    t <= p <= |s| && exists x: nat, y: nat :: GapSplit(s, t, x, y, p)
  }

  /** `(.*?)(?=\n|\.|$)` matches s[p..q]: the lazy group stops at the first `.`, `\n` or end. */
  ghost predicate IsTail(s: string, p: nat, q: nat) {
    && p <= q <= |s|
    && (forall k :: p <= k < q ==> s[k] != '.' && !IsLineTerminator(s[k]))
    && (q == |s| || s[q] == '\n' || s[q] == '.')
  }

  /** Some path through the pattern matches with these positions. */
  ghost predicate IsPatternMatch(s: string, m: Match) {
    IsToken(s, m.start, m.tokenEnd) && IsGap(s, m.tokenEnd, m.capStart) && IsTail(s, m.capStart, m.capEnd)
  }

  /**
   * The match the engine reports at m.start. Backtracking first gives the
   * greedy `\s*`, `[-–—:]?`, `\s*` their longest choice and then gives back one
   * character at a time, so the capture starts it tries come in descending
   * order; the first start from which the lazy group can reach its
   * lookahead wins. That is the greatest feasible capture start.
   */
  ghost predicate IsChosen(s: string, m: Match) {
    && IsPatternMatch(s, m)
    && forall m': Match :: m'.start == m.start && IsPatternMatch(s, m') ==> m'.capStart <= m.capStart
  }

  ghost predicate NoMatchAt(s: string, i: nat) {
    forall m: Match :: m.start == i ==> !IsPatternMatch(s, m)
  }

  /**
   * `ms` is what `matchAll` yields from lastIndex `from`: the leftmost match
   * at or after `from`, then the scan resumed at that match's end.
   */
  ghost predicate IsGlobalScan(s: string, from: nat, ms: seq<Match>)
    decreases |ms|
  {
    if ms == [] then
      forall i: nat :: from <= i <= |s| ==> NoMatchAt(s, i)
    else
      && from <= ms[0].start
      && IsChosen(s, ms[0])
      && (forall i: nat :: from <= i < ms[0].start ==> NoMatchAt(s, i))
      && IsGlobalScan(s, ms[0].capEnd, ms[1..])
  }

  // ---------------------------------------------------------------------
  // Scanner
  // ---------------------------------------------------------------------

  /** End of the run of capitals starting at i. */
  function UpperEnd(s: string, i: nat): (e: nat)
    requires i <= |s|
    ensures i <= e <= |s|
    ensures forall k :: i <= k < e ==> IsAsciiUpper(s[k])
    ensures e == |s| || !IsAsciiUpper(s[e])
    decreases |s| - i
  {
    if i < |s| && IsAsciiUpper(s[i]) then UpperEnd(s, i + 1) else i
  }

  /** End of the run of white space starting at i. */
  function SpaceEnd(s: string, i: nat): (e: nat)
    requires i <= |s|
    ensures i <= e <= |s|
    ensures forall k :: i <= k < e ==> IsSpace(s[k])
    ensures e == |s| || !IsSpace(s[e])
    decreases |s| - i
  {
    if i < |s| && IsSpace(s[i]) then SpaceEnd(s, i + 1) else i
  }

  /** First position at or after p that is the end, a `.` or a line terminator. */
  function StopFrom(s: string, p: nat): (q: nat)
    requires p <= |s|
    ensures p <= q <= |s|
    ensures forall k :: p <= k < q ==> s[k] != '.' && !IsLineTerminator(s[k])
    ensures q == |s| || s[q] == '.' || IsLineTerminator(s[q])
    decreases |s| - p
  {
    if p < |s| && s[p] != '.' && !IsLineTerminator(s[p]) then StopFrom(s, p + 1) else p
  }

  /** The lazy group started at p reaches its lookahead (it is not blocked by \r, U+2028 or U+2029). */
  predicate LazyOk(s: string, p: nat)
    requires p <= |s|
  {
    var q := StopFrom(s, p);
    q == |s| || s[q] == '\n' || s[q] == '.'
  }

  /** End of the `\b[A-Z]{2,6}\b` token at i, if there is one. */
  function TokenEnd(s: string, i: nat): (r: Option<nat>)
    requires i <= |s|
    ensures r.Some? ==> i + 2 <= r.value <= |s|
  {
    if i < |s| && AtWordBoundary(s, i) && IsAsciiUpper(s[i]) then
      var e := UpperEnd(s, i);
      if 2 <= e - i <= 6 && AtWordBoundary(s, e) then Some(e) else None
    else None
  }

  /** The furthest position `\s*[-–—:]?\s*` can reach from t. */
  function Reach(s: string, t: nat): (c: nat)
    requires t <= |s|
    ensures t <= c <= |s|
  {
    var a := SpaceEnd(s, t);
    if a < |s| && IsSeparator(s[a]) then SpaceEnd(s, a + 1) else a
  }

  /** The greatest p in [lo, hi] from which the lazy group succeeds: the backtracking order, descending. */
  function LastLazyOk(s: string, lo: nat, hi: nat): (r: Option<nat>)
    requires lo <= hi <= |s|
    ensures r.Some? ==> lo <= r.value <= hi && LazyOk(s, r.value)
    ensures r.Some? ==> forall p: nat :: r.value < p <= hi ==> !LazyOk(s, p)
    ensures r.None? ==> forall p: nat :: lo <= p <= hi ==> !LazyOk(s, p)
    decreases hi - lo
  {
    if LazyOk(s, hi) then Some(hi)
    else if hi == lo then None
    else LastLazyOk(s, lo, hi - 1)
  }

  /** The match the engine reports when it tries position i. */
  function MatchAt(s: string, i: nat): (r: Option<Match>)
    requires i <= |s|
    ensures r.Some? ==> r.value.start == i && r.value.Within(s)
  {
    match TokenEnd(s, i)
    case None => None
    case Some(e) =>
      match LastLazyOk(s, e, Reach(s, e))
      case None => None
      case Some(p) => Some(Match(i, e, p, StopFrom(s, p)))
  }

  /** The leftmost match starting at or after `from`. */
  function NextMatch(s: string, from: nat): (r: Option<Match>)
    requires from <= |s|
    ensures r.Some? ==> from <= r.value.start && r.value.Within(s)
    decreases |s| - from
  {
    match MatchAt(s, from)
    case Some(m) => Some(m)
    case None => if from == |s| then None else NextMatch(s, from + 1)
  }

  /** `[...text.matchAll(regex)]` with lastIndex starting at `from`: matches in text order, never overlapping. */
  function ScanFrom(s: string, from: nat): (r: seq<Match>)
    requires from <= |s|
    ensures InOrder(s, from, r)
    decreases |s| - from
  {
    match NextMatch(s, from)
    case None => []
    case Some(m) =>
      var rest := ScanFrom(s, m.capEnd);
      ConsInOrder(s, from, m, rest);
      [m] + rest
  }

  /** Every match lies in `s` at or after `from`, each starts at or after the previous one's end. */
  ghost predicate InOrder(s: string, from: nat, ms: seq<Match>) {
    && (forall k :: 0 <= k < |ms| ==> from <= ms[k].start && ms[k].Within(s))
    && (forall j, k :: 0 <= j < k < |ms| ==> ms[j].capEnd <= ms[k].start)
  }

  lemma ConsInOrder(s: string, from: nat, m: Match, rest: seq<Match>)
    requires from <= m.start && m.Within(s)
    requires InOrder(s, m.capEnd, rest)
    ensures InOrder(s, from, [m] + rest)
  {
    var r := [m] + rest;
    assert forall k :: 0 < k < |r| ==> r[k] == rest[k - 1];
  }

  function Scan(s: string): (r: seq<Match>)
    ensures forall k :: 0 <= k < |r| ==> r[k].Within(s)
    ensures forall j, k :: 0 <= j < k < |r| ==> r[j].capEnd <= r[k].start
  {
    ScanFrom(s, 0)
  }

  // ---------------------------------------------------------------------
  // The scanner meets the description
  // ---------------------------------------------------------------------

  /** UpperEnd stops exactly where the run of capitals stops. */
  lemma {:induction false} UpperEndAt(s: string, i: nat, e: nat)
    requires i <= e <= |s|
    requires forall k :: i <= k < e ==> IsAsciiUpper(s[k])
    requires e == |s| || !IsAsciiUpper(s[e])
    ensures UpperEnd(s, i) == e
    decreases e - i
  {
    if i < e {
      UpperEndAt(s, i + 1, e);
    }
  }

  /** A token is the whole run of capitals that starts it. */
  lemma TokenIsRun(s: string, i: nat, e: nat)
    requires IsToken(s, i, e)
    ensures e == UpperEnd(s, i)
  {
    assert IsWordChar(s[e - 1]);
    UpperEndAt(s, i, e);
  }

  lemma TokenEndIff(s: string, i: nat, e: nat)
    requires i <= |s|
    ensures TokenEnd(s, i) == Some(e) <==> IsToken(s, i, e)
  {
    if IsToken(s, i, e) {
      TokenIsRun(s, i, e);
    }
  }

  /** A white-space run from t reaches at least as far as any all-space prefix. */
  lemma {:induction false} SpaceEndAtLeast(s: string, t: nat, x: nat)
    requires t <= x <= |s| && AllSpaceIn(s, t, x)
    ensures x <= SpaceEnd(s, t)
    decreases x - t
  {
    if t < x {
      SpaceEndAtLeast(s, t + 1, x);
    }
  }

  /** The gap reaches exactly the positions up to Reach. */
  lemma GapIff(s: string, t: nat, p: nat)
    requires t <= |s|
    ensures IsGap(s, t, p) <==> t <= p <= Reach(s, t)
  {
    var a := SpaceEnd(s, t);
    if IsGap(s, t, p) {
      var x: nat, y: nat :| GapSplit(s, t, x, y, p);
      SpaceEndAtLeast(s, t, x);
      if y == x + 1 {
        assert !IsSpace(s[x]);
        assert x == a;
        SpaceEndAtLeast(s, y, p);
      } else {
        assert AllSpaceIn(s, t, p);
        SpaceEndAtLeast(s, t, p);
      }
    }
    if t <= p <= Reach(s, t) {
      if p <= a {
        assert GapSplit(s, t, p, p, p);
      } else {
        assert GapSplit(s, t, a, a + 1, p);
      }
    }
  }

  /** StopFrom finds the first stopping character. */
  lemma {:induction false} StopFromAt(s: string, p: nat, q: nat)
    requires p <= q <= |s|
    requires forall k :: p <= k < q ==> s[k] != '.' && !IsLineTerminator(s[k])
    requires q == |s| || s[q] == '.' || IsLineTerminator(s[q])
    ensures StopFrom(s, p) == q
    decreases q - p
  {
    if p < q {
      StopFromAt(s, p + 1, q);
    }
  }

  /** The lazy group from p ends exactly at StopFrom when it succeeds. */
  lemma TailIff(s: string, p: nat, q: nat)
    requires p <= |s|
    ensures IsTail(s, p, q) <==> LazyOk(s, p) && q == StopFrom(s, p)
  {
    if IsTail(s, p, q) {
      StopFromAt(s, p, q);
    }
  }

  /** What MatchAt returns is the engine's match at i, and None means the pattern cannot match at i. */
  lemma MatchAtCorrect(s: string, i: nat)
    requires i <= |s|
    ensures MatchAt(s, i).Some? ==> IsChosen(s, MatchAt(s, i).value)
    ensures MatchAt(s, i).None? ==> NoMatchAt(s, i)
  {
    var tok := TokenEnd(s, i);
    forall m: Match | m.start == i && IsPatternMatch(s, m)
      ensures tok == Some(m.tokenEnd)
      ensures m.capStart <= Reach(s, m.tokenEnd) && LazyOk(s, m.capStart)
    {
      TokenEndIff(s, i, m.tokenEnd);
      GapIff(s, m.tokenEnd, m.capStart);
      TailIff(s, m.capStart, m.capEnd);
    }
    if tok.Some? {
      var e := tok.value;
      TokenEndIff(s, i, e);
      var last := LastLazyOk(s, e, Reach(s, e));
      if last.Some? {
        var p := last.value;
        var m := Match(i, e, p, StopFrom(s, p));
        GapIff(s, e, p);
        TailIff(s, p, m.capEnd);
        assert IsPatternMatch(s, m);
      }
    }
  }

  /**
   * `r` is what the engine finds from lastIndex `from`: the chosen match at
   * the leftmost position that has one, or None when no position has one.
   */
  ghost predicate IsNextMatch(s: string, from: nat, r: Option<Match>) {
    match r
    case Some(m) => from <= m.start && IsChosen(s, m) && forall i: nat :: from <= i < m.start ==> NoMatchAt(s, i)
    case None => forall i: nat :: from <= i <= |s| ==> NoMatchAt(s, i)
  }

  /** When nothing matches at `from`, the search from `from` finds what the search from `from + 1` finds. */
  lemma NextMatchStep(s: string, from: nat, r: Option<Match>)
    requires NoMatchAt(s, from)
    requires IsNextMatch(s, from + 1, r)
    ensures IsNextMatch(s, from, r)
  {
    var stop := if r.Some? then r.value.start else |s| + 1;
    forall i: nat | from <= i < stop ensures NoMatchAt(s, i) {
      if i > from {
        assert from + 1 <= i;
      }
    }
  }

  lemma {:induction false} NextMatchCorrect(s: string, from: nat)
    requires from <= |s|
    ensures IsNextMatch(s, from, NextMatch(s, from))
    decreases |s| - from
  {
    MatchAtCorrect(s, from);
    var here := MatchAt(s, from);
    if here.Some? {
      assert IsNextMatch(s, from, here);
      assert NextMatch(s, from) == here;
    } else if from == |s| {
      assert IsNextMatch(s, from, None);
      assert NextMatch(s, from) == None;
    } else {
      NextMatchCorrect(s, from + 1);
      var next := NextMatch(s, from + 1);
      NextMatchStep(s, from, next);
      assert NextMatch(s, from) == next;
    }
  }

  /** The scanner yields exactly what `matchAll` yields. */
  lemma {:induction false} ScanFromIsGlobalScan(s: string, from: nat)
    requires from <= |s|
    ensures IsGlobalScan(s, from, ScanFrom(s, from))
    decreases |s| - from
  {
    NextMatchCorrect(s, from);
    var r := ScanFrom(s, from);
    if r != [] {
      ScanFromIsGlobalScan(s, r[0].capEnd);
      assert r[1..] == ScanFrom(s, r[0].capEnd);
    }
  }

  lemma ScanIsGlobalScan(s: string)
    ensures IsGlobalScan(s, 0, Scan(s))
  {
    ScanFromIsGlobalScan(s, 0);
  }

  /** At most one match is reported at a position. */
  lemma ChosenUnique(s: string, m: Match, m': Match)
    requires IsChosen(s, m) && IsChosen(s, m') && m.start == m'.start
    ensures m == m'
  {
    TokenIsRun(s, m.start, m.tokenEnd);
    TokenIsRun(s, m'.start, m'.tokenEnd);
    TailIff(s, m.capStart, m.capEnd);
    TailIff(s, m'.capStart, m'.capEnd);
  }

  /** Two leftmost matches from the same `from` start at the same position. */
  lemma SameStart(s: string, from: nat, m: Match, m': Match)
    requires from <= m.start && from <= m'.start
    requires !NoMatchAt(s, m.start) && !NoMatchAt(s, m'.start)
    requires forall i: nat :: from <= i < m.start ==> NoMatchAt(s, i)
    requires forall i: nat :: from <= i < m'.start ==> NoMatchAt(s, i)
    ensures m.start == m'.start
  {
  }

  /** The description determines the match sequence: there is only one global scan. */
  lemma {:induction false} GlobalScanUnique(s: string, from: nat, ms: seq<Match>, ms': seq<Match>)
    requires IsGlobalScan(s, from, ms) && IsGlobalScan(s, from, ms')
    ensures ms == ms'
    decreases |ms|
  {
    if ms != [] {
      assert !NoMatchAt(s, ms[0].start);
    }
    if ms' != [] {
      assert !NoMatchAt(s, ms'[0].start);
    }
    if ms != [] && ms' != [] {
      var m, m' := ms[0], ms'[0];
      SameStart(s, from, m, m');
      ChosenUnique(s, m, m');
      GlobalScanUnique(s, m.capEnd, ms[1..], ms'[1..]);
      assert ms == [m] + ms[1..];
      assert ms' == [m'] + ms'[1..];
    }
  }

  /** Every reported match is the engine's choice at its position. */
  lemma {:induction false} GlobalScanChosen(s: string, from: nat, ms: seq<Match>)
    requires IsGlobalScan(s, from, ms)
    ensures forall k :: 0 <= k < |ms| ==> IsChosen(s, ms[k])
  {
    forall k | 0 <= k < |ms| ensures IsChosen(s, ms[k]) {
      GlobalScanChosenAt(s, from, ms, k);
    }
  }

  lemma {:induction false} GlobalScanChosenAt(s: string, from: nat, ms: seq<Match>, k: nat)
    requires IsGlobalScan(s, from, ms)
    requires k < |ms|
    ensures IsChosen(s, ms[k])
    decreases k
  {
    if k > 0 {
      GlobalScanChosenAt(s, ms[0].capEnd, ms[1..], k - 1);
      assert ms[1..][k - 1] == ms[k];
    }
  }

  /** A candidate token: two to six capitals A-Z. */
  predicate IsAcronymWord(t: string) {
    2 <= |t| <= 6 && forall k :: 0 <= k < |t| ==> IsAsciiUpper(t[k])
  }

  /** The capture holds no `.` and no line terminator. */
  predicate IsCaptureText(t: string) {
    forall k :: 0 <= k < |t| ==> t[k] != '.' && !IsLineTerminator(t[k])
  }

  /** Shape of a match the engine reports. */
  lemma ChosenShape(s: string, m: Match)
    requires IsChosen(s, m)
    ensures m.Within(s) && IsToken(s, m.start, m.tokenEnd)
    ensures IsAcronymWord(m.Acronym(s))
    ensures IsCaptureText(m.Captured(s))
    ensures m.capEnd == |s| || s[m.capEnd] == '\n' || s[m.capEnd] == '.'
  {
  }

  /**
   * Shape of every reported match: the token is a whole word of 2-6
   * capitals, the capture stays on one sentence of one line and is followed
   * by `.`, `\n` or the end of the text.
   */
  lemma ScanShape(s: string)
    ensures forall m :: m in Scan(s) ==>
      && IsToken(s, m.start, m.tokenEnd)
      && IsAcronymWord(m.Acronym(s))
      && IsCaptureText(m.Captured(s))
      && (m.capEnd == |s| || s[m.capEnd] == '\n' || s[m.capEnd] == '.')
  {
    ScanIsGlobalScan(s);
    GlobalScanChosen(s, 0, Scan(s));
    forall m | m in Scan(s)
      ensures IsToken(s, m.start, m.tokenEnd) && IsAcronymWord(m.Acronym(s)) && IsCaptureText(m.Captured(s))
      ensures m.capEnd == |s| || s[m.capEnd] == '\n' || s[m.capEnd] == '.'
    {
      ChosenShape(s, m);
    }
  }

  /**
   * Nothing inside an earlier match is reported: between one match's start and
   * its end no later match begins, because the scan resumes at the end.
   */
  lemma ScanSkipsCaptured(s: string, j: nat, k: nat, i: nat)
    requires j < k < |Scan(s)|
    requires Scan(s)[j].start < i < Scan(s)[j].capEnd
    ensures Scan(s)[k].start != i
  {
  }

  /**
   * A run of capitals yields no match anywhere inside it when it is longer
   * than six letters or touches another word character on either side
   * (`ABCDEFG`, `NEM2`, `xNEM`): `\b` or `{2,6}` fails.
   */
  lemma NoMatchInBadRun(s: string, i: nat, j: nat)
    requires i <= |s| && i <= j < UpperEnd(s, i)
    requires || (i > 0 && IsWordChar(s[i - 1]))
             || UpperEnd(s, i) - i > 6
             || (UpperEnd(s, i) < |s| && IsWordChar(s[UpperEnd(s, i)]))
    ensures NoMatchAt(s, j)
  {
    var e := UpperEnd(s, i);
    if j > i {
      assert IsWordChar(s[j - 1]) && IsWordChar(s[j]);
    } else if i > 0 && IsWordChar(s[i - 1]) {
      assert IsWordChar(s[i]);
    } else if e < |s| && IsWordChar(s[e]) {
      assert IsWordChar(s[e - 1]);
    }
    assert MatchAt(s, j) == None;
    MatchAtCorrect(s, j);
  }

  // ---------------------------------------------------------------------
  // One glossary line
  // ---------------------------------------------------------------------

  /** Text `\s*[-–—:]?\s*` matches as a whole: white space, at most one separator, white space. */
  ghost predicate IsGapText(g: string) {
    AllSpace(g) || exists x :: 0 <= x < |g| && AllSpace(g[..x]) && IsSeparator(g[x]) && AllSpace(g[x + 1..])
  }

  /** SpaceEnd stops exactly where the run of white space stops. */
  lemma SpaceEndAt(s: string, t: nat, x: nat)
    requires t <= x <= |s| && AllSpaceIn(s, t, x)
    requires x == |s| || !IsSpace(s[x])
    ensures SpaceEnd(s, t) == x
  {
    SpaceEndAtLeast(s, t, x);
  }

  /** A run of 2-6 capitals at the start of the text, followed by a non-word character, is a token. */
  lemma TokenAtStart(s: string, e: nat)
    requires 2 <= e <= 6 && e < |s|
    requires forall k :: 0 <= k < e ==> IsAsciiUpper(s[k])
    requires !IsWordChar(s[e])
    ensures TokenEnd(s, 0) == Some(e)
  {
    UpperEndAt(s, 0, e);
  }

  /** The gap s[e..p] is white space around at most one separator, and s[p] is neither. */
  lemma ReachAt(s: string, e: nat, p: nat)
    requires e <= p < |s|
    requires AllSpaceIn(s, e, p) || exists x :: e <= x < p && AllSpaceIn(s, e, x) && IsSeparator(s[x]) && AllSpaceIn(s, x + 1, p)
    requires !IsSpace(s[p]) && !IsSeparator(s[p])
    ensures Reach(s, e) == p
  {
    if AllSpaceIn(s, e, p) {
      SpaceEndAt(s, e, p);
    } else {
      var x :| e <= x < p && AllSpaceIn(s, e, x) && IsSeparator(s[x]) && AllSpaceIn(s, x + 1, p);
      SpaceEndAt(s, e, x);
      SpaceEndAt(s, x + 1, p);
    }
  }

  /** The capture from p runs to q when s[p..q] is capture text followed by `.`, `\n` or the end. */
  lemma LazyAt(s: string, e: nat, p: nat, q: nat)
    requires e <= p <= q <= |s|
    requires forall k :: p <= k < q ==> s[k] != '.' && !IsLineTerminator(s[k])
    requires q == |s| || s[q] == '.' || s[q] == '\n'
    ensures LastLazyOk(s, e, p) == Some(p) && StopFrom(s, p) == q
  {
    StopFromAt(s, p, q);
  }

  /** Gap text inside a longer text satisfies the positional gap condition. */
  lemma GapTextIn(s: string, e: nat, p: nat)
    requires e <= p <= |s| && IsGapText(s[e..p])
    ensures AllSpaceIn(s, e, p) || exists x :: e <= x < p && AllSpaceIn(s, e, x) && IsSeparator(s[x]) && AllSpaceIn(s, x + 1, p)
  {
    var g := s[e..p];
    assert forall k :: e <= k < p ==> s[k] == g[k - e];
    if !AllSpace(g) {
      var x :| 0 <= x < |g| && AllSpace(g[..x]) && IsSeparator(g[x]) && AllSpace(g[x + 1..]);
      assert forall k :: e <= k < e + x ==> s[k] == g[..x][k - e];
      assert forall k :: e + x + 1 <= k < p ==> s[k] == g[x + 1..][k - e - x - 1];
      assert AllSpaceIn(s, e, e + x) && IsSeparator(s[e + x]) && AllSpaceIn(s, e + x + 1, p);
    }
  }

  /**
   * A text that opens with `ACR<gap>Full form` followed by `.`, a line feed
   * or the end is read from its first character as the acronym ACR with the
   * capture `Full form`: s[..e] is the acronym, s[e..p] is white space
   * around at most one separator, s[p..q] is the full form, which starts
   * with neither.
   */
  lemma DefinitionLine(s: string, e: nat, p: nat, q: nat)
    requires e < p < q <= |s|
    requires IsAcronymWord(s[..e])
    requires IsGapText(s[e..p])
    requires !IsSpace(s[p]) && !IsSeparator(s[p]) && IsCaptureText(s[p..q])
    requires q == |s| || s[q] == '.' || s[q] == '\n'
    ensures MatchAt(s, 0) == Some(Match(0, e, p, q))
  {
    assert forall k :: 0 <= k < e ==> s[k] == s[..e][k];
    assert forall k :: p <= k < q ==> s[k] == s[p..q][k - p];
    GapTextIn(s, e, p);
    assert !IsWordChar(s[e]);
    TokenAtStart(s, e);
    ReachAt(s, e, p);
    LazyAt(s, e, p, q);
  }

  /** Nothing is found from a position where only an optional final `.` is left. */
  lemma NothingAfter(s: string, q: nat)
    requires q == |s| || (q + 1 == |s| && s[q] == '.')
    ensures ScanFrom(s, q) == []
  {
    assert NextMatch(s, |s|) == None;
    if q < |s| {
      assert MatchAt(s, q) == None;
      assert NextMatch(s, q) == None;
    }
  }

  /** A text that is one definition line, with or without a final `.`, yields exactly that one match. */
  lemma DefinitionLineScan(s: string, e: nat, p: nat, q: nat)
    requires e < p < q <= |s|
    requires IsAcronymWord(s[..e])
    requires IsGapText(s[e..p])
    requires !IsSpace(s[p]) && !IsSeparator(s[p]) && IsCaptureText(s[p..q])
    requires q == |s| || (q + 1 == |s| && s[q] == '.')
    ensures Scan(s) == [Match(0, e, p, q)]
  {
    DefinitionLine(s, e, p, q);
    assert NextMatch(s, 0) == Some(Match(0, e, p, q));
    NothingAfter(s, q);
  }
}
