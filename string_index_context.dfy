/** The offset-to-context resolver: from a character offset into a text to
    the enclosing line, the column, the neighbouring lines and the 1-based
    line number (`getLines`), and from there to a bounded excerpt with the
    flagged span set in bold (`getBlock`).

    Offsets are natural numbers; an offset past the end of the text is
    handled as the JavaScript does, where `src[i]` is `undefined` and so
    never a newline. */
module StringIndexContext {
  import opened JsArray
  import opened JsString

  /** `src[i] === "\n"`. */
  predicate IsNewlineAt(src: string, i: int) {
    0 <= i < |src| && src[i] == '\n'
  }

  /** The positions of the newlines in `[lo, hi)`, highest first. */
  function NewlinesDown(src: string, lo: nat, hi: nat): seq<nat>
    decreases hi - lo
  {
    if lo >= hi then []
    else NewlinesDown(src, lo + 1, hi) + (if IsNewlineAt(src, lo) then [lo] else [])
  }

  /** The positions of the newlines in `[lo, hi)`, lowest first. */
  function NewlinesUp(src: string, lo: nat, hi: nat): seq<nat>
  {
    if hi <= lo then []
    else NewlinesUp(src, lo, hi - 1) + (if IsNewlineAt(src, hi - 1) then [hi - 1] else [])
  }

  /** `NewlinesDown` lists newlines of the range only. */
  lemma {:induction false} NewlinesDownInRange(src: string, lo: nat, hi: nat)
    ensures forall k :: 0 <= k < |NewlinesDown(src, lo, hi)| ==>
      lo <= NewlinesDown(src, lo, hi)[k] < hi && IsNewlineAt(src, NewlinesDown(src, lo, hi)[k])
    decreases hi - lo
  {
    if lo < hi {
      NewlinesDownInRange(src, lo + 1, hi);
      var ps, rest := NewlinesDown(src, lo, hi), NewlinesDown(src, lo + 1, hi);
      forall k | 0 <= k < |ps|
        ensures lo <= ps[k] < hi && IsNewlineAt(src, ps[k])
      {
        if k < |rest| {
          assert ps[k] == rest[k];
        }
      }
    }
  }

  /** `NewlinesDown` lists the newlines highest first. */
  lemma {:induction false} NewlinesDownOrdered(src: string, lo: nat, hi: nat)
    ensures forall k, m :: 0 <= k < m < |NewlinesDown(src, lo, hi)| ==> NewlinesDown(src, lo, hi)[k] > NewlinesDown(src, lo, hi)[m]
    decreases hi - lo
  {
    if lo < hi {
      NewlinesDownOrdered(src, lo + 1, hi);
      NewlinesDownInRange(src, lo + 1, hi);
      var ps, rest := NewlinesDown(src, lo, hi), NewlinesDown(src, lo + 1, hi);
      forall k | 0 <= k < |ps|
        ensures lo <= ps[k] < hi && IsNewlineAt(src, ps[k])
      {
        if k < |rest| {
          assert ps[k] == rest[k];
        }
      }
    }
  }

  /** `NewlinesDown` misses no newline of the range. */
  lemma {:induction false} NewlinesDownComplete(src: string, lo: nat, hi: nat)
    ensures forall p :: lo <= p < hi && IsNewlineAt(src, p) ==> p in NewlinesDown(src, lo, hi)
    decreases hi - lo
  {
    if lo < hi {
      NewlinesDownComplete(src, lo + 1, hi);
    }
  }

  /** `NewlinesUp` lists newlines of the range only. */
  lemma {:induction false} NewlinesUpInRange(src: string, lo: nat, hi: nat)
    ensures forall k :: 0 <= k < |NewlinesUp(src, lo, hi)| ==>
      lo <= NewlinesUp(src, lo, hi)[k] < hi && IsNewlineAt(src, NewlinesUp(src, lo, hi)[k])
  {
    if lo < hi {
      NewlinesUpInRange(src, lo, hi - 1);
      var ps, rest := NewlinesUp(src, lo, hi), NewlinesUp(src, lo, hi - 1);
      forall k | 0 <= k < |ps|
        ensures lo <= ps[k] < hi && IsNewlineAt(src, ps[k])
      {
        if k < |rest| {
          assert ps[k] == rest[k];
        }
      }
    }
  }

  /** `NewlinesUp` lists the newlines lowest first. */
  lemma {:induction false} NewlinesUpOrdered(src: string, lo: nat, hi: nat)
    ensures forall k, m :: 0 <= k < m < |NewlinesUp(src, lo, hi)| ==> NewlinesUp(src, lo, hi)[k] < NewlinesUp(src, lo, hi)[m]
  {
    if lo < hi {
      NewlinesUpOrdered(src, lo, hi - 1);
      NewlinesUpInRange(src, lo, hi - 1);
      var ps, rest := NewlinesUp(src, lo, hi), NewlinesUp(src, lo, hi - 1);
      forall k | 0 <= k < |ps|
        ensures lo <= ps[k] < hi && IsNewlineAt(src, ps[k])
      {
        if k < |rest| {
          assert ps[k] == rest[k];
        }
      }
    }
  }

  /** `NewlinesUp` misses no newline of the range. */
  lemma {:induction false} NewlinesUpComplete(src: string, lo: nat, hi: nat)
    ensures forall p :: lo <= p < hi && IsNewlineAt(src, p) ==> p in NewlinesUp(src, lo, hi)
  {
    if lo < hi {
      NewlinesUpComplete(src, lo, hi - 1);
    }
  }

  /** The newlines before `index`, nearest first. */
  function BreaksBefore(src: string, index: nat): seq<nat> {
    NewlinesDown(src, 0, index)
  }

  /** The newlines at or after `index`, nearest first. */
  function BreaksAfter(src: string, index: nat): seq<nat> {
    NewlinesUp(src, index, |src|)
  }

  /** Where the line holding `index` starts: one past the nearest newline before it, or 0. */
  function LineStart(src: string, index: nat): (s: nat)
    ensures s <= index && s <= |src|
  {
    var before := BreaksBefore(src, index);
    if before == [] then 0
    else
      NewlinesDownInRange(src, 0, index);
      assert before == NewlinesDown(src, 0, index) && 0 < |before|;
      assert before[0] < index && IsNewlineAt(src, before[0]);
      before[0] + 1
  }

  /** Where the line holding `index` ends: the nearest newline at or after it, or the end of the text. */
  function LineEnd(src: string, index: nat): (e: nat)
    ensures LineStart(src, index) <= e <= |src|
    ensures index <= |src| ==> index <= e
  {
    var after := BreaksAfter(src, index);
    if after == [] then |src|
    else
      NewlinesUpInRange(src, index, |src|);
      assert after == NewlinesUp(src, index, |src|) && 0 < |after|;
      assert index <= after[0] && IsNewlineAt(src, after[0]);
      after[0]
  }

  /** The number of newline characters in `s`. */
  function CountNewlines(s: string): nat {
    if s == [] then 0 else (if s[0] == '\n' then 1 else 0) + CountNewlines(s[1..])
  }

  /** The 1-based number of the line holding `index`: one more than the newlines before it. */
  function LineNumber(src: string, index: nat): nat {
    1 + CountNewlines(src[..Min(index, |src|)])
  }

  /** The lines that `getLines` pushes while walking backwards over the newlines `cuts`
      (highest first): the text from each newline up to the one after it. */
  function LinesAbove(src: string, cuts: seq<nat>): seq<string> {
    if |cuts| < 2 then []
    else
      var n := |cuts|;
      LinesAbove(src, cuts[..n - 1]) + [Substr(src, cuts[n - 1], cuts[n - 2] as int - cuts[n - 1])]
  }

  /** The lines that `getLines` pushes while walking forwards over the newlines `cuts`
      (lowest first): the text from each newline up to the next one. */
  function LinesBelow(src: string, cuts: seq<nat>): seq<string> {
    if |cuts| < 2 then []
    else
      var n := |cuts|;
      LinesBelow(src, cuts[..n - 1]) + [Substr(src, cuts[n - 2], cuts[n - 1] as int - cuts[n - 2])]
  }

  /** The lines above the line holding `index` that `getLines` keeps: those between the
      first `noBefore + 1` newlines before `index`. */
  function KeptAbove(src: string, index: nat, noBefore: nat): seq<string> {
    var before := BreaksBefore(src, index);
    LinesAbove(src, before[..Min(noBefore + 1, |before|)])
  }

  /** The lines below the line holding `index` that `getLines` keeps: those between the
      first `noAfter + 1` newlines at or after `index`. */
  function KeptBelow(src: string, index: nat, noAfter: nat): seq<string> {
    var after := BreaksAfter(src, index);
    LinesBelow(src, after[..Min(noAfter + 1, |after|)])
  }

  /** What `getLines` returns. */
  datatype LineInfo = LineInfo(
    line: string,
    beforeLines: seq<string>,
    afterLines: seq<string>,
    column: nat,
    lineNumber: nat)

  /** `getLines(src, index, noBefore, noAfter)`: the line holding `index`, the column of
      `index` in it, the lines around it and its line number. Above the line it keeps
      the lines between the first `noBefore + 1` newlines before `index`, below it the
      lines between the first `noAfter + 1` newlines after it (see `NeighbourLines`).
      The three loops of the source are the three methods it calls, in order. */
  method GetLines(src: string, index: nat, noBefore: nat, noAfter: nat) returns (info: LineInfo)
    ensures info.lineNumber == LineNumber(src, index)
    ensures info.column == index - LineStart(src, index)
    ensures info.line == src[LineStart(src, index)..LineEnd(src, index)]
    ensures info.beforeLines == KeptAbove(src, index, noBefore)
    ensures info.afterLines == KeptBelow(src, index, noAfter)
  {
    var thisLineStart, column, lastCutIndex, beforeLines := ScanAbove(src, index, noBefore);
    var line, afterLines := ScanBelow(src, index, thisLineStart, lastCutIndex, noAfter);
    var lineNumber := CountLineNumber(src, index);
    info := LineInfo(line, beforeLines, afterLines, column, lineNumber);
  }

  /** The first loop of `getLines`: walk back from `index` to the newline that starts
      its line, then collect the lines above it until `noBefore` are collected. */
  method ScanAbove(src: string, index: nat, noBefore: nat)
    returns (thisLineStart: nat, column: nat, lastCutIndex: nat, beforeLines: seq<string>)
    ensures thisLineStart == LineStart(src, index) && column == index - thisLineStart
    ensures var before := BreaksBefore(src, index);
      var taken := Min(noBefore + 1, |before|);
      beforeLines == LinesAbove(src, before[..taken]) &&
      lastCutIndex == if before == [] then index else before[taken - 1]
  {
    beforeLines := [];
    var lineStart: Option<nat> := None;
    column := 0;
    lastCutIndex := index;

    var i: int := index - 1;
    ghost var scanned: nat := index;
    ghost var found: seq<nat> := [];
    ghost var stopped := false;
    while i >= 0
      invariant -1 <= i < index && scanned == i + 1 && !stopped
      invariant AboveScanned(src, index, scanned, found, beforeLines, lineStart, column, lastCutIndex)
      invariant found == [] || |beforeLines| < noBefore
      decreases i
    {
      if IsNewlineAt(src, i) {
        if lineStart == None {
          StepAboveLineStart(src, index, i, found, beforeLines, lineStart, column, lastCutIndex);
          lineStart := Some(i + 1);
          column := index - (i + 1);
        } else {
          StepAboveLine(src, index, i, found, beforeLines, lineStart, column, lastCutIndex);
          beforeLines := beforeLines + [Substr(src, i, lastCutIndex - i)];
        }
        lastCutIndex := i;
        found := found + [i];
        if |beforeLines| >= noBefore {
          scanned := i;
          stopped := true;
          break;
        }
      } else {
        StepAboveOther(src, index, i, found, beforeLines, lineStart, column, lastCutIndex);
      }
      scanned := i;
      i := i - 1;
    }
    AboveDone(src, index, noBefore, scanned, found, beforeLines, lineStart, column, lastCutIndex, stopped);
    if lineStart == None {
      lineStart := Some(0);
      column := index;
    }
    thisLineStart := lineStart.value;
  }

  /** What the first loop of `getLines` knows once it has looked at `[scanned, index)`:
      `found` holds the newlines met so far, highest first; the first of them starts the
      line holding `index`; each later one closes a line above it; the last is the cut. */
  ghost predicate AboveScanned(src: string, index: nat, scanned: nat, found: seq<nat>,
                               beforeLines: seq<string>, lineStart: Option<nat>, column: nat, lastCutIndex: nat)
  {
    scanned <= index && found == NewlinesDown(src, scanned, index) &&
    beforeLines == LinesAbove(src, found) &&
    |beforeLines| == (if found == [] then 0 else |found| - 1) &&
    (found == [] ==> lineStart == None && lastCutIndex == index) &&
    (found != [] ==>
      lineStart == Some(found[0] + 1) && column == index - (found[0] + 1) &&
      lastCutIndex == found[|found| - 1])
  }

  /** When the first loop of `getLines` stops, it has found the start of the line holding
      `index` (or leaves it at 0) and the lines above it. */
  lemma AboveDone(src: string, index: nat, noBefore: nat, scanned: nat, found: seq<nat>,
                  beforeLines: seq<string>, lineStart: Option<nat>, column: nat, lastCutIndex: nat, stopped: bool)
    requires AboveScanned(src, index, scanned, found, beforeLines, lineStart, column, lastCutIndex)
    requires stopped ==> |found| == noBefore + 1
    requires !stopped ==> scanned == 0 && |found| <= noBefore + 1
    ensures var before := BreaksBefore(src, index);
      var taken := Min(noBefore + 1, |before|);
      beforeLines == LinesAbove(src, before[..taken]) &&
      lastCutIndex == if before == [] then index else before[taken - 1]
    ensures lineStart == None ==> LineStart(src, index) == 0
    ensures lineStart != None ==> LineStart(src, index) == lineStart.value && column == index - lineStart.value
  {
    AboveFinished(src, index, noBefore, scanned, found, stopped);
  }

  /** A step of the first loop of `getLines` past a character that is not a newline. */
  lemma StepAboveOther(src: string, index: nat, i: nat, found: seq<nat>,
                       beforeLines: seq<string>, lineStart: Option<nat>, column: nat, lastCutIndex: nat)
    requires i < index && !IsNewlineAt(src, i)
    requires AboveScanned(src, index, i + 1, found, beforeLines, lineStart, column, lastCutIndex)
    ensures AboveScanned(src, index, i, found, beforeLines, lineStart, column, lastCutIndex)
  {
    assert NewlinesDown(src, i, index) == found + [];
  }

  /** A step of the first loop of `getLines` onto the newline that starts the line holding `index`. */
  lemma StepAboveLineStart(src: string, index: nat, i: nat, found: seq<nat>,
                           beforeLines: seq<string>, lineStart: Option<nat>, column: nat, lastCutIndex: nat)
    requires i < index && IsNewlineAt(src, i) && lineStart == None
    requires AboveScanned(src, index, i + 1, found, beforeLines, lineStart, column, lastCutIndex)
    ensures AboveScanned(src, index, i, found + [i], beforeLines, Some(i + 1), index - (i + 1), i)
  {
    assert NewlinesDown(src, i, index) == found + [i];
    assert found + [i] == [i];
  }

  /** A step of the first loop of `getLines` onto a newline that opens one more line above. */
  lemma StepAboveLine(src: string, index: nat, i: nat, found: seq<nat>,
                      beforeLines: seq<string>, lineStart: Option<nat>, column: nat, lastCutIndex: nat)
    requires i < index && IsNewlineAt(src, i) && lineStart != None
    requires AboveScanned(src, index, i + 1, found, beforeLines, lineStart, column, lastCutIndex)
    ensures AboveScanned(src, index, i, found + [i], beforeLines + [Substr(src, i, lastCutIndex - i)], lineStart, column, i)
  {
    LinesAboveSnoc(src, found, i);
    assert NewlinesDown(src, i, index) == found + [i];
    assert (found + [i])[0] == found[0];
  }

  /** The second loop of `getLines`: walk forward from `index` to the newline that
      ends its line, then collect the lines below it until `noAfter` are collected. */
  method ScanBelow(src: string, index: nat, thisLineStart: nat, lastCutIndex: nat, noAfter: nat)
    returns (line: string, afterLines: seq<string>)
    requires thisLineStart <= index && thisLineStart <= |src|
    ensures line == src[thisLineStart..LineEnd(src, index)]
    ensures var after := BreaksAfter(src, index);
      afterLines == LinesBelow(src, after[..Min(noAfter + 1, |after|)])
  {
    afterLines := [];
    var thisLine: Option<string> := None;
    var lastCut: nat := lastCutIndex;
    var i: nat := index;
    ghost var found: seq<nat> := [];
    ghost var stopped := false;
    while i < |src|
      invariant index <= i <= Max(index, |src|) && !stopped
      invariant BelowScanned(src, index, thisLineStart, i, found, afterLines, thisLine, lastCut)
      invariant found == [] || |afterLines| < noAfter
      decreases |src| - i
    {
      if IsNewlineAt(src, i) {
        if thisLine == None {
          StepBelowLineEnd(src, index, thisLineStart, i, found, afterLines, thisLine, lastCut);
          thisLine := Some(Substr(src, thisLineStart, i - thisLineStart));
        } else {
          StepBelowLine(src, index, thisLineStart, i, found, afterLines, thisLine, lastCut);
          afterLines := afterLines + [Substr(src, lastCut, i - lastCut)];
        }
        lastCut := i;
        found := found + [i];
        if |afterLines| >= noAfter {
          stopped := true;
          i := i + 1;
          break;
        }
      } else {
        StepBelowOther(src, index, thisLineStart, i, found, afterLines, thisLine, lastCut);
      }
      i := i + 1;
    }
    BelowDone(src, index, thisLineStart, noAfter, i, found, afterLines, thisLine, lastCut, stopped);
    if thisLine == None {
      line := Slice(src, thisLineStart);
    } else {
      line := thisLine.value;
    }
  }

  /** What the second loop of `getLines` knows once it has looked at `[index, reached)`:
      `found` holds the newlines met so far, lowest first; the first of them ends the
      line holding `index`; each later one closes a line below it; the last is the cut. */
  ghost predicate BelowScanned(src: string, index: nat, thisLineStart: nat, reached: nat, found: seq<nat>,
                               afterLines: seq<string>, thisLine: Option<string>, lastCut: nat)
  {
    index <= reached && found == NewlinesUp(src, index, reached) &&
    afterLines == LinesBelow(src, found) &&
    |afterLines| == (if found == [] then 0 else |found| - 1) &&
    (found == [] ==> thisLine == None) &&
    (found != [] ==>
      thisLine == Some(Substr(src, thisLineStart, found[0] - thisLineStart)) &&
      lastCut == found[|found| - 1])
  }

  /** When the second loop of `getLines` stops, it has cut out the line holding `index`
      (or leaves it to run to the end of the text) and the lines below it. */
  lemma BelowDone(src: string, index: nat, thisLineStart: nat, noAfter: nat, reached: nat, found: seq<nat>,
                  afterLines: seq<string>, thisLine: Option<string>, lastCut: nat, stopped: bool)
    requires thisLineStart <= index && thisLineStart <= |src| && reached <= Max(index, |src|)
    requires BelowScanned(src, index, thisLineStart, reached, found, afterLines, thisLine, lastCut)
    requires stopped ==> |found| == noAfter + 1
    requires !stopped ==> reached >= |src| && |found| <= noAfter + 1
    ensures var after := BreaksAfter(src, index);
      afterLines == LinesBelow(src, after[..Min(noAfter + 1, |after|)])
    ensures thisLine == None ==> Slice(src, thisLineStart) == src[thisLineStart..LineEnd(src, index)]
    ensures thisLine != None ==> thisLine.value == src[thisLineStart..LineEnd(src, index)]
  {
    BelowFinished(src, index, noAfter, reached, found, stopped);
    LineUpToCut(src, index, thisLineStart, found, noAfter, thisLine);
  }

  /** A step of the second loop of `getLines` past a character that is not a newline. */
  lemma StepBelowOther(src: string, index: nat, thisLineStart: nat, i: nat, found: seq<nat>,
                       afterLines: seq<string>, thisLine: Option<string>, lastCut: nat)
    requires !IsNewlineAt(src, i)
    requires BelowScanned(src, index, thisLineStart, i, found, afterLines, thisLine, lastCut)
    ensures BelowScanned(src, index, thisLineStart, i + 1, found, afterLines, thisLine, lastCut)
  {
    assert NewlinesUp(src, index, i + 1) == found + [];
  }

  /** A step of the second loop of `getLines` onto the newline that ends the line holding `index`. */
  lemma StepBelowLineEnd(src: string, index: nat, thisLineStart: nat, i: nat, found: seq<nat>,
                         afterLines: seq<string>, thisLine: Option<string>, lastCut: nat)
    requires IsNewlineAt(src, i) && thisLine == None
    requires BelowScanned(src, index, thisLineStart, i, found, afterLines, thisLine, lastCut)
    ensures BelowScanned(src, index, thisLineStart, i + 1, found + [i], afterLines,
                         Some(Substr(src, thisLineStart, i - thisLineStart)), i)
  {
    assert NewlinesUp(src, index, i + 1) == found + [i];
    assert found + [i] == [i];
  }

  /** A step of the second loop of `getLines` onto a newline that closes one more line below. */
  lemma StepBelowLine(src: string, index: nat, thisLineStart: nat, i: nat, found: seq<nat>,
                      afterLines: seq<string>, thisLine: Option<string>, lastCut: nat)
    requires IsNewlineAt(src, i) && thisLine != None
    requires BelowScanned(src, index, thisLineStart, i, found, afterLines, thisLine, lastCut)
    ensures BelowScanned(src, index, thisLineStart, i + 1, found + [i], afterLines + [Substr(src, lastCut, i - lastCut)], thisLine, i)
  {
    LinesBelowSnoc(src, found, i);
    assert NewlinesUp(src, index, i + 1) == found + [i];
    assert (found + [i])[0] == found[0];
  }

  /** The line the second loop of `getLines` cuts out ends where the line holding `index` ends. */
  lemma LineUpToCut(src: string, index: nat, thisLineStart: nat, found: seq<nat>, noAfter: nat, thisLine: Option<string>)
    requires thisLineStart <= index && thisLineStart <= |src|
    requires var after := BreaksAfter(src, index); found == after[..Min(noAfter + 1, |after|)]
    requires found == [] ==> thisLine == None
    requires found != [] ==> thisLine == Some(Substr(src, thisLineStart, found[0] - thisLineStart))
    ensures thisLine == None ==> Slice(src, thisLineStart) == src[thisLineStart..LineEnd(src, index)]
    ensures thisLine != None ==> thisLine.value == src[thisLineStart..LineEnd(src, index)]
  {
    var after := BreaksAfter(src, index);
    NewlinesUpInRange(src, index, |src|);
    if after != [] {
      assert after == NewlinesUp(src, index, |src|) && 0 < |after|;
      assert index <= after[0] < |src|;
    }
  }

  /** A further cut below the lowest one adds the line between them above the others. */
  lemma LinesAboveSnoc(src: string, cuts: seq<nat>, c: nat)
    ensures cuts == [] ==> LinesAbove(src, cuts + [c]) == []
    ensures cuts != [] ==>
      LinesAbove(src, cuts + [c]) == LinesAbove(src, cuts) + [Substr(src, c, cuts[|cuts| - 1] as int - c)]
  {
    assert (cuts + [c])[..|cuts|] == cuts;
  }

  /** A further cut past the highest one adds the line between them below the others. */
  lemma LinesBelowSnoc(src: string, cuts: seq<nat>, c: nat)
    ensures cuts == [] ==> LinesBelow(src, cuts + [c]) == []
    ensures cuts != [] ==>
      LinesBelow(src, cuts + [c]) == LinesBelow(src, cuts) + [Substr(src, cuts[|cuts| - 1], c - cuts[|cuts| - 1])]
  {
    assert (cuts + [c])[..|cuts|] == cuts;
  }

  /** The third loop of `getLines`: count the newlines before `index`. */
  method CountLineNumber(src: string, index: nat) returns (lineNumber: nat)
    ensures lineNumber == LineNumber(src, index)
  {
    lineNumber := 1;
    var i: int := index - 1;
    while i >= 0
      invariant -1 <= i < index
      invariant lineNumber == 1 + |NewlinesDown(src, i + 1, index)|
      decreases i
    {
      if IsNewlineAt(src, i) {
        lineNumber := lineNumber + 1;
      }
      i := i - 1;
    }
    NewlinesCounted(src, 0, index);
  }

  /** When the first loop of `getLines` stops, the newlines it has met are the first
      `noBefore + 1` newlines before `index` (or all of them). */
  lemma AboveFinished(src: string, index: nat, noBefore: nat, scanned: nat, found: seq<nat>, stopped: bool)
    requires scanned <= index && found == NewlinesDown(src, scanned, index)
    requires stopped ==> |found| == noBefore + 1
    requires !stopped ==> scanned == 0 && |found| <= noBefore + 1
    ensures var before := BreaksBefore(src, index);
      found == before[..Min(noBefore + 1, |before|)]
    ensures found == [] ==> BreaksBefore(src, index) == [] && LineStart(src, index) == 0
    ensures found != [] ==> LineStart(src, index) == found[0] + 1
  {
    NewlinesDownSplit(src, 0, scanned, index);
  }

  /** When the second loop of `getLines` stops, the newlines it has met are the first
      `noAfter + 1` newlines at or after `index` (or all of them). */
  lemma BelowFinished(src: string, index: nat, noAfter: nat, reached: nat, found: seq<nat>, stopped: bool)
    requires index <= reached <= Max(index, |src|) && found == NewlinesUp(src, index, reached)
    requires stopped ==> |found| == noAfter + 1
    requires !stopped ==> reached >= |src| && |found| <= noAfter + 1
    ensures var after := BreaksAfter(src, index);
      found == after[..Min(noAfter + 1, |after|)]
  {
    if index <= |src| {
      NewlinesUpSplit(src, index, reached, |src|);
    }
  }

  /** The newlines of `[lo, hi)`, highest first, are those of `[mid, hi)` followed by those of `[lo, mid)`. */
  lemma {:induction false} NewlinesDownSplit(src: string, lo: nat, mid: nat, hi: nat)
    requires lo <= mid <= hi
    ensures NewlinesDown(src, lo, hi) == NewlinesDown(src, mid, hi) + NewlinesDown(src, lo, mid)
    decreases mid - lo
  {
    if lo < mid {
      NewlinesDownSplit(src, lo + 1, mid, hi);
    }
  }

  /** The newlines of `[lo, hi)`, lowest first, are those of `[lo, mid)` followed by those of `[mid, hi)`. */
  lemma {:induction false} NewlinesUpSplit(src: string, lo: nat, mid: nat, hi: nat)
    requires lo <= mid <= hi
    ensures NewlinesUp(src, lo, hi) == NewlinesUp(src, lo, mid) + NewlinesUp(src, mid, hi)
    decreases hi - mid
  {
    if mid < hi {
      NewlinesUpSplit(src, lo, mid, hi - 1);
    }
  }

  /** Listing the newlines of a range and counting them agree. */
  lemma {:induction false} NewlinesCounted(src: string, lo: nat, hi: nat)
    requires lo <= hi
    ensures |NewlinesDown(src, lo, hi)| == CountNewlines(src[Min(lo, |src|)..Min(hi, |src|)])
    decreases hi - lo
  {
    var s := src[Min(lo, |src|)..Min(hi, |src|)];
    if lo < hi {
      NewlinesCounted(src, lo + 1, hi);
      if lo < |src| {
        assert s[1..] == src[Min(lo + 1, |src|)..Min(hi, |src|)];
      } else {
        assert s == [];
      }
    } else {
      assert s == [];
    }
  }

  /** The lines above, as slices: between consecutive descending cuts. */
  lemma {:induction false} LinesAboveAreSegments(src: string, cuts: seq<nat>)
    requires forall k, m :: 0 <= k < m < |cuts| ==> cuts[k] > cuts[m]
    requires forall k :: 0 <= k < |cuts| ==> cuts[k] <= |src|
    ensures |LinesAbove(src, cuts)| == if cuts == [] then 0 else |cuts| - 1
    ensures forall j :: 0 <= j < |LinesAbove(src, cuts)| ==> LinesAbove(src, cuts)[j] == src[cuts[j + 1]..cuts[j]]
  {
    if |cuts| >= 2 {
      var n := |cuts|;
      var shorter := cuts[..n - 1];
      LinesAboveAreSegments(src, shorter);
      assert forall j :: 0 <= j < n - 1 ==> shorter[j] == cuts[j];
    }
  }

  /** The lines below, as slices: between consecutive ascending cuts. */
  lemma {:induction false} LinesBelowAreSegments(src: string, cuts: seq<nat>)
    requires forall k, m :: 0 <= k < m < |cuts| ==> cuts[k] < cuts[m]
    requires forall k :: 0 <= k < |cuts| ==> cuts[k] <= |src|
    ensures |LinesBelow(src, cuts)| == if cuts == [] then 0 else |cuts| - 1
    ensures forall j :: 0 <= j < |LinesBelow(src, cuts)| ==> LinesBelow(src, cuts)[j] == src[cuts[j]..cuts[j + 1]]
  {
    if |cuts| >= 2 {
      var n := |cuts|;
      var shorter := cuts[..n - 1];
      LinesBelowAreSegments(src, shorter);
      assert forall j :: 0 <= j < n - 1 ==> shorter[j] == cuts[j];
    }
  }

  /** The line holding `index` starts at 0 or right after a newline, and no newline lies
      between its start and `index`. */
  lemma LineStartIsAfterLastBreak(src: string, index: nat)
    ensures LineStart(src, index) == 0 || IsNewlineAt(src, LineStart(src, index) - 1)
    ensures forall p :: LineStart(src, index) <= p < index ==> !IsNewlineAt(src, p)
  {
    NewlinesDownInRange(src, 0, index);
    NewlinesDownOrdered(src, 0, index);
    NewlinesDownComplete(src, 0, index);
    var before := BreaksBefore(src, index);
    assert before == NewlinesDown(src, 0, index);
    assert forall m :: 0 <= m < |before| ==> before[m] < LineStart(src, index);
  }

  /** The line holding `index` ends at the end of the text or at a newline, and no newline
      lies between `index` and its end. */
  lemma LineEndIsNextBreak(src: string, index: nat)
    ensures LineEnd(src, index) == |src| || IsNewlineAt(src, LineEnd(src, index))
    ensures forall p :: index <= p < LineEnd(src, index) ==> !IsNewlineAt(src, p)
  {
    NewlinesUpInRange(src, index, |src|);
    NewlinesUpOrdered(src, index, |src|);
    NewlinesUpComplete(src, index, |src|);
    var after := BreaksAfter(src, index);
    assert after == NewlinesUp(src, index, |src|);
    assert forall m :: 0 <= m < |after| ==> after[m] >= LineEnd(src, index);
  }

  /** The line `getLines` reports holds no newline. */
  lemma LineHasNoNewline(src: string, index: nat)
    ensures forall p :: LineStart(src, index) <= p < LineEnd(src, index) ==> !IsNewlineAt(src, p)
    ensures '\n' !in src[LineStart(src, index)..LineEnd(src, index)]
  {
    LineStartIsAfterLastBreak(src, index);
    LineEndIsNextBreak(src, index);
    var line := src[LineStart(src, index)..LineEnd(src, index)];
    forall k | 0 <= k < |line|
      ensures line[k] != '\n'
    {
      assert !IsNewlineAt(src, LineStart(src, index) + k);
    }
  }

  /** The lines `getLines` reports above the line holding `index`: at most `noBefore`,
      each the text from one newline up to the next one, all of them before the line itself. */
  lemma NeighbourLinesAbove(src: string, index: nat, noBefore: nat)
    ensures var before := BreaksBefore(src, index);
      |KeptAbove(src, index, noBefore)| == (if before == [] then 0 else Min(noBefore, |before| - 1))
    ensures forall j {:trigger KeptAbove(src, index, noBefore)[j]} :: 0 <= j < |KeptAbove(src, index, noBefore)| ==>
      j + 1 < |BreaksBefore(src, index)| &&
      BreaksBefore(src, index)[j + 1] < BreaksBefore(src, index)[j] < LineStart(src, index) &&
      KeptAbove(src, index, noBefore)[j] == src[BreaksBefore(src, index)[j + 1]..BreaksBefore(src, index)[j]]
  {
    var before := BreaksBefore(src, index);
    assert before == NewlinesDown(src, 0, index);
    NewlinesDownInRange(src, 0, index);
    NewlinesDownOrdered(src, 0, index);
    var cuts := before[..Min(noBefore + 1, |before|)];
    LinesAboveAreSegments(src, cuts);
  }

  /** The lines `getLines` reports below the line holding `index`: at most `noAfter`,
      each the text from one newline up to the next one, all of them after the line itself. */
  lemma NeighbourLinesBelow(src: string, index: nat, noAfter: nat)
    ensures var after := BreaksAfter(src, index);
      |KeptBelow(src, index, noAfter)| == (if after == [] then 0 else Min(noAfter, |after| - 1))
    ensures forall j {:trigger KeptBelow(src, index, noAfter)[j]} :: 0 <= j < |KeptBelow(src, index, noAfter)| ==>
      j + 1 < |BreaksAfter(src, index)| &&
      LineEnd(src, index) <= BreaksAfter(src, index)[j] < BreaksAfter(src, index)[j + 1] <= |src| &&
      KeptBelow(src, index, noAfter)[j] == src[BreaksAfter(src, index)[j]..BreaksAfter(src, index)[j + 1]]
  {
    var after := BreaksAfter(src, index);
    assert after == NewlinesUp(src, index, |src|);
    NewlinesUpInRange(src, index, |src|);
    NewlinesUpOrdered(src, index, |src|);
    var cuts := after[..Min(noAfter + 1, |after|)];
    LinesBelowAreSegments(src, cuts);
  }

  /** What `getBlock` returns: the excerpt with the span in bold, and the line number. */
  datatype Block = Block(info: string, lineNumber: nat)

  /** The excerpt `getBlock` builds, on the text itself: up to 30 characters of the line
      before `index`, the span `[index, index + length)` between `**` markers, and up to
      30 characters of the line after it, all cut off at the line's end. */
  function Excerpt(src: string, index: nat, length: nat): (r: string)
    ensures |r| <= length + 64
  {
    Window(src, LineStart(src, index), LineEnd(src, index), index, length)
  }

  /** The excerpt for a line `[ls, le)` of the text. */
  function Window(src: string, ls: nat, le: nat, index: nat, length: nat): (r: string)
    requires ls <= le <= |src| && ls <= index
    ensures |r| <= length + 64
  {
    var from := Min(Max(index - 30, ls), le);
    var spanStart := Min(index, le);
    var spanEnd := Min(index + length, le);
    var to := Min(index + length + 30, le);
    src[from..spanStart] + "**" + src[spanStart..spanEnd] + "**" + src[spanEnd..to]
  }

  /** `getBlock(src, index, length)`. */
  method GetBlock(src: string, index: nat, length: nat) returns (block: Block)
    ensures block.lineNumber == LineNumber(src, index)
    ensures block.info == Excerpt(src, index, length)
  {
    var lineInfo := GetLines(src, index, 2, 2);
    var lineStart := 0;
    var lineEnd := |lineInfo.line|;
    if lineInfo.column > 30 {
      lineStart := lineInfo.column - 30;
    }
    if lineEnd - (lineInfo.column + length) > 30 {
      lineEnd := lineInfo.column + length + 30;
    }
    var info := Substring(lineInfo.line, lineStart, lineInfo.column) +
      "**" + Substr(lineInfo.line, lineInfo.column, length) + "**" +
      Substring(lineInfo.line, lineInfo.column + length, lineEnd);
    ExcerptInLineTerms(src, index, length, lineInfo.line, lineInfo.column, lineStart, lineEnd);
    block := Block(info, lineInfo.lineNumber);
  }

  /** A slice of a slice is a slice of the whole. */
  lemma SliceOfSlice(s: string, i: nat, j: nat, x: nat, y: nat)
    requires i <= j <= |s| && x <= y <= j - i
    ensures s[i..j][x..y] == s[i + x..i + y]
  {
    assert forall k :: 0 <= k < y - x ==> s[i..j][x..y][k] == s[i + x..i + y][k];
  }

  /** The excerpt, computed as `getBlock` does it on the reported line and column, is the
      excerpt on the text. */
  lemma ExcerptInLineTerms(src: string, index: nat, length: nat, line: string, column: nat, lineStart: int, lineEnd: int)
    requires line == src[LineStart(src, index)..LineEnd(src, index)]
    requires column == index - LineStart(src, index)
    requires lineStart == if column > 30 then column - 30 else 0
    requires lineEnd == if |line| - (column + length) > 30 then column + length + 30 else |line|
    ensures Excerpt(src, index, length) ==
      Substring(line, lineStart, column) + "**" + Substr(line, column, length) + "**" +
      Substring(line, column + length, lineEnd)
  {
    var ls, le := LineStart(src, index), LineEnd(src, index);
    WindowInLineTerms(src, ls, le, index, length, line, column, lineStart, lineEnd);
  }

  /** `ExcerptInLineTerms` for any line `[ls, le)` that starts at or before `index`. */
  lemma WindowInLineTerms(src: string, ls: nat, le: nat, index: nat, length: nat,
                          line: string, column: nat, lineStart: int, lineEnd: int)
    requires ls <= le <= |src| && ls <= index
    requires line == src[ls..le] && column == index - ls
    requires lineStart == if column > 30 then column - 30 else 0
    requires lineEnd == if |line| - (column + length) > 30 then column + length + 30 else |line|
    ensures Window(src, ls, le, index, length) ==
      Substring(line, lineStart, column) + "**" + Substr(line, column, length) + "**" +
      Substring(line, column + length, lineEnd)
  {
    LeftOfSpan(src, ls, le, index, line, column, lineStart);
    SpanOnLine(src, ls, le, index, length, line, column);
    RightOfSpan(src, ls, le, index, length, line, column, lineEnd);
  }

  /** The part of the excerpt before the span. */
  lemma LeftOfSpan(src: string, ls: nat, le: nat, index: nat, line: string, column: nat, lineStart: int)
    requires ls <= le <= |src| && ls <= index
    requires line == src[ls..le] && column == index - ls
    requires lineStart == if column > 30 then column - 30 else 0
    ensures Substring(line, lineStart, column) == src[Min(Max(index - 30, ls), le)..Min(index, le)]
  {
    var x := Clamp(lineStart, |line|);
    var y := Clamp(column, |line|);
    assert ls + x == Min(Max(index - 30, ls), le) && ls + y == Min(index, le);
    SliceOfSlice(src, ls, le, x, y);
  }

  /** The span itself. */
  lemma SpanOnLine(src: string, ls: nat, le: nat, index: nat, length: nat, line: string, column: nat)
    requires ls <= le <= |src| && ls <= index
    requires line == src[ls..le] && column == index - ls
    ensures Substr(line, column, length) == src[Min(index, le)..Min(index + length, le)]
  {
    var x := Min(column, |line|);
    var y := Min(column + length, |line|);
    assert ls + x == Min(index, le) && ls + y == Min(index + length, le);
    SliceOfSlice(src, ls, le, x, y);
  }

  /** The part of the excerpt after the span. */
  lemma RightOfSpan(src: string, ls: nat, le: nat, index: nat, length: nat, line: string, column: nat, lineEnd: int)
    requires ls <= le <= |src| && ls <= index
    requires line == src[ls..le] && column == index - ls
    requires lineEnd == if |line| - (column + length) > 30 then column + length + 30 else |line|
    ensures Substring(line, column + length, lineEnd) == src[Min(index + length, le)..Min(index + length + 30, le)]
  {
    var x := Clamp(column + length, |line|);
    var y := Clamp(lineEnd, |line|);
    assert ls + x == Min(index + length, le) && ls + y == Min(index + length + 30, le);
    SliceOfSlice(src, ls, le, x, y);
  }

  /** When the span lies on the line, the bold part is exactly the span, with at most
      30 characters of the line on either side of it. */
  lemma ExcerptOfSpanInLine(src: string, index: nat, length: nat)
    requires index + length <= LineEnd(src, index)
    ensures var ls := LineStart(src, index);
      var le := LineEnd(src, index);
      var left := src[Max(index - 30, ls)..index];
      var right := src[index + length..Min(index + length + 30, le)];
      Excerpt(src, index, length) == left + "**" + src[index..index + length] + "**" + right &&
      |left| <= 30 && |right| <= 30 &&
      (index - ls <= 30 ==> left == src[ls..index]) &&
      (le - (index + length) <= 30 ==> right == src[index + length..le])
  {
  }

  /** The excerpt stays on one line: it holds no newline. */
  lemma ExcerptHasNoNewline(src: string, index: nat, length: nat)
    ensures '\n' !in Excerpt(src, index, length)
  {
    var ls, le := LineStart(src, index), LineEnd(src, index);
    LineHasNoNewline(src, index);
    forall p | ls <= p < le
      ensures src[p] != '\n'
    {
      assert !IsNewlineAt(src, p);
    }
    WindowHasNoNewline(src, ls, le, index, length);
  }

  /** The excerpt of a line without newlines has none either: the markers add none. */
  lemma WindowHasNoNewline(src: string, ls: nat, le: nat, index: nat, length: nat)
    requires ls <= le <= |src| && ls <= index
    requires forall p :: ls <= p < le ==> src[p] != '\n'
    ensures '\n' !in Window(src, ls, le, index, length)
  {
    var from := Min(Max(index - 30, ls), le);
    var spanStart := Min(index, le);
    var spanEnd := Min(index + length, le);
    var to := Min(index + length + 30, le);
    PieceHasNoNewline(src, ls, le, from, spanStart);
    PieceHasNoNewline(src, ls, le, spanStart, spanEnd);
    PieceHasNoNewline(src, ls, le, spanEnd, to);
  }

  /** A piece of a line without newlines has none. */
  lemma PieceHasNoNewline(src: string, ls: nat, le: nat, x: nat, y: nat)
    requires ls <= x <= y <= le <= |src|
    requires forall p :: ls <= p < le ==> src[p] != '\n'
    ensures '\n' !in src[x..y]
  {
    forall k | 0 <= k < y - x
      ensures src[x..y][k] != '\n'
    {
      assert src[x..y][k] == src[x + k];
    }
  }
}
