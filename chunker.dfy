/** chunk_text of both scripts: paragraphs are packed greedily into chunks of at most
    maxLen characters, and a paragraph longer than maxLen is cut into overlapping
    windows. The image script takes paragraphs between blank lines, the PDF script
    takes lines. */
module Chunker {
  import opened Text

  // ------------------------------------------------------------ paragraphs

  /** How a script cuts its text into paragraphs before stripping them. */
  datatype Splitter = BlankLines | LineBreaks

  /** A paragraph as chunk_text keeps it: stripped and not empty. */
  predicate IsParagraph(p: string) {
    p != [] && Stripped(p)
  }

  predicate AllParagraphs(ps: seq<string>) {
    forall k :: 0 <= k < |ps| ==> IsParagraph(ps[k])
  }

  /** Every piece is made of characters of `whole`. */
  ghost predicate PiecesFrom(pieces: seq<string>, whole: string) {
    forall k :: 0 <= k < |pieces| ==> CharsFrom(pieces[k], whole)
  }

  /** Two newlines start at position i. */
  predicate BlankAt(s: string, i: int) {
    0 <= i && i + 1 < |s| && s[i] == '\n' && s[i + 1] == '\n'
  }

  /** Where the leftmost match of \n{2,} starts, or |s| when there is none. */
  function FirstBlank(s: string): (i: nat)
    ensures i <= |s|
    ensures i < |s| ==> BlankAt(s, i)
    ensures forall j :: 0 <= j < i ==> !BlankAt(s, j)
  {
    if |s| < 2 then |s|
    else if s[0] == '\n' && s[1] == '\n' then 0
    else
      var i := FirstBlank(s[1..]);
      assert forall j :: 1 <= j < 1 + i ==> (BlankAt(s, j) <==> BlankAt(s[1..], j - 1));
      1 + i
  }

  /** The end of the run of newlines that starts at i (the greedy extent of the match). */
  function NewlineRunEnd(s: string, i: nat): (j: nat)
    requires i <= |s|
    ensures i <= j <= |s|
    ensures forall k :: i <= k < j ==> s[k] == '\n'
    ensures j == |s| || s[j] != '\n'
    decreases |s| - i
  {
    if i < |s| && s[i] == '\n' then NewlineRunEnd(s, i + 1) else i
  }

  /** re.split(r"\n{2,}", s): the pieces between maximal runs of two or more newlines. */
  function SplitBlankRuns(s: string): (pieces: seq<string>)
    ensures |pieces| >= 1
    ensures PiecesFrom(pieces, s)
    decreases |s|
  {
    var i := FirstBlank(s);
    if i == |s| then
      assert CharsFrom(s, s);
      [s]
    else
      var j := NewlineRunEnd(s, i);
      var rest := SplitBlankRuns(s[j..]);
      assert forall k :: 0 <= k < |rest| ==> CharsFrom(rest[k], s) by {
        forall k, m | 0 <= k < |rest| && 0 <= m < |rest[k]| ensures rest[k][m] in s {
          var x :| 0 <= x < |s[j..]| && s[j..][x] == rest[k][m];
          assert s[j + x] == rest[k][m];
        }
      }
      [s[..i]] + rest
  }

  /** The line boundaries of str.splitlines. */
  predicate IsLineBreak(c: char) {
    || c == '\n' || c == '\r' || c == '\U{0B}' || c == '\U{0C}'
    || ('\U{1C}' <= c <= '\U{1E}')
    || c == '\U{85}' || c == '\U{2028}' || c == '\U{2029}'
  }

  /** Index of the first line boundary, or |s|. */
  function FirstLineBreak(s: string): (i: nat)
    ensures i <= |s|
    ensures i < |s| ==> IsLineBreak(s[i])
    ensures forall j :: 0 <= j < i ==> !IsLineBreak(s[j])
  {
    if s == [] then 0 else if IsLineBreak(s[0]) then 0 else 1 + FirstLineBreak(s[1..])
  }

  /** str.splitlines(): "\r\n" is one boundary and a final boundary opens no empty line. */
  function SplitLines(s: string): (lines: seq<string>)
    ensures PiecesFrom(lines, s)
    ensures forall k, m :: 0 <= k < |lines| && 0 <= m < |lines[k]| ==> !IsLineBreak(lines[k][m])
    decreases |s|
  {
    if s == [] then []
    else
      var i := FirstLineBreak(s);
      if i == |s| then
        assert CharsFrom(s, s);
        [s]
      else
        var j := LineBreakEnd(s, i);
        var rest := SplitLines(s[j..]);
        assert forall k :: 0 <= k < |rest| ==> CharsFrom(rest[k], s) by {
          forall k, m | 0 <= k < |rest| && 0 <= m < |rest[k]| ensures rest[k][m] in s {
            var x :| 0 <= x < |s[j..]| && s[j..][x] == rest[k][m];
            assert s[j + x] == rest[k][m];
          }
        }
        [s[..i]] + rest
  }

  function Pieces(text: string, split: Splitter): (pieces: seq<string>)
    ensures PiecesFrom(pieces, text)
  {
    match split
    case BlankLines => SplitBlankRuns(text)
    case LineBreaks => SplitLines(text)
  }

  /** [p.strip() for p in pieces if p.strip()] */
  function NonBlank(pieces: seq<string>): (ps: seq<string>)
    ensures AllParagraphs(ps)
    ensures |ps| <= |pieces|
  {
    if pieces == [] then []
    else
      var t := Strip(pieces[0]);
      (if t != [] then [t] else []) + NonBlank(pieces[1..])
  }

  /** The stripped non-blank paragraphs chunk_text works on. */
  function Paragraphs(text: string, split: Splitter): (ps: seq<string>)
    ensures AllParagraphs(ps)
  {
    NonBlank(Pieces(text, split))
  }

  // ----------------------------------------- what the splits keep of the text

  /** A run of two or more newlines: what \n{2,} matches. */
  predicate NewlineRun(t: string) {
    |t| >= 2 && forall i :: 0 <= i < |t| ==> t[i] == '\n'
  }

  /** The match between two pieces was maximal: no newline is left on either side. */
  predicate Seam(a: string, b: string) {
    (a == [] || a[|a| - 1] != '\n') && (b == [] || b[0] != '\n')
  }

  /** pieces[0] + seps[0] + pieces[1] + ... + seps[n - 1] + pieces[n]. */
  function Weave(pieces: seq<string>, seps: seq<string>): string
    requires |pieces| == |seps| + 1
  {
    if seps == [] then pieces[0] else pieces[0] + seps[0] + Weave(pieces[1..], seps[1..])
  }

  /** No piece of re.split(r"\n{2,}", s) contains a blank line. */
  lemma {:induction false} SplitBlankRunsNoBlank(s: string)
    ensures forall k, m :: 0 <= k < |SplitBlankRuns(s)| ==> !BlankAt(SplitBlankRuns(s)[k], m)
    decreases |s|
  {
    var i := FirstBlank(s);
    if i < |s| {
      var j := NewlineRunEnd(s, i);
      SplitBlankRunsNoBlank(s[j..]);
      assert forall m :: !BlankAt(s[..i], m) by {
        forall m | BlankAt(s[..i], m) ensures false {
          assert BlankAt(s, m);
        }
      }
    }
  }

  /** The newline runs re.split(r"\n{2,}", s) removes, in order. */
  ghost function BlankSeps(s: string): seq<string>
    decreases |s|
  {
    var i := FirstBlank(s);
    if i == |s| then [] else [s[i..NewlineRunEnd(s, i)]] + BlankSeps(s[NewlineRunEnd(s, i)..])
  }

  /** Cutting s at i and j loses nothing. */
  lemma ThreeSlices(s: string, i: nat, j: nat)
    requires i <= j <= |s|
    ensures s[..i] + s[i..j] + s[j..] == s
  {
  }

  /** One unfolding of the split at its leftmost blank line. */
  lemma SplitBlankStep(s: string, i: nat, j: nat)
    requires i == FirstBlank(s) < |s| && j == NewlineRunEnd(s, i)
    ensures SplitBlankRuns(s) == [s[..i]] + SplitBlankRuns(s[j..])
    ensures BlankSeps(s) == [s[i..j]] + BlankSeps(s[j..])
  {
  }

  /** There is one more piece than removed run. */
  lemma {:induction false} BlankSepsCount(s: string)
    ensures |SplitBlankRuns(s)| == |BlankSeps(s)| + 1
    decreases |s|
  {
    var i := FirstBlank(s);
    if i < |s| {
      var j := NewlineRunEnd(s, i);
      SplitBlankStep(s, i, j);
      BlankSepsCount(s[j..]);
    }
  }

  /** Every removed separator is a run of two or more newlines. */
  lemma {:induction false} BlankSepsAreRuns(s: string)
    ensures forall k :: 0 <= k < |BlankSeps(s)| ==> NewlineRun(BlankSeps(s)[k])
    decreases |s|
  {
    var i := FirstBlank(s);
    if i < |s| {
      var j := NewlineRunEnd(s, i);
      SplitBlankStep(s, i, j);
      BlankSepsAreRuns(s[j..]);
    }
  }

  /** The pieces woven back together with the removed runs give s: nothing is lost. */
  lemma {:induction false} SplitBlankRunsRebuild(s: string)
    ensures |SplitBlankRuns(s)| == |BlankSeps(s)| + 1
    ensures Weave(SplitBlankRuns(s), BlankSeps(s)) == s
    decreases |s|
  {
    BlankSepsCount(s);
    var i := FirstBlank(s);
    if i < |s| {
      var j := NewlineRunEnd(s, i);
      SplitBlankStep(s, i, j);
      SplitBlankRunsRebuild(s[j..]);
      var pieces, seps := SplitBlankRuns(s), BlankSeps(s);
      assert pieces[1..] == SplitBlankRuns(s[j..]) && seps[1..] == BlankSeps(s[j..]);
      ThreeSlices(s, i, j);
    }
  }

  /** The first piece is the text up to the leftmost blank line. */
  lemma SplitBlankFirst(s: string)
    ensures SplitBlankRuns(s)[0] == s[..FirstBlank(s)]
  {
  }

  /** Each removed run is maximal: no newline is left at either side of it. */
  lemma {:induction false} SplitBlankRunsSeams(s: string)
    ensures |SplitBlankRuns(s)| == |BlankSeps(s)| + 1
    ensures forall k :: 0 <= k < |BlankSeps(s)| ==> Seam(SplitBlankRuns(s)[k], SplitBlankRuns(s)[k + 1])
    decreases |s|
  {
    BlankSepsCount(s);
    var i := FirstBlank(s);
    if i < |s| {
      var j := NewlineRunEnd(s, i);
      var t := s[j..];
      SplitBlankStep(s, i, j);
      SplitBlankRunsSeams(t);
      SplitBlankFirst(t);
      var pieces, rest := SplitBlankRuns(s), SplitBlankRuns(t);
      assert i > 0 ==> !BlankAt(s, i - 1);
      assert rest[0] != [] ==> rest[0][0] == t[0] == s[j];
      assert Seam(pieces[0], pieces[1]);
      assert forall k :: 1 <= k < |pieces| ==> pieces[k] == rest[k - 1];
    }
  }

  /** A line boundary as splitlines consumes it: one boundary character, or "\r\n". */
  predicate LineEnd(t: string) {
    (|t| == 1 && IsLineBreak(t[0])) || t == "\r\n"
  }

  /** lines[0] + ends[0] + lines[1] + ends[1] + ... */
  function Concat(lines: seq<string>, ends: seq<string>): string
    requires |lines| == |ends|
  {
    if lines == [] then [] else lines[0] + ends[0] + Concat(lines[1..], ends[1..])
  }

  /** Where the first line of s ends and the next one starts. */
  function LineBreakEnd(s: string, i: nat): nat
    requires i < |s|
  {
    if s[i] == '\r' && i + 1 < |s| && s[i + 1] == '\n' then i + 2 else i + 1
  }

  /** The boundary that ends each line of s.splitlines(); [] after a last line
      that has none. */
  ghost function LineEnds(s: string): seq<string>
    decreases |s|
  {
    if s == [] then []
    else
      var i := FirstLineBreak(s);
      if i == |s| then [[]] else [s[i..LineBreakEnd(s, i)]] + LineEnds(s[LineBreakEnd(s, i)..])
  }

  /** One unfolding of splitlines at its first boundary. */
  lemma SplitLinesStep(s: string, i: nat, j: nat)
    requires i == FirstLineBreak(s) < |s| && j == LineBreakEnd(s, i)
    ensures SplitLines(s) == [s[..i]] + SplitLines(s[j..])
    ensures LineEnds(s) == [s[i..j]] + LineEnds(s[j..])
  {
  }

  /** Each line, followed by the boundary that ended it, rebuilds s: nothing is lost. */
  lemma {:induction false} SplitLinesRebuild(s: string)
    ensures |LineEnds(s)| == |SplitLines(s)|
    ensures Concat(SplitLines(s), LineEnds(s)) == s
    decreases |s|
  {
    if s != [] {
      var i := FirstLineBreak(s);
      if i < |s| {
        var j := LineBreakEnd(s, i);
        SplitLinesStep(s, i, j);
        SplitLinesRebuild(s[j..]);
        var lines, ends := SplitLines(s), LineEnds(s);
        assert lines[0] == s[..i] && ends[0] == s[i..j];
        assert lines[1..] == SplitLines(s[j..]) && ends[1..] == LineEnds(s[j..]);
        calc {
          Concat(lines, ends);
          s[..i] + s[i..j] + Concat(SplitLines(s[j..]), LineEnds(s[j..]));
          { ThreeSlices(s, i, j); }
          s;
        }
      }
    }
  }

  /** Every line ends in a boundary, except that the last one may end the text
      without one, and then it is not empty. */
  predicate BoundariesEnd(lines: seq<string>, ends: seq<string>)
    requires |lines| == |ends|
  {
    forall k :: 0 <= k < |ends| ==> LineEnd(ends[k]) || (k == |ends| - 1 && ends[k] == [] && lines[k] != [])
  }

  lemma BoundariesEndCons(line: string, end: string, lines: seq<string>, ends: seq<string>)
    requires |lines| == |ends| && LineEnd(end) && BoundariesEnd(lines, ends)
    ensures BoundariesEnd([line] + lines, [end] + ends)
  {
    assert forall k :: 1 <= k < |ends| + 1 ==> ([end] + ends)[k] == ends[k - 1] && ([line] + lines)[k] == lines[k - 1];
  }

  /** The boundary splitlines consumes is a line end. */
  lemma LineBreakEndIsLineEnd(s: string, i: nat)
    requires i < |s| && IsLineBreak(s[i])
    ensures LineEnd(s[i..LineBreakEnd(s, i)])
  {
    if LineBreakEnd(s, i) == i + 2 {
      assert s[i..i + 2] == [s[i], s[i + 1]];
    }
  }

  /** Every line but the last ends in a boundary; the last one too unless the text
      ends without one, and then it is not empty (a final boundary opens no line). */
  lemma {:induction false} LineEndsAreBoundaries(s: string)
    ensures |LineEnds(s)| == |SplitLines(s)|
    ensures BoundariesEnd(SplitLines(s), LineEnds(s))
    decreases |s|
  {
    if s != [] {
      var i := FirstLineBreak(s);
      if i < |s| {
        var j := LineBreakEnd(s, i);
        SplitLinesStep(s, i, j);
        LineEndsAreBoundaries(s[j..]);
        LineBreakEndIsLineEnd(s, i);
        BoundariesEndCons(s[..i], s[i..j], SplitLines(s[j..]), LineEnds(s[j..]));
      }
    }
  }

  /** No lone "\r" boundary is followed by an empty line ended by "\n". */
  predicate NoSplitCrLf(lines: seq<string>, ends: seq<string>)
    requires |lines| == |ends|
  {
    forall k :: 0 <= k < |ends| - 1 && ends[k] == "\r" ==> !(lines[k + 1] == [] && ends[k + 1] == "\n")
  }

  lemma NoSplitCrLfCons(line: string, end: string, lines: seq<string>, ends: seq<string>)
    requires |lines| == |ends| && NoSplitCrLf(lines, ends)
    requires end == "\r" && lines != [] ==> !(lines[0] == [] && ends[0] == "\n")
    ensures NoSplitCrLf([line] + lines, [end] + ends)
  {
    assert forall k :: 1 <= k < |ends| + 1 ==> ([end] + ends)[k] == ends[k - 1] && ([line] + lines)[k] == lines[k - 1];
  }

  /** A text that does not start with "\n" does not start with an empty line ended by "\n". */
  lemma LineFirstEnd(t: string)
    requires t != [] && t[0] != '\n'
    ensures SplitLines(t) != [] && LineEnds(t) != []
    ensures !(SplitLines(t)[0] == [] && LineEnds(t)[0] == "\n")
  {
    var i := FirstLineBreak(t);
    if i < |t| {
      SplitLinesStep(t, i, LineBreakEnd(t, i));
    }
  }

  /** A boundary consumed as a lone "\r" is not followed by "\n". */
  lemma LoneCr(s: string, i: nat)
    requires i < |s|
    ensures s[i..LineBreakEnd(s, i)] == "\r" && LineBreakEnd(s, i) < |s| ==> s[LineBreakEnd(s, i)] != '\n'
  {
    var j := LineBreakEnd(s, i);
    if s[i..j] == "\r" {
      assert s[i] == s[i..j][0];
    }
  }

  /** A "\r" is one boundary only when no "\n" follows it: it is never followed by
      the "\n" of an empty line. */
  lemma {:induction false} CrLfIsOneBoundary(s: string)
    ensures |LineEnds(s)| == |SplitLines(s)|
    ensures NoSplitCrLf(SplitLines(s), LineEnds(s))
    decreases |s|
  {
    LineEndsAreBoundaries(s);
    if s != [] {
      var i := FirstLineBreak(s);
      if i < |s| {
        var j := LineBreakEnd(s, i);
        var t := s[j..];
        SplitLinesStep(s, i, j);
        CrLfIsOneBoundary(t);
        LineEndsAreBoundaries(t);
        var lines, ends := SplitLines(t), LineEnds(t);
        LoneCr(s, i);
        if s[i..j] == "\r" && t != [] {
          LineFirstEnd(t);
        }
        NoSplitCrLfCons(s[..i], s[i..j], lines, ends);
      }
    }
  }

  /** NonBlank keeps every piece that is not blank, stripped, in order. */
  lemma {:induction false} NonBlankSnoc(pieces: seq<string>, q: string)
    ensures NonBlank(pieces + [q]) == NonBlank(pieces) + (if Strip(q) == [] then [] else [Strip(q)])
  {
    if pieces == [] {
      assert [] + [q] == [q];
    } else {
      assert (pieces + [q])[1..] == pieces[1..] + [q];
      NonBlankSnoc(pieces[1..], q);
    }
  }

  // ------------------------------------------------- hard split into windows

  /** The next window start: step back by `overlap` when that still advances. */
  function NextStart(start: int, end: int, overlap: int): int {
    if end - overlap > start then end - overlap else end
  }

  function Min(a: int, b: int): int {
    if a < b then a else b
  }

  /** The [start, end) spans the window loop visits for a paragraph of length n,
      from the given start on. */
  function SpansFrom(n: nat, maxLen: int, overlap: int, start: nat): (sp: seq<(nat, nat)>)
    requires maxLen > 0
    ensures forall k :: 0 <= k < |sp| ==> start <= sp[k].0 < sp[k].1 <= n
    ensures forall k :: 0 <= k < |sp| ==> sp[k].1 - sp[k].0 <= maxLen
    ensures start < n ==> sp != [] && sp[0] == (start, Min(start + maxLen, n))
    ensures start >= n ==> sp == []
    decreases n - start
  {
    if start >= n then []
    else
      var end := Min(start + maxLen, n);
      [(start, end)] + SpansFrom(n, maxLen, overlap, NextStart(start, end, overlap))
  }

  /** The windows p[start:end] the loop appends, from the given start on. */
  function WindowsFrom(p: string, maxLen: int, overlap: int, start: nat): (ws: seq<string>)
    requires maxLen > 0
    ensures forall k :: 0 <= k < |ws| ==> 0 < |ws[k]| <= maxLen
    decreases |p| - start
  {
    if start >= |p| then []
    else
      var end := Min(start + maxLen, |p|);
      [p[start..end]] + WindowsFrom(p, maxLen, overlap, NextStart(start, end, overlap))
  }

  /** The windows of a hard-split paragraph. */
  function Windows(p: string, maxLen: int, overlap: int): seq<string>
    requires maxLen > 0
  {
    WindowsFrom(p, maxLen, overlap, 0)
  }

  function Spans(n: nat, maxLen: int, overlap: int): seq<(nat, nat)>
    requires maxLen > 0
  {
    SpansFrom(n, maxLen, overlap, 0)
  }

  /** Window k is the slice of p given by span k. */
  lemma {:induction false} WindowsAreSpans(p: string, maxLen: int, overlap: int, start: nat)
    requires maxLen > 0
    ensures var ws, sp := WindowsFrom(p, maxLen, overlap, start), SpansFrom(|p|, maxLen, overlap, start);
      |ws| == |sp| && forall k :: 0 <= k < |ws| ==> ws[k] == p[sp[k].0..sp[k].1]
    decreases |p| - start
  {
    if start < |p| {
      var end := Min(start + maxLen, |p|);
      WindowsAreSpans(p, maxLen, overlap, NextStart(start, end, overlap));
    }
  }

  /** Starts strictly increase and ends never decrease. */
  predicate Increasing(sp: seq<(nat, nat)>) {
    forall k :: 0 <= k < |sp| - 1 ==> sp[k].0 < sp[k + 1].0 && sp[k].1 <= sp[k + 1].1
  }

  /** Every span after the first starts `overlap` before the end of the previous one. */
  predicate StepsBack(sp: seq<(nat, nat)>, overlap: int) {
    forall k :: 0 <= k < |sp| - 1 ==> sp[k + 1].0 == sp[k].1 - overlap
  }

  /** Some span contains position i. */
  predicate Covers(sp: seq<(nat, nat)>, i: int) {
    exists k :: 0 <= k < |sp| && sp[k].0 <= i < sp[k].1
  }

  /** Window starts strictly increase and window ends never decrease. */
  lemma {:induction false} SpansIncrease(n: nat, maxLen: int, overlap: int, start: nat)
    requires maxLen > 0
    ensures Increasing(SpansFrom(n, maxLen, overlap, start))
    decreases n - start
  {
    if start < n {
      var end := Min(start + maxLen, n);
      var next := NextStart(start, end, overlap);
      SpansIncrease(n, maxLen, overlap, next);
      var sp, rest := SpansFrom(n, maxLen, overlap, start), SpansFrom(n, maxLen, overlap, next);
      assert sp == [(start, end)] + rest;
      forall k | 0 <= k < |sp| - 1 ensures sp[k].0 < sp[k + 1].0 && sp[k].1 <= sp[k + 1].1 {
        if k == 0 {
          assert end > start && next > start;
          assert sp[1] == rest[0] == (next, Min(next + maxLen, n));
          assert sp[0] == (start, end);
        } else {
          assert sp[k] == rest[k - 1] && sp[k + 1] == rest[k];
        }
      }
    }
  }

  /** With a non-negative overlap the last window ends at the end of the paragraph. */
  lemma {:induction false} SpansReachEnd(n: nat, maxLen: int, overlap: int, start: nat)
    requires maxLen > 0 && overlap >= 0 && start < n
    ensures var sp := SpansFrom(n, maxLen, overlap, start); sp[|sp| - 1].1 == n
    decreases n - start
  {
    var end := Min(start + maxLen, n);
    var next := NextStart(start, end, overlap);
    var sp, rest := SpansFrom(n, maxLen, overlap, start), SpansFrom(n, maxLen, overlap, next);
    assert sp == [(start, end)] + rest;
    if next < n {
      SpansReachEnd(n, maxLen, overlap, next);
      assert sp[|sp| - 1] == rest[|rest| - 1];
    } else {
      assert rest == [];
    }
  }

  /** With 0 <= overlap < maxLen every window after the first starts `overlap`
      characters before the end of the previous one. */
  lemma {:induction false} SpansStepBack(n: nat, maxLen: int, overlap: int, start: nat)
    requires 0 <= overlap < maxLen
    ensures StepsBack(SpansFrom(n, maxLen, overlap, start), overlap)
    decreases n - start
  {
    if start < n {
      var end := Min(start + maxLen, n);
      var next := NextStart(start, end, overlap);
      SpansStepBack(n, maxLen, overlap, next);
      var sp, rest := SpansFrom(n, maxLen, overlap, start), SpansFrom(n, maxLen, overlap, next);
      assert sp == [(start, end)] + rest;
      forall k | 0 <= k < |sp| - 1 ensures sp[k + 1].0 == sp[k].1 - overlap {
        if k == 0 {
          assert sp[1] == rest[0];
          assert next < n;
          assert end - overlap > start;
        } else {
          assert sp[k] == rest[k - 1] && sp[k + 1] == rest[k];
        }
      }
    }
  }

  /** With a non-negative overlap the windows cover every position of the paragraph. */
  lemma SpansCover(n: nat, maxLen: int, overlap: int, i: nat)
    requires maxLen > 0 && overlap >= 0 && i < n
    ensures Covers(Spans(n, maxLen, overlap), i)
  {
    CoverFrom(n, maxLen, overlap, 0, i);
  }

  lemma {:induction false} CoverFrom(n: nat, maxLen: int, overlap: int, start: nat, i: nat)
    requires maxLen > 0 && overlap >= 0 && start <= i < n
    ensures Covers(SpansFrom(n, maxLen, overlap, start), i)
    decreases n - start
  {
    var sp := SpansFrom(n, maxLen, overlap, start);
    var end := Min(start + maxLen, n);
    var next := NextStart(start, end, overlap);
    assert sp == [(start, end)] + SpansFrom(n, maxLen, overlap, next);
    if i >= end {
      CoverFrom(n, maxLen, overlap, next, i);
      var rest := SpansFrom(n, maxLen, overlap, next);
      var k :| 0 <= k < |rest| && rest[k].0 <= i < rest[k].1;
      assert 0 <= k + 1 < |sp|;
      assert sp[k + 1] == rest[k];
      assert sp[k + 1].0 <= i < sp[k + 1].1;
    } else {
      assert sp[0].0 <= i < sp[0].1;
    }
  }

  /** Consecutive windows share exactly `overlap` characters when 0 <= overlap < maxLen:
      the last `overlap` characters of one window open the next. */
  lemma WindowsShareOverlap(p: string, maxLen: int, overlap: int, k: nat)
    requires 0 <= overlap < maxLen
    requires k + 1 < |Windows(p, maxLen, overlap)|
    ensures var ws := Windows(p, maxLen, overlap);
      |ws[k]| > overlap && |ws[k + 1]| >= overlap
      && ws[k][|ws[k]| - overlap..] == ws[k + 1][..overlap]
  {
    var sp := Spans(|p|, maxLen, overlap);
    WindowPair(p, maxLen, overlap, k);
    SpanPair(|p|, maxLen, overlap, k);
    SharedSlice(p, sp[k].0, sp[k].1, sp[k + 1].1, overlap);
  }

  /** Windows k and k + 1 are the slices of spans k and k + 1. */
  lemma WindowPair(p: string, maxLen: int, overlap: int, k: nat)
    requires maxLen > 0
    requires k + 1 < |Windows(p, maxLen, overlap)|
    ensures var ws, sp := Windows(p, maxLen, overlap), Spans(|p|, maxLen, overlap);
      k + 1 < |sp| && ws[k] == p[sp[k].0..sp[k].1] && ws[k + 1] == p[sp[k + 1].0..sp[k + 1].1]
  {
    WindowsAreSpans(p, maxLen, overlap, 0);
  }

  /** Span k + 1 starts after span k, `overlap` before its end, and ends no earlier. */
  lemma SpanPair(n: nat, maxLen: int, overlap: int, k: nat)
    requires 0 <= overlap < maxLen
    requires k + 1 < |Spans(n, maxLen, overlap)|
    ensures var sp := Spans(n, maxLen, overlap);
      sp[k].0 < sp[k + 1].0 == sp[k].1 - overlap && sp[k].1 <= sp[k + 1].1
  {
    SpansIncrease(n, maxLen, overlap, 0);
    SpansStepBack(n, maxLen, overlap, 0);
  }

  /** Two slices of p, the second starting `overlap` before the first ends. */
  lemma SharedSlice(p: string, a0: nat, a1: nat, b1: nat, overlap: nat)
    requires a0 < a1 - overlap && a1 <= b1 <= |p|
    ensures |p[a0..a1]| > overlap && |p[a1 - overlap..b1]| >= overlap
    ensures p[a0..a1][a1 - a0 - overlap..] == p[a1 - overlap..b1][..overlap]
  {
    assert p[a0..a1][a1 - a0 - overlap..] == p[a1 - overlap..a1];
    assert p[a1 - overlap..b1][..overlap] == p[a1 - overlap..a1];
  }

  /** s without its first n characters. */
  function Drop(s: string, n: nat): string {
    if n <= |s| then s[n..] else []
  }

  /** The windows after the first, each without its first `overlap` characters. */
  function Tails(ws: seq<string>, overlap: nat): string {
    if ws == [] then [] else Drop(ws[0], overlap) + Tails(ws[1..], overlap)
  }

  /** Glue windows back together, dropping the first `overlap` characters of every
      window after the first. */
  function Glue(ws: seq<string>, overlap: nat): string {
    if ws == [] then [] else ws[0] + Tails(ws[1..], overlap)
  }

  lemma {:induction false} RebuildFrom(p: string, maxLen: int, overlap: nat, start: nat)
    requires overlap < maxLen && start < |p|
    ensures Glue(WindowsFrom(p, maxLen, overlap, start), overlap) == p[start..]
    decreases |p| - start
  {
    var end := Min(start + maxLen, |p|);
    var next := NextStart(start, end, overlap);
    var rest := WindowsFrom(p, maxLen, overlap, next);
    assert WindowsFrom(p, maxLen, overlap, start) == [p[start..end]] + rest;
    if next < |p| {
      assert next == end - overlap;
      RebuildFrom(p, maxLen, overlap, next);
      var e2 := Min(next + maxLen, |p|);
      var x := Tails(rest[1..], overlap);
      assert rest[0] == p[next..e2];
      assert end <= e2;
      assert Drop(rest[0], overlap) == p[end..e2];
      assert p[next..e2] + x == p[next..];
      SliceStep(p, start, next, end, e2, x);
    } else {
      assert rest == [];
      assert end == |p|;
    }
  }

  lemma SliceStep(p: string, start: nat, next: nat, end: nat, e2: nat, x: string)
    requires start <= end && next <= end <= e2 <= |p|
    requires p[next..e2] + x == p[next..]
    ensures p[start..end] + (p[end..e2] + x) == p[start..]
  {
    var d := end - next;
    assert (p[next..e2] + x)[d..] == p[end..e2] + x;
    assert p[next..][d..] == p[end..];
    assert p[start..] == p[start..end] + p[end..];
  }

  lemma {:induction false} PartitionFrom(p: string, maxLen: int, overlap: int, start: nat)
    requires 0 < maxLen <= overlap && start < |p|
    ensures Glue(WindowsFrom(p, maxLen, overlap, start), 0) == p[start..]
    decreases |p| - start
  {
    var end := Min(start + maxLen, |p|);
    var next := NextStart(start, end, overlap);
    var rest := WindowsFrom(p, maxLen, overlap, next);
    assert WindowsFrom(p, maxLen, overlap, start) == [p[start..end]] + rest;
    assert next == end;
    if next < |p| {
      PartitionFrom(p, maxLen, overlap, next);
      assert Tails(rest, 0) == Glue(rest, 0) by {
        assert Drop(rest[0], 0) == rest[0];
      }
      assert p[start..] == p[start..end] + p[end..];
    } else {
      assert rest == [];
    }
  }

  /** With a non-negative overlap the hard split loses nothing: gluing the windows back,
      without the `overlap` characters each repeats (none when overlap >= maxLen), gives
      the paragraph. */
  lemma WindowsRebuild(p: string, maxLen: int, overlap: int)
    requires maxLen > 0 && overlap >= 0
    ensures Glue(Windows(p, maxLen, overlap), if overlap < maxLen then overlap else 0) == p
  {
    if p == [] {
    } else if overlap < maxLen {
      RebuildFrom(p, maxLen, overlap, 0);
    } else {
      PartitionFrom(p, maxLen, overlap, 0);
    }
  }

  // ---------------------------------------------------------- greedy packing

  /** The loop state of chunk_text: the chunks emitted so far and the buffer. */
  datatype Acc = Acc(chunks: seq<string>, current: string)

  /** f"{current}\n{p}".strip() for a stripped buffer and a paragraph. */
  function Merge(current: string, p: string): string {
    if current == [] then p else current + "\n" + p
  }

  /** The merge in chunk_text re-strips, which changes nothing for stripped inputs. */
  lemma StripMerge(current: string, p: string)
    requires Stripped(current) && IsParagraph(p)
    ensures Strip(current + "\n" + p) == Merge(current, p)
  {
    if current == [] {
      assert ("\n" + p)[1..] == p;
      StripOfStripped(p);
    } else {
      var m := current + "\n" + p;
      assert m[0] == current[0] && m[|m| - 1] == p[|p| - 1];
      StripOfStripped(m);
    }
  }

  /** The buffer, pushed out as a chunk when it is not empty. */
  function Flush(a: Acc): seq<string> {
    if a.current != [] then a.chunks + [a.current] else a.chunks
  }

  /** One iteration of the paragraph loop. */
  function Feed(a: Acc, p: string, maxLen: int, overlap: int): (r: Acc)
    requires maxLen > 0
    ensures Stripped(a.current) && IsParagraph(p) ==> Stripped(r.current)
  {
    if |a.current| + |p| + 1 <= maxLen then
      assert Stripped(a.current) && IsParagraph(p) && a.current != [] ==>
        Merge(a.current, p)[0] == a.current[0];
      Acc(a.chunks, Merge(a.current, p))
    else if |p| <= maxLen then Acc(Flush(a), p)
    else Acc(Flush(a) + Windows(p, maxLen, overlap), [])
  }

  /** The loop state after feeding the paragraphs ps to the state a. */
  function FeedAll(a: Acc, ps: seq<string>, maxLen: int, overlap: int): (r: Acc)
    requires maxLen > 0 || ps == []
    ensures Stripped(a.current) && AllParagraphs(ps) ==> Stripped(r.current)
  {
    if ps == [] then a
    else Feed(FeedAll(a, ps[..|ps| - 1], maxLen, overlap), ps[|ps| - 1], maxLen, overlap)
  }

  const Start := Acc([], [])

  /** The chunks chunk_text produces from its paragraphs. */
  function Chunks(ps: seq<string>, maxLen: int, overlap: int): seq<string>
    requires maxLen > 0 || ps == []
  {
    Flush(FeedAll(Start, ps, maxLen, overlap))
  }

  /** chunk_text(text, max_len, overlap) with the script's way of finding paragraphs. */
  function ChunkTextSpec(text: string, maxLen: int, overlap: int, split: Splitter): seq<string>
    requires maxLen > 0 || Paragraphs(text, split) == []
  {
    if text == [] then [] else Chunks(Paragraphs(text, split), maxLen, overlap)
  }

  /** The window loop of chunk_text: appends p[start:end] for every window of p. */
  method HardSplit(chunks0: seq<string>, p: string, maxLen: int, overlap: int)
    returns (chunks: seq<string>)
    requires maxLen > 0
    ensures chunks == chunks0 + Windows(p, maxLen, overlap)
  {
    chunks := chunks0;
    var start: nat := 0;
    while start < |p|
      invariant chunks + WindowsFrom(p, maxLen, overlap, start) == chunks0 + Windows(p, maxLen, overlap)
      decreases |p| - start
    {
      var end := if start + maxLen < |p| then start + maxLen else |p|;
      assert WindowsFrom(p, maxLen, overlap, start)
        == [p[start..end]] + WindowsFrom(p, maxLen, overlap, NextStart(start, end, overlap));
      chunks := chunks + [p[start..end]];
      start := if end - overlap > start then end - overlap else end;
    }
  }

  /** One turn of the paragraph loop of chunk_text. */
  method FeedParagraph(chunks0: seq<string>, current0: string, p: string, maxLen: int, overlap: int)
    returns (chunks: seq<string>, current: string)
    requires maxLen > 0 && Stripped(current0) && IsParagraph(p)
    ensures Acc(chunks, current) == Feed(Acc(chunks0, current0), p, maxLen, overlap)
  {
    chunks, current := chunks0, current0;
    if |current| + |p| + 1 <= maxLen {
      StripMerge(current, p);
      current := Strip(current + "\n" + p);
    } else {
      if current != "" {
        chunks := chunks + [current];
      }
      if |p| <= maxLen {
        current := p;
      } else {
        chunks := HardSplit(chunks, p, maxLen, overlap);
        current := "";
      }
    }
  }

  /** The paragraph loop of chunk_text and the final flush of the buffer. */
  method PackParagraphs(paragraphs: seq<string>, maxLen: int, overlap: int) returns (chunks: seq<string>)
    requires maxLen > 0 || paragraphs == []
    requires AllParagraphs(paragraphs)
    ensures chunks == Chunks(paragraphs, maxLen, overlap)
  {
    chunks := [];
    var current := "";
    for i := 0 to |paragraphs|
      invariant Acc(chunks, current) == FeedAll(Start, paragraphs[..i], maxLen, overlap)
      invariant Stripped(current)
    {
      assert paragraphs[..i + 1][..i] == paragraphs[..i];
      chunks, current := FeedParagraph(chunks, current, paragraphs[i], maxLen, overlap);
    }
    assert paragraphs[..|paragraphs|] == paragraphs;
    if current != "" {
      chunks := chunks + [current];
    }
  }

  /** chunk_text. With max_len <= 0 and a paragraph, the window loop runs forever when
      overlap >= max_len and otherwise emits slices of Python's negative-index kind; the
      precondition keeps to max_len > 0 or no paragraph. */
  method ChunkText(text: string, maxLen: int, overlap: int, split: Splitter)
    returns (chunks: seq<string>)
    requires maxLen > 0 || Paragraphs(text, split) == []
    ensures chunks == ChunkTextSpec(text, maxLen, overlap, split)
  {
    if text == [] {
      return [];
    }
    chunks := PackParagraphs(Paragraphs(text, split), maxLen, overlap);
  }

  // -------------------------------------------------------------- properties

  /** Every chunk is non-empty and at most maxLen long. */
  predicate Bounded(cs: seq<string>, maxLen: int) {
    forall k :: 0 <= k < |cs| ==> 0 < |cs[k]| <= maxLen
  }

  predicate BoundedAcc(a: Acc, maxLen: int) {
    Bounded(a.chunks, maxLen) && |a.current| <= maxLen
  }

  lemma BoundedAppend(xs: seq<string>, ys: seq<string>, maxLen: int)
    requires Bounded(xs, maxLen) && Bounded(ys, maxLen)
    ensures Bounded(xs + ys, maxLen)
  {
    assert forall k :: |xs| <= k < |xs + ys| ==> (xs + ys)[k] == ys[k - |xs|];
  }

  lemma {:induction false} FeedAllBounded(ps: seq<string>, maxLen: int, overlap: int)
    requires maxLen > 0 && AllParagraphs(ps)
    ensures BoundedAcc(FeedAll(Start, ps, maxLen, overlap), maxLen)
  {
    if ps != [] {
      var init, p := ps[..|ps| - 1], ps[|ps| - 1];
      assert AllParagraphs(init) by {
        assert forall k :: 0 <= k < |init| ==> init[k] == ps[k];
      }
      FeedAllBounded(init, maxLen, overlap);
      var a := FeedAll(Start, init, maxLen, overlap);
      if |a.current| + |p| + 1 > maxLen {
        BoundedAppend(a.chunks, if a.current != [] then [a.current] else [], maxLen);
        if |p| > maxLen {
          BoundedAppend(Flush(a), Windows(p, maxLen, overlap), maxLen);
        }
      }
    }
  }

  /** With max_len > 0 every chunk is non-empty and at most max_len characters long. */
  lemma ChunksBounded(text: string, maxLen: int, overlap: int, split: Splitter)
    requires maxLen > 0
    ensures Bounded(ChunkTextSpec(text, maxLen, overlap, split), maxLen)
  {
    if text != [] {
      var ps := Paragraphs(text, split);
      FeedAllBounded(ps, maxLen, overlap);
      var a := FeedAll(Start, ps, maxLen, overlap);
      BoundedAppend(a.chunks, if a.current != [] then [a.current] else [], maxLen);
    }
  }

  /** Python's "\n".join. */
  function JoinLines(xs: seq<string>): string {
    JoinWith(xs, "\n")
  }

  /** What one paragraph does to the chunk list: a paragraph that fits is joined to
      the text of the chunks with one "\n" (appended to the last chunk or starting a
      new one), and an oversized paragraph closes the buffer and adds its windows. */
  lemma FlushFeed(a: Acc, p: string, maxLen: int, overlap: int)
    requires maxLen > 0 && IsParagraph(p)
    ensures Flush(Feed(a, p, maxLen, overlap)) != []
    ensures |p| > maxLen ==> Flush(Feed(a, p, maxLen, overlap)) == Flush(a) + Windows(p, maxLen, overlap)
    ensures |p| <= maxLen ==>
      JoinLines(Flush(Feed(a, p, maxLen, overlap)))
        == (if Flush(a) == [] then p else JoinLines(Flush(a)) + "\n" + p)
  {
    var r := Feed(a, p, maxLen, overlap);
    if |a.current| + |p| + 1 <= maxLen {
      if a.current == [] {
        if a.chunks != [] {
          JoinWithSnoc(a.chunks, p, "\n");
        }
      } else if a.chunks != [] {
        JoinWithSnoc(a.chunks, a.current + "\n" + p, "\n");
        JoinWithSnoc(a.chunks, a.current, "\n");
      }
    } else if |p| <= maxLen {
      if Flush(a) != [] {
        JoinWithSnoc(Flush(a), p, "\n");
      }
    } else {
      assert Windows(p, maxLen, overlap) != [];
    }
  }

  /** The greedy rule, chunk by chunk: a paragraph that fits after a non-empty buffer
      extends the last chunk with "\n" and itself; into an empty buffer it goes whole;
      and a paragraph that does not fit after the buffer closes it and starts the next
      chunk. */
  lemma FeedGreedy(a: Acc, p: string, maxLen: int, overlap: int)
    requires maxLen > 0 && IsParagraph(p)
    ensures a.current != [] && |a.current| + |p| + 1 <= maxLen ==>
      Flush(Feed(a, p, maxLen, overlap)) == a.chunks + [a.current + "\n" + p]
    ensures a.current == [] && |p| <= maxLen ==> Flush(Feed(a, p, maxLen, overlap)) == a.chunks + [p]
    ensures |a.current| + |p| + 1 > maxLen && |p| <= maxLen ==>
      Flush(Feed(a, p, maxLen, overlap)) == Flush(a) + [p]
  {
  }

  /** Without an oversized paragraph nothing is cut: the chunks, joined by "\n", give
      back the paragraphs joined by "\n", and there is a chunk iff there is a paragraph. */
  lemma {:induction false} ChunksJoin(ps: seq<string>, maxLen: int, overlap: int)
    requires maxLen > 0 && AllParagraphs(ps)
    requires forall k :: 0 <= k < |ps| ==> |ps[k]| <= maxLen
    ensures JoinLines(Chunks(ps, maxLen, overlap)) == JoinLines(ps)
    ensures Chunks(ps, maxLen, overlap) == [] <==> ps == []
  {
    if ps != [] {
      var init, p := ps[..|ps| - 1], ps[|ps| - 1];
      assert forall k :: 0 <= k < |init| ==> init[k] == ps[k];
      ChunksJoin(init, maxLen, overlap);
      var a := FeedAll(Start, init, maxLen, overlap);
      assert Chunks(ps, maxLen, overlap) == Flush(Feed(a, p, maxLen, overlap));
      FlushFeed(a, p, maxLen, overlap);
      assert ps == init + [p];
      if init != [] {
        JoinWithSnoc(init, p, "\n");
      }
    }
  }

  /** A join starts with its first part, so it is not empty when that part is not. */
  lemma JoinLinesNonEmpty(xs: seq<string>)
    requires xs != [] && xs[0] != []
    ensures JoinLines(xs) != []
  {
    if |xs| > 1 {
      assert JoinLines(xs) == xs[0] + "\n" + JoinLines(xs[1..]);
    }
  }

  /** While the paragraphs joined by "\n" fit in max_len, the buffer holds all of them
      and nothing has been emitted. */
  lemma {:induction false} FeedAllFits(ps: seq<string>, maxLen: int, overlap: int)
    requires maxLen > 0 && AllParagraphs(ps) && |JoinLines(ps)| <= maxLen
    ensures FeedAll(Start, ps, maxLen, overlap) == Acc([], JoinLines(ps))
  {
    if ps != [] {
      var init, p := ps[..|ps| - 1], ps[|ps| - 1];
      assert ps == init + [p];
      if init != [] {
        assert forall k :: 0 <= k < |init| ==> init[k] == ps[k];
        JoinWithSnoc(init, p, "\n");
        FeedAllFits(init, maxLen, overlap);
        JoinLinesNonEmpty(init);
      }
    }
  }

  /** Greedy packing: paragraphs whose "\n"-join fits in max_len become one chunk. */
  lemma AllFitOneChunk(ps: seq<string>, maxLen: int, overlap: int)
    requires maxLen > 0 && AllParagraphs(ps) && ps != [] && |JoinLines(ps)| <= maxLen
    ensures Chunks(ps, maxLen, overlap) == [JoinLines(ps)]
  {
    FeedAllFits(ps, maxLen, overlap);
    JoinLinesNonEmpty(ps);
  }

  lemma {:induction false} FeedAllAppend(a: Acc, ps: seq<string>, qs: seq<string>, maxLen: int, overlap: int)
    requires maxLen > 0
    ensures FeedAll(a, ps + qs, maxLen, overlap) == FeedAll(FeedAll(a, ps, maxLen, overlap), qs, maxLen, overlap)
  {
    if qs == [] {
      assert ps + qs == ps;
    } else {
      var init := qs[..|qs| - 1];
      assert (ps + qs)[..|ps + qs| - 1] == ps + init;
      assert (ps + qs)[|ps + qs| - 1] == qs[|qs| - 1];
      FeedAllAppend(a, ps, init, maxLen, overlap);
    }
  }

  /** The chunks already emitted play no part in what happens next. */
  lemma FeedShift(x: seq<string>, a: Acc, p: string, maxLen: int, overlap: int)
    requires maxLen > 0
    ensures var r := Feed(a, p, maxLen, overlap);
      Feed(Acc(x + a.chunks, a.current), p, maxLen, overlap) == Acc(x + r.chunks, r.current)
  {
    assert Flush(Acc(x + a.chunks, a.current)) == x + Flush(a);
  }

  lemma {:induction false} FeedAllShift(x: seq<string>, a: Acc, ps: seq<string>, maxLen: int, overlap: int)
    requires maxLen > 0
    ensures FeedAll(Acc(x + a.chunks, a.current), ps, maxLen, overlap)
      == Acc(x + FeedAll(a, ps, maxLen, overlap).chunks, FeedAll(a, ps, maxLen, overlap).current)
  {
    if ps != [] {
      var init := ps[..|ps| - 1];
      FeedAllShift(x, a, init, maxLen, overlap);
      FeedShift(x, FeedAll(a, init, maxLen, overlap), ps[|ps| - 1], maxLen, overlap);
    }
  }

  /** An oversized paragraph is a barrier: the chunks before it, its windows and the
      chunks after it are computed independently of each other. */
  lemma ChunksAroundHardSplit(ps: seq<string>, big: string, qs: seq<string>, maxLen: int, overlap: int)
    requires maxLen > 0 && |big| > maxLen
    ensures Chunks(ps + [big] + qs, maxLen, overlap)
      == Chunks(ps, maxLen, overlap) + Windows(big, maxLen, overlap) + Chunks(qs, maxLen, overlap)
  {
    var x := Chunks(ps, maxLen, overlap) + Windows(big, maxLen, overlap);
    FeedAllAppend(Start, ps + [big], qs, maxLen, overlap);
    assert (ps + [big])[..|ps + [big]| - 1] == ps;
    assert FeedAll(Start, ps + [big], maxLen, overlap) == Acc(x + Start.chunks, Start.current);
    FeedAllShift(x, Start, qs, maxLen, overlap);
    var b := FeedAll(Start, qs, maxLen, overlap);
    assert Flush(Acc(x + b.chunks, b.current)) == x + Flush(b);
  }

  lemma {:induction false} NonBlankOfBlank(pieces: seq<string>, text: string)
    requires PiecesFrom(pieces, text)
    requires forall i :: 0 <= i < |text| ==> IsSpace(text[i])
    ensures NonBlank(pieces) == []
  {
    if pieces != [] {
      var q := pieces[0];
      assert forall i :: 0 <= i < |q| ==> IsSpace(q[i]) by {
        forall i | 0 <= i < |q| ensures IsSpace(q[i]) {
          assert q[i] in text;
        }
      }
      StripEmpty(q);
      NonBlankOfBlank(pieces[1..], text);
    }
  }

  /** Text made only of whitespace has no paragraph, hence no chunk. */
  lemma BlankTextNoChunks(text: string, maxLen: int, overlap: int, split: Splitter)
    requires forall i :: 0 <= i < |text| ==> IsSpace(text[i])
    ensures Paragraphs(text, split) == []
    ensures ChunkTextSpec(text, maxLen, overlap, split) == []
  {
    NonBlankOfBlank(Pieces(text, split), text);
  }

  /** Every character of the part is a newline or occurs in the text. */
  ghost predicate FromText(part: string, text: string) {
    forall i :: 0 <= i < |part| ==> part[i] == '\n' || part[i] in text
  }

  ghost predicate AccFromText(a: Acc, text: string) {
    (forall k :: 0 <= k < |a.chunks| ==> FromText(a.chunks[k], text)) && FromText(a.current, text)
  }

  lemma {:induction false} NonBlankFrom(pieces: seq<string>, text: string)
    requires PiecesFrom(pieces, text)
    ensures PiecesFrom(NonBlank(pieces), text)
  {
    if pieces != [] {
      StripChars(pieces[0]);
      var t := Strip(pieces[0]);
      assert CharsFrom(t, text) by {
        forall i | 0 <= i < |t| ensures t[i] in text {
          assert t[i] in pieces[0];
        }
      }
      NonBlankFrom(pieces[1..], text);
    }
  }

  lemma WindowsFromText(p: string, maxLen: int, overlap: int, text: string)
    requires maxLen > 0 && CharsFrom(p, text)
    ensures forall k :: 0 <= k < |Windows(p, maxLen, overlap)| ==> FromText(Windows(p, maxLen, overlap)[k], text)
  {
    WindowsAreSpans(p, maxLen, overlap, 0);
    var ws, sp := Windows(p, maxLen, overlap), Spans(|p|, maxLen, overlap);
    forall k, i | 0 <= k < |ws| && 0 <= i < |ws[k]| ensures ws[k][i] in text {
      assert ws[k][i] == p[sp[k].0 + i];
    }
  }

  lemma {:induction false} FeedAllFromText(ps: seq<string>, maxLen: int, overlap: int, text: string)
    requires maxLen > 0 && PiecesFrom(ps, text)
    ensures AccFromText(FeedAll(Start, ps, maxLen, overlap), text)
  {
    if ps != [] {
      var init, p := ps[..|ps| - 1], ps[|ps| - 1];
      assert forall k :: 0 <= k < |init| ==> init[k] == ps[k];
      FeedAllFromText(init, maxLen, overlap, text);
      var a := FeedAll(Start, init, maxLen, overlap);
      if |a.current| + |p| + 1 <= maxLen {
        var m := Merge(a.current, p);
        assert FromText(m, text) by {
          if a.current != [] {
            forall i | 0 <= i < |m| ensures m[i] == '\n' || m[i] in text {
              if i < |a.current| {
                assert m[i] == a.current[i];
              } else if i > |a.current| {
                assert m[i] == p[i - |a.current| - 1];
              }
            }
          }
        }
      } else if |p| > maxLen {
        WindowsFromText(p, maxLen, overlap, text);
        var f, ws := Flush(a), Windows(p, maxLen, overlap);
        assert forall k :: |f| <= k < |f + ws| ==> (f + ws)[k] == ws[k - |f|];
      }
    }
  }

  /** Chunks add nothing to the text but the "\n" that joins merged paragraphs. */
  lemma ChunkChars(text: string, maxLen: int, overlap: int, split: Splitter)
    requires maxLen > 0
    ensures forall k :: 0 <= k < |ChunkTextSpec(text, maxLen, overlap, split)| ==>
      FromText(ChunkTextSpec(text, maxLen, overlap, split)[k], text)
  {
    if text != [] {
      var ps := Paragraphs(text, split);
      NonBlankFrom(Pieces(text, split), text);
      FeedAllFromText(ps, maxLen, overlap, text);
    }
  }

  /** A blank line between a paragraph and the rest separates exactly there. */
  lemma SplitAtBlank(a: string, b: string)
    requires FirstBlank(a) == |a| && (a == [] || a[|a| - 1] != '\n')
    requires b == [] || b[0] != '\n'
    ensures SplitBlankRuns(a + "\n\n" + b) == [a] + SplitBlankRuns(b)
  {
    var s := a + "\n\n" + b;
    assert FirstBlank(s) == |a| by {
      assert BlankAt(s, |a|);
      forall j | 0 <= j < |a| ensures !BlankAt(s, j) {
        if j + 1 < |a| {
          assert !BlankAt(a, j);
        }
      }
    }
    assert NewlineRunEnd(s, |a|) == |a| + 2 by {
      assert NewlineRunEnd(s, |a| + 2) == |a| + 2;
    }
    assert s[..|a|] == a && s[|a| + 2..] == b;
    SplitBlankStep(s, |a|, |a| + 2);
  }

  lemma NoBlankIn(s: string)
    requires forall j :: 0 <= j < |s| ==> s[j] != '\n'
    ensures FirstBlank(s) == |s|
    ensures SplitBlankRuns(s) == [s]
  {
    assert FirstBlank(s) == |s| by {
      forall j | 0 <= j < |s| ensures !BlankAt(s, j) {
        assert s[j] != '\n';
      }
    }
  }

  lemma ExampleTextShape()
    ensures "Para one." + "\n\n" + "Para two." == "Para one.\n\nPara two."
  {
  }

  /** Two pieces without newlines around one blank line split into exactly those two. */
  lemma SplitTwo(a: string, b: string)
    requires forall j :: 0 <= j < |a| ==> a[j] != '\n'
    requires forall j :: 0 <= j < |b| ==> b[j] != '\n'
    ensures SplitBlankRuns(a + "\n\n" + b) == [a, b]
  {
    NoBlankIn(a);
    NoBlankIn(b);
    SplitAtBlank(a, b);
  }

  lemma ExampleSplit()
    ensures SplitBlankRuns("Para one." + "\n\n" + "Para two.") == ["Para one.", "Para two."]
  {
    SplitTwo("Para one.", "Para two.");
  }

  lemma TwoParagraphsPieces()
    ensures SplitBlankRuns("Para one.\n\nPara two.") == ["Para one.", "Para two."]
  {
    ExampleTextShape();
    ExampleSplit();
  }

  lemma PiecesStripped()
    ensures Strip("Para one.") == "Para one." && Strip("Para two.") == "Para two."
  {
    StripOfStripped("Para one.");
    StripOfStripped("Para two.");
  }

  lemma TwoParagraphsSplit()
    ensures Paragraphs("Para one.\n\nPara two.", BlankLines) == ["Para one.", "Para two."]
  {
    TwoParagraphsPieces();
    PiecesStripped();
    assert NonBlank(["Para two."]) == ["Para two."];
    assert NonBlank(["Para one.", "Para two."]) == ["Para one."] + NonBlank(["Para two."]);
  }

  lemma TwoParagraphsPacked()
    ensures Chunks(["Para one.", "Para two."], 1200, 200) == ["Para one.\nPara two."]
  {
    var one, two := "Para one.", "Para two.";
    assert [one, two][..1] == [one];
    assert [one][..0] == [];
    assert FeedAll(Start, [one], 1200, 200) == Acc([], one);
    assert FeedAll(Start, [one, two], 1200, 200) == Acc([], one + "\n" + two);
    assert one + "\n" + two == "Para one.\nPara two.";
  }

  /** Two short paragraphs separated by a blank line end up in one chunk, joined by
      a single "\n". */
  lemma TwoParagraphsExample()
    ensures ChunkTextSpec("Para one.\n\nPara two.", 1200, 200, BlankLines) == ["Para one.\nPara two."]
  {
    TwoParagraphsSplit();
    TwoParagraphsPacked();
  }

  /** A 3000-character paragraph at 1200/200: windows start at 0, 1000, 2000 and 2800,
      the last one holding the final 200 characters. */
  lemma LongParagraphSpans()
    ensures Spans(3000, 1200, 200) == [(0, 1200), (1000, 2200), (2000, 3000), (2800, 3000)]
  {
    SpanStep(3000, 1200, 200, 2800, 3000, 3000);
    SpanStep(3000, 1200, 200, 2000, 3000, 2800);
    SpanStep(3000, 1200, 200, 1000, 2200, 2000);
    SpanStep(3000, 1200, 200, 0, 1200, 1000);
  }

  /** One unfolding of SpansFrom, with the end and the next start given. */
  lemma SpanStep(n: nat, maxLen: int, overlap: int, start: nat, end: nat, next: nat)
    requires maxLen > 0 && start < n
    requires end == Min(start + maxLen, n) && next == NextStart(start, end, overlap)
    ensures SpansFrom(n, maxLen, overlap, start) == [(start, end)] + SpansFrom(n, maxLen, overlap, next)
  {
  }

  /** The windows of such a paragraph are the slices of those spans. */
  lemma LongParagraphExample(p: string)
    requires |p| == 3000
    ensures Windows(p, 1200, 200) == [p[0..1200], p[1000..2200], p[2000..3000], p[2800..3000]]
  {
    assert WindowsFrom(p, 1200, 200, 3000) == [];
    assert WindowsFrom(p, 1200, 200, 2800) == [p[2800..3000]];
    assert WindowsFrom(p, 1200, 200, 2000) == [p[2000..3000]] + [p[2800..3000]];
    assert WindowsFrom(p, 1200, 200, 1000) == [p[1000..2200]] + [p[2000..3000], p[2800..3000]];
    assert WindowsFrom(p, 1200, 200, 0) == [p[0..1200]] + [p[1000..2200], p[2000..3000], p[2800..3000]];
  }

  /** The PDF script's paragraphs hold no line boundary. */
  lemma LineParagraphsHaveNoBreaks(text: string)
    ensures var ps := Paragraphs(text, LineBreaks);
      forall k, i :: 0 <= k < |ps| && 0 <= i < |ps[k]| ==> !IsLineBreak(ps[k][i])
  {
    NoBreaksNonBlank(SplitLines(text));
  }

  lemma {:induction false} NoBreaksNonBlank(lines: seq<string>)
    requires forall k, i :: 0 <= k < |lines| && 0 <= i < |lines[k]| ==> !IsLineBreak(lines[k][i])
    ensures forall k, i :: 0 <= k < |NonBlank(lines)| && 0 <= i < |NonBlank(lines)[k]| ==> !IsLineBreak(NonBlank(lines)[k][i])
  {
    if lines != [] {
      StripChars(lines[0]);
      NoBreaksNonBlank(lines[1..]);
      var t := Strip(lines[0]);
      forall i | 0 <= i < |t| ensures !IsLineBreak(t[i]) {
        assert t[i] in lines[0];
      }
    }
  }
}
