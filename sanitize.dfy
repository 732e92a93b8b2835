/** sanitize_text of the image script: line endings normalised to "\n" and the
    ASCII control characters other than tab, line feed and carriage return removed.
    The UTF-8 encode/decode step is the identity on the character sequences modelled here. */
module Sanitize {
  import opened Text

  /** The characters of the class [\x00-\x08\x0B\x0C\x0E-\x1F]. */
  predicate IsDroppedControl(c: char) {
    c <= '\U{08}' || c == '\U{0B}' || c == '\U{0C}' || ('\U{0E}' <= c <= '\U{1F}')
  }

  /** What sanitize_text guarantees of its output. */
  predicate Clean(s: string) {
    forall i :: 0 <= i < |s| ==> s[i] != '\r' && !IsDroppedControl(s[i])
  }

  function Count(s: string, c: char): nat {
    if s == [] then 0 else (if s[0] == c then 1 else 0) + Count(s[1..], c)
  }

  /** The number of "\r\n" pairs that a left-to-right replace finds. */
  function CrLfPairs(s: string): nat {
    if |s| >= 2 && s[0] == '\r' && s[1] == '\n' then 1 + CrLfPairs(s[2..])
    else if s == [] then 0
    else CrLfPairs(s[1..])
  }

  /** value.replace("\r\n", "\n") */
  function CrLfToLf(s: string): string {
    if |s| >= 2 && s[0] == '\r' && s[1] == '\n' then "\n" + CrLfToLf(s[2..])
    else if s == [] then []
    else [s[0]] + CrLfToLf(s[1..])
  }

  /** value.replace("\r", "\n") */
  function CrToLf(s: string): (r: string)
    ensures |r| == |s|
    ensures forall i :: 0 <= i < |r| ==> r[i] != '\r'
    ensures forall i :: 0 <= i < |s| ==> r[i] == if s[i] == '\r' then '\n' else s[i]
  {
    if s == [] then [] else [if s[0] == '\r' then '\n' else s[0]] + CrToLf(s[1..])
  }

  /** re.sub(r"[\x00-\x08\x0B\x0C\x0E-\x1F]", "", value) */
  function DropControls(s: string): (r: string)
    ensures |r| <= |s|
    ensures CharsFrom(r, s)
    ensures forall i :: 0 <= i < |r| ==> !IsDroppedControl(r[i])
  {
    if s == [] then []
    else if IsDroppedControl(s[0]) then DropControls(s[1..])
    else [s[0]] + DropControls(s[1..])
  }

  /** sanitize_text(value); the empty string stands also for None. */
  function SanitizeText(s: string): (r: string)
    ensures Clean(r)
    ensures s == [] ==> r == []
  {
    if s == [] then [] else DropControls(CrToLf(CrLfToLf(s)))
  }

  // ------------------------------------------- which characters are kept

  /** The cut between a and b does not fall inside a "\r\n" pair. */
  predicate NoPairAcross(a: string, b: string) {
    a == [] || b == [] || a[|a| - 1] != '\r' || b[0] != '\n'
  }

  /** The "\r\n" replace works piecewise, as long as no pair straddles the cut. */
  lemma {:induction false} CrLfToLfAppend(a: string, b: string)
    requires NoPairAcross(a, b)
    ensures CrLfToLf(a + b) == CrLfToLf(a) + CrLfToLf(b)
    decreases |a|
  {
    if a == [] {
      assert a + b == b;
    } else if |a| >= 2 && a[0] == '\r' && a[1] == '\n' {
      LastOfDrop(a, 2);
      CrLfToLfAppend(a[2..], b);
      assert NoPairAcross(a[2..], b);
      CrLfPairStep(a, b);
    } else {
      LastOfDrop(a, 1);
      CrLfToLfAppend(a[1..], b);
      CrLfCharStep(a, b);
    }
  }

  lemma LastOfDrop(a: string, n: nat)
    requires n <= |a|
    ensures a[n..] == [] || a[n..][|a[n..]| - 1] == a[|a| - 1]
  {
  }

  lemma CrLfPairStep(a: string, b: string)
    requires |a| >= 2 && a[0] == '\r' && a[1] == '\n'
    requires CrLfToLf(a[2..] + b) == CrLfToLf(a[2..]) + CrLfToLf(b)
    ensures CrLfToLf(a + b) == CrLfToLf(a) + CrLfToLf(b)
  {
    assert (a + b)[2..] == a[2..] + b;
    assert CrLfToLf(a + b) == "\n" + CrLfToLf(a[2..] + b);
  }

  lemma CrLfCharStep(a: string, b: string)
    requires a != [] && NoPairAcross(a, b) && !(|a| >= 2 && a[0] == '\r' && a[1] == '\n')
    requires CrLfToLf(a[1..] + b) == CrLfToLf(a[1..]) + CrLfToLf(b)
    ensures CrLfToLf(a + b) == CrLfToLf(a) + CrLfToLf(b)
  {
    CrLfUnfoldAppend(a, b);
    CrLfUnfoldChar(a);
    ConsJoin(a[0], CrLfToLf(a + b), CrLfToLf(a[1..] + b), CrLfToLf(a[1..]), CrLfToLf(b), CrLfToLf(a));
  }

  /** The sequence step behind CrLfCharStep, on plain strings. */
  lemma ConsJoin(c: char, w: string, u: string, x: string, y: string, v: string)
    requires w == [c] + u && u == x + y && v == [c] + x
    ensures w == v + y
  {
  }

  /** A character that does not start a pair in a starts no pair in a + b either. */
  lemma CrLfUnfoldAppend(a: string, b: string)
    requires a != [] && NoPairAcross(a, b) && !(|a| >= 2 && a[0] == '\r' && a[1] == '\n')
    ensures CrLfToLf(a + b) == [a[0]] + CrLfToLf(a[1..] + b)
  {
    var s := a + b;
    assert s[1..] == a[1..] + b && s[0] == a[0] && !(|s| >= 2 && s[0] == '\r' && s[1] == '\n') by {
      assert s[0] == a[0] && (|a| >= 2 ==> s[1] == a[1]) && (|a| == 1 && b != [] ==> s[1] == b[0]);
    }
    CrLfUnfoldChar(s);
  }

  /** One step of the replace at a character that does not start a pair. */
  lemma CrLfUnfoldChar(s: string)
    requires s != [] && !(|s| >= 2 && s[0] == '\r' && s[1] == '\n')
    ensures CrLfToLf(s) == [s[0]] + CrLfToLf(s[1..])
  {
  }

  /** A pair becomes one "\n"; any single character stays. */
  lemma CrLfToLfPieces(c: char)
    ensures CrLfToLf("\r\n") == "\n"
    ensures CrLfToLf([c]) == [c]
  {
    assert "\r\n"[2..] == [];
  }

  lemma {:induction false} CrToLfAppend(a: string, b: string)
    ensures CrToLf(a + b) == CrToLf(a) + CrToLf(b)
  {
    var r, s := CrToLf(a + b), CrToLf(a) + CrToLf(b);
    assert |r| == |s|;
    forall i | 0 <= i < |r| ensures r[i] == s[i] {
      if i < |a| {
        assert (a + b)[i] == a[i];
      } else {
        assert (a + b)[i] == b[i - |a|];
      }
    }
  }

  /** The substitution works character by character: it removes the characters of
      the class and keeps all others, in order. */
  lemma {:induction false} DropControlsAppend(a: string, b: string)
    ensures DropControls(a + b) == DropControls(a) + DropControls(b)
  {
    if a == [] {
      assert a + b == b;
    } else {
      assert (a + b)[1..] == a[1..] + b;
      DropControlsAppend(a[1..], b);
    }
  }

  lemma DropControlsChar(c: char)
    ensures DropControls([c]) == if IsDroppedControl(c) then [] else [c]
  {
    assert [c][1..] == [];
  }

  /** sanitize_text works piecewise when the cut does not split a "\r\n". Every text
      can be cut into "\r\n" pairs and single characters this way, so with
      SanitizePieces this fixes the output of every text. */
  lemma SanitizeAppend(a: string, b: string)
    requires NoPairAcross(a, b)
    ensures SanitizeText(a + b) == SanitizeText(a) + SanitizeText(b)
  {
    if a == [] {
      assert a + b == b;
    } else if b == [] {
      assert a + b == a;
    } else {
      CrLfToLfAppend(a, b);
      CrToLfAppend(CrLfToLf(a), CrLfToLf(b));
      DropControlsAppend(CrToLf(CrLfToLf(a)), CrToLf(CrLfToLf(b)));
    }
  }

  /** What sanitize_text makes of the pieces: a "\r\n" and a lone "\r" become "\n", a
      character of the control class goes, and every other character is kept. */
  lemma SanitizePieces(c: char)
    ensures SanitizeText("\r\n") == "\n"
    ensures SanitizeText([c]) == if c == '\r' then "\n" else if IsDroppedControl(c) then [] else [c]
  {
    CrLfToLfPieces(c);
    DropControlsChar('\n');
    var d := if c == '\r' then '\n' else c;
    assert CrToLf([c]) == [d];
    DropControlsChar(d);
  }

  /** A lone '\r' before any character other than '\n' becomes its own "\n", and that
      character is then treated as on its own. */
  lemma SanitizeCrBefore(c: char)
    requires c != '\n'
    ensures SanitizeText(['\r', c]) == "\n" + SanitizeText([c])
  {
    assert ['\r', c] == ['\r'] + [c];
    SanitizeAppend(['\r'], [c]);
    SanitizePieces('\r');
  }

  /** sanitize_text read left to right: a leading "\r\n" becomes "\n", any other leading
      character is sanitized on its own, and the rest follows. With SanitizePieces this
      determines the output on every text. */
  lemma SanitizeStep(s: string)
    requires s != []
    ensures |s| >= 2 && s[0] == '\r' && s[1] == '\n' ==> SanitizeText(s) == "\n" + SanitizeText(s[2..])
    ensures !(|s| >= 2 && s[0] == '\r' && s[1] == '\n') ==> SanitizeText(s) == SanitizeText([s[0]]) + SanitizeText(s[1..])
  {
    if |s| >= 2 && s[0] == '\r' && s[1] == '\n' {
      assert s == "\r\n" + s[2..];
      SanitizeAppend("\r\n", s[2..]);
      SanitizePieces(s[0]);
    } else {
      assert s == [s[0]] + s[1..];
      SanitizeAppend([s[0]], s[1..]);
    }
  }

  /** A "\r\n" between two kept characters becomes one "\n" and both characters stay. */
  lemma SanitizeCrLfBetween(c: char, d: char)
    requires c != '\r' && !IsDroppedControl(c) && d != '\r' && !IsDroppedControl(d)
    ensures SanitizeText([c, '\r', '\n', d]) == [c, '\n', d]
  {
    var pair, tail := "\r\n", "\r\n" + [d];
    assert [c, '\r', '\n', d] == [c] + tail;
    SanitizeAppend([c], tail);
    SanitizeAppend(pair, [d]);
    SanitizePieces(c);
    SanitizePieces(d);
    ThreeJoin(SanitizeText([c] + tail), SanitizeText(tail), c, d);
  }

  /** The sequence step behind SanitizeCrLfBetween, on plain strings. */
  lemma ThreeJoin(w: string, u: string, c: char, d: char)
    requires w == [c] + u && u == "\n" + [d]
    ensures w == [c, '\n', d]
  {
  }

  lemma {:induction false} CountAppend(a: string, b: string, c: char)
    ensures Count(a + b, c) == Count(a, c) + Count(b, c)
  {
    if a == [] {
      assert a + b == b;
    } else {
      assert (a + b)[1..] == a[1..] + b;
      CountAppend(a[1..], b, c);
    }
  }

  lemma CountCons(x: char, s: string, c: char)
    ensures Count([x] + s, c) == (if x == c then 1 else 0) + Count(s, c)
  {
    assert ([x] + s)[1..] == s;
  }

  /** Replacing "\r\n" keeps every "\n" and removes one "\r" per pair. */
  lemma {:induction false} CrLfToLfCounts(s: string)
    ensures Count(CrLfToLf(s), '\n') == Count(s, '\n')
    ensures Count(CrLfToLf(s), '\r') + CrLfPairs(s) == Count(s, '\r')
    ensures Count(CrLfToLf(s), '\t') == Count(s, '\t')
  {
    if |s| >= 2 && s[0] == '\r' && s[1] == '\n' {
      CrLfToLfCounts(s[2..]);
      CountCons('\n', CrLfToLf(s[2..]), '\n');
      CountCons('\n', CrLfToLf(s[2..]), '\r');
      CountCons('\n', CrLfToLf(s[2..]), '\t');
      assert s == [s[0]] + ([s[1]] + s[2..]);
      CountCons(s[1], s[2..], '\n');
      CountCons(s[1], s[2..], '\r');
      CountCons(s[1], s[2..], '\t');
    } else if s != [] {
      CrLfToLfCounts(s[1..]);
      CountCons(s[0], CrLfToLf(s[1..]), '\n');
      CountCons(s[0], CrLfToLf(s[1..]), '\r');
      CountCons(s[0], CrLfToLf(s[1..]), '\t');
    }
  }

  lemma {:induction false} CrToLfCounts(s: string)
    ensures Count(CrToLf(s), '\n') == Count(s, '\n') + Count(s, '\r')
    ensures Count(CrToLf(s), '\t') == Count(s, '\t')
  {
    if s != [] {
      CrToLfCounts(s[1..]);
      var x := if s[0] == '\r' then '\n' else s[0];
      CountCons(x, CrToLf(s[1..]), '\n');
      CountCons(x, CrToLf(s[1..]), '\t');
    }
  }

  lemma {:induction false} DropControlsCounts(s: string)
    ensures Count(DropControls(s), '\n') == Count(s, '\n')
    ensures Count(DropControls(s), '\t') == Count(s, '\t')
  {
    if s != [] {
      DropControlsCounts(s[1..]);
      if !IsDroppedControl(s[0]) {
        CountCons(s[0], DropControls(s[1..]), '\n');
        CountCons(s[0], DropControls(s[1..]), '\t');
      }
    }
  }

  /** Every tab survives, and every line ending becomes exactly one "\n":
      a "\r\n" pair and a lone "\r" each count once. */
  lemma SanitizeKeepsTabsAndLines(s: string)
    ensures Count(SanitizeText(s), '\t') == Count(s, '\t')
    ensures Count(SanitizeText(s), '\n') == Count(s, '\n') + Count(s, '\r') - CrLfPairs(s)
  {
    if s != [] {
      CrLfToLfCounts(s);
      CrToLfCounts(CrLfToLf(s));
      DropControlsCounts(CrToLf(CrLfToLf(s)));
    }
  }

  lemma {:induction false} CrLfToLfOfClean(s: string)
    requires forall i :: 0 <= i < |s| ==> s[i] != '\r'
    ensures CrLfToLf(s) == s
  {
    if s != [] {
      CrLfToLfOfClean(s[1..]);
    }
  }

  lemma {:induction false} CrToLfOfClean(s: string)
    requires forall i :: 0 <= i < |s| ==> s[i] != '\r'
    ensures CrToLf(s) == s
  {
    if s != [] {
      CrToLfOfClean(s[1..]);
    }
  }

  lemma {:induction false} DropControlsOfClean(s: string)
    requires forall i :: 0 <= i < |s| ==> !IsDroppedControl(s[i])
    ensures DropControls(s) == s
  {
    if s != [] {
      DropControlsOfClean(s[1..]);
    }
  }

  /** Text that is already clean passes through unchanged. */
  lemma SanitizeOfClean(s: string)
    requires Clean(s)
    ensures SanitizeText(s) == s
  {
    if s != [] {
      CrLfToLfOfClean(s);
      CrToLfOfClean(s);
      DropControlsOfClean(s);
    }
  }

  /** sanitize_text is idempotent. */
  lemma SanitizeIdempotent(s: string)
    ensures SanitizeText(SanitizeText(s)) == SanitizeText(s)
  {
    SanitizeOfClean(SanitizeText(s));
  }
}
