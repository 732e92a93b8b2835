/** String helpers shared by both ingestion scripts: Python's whitespace test and
    str.strip, substring search, splitting on a separator, and decimal numerals. */
module Text {

  datatype Option<T> = None | Some(value: T)

  /** Python's str.isspace for a single character. */
  predicate IsSpace(c: char) {
    || ('\t' <= c <= '\r')
    || ('\U{1C}' <= c <= ' ')
    || c == '\U{85}' || c == '\U{A0}' || c == '\U{1680}'
    || ('\U{2000}' <= c <= '\U{200A}')
    || c == '\U{2028}' || c == '\U{2029}' || c == '\U{202F}' || c == '\U{205F}' || c == '\U{3000}'
  }

  predicate IsDigit(c: char) {
    '0' <= c <= '9'
  }

  /** A string with no whitespace at either end (the shape str.strip produces). */
  predicate Stripped(s: string) {
    s == [] || (!IsSpace(s[0]) && !IsSpace(s[|s| - 1]))
  }

  /** Every character of `part` occurs in `whole`. */
  ghost predicate CharsFrom(part: string, whole: string) {
    forall i :: 0 <= i < |part| ==> part[i] in whole
  }

  function TrimEnd(s: string): (r: string)
    ensures |r| <= |s| && r == s[..|r|]
    ensures r == [] || !IsSpace(r[|r| - 1])
    ensures forall i :: |r| <= i < |s| ==> IsSpace(s[i])
  {
    if s != [] && IsSpace(s[|s| - 1]) then TrimEnd(s[..|s| - 1]) else s
  }

  /** Python's str.strip(): drops leading and trailing whitespace. */
  function Strip(s: string): (r: string)
    ensures Stripped(r) && |r| <= |s|
  {
    if s != [] && IsSpace(s[0]) then Strip(s[1..])
    else if s != [] && IsSpace(s[|s| - 1]) then Strip(s[..|s| - 1])
    else s
  }

  /** strip keeps only characters of its argument. */
  lemma {:induction false} StripChars(s: string)
    ensures CharsFrom(Strip(s), s)
  {
    if s != [] && IsSpace(s[0]) {
      StripChars(s[1..]);
      assert CharsFrom(s[1..], s);
    } else if s != [] && IsSpace(s[|s| - 1]) {
      StripChars(s[..|s| - 1]);
      assert CharsFrom(s[..|s| - 1], s);
    }
  }

  /** strip gives "" exactly for strings made only of whitespace. */
  lemma {:induction false} StripEmpty(s: string)
    ensures Strip(s) == [] <==> forall i :: 0 <= i < |s| ==> IsSpace(s[i])
  {
    if s != [] && IsSpace(s[0]) {
      StripEmpty(s[1..]);
      assert forall i :: 1 <= i < |s| ==> s[1..][i - 1] == s[i];
    } else if s != [] && IsSpace(s[|s| - 1]) {
      StripEmpty(s[..|s| - 1]);
      assert !IsSpace(s[0]) && Strip(s) == Strip(s[..|s| - 1]);
      assert s[..|s| - 1][0] == s[0];
    }
  }

  /** Only whitespace lies outside s[i..j]. */
  predicate SpaceOutside(s: string, i: nat, j: nat)
    requires i <= j <= |s|
  {
    (forall k :: 0 <= k < i ==> IsSpace(s[k])) && (forall k :: j <= k < |s| ==> IsSpace(s[k]))
  }

  /** strip removes whitespace at the two ends and nothing else: the result is a
      slice s[i..j] with only whitespace outside it. */
  lemma {:induction false} StripSlice(s: string) returns (i: nat, j: nat)
    ensures i <= j <= |s| && Strip(s) == s[i..j] && SpaceOutside(s, i, j)
  {
    if s != [] && IsSpace(s[0]) {
      var i', j' := StripSlice(s[1..]);
      SpaceOutsideCons(s, i', j');
      i, j := i' + 1, j' + 1;
    } else if s != [] && IsSpace(s[|s| - 1]) {
      i, j := StripSlice(s[..|s| - 1]);
      SpaceOutsideSnoc(s, i, j);
    } else {
      i, j := 0, |s|;
    }
  }

  lemma SpaceOutsideCons(s: string, i: nat, j: nat)
    requires s != [] && IsSpace(s[0]) && i <= j <= |s| - 1 && SpaceOutside(s[1..], i, j)
    ensures s[1..][i..j] == s[i + 1..j + 1] && SpaceOutside(s, i + 1, j + 1)
  {
    assert forall k :: 1 <= k < |s| ==> s[k] == s[1..][k - 1];
  }

  lemma SpaceOutsideSnoc(s: string, i: nat, j: nat)
    requires s != [] && IsSpace(s[|s| - 1]) && i <= j <= |s| - 1 && SpaceOutside(s[..|s| - 1], i, j)
    ensures s[..|s| - 1][i..j] == s[i..j] && SpaceOutside(s, i, j)
  {
    assert forall k :: 0 <= k < |s| - 1 ==> s[k] == s[..|s| - 1][k];
  }

  /** Every character is whitespace. */
  predicate AllSpace(s: string) {
    forall k :: 0 <= k < |s| ==> IsSpace(s[k])
  }

  /** s is its stripped core with whitespace on either side. */
  lemma StripParts(s: string) returns (x: string, m: string, y: string)
    ensures s == x + m + y && AllSpace(x) && AllSpace(y) && m == Strip(s)
  {
    var i, j := StripSlice(s);
    x, m, y := s[..i], s[i..j], s[j..];
    assert s == x + m + y;
  }

  /** Whitespace around a stripped core is exactly what strip removes. */
  lemma StripUnique(x: string, m: string, y: string)
    requires AllSpace(x) && AllSpace(y) && Stripped(m)
    ensures Strip(x + m + y) == m
  {
    var s := x + m + y;
    if m == [] {
      assert s == x + y;
      assert forall k :: 0 <= k < |s| ==> IsSpace(s[k]) by {
        forall k | 0 <= k < |s| ensures IsSpace(s[k]) {
          if k < |x| { assert s[k] == x[k]; } else { assert s[k] == y[k - |x|]; }
        }
      }
      StripEmpty(s);
    } else {
      var i, j := StripSlice(s);
      CoreBounds(x, m, y, i, j);
      assert s[|x|..|x| + |m|] == m;
    }
  }

  /** A stripped slice with only whitespace outside it is the non-empty core m between
      the whitespace runs x and y. */
  lemma CoreBounds(x: string, m: string, y: string, i: nat, j: nat)
    requires AllSpace(x) && AllSpace(y) && Stripped(m) && m != []
    requires i <= j <= |x + m + y| && SpaceOutside(x + m + y, i, j) && Stripped((x + m + y)[i..j])
    ensures i == |x| && j == |x| + |m|
  {
    var s := x + m + y;
    assert s[|x|] == m[0] && s[|x| + |m| - 1] == m[|m| - 1];
    assert i <= |x| && |x| + |m| <= j;
    assert s[i..j][0] == s[i] && s[i..j][j - i - 1] == s[j - 1];
    assert !IsSpace(s[i]) && !IsSpace(s[j - 1]);
    assert forall k :: 0 <= k < |x| ==> IsSpace(s[k]) by {
      forall k | 0 <= k < |x| ensures IsSpace(s[k]) { assert s[k] == x[k]; }
    }
    assert forall k :: |x| + |m| <= k < |s| ==> IsSpace(s[k]) by {
      forall k | |x| + |m| <= k < |s| ensures IsSpace(s[k]) { assert s[k] == y[k - |x| - |m|]; }
    }
  }

  /** Stripping a string that is already stripped changes nothing. */
  lemma StripOfStripped(s: string)
    requires Stripped(s)
    ensures Strip(s) == s
  {
  }

  /** `t` occurs at the front of `s`. */
  predicate IsPrefix(t: string, s: string) {
    |t| <= |s| && s[..|t|] == t
  }

  /** `t` occurs somewhere in `s` (Python's `t in s`). */
  predicate Contains(s: string, t: string) {
    exists i :: 0 <= i <= |s| && IsPrefix(t, s[i..])
  }

  /** An occurrence of a non-empty `t` is either at the front of `s` or inside `s[1..]`. */
  lemma ContainsSplit(s: string, t: string)
    requires t != [] && Contains(s, t)
    ensures s != []
    ensures IsPrefix(t, s) || Contains(s[1..], t)
  {
    var i :| 0 <= i <= |s| && IsPrefix(t, s[i..]);
    if i > 0 {
      assert s[1..][i - 1..] == s[i..];
    }
  }

  /** Index of the first `c` in `s`, or |s| when there is none. */
  function IndexOf(s: string, c: char): (i: nat)
    ensures i <= |s|
    ensures i < |s| ==> s[i] == c
    ensures forall j :: 0 <= j < i ==> s[j] != c
  {
    if s == [] then 0 else if s[0] == c then 0 else 1 + IndexOf(s[1..], c)
  }

  /** Python's s.split(c) for a one-character separator. */
  function SplitOn(s: string, c: char): (parts: seq<string>)
    ensures |parts| >= 1
    ensures forall k :: 0 <= k < |parts| ==> c !in parts[k]
    decreases |s|
  {
    var i := IndexOf(s, c);
    if i == |s| then [s] else [s[..i]] + SplitOn(s[i + 1..], c)
  }

  /** Python's sep.join(parts). */
  function JoinWith(parts: seq<string>, sep: string): string {
    if parts == [] then []
    else if |parts| == 1 then parts[0]
    else parts[0] + sep + JoinWith(parts[1..], sep)
  }

  /** Joining one more part at the end adds the separator and the part. */
  lemma {:induction false} JoinWithSnoc(parts: seq<string>, last: string, sep: string)
    requires parts != []
    ensures JoinWith(parts + [last], sep) == JoinWith(parts, sep) + sep + last
  {
    if |parts| == 1 {
      assert parts + [last] == [parts[0], last];
      assert [parts[0], last][1..] == [last];
    } else {
      assert (parts + [last])[1..] == parts[1..] + [last];
      JoinWithSnoc(parts[1..], last, sep);
    }
  }

  /** Splitting a join on a separator that none of the parts contains gives the parts back. */
  lemma {:induction false} SplitJoin(parts: seq<string>, c: char)
    requires parts != []
    requires forall k :: 0 <= k < |parts| ==> c !in parts[k]
    ensures SplitOn(JoinWith(parts, [c]), c) == parts
  {
    var s := JoinWith(parts, [c]);
    if |parts| == 1 {
      assert IndexOf(s, c) == |s|;
    } else {
      var rest := JoinWith(parts[1..], [c]);
      assert s == parts[0] + [c] + rest;
      assert s[|parts[0]|] == c;
      assert IndexOf(s, c) == |parts[0]| by {
        assert forall j :: 0 <= j < |parts[0]| ==> s[j] == parts[0][j];
      }
      assert s[..|parts[0]|] == parts[0];
      assert s[|parts[0]| + 1..] == rest;
      SplitJoin(parts[1..], c);
    }
  }

  /** The decimal numeral of n, as Python's str(n) writes it. */
  function Digits(n: nat): (d: string)
    ensures |d| >= 1
    ensures forall i :: 0 <= i < |d| ==> IsDigit(d[i])
  {
    if n < 10 then [('0' as int + n) as char]
    else Digits(n / 10) + [('0' as int + n % 10) as char]
  }

  predicate IsDecimal(s: string) {
    s != [] && forall i :: 0 <= i < |s| ==> IsDigit(s[i])
  }

  /** Python's int(s) for a string of ASCII digits. */
  function DecimalValue(s: string): nat
    requires forall i :: 0 <= i < |s| ==> IsDigit(s[i])
  {
    if s == [] then 0
    else
      assert IsDigit(s[|s| - 1]);
      DecimalValue(s[..|s| - 1]) * 10 + (s[|s| - 1] as int - '0' as int)
  }

  /** int(str(n)) == n. */
  lemma {:induction false} DecimalValueOfDigits(n: nat)
    ensures DecimalValue(Digits(n)) == n
  {
    if n >= 10 {
      var d := Digits(n);
      assert d[..|d| - 1] == Digits(n / 10);
      DecimalValueOfDigits(n / 10);
    }
  }

  /** str is injective on naturals. */
  lemma DigitsInjective(m: nat, n: nat)
    requires Digits(m) == Digits(n)
    ensures m == n
  {
    DecimalValueOfDigits(m);
    DecimalValueOfDigits(n);
  }
}
