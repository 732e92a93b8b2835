/** The SQL literal helpers: sql_escape (both scripts, identical), the image script's
    sql_literal with a counter-chosen dollar-quote tag, and the PDF script's sql_literal
    with three fixed tags. */
module SqlQuote {
  import opened Text
  import opened Sanitize

  // ---------------------------------------------------------------- sql_escape

  /** value.replace("'", "''") */
  function Escape(s: string): (r: string)
    ensures |r| == |s| + Count(s, '\'')
  {
    if s == [] then [] else (if s[0] == '\'' then "''" else [s[0]]) + Escape(s[1..])
  }

  /** Reading an escaped string left to right, "''" stands for one quote. */
  function Unescape(t: string): string {
    if |t| >= 2 && t[0] == '\'' && t[1] == '\'' then "'" + Unescape(t[2..])
    else if t == [] then []
    else [t[0]] + Unescape(t[1..])
  }

  /** Every quote of `t` belongs to a "''" pair, read left to right. */
  predicate QuotesPaired(t: string) {
    if t == [] then true
    else if t[0] != '\'' then QuotesPaired(t[1..])
    else |t| >= 2 && t[1] == '\'' && QuotesPaired(t[2..])
  }

  /** Un-doubling the quotes of sql_escape's output gives back its input. */
  lemma {:induction false} UnescapeEscape(s: string)
    ensures Unescape(Escape(s)) == s
  {
    if s != [] {
      UnescapeEscape(s[1..]);
      var e := Escape(s);
      if s[0] == '\'' {
        assert e == "''" + Escape(s[1..]);
        assert e[2..] == Escape(s[1..]);
      } else {
        assert e == [s[0]] + Escape(s[1..]);
        assert e[1..] == Escape(s[1..]);
      }
    }
  }

  /** sql_escape's output has no unpaired quote. */
  lemma {:induction false} EscapeIsPaired(s: string)
    ensures QuotesPaired(Escape(s))
  {
    if s != [] {
      EscapeIsPaired(s[1..]);
      var e := Escape(s);
      if s[0] == '\'' {
        assert e == "''" + Escape(s[1..]);
        assert e[2..] == Escape(s[1..]);
      } else {
        assert e == [s[0]] + Escape(s[1..]);
        assert e[1..] == Escape(s[1..]);
      }
    }
  }

  /** Conversely every string without an unpaired quote is the escape of exactly one string. */
  lemma {:induction false} EscapeUnescape(t: string)
    requires QuotesPaired(t)
    ensures Escape(Unescape(t)) == t
  {
    if t != [] {
      if t[0] == '\'' {
        EscapeUnescape(t[2..]);
        var u := Unescape(t);
        assert u == "'" + Unescape(t[2..]);
        assert u[1..] == Unescape(t[2..]);
        assert t == "''" + t[2..];
      } else {
        EscapeUnescape(t[1..]);
        var u := Unescape(t);
        assert u == [t[0]] + Unescape(t[1..]);
        assert u[1..] == Unescape(t[1..]);
        assert t == [t[0]] + t[1..];
      }
    }
  }

  // ------------------------------------------- sql_literal of the image script

  /** The tag tried at counter k: "$adamus$" first, then "$adamus_<k>$". */
  function Tag(k: nat): (t: string)
    ensures |t| >= 8 && t[..7] == "$adamus" && t[|t| - 1] == '$'
  {
    if k == 0 then "$adamus$" else "$adamus_" + Digits(k) + "$"
  }

  /** Two tags never differ only by one being a prefix of the other. */
  lemma TagPrefixFree(j: nat, k: nat)
    requires IsPrefix(Tag(j), Tag(k))
    ensures j == k
  {
    var tj, tk := Tag(j), Tag(k);
    assert tk[..|tj|] == tj;
    if j == 0 || k == 0 {
      assert j == 0 && k == 0;
    } else {
      var dj, dk := Digits(j), Digits(k);
      assert tj[8 + |dj|] == '$';
      assert |dj| == |dk|;
      assert dj == tj[8..8 + |dj|] == tk[8..8 + |dk|] == dk;
      DigitsInjective(j, k);
    }
  }

  /** At most one tag starts at any one position of the content. */
  lemma TagsAtSamePosition(s: string, j: nat, k: nat)
    requires IsPrefix(Tag(j), s) && IsPrefix(Tag(k), s)
    ensures j == k
  {
    if |Tag(j)| <= |Tag(k)| {
      assert Tag(k)[..|Tag(j)|] == s[..|Tag(j)|];
      TagPrefixFree(j, k);
    } else {
      assert Tag(j)[..|Tag(k)|] == s[..|Tag(k)|];
      TagPrefixFree(k, j);
    }
  }

  /** The tag of counter j occurs in s. */
  predicate TagOccurs(s: string, j: nat) {
    Contains(s, Tag(j))
  }

  /** The counters below n whose tag occurs in s. */
  ghost function TagsIn(s: string, n: nat): set<nat> {
    set j | j in Below(n) && TagOccurs(s, j)
  }

  /** The counters 0 .. n-1. */
  ghost function Below(n: nat): set<nat> {
    if n == 0 then {} else Below(n - 1) + {n - 1}
  }

  lemma {:induction false} BelowHas(n: nat)
    ensures forall j :: j in Below(n) <==> 0 <= j < n
  {
    if n > 0 {
      BelowHas(n - 1);
    }
  }

  lemma {:induction false} TagsInBound(s: string, n: nat)
    ensures |TagsIn(s, n)| <= |s|
  {
    if s == [] {
      assert TagsIn(s, n) == {} by {
        forall j | j in TagsIn(s, n) ensures false { ContainsSplit(s, Tag(j)); }
      }
    } else {
      var here := set j | j in Below(n) && IsPrefix(Tag(j), s);
      assert |here| <= 1 by {
        if here != {} {
          var j0 :| j0 in here;
          forall j | j in here ensures j == j0 { TagsAtSamePosition(s, j, j0); }
          assert here <= {j0};
          assert here == {j0};
        }
      }
      forall j | j in TagsIn(s, n) ensures j in here + TagsIn(s[1..], n) {
        ContainsSplit(s, Tag(j));
      }
      assert TagsIn(s, n) <= here + TagsIn(s[1..], n);
      SubsetCard(TagsIn(s, n), here + TagsIn(s[1..], n));
      TagsInBound(s[1..], n);
    }
  }

  lemma SubsetCard(a: set<nat>, b: set<nat>)
    requires a <= b
    ensures |a| <= |b|
  {
    assert b == a + (b - a);
  }

  lemma {:induction false} BelowCard(n: nat)
    ensures |Below(n)| == n
  {
    if n > 0 {
      BelowCard(n - 1);
      BelowHas(n - 1);
    }
  }

  /** If the tags of all counters below n occur in s, then n <= |s|:
      the search for a free tag ends after at most |s| steps. */
  lemma OccurringTagsBound(s: string, n: nat)
    requires forall j: nat :: j < n ==> TagOccurs(s, j)
    ensures n <= |s|
  {
    BelowHas(n);
    assert TagsIn(s, n) == Below(n);
    BelowCard(n);
    TagsInBound(s, n);
  }

  /** The tag search of sql_literal: the first counter whose tag does not occur in safe. */
  method FreeTag(safe: string) returns (tag: string, counter: nat)
    ensures tag == Tag(counter) && counter <= |safe| && !Contains(safe, tag)
    ensures forall j: nat :: j < counter ==> TagOccurs(safe, j)
  {
    tag := "$adamus$";
    counter := 0;
    while Contains(safe, tag)
      invariant tag == Tag(counter)
      invariant forall j: nat :: j < counter ==> TagOccurs(safe, j)
      decreases |safe| - counter
    {
      assert TagOccurs(safe, counter);
      OccurringTagsBound(safe, counter + 1);
      counter := counter + 1;
      tag := "$adamus_" + Digits(counter) + "$";
    }
    OccurringTagsBound(safe, counter);
  }

  /** sql_literal(value) of the image script. The tag is the first of
      $adamus$, $adamus_1$, $adamus_2$, ... that does not occur in the sanitized
      content, and the counter never exceeds the content's length. */
  method SqlLiteral(value: string) returns (lit: string)
    ensures var safe := SanitizeText(value);
      exists k: nat :: k <= |safe| && lit == Tag(k) + safe + Tag(k)
        && !Contains(safe, Tag(k))
        && forall j: nat :: j < k ==> TagOccurs(safe, j)
  {
    var safe := SanitizeText(value);
    var tag, counter := FreeTag(safe);
    lit := tag + safe + tag;
    assert lit == Tag(counter) + safe + Tag(counter);
  }

  // --------------------------------------------- sql_literal of the PDF script

  /** value.replace("\u0000", "") */
  function RemoveNul(s: string): (r: string)
    ensures forall i :: 0 <= i < |r| ==> r[i] != '\0'
  {
    if s == [] then []
    else if s[0] == '\0' then RemoveNul(s[1..]) else [s[0]] + RemoveNul(s[1..])
  }

  /** replace drops every NUL and keeps every other character, as often as it occurs. */
  lemma {:induction false} RemoveNulCounts(s: string)
    ensures multiset(RemoveNul(s)) == multiset(s)['\0' := 0]
  {
    if s != [] {
      assert s == [s[0]] + s[1..];
      RemoveNulCounts(s[1..]);
    }
  }

  /** Content without NUL characters is stored as it is. */
  lemma {:induction false} RemoveNulOfClean(s: string)
    requires forall i :: 0 <= i < |s| ==> s[i] != '\0'
    ensures RemoveNul(s) == s
  {
    if s != [] {
      RemoveNulOfClean(s[1..]);
    }
  }

  const PdfTags: seq<string> := ["$adamus$", "$adamus_text$", "$adamus_chunk$"]

  /** The first of the three tags absent from the content, or the last one when all occur. */
  function PdfTag(safe: string): string {
    if !Contains(safe, PdfTags[0]) then PdfTags[0]
    else if !Contains(safe, PdfTags[1]) then PdfTags[1]
    else PdfTags[2]
  }

  /** sql_literal(value) of the PDF script. */
  function PdfSqlLiteral(value: string): (lit: string)
    ensures var safe := RemoveNul(value);
      exists i :: 0 <= i < |PdfTags| && lit == PdfTags[i] + safe + PdfTags[i]
        && (forall j :: 0 <= j < i ==> Contains(safe, PdfTags[j]))
        && (i < |PdfTags| - 1 ==> !Contains(safe, PdfTags[i]))
  {
    var safe := RemoveNul(value);
    var tag := PdfTag(safe);
    tag + safe + tag
  }

  /** The PDF tag is absent from the content unless all three tags occur in it. */
  lemma PdfTagAbsent(value: string)
    requires var safe := RemoveNul(value); exists j :: 0 <= j < |PdfTags| && !Contains(safe, PdfTags[j])
    ensures var safe := RemoveNul(value); !Contains(safe, PdfTag(safe))
  {
  }
}
