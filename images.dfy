/** select_images of the image script, over the names of the files in the folder in
    the order the directory listing gives them. */
module ImageSelection {
  import opened Text

  // ------------------------------------------------------------ file names

  /** Index of the last '.', or -1 (str.rfind). */
  function LastDot(s: string): (i: int)
    ensures -1 <= i < |s|
    ensures i >= 0 ==> s[i] == '.'
    ensures forall j :: i < j < |s| ==> s[j] != '.'
  {
    if s == [] then -1
    else if s[|s| - 1] == '.' then |s| - 1
    else LastDot(s[..|s| - 1])
  }

  /** The dot that pathlib counts as starting the suffix: not the first character
      and not the last. */
  predicate HasSuffix(name: string) {
    0 < LastDot(name) < |name| - 1
  }

  /** PurePath.suffix */
  function Suffix(name: string): (r: string)
    ensures r == [] || r[0] == '.'
    ensures forall j :: 0 < j < |r| ==> r[j] != '.'
  {
    if HasSuffix(name) then name[LastDot(name)..] else []
  }

  /** PurePath.stem: the name without its suffix. */
  function Stem(name: string): (r: string)
    ensures r + Suffix(name) == name
  {
    if HasSuffix(name) then name[..LastDot(name)] else name
  }

  function LowerChar(c: char): char {
    if 'A' <= c <= 'Z' then (c as int + 32) as char else c
  }

  /** str.lower() on ASCII letters. */
  function Lower(s: string): (r: string)
    ensures |r| == |s|
    ensures forall i :: 0 <= i < |s| ==> r[i] == LowerChar(s[i])
  {
    if s == [] then [] else [LowerChar(s[0])] + Lower(s[1..])
  }

  /** p.suffix.lower() in {".jpg", ".jpeg", ".png"} */
  predicate IsImage(name: string) {
    Lower(Suffix(name)) in {".jpg", ".jpeg", ".png"}
  }

  /** The file names of the listing that are images, in listing order. */
  function ImageFiles(names: seq<string>): (files: seq<string>)
    ensures forall i :: 0 <= i < |files| ==> IsImage(files[i]) && files[i] in names
    ensures forall i :: 0 <= i < |names| && IsImage(names[i]) ==> names[i] in files
  {
    if names == [] then []
    else (if IsImage(names[0]) then [names[0]] else []) + ImageFiles(names[1..])
  }

  /** Where the `$` of a pattern without MULTILINE can match: just before a final
      "\n" if there is one, else at the end. (It also matches at the very end of a
      text ending in "\n", but nothing ending in "1" can end there.) */
  function DollarPos(s: string): (n: nat)
    ensures n <= |s|
  {
    if s != [] && s[|s| - 1] == '\n' then |s| - 1 else |s|
  }

  /** A whitespace character and a "1" end just before position n. */
  predicate MarkBefore(s: string, n: nat)
    requires n <= |s|
  {
    n >= 2 && s[n - 1] == '1' && IsSpace(s[n - 2])
  }

  /** re.sub(r"\s+1$", "", stem): a "1" after a run of whitespace, at the end or just
      before a final "\n", goes, and the whole run with it. */
  function BaseStem(stem: string): (r: string)
    ensures |r| <= |stem|
    ensures MarkBefore(stem, DollarPos(stem)) <==> r != stem
    ensures r != stem ==>
      var n := DollarPos(stem);
      var m := |r| - (|stem| - n);
      && 0 <= m && m + 2 <= n
      && r == stem[..m] + stem[n..]
      && (forall i :: m <= i < n - 1 ==> IsSpace(stem[i]))
      && (m == 0 || !IsSpace(stem[m - 1]))
  {
    var n := DollarPos(stem);
    if MarkBefore(stem, n) then
      var t := TrimEnd(stem[..n - 1]);
      assert |t| < n - 1;
      assert t == stem[..|t|];
      t + stem[n..]
    else stem
  }

  /** A final "\n" does not hide the mark: "IMG_5 1\n" loses its " 1". */
  lemma BaseStemBeforeNewline()
    ensures BaseStem("IMG_5 1\n") == "IMG_5\n"
  {
    var s := "IMG_5 1\n";
    assert DollarPos(s) == 7 && MarkBefore(s, 7);
    assert s[..6] == "IMG_5 ";
    assert TrimEnd("IMG_5 ") == TrimEnd("IMG_5") == "IMG_5";
  }

  /** The key two variants of the same scan share. */
  function Key(name: string): string {
    BaseStem(Stem(name)) + Lower(Suffix(name))
  }

  /** `" 1" in f.stem` */
  predicate Marked(name: string) {
    Contains(Stem(name), " 1")
  }

  // ------------------------------------------------------- de-duplication

  /** A listed image with the facts select_images looks at: its key, whether its stem
      has " 1", and its sort key. */
  datatype Image = Image(name: string, key: string, marked: bool, sort: SortKey)

  function Entry(name: string): (e: Image)
    ensures e.name == name
  {
    Image(name, Key(name), Marked(name), SortKeyOf(name))
  }

  function Entries(files: seq<string>): (es: seq<Image>)
    ensures |es| == |files|
    ensures forall i :: 0 <= i < |files| ==> es[i].name == files[i]
  {
    seq(|files|, i requires 0 <= i < |files| => Entry(files[i]))
  }

  /** The entry at position i describes the i-th file. */
  lemma EntryAt(files: seq<string>, i: nat)
    requires i < |files|
    ensures Entries(files)[i] == Entry(files[i])
  {
  }

  /** The dictionary `chosen` with its keys in insertion order. */
  datatype Choice = Choice(byKey: map<string, Image>, order: seq<string>)

  /** One iteration of the loop over the files. */
  function Step(c: Choice, f: Image): Choice {
    var k := f.key;
    if k !in c.byKey then Choice(c.byKey[k := f], c.order + [k])
    else if f.marked && !c.byKey[k].marked then c
    else if !f.marked && c.byKey[k].marked then Choice(c.byKey[k := f], c.order)
    else c
  }

  /** The state after the loop has seen the files. */
  function ChooseAll(files: seq<Image>): Choice {
    if files == [] then Choice(map[], [])
    else Step(ChooseAll(files[..|files| - 1]), files[|files| - 1])
  }

  /** The dictionary and its key order agree, keys are not repeated, and every file
      is stored under its own key. */
  ghost predicate ValidChoice(c: Choice) {
    && (forall k :: k in c.byKey <==> k in c.order)
    && (forall i, j :: 0 <= i < j < |c.order| ==> c.order[i] != c.order[j])
    && (forall k :: k in c.byKey ==> c.byKey[k].key == k)
  }

  /** list(chosen.values()) */
  function Values(c: Choice): (vs: seq<Image>)
    requires ValidChoice(c)
    ensures |vs| == |c.order|
    ensures forall i :: 0 <= i < |vs| ==> vs[i] == c.byKey[c.order[i]]
  {
    seq(|c.order|, i requires 0 <= i < |c.order| => c.byKey[c.order[i]])
  }

  lemma {:induction false} ChooseAllValid(files: seq<Image>)
    ensures ValidChoice(ChooseAll(files))
    ensures forall k :: k in ChooseAll(files).byKey ==> ChooseAll(files).byKey[k] in files
  {
    if files != [] {
      var init, f := files[..|files| - 1], files[|files| - 1];
      ChooseAllValid(init);
      var c := ChooseAll(init);
      if f.key !in c.byKey {
        assert f.key !in c.order;
      }
    }
  }

  /** The file f can be the one kept for key k (with unmarkedOnly: without " 1"). */
  predicate Fits(f: Image, k: string, unmarkedOnly: bool) {
    f.key == k && (!unmarkedOnly || !f.marked)
  }

  /** Index of the first file that fits, or |files|. */
  function FirstFit(files: seq<Image>, k: string, unmarkedOnly: bool): (i: nat)
    ensures i <= |files|
    ensures i < |files| ==> Fits(files[i], k, unmarkedOnly)
    ensures forall j :: 0 <= j < i ==> !Fits(files[j], k, unmarkedOnly)
  {
    if files == [] then 0
    else if Fits(files[0], k, unmarkedOnly) then 0
    else 1 + FirstFit(files[1..], k, unmarkedOnly)
  }

  /** Which file the rule prefers for key k: the first one without " 1" in its stem,
      and the first one of all when every one has it. */
  function Preferred(files: seq<Image>, k: string): nat {
    if FirstFit(files, k, true) < |files| then FirstFit(files, k, true) else FirstFit(files, k, false)
  }

  lemma {:induction false} FirstFitSnoc(files: seq<Image>, f: Image, k: string, u: bool)
    ensures FirstFit(files + [f], k, u)
      == if FirstFit(files, k, u) < |files| then FirstFit(files, k, u)
         else if Fits(f, k, u) then |files| else |files| + 1
  {
    if files == [] {
      assert [] + [f] == [f];
      assert [f][1..] == [];
    } else {
      assert (files + [f])[0] == files[0];
      assert (files + [f])[1..] == files[1..] + [f];
      FirstFitSnoc(files[1..], f, k, u);
    }
  }

  /** The dictionary holds a key exactly when some image has it, and then it holds the
      preferred file: a file without " 1" replaces a " 1" variant, never the reverse,
      and otherwise the first file seen stays. */
  lemma {:induction false} ChoiceIsPreferred(files: seq<Image>, k: string)
    ensures k in ChooseAll(files).byKey <==> FirstFit(files, k, false) < |files|
    ensures k in ChooseAll(files).byKey ==>
      Preferred(files, k) < |files| && ChooseAll(files).byKey[k] == files[Preferred(files, k)]
  {
    if files != [] {
      var init, f := files[..|files| - 1], files[|files| - 1];
      assert files == init + [f];
      ChoiceIsPreferred(init, k);
      FirstFitSnoc(init, f, k, true);
      FirstFitSnoc(init, f, k, false);
      var c := ChooseAll(init);
      if f.key == k && k in c.byKey {
        var p := Preferred(init, k);
        if !c.byKey[k].marked {
          assert Fits(init[p], k, true);
          assert FirstFit(init, k, true) == p;
        }
      }
    }
  }

  // ------------------------------------------------------------------ order

  /** sort_key(p): (0, n, name) for a stem that contains IMG_<digits>, else (1, name). */
  datatype SortKey = Numbered(n: nat, name: string) | Plain(name: string)

  /** "IMG_" followed by a digit starts at position i of s. */
  predicate ImgAt(s: string, i: int) {
    0 <= i && i + 5 <= |s| && s[i..i + 4] == "IMG_" && IsDigit(s[i + 4])
  }

  /** Where the leftmost match of IMG_(\d+) starts, at or after `from`; |s| when none. */
  function FirstImg(s: string, from: nat): (i: nat)
    requires from <= |s|
    ensures from <= i <= |s|
    ensures i < |s| ==> ImgAt(s, i)
    ensures forall j :: from <= j < i ==> !ImgAt(s, j)
    decreases |s| - from
  {
    if from == |s| then |s| else if ImgAt(s, from) then from else FirstImg(s, from + 1)
  }

  /** The end of the run of digits starting at i (the greedy extent of \d+). */
  function DigitRunEnd(s: string, i: nat): (j: nat)
    requires i <= |s|
    ensures i <= j <= |s|
    ensures forall k :: i <= k < j ==> IsDigit(s[k])
    ensures j == |s| || !IsDigit(s[j])
    decreases |s| - i
  {
    if i < |s| && IsDigit(s[i]) then DigitRunEnd(s, i + 1) else i
  }

  function SortKeyOf(name: string): SortKey {
    var st := Stem(name);
    var i := FirstImg(st, 0);
    if i < |st| then
      var e := DigitRunEnd(st, i + 4);
      var digits := st[i + 4..e];
      assert forall k :: 0 <= k < |digits| ==> digits[k] == st[i + 4 + k];
      Numbered(DecimalValue(digits), name)
    else Plain(name)
  }

  /** Python's string comparison a <= b (by code points). */
  predicate LexLe(a: string, b: string) {
    a == [] || (b != [] && (a[0] < b[0] || (a[0] == b[0] && LexLe(a[1..], b[1..]))))
  }

  /** Tuple comparison of two sort keys. */
  predicate KeyLe(x: SortKey, y: SortKey) {
    match (x, y)
    case (Numbered(m, a), Numbered(n, b)) => m < n || (m == n && LexLe(a, b))
    case (Numbered(_, _), Plain(_)) => true
    case (Plain(_), Numbered(_, _)) => false
    case (Plain(a), Plain(b)) => LexLe(a, b)
  }

  /** The file a sorts no later than the file b. */
  predicate Le(a: Image, b: Image) {
    KeyLe(a.sort, b.sort)
  }

  lemma {:induction false} LexLeTotal(a: string, b: string)
    ensures LexLe(a, b) || LexLe(b, a)
  {
    if a != [] && b != [] && a[0] == b[0] {
      LexLeTotal(a[1..], b[1..]);
    }
  }

  lemma {:induction false} LexLeTrans(a: string, b: string, c: string)
    requires LexLe(a, b) && LexLe(b, c)
    ensures LexLe(a, c)
  {
    if a != [] && b != [] && c != [] && a[0] == b[0] == c[0] {
      LexLeTrans(a[1..], b[1..], c[1..]);
    }
  }

  /** A common prefix does not change the string order. */
  lemma {:induction false} LexLeCommonPrefix(p: string, a: string, b: string)
    ensures LexLe(p + a, p + b) == LexLe(a, b)
  {
    if p != [] {
      assert (p + a)[0] == p[0] && (p + b)[0] == p[0];
      assert (p + a)[1..] == p[1..] + a;
      assert (p + b)[1..] == p[1..] + b;
      LexLeCommonPrefix(p[1..], a, b);
    } else {
      assert p + a == a && p + b == b;
    }
  }

  lemma LeTotal(a: Image, b: Image)
    ensures Le(a, b) || Le(b, a)
  {
    LexLeTotal(a.sort.name, b.sort.name);
  }

  lemma LeTrans(a: Image, b: Image, c: Image)
    requires Le(a, b) && Le(b, c)
    ensures Le(a, c)
  {
    var x, y, z := a.sort, b.sort, c.sort;
    if x.Numbered? && y.Numbered? && z.Numbered? && x.n == y.n == z.n {
      LexLeTrans(x.name, y.name, z.name);
    } else if x.Plain? && y.Plain? && z.Plain? {
      LexLeTrans(x.name, y.name, z.name);
    }
  }

  predicate SortedByKey(xs: seq<Image>) {
    forall i, j :: 0 <= i < j < |xs| ==> Le(xs[i], xs[j])
  }

  /** Insert x before the first element it sorts no later than. */
  function Insert(x: Image, xs: seq<Image>): (r: seq<Image>)
    ensures multiset(r) == multiset(xs) + multiset{x}
  {
    if xs == [] then [x]
    else if Le(x, xs[0]) then [x] + xs
    else
      assert xs == [xs[0]] + xs[1..];
      [xs[0]] + Insert(x, xs[1..])
  }

  /** sorted(selected, key=sort_key), stable: an insertion sort. */
  function SortImages(xs: seq<Image>): (r: seq<Image>)
    ensures multiset(r) == multiset(xs)
  {
    if xs == [] then []
    else
      assert xs == [xs[0]] + xs[1..];
      Insert(xs[0], SortImages(xs[1..]))
  }

  lemma {:induction false} InsertSorted(x: Image, xs: seq<Image>)
    requires SortedByKey(xs)
    ensures SortedByKey(Insert(x, xs))
  {
    if xs != [] {
      if Le(x, xs[0]) {
        forall j | 0 < j < |xs| ensures Le(x, xs[j]) {
          LeTrans(x, xs[0], xs[j]);
        }
      } else {
        LeTotal(x, xs[0]);
        InsertSorted(x, xs[1..]);
        var r := Insert(x, xs[1..]);
        forall j | 0 <= j < |r| ensures Le(xs[0], r[j]) {
          assert r[j] in multiset(xs[1..]) + multiset{x};
          if r[j] != x {
            assert r[j] in xs[1..];
          }
        }
      }
    }
  }

  /** The sort orders the images and keeps exactly the same files. */
  lemma {:induction false} SortImagesSorted(xs: seq<Image>)
    ensures SortedByKey(SortImages(xs))
    ensures multiset(SortImages(xs)) == multiset(xs)
  {
    if xs != [] {
      SortImagesSorted(xs[1..]);
      InsertSorted(xs[0], SortImages(xs[1..]));
    }
  }

  // ---------------------------------------------------------- select_images

  function Names(es: seq<Image>): (ns: seq<string>)
    ensures |ns| == |es|
    ensures forall i :: 0 <= i < |es| ==> ns[i] == es[i].name
  {
    seq(|es|, i requires 0 <= i < |es| => es[i].name)
  }

  /** The images kept from the listed entries, in the order they are returned. */
  function Kept(es: seq<Image>): seq<Image> {
    ChooseAllValid(es);
    SortImages(Values(ChooseAll(es)))
  }

  /** The result of select_images for a folder listing. */
  function SelectSpec(names: seq<string>): seq<string> {
    Names(Kept(Entries(ImageFiles(names))))
  }

  /** The loop of select_images that fills `chosen`. */
  method ChooseImages(files: seq<string>) returns (chosen: map<string, Image>, order: seq<string>)
    ensures Choice(chosen, order) == ChooseAll(Entries(files))
  {
    ghost var es := Entries(files);
    chosen := map[];
    order := [];
    for i := 0 to |files|
      invariant Choice(chosen, order) == ChooseAll(es[..i])
    {
      assert es[..i + 1][..i] == es[..i];
      var f := files[i];
      var key := Key(f);
      var marked := Marked(f);
      var image := Image(f, key, marked, SortKeyOf(f));
      EntryAt(files, i);
      assert es[i] == image;
      ghost var next := Step(Choice(chosen, order), image);
      assert next == ChooseAll(es[..i + 1]);
      if key !in chosen {
        chosen := chosen[key := image];
        order := order + [key];
      } else if marked && !chosen[key].marked {
      } else if !marked && chosen[key].marked {
        chosen := chosen[key := image];
      }
    }
    assert es[..|es|] == es;
  }

  /** select_images(folder), over the names the listing gives. */
  method SelectImages(names: seq<string>) returns (images: seq<string>)
    ensures images == SelectSpec(names)
  {
    var files := ImageFiles(names);
    var chosen, order := ChooseImages(files);
    ChooseAllValid(Entries(files));
    var selected := Values(Choice(chosen, order));
    images := Names(SortImages(selected));
  }

  // ------------------------------------------------------------- properties

  /** No two images share a key. */
  predicate DistinctKeys(xs: seq<Image>) {
    forall i, j :: 0 <= i < j < |xs| ==> xs[i].key != xs[j].key
  }

  /** Every image of xs is one of es. */
  predicate AllIn(xs: seq<Image>, es: seq<Image>) {
    forall t :: 0 <= t < |xs| ==> xs[t] in es
  }

  /** Each position of the sorted list holds an element of the input ... */
  lemma SortFrom(vs: seq<Image>, i: nat) returns (t: nat)
    requires i < |SortImages(vs)|
    ensures t < |vs| && vs[t] == SortImages(vs)[i]
  {
    assert SortImages(vs)[i] in multiset(vs);
    t :| 0 <= t < |vs| && vs[t] == SortImages(vs)[i];
  }

  /** ... and each element of the input has a position in the sorted list. */
  lemma SortTo(vs: seq<Image>, t: nat) returns (i: nat)
    requires t < |vs|
    ensures i < |SortImages(vs)| && SortImages(vs)[i] == vs[t]
  {
    assert vs[t] in multiset(SortImages(vs));
    i :| 0 <= i < |SortImages(vs)| && SortImages(vs)[i] == vs[t];
  }

  lemma {:induction false} InsertDistinct(x: Image, xs: seq<Image>)
    requires DistinctKeys(xs)
    requires forall i :: 0 <= i < |xs| ==> xs[i].key != x.key
    ensures DistinctKeys(Insert(x, xs))
  {
    if xs != [] && !Le(x, xs[0]) {
      InsertDistinct(x, xs[1..]);
      var r := Insert(x, xs[1..]);
      forall j | 0 <= j < |r| ensures xs[0].key != r[j].key {
        assert r[j] in multiset(xs[1..]) + multiset{x};
        if r[j] != x {
          var m :| 0 <= m < |xs[1..]| && xs[1..][m] == r[j];
          assert xs[m + 1] == r[j];
        }
      }
    }
  }

  lemma {:induction false} SortDistinct(xs: seq<Image>)
    requires DistinctKeys(xs)
    ensures DistinctKeys(SortImages(xs))
  {
    if xs != [] {
      SortDistinct(xs[1..]);
      var r := SortImages(xs[1..]);
      forall i | 0 <= i < |r| ensures r[i].key != xs[0].key {
        var m := SortFrom(xs[1..], i);
        assert xs[m + 1] == r[i];
      }
      InsertDistinct(xs[0], r);
    }
  }

  /** The chosen values are entries, no two with the same key. */
  lemma ValuesFacts(es: seq<Image>)
    ensures ValidChoice(ChooseAll(es))
    ensures AllIn(Values(ChooseAll(es)), es)
    ensures DistinctKeys(Values(ChooseAll(es)))
  {
    ChooseAllValid(es);
    var c := ChooseAll(es);
    var vs := Values(c);
    forall t | 0 <= t < |vs| ensures vs[t] in es {
      assert c.order[t] in c.byKey;
    }
    forall i, j | 0 <= i < j < |vs| ensures vs[i].key != vs[j].key {
      assert c.order[i] in c.byKey && c.order[j] in c.byKey;
    }
  }

  /** The kept images are entries, no two with the same key, in sort_key order. */
  lemma KeptFacts(es: seq<Image>)
    ensures AllIn(Kept(es), es)
    ensures DistinctKeys(Kept(es))
    ensures SortedByKey(Kept(es))
  {
    ValuesFacts(es);
    var vs := Values(ChooseAll(es));
    SortImagesSorted(vs);
    SortDistinct(vs);
    var sel := Kept(es);
    assert sel == SortImages(vs);
    forall i | 0 <= i < |sel| ensures sel[i] in es {
      var t := SortFrom(vs, i);
      assert vs[t] in es;
    }
  }

  /** Every key among the entries has a kept image. */
  lemma KeptEveryKey(es: seq<Image>, m: nat) returns (i: nat)
    requires m < |es|
    ensures i < |Kept(es)| && Kept(es)[i].key == es[m].key
  {
    ChooseAllValid(es);
    var c := ChooseAll(es);
    var k := es[m].key;
    assert Fits(es[m], k, false);
    ChoiceIsPreferred(es, k);
    var t :| 0 <= t < |c.order| && c.order[t] == k;
    i := SortTo(Values(c), t);
  }

  /** Every kept image is the preferred entry of its key. */
  lemma KeptPreferred(es: seq<Image>, i: nat)
    requires i < |Kept(es)|
    ensures var e := Kept(es)[i];
      Preferred(es, e.key) < |es| && e == es[Preferred(es, e.key)]
  {
    ChooseAllValid(es);
    var c := ChooseAll(es);
    var t := SortFrom(Values(c), i);
    var k := c.order[t];
    assert k in c.byKey;
    ChoiceIsPreferred(es, k);
  }

  /** An entry of the listed files describes one of them. */
  lemma EntryOf(files: seq<string>, e: Image)
    requires e in Entries(files)
    ensures e.name in files && e == Entry(e.name)
  {
    var m :| 0 <= m < |files| && Entries(files)[m] == e;
    EntryAt(files, m);
  }

  /** At most one file is kept per key. */
  lemma OneFilePerKey(names: seq<string>, i: nat, j: nat)
    requires i < j < |SelectSpec(names)|
    ensures Key(SelectSpec(names)[i]) != Key(SelectSpec(names)[j])
  {
    var files := ImageFiles(names);
    var sel := Kept(Entries(files));
    KeptFacts(Entries(files));
    EntryOf(files, sel[i]);
    EntryOf(files, sel[j]);
  }

  /** Every file select_images returns is an image of the listing. */
  lemma OnlyListedImages(names: seq<string>, i: nat)
    requires i < |SelectSpec(names)|
    ensures SelectSpec(names)[i] in names && IsImage(SelectSpec(names)[i])
  {
    var files := ImageFiles(names);
    KeptFacts(Entries(files));
    var e := Kept(Entries(files))[i];
    EntryOf(files, e);
    var m :| 0 <= m < |files| && files[m] == e.name;
  }

  /** Every image of the listing has a file of its key in the result. */
  lemma EveryKeyKept(names: seq<string>, f: string)
    requires f in names && IsImage(f)
    ensures exists i :: 0 <= i < |SelectSpec(names)| && Key(SelectSpec(names)[i]) == Key(f)
  {
    var files := ImageFiles(names);
    var es := Entries(files);
    var m :| 0 <= m < |files| && files[m] == f;
    var i := KeptEveryKey(es, m);
    EntryAt(files, m);
    KeptFacts(es);
    EntryOf(files, Kept(es)[i]);
    assert SelectSpec(names)[i] == Kept(es)[i].name;
  }

  /** The file kept for a key is the preferred one among the listed images of that key:
      the first without " 1" in its stem, or the first of all when every one has it. */
  lemma KeptIsPreferred(names: seq<string>, i: nat)
    requires i < |SelectSpec(names)|
    ensures var files, f := ImageFiles(names), SelectSpec(names)[i];
      Preferred(Entries(files), Key(f)) < |files| && f == files[Preferred(Entries(files), Key(f))]
  {
    var files := ImageFiles(names);
    var es := Entries(files);
    var e := Kept(es)[i];
    KeptFacts(es);
    EntryOf(files, e);
    KeptPreferred(es, i);
    EntryAt(files, Preferred(es, e.key));
  }

  /** The files come out in sort_key order. */
  lemma SortedOrder(names: seq<string>, i: nat, j: nat)
    requires i < j < |SelectSpec(names)|
    ensures KeyLe(SortKeyOf(SelectSpec(names)[i]), SortKeyOf(SelectSpec(names)[j]))
  {
    var files := ImageFiles(names);
    var sel := Kept(Entries(files));
    KeptFacts(Entries(files));
    assert Le(sel[i], sel[j]);
    EntryOf(files, sel[i]);
    EntryOf(files, sel[j]);
  }

  // --------------------------------------------------------------- examples

  /** A dot with no dot after it is the one rfind returns. */
  lemma LastDotAt(s: string, i: nat)
    requires i < |s| && s[i] == '.' && forall j :: i < j < |s| ==> s[j] != '.'
    ensures LastDot(s) == i
  {
  }
  /** pathlib's split of the example names. */
  lemma VariantStems()
    ensures Stem("IMG_5 1.jpg") == "IMG_5 1" && Suffix("IMG_5 1.jpg") == ".jpg"
    ensures Stem("IMG_5.JPG") == "IMG_5" && Suffix("IMG_5.JPG") == ".JPG"
  {
    LastDotAt("IMG_5 1.jpg", 7);
    LastDotAt("IMG_5.JPG", 5);
  }

  lemma NumberedStems()
    ensures Stem("IMG_9.jpg") == "IMG_9" && Suffix("IMG_9.jpg") == ".jpg"
    ensures Stem("IMG_10.jpg") == "IMG_10" && Suffix("IMG_10.jpg") == ".jpg"
  {
    LastDotAt("IMG_9.jpg", 5);
    LastDotAt("IMG_10.jpg", 6);
  }

  /** The example suffixes lower-case to ".jpg". */
  lemma ExampleSuffixes()
    ensures Lower(".jpg") == ".jpg" && Lower(".JPG") == ".jpg"
  {
    var a, b := Lower(".jpg"), Lower(".JPG");
    assert a[1] == 'j' && a[2] == 'p' && a[3] == 'g';
    assert b[1] == 'j' && b[2] == 'p' && b[3] == 'g';
  }
  /** A stem without a space never counts as a " 1" variant. */
  lemma NoSpaceUnmarked(s: string)
    requires ' ' !in s
    ensures !Contains(s, " 1")
  {
    forall i | 0 <= i <= |s| ensures !IsPrefix(" 1", s[i..]) {
      if i < |s| {
        assert s[i..][0] == s[i];
      }
    }
  }
  /** "IMG_5 1.jpg" is the " 1" variant of "IMG_5.JPG": same key, marked. */
  lemma VariantEntries()
    ensures Key("IMG_5 1.jpg") == Key("IMG_5.JPG") == "IMG_5.jpg"
    ensures Marked("IMG_5 1.jpg") && !Marked("IMG_5.JPG")
    ensures IsImage("IMG_5 1.jpg") && IsImage("IMG_5.JPG")
  {
    VariantStems();
    ExampleSuffixes();
    assert "IMG_5 1"[..6] == "IMG_5 ";
    assert "IMG_5 "[..5] == "IMG_5";
    assert IsPrefix(" 1", "IMG_5 1"[5..]);
    NoSpaceUnmarked("IMG_5");
  }
  /** The sort keys of "IMG_9.jpg" and "IMG_10.jpg" carry the numbers 9 and 10. */
  lemma NumberedSortKeys()
    ensures SortKeyOf("IMG_9.jpg") == Numbered(9, "IMG_9.jpg")
    ensures SortKeyOf("IMG_10.jpg") == Numbered(10, "IMG_10.jpg")
  {
    NumberedStems();
    assert ImgAt("IMG_9", 0) && ImgAt("IMG_10", 0);
    assert DigitRunEnd("IMG_9", 5) == 5;
    assert DigitRunEnd("IMG_10", 6) == 6;
    assert "IMG_9"[4..5] == "9";
    assert "IMG_10"[4..6] == "10";
    assert DecimalValue("1") == 1;
    assert "10"[..1] == "1";
  }

  /** "IMG_9.jpg" and "IMG_10.jpg" are plain images of different keys. */
  lemma NumberedEntries()
    ensures Key("IMG_9.jpg") == "IMG_9.jpg" && Key("IMG_10.jpg") == "IMG_10.jpg"
    ensures !Marked("IMG_9.jpg") && !Marked("IMG_10.jpg")
    ensures IsImage("IMG_9.jpg") && IsImage("IMG_10.jpg")
  {
    NumberedStems();
    ExampleSuffixes();
    NoSpaceUnmarked("IMG_9");
    NoSpaceUnmarked("IMG_10");
  }

  /** A " 1" variant seen first gives way to the plain file of the same key. */
  lemma KeptReplaced(a: Image, b: Image)
    requires a.key == b.key && a.marked && !b.marked
    ensures Kept([a, b]) == [b]
  {
    assert [a, b][..1] == [a];
    assert [a][..0] == [];
    assert ChooseAll([a]) == Choice(map[a.key := a], [a.key]);
    assert ChooseAll([a, b]) == Choice(map[a.key := b], [a.key]);
    ChooseAllValid([a, b]);
    assert Values(ChooseAll([a, b])) == [b];
    assert SortImages([b]) == [b];
  }

  /** A listing of two images is kept whole by the extension filter. */
  lemma TwoImageFiles(x: string, y: string)
    requires IsImage(x) && IsImage(y)
    ensures ImageFiles([x, y]) == [x, y]
  {
    assert [x, y][1..] == [y];
    assert [y][1..] == [];
    assert ImageFiles([y]) == [y];
  }
  lemma TwoEntries(x: string, y: string)
    ensures Entries([x, y]) == [Entry(x), Entry(y)]
  {
    var files := [x, y];
    EntryAt(files, 0);
    EntryAt(files, 1);
    assert files[0] == x && files[1] == y;
  }
  /** select_images over a listing of two images. */
  lemma SelectTwo(x: string, y: string)
    requires IsImage(x) && IsImage(y)
    ensures SelectSpec([x, y]) == Names(Kept([Entry(x), Entry(y)]))
  {
    TwoImageFiles(x, y);
    TwoEntries(x, y);
  }

  /** A " 1" variant listed before its plain file is dropped. */
  lemma SelectReplaced(x: string, y: string)
    requires IsImage(x) && IsImage(y) && Key(x) == Key(y) && Marked(x) && !Marked(y)
    ensures SelectSpec([x, y]) == [y]
  {
    SelectTwo(x, y);
    KeptReplaced(Entry(x), Entry(y));
  }

  /** Of a scan and its " 1" duplicate, only the original is kept. */
  lemma DuplicateExample()
    ensures SelectSpec(["IMG_5 1.jpg", "IMG_5.JPG"]) == ["IMG_5.JPG"]
  {
    VariantEntries();
    SelectReplaced("IMG_5 1.jpg", "IMG_5.JPG");
  }
  /** IMG_9 sorts before IMG_10, although "IMG_9.jpg" is the larger string: the number
      is compared, not the text. */
  lemma NumericOrderExample()
    ensures KeyLe(SortKeyOf("IMG_9.jpg"), SortKeyOf("IMG_10.jpg"))
    ensures !KeyLe(SortKeyOf("IMG_10.jpg"), SortKeyOf("IMG_9.jpg"))
  {
    NumberedSortKeys();
  }

  lemma TextOrderExample()
    ensures !LexLe("IMG_9.jpg", "IMG_10.jpg")
  {
    LexLeCommonPrefix("IMG_", "9.jpg", "10.jpg");
    assert "IMG_" + "9.jpg" == "IMG_9.jpg" && "IMG_" + "10.jpg" == "IMG_10.jpg";
  }
}
