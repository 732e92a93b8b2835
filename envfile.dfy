/** load_env (identical in both scripts), over the lines of the file. */
module EnvFile {
  import opened Text

  /** What one line contributes: None for a blank line, a comment or a line
      without '='; otherwise the stripped key and value around the first '='. */
  function ParseLine(line: string): (r: Option<(string, string)>)
    ensures r.None? <==> (Strip(line) == [] || Strip(line)[0] == '#' || '=' !in Strip(line))
    ensures r.Some? ==> '=' !in r.value.0 && Stripped(r.value.0) && Stripped(r.value.1)
  {
    var t := Strip(line);
    if t == [] || t[0] == '#' || '=' !in t then None
    else
      var i := IndexOf(t, '=');
      assert '=' !in t[..i];
      StripChars(t[..i]);
      Some((Strip(t[..i]), Strip(t[i + 1..])))
  }

  /** A written-out assignment "KEY=VALUE" is read back as (KEY, VALUE). */
  lemma ParseAssignment(k: string, v: string)
    requires k != [] && k[0] != '#' && '=' !in k && Stripped(k) && Stripped(v)
    ensures ParseLine(k + "=" + v) == Some((k, v))
  {
    var line := k + "=" + v;
    assert Stripped(line);
    StripOfStripped(line);
    assert line[|k|] == '=';
    assert IndexOf(line, '=') == |k| by {
      assert forall j :: 0 <= j < |k| ==> line[j] == k[j];
    }
    assert line[..|k|] == k;
    assert line[|k| + 1..] == v;
    StripOfStripped(k);
    StripOfStripped(v);
  }

  /** A line whose stripped form has its first '=' after `pre` parses into the two
      sides, each stripped, unless it starts with '#'. */
  lemma ParseAtFirstEq(line: string, pre: string, w: string)
    requires '=' !in pre && Strip(line) == pre + "=" + w
    ensures ParseLine(line) == if pre != [] && pre[0] == '#' then None else Some((Strip(pre), Strip(w)))
  {
    var t := Strip(line);
    assert t[0] == if pre == [] then '=' else pre[0];
    assert '=' in t by { assert t[|pre|] == '='; }
    assert IndexOf(t, '=') == |pre| by {
      assert t[|pre|] == '=';
      assert forall j :: 0 <= j < |pre| ==> t[j] == pre[j];
    }
    assert t[..|pre|] == pre && t[|pre| + 1..] == w;
  }

  lemma AllSpaceConcat(a: string, b: string)
    requires AllSpace(a) && AllSpace(b)
    ensures AllSpace(a + b)
  {
    assert forall j :: |a| <= j < |a + b| ==> (a + b)[j] == b[j - |a|];
  }

  /** A '=' between a part that starts with no whitespace and one that ends with none. */
  lemma StrippedAroundEq(pre: string, post: string)
    requires pre == [] || !IsSpace(pre[0])
    requires post == [] || !IsSpace(post[|post| - 1])
    ensures Stripped(pre + "=" + post)
  {
    var t := pre + "=" + post;
    assert t[0] == if pre == [] then '=' else pre[0];
    assert t[|t| - 1] == if post == [] then '=' else post[|post| - 1];
  }

  /** The cores of k and v with the '=' between them, and the whitespace around:
      a core keeps the whitespace that lies between it and the '='. */
  lemma AroundEq(xk: string, mk: string, yk: string, xv: string, mv: string, yv: string)
    returns (lead: string, trail: string)
    requires AllSpace(xk) && AllSpace(yk) && Stripped(mk)
    requires AllSpace(xv) && AllSpace(yv) && Stripped(mv)
    ensures var t := (if mk == [] then [] else mk + yk) + "=" + (if mv == [] then [] else xv + mv);
      xk + mk + yk + "=" + (xv + mv + yv) == lead + t + trail
      && AllSpace(lead) && AllSpace(trail) && Stripped(t)
  {
    var pre: string, post: string;
    if mk == [] {
      pre, lead := [], xk + yk;
      assert xk + mk + yk == lead + pre;
      AllSpaceConcat(xk, yk);
    } else {
      pre, lead := mk + yk, xk;
      assert xk + mk + yk == lead + pre;
    }
    if mv == [] {
      post, trail := [], xv + yv;
      assert xv + mv + yv == post + trail;
      AllSpaceConcat(xv, yv);
    } else {
      post, trail := xv + mv, yv;
      assert xv + mv + yv == post + trail;
    }
    StrippedAroundEq(pre, post);
    assert (lead + pre) + "=" + (post + trail) == lead + (pre + "=" + post) + trail;
  }

  /** The stripped form of k + "=" + v keeps the '=' between the two cores. */
  lemma StripAroundEq(xk: string, mk: string, yk: string, xv: string, mv: string, yv: string)
    requires AllSpace(xk) && AllSpace(yk) && Stripped(mk)
    requires AllSpace(xv) && AllSpace(yv) && Stripped(mv)
    ensures Strip(xk + mk + yk + "=" + (xv + mv + yv))
      == (if mk == [] then [] else mk + yk) + "=" + (if mv == [] then [] else xv + mv)
  {
    var lead, trail := AroundEq(xk, mk, yk, xv, mv, yv);
    StripUnique(lead, (if mk == [] then [] else mk + yk) + "=" + (if mv == [] then [] else xv + mv), trail);
  }

  /** k + "=" + v stripped is pre + "=" + post, where pre strips to k's core and post
      to v's core. */
  lemma StripAssignment(k: string, v: string) returns (pre: string, post: string)
    requires '=' !in k
    ensures Strip(k + "=" + v) == pre + "=" + post && '=' !in pre
    ensures Strip(pre) == Strip(k) && Strip(post) == Strip(v)
    ensures (pre != [] && pre[0] == '#') <==> (Strip(k) != [] && Strip(k)[0] == '#')
  {
    var xk, mk, yk := StripParts(k);
    var xv, mv, yv := StripParts(v);
    StripAroundEq(xk, mk, yk, xv, mv, yv);
    pre := if mk == [] then [] else mk + yk;
    post := if mv == [] then [] else xv + mv;
    assert pre != [] ==> pre[0] == mk[0];
    StripUnique([], mk, yk);
    assert [] + mk + yk == mk + yk;
    StripUnique(xv, mv, []);
    assert xv + mv + [] == xv + mv;
  }

  /** line.split("=", 1) with both sides stripped: for any line k + "=" + v whose
      first '=' is the one after k, the key is k stripped and the value is v
      stripped, unless the stripped line starts with '#'. */
  lemma ParseSplit(k: string, v: string)
    requires '=' !in k
    ensures ParseLine(k + "=" + v)
      == if Strip(k) != [] && Strip(k)[0] == '#' then None else Some((Strip(k), Strip(v)))
  {
    var pre, post := StripAssignment(k, v);
    ParseAtFirstEq(k + "=" + v, pre, post);
  }

  /** Whitespace around the key and the value is dropped: " KEY = VALUE " reads as
      ("KEY", "VALUE"). */
  lemma ParseSpacedExample()
    ensures ParseLine(" KEY = VALUE ") == Some(("KEY", "VALUE"))
  {
    assert " KEY = VALUE " == " KEY " + "=" + " VALUE ";
    ParseSplit(" KEY ", " VALUE ");
    SpacedStrips();
  }

  lemma SpacedStrips()
    ensures Strip(" KEY ") == "KEY" && Strip(" VALUE ") == "VALUE"
  {
    assert " KEY " == " " + "KEY" + " " && " VALUE " == " " + "VALUE" + " ";
    StripUnique(" ", "KEY", " ");
    StripUnique(" ", "VALUE", " ");
  }

  /** The line defines `key`. */
  predicate Defines(line: string, key: string) {
    ParseLine(line).Some? && ParseLine(line).value.0 == key
  }

  /** The dictionary built from the lines, later lines overwriting earlier ones. */
  function EnvOf(lines: seq<string>): map<string, string> {
    if lines == [] then map[]
    else
      var env := EnvOf(lines[..|lines| - 1]);
      match ParseLine(lines[|lines| - 1])
      case None => env
      case Some((k, v)) => env[k := v]
  }

  /** load_env(path), given the file's lines. */
  method LoadEnv(lines: seq<string>) returns (env: map<string, string>)
    ensures env == EnvOf(lines)
  {
    env := map[];
    for n := 0 to |lines|
      invariant env == EnvOf(lines[..n])
    {
      assert lines[..n + 1][..n] == lines[..n];
      var parsed := ParseLine(lines[n]);
      if parsed.Some? {
        var (k, v) := parsed.value;
        env := env[k := v];
      }
    }
    assert lines[..|lines|] == lines;
  }

  /** A key is present exactly when some line defines it. */
  lemma {:induction false} EnvKeys(lines: seq<string>, key: string)
    ensures key in EnvOf(lines) <==> exists i :: 0 <= i < |lines| && Defines(lines[i], key)
  {
    if lines != [] {
      var init := lines[..|lines| - 1];
      EnvKeys(init, key);
      assert forall i :: 0 <= i < |init| ==> init[i] == lines[i];
    }
  }

  /** The value of a key is the one of the last line that defines it. */
  lemma {:induction false} EnvLastWins(lines: seq<string>, i: nat, key: string, value: string)
    requires i < |lines| && ParseLine(lines[i]) == Some((key, value))
    requires forall j :: i < j < |lines| ==> !Defines(lines[j], key)
    ensures key in EnvOf(lines) && EnvOf(lines)[key] == value
  {
    var init := lines[..|lines| - 1];
    if i < |lines| - 1 {
      assert forall j :: i < j < |init| ==> init[j] == lines[j];
      EnvLastWins(init, i, key, value);
      assert !Defines(lines[|lines| - 1], key);
    }
  }
}
