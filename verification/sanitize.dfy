/** `sanitizeString`, identical in js/utils.js and src/lib/utils.ts:
    `toLowerCase`, then `[^a-z0-9]` to `-`, then runs of `-` to one `-`,
    then one leading and one trailing `-` removed. Defined once, stage by
    stage. */
module Sanitize {
  import opened JsBuiltins

  predicate IsAlnum(c: char) { 'a' <= c <= 'z' || '0' <= c <= '9' }

  predicate IsSlugChar(c: char) { IsAlnum(c) || c == '-' }

  /** Only `a-z`, `0-9` and `-`. */
  predicate SlugChars(s: string) { forall i :: 0 <= i < |s| ==> IsSlugChar(s[i]) }

  /** No two hyphens in a row. */
  predicate NoDoubleHyphen(s: string) { forall i :: 0 <= i < |s| - 1 ==> !(s[i] == '-' && s[i + 1] == '-') }

  /** Neither the first nor the last character is a hyphen. */
  predicate NoEdgeHyphen(s: string) { s != [] ==> s[0] != '-' && s[|s| - 1] != '-' }

  /** The letters and digits of a string, in order. */
  function AlnumOf(s: string): string {
    if s == [] then [] else (if IsAlnum(s[0]) then [s[0]] else []) + AlnumOf(s[1..])
  }

  lemma {:induction false} AlnumOfAppend(a: string, b: string)
    ensures AlnumOf(a + b) == AlnumOf(a) + AlnumOf(b)
  {
    if a != [] {
      assert (a + b)[0] == a[0] && (a + b)[1..] == a[1..] + b;
      AlnumOfAppend(a[1..], b);
    } else {
      assert a + b == b;
    }
  }

  /** `.replace(/[^a-z0-9]/g, '-')`. */
  function Dashify(s: string): (r: string)
    ensures |r| == |s| && SlugChars(r)
    ensures forall i :: 0 <= i < |s| ==> (IsAlnum(s[i]) ==> r[i] == s[i]) && (!IsAlnum(s[i]) ==> r[i] == '-')
  {
    seq(|s|, i requires 0 <= i < |s| => if IsAlnum(s[i]) then s[i] else '-')
  }

  lemma {:induction false} DashifyKeepsAlnum(s: string)
    ensures AlnumOf(Dashify(s)) == AlnumOf(s)
  {
    if s != [] {
      assert Dashify(s)[1..] == Dashify(s[1..]);
      DashifyKeepsAlnum(s[1..]);
    }
  }

  /** `.replace(/-+/g, '-')`: a hyphen followed by a hyphen is dropped. */
  function Collapse(s: string): (r: string)
    ensures NoDoubleHyphen(r)
    ensures |r| <= |s| && (r == [] <==> s == [])
    ensures r != [] ==> r[0] == s[0] && r[|r| - 1] == s[|s| - 1]
    ensures forall i :: 0 <= i < |r| ==> r[i] in s
  {
    if s == [] then []
    else if |s| > 1 && s[0] == '-' && s[1] == '-' then Collapse(s[1..])
    else
      var rest := Collapse(s[1..]);
      assert forall i :: 1 <= i < |s| ==> s[i] in s[1..];
      [s[0]] + rest
  }

  /** Each run of hyphens counts as one hyphen: removing one hyphen of a
      pair does not change the result, and (CleanCollapse) a string without
      a pair is left as it is. */
  lemma {:induction false} CollapseMergesHyphenPairs(a: string, b: string)
    ensures Collapse(a + "--" + b) == Collapse(a + "-" + b)
  {
    if a == [] {
      assert a + "--" + b == "--" + b && ("--" + b)[1..] == "-" + b;
      assert a + "-" + b == "-" + b;
    } else {
      var s, t := a + "--" + b, a + "-" + b;
      assert s[0] == t[0] == a[0] && s[1] == t[1];
      assert s[1..] == a[1..] + "--" + b && t[1..] == a[1..] + "-" + b;
      CollapseMergesHyphenPairs(a[1..], b);
    }
  }

  /** Collapsing drops hyphens only. */
  lemma {:induction false} CollapseKeepsAlnum(s: string)
    ensures AlnumOf(Collapse(s)) == AlnumOf(s)
  {
    if s != [] {
      CollapseKeepsAlnum(s[1..]);
      if !(|s| > 1 && s[0] == '-' && s[1] == '-') {
        var r := Collapse(s);
        assert r[0] == s[0] && r[1..] == Collapse(s[1..]);
      }
    }
  }

  lemma CollapseKeepsSlugChars(s: string)
    requires SlugChars(s)
    ensures SlugChars(Collapse(s))
  {
  }

  /** `.replace(/^-|-$/g, '')`: one hyphen off the front, then one off the
      back of what is left. */
  function StripEnds(s: string): (r: string)
    ensures var i := if s != [] && s[0] == '-' then 1 else 0;
      var j := if i < |s| && s[|s| - 1] == '-' then |s| - 1 else |s|;
      r == s[i..j]
    ensures NoDoubleHyphen(s) ==> NoEdgeHyphen(r) && NoDoubleHyphen(r)
    ensures SlugChars(s) ==> SlugChars(r)
    ensures AlnumOf(r) == AlnumOf(s)
    ensures NoEdgeHyphen(s) ==> r == s
  {
    var a := StripFirst(s);
    StripLast(a)
  }

  /** One leading hyphen removed. */
  function StripFirst(s: string): (r: string)
    ensures NoDoubleHyphen(s) ==> NoDoubleHyphen(r) && (r != [] ==> r[0] != '-')
    ensures SlugChars(s) ==> SlugChars(r)
    ensures AlnumOf(r) == AlnumOf(s)
    ensures r == s || (s != [] && r == s[1..])
    ensures s != [] && s[0] != '-' ==> r == s
  {
    if s != [] && s[0] == '-' then s[1..] else s
  }

  /** One trailing hyphen removed. */
  function StripLast(s: string): (r: string)
    ensures NoDoubleHyphen(s) ==> NoDoubleHyphen(r) && (r != [] ==> r[|r| - 1] != '-')
    ensures NoDoubleHyphen(s) && (s != [] ==> s[0] != '-') ==> (r != [] ==> r[0] != '-')
    ensures SlugChars(s) ==> SlugChars(r)
    ensures AlnumOf(r) == AlnumOf(s)
    ensures s != [] && s[|s| - 1] != '-' ==> r == s
    ensures s == [] ==> r == s
  {
    if s != [] && s[|s| - 1] == '-' then
      var r := s[..|s| - 1];
      assert s == r + "-";
      AlnumOfAppend(r, "-");
      r
    else s
  }

  /** `sanitizeString(str)`: the words of the lowered input joined by
      single hyphens. */
  function SanitizeString(s: string): (r: string)
    ensures SlugChars(r)
    ensures NoDoubleHyphen(r)
    ensures NoEdgeHyphen(r)
    ensures AlnumOf(r) == AlnumOf(Lower(s))
    ensures r == Join(Words(Lower(s)))
  {
    var d := Dashify(Lower(s));
    DashifyKeepsAlnum(Lower(s));
    CollapseKeepsAlnum(d);
    CollapseKeepsSlugChars(d);
    var r := StripEnds(Collapse(d));
    WordsDashify(Lower(s));
    WordsCollapse(d);
    WordsStripEnds(Collapse(d));
    JoinWords(r);
    r
  }

  // ---------------------------------------------------------------------
  // The reference: words joined by hyphens

  predicate AllAlnum(w: string) { forall i :: 0 <= i < |w| ==> IsAlnum(w[i]) }

  /** The maximal runs of letters and digits of `s`, in order: a letter or
      digit followed by another one belongs to the same word, and any other
      character only separates words. */
  function Words(s: string): (r: seq<string>)
    ensures forall k :: 0 <= k < |r| ==> r[k] != [] && AllAlnum(r[k])
    ensures s != [] && IsAlnum(s[0]) ==> r != [] && r[0][0] == s[0]
  {
    if s == [] then []
    else
      var w := Words(s[1..]);
      if !IsAlnum(s[0]) then w
      else if |s| > 1 && IsAlnum(s[1]) then [[s[0]] + w[0]] + w[1..]
      else [[s[0]]] + w
  }

  /** `words.join('-')`. */
  function Join(ws: seq<string>): string {
    if ws == [] then []
    else if |ws| == 1 then ws[0]
    else ws[0] + "-" + Join(ws[1..])
  }

  /** Replacing separators by hyphens keeps the words. */
  lemma {:induction false} WordsDashify(s: string)
    ensures Words(Dashify(s)) == Words(s)
  {
    if s != [] {
      assert Dashify(s)[1..] == Dashify(s[1..]);
      WordsDashify(s[1..]);
    }
  }

  /** Dropping a hyphen that another hyphen follows keeps the words. */
  lemma {:induction false} WordsCollapse(s: string)
    ensures Words(Collapse(s)) == Words(s)
  {
    if s != [] {
      WordsCollapse(s[1..]);
      if !(|s| > 1 && s[0] == '-' && s[1] == '-') {
        var r := Collapse(s);
        assert r[0] == s[0] && r[1..] == Collapse(s[1..]);
      }
    }
  }

  /** A hyphen at the end separates nothing. */
  lemma {:induction false} WordsTrailingHyphen(x: string)
    ensures Words(x + "-") == Words(x)
  {
    if x != [] {
      assert (x + "-")[1..] == x[1..] + "-";
      WordsTrailingHyphen(x[1..]);
    } else {
      assert Words("-"[1..]) == [];
    }
  }

  lemma WordsStripEnds(s: string)
    ensures Words(StripEnds(s)) == Words(s)
  {
    var a := StripFirst(s);
    if s != [] && s[0] == '-' {
      assert Words(a) == Words(s);
    }
    if a != [] && a[|a| - 1] == '-' {
      assert a == a[..|a| - 1] + "-";
      WordsTrailingHyphen(a[..|a| - 1]);
    }
  }

  /** A string of slug characters without `--` and without a trailing
      hyphen is its words joined by hyphens, after its leading hyphen if it
      has one. */
  lemma {:induction false} JoinWords(x: string)
    requires SlugChars(x) && NoDoubleHyphen(x) && (x != [] ==> x[|x| - 1] != '-')
    ensures Join(Words(x)) == (if x != [] && x[0] == '-' then x[1..] else x)
  {
    if x != [] {
      var u := x[1..];
      assert SlugChars(u) && NoDoubleHyphen(u);
      JoinWords(u);
      if x[0] != '-' {
        if u == [] {
          assert x == [x[0]];
        } else if IsAlnum(u[0]) {
          JoinWordsInside(x);
        } else {
          JoinWordsAtHyphen(x);
        }
      }
    }
  }

  /** A letter or digit followed by another one extends the first word. */
  lemma JoinWordsInside(x: string)
    requires |x| > 1 && IsAlnum(x[0]) && IsAlnum(x[1])
    requires Join(Words(x[1..])) == x[1..]
    ensures Join(Words(x)) == x
  {
    var w := Words(x[1..]);
    assert Words(x) == [[x[0]] + w[0]] + w[1..];
    JoinExtendsFirst(x[0], w);
    assert x == [x[0]] + x[1..];
  }

  lemma JoinExtendsFirst(c: char, ws: seq<string>)
    requires ws != []
    ensures Join([[c] + ws[0]] + ws[1..]) == [c] + Join(ws)
  {
    var vs := [[c] + ws[0]] + ws[1..];
    assert vs[0] == [c] + ws[0] && vs[1..] == ws[1..];
    if |ws| > 1 {
      assert Join(vs) == vs[0] + "-" + Join(ws[1..]);
    }
  }

  /** A letter or digit followed by a hyphen ends its word. */
  lemma JoinWordsAtHyphen(x: string)
    requires |x| > 2 && IsAlnum(x[0]) && x[1] == '-' && IsAlnum(x[2])
    requires Join(Words(x[1..])) == x[2..]
    ensures Join(Words(x)) == x
  {
    var u := x[1..];
    var w := Words(u);
    assert Words(x) == [[x[0]]] + w;
    assert w == Words(u[1..]) && u[1..] == x[2..];
    assert w != [];
    assert Join(Words(x)) == [x[0]] + "-" + Join(w);
    assert x == [x[0]] + "-" + x[2..];
  }

  // ---------------------------------------------------------------------
  // Properties

  /** A string of letters, digits and single inner hyphens is a fixed point
      of every stage. */
  predicate Clean(s: string) { SlugChars(s) && NoDoubleHyphen(s) && NoEdgeHyphen(s) }

  lemma CleanLower(s: string)
    requires SlugChars(s)
    ensures Lower(s) == s
  {
  }

  lemma CleanDashify(s: string)
    requires SlugChars(s)
    ensures Dashify(s) == s
  {
  }

  lemma {:induction false} CleanCollapse(s: string)
    requires NoDoubleHyphen(s)
    ensures Collapse(s) == s
  {
    if s != [] {
      CleanCollapse(s[1..]);
    }
  }

  /** `sanitizeString` is idempotent. */
  lemma SanitizeIdempotent(s: string)
    ensures SanitizeString(SanitizeString(s)) == SanitizeString(s)
  {
    var r := SanitizeString(s);
    CleanLower(r);
    CleanDashify(r);
    CleanCollapse(r);
  }

  /** The results of `sanitizeString` are exactly the clean strings. */
  lemma SanitizeFixesCleanStrings(s: string)
    ensures Clean(s) <==> SanitizeString(s) == s
  {
    if Clean(s) {
      CleanLower(s);
      CleanDashify(s);
      CleanCollapse(s);
    }
  }

  /** Input without ASCII letters or digits sanitizes to "". */
  lemma NoAlnumGivesEmpty(s: string)
    requires AlnumOf(Lower(s)) == []
    ensures SanitizeString(s) == []
  {
    var r := SanitizeString(s);
    AllHyphens(r);
  }

  /** A slug string without letters or digits is all hyphens. */
  lemma {:induction false} AllHyphens(s: string)
    requires SlugChars(s) && AlnumOf(s) == []
    ensures forall i :: 0 <= i < |s| ==> s[i] == '-'
  {
    if s != [] {
      assert !IsAlnum(s[0]);
      AllHyphens(s[1..]);
      assert forall i :: 1 <= i < |s| ==> s[i] == s[1..][i - 1];
    }
  }

  lemma ScenarioLowered()
    ensures Lower(" A, B!") == " a, b!"
  {
  }

  lemma ScenarioDashified()
    ensures Dashify(" a, b!") == "-a--b-"
  {
  }

  lemma ScenarioCollapsedTail()
    ensures Collapse("-b-") == "-b-"
  {
    assert Collapse("-") == "-";
    assert Collapse("b-") == "b-";
  }

  lemma ScenarioCollapsedRun()
    ensures Collapse("--b-") == "-b-"
  {
    ScenarioCollapsedTail();
    assert "--b-"[1..] == "-b-";
  }

  lemma ScenarioCollapsedInner()
    ensures Collapse("a--b-") == "a-b-"
  {
    ScenarioCollapsedRun();
    var s := "a--b-";
    assert s[0] == 'a' && s[1..] == "--b-";
    assert Collapse(s) == [s[0]] + Collapse(s[1..]);
  }

  lemma ScenarioCollapsed()
    ensures Collapse("-a--b-") == "-a-b-"
  {
    ScenarioCollapsedInner();
    assert "-a--b-"[1..] == "a--b-";
  }

  /** `sanitizeString(" A, B!")` is `"a-b"`. */
  lemma ScenarioSanitize()
    ensures SanitizeString(" A, B!") == "a-b"
  {
    ScenarioLowered();
    ScenarioDashified();
    ScenarioCollapsed();
  }
}
