/** The few JavaScript built-ins the directory's logic relies on, stated
    over Dafny strings and sequences: `toLowerCase` (ASCII letters only),
    `trim`, `includes`, `indexOf`, `filter(x => x !== v)` and
    `splice(indexOf(v), 1)`. */
module JsBuiltins {

  datatype Option<T> = None | Some(value: T)

  function Min(a: int, b: int): int { if a <= b then a else b }

  // ---------------------------------------------------------------------
  // String.prototype.toLowerCase, restricted to ASCII letters

  predicate IsUpperAscii(c: char) { 'A' <= c <= 'Z' }

  function LowerChar(c: char): (r: char)
    ensures !IsUpperAscii(r)
    ensures r != c <==> IsUpperAscii(c)
  {
    if IsUpperAscii(c) then (c as int + 32) as char else c
  }

  function Lower(s: string): (r: string)
    ensures |r| == |s|
    ensures forall i :: 0 <= i < |s| ==> r[i] == LowerChar(s[i])
  {
    seq(|s|, i requires 0 <= i < |s| => LowerChar(s[i]))
  }

  lemma LowerIdempotent(s: string)
    ensures Lower(Lower(s)) == Lower(s)
  {
  }

  lemma LowerAppend(a: string, b: string)
    ensures Lower(a + b) == Lower(a) + Lower(b)
  {
  }

  // ---------------------------------------------------------------------
  // String.prototype.trim: ECMAScript WhiteSpace and LineTerminator

  predicate IsWhitespace(c: char) {
    ('\U{9}' <= c <= '\U{D}') || c == ' ' || c == '\U{A0}' || c == '\U{1680}' ||
    ('\U{2000}' <= c <= '\U{200A}') || c == '\U{2028}' || c == '\U{2029}' ||
    c == '\U{202F}' || c == '\U{205F}' || c == '\U{3000}' || c == '\U{FEFF}'
  }

  predicate AllWhitespace(s: string) {
    forall i :: 0 <= i < |s| ==> IsWhitespace(s[i])
  }

  /** The number of white space characters `s` starts with. */
  function LeadingWhitespace(s: string): (k: nat)
    ensures k <= |s|
    ensures forall i :: 0 <= i < k ==> IsWhitespace(s[i])
    ensures k < |s| ==> !IsWhitespace(s[k])
  {
    if |s| > 0 && IsWhitespace(s[0]) then
      var k := LeadingWhitespace(s[1..]);
      assert forall i :: 1 <= i <= k ==> s[i] == s[1..][i - 1];
      1 + k
    else 0
  }

  /** The number of white space characters `s` ends with. */
  function TrailingWhitespace(s: string): (k: nat)
    ensures k <= |s|
    ensures forall i :: |s| - k <= i < |s| ==> IsWhitespace(s[i])
    ensures k < |s| ==> !IsWhitespace(s[|s| - 1 - k])
  {
    if |s| > 0 && IsWhitespace(s[|s| - 1]) then
      var k := TrailingWhitespace(s[..|s| - 1]);
      assert forall i :: 0 <= i < |s| - 1 ==> s[i] == s[..|s| - 1][i];
      1 + k
    else 0
  }

  /** Drops the leading white space: what is left is a suffix of `s` that
      does not start with white space, and all that was dropped is white space. */
  function TrimStart(s: string): (r: string)
    ensures |r| <= |s| && r == s[|s| - |r|..]
    ensures AllWhitespace(s[..|s| - |r|])
    ensures r != [] ==> !IsWhitespace(r[0])
  {
    s[LeadingWhitespace(s)..]
  }

  /** Drops the trailing white space, symmetrically to TrimStart. */
  function TrimEnd(s: string): (r: string)
    ensures |r| <= |s| && r == s[..|r|]
    ensures AllWhitespace(s[|r|..])
    ensures r != [] ==> !IsWhitespace(r[|r| - 1])
  {
    s[..|s| - TrailingWhitespace(s)]
  }

  /** `trimStart` one character at a time. */
  lemma TrimStartStep(s: string)
    ensures TrimStart(s) == if |s| > 0 && IsWhitespace(s[0]) then TrimStart(s[1..]) else s
  {
    if |s| > 0 && IsWhitespace(s[0]) {
      assert s[1..][LeadingWhitespace(s[1..])..] == s[LeadingWhitespace(s)..];
    }
  }

  /** `trimEnd` one character at a time. */
  lemma TrimEndStep(s: string)
    ensures TrimEnd(s) == if |s| > 0 && IsWhitespace(s[|s| - 1]) then TrimEnd(s[..|s| - 1]) else s
  {
    if |s| > 0 && IsWhitespace(s[|s| - 1]) {
      var u := s[..|s| - 1];
      assert u[..|u| - TrailingWhitespace(u)] == s[..|s| - TrailingWhitespace(s)];
    }
  }

  /** `s` with its leading and trailing white space removed: a slice of
      `s` between two runs of white space, neither end of which is white. */
  function Trim(s: string): (r: string)
    ensures |r| <= |s|
    ensures r != [] ==> !IsWhitespace(r[0]) && !IsWhitespace(r[|r| - 1])
    ensures exists i, j :: 0 <= i <= j <= |s| && r == s[i..j] && AllWhitespace(s[..i]) && AllWhitespace(s[j..])
  {
    var a := TrimStart(s);
    var r := TrimEnd(a);
    var i := |s| - |a|;
    assert r == s[i..i + |r|];
    assert s[i + |r|..] == a[|r|..];
    r
  }

  /** A string that neither starts nor ends with white space is its own trim. */
  lemma TrimOfUnpadded(s: string)
    requires s != [] ==> !IsWhitespace(s[0]) && !IsWhitespace(s[|s| - 1])
    ensures Trim(s) == s
  {
    TrimStartStep(s);
    TrimEndStep(s);
  }

  lemma {:induction false} TrimStartOfWhitespace(s: string)
    requires AllWhitespace(s)
    ensures TrimStart(s) == []
  {
    TrimStartStep(s);
    if |s| > 0 {
      TrimStartOfWhitespace(s[1..]);
    }
  }

  lemma {:induction false} TrimStartSkipsPadding(p: string, x: string)
    requires AllWhitespace(p)
    ensures TrimStart(p + x) == TrimStart(x)
  {
    if |p| > 0 {
      TrimStartStep(p + x);
      assert IsWhitespace(p[0]) && (p + x)[0] == p[0];
      assert (p + x)[1..] == p[1..] + x;
      TrimStartSkipsPadding(p[1..], x);
    } else {
      assert p + x == x;
    }
  }

  lemma {:induction false} TrimEndSkipsPadding(x: string, q: string)
    requires AllWhitespace(q)
    ensures TrimEnd(x + q) == TrimEnd(x)
  {
    if |q| > 0 {
      TrimEndStep(x + q);
      assert (x + q)[..|x + q| - 1] == x + q[..|q| - 1];
      TrimEndSkipsPadding(x, q[..|q| - 1]);
    } else {
      assert x + q == x;
    }
  }

  lemma {:induction false} TrimIgnoresTrailingPadding(x: string, q: string)
    requires AllWhitespace(q)
    ensures Trim(x + q) == Trim(x)
  {
    if |x| == 0 {
      assert x + q == q;
      TrimStartOfWhitespace(q);
    } else if IsWhitespace(x[0]) {
      TrimStartStep(x + q);
      TrimStartStep(x);
      assert (x + q)[1..] == x[1..] + q;
      TrimIgnoresTrailingPadding(x[1..], q);
    } else {
      TrimStartStep(x + q);
      TrimStartStep(x);
      TrimEndSkipsPadding(x, q);
    }
  }

  /** `trim` removes any white space around a string and nothing else. */
  lemma TrimIgnoresPadding(p: string, s: string, q: string)
    requires AllWhitespace(p) && AllWhitespace(q)
    ensures Trim(p + s + q) == Trim(s)
  {
    assert p + s + q == p + (s + q);
    TrimStartSkipsPadding(p, s + q);
    assert TrimStart(p + s + q) == TrimStart(s + q);
    TrimIgnoresTrailingPadding(s, q);
    calc {
      Trim(p + s + q);
      TrimEnd(TrimStart(p + s + q));
      TrimEnd(TrimStart(s + q));
      Trim(s + q);
      Trim(s);
    }
  }

  lemma WhitespaceLower(c: char)
    ensures IsWhitespace(LowerChar(c)) == IsWhitespace(c)
  {
  }

  lemma {:induction false} LeadingWhitespaceLower(s: string)
    ensures LeadingWhitespace(Lower(s)) == LeadingWhitespace(s)
  {
    if |s| > 0 {
      WhitespaceLower(s[0]);
      assert Lower(s)[1..] == Lower(s[1..]);
      LeadingWhitespaceLower(s[1..]);
    }
  }

  lemma {:induction false} TrailingWhitespaceLower(s: string)
    ensures TrailingWhitespace(Lower(s)) == TrailingWhitespace(s)
  {
    if |s| > 0 {
      WhitespaceLower(s[|s| - 1]);
      assert Lower(s)[..|s| - 1] == Lower(s[..|s| - 1]);
      TrailingWhitespaceLower(s[..|s| - 1]);
    }
  }

  lemma TrimStartLower(s: string)
    ensures TrimStart(Lower(s)) == Lower(TrimStart(s))
  {
    LeadingWhitespaceLower(s);
    var k := LeadingWhitespace(s);
    assert Lower(s)[k..] == Lower(s[k..]);
  }

  lemma TrimEndLower(s: string)
    ensures TrimEnd(Lower(s)) == Lower(TrimEnd(s))
  {
    TrailingWhitespaceLower(s);
    var k := |s| - TrailingWhitespace(s);
    assert Lower(s)[..k] == Lower(s[..k]);
  }

  /** Lowering letters and trimming white space commute. */
  lemma TrimLowerCommute(s: string)
    ensures Trim(Lower(s)) == Lower(Trim(s))
  {
    TrimStartLower(s);
    TrimEndLower(TrimStart(s));
  }

  // ---------------------------------------------------------------------
  // String.prototype.includes

  /** `hay.includes(needle)`: some suffix of `hay` starts with `needle`;
      true for the empty needle. */
  predicate Contains(hay: string, needle: string)
    decreases |hay|
  {
    needle <= hay || (|hay| > 0 && Contains(hay[1..], needle))
  }

  lemma {:induction false} ContainsAt(hay: string, needle: string, i: nat)
    requires i + |needle| <= |hay| && hay[i..i + |needle|] == needle
    ensures Contains(hay, needle)
  {
    if i > 0 {
      assert hay[1..][i - 1..i - 1 + |needle|] == hay[i..i + |needle|];
      ContainsAt(hay[1..], needle, i - 1);
    }
  }

  lemma NotPrefix(hay: string, needle: string, k: nat)
    requires k < |needle| && (k >= |hay| || hay[k] != needle[k])
    ensures !(needle <= hay)
  {
  }

  /** A needle whose first character does not occur is not contained. */
  lemma {:induction false} MissingFirstChar(hay: string, needle: string)
    requires needle != [] && needle[0] !in hay
    ensures !Contains(hay, needle)
    decreases |hay|
  {
    NotPrefix(hay, needle, 0);
    if |hay| > 0 {
      MissingFirstChar(hay[1..], needle);
    }
  }

  /** `includes` holds exactly when the needle occurs at some position. */
  lemma {:induction false} ContainsWitness(hay: string, needle: string) returns (i: nat)
    requires Contains(hay, needle)
    ensures i + |needle| <= |hay| && hay[i..i + |needle|] == needle
    decreases |hay|
  {
    if needle <= hay {
      i := 0;
    } else {
      var j := ContainsWitness(hay[1..], needle);
      i := j + 1;
      assert hay[i..i + |needle|] == hay[1..][j..j + |needle|];
    }
  }

  // ---------------------------------------------------------------------
  // Array.prototype.indexOf, filter and splice

  predicate NoDuplicates<T(==)>(s: seq<T>) {
    forall i, j :: 0 <= i < j < |s| ==> s[i] != s[j]
  }

  /** `a` can be obtained from `b` by deleting elements: order is kept. */
  predicate IsSubsequence<T(==)>(a: seq<T>, b: seq<T>)
    decreases |b|
  {
    a == [] || (|b| > 0 && ((a[0] == b[0] && IsSubsequence(a[1..], b[1..])) || IsSubsequence(a, b[1..])))
  }

  /** `s.indexOf(x)`: the position of the first occurrence, or -1. */
  function IndexOf<T(==)>(s: seq<T>, x: T): (i: int)
    ensures -1 <= i < |s|
    ensures i == -1 <==> x !in s
    ensures 0 <= i ==> s[i] == x && x !in s[..i]
  {
    if |s| == 0 then -1
    else if s[0] == x then 0
    else var j := IndexOf(s[1..], x); if j == -1 then -1 else j + 1
  }

  /** `s.filter(y => y !== x)`. */
  function RemoveAll<T(==,!new)>(s: seq<T>, x: T): (r: seq<T>)
    ensures x !in r
    ensures forall y :: y != x ==> (y in r <==> y in s)
    ensures multiset(r) == multiset(s)[x := 0]
    ensures IsSubsequence(r, s)
    ensures x !in s ==> r == s
  {
    if |s| == 0 then []
    else
      assert s == [s[0]] + s[1..];
      var rest := RemoveAll(s[1..], x);
      if s[0] == x then rest else [s[0]] + rest
  }

  lemma {:induction false} RemoveAllAppend<T(!new)>(a: seq<T>, b: seq<T>, x: T)
    ensures RemoveAll(a + b, x) == RemoveAll(a, x) + RemoveAll(b, x)
  {
    if |a| > 0 {
      assert (a + b)[0] == a[0] && (a + b)[1..] == a[1..] + b;
      RemoveAllAppend(a[1..], b, x);
    } else {
      assert a + b == b;
    }
  }

  /** Filtering keeps a list free of duplicates. */
  lemma {:induction false} RemoveAllNoDuplicates<T(!new)>(s: seq<T>, x: T)
    requires NoDuplicates(s)
    ensures NoDuplicates(RemoveAll(s, x))
  {
    if |s| > 0 {
      RemoveAllNoDuplicates(s[1..], x);
      var rest := RemoveAll(s[1..], x);
      if s[0] != x {
        assert s[0] !in s[1..];
        NoDuplicatesCons(s[0], rest);
      }
    }
  }

  lemma NoDuplicatesCons<T>(x: T, s: seq<T>)
    requires x !in s && NoDuplicates(s)
    ensures NoDuplicates([x] + s)
  {
    var t := [x] + s;
    forall i, j | 0 <= i < j < |t| ensures t[i] != t[j] {
      if i == 0 {
        assert t[j] == s[j - 1];
      } else {
        assert t[i] == s[i - 1] && t[j] == s[j - 1];
      }
    }
  }

  lemma NoDuplicatesSnoc<T>(s: seq<T>, x: T)
    requires x !in s && NoDuplicates(s)
    ensures NoDuplicates(s + [x])
  {
  }

  /** A prefix of a subsequence is a subsequence. */
  lemma {:induction false} SubsequencePrefix<T>(a: seq<T>, b: seq<T>, k: nat)
    requires IsSubsequence(a, b) && k <= |a|
    ensures IsSubsequence(a[..k], b)
    decreases |b|
  {
    if k > 0 {
      assert a != [] && |b| > 0;
      if a[0] == b[0] && IsSubsequence(a[1..], b[1..]) {
        SubsequencePrefix(a[1..], b[1..], k - 1);
        assert a[..k][0] == a[0] && a[..k][1..] == a[1..][..k - 1];
      } else {
        SubsequencePrefix(a, b[1..], k);
      }
    }
  }

  /** `s.splice(s.indexOf(x), 1)` when `x` occurs: the first occurrence is deleted. */
  function RemoveFirst<T(==)>(s: seq<T>, x: T): (r: seq<T>)
    ensures x !in s ==> r == s
    ensures x in s ==> |r| == |s| - 1 && multiset(r) == multiset(s) - multiset{x}
    ensures x in s ==> r == s[..IndexOf(s, x)] + s[IndexOf(s, x) + 1..]
  {
    var i := IndexOf(s, x);
    if i < 0 then s
    else
      assert s == s[..i] + [s[i]] + s[i + 1..];
      s[..i] + s[i + 1..]
  }

  /** Deleting one element keeps a list free of duplicates. */
  lemma RemoveFirstNoDuplicates<T>(s: seq<T>, x: T)
    requires NoDuplicates(s)
    ensures NoDuplicates(RemoveFirst(s, x)) && x !in RemoveFirst(s, x)
  {
    if x in s {
      var i := IndexOf(s, x);
      var r := RemoveFirst(s, x);
      RemoveFirstShifts(s, x);
      forall a, b | 0 <= a < b < |r| ensures r[a] != r[b] {
        var a' := if a < i then a else a + 1;
        var b' := if b < i then b else b + 1;
        assert a' < b' && r[a] == s[a'] && r[b] == s[b'];
      }
      forall k | 0 <= k < |r| ensures r[k] != x {
        var k' := if k < i then k else k + 1;
        assert k' != i && r[k] == s[k'];
      }
    }
  }

  /** After the deletion, the elements past the deleted one move down by one. */
  lemma RemoveFirstShifts<T>(s: seq<T>, x: T)
    requires x in s
    ensures forall k :: 0 <= k < |RemoveFirst(s, x)| ==>
      RemoveFirst(s, x)[k] == s[if k < IndexOf(s, x) then k else k + 1]
  {
    var i := IndexOf(s, x);
    var r := RemoveFirst(s, x);
    forall k | 0 <= k < |r|
      ensures r[k] == s[if k < i then k else k + 1]
    {
      if k < i {
        assert r[k] == s[..i][k];
      } else {
        assert r[k] == s[i + 1..][k - i];
      }
    }
  }

  // ---------------------------------------------------------------------
  // Counting

  function CountTrue(s: seq<bool>): (n: nat)
    ensures n <= |s|
  {
    if |s| == 0 then 0 else (if s[0] then 1 else 0) + CountTrue(s[1..])
  }

  /** The count is zero exactly when no entry is true. */
  lemma {:induction false} CountTrueZero(s: seq<bool>)
    ensures CountTrue(s) == 0 <==> forall i :: 0 <= i < |s| ==> !s[i]
  {
    if |s| > 0 {
      CountTrueZero(s[1..]);
      assert forall i :: 1 <= i < |s| ==> s[i] == s[1..][i - 1];
    }
  }

  lemma {:induction false} CountTrueSnoc(s: seq<bool>, b: bool)
    ensures CountTrue(s + [b]) == CountTrue(s) + (if b then 1 else 0)
  {
    if |s| > 0 {
      assert (s + [b])[1..] == s[1..] + [b];
      CountTrueSnoc(s[1..], b);
    }
  }
}
