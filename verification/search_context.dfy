/** The React search provider's history (src/contexts/SearchContext.tsx):
    `addToHistory` and `clearHistory` as list-to-list functions. The clock
    reading `Date.now()` is a parameter. */
module SearchContext {
  import opened JsBuiltins

  datatype HistoryItem = HistoryItem(term: string, timestamp: int)

  const MaxHistoryItems := 10

  /** The terms of a history, in order. */
  function Terms(h: seq<HistoryItem>): (r: seq<string>)
    ensures |r| == |h|
    ensures forall i :: 0 <= i < |h| ==> r[i] == h[i].term
  {
    seq(|h|, i requires 0 <= i < |h| => h[i].term)
  }

  lemma TermsCons(h: seq<HistoryItem>)
    requires h != []
    ensures Terms(h) == [h[0].term] + Terms(h[1..])
  {
  }

  /** `searchHistory.filter(item => item.term !== term)`: on the terms it
      is the filter of the term, and it keeps the items' order. */
  function DropTerm(h: seq<HistoryItem>, term: string): (r: seq<HistoryItem>)
    ensures Terms(r) == RemoveAll(Terms(h), term)
    ensures IsSubsequence(r, h)
  {
    if h == [] then []
    else
      TermsCons(h);
      var rest := DropTerm(h[1..], term);
      if h[0].term == term then rest
      else
        TermsCons([h[0]] + rest);
        assert ([h[0]] + rest)[1..] == rest;
        [h[0]] + rest
  }

  /** The filtered history no longer holds the term and, if its terms were
      distinct, they still are. */
  lemma DropTermFacts(h: seq<HistoryItem>, term: string)
    ensures term !in Terms(DropTerm(h, term))
    ensures NoDuplicates(Terms(h)) ==> NoDuplicates(Terms(DropTerm(h, term)))
  {
    if NoDuplicates(Terms(h)) {
      RemoveAllNoDuplicates(Terms(h), term);
    }
  }

  /** `[newItem, ...rest].slice(0, 10)`. */
  function PrependCapped(item: HistoryItem, rest: seq<HistoryItem>): (r: seq<HistoryItem>)
    ensures 1 <= |r| <= MaxHistoryItems && r[0] == item
    ensures r[1..] <= rest && |r| == Min(MaxHistoryItems, |rest| + 1)
  {
    var updated := [item] + rest;
    var r := updated[..Min(MaxHistoryItems, |updated|)];
    assert r[1..] == rest[..|r| - 1];
    r
  }

  /** What the prepended entry and the kept entries of the filtered history
      give: the term once, in front, the others a subsequence of the old
      history, distinct terms kept distinct. */
  lemma PrependDroppedFacts(history: seq<HistoryItem>, t: string, now: int)
    ensures var r := PrependCapped(HistoryItem(t, now), DropTerm(history, t));
      && t !in Terms(r[1..])
      && IsSubsequence(r[1..], history)
      && (NoDuplicates(Terms(history)) ==> NoDuplicates(Terms(r)))
  {
    var filtered := DropTerm(history, t);
    DropTermFacts(history, t);
    var r := PrependCapped(HistoryItem(t, now), filtered);
    var k := |r| - 1;
    assert r[1..] == filtered[..k];
    SubsequencePrefix(filtered, history, k);
    PrefixTerms(filtered, k, t);
    TermsCons(r);
    NoDuplicatesConsWhen(NoDuplicates(Terms(history)), t, Terms(r[1..]));
  }

  /** A prefix of a history keeps a term out, and keeps terms distinct. */
  lemma PrefixTerms(h: seq<HistoryItem>, k: nat, t: string)
    requires k <= |h| && t !in Terms(h)
    ensures Terms(h[..k]) == Terms(h)[..k]
    ensures t !in Terms(h[..k])
    ensures NoDuplicates(Terms(h)) ==> NoDuplicates(Terms(h[..k]))
  {
    assert Terms(h[..k]) == Terms(h)[..k];
  }

  /** `addToHistory(term)` at clock reading `now`. */
  function AddToHistory(history: seq<HistoryItem>, term: string, now: int): (r: seq<HistoryItem>)
    ensures Trim(term) == "" ==> r == history
    ensures Trim(term) != "" ==>
      && 1 <= |r| <= MaxHistoryItems
      && r[0] == HistoryItem(Trim(term), now)
      && Trim(term) !in Terms(r[1..])
      && IsSubsequence(r[1..], history)
      && r[1..] <= DropTerm(history, Trim(term))
      && |r| == Min(MaxHistoryItems, |DropTerm(history, Trim(term))| + 1)
    ensures Trim(term) != "" && NoDuplicates(Terms(history)) ==> NoDuplicates(Terms(r))
  {
    var t := Trim(term);
    if t == "" then history
    else
      PrependDroppedFacts(history, t, now);
      PrependCapped(HistoryItem(t, now), DropTerm(history, t))
  }

  lemma NoDuplicatesConsWhen(c: bool, x: string, s: seq<string>)
    requires x !in s
    ensures c && NoDuplicates(s) ==> NoDuplicates([x] + s)
  {
    if c && NoDuplicates(s) {
      NoDuplicatesCons(x, s);
    }
  }

  /** `clearHistory`. */
  function ClearHistory(history: seq<HistoryItem>): (r: seq<HistoryItem>)
    ensures |r| == 0
  {
    []
  }

  /** A term that was searched before moves to the front: it is not
      repeated further down, and the other entries keep their order. */
  lemma RepeatedTermMovesToFront(history: seq<HistoryItem>, term: string, now: int)
    requires Trim(term) != "" && Trim(term) in Terms(history)
    ensures AddToHistory(history, term, now)[0].term == Trim(term)
    ensures Trim(term) !in Terms(AddToHistory(history, term, now)[1..])
  {
  }

  /** Adding the same term twice in a row leaves one entry for it, at the
      front, with the later timestamp, and the rest as after the first call. */
  lemma {:induction false} AddTwice(history: seq<HistoryItem>, term: string, t1: int, t2: int)
    requires Trim(term) != ""
    ensures AddToHistory(AddToHistory(history, term, t1), term, t2) ==
      [HistoryItem(Trim(term), t2)] + AddToHistory(history, term, t1)[1..]
  {
    var t := Trim(term);
    var h1 := AddToHistory(history, term, t1);
    var rest := h1[1..];
    assert DropTerm(h1, t) == DropTerm(rest, t) by {
      assert h1[0].term == t;
    }
    DropTermAbsent(rest, t);
    var h2 := PrependCapped(HistoryItem(t, t2), rest);
    assert |h2| == |rest| + 1;
    assert h2 == [HistoryItem(t, t2)] + rest;
  }

  lemma {:induction false} DropTermAbsent(h: seq<HistoryItem>, term: string)
    requires term !in Terms(h)
    ensures DropTerm(h, term) == h
  {
    if h != [] {
      assert Terms(h)[0] == h[0].term;
      assert Terms(h[1..]) == Terms(h)[1..];
      DropTermAbsent(h[1..], term);
    }
  }
}
