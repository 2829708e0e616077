/** How the three versions of the directory relate: where the single-file
    page, the manager classes and the React components agree, and the
    inputs on which they do not. */
module Variants {
  import opened JsBuiltins
  import opened Types
  import CardsGrid
  import Search
  import PlainScript
  import SearchContext

  /** script.js has no empty-term guard, but `includes("")` holds, so it
      matches exactly as js/search.js does. */
  lemma ScriptMatchesLikeManager(c: Card, term: string)
    ensures PlainScript.MatchesSearch(c, term) <==> Search.MatchesSearch(c, term)
  {
    if term == "" {
      PlainScript.EmptyTermMatchesAll(c);
    }
  }

  /** The same holds card by card for the filter of both. */
  lemma ScriptShowsLikeManager(cards: seq<Card>, term: string, showingFavorites: bool, favorites: seq<string>)
    ensures PlainScript.ShownFor(cards, term, showingFavorites, favorites) == Search.ShownFor(cards, term, showingFavorites, favorites)
  {
    forall i | 0 <= i < |cards|
      ensures PlainScript.ShouldShow(cards[i], term, showingFavorites, favorites) == Search.ShouldShow(cards[i], term, showingFavorites, favorites)
    {
      ScriptMatchesLikeManager(cards[i], term);
    }
  }

  /** For an entry whose key is already lower case, the React grid and the
      manager decide its visibility alike. */
  lemma GridShowsLikeManager(c: Category, favorites: seq<string>, showingFavorites: bool, term: string)
    requires Lower(c.key) == c.key
    ensures CardsGrid.Visible(c, favorites, showingFavorites, term) <==> Search.ShouldShow(CardOf(c), term, showingFavorites, favorites)
  {
  }

  /** The grid lowercases the key; the managers search the raw
      `data-category`. A capitalised key tells them apart. */
  lemma KeyCaseSeparatesGridAndManager()
    ensures var c := Category("AO", "x", "y", "");
      CardsGrid.MatchesSearch(c, "ao") && !Search.MatchesSearch(CardOf(c), "ao")
  {
    var c := Category("AO", "x", "y", "");
    assert Lower("AO") == "ao";
    assert Contains("ao", "ao") by { assert "ao"[0..2] == "ao"; }
    MissingFirstChar("AO", "ao");
    MissingFirstChar(Lower("x"), "ao");
    MissingFirstChar(Lower("y"), "ao");
  }

  /** The grid and the manager choose the same message. */
  lemma GridMessageLikeManager(favorites: seq<string>, showingFavorites: bool, term: string)
    ensures CardsGrid.MessageFor(favorites, showingFavorites, term) == Search.ResultsMessage(term, showingFavorites, |favorites|)
  {
  }

  /** script.js shows the block exactly when js/search.js does, with the
      generic search message where the manager would say that no favorite
      matches. */
  lemma ScriptMessageMergesFavoritesMatching(visibleCards: nat, term: string, showingFavorites: bool, favoritesCount: nat)
    ensures var script := PlainScript.SearchDisplay(visibleCards, term, showingFavorites, favoritesCount);
      var manager := Search.ResultsDisplay(visibleCards, term, showingFavorites, favoritesCount);
      && (script.Some? <==> manager.Some?)
      && (manager.Some? && manager.value.NoFavoritesMatching? ==> script == Some(NoResults))
      && (manager.Some? && !manager.value.NoFavoritesMatching? ==> script == manager)
  {
  }

  /** For a new, already trimmed term, the React history holds the same
      terms as the manager's history. */
  lemma HistoriesAgreeOnNewTerms(history: seq<SearchContext.HistoryItem>, term: string, now: int)
    requires term != "" && Trim(term) == term && term !in SearchContext.Terms(history)
    ensures SearchContext.Terms(SearchContext.AddToHistory(history, term, now)) == Search.HistoryAdd(SearchContext.Terms(history), term)
  {
    var terms := SearchContext.Terms(history);
    var item := SearchContext.HistoryItem(term, now);
    SearchContext.DropTermAbsent(history, term);
    assert SearchContext.AddToHistory(history, term, now) == SearchContext.PrependCapped(item, history);
    PrependedTerms(item, history);
    assert |[term] + terms| == |history| + 1;
    assert Search.HistoryAdd(terms, term) == ([term] + terms)[..Min(Search.MaxHistoryItems, |history| + 1)];
  }

  /** The terms of a capped prepend are the capped prepend of the terms. */
  lemma PrependedTerms(item: SearchContext.HistoryItem, h: seq<SearchContext.HistoryItem>)
    ensures SearchContext.Terms(SearchContext.PrependCapped(item, h)) ==
      ([item.term] + SearchContext.Terms(h))[..Min(SearchContext.MaxHistoryItems, |h| + 1)]
  {
    var r := SearchContext.PrependCapped(item, h);
    var expected := ([item.term] + SearchContext.Terms(h))[..Min(SearchContext.MaxHistoryItems, |h| + 1)];
    forall i | 0 <= i < |r|
      ensures SearchContext.Terms(r)[i] == expected[i]
    {
      if i > 0 {
        assert r[1..][i - 1] == h[i - 1];
      }
    }
  }

  /** A term searched again moves to the front of the React history but
      stays where it was in the manager's. */
  lemma HistoriesDifferOnRepeats()
    ensures var h := [SearchContext.HistoryItem("b", 1), SearchContext.HistoryItem("a", 0)];
      && SearchContext.Terms(SearchContext.AddToHistory(h, "a", 2)) == ["a", "b"]
      && Search.HistoryAdd(SearchContext.Terms(h), "a") == ["b", "a"]
  {
    var h := [SearchContext.HistoryItem("b", 1), SearchContext.HistoryItem("a", 0)];
    ReactRepeatInFront(h);
    assert SearchContext.Terms(h) == ["b", "a"];
  }

  lemma ReactRepeatInFront(h: seq<SearchContext.HistoryItem>)
    requires h == [SearchContext.HistoryItem("b", 1), SearchContext.HistoryItem("a", 0)]
    ensures SearchContext.Terms(SearchContext.AddToHistory(h, "a", 2)) == ["a", "b"]
  {
    TrimOfUnpadded("a");
    DropA(h);
    var rest := [SearchContext.HistoryItem("b", 1)];
    assert SearchContext.AddToHistory(h, "a", 2) == SearchContext.PrependCapped(SearchContext.HistoryItem("a", 2), rest);
    PrependedTerms(SearchContext.HistoryItem("a", 2), rest);
  }

  lemma DropA(h: seq<SearchContext.HistoryItem>)
    requires h == [SearchContext.HistoryItem("b", 1), SearchContext.HistoryItem("a", 0)]
    ensures SearchContext.DropTerm(h, "a") == [SearchContext.HistoryItem("b", 1)]
  {
    assert SearchContext.DropTerm(h[1..], "a") == [] by {
      assert h[1..][1..] == [];
    }
  }
}
