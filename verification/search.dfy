/** The vanilla search manager (js/search.js): the cards' display flags,
    the "no results" block, the grid, the search input and the search
    history with its stored copy. The favorites manager is read through a
    snapshot, `None` when `window.favoritesManager` is missing. */
module Search {
  import opened JsBuiltins
  import opened Types

  const MaxHistoryItems := 10

  /** `matchesSearch`: an empty term matches; otherwise the term occurs in
      the raw `data-category`, the lowercased title or the lowercased
      description. */
  predicate MatchesSearch(c: Card, term: string) {
    term == "" || Contains(c.category, term) || Contains(Lower(c.title), term) || Contains(Lower(c.description), term)
  }

  /** `shouldShow`. */
  predicate ShouldShow(c: Card, term: string, showingFavorites: bool, favorites: seq<string>) {
    if showingFavorites then MatchesSearch(c, term) && c.category in favorites else MatchesSearch(c, term)
  }

  /** The display flags `performSearch` leaves on the cards. */
  function ShownFor(cards: seq<Card>, term: string, showingFavorites: bool, favorites: seq<string>): (r: seq<bool>)
    ensures |r| == |cards|
    ensures forall i :: 0 <= i < |cards| ==> (r[i] <==> ShouldShow(cards[i], term, showingFavorites, favorites))
  {
    seq(|cards|, i requires 0 <= i < |cards| => ShouldShow(cards[i], term, showingFavorites, favorites))
  }

  /** The message `updateResultsDisplay` picks, in its priority order. */
  function ResultsMessage(term: string, showingFavorites: bool, favoritesCount: nat): (m: Message)
    ensures m == NoFavorites <==> showingFavorites && favoritesCount == 0
    ensures m.NoFavoritesMatching? <==> showingFavorites && favoritesCount > 0 && term != ""
    ensures m.NoFavoritesMatching? ==> m.term == term
  {
    if showingFavorites && favoritesCount == 0 then NoFavorites
    else if showingFavorites && term != "" then NoFavoritesMatching(term)
    else NoResults
  }

  /** `updateResultsDisplay`'s decision: the message to show, or None to
      hide the block. */
  function ResultsDisplay(visibleCards: nat, term: string, showingFavorites: bool, favoritesCount: nat): (r: Option<Message>)
    ensures r.Some? <==> visibleCards == 0 && (term != "" || showingFavorites)
    ensures r.Some? ==> r.value == ResultsMessage(term, showingFavorites, favoritesCount)
  {
    if visibleCards == 0 && (term != "" || showingFavorites) then Some(ResultsMessage(term, showingFavorites, favoritesCount))
    else None
  }

  /** The empty state `clearSearch` leaves: the heart message only in
      favorites view with no favorites. */
  function ClearedDisplay(showingFavorites: bool, favorites: seq<string>): (r: Option<Message>)
    ensures r.Some? <==> showingFavorites && |favorites| == 0
    ensures r.Some? ==> r.value == NoFavorites
  {
    if showingFavorites && |favorites| == 0 then Some(NoFavorites) else None
  }

  /** `addToHistory(term)` on the list: an empty term or one already
      present leaves it alone; otherwise the term goes in front and the
      list is cut to ten. */
  function HistoryAdd(history: seq<string>, term: string): (r: seq<string>)
    ensures term == "" || term in history ==> r == history
    ensures term != "" && term !in history ==>
      && 1 <= |r| <= MaxHistoryItems
      && r[0] == term
      && r[1..] <= history
      && |r| == Min(MaxHistoryItems, |history| + 1)
  {
    if term == "" || term in history then history
    else
      var unshifted := [term] + history;
      var r := unshifted[..Min(MaxHistoryItems, |unshifted|)];
      assert r[1..] == history[..|r| - 1];
      r
  }

  /** `addToHistory` never introduces a duplicate term. */
  lemma HistoryAddNoDuplicates(history: seq<string>, term: string)
    requires NoDuplicates(history)
    ensures NoDuplicates(HistoryAdd(history, term))
  {
    if term != "" && term !in history {
      var r := HistoryAdd(history, term);
      assert r[1..] == history[..|r| - 1];
      assert term !in r[1..];
      NoDuplicatesCons(term, r[1..]);
      assert r == [term] + r[1..];
    }
  }

  /** Unlike the React history, a term searched again is not moved to the
      front: the history is exactly as it was. */
  lemma RepeatedTermNotMoved(history: seq<string>, term: string)
    requires term in history
    ensures HistoryAdd(history, term) == history
  {
  }

  /** Once a non-empty term has been added, adding it again changes nothing. */
  lemma HistoryAddIdempotent(history: seq<string>, term: string)
    ensures HistoryAdd(HistoryAdd(history, term), term) == HistoryAdd(history, term)
  {
    if term != "" && term !in history {
      assert HistoryAdd(history, term)[0] == term;
    }
  }

  class SearchManager {
    var cards: seq<Card>
    /** `card.style.display !== 'none'`, card by card. */
    var shown: seq<bool>
    /** `searchInput.value`. */
    var inputValue: string
    /** The "no results" block is displayed. */
    var noResultsVisible: bool
    /** The card grid is displayed. */
    var gridVisible: bool
    /** The message last written into the "no results" block. */
    var message: Option<Message>
    var searchHistory: seq<string>
    /** The `searchHistory` entry of local storage. */
    var storedHistory: Option<seq<string>>

    predicate Valid()
      reads this
    {
      |shown| == |cards| && noResultsVisible != gridVisible
    }

    /** Binds the cards found on the page and loads the stored history
        (`storage.get('searchHistory', [])`). */
    constructor (pageCards: seq<Card>, stored: Option<seq<string>>)
      ensures Valid()
      ensures cards == pageCards && shown == seq(|pageCards|, _ => true)
      ensures inputValue == "" && gridVisible && !noResultsVisible && message == None
      ensures searchHistory == (if stored.Some? then stored.value else [])
      ensures storedHistory == stored
    {
      cards := pageCards;
      shown := seq(|pageCards|, _ => true);
      inputValue := "";
      noResultsVisible := false;
      gridVisible := true;
      message := None;
      searchHistory := if stored.Some? then stored.value else [];
      storedHistory := stored;
    }

    /** `showNoResults(message)`. */
    method ShowNoResults(m: Message)
      modifies this`message, this`noResultsVisible, this`gridVisible
      ensures noResultsVisible && !gridVisible && message == Some(m)
    {
      message := Some(m);
      noResultsVisible := true;
      gridVisible := false;
    }

    /** `hideNoResults()`: the block's content stays, hidden. */
    method HideNoResults()
      modifies this`noResultsVisible, this`gridVisible
      ensures !noResultsVisible && gridVisible
    {
      noResultsVisible := false;
      gridVisible := true;
    }

    /** `updateResultsDisplay(visibleCards, searchTerm, showingFavorites, favoritesCount)`. */
    method UpdateResultsDisplay(visibleCards: nat, term: string, showingFavorites: bool, favoritesCount: nat)
      requires Valid()
      modifies this`message, this`noResultsVisible, this`gridVisible
      ensures Valid()
      ensures noResultsVisible <==> ResultsDisplay(visibleCards, term, showingFavorites, favoritesCount).Some?
      ensures message == (if noResultsVisible then ResultsDisplay(visibleCards, term, showingFavorites, favoritesCount) else old(message))
    {
      var r := ResultsDisplay(visibleCards, term, showingFavorites, favoritesCount);
      if r.Some? {
        ShowNoResults(r.value);
      } else {
        HideNoResults();
      }
    }

    /** `performSearch(searchTerm)`: the pass over the cards, then the
        results display. */
    method PerformSearch(term: string, fm: Option<FavoritesView>)
      requires Valid()
      modifies this`shown, this`message, this`noResultsVisible, this`gridVisible
      ensures Valid()
      ensures shown == ShownFor(cards, term, ShowingOf(fm), FavoritesOf(fm))
      ensures noResultsVisible <==> ResultsDisplay(CountTrue(shown), term, ShowingOf(fm), |FavoritesOf(fm)|).Some?
      ensures message == (if noResultsVisible then ResultsDisplay(CountTrue(shown), term, ShowingOf(fm), |FavoritesOf(fm)|) else old(message))
    {
      var showingFavorites := ShowingOf(fm);
      var favorites := FavoritesOf(fm);
      var visibleCards := FilterCards(term, showingFavorites, favorites);
      UpdateResultsDisplay(visibleCards, term, showingFavorites, |favorites|);
    }

    /** The `forEach` of `performSearch`: each card's display follows
        `shouldShow`, and the shown cards are counted. */
    method FilterCards(term: string, showingFavorites: bool, favorites: seq<string>) returns (visibleCards: nat)
      requires Valid()
      modifies this`shown
      ensures Valid()
      ensures shown == ShownFor(cards, term, showingFavorites, favorites)
      ensures visibleCards == CountTrue(shown)
    {
      visibleCards := 0;
      var i := 0;
      while i < |cards|
        invariant 0 <= i <= |cards| && |shown| == |cards|
        invariant forall j :: 0 <= j < i ==> (shown[j] <==> ShouldShow(cards[j], term, showingFavorites, favorites))
        invariant visibleCards == CountTrue(shown[..i])
      {
        var show := ShouldShow(cards[i], term, showingFavorites, favorites);
        shown := shown[i := show];
        assert shown[..i + 1] == shown[..i] + [show];
        CountTrueSnoc(shown[..i], show);
        if show {
          visibleCards := visibleCards + 1;
        }
        i := i + 1;
      }
      assert shown[..i] == shown;
    }

    /** `clearSearch()`: empty the input, hide the block, then show the
        favorited cards (favorites view, with the heart message when there
        are none) or every card. */
    method ClearSearch(fm: Option<FavoritesView>)
      requires Valid()
      modifies this`inputValue, this`shown, this`message, this`noResultsVisible, this`gridVisible
      ensures Valid() && inputValue == ""
      ensures forall i :: 0 <= i < |cards| ==> (shown[i] <==> !ShowingOf(fm) || cards[i].category in FavoritesOf(fm))
      ensures noResultsVisible <==> ClearedDisplay(ShowingOf(fm), FavoritesOf(fm)).Some?
      ensures message == (if noResultsVisible then ClearedDisplay(ShowingOf(fm), FavoritesOf(fm)) else old(message))
    {
      inputValue := "";
      HideNoResults();
      var showingFavorites := ShowingOf(fm);
      var favorites := FavoritesOf(fm);
      var i := 0;
      while i < |cards|
        invariant 0 <= i <= |cards| && |shown| == |cards|
        invariant forall j :: 0 <= j < i ==> (shown[j] <==> !showingFavorites || cards[j].category in favorites)
        modifies this`shown
      {
        shown := shown[i := !showingFavorites || cards[i].category in favorites];
        i := i + 1;
      }
      if showingFavorites && |favorites| == 0 {
        ShowNoResults(NoFavorites);
      }
    }

    /** `addToHistory(term)`: saved only when the list changes. */
    method AddToHistory(term: string)
      modifies this`searchHistory, this`storedHistory
      ensures searchHistory == HistoryAdd(old(searchHistory), term)
      ensures storedHistory == (if term == "" || term in old(searchHistory) then old(storedHistory) else Some(searchHistory))
    {
      if term == "" || term in searchHistory {
        return;
      }
      searchHistory := [term] + searchHistory;
      searchHistory := searchHistory[..Min(MaxHistoryItems, |searchHistory|)];
      storedHistory := Some(searchHistory);
    }

    /** `clearSearchHistory()`: an empty history and no stored entry. */
    method ClearSearchHistory()
      modifies this`searchHistory, this`storedHistory
      ensures searchHistory == [] && storedHistory == None
    {
      searchHistory := [];
      storedHistory := None;
    }

    /** `search(term)`: the input shows the raw term, the cards are filtered
        by its lowercased, trimmed form. */
    method SearchFor(term: string, fm: Option<FavoritesView>)
      requires Valid()
      modifies this`inputValue, this`shown, this`message, this`noResultsVisible, this`gridVisible
      ensures Valid() && inputValue == term
      ensures shown == ShownFor(cards, Trim(Lower(term)), ShowingOf(fm), FavoritesOf(fm))
      ensures noResultsVisible <==> ResultsDisplay(CountTrue(shown), Trim(Lower(term)), ShowingOf(fm), |FavoritesOf(fm)|).Some?
      ensures message == (if noResultsVisible then ResultsDisplay(CountTrue(shown), Trim(Lower(term)), ShowingOf(fm), |FavoritesOf(fm)|) else old(message))
    {
      inputValue := term;
      PerformSearch(Trim(Lower(term)), fm);
    }
  }

  // ---------------------------------------------------------------------
  // Properties of the search

  /** A missing favorites manager filters as favorites view off with an
      empty list. */
  lemma MissingManagerIsViewOff(cards: seq<Card>, term: string)
    ensures ShownFor(cards, term, ShowingOf(None), FavoritesOf(None)) == ShownFor(cards, term, false, [])
    ensures forall favorites :: ShownFor(cards, term, false, favorites) == ShownFor(cards, term, false, [])
  {
  }

  /** The counter `performSearch` passes on is zero exactly when no card
      should be shown. */
  lemma NoneVisibleIff(cards: seq<Card>, term: string, showingFavorites: bool, favorites: seq<string>)
    ensures CountTrue(ShownFor(cards, term, showingFavorites, favorites)) == 0 <==>
      forall i :: 0 <= i < |cards| ==> !ShouldShow(cards[i], term, showingFavorites, favorites)
  {
    CountTrueZero(ShownFor(cards, term, showingFavorites, favorites));
  }

  /** In favorites view every card shown is a favorite. */
  lemma FavoritesViewShowsFavorites(cards: seq<Card>, term: string, favorites: seq<string>)
    ensures forall i :: 0 <= i < |cards| && ShownFor(cards, term, true, favorites)[i] ==> cards[i].category in favorites
  {
  }
}
