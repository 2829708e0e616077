/** The vanilla favorites manager (js/favorites.js): the favorites list and
    its stored copy, the favorites-view flag, each card's display flag and
    heart, the header badge and the "no results" block it writes. Cards are
    identified by their `data-category`. */
module Favorites {
  import opened JsBuiltins
  import opened Types
  import FavoritesContext

  /** The hearts as they should be: a card is marked exactly when its
      category is a favorite. */
  function Marks(cards: seq<string>, favorites: seq<string>): (r: seq<bool>)
    ensures |r| == |cards|
    ensures forall i :: 0 <= i < |cards| ==> (r[i] <==> cards[i] in favorites)
  {
    seq(|cards|, i requires 0 <= i < |cards| => cards[i] in favorites)
  }

  /** `updateDisplay` as written: it marks the favorites' hearts but never
      clears a heart whose category is no longer a favorite. */
  function MarksAsWritten(cards: seq<string>, favorites: seq<string>, marked: seq<bool>): (r: seq<bool>)
    requires |marked| == |cards|
    ensures |r| == |cards|
    ensures forall i :: 0 <= i < |cards| ==> (r[i] <==> marked[i] || cards[i] in favorites)
  {
    seq(|cards|, i requires 0 <= i < |cards| => marked[i] || cards[i] in favorites)
  }

  /** As written, a heart that was on stays on after the favorites are
      cleared: card "a" keeps its heart though the list is empty. */
  lemma StaleHeartAfterClear()
    ensures MarksAsWritten(["a"], [], Marks(["a"], ["a"])) == [true]
    ensures Marks(["a"], []) == [false]
  {
    assert Marks(["a"], ["a"])[0];
  }

  /** Clicking the heart of card `i` updates that heart only; when no two
      cards share a category this gives the same hearts as marking every
      card afresh. */
  lemma {:induction false} ToggleHeartMatchesMarks(cards: seq<string>, favorites: seq<string>, i: nat)
    requires NoDuplicates(cards) && i < |cards|
    ensures Marks(cards, FavoritesContext.Toggle(favorites, cards[i])) ==
      Marks(cards, favorites)[i := cards[i] in FavoritesContext.Toggle(favorites, cards[i])]
  {
    var f := FavoritesContext.Toggle(favorites, cards[i]);
    forall j | 0 <= j < |cards| && j != i
      ensures (cards[j] in f) == (cards[j] in favorites)
    {
      assert cards[j] != cards[i];
    }
  }

  /** What `importFavorites(data)` may be handed. */
  datatype FavoritesField = Missing | NotAnArray | ArrayOf(items: seq<string>)
  datatype ImportData = NotAnObject | Data(favorites: FavoritesField)

  /** `data.favorites && Array.isArray(data.favorites)`; reading a field of
      `null` throws, which the handler turns into `false`. */
  function ImportedList(data: ImportData): (r: Option<seq<string>>)
    ensures r.Some? <==> data.Data? && data.favorites.ArrayOf?
    ensures r.Some? ==> r.value == data.favorites.items
  {
    match data
    case NotAnObject => None
    case Data(ArrayOf(items)) => Some(items)
    case Data(_) => None
  }

  class FavoritesManager {
    var favorites: seq<string>
    var showingFavorites: bool
    /** The `favorites` entry of local storage. */
    var stored: Option<seq<string>>
    /** Each card's `data-category`. */
    var cards: seq<string>
    /** Each card is displayed. */
    var shown: seq<bool>
    /** Each card's heart button is `favorited`. */
    var marked: seq<bool>
    var badge: Badge
    var noResultsVisible: bool
    var gridVisible: bool
    var message: Option<Message>

    predicate Valid()
      reads this
    {
      |shown| == |cards| && |marked| == |cards| && badge == BadgeFor(|favorites|) && noResultsVisible != gridVisible
    }

    /** `storage.get('favorites', [])`, then `init`'s `updateDisplay`. */
    constructor (pageCards: seq<string>, storedFavorites: Option<seq<string>>)
      ensures Valid()
      ensures favorites == (if storedFavorites.Some? then storedFavorites.value else [])
      ensures !showingFavorites && stored == storedFavorites && cards == pageCards
      ensures shown == seq(|pageCards|, _ => true) && marked == Marks(cards, favorites)
      ensures gridVisible && message == None
    {
      favorites := if storedFavorites.Some? then storedFavorites.value else [];
      showingFavorites := false;
      stored := storedFavorites;
      cards := pageCards;
      shown := seq(|pageCards|, _ => true);
      marked := Marks(pageCards, if storedFavorites.Some? then storedFavorites.value else []);
      badge := BadgeFor(|if storedFavorites.Some? then storedFavorites.value else []|);
      noResultsVisible := false;
      gridVisible := true;
      message := None;
    }

    /** `updateFavoritesCount()`. */
    method UpdateFavoritesCount()
      modifies this
      ensures badge == BadgeFor(|favorites|)
      ensures favorites == old(favorites) && showingFavorites == old(showingFavorites) && stored == old(stored)
      ensures cards == old(cards) && shown == old(shown) && marked == old(marked)
      ensures noResultsVisible == old(noResultsVisible) && gridVisible == old(gridVisible) && message == old(message)
    {
      var count := |favorites|;
      if count > 0 {
        badge := Shown(count);
      } else {
        badge := Hidden;
      }
    }

    /** `updateDisplay()`, with every heart set from the list (see
        MarksAsWritten for the code as written). */
    method UpdateDisplay()
      requires |marked| == |cards|
      modifies this
      ensures badge == BadgeFor(|favorites|) && marked == Marks(cards, favorites)
      ensures favorites == old(favorites) && showingFavorites == old(showingFavorites) && stored == old(stored)
      ensures cards == old(cards) && shown == old(shown)
      ensures noResultsVisible == old(noResultsVisible) && gridVisible == old(gridVisible) && message == old(message)
    {
      UpdateFavoritesCount();
      var i := 0;
      while i < |cards|
        invariant 0 <= i <= |cards| && |marked| == |cards|
        invariant forall j :: 0 <= j < i ==> (marked[j] <==> cards[j] in favorites)
        invariant badge == BadgeFor(|favorites|)
        invariant favorites == old(favorites) && showingFavorites == old(showingFavorites) && stored == old(stored)
        invariant cards == old(cards) && shown == old(shown)
        invariant noResultsVisible == old(noResultsVisible) && gridVisible == old(gridVisible) && message == old(message)
      {
        marked := marked[i := cards[i] in favorites];
        i := i + 1;
      }
    }

    /** `toggleFavorite(button)` for the heart of card `i`: remove every
        occurrence of a favorite, or append a new one; that heart follows,
        then the list is saved and the badge recounted. */
    method ToggleFavorite(i: nat)
      requires Valid() && i < |cards|
      modifies this
      ensures Valid() && cards == old(cards)
      ensures favorites == FavoritesContext.Toggle(old(favorites), cards[i])
      ensures stored == Some(favorites)
      ensures marked == old(marked)[i := cards[i] in favorites]
      ensures showingFavorites == old(showingFavorites) && cards == old(cards) && shown == old(shown)
      ensures noResultsVisible == old(noResultsVisible) && gridVisible == old(gridVisible) && message == old(message)
    {
      var category := cards[i];
      if category in favorites {
        favorites := RemoveAll(favorites, category);
        marked := marked[i := false];
      } else {
        favorites := favorites + [category];
        marked := marked[i := true];
      }
      stored := Some(favorites);
      UpdateFavoritesCount();
    }

    /** `addFavorite(category)`: true, and appended, exactly when absent. */
    method AddFavorite(category: string) returns (added: bool)
      requires Valid()
      modifies this
      ensures Valid()
      ensures added <==> category !in old(favorites)
      ensures added ==> favorites == old(favorites) + [category] && stored == Some(favorites) && marked == Marks(cards, favorites)
      ensures !added ==> favorites == old(favorites) && stored == old(stored) && marked == old(marked)
      ensures showingFavorites == old(showingFavorites) && cards == old(cards) && shown == old(shown)
      ensures noResultsVisible == old(noResultsVisible) && gridVisible == old(gridVisible) && message == old(message)
    {
      if category !in favorites {
        favorites := favorites + [category];
        stored := Some(favorites);
        UpdateDisplay();
        return true;
      }
      return false;
    }

    /** `removeFavorite(category)`: `splice(indexOf(category), 1)`, so only
        the first occurrence goes. */
    method RemoveFavorite(category: string) returns (removed: bool)
      requires Valid()
      modifies this
      ensures Valid()
      ensures removed <==> category in old(favorites)
      ensures removed ==> favorites == RemoveFirst(old(favorites), category) && stored == Some(favorites) && marked == Marks(cards, favorites)
      ensures !removed ==> favorites == old(favorites) && stored == old(stored) && marked == old(marked)
      ensures showingFavorites == old(showingFavorites) && cards == old(cards) && shown == old(shown)
      ensures noResultsVisible == old(noResultsVisible) && gridVisible == old(gridVisible) && message == old(message)
    {
      var index := IndexOf(favorites, category);
      if index > -1 {
        favorites := favorites[..index] + favorites[index + 1..];
        stored := Some(favorites);
        UpdateDisplay();
        return true;
      }
      return false;
    }

    /** `clearFavorites()`. */
    method ClearFavorites()
      requires Valid()
      modifies this
      ensures Valid()
      ensures favorites == [] && stored == Some([]) && badge == Hidden && marked == Marks(cards, [])
      ensures showingFavorites == old(showingFavorites) && cards == old(cards) && shown == old(shown)
      ensures noResultsVisible == old(noResultsVisible) && gridVisible == old(gridVisible) && message == old(message)
    {
      favorites := [];
      stored := Some(favorites);
      UpdateDisplay();
    }

    /** `importFavorites(data)`: the list is replaced wholesale, duplicates
        and all, exactly when `data.favorites` is an array. */
    method ImportFavorites(data: ImportData) returns (ok: bool)
      requires Valid()
      modifies this
      ensures Valid()
      ensures ok <==> ImportedList(data).Some?
      ensures ok ==> favorites == ImportedList(data).value && stored == Some(favorites) && marked == Marks(cards, favorites)
      ensures !ok ==> favorites == old(favorites) && stored == old(stored) && marked == old(marked) && badge == old(badge)
      ensures showingFavorites == old(showingFavorites) && cards == old(cards) && shown == old(shown)
      ensures noResultsVisible == old(noResultsVisible) && gridVisible == old(gridVisible) && message == old(message)
    {
      var list := ImportedList(data);
      if list.Some? {
        favorites := list.value;
        stored := Some(favorites);
        UpdateDisplay();
        return true;
      }
      return false;
    }

    /** `getFavorites()`: `[...this.favorites]`, a new array. */
    method GetFavorites() returns (copy: array<string>)
      ensures fresh(copy) && copy[..] == favorites
    {
      copy := new string[|favorites|](i requires 0 <= i < |favorites| reads this => favorites[i]);
    }

    /** `isFavorite(category)`. */
    method IsFavorite(category: string) returns (b: bool)
      ensures b <==> category in favorites
    {
      b := category in favorites;
    }

    /** What the search manager reads of this manager. */
    function View(): (v: FavoritesView)
      reads this
      ensures v.showing == showingFavorites && v.favorites == favorites
    {
      FavoritesView(showingFavorites, favorites)
    }

    /** `toggleFavoritesView()`: flip the flag, then show only the
        favorites (with the heart message when there are none) or every
        card with the block hidden. */
    method ToggleFavoritesView()
      requires Valid()
      modifies this
      ensures Valid()
      ensures showingFavorites == !old(showingFavorites)
      ensures showingFavorites ==> shown == Marks(cards, favorites)
      ensures showingFavorites && favorites == [] ==> noResultsVisible && message == Some(NoFavorites)
      ensures showingFavorites && favorites != [] ==> noResultsVisible == old(noResultsVisible) && message == old(message)
      ensures !showingFavorites ==> shown == seq(|cards|, _ => true) && !noResultsVisible && message == old(message)
      ensures favorites == old(favorites) && stored == old(stored) && cards == old(cards) && marked == old(marked)
    {
      showingFavorites := !showingFavorites;
      var i := 0;
      while i < |cards|
        invariant 0 <= i <= |cards| && |shown| == |cards|
        invariant forall j :: 0 <= j < i ==> (shown[j] <==> !showingFavorites || cards[j] in favorites)
        invariant showingFavorites == !old(showingFavorites) && Valid()
        invariant favorites == old(favorites) && stored == old(stored) && cards == old(cards) && marked == old(marked)
        invariant noResultsVisible == old(noResultsVisible) && gridVisible == old(gridVisible) && message == old(message)
      {
        shown := shown[i := !showingFavorites || cards[i] in favorites];
        i := i + 1;
      }
      if showingFavorites {
        if |favorites| == 0 {
          message := Some(NoFavorites);
          noResultsVisible := true;
          gridVisible := false;
        }
      } else {
        noResultsVisible := false;
        gridVisible := true;
      }
    }
  }

  // ---------------------------------------------------------------------
  // Properties of the list operations

  /** `removeFavorite` takes out one occurrence: a key imported twice is
      still a favorite after one removal. */
  lemma RemoveOnlyFirst()
    ensures RemoveFirst(["a", "a"], "a") == ["a"]
  {
    assert IndexOf(["a", "a"], "a") == 0;
  }

  /** On a duplicate-free list, removing the first occurrence removes the
      key. */
  lemma RemoveFromDistinct(favorites: seq<string>, category: string)
    requires NoDuplicates(favorites)
    ensures category !in RemoveFirst(favorites, category)
    ensures NoDuplicates(RemoveFirst(favorites, category))
  {
    RemoveFirstNoDuplicates(favorites, category);
  }

  /** `importFavorites` keeps duplicates as given. */
  lemma ImportKeepsDuplicates()
    ensures ImportedList(Data(ArrayOf(["a", "a"]))) == Some(["a", "a"])
    ensures ImportedList(Data(ArrayOf([]))) == Some([])
    ensures ImportedList(Data(NotAnArray)).None? && ImportedList(NotAnObject).None?
  {
  }
}
