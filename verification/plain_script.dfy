/** The single-file page (script.js): module-level `favorites` and
    `showingFavorites`, the cards' display flags and hearts, the "no
    results" block, the badge, the theme class and its stored value, and the
    effects of a card click (tabs opened, `cardClick` events dispatched). */
module PlainScript {
  import opened JsBuiltins
  import opened Types
  import FavoritesContext

  /** `matchesSearch`: no empty-term guard, but `includes("")` is true. */
  predicate MatchesSearch(c: Card, term: string) {
    Contains(c.category, term) || Contains(Lower(c.title), term) || Contains(Lower(c.description), term)
  }

  predicate ShouldShow(c: Card, term: string, showingFavorites: bool, favorites: seq<string>) {
    if showingFavorites then MatchesSearch(c, term) && c.category in favorites else MatchesSearch(c, term)
  }

  function ShownFor(cards: seq<Card>, term: string, showingFavorites: bool, favorites: seq<string>): (r: seq<bool>)
    ensures |r| == |cards|
    ensures forall i :: 0 <= i < |cards| ==> (r[i] <==> ShouldShow(cards[i], term, showingFavorites, favorites))
  {
    seq(|cards|, i requires 0 <= i < |cards| => ShouldShow(cards[i], term, showingFavorites, favorites))
  }

  /** The block `handleSearch` shows: only the heart message or the generic
      search message. */
  function SearchDisplay(visibleCards: nat, term: string, showingFavorites: bool, favoritesCount: nat): (r: Option<Message>)
    ensures r.Some? <==> visibleCards == 0 && (term != "" || showingFavorites)
    ensures r.Some? ==> (r.value == NoFavorites <==> showingFavorites && favoritesCount == 0)
    ensures r.Some? ==> r.value == NoFavorites || r.value == NoResults
  {
    if visibleCards == 0 && (term != "" || showingFavorites) then
      Some(if showingFavorites && favoritesCount == 0 then NoFavorites else NoResults)
    else None
  }

  /** `cardLinks[key]`: the hard-coded table of links, keyed by lowercased
      category; None where the object has no such key. */
  function CardLink(key: string): Option<string> {
    if key == "últimos agregados" then Some("https://drive.google.com/drive/folders/1LG0VXkdP_s2c8kwUTgYTKy2R0tDqI8RP?usp=drive_link")
    else if key == "nuevos en español" then Some("https://drive.google.com/drive/folders/11IzBy3whtmikTG2_mJjP8EmqA2DOYYlF?usp=drive_link")
    else if key == "abordajes" then Some("https://drive.google.com/drive/folders/1h09T4Ez9xPps5unGhK4XqIGWQD7ckZDQ?usp=drive_link")
    else if key == "anatomía" then Some("https://drive.google.com/drive/folders/1AX5wudp3i1TRuco5kNGcKnaFapb_XG1L?usp=drive_link")
    else if key == "ao" then Some("https://drive.google.com/drive/folders/130SucFTa1yWY1GTEFUhO6MniQmhwKxD2?usp=sharing")
    else if key == "artroplastia" then Some("https://drive.google.com/drive/folders/1bSruX2U1NASFDQmTHtlykBbdAL8hAg3o?usp=drive_link")
    else if key == "artroscopia" then Some("https://drive.google.com/drive/folders/1LrO-tT0-47XISNysjRCLTZSO74Tv2SfJ?usp=drive_link")
    else if key == "campbell" then Some("https://drive.google.com/drive/folders/1SrsTmMpqyQLJrxxp_MmPNLM92Jjhuq_-?usp=drive_link")
    else if key == "clínica" then Some("https://drive.google.com/drive/folders/1D3ZIjadlTaGKiVX8m7A-WKyRA9MC_K8o?usp=drive_link")
    else if key == "imagenología" then Some("https://drive.google.com/drive/folders/1Q0lzcMqroJkIjoTtE50Gu-_v87eGMbqV?usp=drive_link")
    else if key == "kapandji" then Some("https://drive.google.com/drive/folders/1x4Jnu-g4YHGTWNWWJD4xIT6aT3dl4xo1?usp=drive_link")
    else if key == "master de trauma" then Some("https://drive.google.com/drive/folders/1pszVLeOQZ6oTKK2JHutF8-205OrLnmCG?usp=drive_link")
    else if key == "operative techniques" then Some("https://drive.google.com/drive/folders/1MNsv8T7_E0LrXaoGQqTKSlIQo4Q2U2bA?usp=drive_link")
    else if key == "orthopedics review" then Some("https://drive.google.com/drive/folders/1lHAxtCrf78URKWc1xBFnztGBD7rUHcUZ?usp=drive_link")
    else if key == "ortopedia deportiva" then Some("https://drive.google.com/drive/folders/1CKcYurQTS1PAnqmcT7x7_tY4kL7mWlYt?usp=drive_link")
    else if key == "ortopedia general" then Some("https://drive.google.com/drive/folders/1Zemgi5FKW3uj2BT2QQcyyV--OLUfZhpT?usp=drive_link")
    else if key == "ortopedia pediatrica" then Some("https://drive.google.com/drive/folders/1m2Ifrvfoyx-QqTDDYx6VNHxdlgHsHCx-?usp=drive_link")
    else if key == "qx cadera" then Some("https://drive.google.com/drive/folders/1EVSuiOTX1xHzz3khd_790LUTXPqu7jbW?usp=drive_link")
    else if key == "qx columna" then Some("https://drive.google.com/drive/folders/1d9xbrTbGJxNF86IR7FMtk1_rNPvPuClF?usp=drive_link")
    else if key == "qx hombro" then Some("https://drive.google.com/drive/folders/1PKnARSo1pJ84m_6LuuOPRvnQXO3WosTW?usp=drive_link")
    else if key == "qx mano" then Some("https://drive.google.com/drive/folders/1_1g8QopciynPN7HuxouH_7v_1blI0m81?usp=drive_link")
    else if key == "qx pie tobillo" then Some("https://drive.google.com/drive/folders/1vDmxFvBD9E1dRr_fQq3ANZvNn-46C-Bj?usp=drive_link")
    else if key == "qx rodilla" then Some("https://drive.google.com/drive/folders/13KIZx4HrDA7KBXNnireEwPnhgng58ZjO?usp=drive_link")
    else if key == "remplazo articular" then Some("https://drive.google.com/drive/folders/1bSruX2U1NASFDQmTHtlykBbdAL8hAg3o?usp=drive_link")
    else if key == "rockwood" then Some("https://drive.google.com/drive/folders/1xJpDRDKbUcQ6EYjfIrnCsL5oi6tZ0iqz?usp=drive_link")
    else if key == "tumores" then Some("https://drive.google.com/drive/folders/1cQ0w10gtEEnRr4Z3mWpGtxSENaag-h7p?usp=drive_link")
    else if key == "varios" then Some("https://drive.google.com/drive/folders/1Wf_8LpjSUEip029fuZ_9f1-cVLOLzuvj?usp=drive_link")
    else if key == "consentimiento informado" then Some("https://drive.google.com/drive/folders/1biSatyiQLBwWe9RyXhcDxydMOSJCyXNa?usp=sharing")
    else if key == "solicitar acceso" then Some("https://wa.link/s5xddq")
    else None
  }

  /** `cardLinks[cardCategory.toLowerCase()]`. */
  function LinkFor(category: string): Option<string> {
    CardLink(Lower(category))
  }

  /** `if (link)`: a string is truthy when it is not empty. */
  predicate Truthy(link: Option<string>) {
    link.Some? && link.value != ""
  }

  /** The `cardClick` event's detail. */
  datatype CardClick = CardClick(title: string, category: string, link: Option<string>)

  class Page {
    var cards: seq<Card>
    var shown: seq<bool>
    var marked: seq<bool>
    var favorites: seq<string>
    var showingFavorites: bool
    /** The `favorites` entry of local storage, as its parsed list. */
    var storedFavorites: Option<seq<string>>
    var inputValue: string
    var noResultsVisible: bool
    var gridVisible: bool
    var message: Option<Message>
    var badge: Badge
    /** `document.body` has the `light-mode` class. */
    var lightMode: bool
    /** The `theme` entry of local storage. */
    var storedTheme: Option<string>
    /** The links passed to `window.open`, in order. */
    var tabsOpened: seq<string>
    /** The `cardClick` events dispatched, in order. */
    var clicks: seq<CardClick>

    predicate Valid()
      reads this
    {
      |shown| == |cards| && |marked| == |cards| && noResultsVisible != gridVisible
    }

    /** The page after loading: `JSON.parse(localStorage.getItem('favorites')) || []`,
        every card displayed, `initFavorites` run. */
    constructor (pageCards: seq<Card>, savedFavorites: Option<seq<string>>, savedTheme: Option<string>)
      ensures Valid()
      ensures cards == pageCards && shown == seq(|pageCards|, _ => true)
      ensures favorites == (if savedFavorites.Some? then savedFavorites.value else [])
      ensures storedFavorites == savedFavorites && storedTheme == savedTheme
      ensures forall i :: 0 <= i < |cards| ==> (marked[i] <==> cards[i].category in favorites)
      ensures badge == BadgeFor(|favorites|) && !showingFavorites && inputValue == ""
      ensures gridVisible && message == None && !lightMode && tabsOpened == [] && clicks == []
    {
      var f := if savedFavorites.Some? then savedFavorites.value else [];
      cards := pageCards;
      shown := seq(|pageCards|, _ => true);
      marked := seq(|pageCards|, i requires 0 <= i < |pageCards| => pageCards[i].category in f);
      favorites := f;
      showingFavorites := false;
      storedFavorites := savedFavorites;
      inputValue := "";
      noResultsVisible := false;
      gridVisible := true;
      message := None;
      badge := BadgeFor(|f|);
      lightMode := false;
      storedTheme := savedTheme;
      tabsOpened := [];
      clicks := [];
    }

    /** `handleSearch`'s `forEach`: each card's display follows
        `shouldShow`, and the shown cards are counted. */
    method FilterCards(term: string) returns (visibleCards: nat)
      requires Valid()
      modifies this`shown
      ensures Valid()
      ensures shown == ShownFor(cards, term, showingFavorites, favorites)
      ensures visibleCards == CountTrue(shown)
    {
      visibleCards := 0;
      var i := 0;
      while i < |cards|
        invariant 0 <= i <= |cards| && |shown| == |cards|
        invariant forall j :: 0 <= j < i ==> (shown[j] <==> ShouldShow(cards[j], term, showingFavorites, favorites))
        invariant visibleCards == CountTrue(shown[..i])
      {
        var show := ShouldShow(cards[i], term, showingFavorites, favorites);
        shown := shown[i := show];
        assert shown[..i + 1] == shown[..i] + [show];
        CountTrueSnoc(shown[..i], show);
        if show {
          visibleCards := visibleCards + 1;
        }
        i := i + 1;
      }
      assert shown[..i] == shown;
    }

    /** `handleSearch` on an input holding `value`. */
    method HandleSearch(value: string)
      requires Valid()
      modifies this`inputValue, this`shown, this`message, this`noResultsVisible, this`gridVisible
      ensures Valid() && inputValue == value
      ensures shown == ShownFor(cards, Trim(Lower(value)), showingFavorites, favorites)
      ensures noResultsVisible <==> SearchDisplay(CountTrue(shown), Trim(Lower(value)), showingFavorites, |favorites|).Some?
      ensures message == (if noResultsVisible then SearchDisplay(CountTrue(shown), Trim(Lower(value)), showingFavorites, |favorites|) else old(message))
    {
      inputValue := value;
      var term := Trim(Lower(value));
      var visibleCards := FilterCards(term);
      ShowSearchOutcome(visibleCards, term);
    }

    /** The tail of `handleSearch`: the "no results" block and the grid for
        `visibleCards` cards shown under `term`. */
    method ShowSearchOutcome(visibleCards: nat, term: string)
      requires Valid()
      modifies this`message, this`noResultsVisible, this`gridVisible
      ensures Valid()
      ensures noResultsVisible <==> SearchDisplay(visibleCards, term, showingFavorites, |favorites|).Some?
      ensures message == (if noResultsVisible then SearchDisplay(visibleCards, term, showingFavorites, |favorites|) else old(message))
    {
      if visibleCards == 0 && (term != "" || showingFavorites) {
        if showingFavorites && |favorites| == 0 {
          message := Some(NoFavorites);
        } else {
          message := Some(NoResults);
        }
        noResultsVisible := true;
        gridVisible := false;
      } else {
        noResultsVisible := false;
        gridVisible := true;
      }
    }

    /** `clearSearch()`: the block is always hidden, even in favorites view
        with no favorites. */
    method ClearSearch()
      requires Valid()
      modifies this`inputValue, this`shown, this`noResultsVisible, this`gridVisible
      ensures Valid() && inputValue == "" && !noResultsVisible && gridVisible
      ensures forall i :: 0 <= i < |cards| ==> (shown[i] <==> !showingFavorites || cards[i].category in favorites)
    {
      inputValue := "";
      noResultsVisible := false;
      gridVisible := true;
      var i := 0;
      while i < |cards|
        invariant 0 <= i <= |cards| && |shown| == |cards|
        invariant forall j :: 0 <= j < i ==> (shown[j] <==> !showingFavorites || cards[j].category in favorites)
        modifies this`shown
      {
        shown := shown[i := !showingFavorites || cards[i].category in favorites];
        i := i + 1;
      }
    }

    /** `updateFavoritesCount()`. */
    method UpdateFavoritesCount()
      modifies this`badge
      ensures badge == BadgeFor(|favorites|)
    {
      var count := |favorites|;
      if count > 0 {
        badge := Shown(count);
      } else {
        badge := Hidden;
      }
    }

    /** `toggleFavorite(button)` for the heart of card `i`. */
    method ToggleFavorite(i: nat)
      requires Valid() && i < |cards|
      modifies this`favorites, this`marked, this`storedFavorites, this`badge
      ensures Valid()
      ensures favorites == FavoritesContext.Toggle(old(favorites), cards[i].category)
      ensures storedFavorites == Some(favorites) && badge == BadgeFor(|favorites|)
      ensures marked == old(marked)[i := cards[i].category in favorites]
    {
      var category := cards[i].category;
      if category in favorites {
        favorites := RemoveAll(favorites, category);
        marked := marked[i := false];
      } else {
        favorites := favorites + [category];
        marked := marked[i := true];
      }
      storedFavorites := Some(favorites);
      UpdateFavoritesCount();
    }

    /** `toggleFavoritesView()`: the search term is not consulted. */
    method ToggleFavoritesView()
      requires Valid()
      modifies this`showingFavorites, this`shown, this`message, this`noResultsVisible, this`gridVisible
      ensures Valid() && showingFavorites == !old(showingFavorites)
      ensures forall i :: 0 <= i < |cards| ==> (shown[i] <==> !showingFavorites || cards[i].category in favorites)
      ensures noResultsVisible <==> showingFavorites && favorites == []
      ensures message == (if noResultsVisible then Some(NoFavorites) else old(message))
    {
      showingFavorites := !showingFavorites;
      var i := 0;
      while i < |cards|
        invariant 0 <= i <= |cards| && |shown| == |cards|
        invariant forall j :: 0 <= j < i ==> (shown[j] <==> !showingFavorites || cards[j].category in favorites)
        modifies this`shown
      {
        shown := shown[i := !showingFavorites || cards[i].category in favorites];
        i := i + 1;
      }
      if showingFavorites && |favorites| == 0 {
        message := Some(NoFavorites);
        noResultsVisible := true;
        gridVisible := false;
      } else {
        noResultsVisible := false;
        gridVisible := true;
      }
    }

    /** `handleCardClick` on card `i`: open the mapped link when there is
        one, and dispatch `cardClick` either way. */
    method HandleCardClick(i: nat)
      requires Valid() && i < |cards|
      modifies this`tabsOpened, this`clicks
      ensures Valid()
      ensures tabsOpened == old(tabsOpened) + (if Truthy(LinkFor(cards[i].category)) then [LinkFor(cards[i].category).value] else [])
      ensures clicks == old(clicks) + [CardClick(cards[i].title, cards[i].category, LinkFor(cards[i].category))]
    {
      var card := cards[i];
      var link := LinkFor(card.category);
      if Truthy(link) {
        tabsOpened := tabsOpened + [link.value];
      }
      clicks := clicks + [CardClick(card.title, card.category, link)];
    }

    /** `initTheme()`: light only when "light" is stored; anything else is
        dark, and "dark" is stored. */
    method InitTheme()
      modifies this`lightMode, this`storedTheme
      ensures lightMode <==> old(storedTheme) == Some("light")
      ensures storedTheme == (if lightMode then old(storedTheme) else Some("dark"))
    {
      if storedTheme == Some("light") {
        lightMode := true;
      } else {
        lightMode := false;
        storedTheme := Some("dark");
      }
    }

    /** `toggleTheme()`: flip the class and store the new theme. */
    method ToggleTheme()
      modifies this`lightMode, this`storedTheme
      ensures lightMode == !old(lightMode)
      ensures storedTheme == Some(if lightMode then "light" else "dark")
    {
      if lightMode {
        lightMode := false;
        storedTheme := Some("dark");
      } else {
        lightMode := true;
        storedTheme := Some("light");
      }
    }
  }

  // ---------------------------------------------------------------------
  // Properties

  /** An empty term matches every card. */
  lemma EmptyTermMatchesAll(c: Card)
    ensures MatchesSearch(c, "")
  {
    assert "" <= c.category;
  }

  /** `handleSearch`'s block never says "No se encontraron favoritos". */
  lemma NoFavoritesMatchingMessage(visibleCards: nat, term: string, showingFavorites: bool, favoritesCount: nat)
    ensures SearchDisplay(visibleCards, term, showingFavorites, favoritesCount) != Some(NoFavoritesMatching(term))
  {
  }

  /** `AO` is lowered to the key `ao`, whose link is opened. */
  lemma LinkForCapitalisedKey()
    ensures LinkFor("AO") == Some("https://drive.google.com/drive/folders/130SucFTa1yWY1GTEFUhO6MniQmhwKxD2?usp=sharing")
  {
    assert Lower("AO") == "ao";
  }

  /** A card without a category finds no link. */
  lemma NoLinkForEmptyCategory()
    ensures LinkFor("") == None
  {
    assert Lower("") == "";
  }
}
