/** The React grid (src/components/CardsGrid.tsx): which catalog entries are
    shown for the debounced search term and the favorites-only flag, and
    which message replaces the grid when nothing is shown. Pure. */
module CardsGrid {
  import opened JsBuiltins
  import opened Types

  /** The debounced term the grid filters with: `searchTerm.toLowerCase().trim()`. */
  function Normalize(raw: string): string {
    Trim(Lower(raw))
  }

  /** The search filter's test: the term occurs in the lowercased key,
      title or description. */
  predicate MatchesSearch(c: Category, term: string) {
    Contains(Lower(c.key), term) || Contains(Lower(c.title), term) || Contains(Lower(c.description), term)
  }

  /** What decides whether an entry is shown: it passes the search filter
      (skipped for an empty term) and, in favorites view, its key is a favorite. */
  predicate Visible(c: Category, favorites: seq<string>, showingFavorites: bool, term: string) {
    (term == "" || MatchesSearch(c, term)) && (!showingFavorites || c.key in favorites)
  }

  /** Reference definition: the visible entries in catalog order, in one pass. */
  function VisibleEntries(cs: seq<Category>, favorites: seq<string>, showingFavorites: bool, term: string): (r: seq<Category>)
    ensures |r| <= |cs|
    ensures IsSubsequence(r, cs)
    ensures forall c :: c in r <==> c in cs && Visible(c, favorites, showingFavorites, term)
  {
    if cs == [] then []
    else
      assert cs == [cs[0]] + cs[1..];
      var rest := VisibleEntries(cs[1..], favorites, showingFavorites, term);
      if Visible(cs[0], favorites, showingFavorites, term) then [cs[0]] + rest else rest
  }

  /** The first `.filter` of `filteredCategories`. */
  function SearchFilter(cs: seq<Category>, term: string): seq<Category> {
    if cs == [] then []
    else (if MatchesSearch(cs[0], term) then [cs[0]] else []) + SearchFilter(cs[1..], term)
  }

  /** The second `.filter`: keep the entries whose key is a favorite. */
  function FavoritesFilter(cs: seq<Category>, favorites: seq<string>): seq<Category> {
    if cs == [] then []
    else (if cs[0].key in favorites then [cs[0]] else []) + FavoritesFilter(cs[1..], favorites)
  }

  /** `filteredCategories`: the search filter when the term is not empty,
      then the favorites filter in favorites view. */
  function FilteredCategories(catalog: seq<Category>, favorites: seq<string>, showingFavorites: bool, term: string): seq<Category> {
    var searched := if term != "" then SearchFilter(catalog, term) else catalog;
    if showingFavorites then FavoritesFilter(searched, favorites) else searched
  }

  /** The message chosen when the empty state is shown, in its priority order. */
  function MessageFor(favorites: seq<string>, showingFavorites: bool, term: string): Message {
    if showingFavorites && |favorites| == 0 then NoFavorites
    else if showingFavorites && term != "" then NoFavoritesMatching(term)
    else NoResults
  }

  /** `shouldShowNoResults` and the message: None when the grid is rendered. */
  function EmptyState(catalog: seq<Category>, favorites: seq<string>, showingFavorites: bool, term: string): Option<Message> {
    if |FilteredCategories(catalog, favorites, showingFavorites, term)| == 0 && (term != "" || showingFavorites)
    then Some(MessageFor(favorites, showingFavorites, term))
    else None
  }

  /** What CardsGrid renders. */
  datatype Rendered = Grid(entries: seq<Category>) | Empty(message: Message)

  /** The component for a raw search term: the empty block or the grid of
      the visible entries, in catalog order. */
  function Render(catalog: seq<Category>, favorites: seq<string>, showingFavorites: bool, rawTerm: string): (r: Rendered)
    ensures r.Grid? ==> r.entries == VisibleEntries(catalog, favorites, showingFavorites, Normalize(rawTerm))
    ensures r.Empty? ==> VisibleEntries(catalog, favorites, showingFavorites, Normalize(rawTerm)) == []
  {
    var term := Normalize(rawTerm);
    FilteredIsVisibleEntries(catalog, favorites, showingFavorites, term);
    match EmptyState(catalog, favorites, showingFavorites, term)
    case Some(m) => Empty(m)
    case None => Grid(FilteredCategories(catalog, favorites, showingFavorites, term))
  }

  // ---------------------------------------------------------------------
  // Properties of the filter

  /** The two-stage filter of the source equals the one-pass reference. */
  lemma {:induction false} FilteredIsVisibleEntries(catalog: seq<Category>, favorites: seq<string>, showingFavorites: bool, term: string)
    ensures FilteredCategories(catalog, favorites, showingFavorites, term) == VisibleEntries(catalog, favorites, showingFavorites, term)
  {
    if catalog != [] {
      var c, rest := catalog[0], catalog[1..];
      assert catalog == [c] + rest;
      FilteredIsVisibleEntries(rest, favorites, showingFavorites, term);
      var searchedRest := if term != "" then SearchFilter(rest, term) else rest;
      var head := if term == "" || MatchesSearch(c, term) then [c] else [];
      var searched := if term != "" then SearchFilter(catalog, term) else catalog;
      assert searched == head + searchedRest;
      if showingFavorites {
        if head == [] {
          assert searched == searchedRest;
        } else {
          assert searched[0] == c && searched[1..] == searchedRest;
        }
      }
    }
  }

  /** The result is an order-preserving selection of the catalog: exactly
      the entries that pass the search filter (when the term is not empty)
      and, in favorites view, are favorites. */
  lemma FilteredIsOrderedSelection(catalog: seq<Category>, favorites: seq<string>, showingFavorites: bool, term: string)
    ensures IsSubsequence(FilteredCategories(catalog, favorites, showingFavorites, term), catalog)
    ensures forall c :: c in FilteredCategories(catalog, favorites, showingFavorites, term) <==>
      c in catalog && (term == "" || MatchesSearch(c, term)) && (!showingFavorites || c.key in favorites)
  {
    FilteredIsVisibleEntries(catalog, favorites, showingFavorites, term);
  }

  /** In favorites view every entry shown is a favorite. */
  lemma FavoritesViewShowsOnlyFavorites(catalog: seq<Category>, favorites: seq<string>, term: string)
    ensures forall c :: c in FilteredCategories(catalog, favorites, true, term) ==> c.key in favorites
  {
    FilteredIsVisibleEntries(catalog, favorites, true, term);
  }

  /** An empty term outside favorites view shows the whole catalog and never
      the empty state, even for an empty catalog. */
  lemma EmptyTermShowsCatalog(catalog: seq<Category>, favorites: seq<string>)
    ensures FilteredCategories(catalog, favorites, false, "") == catalog
    ensures EmptyState(catalog, favorites, false, "") == None
  {
  }

  /** Raw terms that differ only in surrounding white space or in letter
      case render the same. */
  lemma {:induction false} RenderIgnoresCaseAndPadding(catalog: seq<Category>, favorites: seq<string>, showingFavorites: bool,
                                   raw: string, other: string, p: string, q: string)
    requires AllWhitespace(p) && AllWhitespace(q)
    requires Lower(other) == Lower(p + raw + q)
    ensures Render(catalog, favorites, showingFavorites, other) == Render(catalog, favorites, showingFavorites, raw)
  {
    TrimLowerCommute(other);
    TrimLowerCommute(raw);
    TrimIgnoresPadding(p, raw, q);
    TrimLowerCommute(p + raw + q);
    assert Normalize(other) == Normalize(raw);
  }

  // ---------------------------------------------------------------------
  // Properties of the empty state

  /** The empty state is shown exactly when no catalog entry is visible and
      there is a search term or favorites view is on. */
  lemma EmptyStateShownIff(catalog: seq<Category>, favorites: seq<string>, showingFavorites: bool, term: string)
    ensures EmptyState(catalog, favorites, showingFavorites, term).Some? <==>
      (term != "" || showingFavorites) && forall c :: c in catalog ==> !Visible(c, favorites, showingFavorites, term)
  {
    var r := VisibleEntries(catalog, favorites, showingFavorites, term);
    FilteredIsVisibleEntries(catalog, favorites, showingFavorites, term);
    if r != [] {
      assert r[0] in r;
    }
  }

  /** Favorites view with no favorites always shows the heart message,
      whatever the term and the catalog. */
  lemma NoFavoritesWins(catalog: seq<Category>, term: string)
    ensures EmptyState(catalog, [], true, term) == Some(NoFavorites)
  {
    EmptyStateShownIff(catalog, [], true, term);
  }

  /** Favorites view with favorites and a term that nothing matches shows
      "No se encontraron favoritos" with that term. */
  lemma NoFavoritesMatchingTerm(catalog: seq<Category>, favorites: seq<string>, term: string)
    requires favorites != [] && term != ""
    requires forall c :: c in catalog && c.key in favorites ==> !MatchesSearch(c, term)
    ensures EmptyState(catalog, favorites, true, term) == Some(NoFavoritesMatching(term))
  {
    EmptyStateShownIff(catalog, favorites, true, term);
  }

  /** Favorites view with an empty term whose favorites are not catalog keys
      falls through to the generic "No se encontraron resultados". */
  lemma FavoritesOutsideCatalog(catalog: seq<Category>, favorites: seq<string>)
    requires favorites != []
    requires forall c :: c in catalog ==> c.key !in favorites
    ensures EmptyState(catalog, favorites, true, "") == Some(NoResults)
  {
    EmptyStateShownIff(catalog, favorites, true, "");
  }

  /** Outside favorites view the only message is "No se encontraron resultados". */
  lemma SearchOnlyMessage(catalog: seq<Category>, favorites: seq<string>, term: string)
    ensures EmptyState(catalog, favorites, false, term).Some? ==> EmptyState(catalog, favorites, false, term) == Some(NoResults)
    ensures EmptyState(catalog, favorites, false, term).Some? <==> term != "" && forall c :: c in catalog ==> !MatchesSearch(c, term)
  {
    EmptyStateShownIff(catalog, favorites, false, term);
  }

  // ---------------------------------------------------------------------
  // The scenarios of the directory's documentation

  const Anatomy := Category("a", "Anatomy", "desc", "https://example.org/a")
  const Biomechanics := Category("b", "Biomechanics", "desc", "https://example.org/b")

  lemma {:induction false} NoAnaInBiomechanics()
    ensures !Contains("biomechanics", "ana")
  {
    NotPrefix("s", "ana", 1);
    NotPrefix("cs", "ana", 0);
    NotPrefix("ics", "ana", 0);
    NotPrefix("nics", "ana", 0);
    NotPrefix("anics", "ana", 2);
    NotPrefix("hanics", "ana", 0);
    NotPrefix("chanics", "ana", 0);
    NotPrefix("echanics", "ana", 0);
    NotPrefix("mechanics", "ana", 0);
    NotPrefix("omechanics", "ana", 0);
    NotPrefix("iomechanics", "ana", 0);
    NotPrefix("biomechanics", "ana", 0);
    assert !Contains("s", "ana");
    assert !Contains("cs", "ana");
    assert !Contains("ics", "ana");
    assert !Contains("nics", "ana");
    assert !Contains("anics", "ana");
    assert !Contains("hanics", "ana");
    assert !Contains("chanics", "ana");
    assert !Contains("echanics", "ana");
    assert !Contains("mechanics", "ana");
    assert !Contains("omechanics", "ana");
    assert !Contains("iomechanics", "ana");
  }

  lemma LoweredScenarioTexts()
    ensures Lower("a") == "a" && Lower("b") == "b" && Lower("desc") == "desc"
    ensures Lower("Anatomy") == "anatomy" && Lower("Biomechanics") == "biomechanics"
    ensures Lower("ana") == "ana" && Lower("xyz") == "xyz"
  {
    assert Lower("Anatomy") == "anatomy";
    assert Lower("Biomechanics") == "biomechanics";
  }

  lemma ShortTextsLackAna()
    ensures !Contains(Lower("b"), "ana") && !Contains(Lower("desc"), "ana")
  {
    LoweredScenarioTexts();
    MissingFirstChar("b", "ana");
    MissingFirstChar("desc", "ana");
  }

  lemma BiomechanicsTitleLacksAna()
    ensures !Contains(Lower("Biomechanics"), "ana")
  {
    LoweredScenarioTexts();
    NoAnaInBiomechanics();
  }

  lemma BiomechanicsLacksAna()
    ensures !MatchesSearch(Biomechanics, "ana")
  {
    ShortTextsLackAna();
    BiomechanicsTitleLacksAna();
  }

  lemma AnatomyHasAna()
    ensures MatchesSearch(Anatomy, "ana")
  {
    LoweredScenarioTexts();
    assert "ana" <= "anatomy";
  }

  lemma AnatomyLacksXyz()
    ensures !MatchesSearch(Anatomy, "xyz")
  {
    LoweredScenarioTexts();
    MissingFirstChar("a", "xyz");
    MissingFirstChar("anatomy", "xyz");
    MissingFirstChar("desc", "xyz");
  }

  lemma NormalizedScenarioTerms()
    ensures Normalize("ana") == "ana" && Normalize("xyz") == "xyz"
  {
    NormalizedAna();
    NormalizedXyz();
  }

  lemma NormalizedAna()
    ensures Normalize("ana") == "ana"
  {
    NormalizedUnchanged("ana");
  }

  lemma NormalizedXyz()
    ensures Normalize("xyz") == "xyz"
  {
    NormalizedUnchanged("xyz");
  }

  lemma NormalizedUnchanged(s: string)
    requires s != [] && !IsWhitespace(s[0]) && !IsWhitespace(s[|s| - 1])
    requires forall i :: 0 <= i < |s| ==> !IsUpperAscii(s[i])
    ensures Normalize(s) == s
  {
    assert Lower(s) == s;
    TrimOfUnpadded(s);
  }

  lemma VisibleForAna()
    ensures VisibleEntries([Anatomy, Biomechanics], [], false, "ana") == [Anatomy]
  {
    AnatomyHasAna();
    BiomechanicsLacksAna();
    var cs := [Anatomy, Biomechanics];
    assert cs[1..] == [Biomechanics] && cs[1..][1..] == [];
    assert Visible(Anatomy, [], false, "ana");
    assert !Visible(Biomechanics, [], false, "ana");
  }

  lemma FilteredForAna()
    ensures FilteredCategories([Anatomy, Biomechanics], [], false, "ana") == [Anatomy]
    ensures EmptyState([Anatomy, Biomechanics], [], false, "ana") == None
  {
    VisibleForAna();
    FilteredIsVisibleEntries([Anatomy, Biomechanics], [], false, "ana");
  }

  /** Catalog {a: Anatomy, b: Biomechanics}, term "ana": only Anatomy is shown. */
  lemma ScenarioSearchAna()
    ensures Render([Anatomy, Biomechanics], [], false, "ana") == Grid([Anatomy])
  {
    NormalizedScenarioTerms();
    FilteredForAna();
  }

  /** Favorites view with no favorites: the heart message, whatever the term. */
  lemma ScenarioNoFavorites(catalog: seq<Category>, rawTerm: string)
    ensures Render(catalog, [], true, rawTerm) == Empty(NoFavorites)
  {
    NoFavoritesWins(catalog, Normalize(rawTerm));
  }

  lemma EmptyStateForXyz()
    ensures EmptyState([Anatomy, Biomechanics], ["a"], true, "xyz") == Some(NoFavoritesMatching("xyz"))
  {
    AnatomyLacksXyz();
    NoFavoritesMatchingTerm([Anatomy, Biomechanics], ["a"], "xyz");
  }

  /** Favorites ["a"] and term "xyz": "No se encontraron favoritos". */
  lemma ScenarioNoFavoriteMatches()
    ensures Render([Anatomy, Biomechanics], ["a"], true, "xyz") == Empty(NoFavoritesMatching("xyz"))
  {
    NormalizedScenarioTerms();
    EmptyStateForXyz();
  }
}
