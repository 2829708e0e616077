# TyO directory: a verified model of its card, favorites, search, modal and theme logic

The TyO directory is a small front end listing links to collections of
orthopaedics material. It exists in three versions, and this project models
the logic all three share:

- `script.js`: one page script with module-level state.
- `js/*`: manager classes (`SearchManager`, `FavoritesManager`,
  `CardManager`, `ModalManager`, `ThemeManager`) and `sanitizeString`.
- `src/*`: React components and contexts (`CardsGrid`,
  `FavoritesContext`, `SearchContext`) and the same `sanitizeString`.

The shared vocabulary lives in two modules. `Types` holds the catalog entry,
the card, the three empty-state messages and the favorites badge.
`JsBuiltins` holds the JavaScript built-ins the logic relies on:
`toLowerCase`, `trim`, `includes`, `indexOf`, `filter` and `splice`.

Each version is modelled in its own form:

- **Pure code is functions.** The React grid and contexts and
  `sanitizeString` become Dafny functions and lemmas.
- **State-changing code is classes.** The manager classes and the
  single-page script become Dafny classes whose fields are the state the
  source mutates: the favorites list, the cards' display flags and hearts,
  the "no results" block, the badge, the stored copies, the tabs opened and
  the events dispatched.
- **Loops keep their invariants.** Where the source loops over the cards,
  the Dafny method loops too, and its invariants tie the result to a
  specification function.
- **Mutable state machines go through a function.** The modal registry and
  the theme manager keep their state in a datatype. Each operation is a
  function from the old state to the new one, and the properties are proved
  on those functions. The class method is then proved to perform the
  function: `State() == F(old(State()))`.
- **The versions are compared.** Module `Variants` proves where the three
  versions agree and exhibits the inputs on which they differ.

`sanitizeString` is identical in `js/utils.js` and `src/lib/utils.ts`. It is
defined once (`Sanitize.SanitizeString`), so the two agree on every input by
construction.

The platform's side of things enters as parameters, not as models:

- `isValidUrl`, which relies on the WHATWG URL parser, is a parameter
  `string -> bool`.
- The system colour scheme is a boolean parameter.
- The clock reading `Date.now()` is a parameter.
- The element that receives the focus is a parameter.
- The favorites manager, as the search manager sees it, is an
  `Option<FavoritesView>` snapshot.

## Model

| member | source | states |
|---|---|---|
| Types.BadgeFor | js/favorites.js:171-182 | the badge shows a count exactly when the list is not empty, and the count is the list's length |
| Types.ShowingOf | js/search.js:117 | a missing favorites manager reads as favorites view off |
| Types.FavoritesOf | js/search.js:118 | a missing favorites manager reads as an empty favorites list |
| JsBuiltins.Trim | js/search.js:62 | the result is a slice of the input with only ECMAScript white space before and after it, and it neither starts nor ends with white space; that is, the input with its leading and trailing white space removed |
| JsBuiltins.TrimIgnoresPadding | src/components/CardsGrid.tsx:19 | white space around a string does not change its trimmed form |
| JsBuiltins.TrimLowerCommute | src/components/CardsGrid.tsx:19 | lowering then trimming equals trimming then lowering |
| JsBuiltins.LowerIdempotent | js/cards.js:96 | lowering a lowered string changes nothing |
| JsBuiltins.IndexOf | js/favorites.js:227 | the result is -1 exactly when the element is absent; otherwise it is the position of the first occurrence |
| JsBuiltins.RemoveAll | js/favorites.js:61 | `filter(fav => fav !== x)` removes every occurrence of x, keeps every other element with its multiplicity and order, and leaves a list without x unchanged |
| JsBuiltins.RemoveAllNoDuplicates | src/contexts/FavoritesContext.tsx:19 | filtering a duplicate-free list keeps it duplicate-free |
| JsBuiltins.RemoveFirst | js/favorites.js:227-229 | `splice(indexOf(x), 1)` removes exactly one occurrence (the first) when x is present, and changes nothing otherwise |
| JsBuiltins.RemoveFirstNoDuplicates | js/favorites.js:226-235 | on a duplicate-free list, removing the first occurrence removes the key and keeps the list duplicate-free |
| JsBuiltins.CountTrueZero | js/search.js:116-145 | the count of shown cards is zero exactly when no card is shown |
| CardsGrid.VisibleEntries | src/components/CardsGrid.tsx:21-43 | reference filter in one pass: an order-preserving subsequence of the catalog holding exactly the entries that pass the search and favorites tests |
| CardsGrid.Render | src/components/CardsGrid.tsx:19-83 | the grid renders the reference selection for the lowered, trimmed term, and the empty block is rendered only when that selection is empty |
| CardsGrid.FilteredIsVisibleEntries | src/components/CardsGrid.tsx:21-43 | the two-stage `filter` chain (search, then favorites) equals the one-pass reference |
| CardsGrid.FilteredIsOrderedSelection | src/components/CardsGrid.tsx:27-40 | the result is an order-preserving subsequence of the catalog, and an entry is kept iff it matches the term in the lowered key, title or description (or the term is empty) and, in favorites view, its key is a favorite |
| CardsGrid.FavoritesViewShowsOnlyFavorites | src/components/CardsGrid.tsx:38-40 | in favorites view every entry kept is a favorite |
| CardsGrid.EmptyTermShowsCatalog | src/components/CardsGrid.tsx:27-45 | an empty term outside favorites view keeps the whole catalog and shows no empty state |
| CardsGrid.RenderIgnoresCaseAndPadding | src/components/CardsGrid.tsx:19 | raw terms that differ only in letter case or in surrounding white space render the same |
| CardsGrid.EmptyStateShownIff | src/components/CardsGrid.tsx:45-47 | the empty state is shown iff no entry is visible and there is a term or favorites view is on |
| CardsGrid.NoFavoritesWins | src/components/CardsGrid.tsx:50-55 | favorites view with no favorites shows "No tienes favoritos", whatever the term and the catalog |
| CardsGrid.NoFavoritesMatchingTerm | src/components/CardsGrid.tsx:56-61 | favorites view, with favorites and a term no favorite matches, shows "No se encontraron favoritos" with that term |
| CardsGrid.FavoritesOutsideCatalog | src/components/CardsGrid.tsx:62-68 | favorites view with an empty term and no favorite among the catalog keys falls through to "No se encontraron resultados" |
| CardsGrid.SearchOnlyMessage | src/components/CardsGrid.tsx:45-68 | outside favorites view the empty state appears iff the term is non-empty and nothing matches, and its message is then always "No se encontraron resultados" |
| CardsGrid.ScenarioSearchAna | src/components/CardsGrid.tsx:27-35 | the catalog Anatomy/Biomechanics with term "ana" renders only Anatomy |
| CardsGrid.ScenarioNoFavorites | src/components/CardsGrid.tsx:50-55 | favorites view with no favorites renders the heart message for any catalog and term |
| CardsGrid.ScenarioNoFavoriteMatches | src/components/CardsGrid.tsx:56-61 | favorites ["a"] with term "xyz" renders "No se encontraron favoritos" for "xyz" |
| Search.ShownFor | js/search.js:120-143 | card i is shown iff `shouldShow` holds for it |
| Search.ResultsMessage | js/search.js:156-174 | the heart message iff favorites view is on with no favorites; the no-favorite-matches message (carrying the term) iff favorites view is on with favorites and a term; otherwise the generic message |
| Search.ResultsDisplay | js/search.js:152-180 | the block is shown iff no card is visible and there is a term or favorites view is on, and it then carries the prioritised message |
| Search.ClearedDisplay | js/search.js:230-236 | after clearing, the heart message is shown iff favorites view is on with no favorites |
| Search.HistoryAdd | js/search.js:277-282 | an empty or already-present term leaves the history unchanged; otherwise the term is first, the older terms follow as a prefix of the old history, and the length is min(10, old length + 1) |
| Search.HistoryAddNoDuplicates | js/search.js:278-281 | adding never introduces a duplicate term |
| Search.RepeatedTermNotMoved | js/search.js:278 | a term already in the history is not moved to the front |
| Search.HistoryAddIdempotent | js/search.js:277-282 | adding the same term twice gives the same history as adding it once |
| Search.SearchManager.constructor | js/search.js:8-16 | every card is shown, the block is hidden, and the history is the stored one or empty |
| Search.SearchManager.ShowNoResults | js/search.js:182-197 | the block shows the message and the grid is hidden |
| Search.SearchManager.HideNoResults | js/search.js:199-207 | the block is hidden and the grid shown |
| Search.SearchManager.UpdateResultsDisplay | js/search.js:152-180 | the block is visible iff `ResultsDisplay` chooses a message, it then holds that message, and the block and the grid stay mutually exclusive |
| Search.SearchManager.PerformSearch | js/search.js:114-150 | the display flags equal `ShownFor` for the snapshot's view and favorites, and the block follows `ResultsDisplay` for the number of cards shown |
| Search.SearchManager.FilterCards | js/search.js:120-143 | the loop leaves each card's flag equal to `shouldShow` and returns the number of cards shown |
| Search.SearchManager.ClearSearch | js/search.js:209-251 | the input is emptied; in favorites view exactly the favorited cards are shown, otherwise every card; the block shows the heart message iff favorites view is on with no favorites |
| Search.SearchManager.AddToHistory | js/search.js:277-283 | the history becomes `HistoryAdd` of the old one, and the stored copy is written only when the history changed |
| Search.SearchManager.ClearSearchHistory | js/search.js:293-296 | the history is empty and the stored entry removed |
| Search.SearchManager.SearchFor | js/search.js:299-302 | the input shows the raw term, and the cards are filtered by its lowered, trimmed form |
| Search.MissingManagerIsViewOff | js/search.js:117-118 | a missing favorites manager filters as favorites view off, which ignores the favorites list |
| Search.NoneVisibleIff | js/search.js:116-145 | the counter passed on is zero exactly when no card satisfies `shouldShow` |
| Search.FavoritesViewShowsFavorites | js/search.js:130-132 | in favorites view every card shown is a favorite |
| PlainScript.ShownFor | script.js:93-116 | card i is shown iff the script's `shouldShow` holds for it |
| PlainScript.SearchDisplay | script.js:119-142 | the block is shown iff nothing is visible and there is a term or favorites view is on; its message is the heart message iff favorites view is on with no favorites, and otherwise the generic search message |
| PlainScript.Page.constructor | script.js:333-346 | the favorites are the parsed stored list or empty; every card is shown; a card's heart is on iff its category is a favorite; the badge follows the count |
| PlainScript.Page.FilterCards | script.js:91-116 | the loop leaves each card's flag equal to `shouldShow` and returns the number shown |
| PlainScript.Page.HandleSearch | script.js:80-143 | the cards are filtered by the lowered, trimmed input, and the block follows `SearchDisplay` for the number shown |
| PlainScript.Page.ShowSearchOutcome | script.js:118-142 | the block is visible iff `SearchDisplay` chooses a message and then holds it; block and grid stay mutually exclusive |
| PlainScript.Page.ClearSearch | script.js:146-176 | the block is always hidden and the grid shown, even in favorites view with no favorites; exactly the favorited cards (favorites view) or all cards are shown |
| PlainScript.Page.UpdateFavoritesCount | script.js:323-331 | the badge shows the count iff the list is not empty |
| PlainScript.Page.ToggleFavorite | script.js:292-321 | every occurrence of a present key is removed, or an absent key is appended; the list is saved, the badge recounted, and that card's heart follows |
| PlainScript.Page.ToggleFavoritesView | script.js:348-391 | the flag flips; exactly the favorited cards (view on) or all cards (view off) are shown, ignoring the term; the heart message is shown iff the view is on with no favorites |
| PlainScript.Page.HandleCardClick | script.js:179-243 | the link for the lowered category is opened when it is truthy, and a `cardClick` event with title, category and link is dispatched in every case |
| PlainScript.Page.InitTheme | script.js:23-34 | light mode iff "light" is stored; any other stored value means dark, and "dark" is written |
| PlainScript.Page.ToggleTheme | script.js:36-46 | the light-mode class flips and the new theme is stored |
| PlainScript.EmptyTermMatchesAll | script.js:98-101 | without a guard, the empty term still matches every card |
| PlainScript.NoFavoritesMatchingMessage | script.js:119-136 | the script never shows "No se encontraron favoritos" |
| PlainScript.LinkForCapitalisedKey | script.js:225 | the lookup lowers the category, so "AO" finds the link of "ao" |
| PlainScript.NoLinkForEmptyCategory | script.js:225-232 | an empty category finds no link |
| Favorites.Marks | js/favorites.js:184-197 | the corrected hearts: a card's heart is on exactly when its category is a favorite |
| Favorites.MarksAsWritten | js/favorites.js:187-196 | as written, a heart is on after `updateDisplay` iff it was on before or its category is a favorite |
| Favorites.StaleHeartAfterClear | js/favorites.js:237-241 | as written, card "a" keeps its heart after the favorites are cleared, while the corrected hearts turn it off |
| Favorites.ToggleHeartMatchesMarks | js/favorites.js:59-70 | when no two cards share a category, updating only the clicked heart gives the same hearts as marking every card afresh |
| Favorites.ImportedList | js/favorites.js:253 | an import is accepted iff the data is an object whose `favorites` is an array, and the list is then that array |
| Favorites.FavoritesManager.constructor | js/favorites.js:8-26 | the stored list or empty, favorites view off, every card shown, hearts and badge from the list |
| Favorites.FavoritesManager.UpdateFavoritesCount | js/favorites.js:171-182 | the badge follows the list's length and nothing else changes |
| Favorites.FavoritesManager.UpdateDisplay | js/favorites.js:184-197 | the badge follows the length and every heart is set from the list (corrected behaviour); nothing else changes |
| Favorites.FavoritesManager.ToggleFavorite | js/favorites.js:53-87 | every occurrence of a present key is removed, or an absent key is appended; the list is saved, the badge recounted and only the clicked heart changes |
| Favorites.FavoritesManager.AddFavorite | js/favorites.js:216-224 | true iff the key was absent, and then it is appended and saved, and every heart is set from the list (corrected: as written, `updateDisplay` only turns hearts on); otherwise nothing changes |
| Favorites.FavoritesManager.RemoveFavorite | js/favorites.js:226-235 | true iff the key was present, and then only its first occurrence is removed, the list saved, and every heart set from the list (corrected: as written, the removed key's heart stays on); otherwise nothing changes |
| Favorites.FavoritesManager.ClearFavorites | js/favorites.js:237-241 | an empty list, saved, with the badge hidden and no heart on (corrected: as written, every heart that was on stays on) |
| Favorites.FavoritesManager.ImportFavorites | js/favorites.js:251-264 | true iff `data.favorites` is an array, and then the list is replaced by it wholesale, saved, and every heart set from it (corrected: as written, hearts of keys no longer listed stay on); otherwise nothing changes |
| Favorites.FavoritesManager.GetFavorites | js/favorites.js:204-206 | a freshly allocated array holding the list, so writing to it cannot change the manager |
| Favorites.FavoritesManager.IsFavorite | js/favorites.js:208-210 | true iff the category is in the list |
| Favorites.FavoritesManager.ToggleFavoritesView | js/favorites.js:89-132 | the flag flips; view on shows exactly the favorited cards, with the heart message when there are none; view off shows every card and hides the block |
| Favorites.RemoveOnlyFirst | js/favorites.js:226-229 | a key present twice is still a favorite after one removal |
| Favorites.RemoveFromDistinct | js/favorites.js:226-229 | on a duplicate-free list, one removal removes the key |
| Favorites.ImportKeepsDuplicates | js/favorites.js:251-259 | an imported array is kept as given, duplicates included; a non-array or a non-object is refused |
| FavoritesContext.Add | src/contexts/FavoritesContext.tsx:12-16 | the key becomes a favorite; the list is unchanged iff the key was present, otherwise the key is appended; no other key's membership changes; a duplicate-free list stays duplicate-free |
| FavoritesContext.Remove | src/contexts/FavoritesContext.tsx:18-20 | every occurrence goes, the others keep their order and multiplicity, and no other key's membership changes |
| FavoritesContext.Toggle | src/contexts/FavoritesContext.tsx:26-32 | the key's membership is negated, every other key's is kept, and duplicate-freedom is kept |
| FavoritesContext.Clear | src/contexts/FavoritesContext.tsx:34-36 | no key is a favorite afterwards |
| FavoritesContext.ToggleTwiceAbsent | src/contexts/FavoritesContext.tsx:26-32 | toggling an absent key twice restores the exact list |
| FavoritesContext.ToggleTwicePresent | src/contexts/FavoritesContext.tsx:26-32 | toggling a present key twice keeps the same keys, with that key moved to the end |
| FavoritesContext.ToggleTwicePresentMultiset | src/contexts/FavoritesContext.tsx:26-32 | on a duplicate-free list, toggling a present key twice keeps the same multiset |
| SearchContext.DropTerm | src/contexts/SearchContext.tsx:22 | the filter drops exactly the items with that term and keeps the rest in order |
| SearchContext.DropTermFacts | src/contexts/SearchContext.tsx:22 | after the filter the term is absent, and distinct terms stay distinct |
| SearchContext.PrependCapped | src/contexts/SearchContext.tsx:25 | the new item is first, the rest is a prefix of the old list, and the length is min(10, old length + 1) |
| SearchContext.AddToHistory | src/contexts/SearchContext.tsx:13-27 | a blank term leaves the history unchanged; otherwise the first item has the trimmed term and the given timestamp, followed by the first min(9, n) items of the filtered history, where n is its length; the term occurs nowhere else, and distinct terms stay distinct |
| SearchContext.ClearHistory | src/contexts/SearchContext.tsx:29-31 | the history is empty |
| SearchContext.RepeatedTermMovesToFront | src/contexts/SearchContext.tsx:21-25 | a term searched before moves to the front and is not repeated further down |
| SearchContext.AddTwice | src/contexts/SearchContext.tsx:13-27 | adding the same term twice leaves one entry for it, in front, with the later timestamp, and the rest as after the first call |
| SearchContext.DropTermAbsent | src/contexts/SearchContext.tsx:22 | filtering out a term that is absent changes nothing |
| Sanitize.Dashify | js/utils.js:56 | every character outside a-z0-9 becomes `-` and every other one is kept; the length is unchanged |
| Sanitize.Collapse | js/utils.js:56 | no two hyphens remain in a row; only hyphens are dropped; the first and last characters are kept |
| Sanitize.CollapseMergesHyphenPairs | js/utils.js:56 | `/-+/g` to `-`: removing one hyphen of a pair never changes the result, so each run of hyphens counts as one hyphen |
| Sanitize.CleanCollapse | js/utils.js:56 | a string without two hyphens in a row is left as it is; with CollapseMergesHyphenPairs, every run becomes exactly one hyphen and nothing else changes |
| Sanitize.StripEnds | js/utils.js:56 | one edge hyphen removed at each end: the input with one leading hyphen removed if it has one, then one trailing hyphen if one is left; on a string without double hyphens, the result has no edge hyphen |
| Sanitize.SanitizeString | js/utils.js:55-57 | the output is the lowered input's maximal runs of a-z0-9 joined by single hyphens; so it holds only a-z, 0-9 and `-`, has no `--` and no edge hyphen, and keeps the lowered input's letters and digits in order |
| Sanitize.Words | js/utils.js:56 | the reference's words: each is a non-empty run of a-z0-9, and a string starting with a letter or digit has a first word starting with it |
| Sanitize.SanitizeIdempotent | js/utils.js:56 | sanitizing twice is the same as sanitizing once |
| Sanitize.SanitizeFixesCleanStrings | src/lib/utils.ts:59-61 | a string is left unchanged exactly when it is already clean: slug characters, no `--`, no edge hyphen |
| Sanitize.NoAlnumGivesEmpty | js/utils.js:56 | an input with no ASCII letter or digit gives "" |
| Sanitize.ScenarioSanitize | src/lib/utils.ts:60 | " A, B!" gives "a-b" |
| Cards.JsRemainder | js/cards.js:248 | JavaScript's `%` for a positive divisor: the Euclidean remainder for a non-negative dividend; for a negative one, the value in (-n, 0] that differs from the dividend by a multiple of n |
| Cards.FocusCard | js/cards.js:231-264 | any card focused is a visible card; with no focused card, the first visible card is focused if there is one |
| Cards.Wraps | js/cards.js:247-252 | `next` from i targets i+1, and the last card wraps to 0; `previous` targets i-1, and the first card wraps to n-1 |
| Cards.StepsUndo | js/cards.js:247-252 | for 0 <= i < n, `previous` after `next` returns to i, and so does `next` after `previous` |
| Cards.FixedTargets | js/cards.js:253-260 | `first` targets 0, `last` targets n-1, and any other direction does nothing |
| Cards.HiddenFocus | js/cards.js:242-263 | a focused card that is not visible has index -1, so `next` focuses the first visible card and `previous` (index -2) focuses nothing |
| Cards.FocusRoundTrip | js/cards.js:241-263 | among distinct visible cards, `next` then `previous` (and `previous` then `next`) gives the focus back to the card that had it |
| Cards.NavigationFor | js/cards.js:94-135 | navigation happens iff the lowered key is configured, its url is non-empty and the url is valid, and then with the configured url and title; each earlier guard is identified exactly |
| Cards.NavigationIgnoresCase | js/cards.js:96 | the category's letter case does not change the outcome |
| Cards.CardManager.constructor | js/cards.js:8-11 | the configuration and the cards, with no tab opened and no event dispatched |
| Cards.CardManager.NavigateToCategory | js/cards.js:94-135 | the url is opened and a `cardNavigation` event dispatched together, exactly when all three guards pass; otherwise neither happens |
| Cards.CardManager.HandleCardClick | js/cards.js:58-78 | a card with a missing or empty category navigates nowhere; any other card navigates as `navigateToCategory` does |
| Cards.CardManager.HandleCardKeydown | js/cards.js:80-85 | any key but Enter and Space does nothing; Enter and Space act as a click |
| Cards.CardManager.RemoveCard | js/cards.js:207-228 | true iff a card with that category existed, and then exactly one card (the first) is removed; otherwise the cards are unchanged |
| Modal.AtMostOneOpen | js/modal.js:115-126 | under the invariant (every open modal is the active one), no two distinct modals are open |
| Modal.InitialValid | js/modal.js:8-38 | the manager starts with the invariant, no active modal and nothing open |
| Modal.RegisterValid | js/modal.js:54-67 | registering keeps the invariant; without a modal element nothing is registered, otherwise the id is registered and not open |
| Modal.CloseCases | js/modal.js:141-174 | closing keeps the invariant; an unknown id changes nothing; otherwise the modal is closed, the active id is cleared iff it was this one, the saved focus is restored and forgotten, and `modal:closed` is dispatched |
| Modal.FocusRestoredOnce | js/modal.js:161-164 | the saved focus is restored by one close only; a second close leaves the focus alone |
| Modal.OpenCases | js/modal.js:104-139 | opening keeps the invariant; an unknown id changes nothing; otherwise the id ends up the only open modal and the active one, after the previously active modal was closed, and the events are exactly that close then `modal:opened`; the focus saved is the element focused after that close restored its own saved focus, and the focus moves to the first focusable element if there is one |
| Modal.OpenThenClose | js/modal.js:119-164 | closing a modal just opened gives the focus back to the element focused when it opened |
| Modal.CloseActiveCases | js/modal.js:176-187 | closing the active modal leaves no modal open and none active; Escape does this and any other key does nothing |
| Modal.ToggleCases | js/modal.js:203-212 | toggling keeps the invariant, flips a registered modal's open flag, and ignores an unknown id |
| Modal.EmptyIdNeverClosed | js/modal.js:115-117 | as written, with the modal "" open and active, opening "b" leaves two modals open and `closeActiveModal` misses "", while the corrected `Open` closes it |
| Modal.ModalManager.constructor | js/modal.js:8-38 | the initial state, registering "promo" when its elements exist, and the invariant holds |
| Modal.ModalManager.RegisterModal | js/modal.js:54-102 | the registry becomes `Register` of the old state |
| Modal.ModalManager.CloseModal | js/modal.js:141-174 | the state becomes `Close` of the old state |
| Modal.ModalManager.OpenModal | js/modal.js:104-139 | the state becomes the corrected `Open` of the old state (as written, an active modal with the id "" is not closed) |
| Modal.ModalManager.CloseActiveModal | js/modal.js:176-180 | the state becomes the corrected `CloseActive` of the old state (as written, an active modal with the id "" is not closed) |
| Modal.ModalManager.HandleGlobalKeydown | js/modal.js:182-187 | the state becomes `Keydown` of the old state, with the corrected test `activeModal !== null` (as written, `&& this.activeModal` is false for the id "") |
| Modal.ModalManager.ToggleModal | js/modal.js:203-212 | the state becomes `Toggle` of the old state |
| Theme.SetThemeCases | js/theme.js:58-76 | an invalid theme changes nothing, the stored value included; a valid one becomes current and stored, is applied to the body, and is announced once |
| Theme.ToggleTarget | js/theme.js:49-56 | "light" toggles to "dark" and anything else to "light"; the result is applied and stored |
| Theme.ToggleTwice | js/theme.js:49-56 | toggling twice restores the current theme iff it is "light" or "dark" |
| Theme.ModesExclusive | js/theme.js:134-140 | dark and light mode are never both reported; neither is reported iff the current value is invalid |
| Theme.InitialModes | js/theme.js:8-24 | the initial theme is invalid only when an invalid value is stored; with the toggle present, the body class matches the theme |
| Theme.OperationsApply | js/theme.js:78-85 | every operation keeps the body class in agreement with the current theme |
| Theme.SystemChangeCases | js/theme.js:119-127 | a system change is ignored once a preference is stored; without one it becomes current, and no preference is stored (corrected) |
| Theme.FollowsSystem | js/theme.js:119-127 | without a stored preference, the theme follows every system change in a run, not only the first (corrected) |
| Theme.AsWrittenIgnoresSecondChange | js/theme.js:119-127 | as written, the first system change stores itself as the preference, so a second, opposite change is ignored |
| Theme.ResetCases | js/theme.js:146-150 | resetting ends at the system theme with no stored preference, so the next system change applies |
| Theme.ThemeManager.constructor | js/theme.js:8-24 | the loaded theme (default "dark"), applied only when the toggle exists |
| Theme.ThemeManager.SetTheme | js/theme.js:58-76 | the state becomes `SetThemeOn` of the old state |
| Theme.ThemeManager.ToggleTheme | js/theme.js:49-56 | the state becomes `Toggled` of the old state |
| Theme.ThemeManager.SaveTheme | js/theme.js:115-117 | only the stored value changes |
| Theme.ThemeManager.HandleSystemThemeChange | js/theme.js:119-127 | the state becomes the corrected `SystemChange` of the old state |
| Theme.ThemeManager.ResetToSystemTheme | js/theme.js:146-150 | the state becomes `ResetToSystem` of the old state |
| Variants.ScriptMatchesLikeManager | script.js:98-101 | the script's unguarded match equals the manager's guarded one |
| Variants.ScriptShowsLikeManager | script.js:93-116 | the script and the manager show the same cards for the same term, view and favorites |
| Variants.GridShowsLikeManager | src/components/CardsGrid.tsx:27-40 | for an entry whose key is lower case, the grid and the manager decide visibility alike |
| Variants.KeyCaseSeparatesGridAndManager | src/components/CardsGrid.tsx:30 | key "AO" with term "ao" is matched by the grid, which lowers the key, but not by the manager |
| Variants.GridMessageLikeManager | src/components/CardsGrid.tsx:50-68 | the grid and the manager choose the same message |
| Variants.ScriptMessageMergesFavoritesMatching | script.js:119-136 | the script shows the block exactly when the manager does, and uses the generic message where the manager says no favorite matches |
| Variants.HistoriesAgreeOnNewTerms | src/contexts/SearchContext.tsx:13-27 | for a new, already trimmed term, the React history holds the same terms as the manager's |
| Variants.HistoriesDifferOnRepeats | src/contexts/SearchContext.tsx:22-25 | a repeated term moves to the front of the React history but stays in place in the manager's |

## Left out

- DOM presentation is not modelled: animations, `animationDelay`, the `fade-in` class, `innerHTML`, ARIA attributes, titles and colours of the buttons, the toggle button's label, the meta `theme-color` and the body's `overflow`.
- The search box's expand and collapse, and the focus moves of `clearSearch`, Escape and ArrowDown, are not modelled; they are presentation.
- Timers are not modelled. `debounce` and the React `useDebounce` are left out, and the term is taken as already debounced. The click animations' `setTimeout` is left out.
- `storage` and `useLocalStorage` are not modelled; a stored copy is a field that each mutation writes. Storage and JSON failures are not modelled. Stored values of the wrong JSON type are not modelled either, for example a `favorites` entry that is not an array of strings.
- `isValidUrl` is a parameter, because it relies on the platform's URL parser.
- `Object.entries` order is taken to be the catalog's sequence order.
- A lookup key such as `__proto__` or `constructor` would hit the object prototype in `cardLinks` and `linksConfig.categories`; this is not modelled, and both maps are plain finite maps.
- JsBuiltins.Lower: lowers ASCII letters only. Full Unicode `toLowerCase` is out of scope, so claims about accented letters (such as the `cardLinks` keys "anatomía" and "últimos agregados") and about `sanitizeString` on non-ASCII input are not covered.
- PlainScript.Page.HandleCardClick: opens the link when it is a non-empty string. That every `cardLinks` entry is non-empty is not proved, because the proof over the long literal URLs costs too much.
- Cards always have a title, a description and a `data-category` attribute in the model. What the source does without them is not modelled:
  - `js/search.js` (lines 122-123) reads a missing title or description as "" through `?.` and `|| ''`, and the search goes on.
  - `script.js` (lines 95-96) throws on `.textContent` of a missing title or description.
  - A card without `data-category` makes `js/search.js` throw at `category.includes` (line 125), but only for a non-empty term. The throw is caught outside the `forEach`, so the cards before it are already updated and the results block is not.
- The cross-manager refresh is not modelled: the favorites manager calling `searchManager.refresh()` and the card manager refreshing the other managers. The search manager reads the favorites manager through a snapshot parameter.
- `refresh`, `getSearchHistory`, `loadSearchHistory`, `exportFavorites`, `createCard`, `addCard`, `getCards`, `getVisibleCards` and `getCardByCategory` are not modelled. They re-query the DOM, build elements or return a field.
- Favorites.FavoritesManager.ImportFavorites: the manager's list is modelled as a value, so the aliasing of `this.favorites = data.favorites` (later changes to the caller's array change the manager) is not captured.
- Cards.CardManager.RemoveCard: models `querySelector('[data-category="…"]')` as an exact match on the category. Selector syntax for keys containing quotes is not modelled.
- `trapFocus` is modelled only as the focus moving to the modal's first focusable element, a parameter. The Tab-key cycling it installs is DOM behaviour.
- Modal elements, triggers and close buttons are not modelled, nor the listeners `registerModal` binds; a modal entry is its `isOpen` flag.
- `handleError` and `console` warnings are not modelled; a caught error is modelled as the state before the throw.
- The theme manager's `init` with no toggle button throws before binding its listeners. The model keeps the loaded theme without applying it, and does not model the missing listeners.
- The keyboard shortcut Ctrl/Cmd+Shift+T of the theme manager is not modelled; it calls `toggleTheme`.
- The card manager's `init`, `bindElements` and `setupAccessibility` are not modelled. These DOM setup steps are left out.
- `sw.js`, `js/app.js`, the React shells and `ThemeContext.tsx` are not part of this model.

## Findings

| source | as written | input that shows it | evidently intended | confidence | as-written member | corrected member |
|---|---|---|---|---|---|---|
| js/favorites.js:184-197 | `updateDisplay` adds `favorited` to the hearts of favorites but never removes it from the others | favorites ["a"] with the heart of card "a" on, then `clearFavorites()`: the heart stays on over an empty list (the same after `removeFavorite` or `importFavorites`) | every heart shows whether its category is a favorite | medium, not executed | Favorites.MarksAsWritten, Favorites.StaleHeartAfterClear | Favorites.Marks, Favorites.FavoritesManager.UpdateDisplay, Favorites.FavoritesManager.AddFavorite, Favorites.FavoritesManager.RemoveFavorite, Favorites.FavoritesManager.ClearFavorites, Favorites.FavoritesManager.ImportFavorites |
| js/theme.js:119-127 | with no stored preference, the system theme is applied through `setTheme`, which saves it as a preference | no stored theme; the system turns light, then dark: the first change stores "light", so the second is ignored | follow the system for as long as the user has set no preference, as the comment at line 120 says | medium, not executed | Theme.SystemChangeAsWritten, Theme.AsWrittenIgnoresSecondChange | Theme.SystemChange, Theme.FollowsSystem |
| js/modal.js:115-117 | `if (this.activeModal)` tests truthiness, so an active modal registered under the empty id "" is not closed; `closeActiveModal` (lines 177-179) and Escape (line 183) test the same way | modals "" (open, active) and "b": `openModal("b")` leaves both open | close the active modal whatever its id (`!== null`, as `hasActiveModal` tests) | low, not executed | Modal.OpenAsWritten, Modal.EmptyIdNeverClosed | Modal.Open, Modal.OpenCases, Modal.ModalManager.OpenModal, Modal.ModalManager.CloseActiveModal, Modal.ModalManager.HandleGlobalKeydown |
