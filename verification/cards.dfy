/** The card manager of js/cards.js: keyboard focus movement over the
    visible cards, the guard chain before a card's link is opened, the
    missing-category guard of a click, and removing a card. `isValidUrl`
    (which relies on the platform's URL parser) is a parameter. */
module Cards {
  import opened JsBuiltins

  datatype Direction = Next | Previous | First | Last | Other

  /** JavaScript's `%` for a positive divisor: the remainder takes the sign
      of the dividend. */
  function JsRemainder(a: int, n: nat): (r: int)
    requires n > 0
    ensures a >= 0 ==> 0 <= r < n && r == a % n
    ensures a < 0 ==> r <= 0 && r + n > 0 && (a - r) % n == 0
  {
    if a >= 0 then a % n else
      var m := (-a) % n;
      var q := (-a) / n;
      assert a + m == -(n * q);
      MultipleHasNoRemainder(n, q);
      -m
  }

  lemma MultipleHasNoRemainder(n: nat, q: int)
    requires n > 0
    ensures (-(n * q)) % n == 0
  {
    var k := -q;
    var a := n * k;
    assert a == -(n * q);
    var d := a / n;
    var m := a % n;
    assert n * (k - d) == m by {
      assert a == n * d + m;
      assert n * (k - d) == n * k - n * d;
    }
    assert k == d by {
      if k - d >= 1 {
        assert false;
      } else if k - d <= -1 {
        assert false;
      }
    }
  }

  /** `nextIndex` in `focusCard(direction)`, for the focused card at
      `currentIndex` among `count` visible cards. None when the `default`
      branch returns, or when `% 0` gives NaN. */
  function TargetIndex(direction: Direction, currentIndex: int, count: nat): Option<int> {
    match direction
    case Next => if count == 0 then None else Some(JsRemainder(currentIndex + 1, count))
    case Previous => Some(if currentIndex == 0 then count - 1 else currentIndex - 1)
    case First => Some(0)
    case Last => Some(count - 1)
    case Other => None
  }

  /** `focusCard(direction)`: the card that receives the focus, or None when
      the focus stays. `focused` is the active element when it is a card;
      with no such element the first visible card is focused;
      `visibleCards[nextIndex]?.focus()` focuses nothing when the index
      addresses no card. */
  function FocusCard<T(==)>(direction: Direction, focused: Option<T>, visible: seq<T>): (r: Option<T>)
    ensures r.Some? ==> r.value in visible
    ensures focused.None? ==> (r.Some? <==> visible != []) && (r.Some? ==> r.value == visible[0])
  {
    if focused.None? then
      if visible == [] then None else Some(visible[0])
    else
      var t := TargetIndex(direction, IndexOf(visible, focused.value), |visible|);
      if t.Some? && 0 <= t.value < |visible| then Some(visible[t.value]) else None
  }

  // ---------------------------------------------------------------------
  // Properties of the focus movement

  /** `next` steps forward and the last card wraps to the first; `previous`
      steps back and the first wraps to the last. */
  lemma Wraps(i: int, n: nat)
    requires 0 <= i < n
    ensures TargetIndex(Next, i, n) == Some(if i == n - 1 then 0 else i + 1)
    ensures TargetIndex(Previous, i, n) == Some(if i == 0 then n - 1 else i - 1)
  {
    if i == n - 1 {
      assert (i + 1) % n == 0;
    } else {
      assert (i + 1) % n == i + 1;
    }
  }

  /** `previous` undoes `next`, and `next` undoes `previous`. */
  lemma StepsUndo(i: int, n: nat)
    requires 0 <= i < n
    ensures TargetIndex(Previous, TargetIndex(Next, i, n).value, n) == Some(i)
    ensures TargetIndex(Next, TargetIndex(Previous, i, n).value, n) == Some(i)
  {
    Wraps(i, n);
    var j := TargetIndex(Next, i, n).value;
    Wraps(j, n);
    var k := TargetIndex(Previous, i, n).value;
    Wraps(k, n);
  }

  /** `first` and `last` ignore the position; other directions do nothing. */
  lemma FixedTargets(i: int, n: nat)
    ensures TargetIndex(First, i, n) == Some(0) && TargetIndex(Last, i, n) == Some(n - 1)
    ensures TargetIndex(Other, i, n) == None
  {
  }

  /** A focused card that is not visible has index -1: `next` goes to the
      first visible card and `previous` to index -2, which focuses nothing. */
  lemma HiddenFocus<T>(x: T, visible: seq<T>)
    requires x !in visible
    ensures FocusCard(Next, Some(x), visible) == (if visible == [] then None else Some(visible[0]))
    ensures FocusCard(Previous, Some(x), visible) == None
  {
  }

  /** In a list of distinct cards, a card's `indexOf` is its position. */
  lemma {:induction false} IndexOfDistinct<T>(s: seq<T>, j: nat)
    requires NoDuplicates(s) && j < |s|
    ensures IndexOf(s, s[j]) == j
  {
  }

  /** Among distinct visible cards, `next` then `previous` gives the focus
      back to the card that had it, and so does `previous` then `next`. */
  lemma FocusRoundTrip<T>(visible: seq<T>, j: nat)
    requires NoDuplicates(visible) && j < |visible|
    ensures var forward := FocusCard(Next, Some(visible[j]), visible);
      forward.Some? && FocusCard(Previous, forward, visible) == Some(visible[j])
    ensures var back := FocusCard(Previous, Some(visible[j]), visible);
      back.Some? && FocusCard(Next, back, visible) == Some(visible[j])
  {
    var n := |visible|;
    IndexOfDistinct(visible, j);
    StepsUndo(j, n);
    Wraps(j, n);
    var f := TargetIndex(Next, j, n).value;
    var b := TargetIndex(Previous, j, n).value;
    IndexOfDistinct(visible, f);
    IndexOfDistinct(visible, b);
  }

  // ---------------------------------------------------------------------
  // Navigation

  /** An entry of `linksConfig.categories`. */
  datatype CategoryData = CategoryData(url: string, title: string)

  /** How `navigateToCategory` ends: one of the three early returns, or the
      link opened. */
  datatype Navigation = NoConfig | NoUrl | InvalidUrl | Navigated(url: string, title: string)

  /** The `cardNavigation` event's detail (the element is left out). */
  datatype NavigationEvent = NavigationEvent(category: string, url: string, title: string)

  /** The guard chain of `navigateToCategory(category)`: configuration for
      the lowercased key, then a non-empty url, then a valid url. */
  function NavigationFor(config: map<string, CategoryData>, category: string, isValidUrl: string -> bool): (r: Navigation)
    ensures r.Navigated? <==>
      Lower(category) in config && config[Lower(category)].url != "" && isValidUrl(config[Lower(category)].url)
    ensures r.Navigated? ==> r == Navigated(config[Lower(category)].url, config[Lower(category)].title)
    ensures r == NoConfig <==> Lower(category) !in config
    ensures r == NoUrl <==> Lower(category) in config && config[Lower(category)].url == ""
  {
    var key := Lower(category);
    if key !in config then NoConfig
    else
      var data := config[key];
      if data.url == "" then NoUrl
      else if !isValidUrl(data.url) then InvalidUrl
      else Navigated(data.url, data.title)
  }

  /** The lookup ignores ASCII case. */
  lemma NavigationIgnoresCase(config: map<string, CategoryData>, category: string, isValidUrl: string -> bool)
    ensures NavigationFor(config, Lower(category), isValidUrl) == NavigationFor(config, category, isValidUrl)
  {
    LowerIdempotent(category);
  }

  class CardManager {
    /** `linksConfig.categories`. */
    var config: map<string, CategoryData>
    /** The `data-category` attribute of each card, in document order. */
    var cards: seq<Option<string>>
    /** The urls opened in a new tab, in order. */
    var tabsOpened: seq<string>
    /** The `cardNavigation` events dispatched, in order. */
    var navigations: seq<NavigationEvent>

    constructor (linksConfig: map<string, CategoryData>, pageCards: seq<Option<string>>)
      ensures config == linksConfig && cards == pageCards && tabsOpened == [] && navigations == []
    {
      config := linksConfig;
      cards := pageCards;
      tabsOpened := [];
      navigations := [];
    }

    /** `navigateToCategory(category)`: both effects, or neither. */
    method NavigateToCategory(category: string, isValidUrl: string -> bool)
      modifies this`tabsOpened, this`navigations
      ensures var n := NavigationFor(config, category, isValidUrl);
        && tabsOpened == old(tabsOpened) + (if n.Navigated? then [n.url] else [])
        && navigations == old(navigations) + (if n.Navigated? then [NavigationEvent(category, n.url, n.title)] else [])
    {
      var key := Lower(category);
      if key !in config {
        return;
      }
      var categoryData := config[key];
      var url := categoryData.url;
      if url == "" {
        return;
      }
      if !isValidUrl(url) {
        return;
      }
      tabsOpened := tabsOpened + [url];
      navigations := navigations + [NavigationEvent(category, url, categoryData.title)];
    }

    /** `handleCardClick` on card `i`: a card without a category (missing or
        empty attribute) throws before navigating. */
    method HandleCardClick(i: nat, isValidUrl: string -> bool)
      requires i < |cards|
      modifies this`tabsOpened, this`navigations
      ensures cards[i].None? || cards[i].value == "" ==> tabsOpened == old(tabsOpened) && navigations == old(navigations)
      ensures cards[i].Some? && cards[i].value != "" ==>
        var n := NavigationFor(config, cards[i].value, isValidUrl);
        && tabsOpened == old(tabsOpened) + (if n.Navigated? then [n.url] else [])
        && navigations == old(navigations) + (if n.Navigated? then [NavigationEvent(cards[i].value, n.url, n.title)] else [])
    {
      var category := cards[i];
      if category.None? || category.value == "" {
        return;
      }
      NavigateToCategory(category.value, isValidUrl);
    }

    /** `handleCardKeydown`: Enter and Space act as a click. */
    method HandleCardKeydown(key: string, i: nat, isValidUrl: string -> bool)
      requires i < |cards|
      modifies this`tabsOpened, this`navigations
      ensures key != "Enter" && key != " " ==> tabsOpened == old(tabsOpened) && navigations == old(navigations)
      ensures (key == "Enter" || key == " ") && cards[i].Some? && cards[i].value != "" ==>
        var n := NavigationFor(config, cards[i].value, isValidUrl);
        && tabsOpened == old(tabsOpened) + (if n.Navigated? then [n.url] else [])
        && navigations == old(navigations) + (if n.Navigated? then [NavigationEvent(cards[i].value, n.url, n.title)] else [])
      ensures (key == "Enter" || key == " ") && (cards[i].None? || cards[i].value == "") ==>
        tabsOpened == old(tabsOpened) && navigations == old(navigations)
    {
      if key == "Enter" || key == " " {
        HandleCardClick(i, isValidUrl);
      }
    }

    /** `removeCard(categoryKey)`: the first card with that category goes. */
    method RemoveCard(categoryKey: string) returns (removed: bool)
      modifies this`cards
      ensures removed <==> Some(categoryKey) in old(cards)
      ensures cards == RemoveFirst(old(cards), Some(categoryKey))
      ensures removed ==> |cards| == |old(cards)| - 1
      ensures removed ==> multiset(cards) == multiset(old(cards)) - multiset{Some(categoryKey)}
      ensures !removed ==> cards == old(cards)
    {
      if Some(categoryKey) in cards {
        cards := RemoveFirst(cards, Some(categoryKey));
        removed := true;
      } else {
        removed := false;
      }
    }
  }
}
