/** The React favorites provider (src/contexts/FavoritesContext.tsx): each
    operation builds the next list from the current one and hands it to the
    persisted setter, so each is a list-to-list function here. */
module FavoritesContext {
  import opened JsBuiltins

  /** `isFavorite`: `favorites.includes(category)`. */
  predicate IsFavorite(favorites: seq<string>, category: string) {
    category in favorites
  }

  /** `addFavorite`: append an absent key at the end; a present key leaves
      the list as it is. */
  function Add(favorites: seq<string>, category: string): (r: seq<string>)
    ensures IsFavorite(r, category)
    ensures favorites <= r && |r| <= |favorites| + 1
    ensures IsFavorite(favorites, category) <==> r == favorites
    ensures forall k :: k != category ==> (IsFavorite(r, k) <==> IsFavorite(favorites, k))
    ensures NoDuplicates(favorites) ==> NoDuplicates(r)
  {
    if !IsFavorite(favorites, category) then favorites + [category] else favorites
  }

  /** `removeFavorite`: keep every other key, in order. */
  function Remove(favorites: seq<string>, category: string): (r: seq<string>)
    ensures !IsFavorite(r, category)
    ensures IsSubsequence(r, favorites)
    ensures forall k :: k != category ==> (IsFavorite(r, k) <==> IsFavorite(favorites, k))
    ensures multiset(r) == multiset(favorites)[category := 0]
    ensures NoDuplicates(favorites) ==> NoDuplicates(r)
  {
    if NoDuplicates(favorites) then
      RemoveAllNoDuplicates(favorites, category);
      RemoveAll(favorites, category)
    else
      RemoveAll(favorites, category)
  }

  /** `toggleFavorite`: remove a favorite, add anything else. */
  function Toggle(favorites: seq<string>, category: string): (r: seq<string>)
    ensures IsFavorite(r, category) <==> !IsFavorite(favorites, category)
    ensures forall k :: k != category ==> (IsFavorite(r, k) <==> IsFavorite(favorites, k))
    ensures NoDuplicates(favorites) ==> NoDuplicates(r)
  {
    if IsFavorite(favorites, category) then Remove(favorites, category) else Add(favorites, category)
  }

  /** `clearFavorites`. */
  function Clear(favorites: seq<string>): (r: seq<string>)
    ensures forall k :: !IsFavorite(r, k)
  {
    []
  }

  /** Toggling an absent key twice gives back the very same list. */
  lemma ToggleTwiceAbsent(favorites: seq<string>, category: string)
    requires !IsFavorite(favorites, category)
    ensures Toggle(Toggle(favorites, category), category) == favorites
  {
    RemoveAllAppend(favorites, [category], category);
    assert RemoveAll([category], category) == [];
  }

  /** Toggling a present key twice gives back the same keys, with that key
      moved to the end (and its duplicates merged into one). */
  lemma ToggleTwicePresent(favorites: seq<string>, category: string)
    requires IsFavorite(favorites, category)
    ensures Toggle(Toggle(favorites, category), category) == Remove(favorites, category) + [category]
    ensures forall k :: IsFavorite(Toggle(Toggle(favorites, category), category), k) <==> IsFavorite(favorites, k)
  {
  }

  /** On a duplicate-free list a present key toggled twice keeps the same
      multiset of keys. */
  lemma ToggleTwicePresentMultiset(favorites: seq<string>, category: string)
    requires IsFavorite(favorites, category) && NoDuplicates(favorites)
    ensures multiset(Toggle(Toggle(favorites, category), category)) == multiset(favorites)
  {
    var i := IndexOf(favorites, category);
    assert favorites == favorites[..i] + [category] + favorites[i + 1..];
    assert category !in favorites[..i] + favorites[i + 1..];
    assert multiset(favorites)[category] == 1 by {
      assert multiset(favorites) == multiset(favorites[..i]) + multiset{category} + multiset(favorites[i + 1..]);
    }
  }
}
