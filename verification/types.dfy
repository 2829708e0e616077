/** The directory's shared vocabulary: catalog entries, the cards that show
    them, the empty-state messages and the favorites badge. */
module Types {
  import opened JsBuiltins

  /** One entry of `linksConfig.categories`: its key and the fields of its
      record (icon and colour are presentation only and are not kept). */
  datatype Category = Category(key: string, title: string, description: string, url: string)

  /** What the vanilla versions read off a card element: its `data-category`
      attribute and the text of its title and description. */
  datatype Card = Card(category: string, title: string, description: string)

  function CardOf(c: Category): Card {
    Card(c.key, c.title, c.description)
  }

  /** The three contents of the "no results" block. */
  datatype Message =
    | NoFavorites                      // heart icon: the favorites list is empty
    | NoFavoritesMatching(term: string) // no favorite matches the search term
    | NoResults                        // nothing matches the search term

  function Icon(m: Message): string {
    if m.NoFavorites? then "fas fa-heart" else "fas fa-search"
  }

  function Title(m: Message): string {
    match m
    case NoFavorites => "No tienes favoritos"
    case NoFavoritesMatching(_) => "No se encontraron favoritos"
    case NoResults => "No se encontraron resultados"
  }

  function Description(m: Message): string {
    match m
    case NoFavorites => "Agrega categorías a favoritos haciendo clic en el corazón"
    case NoFavoritesMatching(t) => "No hay favoritos que coincidan con \"" + t + "\""
    case NoResults => "Intenta con otro término de búsqueda"
  }

  /** The favorites counter in the header. */
  datatype Badge = Hidden | Shown(count: nat)

  /** The badge shows the count exactly when the list is not empty. */
  function BadgeFor(length: nat): (b: Badge)
    ensures b.Shown? <==> length > 0
    ensures b.Shown? ==> b.count == length
  {
    if length > 0 then Shown(length) else Hidden
  }

  /** What the search manager reads from `window.favoritesManager`: whether
      favorites view is on and a copy of the list. */
  datatype FavoritesView = FavoritesView(showing: bool, favorites: seq<string>)

  /** `window.favoritesManager?.isShowingFavorites() || false`. */
  function ShowingOf(fm: Option<FavoritesView>): (b: bool)
    ensures fm.None? ==> !b
  {
    fm.Some? && fm.value.showing
  }

  /** `window.favoritesManager?.getFavorites() || []`. */
  function FavoritesOf(fm: Option<FavoritesView>): (f: seq<string>)
    ensures fm.None? ==> f == []
  {
    if fm.Some? then fm.value.favorites else []
  }
}
