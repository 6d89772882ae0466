/** The React menu demo: the list shown for a category and a search term,
    the favourites toggle, and the choice between the loading message, the
    cards and the "nothing found" message. */
module MenuCatalog {
  import opened JsBuiltins
  import opened MenuCategory

  datatype MenuItem = MenuItem(id: int, title: string, category: string, description: string, price: string)

  /** `searchTerm === '' || title.toLowerCase().includes(searchTerm.toLowerCase())`. */
  predicate MatchesSearch(term: string, title: string)
  {
    term == [] || Includes(ToLower(title), ToLower(term))
  }

  /** The test `filteredItems` applies to each item. */
  predicate Shown(item: MenuItem, filter: string, term: string)
  {
    CategoryMatches(filter, item.category) && MatchesSearch(term, item.title)
  }

  /** `menuItems.filter(...)`: the shown items, in menu order. */
  function FilteredItems(items: seq<MenuItem>, filter: string, term: string): (r: seq<MenuItem>)
    ensures |r| <= |items|
    ensures forall x :: x in r <==> x in items && Shown(x, filter, term)
  {
    if items == [] then []
    else
      var rest := FilteredItems(items[1..], filter, term);
      if Shown(items[0], filter, term) then [items[0]] + rest else rest
  }

  /** The filter keeps menu order: filtering a concatenation filters each
      part and concatenates the results. */
  lemma {:induction false} FilteredConcat(a: seq<MenuItem>, b: seq<MenuItem>, filter: string, term: string)
    ensures FilteredItems(a + b, filter, term) == FilteredItems(a, filter, term) + FilteredItems(b, filter, term)
  {
    if a == [] {
      assert a + b == b;
    } else {
      assert (a + b)[0] == a[0];
      assert (a + b)[1..] == a[1..] + b;
      FilteredConcat(a[1..], b, filter, term);
    }
  }

  /** Each shown item appears as often as in the menu, and no other item
      appears. */
  lemma {:induction false} FilteredCount(items: seq<MenuItem>, filter: string, term: string, x: MenuItem)
    ensures multiset(FilteredItems(items, filter, term))[x] == if Shown(x, filter, term) then multiset(items)[x] else 0
  {
    if items != [] {
      FilteredCount(items[1..], filter, term, x);
      assert items == [items[0]] + items[1..];
    }
  }

  /** The initial state, every category and an empty search, shows the
      whole menu. */
  lemma {:induction false} ShowAllWithoutSearch(items: seq<MenuItem>)
    ensures FilteredItems(items, ShowAll, "") == items
  {
    if items != [] {
      ShowAllWithoutSearch(items[1..]);
    }
  }

  /** A category no item has shows nothing. */
  lemma UnknownCategoryShowsNothing(items: seq<MenuItem>, filter: string, term: string)
    requires filter != ShowAll
    requires forall i :: 0 <= i < |items| ==> items[i].category != filter
    ensures FilteredItems(items, filter, term) == []
  {
  }

  /** Filtering the filtered list again changes nothing. */
  lemma {:induction false} FilteredIdempotent(items: seq<MenuItem>, filter: string, term: string)
    ensures FilteredItems(FilteredItems(items, filter, term), filter, term) == FilteredItems(items, filter, term)
  {
    if items != [] {
      FilteredIdempotent(items[1..], filter, term);
    }
  }

  /** The search ignores the case of the term. */
  lemma SearchIgnoresTermCase(term: string, title: string)
    ensures MatchesSearch(ToLower(term), title) <==> MatchesSearch(term, title)
  {
    ToLowerIdempotent(term);
  }

  /** The search ignores the case of the title. */
  lemma SearchIgnoresTitleCase(term: string, title: string)
    ensures MatchesSearch(term, ToLower(title)) <==> MatchesSearch(term, title)
  {
    ToLowerIdempotent(title);
  }

  /** Typing the search term in capitals or in small letters shows the same
      list. */
  lemma {:induction false} FilteredIgnoresTermCase(items: seq<MenuItem>, filter: string, term: string)
    ensures FilteredItems(items, filter, ToLower(term)) == FilteredItems(items, filter, term)
  {
    if items != [] {
      SearchIgnoresTermCase(term, items[0].title);
      FilteredIgnoresTermCase(items[1..], filter, term);
    }
  }

  /** The demo's mock menu. */
  const MockMenu: seq<MenuItem> := [
    MenuItem(1, "Bruschetta me Domate", "fillestar", "Bagetë, domate, borzilok", "5. 50"),
    MenuItem(2, "Sallatë Ceasar", "fillestar", "Marule, parmixhan, croutons", "6.90"),
    MenuItem(3, "Risotto me Kërpudha", "kryesor", "Arborio, kërpudha, parmixhan", "10.90"),
    MenuItem(4, "Fileto Viçi", "kryesor", "Fileto me salcë piper", "14.50"),
    MenuItem(5, "Tiramisu Klasik", "ëmbëlsira", "Mascarpone, biskota, espresso", "4.90"),
    MenuItem(6, "Limonadë e Freskët", "pije", "Limona, mente, akull", "2.50")
  ]

  /** The drinks category of the mock menu holds only the lemonade. */
  lemma DrinksShowLemonade()
    ensures FilteredItems(MockMenu, "pije", "") == [MockMenu[5]]
  {
    var m := MockMenu;
    assert m[0].category[0] == 'f' && m[2].category[0] == 'k' && m[4].category[0] == '\U{00EB}';
    assert m[..5] == [m[0], m[1], m[2], m[3], m[4]];
    UnknownCategoryShowsNothing(m[..5], "pije", "");
    FilteredConcat(m[..5], [m[5]], "pije", "");
    assert m == m[..5] + [m[5]];
  }

  /** `prev.filter(fav => fav !== id)`. */
  function RemoveAll(favorites: seq<int>, id: int): (r: seq<int>)
    ensures |r| <= |favorites|
    ensures forall x :: x in r <==> x in favorites && x != id
  {
    if favorites == [] then []
    else if favorites[0] == id then RemoveAll(favorites[1..], id)
    else [favorites[0]] + RemoveAll(favorites[1..], id)
  }

  /** Removing from a concatenation removes from each part, so the kept
      favourites stay in their order. */
  lemma {:induction false} RemoveAllConcat(a: seq<int>, b: seq<int>, id: int)
    ensures RemoveAll(a + b, id) == RemoveAll(a, id) + RemoveAll(b, id)
  {
    if a == [] {
      assert a + b == b;
    } else {
      assert (a + b)[0] == a[0];
      assert (a + b)[1..] == a[1..] + b;
      RemoveAllConcat(a[1..], b, id);
    }
  }

  /** Every occurrence of `id` goes, every other favourite stays as often
      as it was. */
  lemma {:induction false} RemoveAllCount(favorites: seq<int>, id: int, x: int)
    ensures multiset(RemoveAll(favorites, id))[x] == if x == id then 0 else multiset(favorites)[x]
  {
    if favorites != [] {
      RemoveAllCount(favorites[1..], id, x);
      assert favorites == [favorites[0]] + favorites[1..];
    }
  }

  /** `handleAddFavorite`: drop `id` when it is a favourite, otherwise
      append it. */
  function ToggleFavorite(id: int, favorites: seq<int>): seq<int>
  {
    if id in favorites then RemoveAll(favorites, id) else favorites + [id]
  }

  /** A toggle flips whether `id` is a favourite and no other id. */
  lemma ToggleFlipsOnlyId(id: int, favorites: seq<int>)
    ensures id in ToggleFavorite(id, favorites) <==> id !in favorites
    ensures forall x :: x != id ==> (x in ToggleFavorite(id, favorites) <==> x in favorites)
  {
  }

  predicate NoDuplicates(s: seq<int>)
  {
    forall i, j :: 0 <= i < j < |s| ==> s[i] != s[j]
  }

  lemma {:induction false} RemoveAllKeepsNoDuplicates(favorites: seq<int>, id: int)
    requires NoDuplicates(favorites)
    ensures NoDuplicates(RemoveAll(favorites, id))
  {
    if favorites != [] {
      RemoveAllKeepsNoDuplicates(favorites[1..], id);
      var rest := RemoveAll(favorites[1..], id);
      assert favorites[0] !in favorites[1..];
      assert favorites[0] !in rest;
    }
  }

  /** A list without repeats stays without repeats. */
  lemma ToggleKeepsNoDuplicates(id: int, favorites: seq<int>)
    requires NoDuplicates(favorites)
    ensures NoDuplicates(ToggleFavorite(id, favorites))
  {
    if id in favorites {
      RemoveAllKeepsNoDuplicates(favorites, id);
    }
  }

  /** Removing an id that is absent changes nothing. */
  lemma {:induction false} RemoveAbsent(favorites: seq<int>, id: int)
    requires id !in favorites
    ensures RemoveAll(favorites, id) == favorites
  {
    if favorites != [] {
      RemoveAbsent(favorites[1..], id);
    }
  }

  /** Removing an id appended to a list removes exactly that last element
      when the list did not hold it. */
  lemma {:induction false} RemoveAppended(favorites: seq<int>, id: int)
    requires id !in favorites
    ensures RemoveAll(favorites + [id], id) == favorites
  {
    if favorites == [] {
      assert RemoveAll([id], id) == RemoveAll([], id);
    } else {
      assert (favorites + [id])[1..] == favorites[1..] + [id];
      RemoveAppended(favorites[1..], id);
    }
  }

  /** Toggling a new id appends it last; toggling it again restores the
      list. */
  lemma ToggleTwiceRestores(id: int, favorites: seq<int>)
    requires id !in favorites
    ensures ToggleFavorite(id, favorites) == favorites + [id]
    ensures ToggleFavorite(id, ToggleFavorite(id, favorites)) == favorites
  {
    RemoveAppended(favorites, id);
  }

  datatype Card = Card(item: MenuItem, isFavorite: bool)

  datatype View = Loading | Cards(cards: seq<Card>) | NothingFound

  /** The grid's content: the loading message while loading, else one card
      per shown item (marked when its id is a favourite), else the "nothing
      found" message. */
  function Render(isLoading: bool, filtered: seq<MenuItem>, favorites: seq<int>): (v: View)
    ensures v.Loading? <==> isLoading
    ensures v.NothingFound? <==> !isLoading && filtered == []
    ensures v.Cards? ==> |v.cards| == |filtered|
    ensures v.Cards? ==> forall i :: 0 <= i < |filtered| ==>
      v.cards[i].item == filtered[i] && (v.cards[i].isFavorite <==> filtered[i].id in favorites)
  {
    if isLoading then Loading
    else if |filtered| > 0 then Cards(seq(|filtered|, i requires 0 <= i < |filtered| => Card(filtered[i], filtered[i].id in favorites)))
    else NothingFound
  }
}
