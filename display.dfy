/**
 * The product listing of `display_products`: the products in dictionary order, keeping
 * the available ones, then those of the requested category, then sorted by ascending
 * price or by descending rating. Python's `list.sort` is stable, also with `reverse=True`.
 */
module Display {
  import opened Wrappers
  import opened Records
  import opened Catalog

  /** What the listing shows of a product. */
  datatype Entry = Entry(code: string, name: string, category: string, price: int, status: string, rating: real)

  function EntryOf(p: Product): Entry
    reads p
  {
    Entry(p.code, p.name, p.category, p.price, p.status, p.rating)
  }

  /** `products.values()`: the products in key order. */
  function Listing(d: Dict<Product>): (es: seq<Entry>)
    requires d.Valid()
    reads d, d.items.Values
    ensures |es| == |d.keys|
    ensures forall i :: 0 <= i < |es| ==> es[i] == EntryOf(d.items[d.keys[i]])
  {
    ListingOf(d.items, d.keys)
  }

  function ListingOf(items: map<string, Product>, keys: seq<string>): (es: seq<Entry>)
    requires forall k :: k in keys ==> k in items
    reads items.Values
    ensures |es| == |keys|
    ensures forall i :: 0 <= i < |es| ==> es[i] == EntryOf(items[keys[i]])
  {
    if keys == [] then [] else [EntryOf(items[keys[0]])] + ListingOf(items, keys[1..])
  }

  // ---------------------------------------------------------------------------
  // Filtering

  /** `[p for p in products.values() if p.status == "Available"]` */
  function AvailableOnly(es: seq<Entry>): seq<Entry>
  {
    if es == [] then []
    else (if es[0].status == Available then [es[0]] else []) + AvailableOnly(es[1..])
  }

  /** `[p for p in filtered_products if p.category == category_filter]` */
  function InCategory(es: seq<Entry>, category: string): seq<Entry>
  {
    if es == [] then []
    else (if es[0].category == category then [es[0]] else []) + InCategory(es[1..], category)
  }

  /** Whether the listing keeps an entry: it is Available and, under a non-empty filter, of that category. */
  predicate Shown(e: Entry, category: Option<string>)
  {
    e.status == Available && (category.None? || category.value == "" || e.category == category.value)
  }

  /** The two comprehensions; a missing or empty filter (`if category_filter:`) keeps every category. */
  function Visible(es: seq<Entry>, category: Option<string>): seq<Entry>
  {
    var available := AvailableOnly(es);
    if category.Some? && category.value != "" then InCategory(available, category.value) else available
  }

  lemma {:induction false} AvailableOnlyCount(es: seq<Entry>, e: Entry)
    ensures multiset(AvailableOnly(es))[e] == if e.status == Available then multiset(es)[e] else 0
  {
    if es != [] {
      AvailableOnlyCount(es[1..], e);
      assert es == [es[0]] + es[1..];
    }
  }

  lemma {:induction false} InCategoryCount(es: seq<Entry>, category: string, e: Entry)
    ensures multiset(InCategory(es, category))[e] == if e.category == category then multiset(es)[e] else 0
  {
    if es != [] {
      InCategoryCount(es[1..], category, e);
      assert es == [es[0]] + es[1..];
    }
  }

  /**
   * The filter keeps exactly the shown entries, each as often as it occurs in the catalog
   * listing, and nothing else.
   */
  lemma VisibleCount(es: seq<Entry>, category: Option<string>, e: Entry)
    ensures multiset(Visible(es, category))[e] == if Shown(e, category) then multiset(es)[e] else 0
  {
    AvailableOnlyCount(es, e);
    if category.Some? && category.value != "" {
      InCategoryCount(AvailableOnly(es), category.value, e);
    }
  }

  // ---------------------------------------------------------------------------
  // Sorting

  /** `sort(key=lambda x: x.price)` or `sort(key=lambda x: x.rating, reverse=True)`. */
  datatype Ordering = ByPrice | ByRating

  /** The ascending sort key: the price, or the rating negated for the descending order. */
  function Key(e: Entry, order: Ordering): real
  {
    match order
    case ByPrice => e.price as real
    case ByRating => -e.rating
  }

  predicate Sorted(s: seq<Entry>, order: Ordering)
  {
    forall i, j :: 0 <= i < j < |s| ==> Key(s[i], order) <= Key(s[j], order)
  }

  /** `e` placed before the first entry whose key is not smaller. */
  function InsertSorted(e: Entry, s: seq<Entry>, order: Ordering): seq<Entry>
  {
    if s == [] then [e]
    else if Key(e, order) <= Key(s[0], order) then [e] + s
    else [s[0]] + InsertSorted(e, s[1..], order)
  }

  /** A stable insertion sort: the last entries are sorted first, and each earlier one goes in front of its equals. */
  function SortBy(es: seq<Entry>, order: Ordering): seq<Entry>
  {
    if es == [] then [] else InsertSorted(es[0], SortBy(es[1..], order), order)
  }

  /** An entry whose key is at most every key of a sorted list can go in front of it. */
  lemma SortedCons(x: Entry, t: seq<Entry>, order: Ordering)
    requires Sorted(t, order)
    requires forall y :: y in t ==> Key(x, order) <= Key(y, order)
    ensures Sorted([x] + t, order)
  {
    var r := [x] + t;
    forall i, j | 0 <= i < j < |r| ensures Key(r[i], order) <= Key(r[j], order) {
      assert r[j] == t[j - 1];
      if i > 0 {
        assert r[i] == t[i - 1];
      }
    }
  }

  /** Inserting adds exactly the one entry. */
  lemma {:induction false} InsertSortedCount(e: Entry, s: seq<Entry>, order: Ordering)
    ensures multiset(InsertSorted(e, s, order)) == multiset(s) + multiset{e}
  {
    if s != [] {
      assert s == [s[0]] + s[1..];
      if Key(e, order) > Key(s[0], order) {
        InsertSortedCount(e, s[1..], order);
      }
    }
  }

  /** Inserting into a sorted list keeps it sorted. */
  lemma {:induction false} InsertSortedSorted(e: Entry, s: seq<Entry>, order: Ordering)
    requires Sorted(s, order)
    ensures Sorted(InsertSorted(e, s, order), order)
  {
    if s != [] {
      if Key(e, order) <= Key(s[0], order) {
        SortedCons(e, s, order);
      } else {
        var tail := s[1..];
        var rest := InsertSorted(e, tail, order);
        InsertSortedSorted(e, tail, order);
        InsertSortedCount(e, tail, order);
        forall y | y in rest ensures Key(s[0], order) <= Key(y, order) {
          assert y in multiset(rest);
          if y != e {
            assert y in multiset(tail);
            var k :| 0 <= k < |tail| && tail[k] == y;
            assert s[k + 1] == y;
          }
        }
        SortedCons(s[0], rest, order);
      }
    }
  }

  /** The insertion sort orders by the key and keeps every entry as often as it occurs. */
  lemma {:induction false} SortByProps(es: seq<Entry>, order: Ordering)
    ensures Sorted(SortBy(es, order), order)
    ensures multiset(SortBy(es, order)) == multiset(es)
  {
    if es != [] {
      SortByProps(es[1..], order);
      InsertSortedSorted(es[0], SortBy(es[1..], order), order);
      InsertSortedCount(es[0], SortBy(es[1..], order), order);
      assert es == [es[0]] + es[1..];
    }
  }

  /** The entries of `s` with key `v`, in order. */
  function WithKey(s: seq<Entry>, order: Ordering, v: real): seq<Entry>
  {
    if s == [] then []
    else (if Key(s[0], order) == v then [s[0]] else []) + WithKey(s[1..], order, v)
  }

  lemma {:induction false} InsertSortedStable(e: Entry, s: seq<Entry>, order: Ordering, v: real)
    ensures WithKey(InsertSorted(e, s, order), order, v) == (if Key(e, order) == v then [e] else []) + WithKey(s, order, v)
  {
    if s != [] && Key(e, order) > Key(s[0], order) {
      var rest := InsertSorted(e, s[1..], order);
      var r := [s[0]] + rest;
      var first := if Key(s[0], order) == v then [s[0]] else [];
      InsertSortedStable(e, s[1..], order, v);
      assert r[1..] == rest;
      assert WithKey(r, order, v) == first + WithKey(rest, order, v);
      assert WithKey(s, order, v) == first + WithKey(s[1..], order, v);
      if Key(e, order) == v {
        assert first == [];
      }
    }
  }

  /** Stability: entries with equal keys keep their relative order. */
  lemma {:induction false} SortByStable(es: seq<Entry>, order: Ordering, v: real)
    ensures WithKey(SortBy(es, order), order, v) == WithKey(es, order, v)
  {
    if es != [] {
      SortByStable(es[1..], order, v);
      InsertSortedStable(es[0], SortBy(es[1..], order), order, v);
    }
  }

  /** `display_products`: the entries listed, in the order shown. It reports products when this is not empty. */
  function DisplayProducts(es: seq<Entry>, category: Option<string>, sortByPrice: bool, sortByRating: bool)
    : seq<Entry>
  {
    var shown := Visible(es, category);
    if sortByPrice then SortBy(shown, ByPrice)
    else if sortByRating then SortBy(shown, ByRating)
    else shown
  }

  /**
   * The listing holds every shown entry as often as the catalog does and nothing else;
   * sorted by price it ascends, sorted by rating it descends, and entries with equal
   * keys stay in catalog order. Without a sort it is the filtered catalog order.
   */
  lemma DisplayProductsSpec(es: seq<Entry>, category: Option<string>, sortByPrice: bool, sortByRating: bool)
    ensures var r := DisplayProducts(es, category, sortByPrice, sortByRating);
      && (forall e :: multiset(r)[e] == if Shown(e, category) then multiset(es)[e] else 0)
      && (sortByPrice ==> forall i, j :: 0 <= i < j < |r| ==> r[i].price <= r[j].price)
      && (!sortByPrice && sortByRating ==> forall i, j :: 0 <= i < j < |r| ==> r[i].rating >= r[j].rating)
      && (sortByPrice ==> forall v :: WithKey(r, ByPrice, v) == WithKey(Visible(es, category), ByPrice, v))
      && (!sortByPrice && sortByRating ==> forall v :: WithKey(r, ByRating, v) == WithKey(Visible(es, category), ByRating, v))
      && (!sortByPrice && !sortByRating ==> r == Visible(es, category))
  {
    var shown := Visible(es, category);
    SortByProps(shown, ByPrice);
    SortByProps(shown, ByRating);
    forall e ensures multiset(shown)[e] == if Shown(e, category) then multiset(es)[e] else 0 {
      VisibleCount(es, category, e);
    }
    if sortByPrice {
      forall v ensures WithKey(SortBy(shown, ByPrice), ByPrice, v) == WithKey(shown, ByPrice, v) {
        SortByStable(shown, ByPrice, v);
      }
    } else if sortByRating {
      forall v ensures WithKey(SortBy(shown, ByRating), ByRating, v) == WithKey(shown, ByRating, v) {
        SortByStable(shown, ByRating, v);
      }
    }
  }
}
