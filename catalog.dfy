/**
 * The in-memory catalog: `Product` and `Addon` objects whose methods update their
 * fields in place, and the Python dictionaries from codes to those objects.
 */
module Catalog {
  import opened Records

  /**
   * A Python dict keyed by strings: the keys in insertion order and the mapping.
   * Assigning an existing key keeps its place; a new key goes to the end.
   */
  class Dict<V> {
    var keys: seq<string>
    var items: map<string, V>

    ghost predicate Valid()
      reads this
    {
      Distinct(keys) && (forall k :: k in keys <==> k in items)
    }

    /** `{}` */
    constructor()
      ensures Valid()
      ensures keys == [] && items == map[]
    {
      keys := [];
      items := map[];
    }

    /** `d[k] = v` */
    method Put(k: string, v: V)
      requires Valid()
      modifies this
      ensures Valid()
      ensures items == old(items)[k := v]
      ensures keys == if k in old(items) then old(keys) else old(keys) + [k]
    {
      if k !in items {
        keys := keys + [k];
      }
      items := items[k := v];
    }

    /** `d.values()`, in key order. */
    function Values(): (vs: seq<V>)
      requires Valid()
      reads this
      ensures |vs| == |keys|
      ensures forall i :: 0 <= i < |keys| ==> vs[i] == items[keys[i]]
      ensures forall k :: k in items ==> items[k] in vs
    {
      var vs := seq(|keys|, i requires 0 <= i < |keys| && keys[i] in items reads this => items[keys[i]]);
      assert forall k :: k in items ==> items[k] in vs by {
        forall k | k in items
          ensures items[k] in vs
        {
          var i :| 0 <= i < |keys| && keys[i] == k;
          assert vs[i] == items[k];
        }
      }
      vs
    }
  }

  // ---------------------------------------------------------------------------
  // Ratings

  function Sum(xs: seq<real>): real
  {
    if xs == [] then 0.0 else Sum(xs[..|xs| - 1]) + xs[|xs| - 1]
  }

  /** The running average kept in `rating`: 0 before any rating. */
  function Mean(xs: seq<real>): real
  {
    if xs == [] then 0.0 else Sum(xs) / (|xs| as real)
  }

  lemma {:induction false} SumBounds(xs: seq<real>, lo: real, hi: real)
    requires forall i :: 0 <= i < |xs| ==> lo <= xs[i] <= hi
    ensures (|xs| as real) * lo <= Sum(xs) <= (|xs| as real) * hi
  {
    if xs != [] {
      var init := xs[..|xs| - 1];
      assert forall i :: 0 <= i < |init| ==> init[i] == xs[i];
      SumBounds(init, lo, hi);
      var last := xs[|xs| - 1];
      assert Sum(xs) == Sum(init) + last;
      assert lo <= last <= hi;
      var m := |init| as real;
      assert |xs| as real == m + 1.0;
      assert (m + 1.0) * lo == m * lo + lo;
      assert (m + 1.0) * hi == m * hi + hi;
    }
  }

  /** The average of ratings between `lo` and `hi` lies between them. */
  lemma MeanBounds(xs: seq<real>, lo: real, hi: real)
    requires xs != []
    requires forall i :: 0 <= i < |xs| ==> lo <= xs[i] <= hi
    ensures lo <= Mean(xs) <= hi
  {
    SumBounds(xs, lo, hi);
    var n := |xs| as real;
    assert n > 0.0;
    assert Sum(xs) / n >= lo by {
      assert Sum(xs) >= n * lo;
    }
    assert Sum(xs) / n <= hi by {
      assert Sum(xs) <= n * hi;
    }
  }

  // ---------------------------------------------------------------------------
  // Products and add-ons

  /** A bouquet (`Product`); the price is in cents. */
  class Product {
    var code: string
    var name: string
    var category: string
    var price: int
    var status: string
    var rating: real
    var ratingCount: nat
    /** Every rating given so far, oldest first. */
    ghost var ratings: seq<real>

    /** `rating` is the average of the ratings given and `ratingCount` their number. */
    ghost predicate Valid()
      reads this
    {
      ratingCount == |ratings| && rating == Mean(ratings)
    }

    /** The fields written to `Products.txt`. */
    function Record(): ProductRecord
      reads this
    {
      ProductRecord(code, name, category, price, status)
    }

    /** `Product(code, name, category, price, status)`: no ratings yet. */
    constructor(code: string, name: string, category: string, price: int, status: string)
      ensures Valid()
      ensures Record() == ProductRecord(code, name, category, price, status)
      ensures rating == 0.0 && ratingCount == 0 && ratings == []
    {
      this.code := code;
      this.name := name;
      this.category := category;
      this.price := price;
      this.status := status;
      rating := 0.0;
      ratingCount := 0;
      ratings := [];
    }

    /** `update_price` */
    method UpdatePrice(newPrice: int)
      modifies this
      ensures Record() == old(Record()).(price := newPrice)
      ensures rating == old(rating) && ratingCount == old(ratingCount) && ratings == old(ratings)
    {
      price := newPrice;
    }

    /** `update_status`: any string is accepted. */
    method UpdateStatus(newStatus: string)
      modifies this
      ensures Record() == old(Record()).(status := newStatus)
      ensures rating == old(rating) && ratingCount == old(ratingCount) && ratings == old(ratings)
    {
      status := newStatus;
    }

    /**
     * `add_rating`: the total so far is recovered as `rating * rating_count`, so the new
     * `rating` is the average of all ratings given, the new one included.
     */
    method AddRating(r: real)
      requires Valid()
      modifies this
      ensures Valid()
      ensures ratings == old(ratings) + [r]
      ensures ratingCount == old(ratingCount) + 1
      ensures Record() == old(Record())
    {
      var total := rating * (ratingCount as real);
      assert total == Sum(ratings) by {
        if ratings != [] {
          assert (ratingCount as real) > 0.0;
        }
      }
      ratingCount := ratingCount + 1;
      rating := (total + r) / (ratingCount as real);
      ratings := ratings + [r];
      assert ratings[..|ratings| - 1] == old(ratings);
    }
  }

  /** An add-on (`Addon`); the price is in cents. */
  class Addon {
    var code: string
    var name: string
    var price: int
    var status: string

    /** The fields written to `Addons.txt`. */
    function Record(): AddonRecord
      reads this
    {
      AddonRecord(code, name, price, status)
    }

    /** `Addon(code, name, price, status)` */
    constructor(code: string, name: string, price: int, status: string)
      ensures Record() == AddonRecord(code, name, price, status)
    {
      this.code := code;
      this.name := name;
      this.price := price;
      this.status := status;
    }

    /** `update_price` */
    method UpdatePrice(newPrice: int)
      modifies this
      ensures Record() == old(Record()).(price := newPrice)
    {
      price := newPrice;
    }

    /** `update_status`: any string is accepted. */
    method UpdateStatus(newStatus: string)
      modifies this
      ensures Record() == old(Record()).(status := newStatus)
    {
      status := newStatus;
    }
  }

  /** Ratings are accepted only from 1 to 5 when an order is confirmed. */
  predicate AcceptedRating(r: real)
  {
    1.0 <= r <= 5.0
  }

  /** Every rating a product holds was accepted. */
  ghost predicate RatingsInRange(p: Product)
    reads p
  {
    forall i :: 0 <= i < |p.ratings| ==> AcceptedRating(p.ratings[i])
  }

  /**
   * The rating step after a confirmed order: a rating outside 1..5 changes nothing, an
   * accepted one is added to the product's average. A product rated only through this
   * step has an average between 1 and 5 once it has been rated.
   */
  method RateProduct(p: Product, r: real)
    requires p.Valid() && RatingsInRange(p)
    modifies p
    ensures p.Valid() && RatingsInRange(p)
    ensures p.Record() == old(p.Record())
    ensures p.ratings == if AcceptedRating(r) then old(p.ratings) + [r] else old(p.ratings)
    ensures p.ratingCount > 0 ==> 1.0 <= p.rating <= 5.0
  {
    if AcceptedRating(r) {
      p.AddRating(r);
    }
    if p.ratingCount > 0 {
      MeanBounds(p.ratings, 1.0, 5.0);
    }
  }

  // ---------------------------------------------------------------------------
  // The two dictionaries

  /** Every product sits under its own code; so no object is shared by two codes. */
  ghost predicate ProductsValid(d: Dict<Product>)
    reads d, d.items.Values
  {
    d.Valid()
    && (forall k :: k in d.items ==> d.items[k].code == k)
  }

  /** Every add-on sits under its own code. */
  ghost predicate AddonsValid(d: Dict<Addon>)
    reads d, d.items.Values
  {
    d.Valid()
    && (forall k :: k in d.items ==> d.items[k].code == k)
  }

  /** The persisted view of the products dictionary. */
  function ProductTable(d: Dict<Product>): (t: Table<ProductRecord>)
    reads d, d.items.Values
    ensures t.keys == d.keys && t.items.Keys == d.items.Keys
    ensures forall k :: k in d.items ==> t.items[k] == d.items[k].Record()
  {
    Table(d.keys, map k | k in d.items :: d.items[k].Record())
  }

  /** The persisted view of the add-ons dictionary. */
  function AddonTable(d: Dict<Addon>): (t: Table<AddonRecord>)
    reads d, d.items.Values
    ensures t.keys == d.keys && t.items.Keys == d.items.Keys
    ensures forall k :: k in d.items ==> t.items[k] == d.items[k].Record()
  {
    Table(d.keys, map k | k in d.items :: d.items[k].Record())
  }

  /** A valid dictionary of products gives a well-formed table. */
  lemma ProductTableWellFormed(d: Dict<Product>)
    requires ProductsValid(d)
    ensures WellFormed(ProductTable(d), ProductCode)
  {
  }

  /** A valid dictionary of add-ons gives a well-formed table. */
  lemma AddonTableWellFormed(d: Dict<Addon>)
    requires AddonsValid(d)
    ensures WellFormed(AddonTable(d), AddonCode)
  {
  }
}
