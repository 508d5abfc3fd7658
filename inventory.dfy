/**
 * Loading the catalog files into dictionaries of objects, and the operator's updates and
 * additions (`view_update_blooms`, `add_new_bloom`, `view_update_addons`, `add_new_addon`).
 * Console entries are parameters; each operation returns the file text it saves, if any.
 */
module Inventory {
  import opened Wrappers
  import opened Text
  import opened Numerals
  import opened Records
  import opened Catalog
  import Codes

  // ---------------------------------------------------------------------------
  // Loading

  /** `products[code] = Product(...)` with a new object. */
  method PutProduct(d: Dict<Product>, r: ProductRecord) returns (p: Product)
    requires ProductsValid(d)
    modifies d
    ensures ProductsValid(d)
    ensures ProductTable(d) == Insert(old(ProductTable(d)), r.code, r)
    ensures old(Unrated(d)) ==> Unrated(d)
    ensures fresh(p) && d.items == old(d.items)[r.code := p]
    ensures p.rating == 0.0 && p.ratingCount == 0 && p.ratings == []
  {
    ghost var t0 := ProductTable(d);
    p := new Product(r.code, r.name, r.category, r.price, r.status);
    ghost var before := d.items;
    d.Put(r.code, p);
    forall k | k in d.items && k != r.code ensures d.items[k].code == k && d.items[k].Record() == t0.items[k] {
      assert d.items[k] == before[k];
    }
    ProductTableAfter(d, t0, r.code);
    forall k | k in d.items && old(Unrated(d))
      ensures d.items[k].rating == 0.0 && d.items[k].ratingCount == 0 && d.items[k].ratings == []
    {
      if k != r.code {
        assert d.items[k] == before[k];
      }
    }
  }

  /** `addons[code] = Addon(...)` with a new object. */
  method PutAddon(d: Dict<Addon>, r: AddonRecord) returns (a: Addon)
    requires AddonsValid(d)
    modifies d
    ensures AddonsValid(d)
    ensures AddonTable(d) == Insert(old(AddonTable(d)), r.code, r)
    ensures fresh(a)
    ensures d.items == old(d.items)[r.code := a]
  {
    ghost var t0 := AddonTable(d);
    a := new Addon(r.code, r.name, r.price, r.status);
    ghost var before := d.items;
    d.Put(r.code, a);
    forall k | k in d.items && k != r.code ensures d.items[k].code == k && d.items[k].Record() == t0.items[k] {
      assert d.items[k] == before[k];
    }
    AddonTableAfter(d, t0, r.code);
  }

  /** Every product of the dictionary is still unrated: no ratings, a count of 0 and an average of 0. */
  ghost predicate Unrated(d: Dict<Product>)
    reads d, d.items.Values
  {
    forall k :: k in d.items ==> d.items[k].rating == 0.0 && d.items[k].ratingCount == 0 && d.items[k].ratings == []
  }

  /**
   * `load_products`: the lines are read in order into a fresh dictionary of fresh products.
   * Ratings are not stored in the file, so every loaded product starts unrated.
   */
  method LoadProducts(file: Option<string>) returns (d: Dict<Product>)
    ensures fresh(d) && ProductsValid(d)
    ensures ProductTable(d) == LoadProductsText(file)
    ensures Unrated(d) && forall k :: k in d.items ==> fresh(d.items[k])
    ensures forall k :: k in d.items ==> d.items[k].Valid() && RatingsInRange(d.items[k])
  {
    d := new Dict<Product>();
    if file.None? {
      return;
    }
    var lines := FileLines(file.value);
    for i := 0 to |lines|
      invariant fresh(d) && ProductsValid(d)
      invariant LoadFrom(ProductTable(d), lines[i..], ParseProductLine, ProductCode) == LoadProductsText(file)
      invariant Unrated(d)
      invariant forall k :: k in d.items ==> fresh(d.items[k])
    {
      assert lines[i..][1..] == lines[i + 1..];
      match ParseProductLine(lines[i])
      case Skip =>
      case Raise =>
        UnratedRateable(d);
        return;
      case Parsed(r) =>
        var p := PutProduct(d, r);
    }
    UnratedRateable(d);
  }

  /** Unrated products are valid and can be rated. */
  lemma UnratedRateable(d: Dict<Product>)
    requires Unrated(d)
    ensures forall k :: k in d.items ==> d.items[k].Valid() && RatingsInRange(d.items[k])
  {
  }

  /** The dictionary of the three default add-ons. */
  method CreateDefaultAddons() returns (d: Dict<Addon>)
    ensures fresh(d) && AddonsValid(d)
    ensures AddonTable(d) == DefaultAddons()
  {
    d := new Dict<Addon>();
    var chocolates := PutAddon(d, AddonRecord("ADD001", "Chocolates", 800, Available));
    var card := PutAddon(d, AddonRecord("ADD002", "Customized Handwritten card", 1200, Available));
    var toy := PutAddon(d, AddonRecord("ADD003", "Soft Toy", 1600, Available));
  }

  /**
   * `load_addons`: as `load_products`; when the file does not exist the three default add-ons
   * are created and written, and the written text is returned.
   */
  method LoadAddons(file: Option<string>) returns (d: Dict<Addon>, written: Option<string>)
    ensures fresh(d) && AddonsValid(d)
    ensures AddonTable(d) == LoadAddonsText(file)
    ensures written == if file.None? then Some(SaveAddonsText(DefaultAddons())) else None
  {
    d := new Dict<Addon>();
    written := None;
    if file.None? {
      d := CreateDefaultAddons();
      written := Some(SaveAddonsText(AddonTable(d)));
      return;
    }
    var lines := FileLines(file.value);
    for i := 0 to |lines|
      invariant fresh(d) && AddonsValid(d)
      invariant LoadFrom(AddonTable(d), lines[i..], ParseAddonLine, AddonCode) == LoadAddonsText(file)
    {
      assert lines[i..][1..] == lines[i + 1..];
      match ParseAddonLine(lines[i])
      case Skip =>
      case Raise =>
        return;
      case Parsed(r) =>
        var a := PutAddon(d, r);
    }
  }

  // ---------------------------------------------------------------------------
  // Updating an existing entry

  const Unavailable := "Unavailable"

  /**
   * The price after the operator's entry: an empty entry keeps it, and it changes only to
   * an entry that parses as a price above zero.
   */
  function UpdatedPrice(current: int, entered: string): (p: int)
    ensures Strip(entered) == "" ==> p == current
    ensures p != current ==> ParsePrice(Strip(entered)) == Some(p) && p > 0
    ensures (match ParsePrice(Strip(entered)) case Some(v) => v > 0 case None => false) ==> Some(p) == ParsePrice(Strip(entered))
  {
    var t := Strip(entered);
    if t == "" then current
    else
      match ParsePrice(t)
      case Some(v) => if v > 0 then v else current
      case None => current
  }

  /** The status after the operator's entry: it changes exactly when the entry is `Available` or `Unavailable`. */
  function UpdatedStatus(current: string, entered: string): (s: string)
    ensures Strip(entered) == Available || Strip(entered) == Unavailable ==> s == Strip(entered)
    ensures !(Strip(entered) == Available || Strip(entered) == Unavailable) ==> s == current
  {
    var t := Strip(entered);
    if t != "" && (t == Available || t == Unavailable) then t else current
  }

  /** The code typed at a prompt, as looked up: `input(...).strip().upper()`. */
  function EnteredCode(input: string): string
  {
    Upper(Strip(input))
  }

  /** A product record after the price and status prompts. */
  function UpdatedProduct(r: ProductRecord, priceInput: string, statusInput: string): ProductRecord
  {
    r.(price := UpdatedPrice(r.price, priceInput), status := UpdatedStatus(r.status, statusInput))
  }

  /** An add-on record after the price and status prompts. */
  function UpdatedAddon(r: AddonRecord, priceInput: string, statusInput: string): AddonRecord
  {
    r.(price := UpdatedPrice(r.price, priceInput), status := UpdatedStatus(r.status, statusInput))
  }

  /**
   * `view_update_blooms` on the persisted view: the entered code is looked up after stripping;
   * `0` or an unknown code changes nothing, otherwise only that product's price and status change.
   */
  function UpdateProducts(t: Table<ProductRecord>, codeInput: string, priceInput: string, statusInput: string)
    : (u: Table<ProductRecord>)
    ensures u.keys == t.keys && u.items.Keys == t.items.Keys
    ensures forall k :: k in t.items && k != EnteredCode(codeInput) ==> u.items[k] == t.items[k]
    ensures forall k :: k in t.items ==> u.items[k] == t.items[k].(price := u.items[k].price, status := u.items[k].status)
  {
    var code := EnteredCode(codeInput);
    if code == "0" || code !in t.items then t
    else Table(t.keys, t.items[code := UpdatedProduct(t.items[code], priceInput, statusInput)])
  }

  /** `view_update_addons` on the persisted view, as for products. */
  function UpdateAddons(t: Table<AddonRecord>, codeInput: string, priceInput: string, statusInput: string)
    : (u: Table<AddonRecord>)
    ensures u.keys == t.keys && u.items.Keys == t.items.Keys
    ensures forall k :: k in t.items && k != EnteredCode(codeInput) ==> u.items[k] == t.items[k]
    ensures forall k :: k in t.items ==> u.items[k] == t.items[k].(price := u.items[k].price, status := u.items[k].status)
  {
    var code := EnteredCode(codeInput);
    if code == "0" || code !in t.items then t
    else Table(t.keys, t.items[code := UpdatedAddon(t.items[code], priceInput, statusInput)])
  }

  /** Whether the update screens find the entered code and go on to save the file. */
  predicate Selects<V>(items: map<string, V>, codeInput: string)
  {
    EnteredCode(codeInput) != "0" && EnteredCode(codeInput) in items
  }

  /** The price prompt of the update screens, applied to a product. */
  method EnterProductPrice(p: Product, priceInput: string)
    modifies p
    ensures p.Record() == old(p.Record()).(price := UpdatedPrice(old(p.price), priceInput))
    ensures p.ratings == old(p.ratings) && p.rating == old(p.rating) && p.ratingCount == old(p.ratingCount)
  {
    var priceText := Strip(priceInput);
    if priceText != "" {
      var parsed := ParsePrice(priceText);
      if parsed.Some? && parsed.value > 0 {
        p.UpdatePrice(parsed.value);
      }
    }
  }

  /** The status prompt of the update screens, applied to a product. */
  method EnterProductStatus(p: Product, statusInput: string)
    modifies p
    ensures p.Record() == old(p.Record()).(status := UpdatedStatus(old(p.status), statusInput))
    ensures p.ratings == old(p.ratings) && p.rating == old(p.rating) && p.ratingCount == old(p.ratingCount)
  {
    var statusText := Strip(statusInput);
    if statusText != "" && (statusText == Available || statusText == Unavailable) {
      p.UpdateStatus(statusText);
    }
  }

  /** The price prompt of the update screens, applied to an add-on. */
  method EnterAddonPrice(a: Addon, priceInput: string)
    modifies a
    ensures a.Record() == old(a.Record()).(price := UpdatedPrice(old(a.price), priceInput))
  {
    var priceText := Strip(priceInput);
    if priceText != "" {
      var parsed := ParsePrice(priceText);
      if parsed.Some? && parsed.value > 0 {
        a.UpdatePrice(parsed.value);
      }
    }
  }

  /** The status prompt of the update screens, applied to an add-on. */
  method EnterAddonStatus(a: Addon, statusInput: string)
    modifies a
    ensures a.Record() == old(a.Record()).(status := UpdatedStatus(old(a.status), statusInput))
  {
    var statusText := Strip(statusInput);
    if statusText != "" && (statusText == Available || statusText == Unavailable) {
      a.UpdateStatus(statusText);
    }
  }

  /**
   * The persisted view after the object under `code` was stored or changed, every other entry
   * being as in `t0`: `t0` with that entry inserted.
   */
  lemma ProductTableAfter(d: Dict<Product>, t0: Table<ProductRecord>, code: string)
    requires d.Valid() && code in d.items && d.items[code].code == code
    requires d.keys == (if code in t0.items then t0.keys else t0.keys + [code])
    requires d.items.Keys == t0.items.Keys + {code}
    requires forall k :: k in d.items && k != code ==> d.items[k].code == k && d.items[k].Record() == t0.items[k]
    ensures ProductsValid(d)
    ensures ProductTable(d) == Insert(t0, code, d.items[code].Record())
  {
    var u := Insert(t0, code, d.items[code].Record());
    assert ProductTable(d).items.Keys == u.items.Keys;
    assert ProductTable(d).items == u.items;
  }

  /** The add-on counterpart of `ProductTableAfter`. */
  lemma AddonTableAfter(d: Dict<Addon>, t0: Table<AddonRecord>, code: string)
    requires d.Valid() && code in d.items && d.items[code].code == code
    requires d.keys == (if code in t0.items then t0.keys else t0.keys + [code])
    requires d.items.Keys == t0.items.Keys + {code}
    requires forall k :: k in d.items && k != code ==> d.items[k].code == k && d.items[k].Record() == t0.items[k]
    ensures AddonsValid(d)
    ensures AddonTable(d) == Insert(t0, code, d.items[code].Record())
  {
    var u := Insert(t0, code, d.items[code].Record());
    assert AddonTable(d).items.Keys == u.items.Keys;
    assert AddonTable(d).items == u.items;
  }

  /** The persisted view stays as it was while neither the dictionary nor its products change. */
  twostate lemma ProductTableKept(d: Dict<Product>)
    requires unchanged(d) && unchanged(old(d.items.Values))
    ensures ProductTable(d) == old(ProductTable(d))
  {
  }

  /** The persisted view stays as it was while neither the dictionary nor its add-ons change. */
  twostate lemma AddonTableKept(d: Dict<Addon>)
    requires unchanged(d) && unchanged(old(d.items.Values))
    ensures AddonTable(d) == old(AddonTable(d))
  {
  }

  /** A selected code: `UpdateProducts` replaces just that entry by its updated record. */
  lemma UpdateProductsAt(t: Table<ProductRecord>, codeInput: string, priceInput: string, statusInput: string)
    requires Selects(t.items, codeInput)
    ensures var code := EnteredCode(codeInput);
      UpdateProducts(t, codeInput, priceInput, statusInput)
        == Insert(t, code, UpdatedProduct(t.items[code], priceInput, statusInput))
  {
  }

  /** Entering a code that is not selected ("0" to go back, or an unknown code) changes nothing. */
  lemma UpdateProductsUnselected(t: Table<ProductRecord>, codeInput: string, priceInput: string, statusInput: string)
    requires !Selects(t.items, codeInput)
    ensures UpdateProducts(t, codeInput, priceInput, statusInput) == t
  {
  }

  /** Updating a well-formed table keeps it well formed: the record stays under its own code. */
  lemma UpdateProductsWellFormed(t: Table<ProductRecord>, codeInput: string, priceInput: string, statusInput: string)
    requires WellFormed(t, ProductCode)
    ensures WellFormed(UpdateProducts(t, codeInput, priceInput, statusInput), ProductCode)
  {
    if Selects(t.items, codeInput) {
      var code := EnteredCode(codeInput);
      UpdateProductsAt(t, codeInput, priceInput, statusInput);
      InsertKeepsWellFormed(t, code, UpdatedProduct(t.items[code], priceInput, statusInput), ProductCode);
    }
  }

  /** A selected code: `UpdateAddons` replaces just that entry by its updated record. */
  lemma UpdateAddonsAt(t: Table<AddonRecord>, codeInput: string, priceInput: string, statusInput: string)
    requires Selects(t.items, codeInput)
    ensures var code := EnteredCode(codeInput);
      UpdateAddons(t, codeInput, priceInput, statusInput)
        == Insert(t, code, UpdatedAddon(t.items[code], priceInput, statusInput))
  {
  }

  /** Entering a code that is not selected ("0" to go back, or an unknown code) changes nothing. */
  lemma UpdateAddonsUnselected(t: Table<AddonRecord>, codeInput: string, priceInput: string, statusInput: string)
    requires !Selects(t.items, codeInput)
    ensures UpdateAddons(t, codeInput, priceInput, statusInput) == t
  {
  }

  /** Updating a well-formed table keeps it well formed: the record stays under its own code. */
  lemma UpdateAddonsWellFormed(t: Table<AddonRecord>, codeInput: string, priceInput: string, statusInput: string)
    requires WellFormed(t, AddonCode)
    ensures WellFormed(UpdateAddons(t, codeInput, priceInput, statusInput), AddonCode)
  {
    if Selects(t.items, codeInput) {
      var code := EnteredCode(codeInput);
      UpdateAddonsAt(t, codeInput, priceInput, statusInput);
      InsertKeepsWellFormed(t, code, UpdatedAddon(t.items[code], priceInput, statusInput), AddonCode);
    }
  }

  /**
   * `view_update_blooms`: the product found under the entered code is updated in place
   * (`update_price`, `update_status`) and the catalog is saved; the text saved is returned.
   */
  method UpdateBloom(d: Dict<Product>, codeInput: string, priceInput: string, statusInput: string)
    returns (written: Option<string>)
    requires ProductsValid(d)
    modifies d.items.Values
    ensures ProductsValid(d)
    ensures ProductTable(d) == UpdateProducts(old(ProductTable(d)), codeInput, priceInput, statusInput)
    ensures written == if Selects(d.items, codeInput) then Some(SaveProductsText(ProductTable(d))) else None
    ensures !Selects(d.items, codeInput) ==> unchanged(d.items.Values)
    ensures Selects(d.items, codeInput) ==>
      var p := d.items[EnteredCode(codeInput)];
      && unchanged(d.items.Values - {p})
      && p.ratings == old(p.ratings) && p.rating == old(p.rating) && p.ratingCount == old(p.ratingCount)
  {
    var code := EnteredCode(codeInput);
    if code == "0" || code !in d.items {
      return None;
    }
    ghost var t0 := ProductTable(d);
    var p := d.items[code];
    EnterProductPrice(p, priceInput);
    EnterProductStatus(p, statusInput);
    forall k | k in d.items && k != code ensures d.items[k].code == k && d.items[k].Record() == t0.items[k] {
      ghost var q := d.items[k];
      assert old(q.code) == k;
      assert q != p;
    }
    ProductTableAfter(d, t0, code);
    UpdateProductsAt(t0, codeInput, priceInput, statusInput);
    written := Some(SaveProductsText(ProductTable(d)));
  }

  /** `view_update_addons`, as `UpdateBloom`. */
  method UpdateAddon(d: Dict<Addon>, codeInput: string, priceInput: string, statusInput: string)
    returns (written: Option<string>)
    requires AddonsValid(d)
    modifies d.items.Values
    ensures AddonsValid(d)
    ensures AddonTable(d) == UpdateAddons(old(AddonTable(d)), codeInput, priceInput, statusInput)
    ensures written == if Selects(d.items, codeInput) then Some(SaveAddonsText(AddonTable(d))) else None
  {
    var code := EnteredCode(codeInput);
    if code == "0" || code !in d.items {
      return None;
    }
    ghost var t0 := AddonTable(d);
    var a := d.items[code];
    EnterAddonPrice(a, priceInput);
    EnterAddonStatus(a, statusInput);
    forall k | k in d.items && k != code ensures d.items[k].code == k && d.items[k].Record() == t0.items[k] {
      ghost var q := d.items[k];
      assert old(q.code) == k;
      assert q != a;
    }
    AddonTableAfter(d, t0, code);
    UpdateAddonsAt(t0, codeInput, priceInput, statusInput);
    written := Some(SaveAddonsText(AddonTable(d)));
  }

  // ---------------------------------------------------------------------------
  // Adding a new entry

  /** Why an add screen returns without adding anything. */
  datatype Rejection = EmptyName | DuplicateCode | InvalidPrice | NonPositivePrice

  /** What the checks of an add screen decide: the name and price to add, or why not. */
  datatype Admission = Admit(name: string, price: int) | Reject(why: Rejection)

  /**
   * The checks `add_new_bloom` and `add_new_addon` make, in their order: a non-empty name,
   * a manually entered code (`None` when the code is generated) that is not taken, and a
   * price entry that parses and is above zero.
   */
  function CheckNewItem<V>(items: map<string, V>, nameInput: string, manualCode: Option<string>, priceInput: string)
    : (a: Admission)
    ensures a == Reject(EmptyName) <==> Strip(nameInput) == ""
    ensures a == Reject(DuplicateCode) <==>
      Strip(nameInput) != "" && manualCode.Some? && EnteredCode(manualCode.value) in items
    ensures a.Admit? <==>
      && Strip(nameInput) != ""
      && !(manualCode.Some? && EnteredCode(manualCode.value) in items)
      && ParsePrice(Strip(priceInput)).Some? && ParsePrice(Strip(priceInput)).value > 0
    ensures a.Admit? ==> a.name == Strip(nameInput) && ParsePrice(Strip(priceInput)) == Some(a.price)
    ensures a == Reject(InvalidPrice) ==> ParsePrice(Strip(priceInput)) == None
  {
    var name := Strip(nameInput);
    if name == "" then Reject(EmptyName)
    else if manualCode.Some? && EnteredCode(manualCode.value) in items then Reject(DuplicateCode)
    else
      match ParsePrice(Strip(priceInput))
      case None => Reject(InvalidPrice)
      case Some(p) => if p <= 0 then Reject(NonPositivePrice) else Admit(name, p)
  }

  /** The categories offered for a new bloom, in menu order. */
  const Categories: seq<string> := ["Romantic", "Birthday", "Grand Opening", "Condolence", "Anniversary"]

  /** The code prefix of each category, in the same order (`prefix_map`). */
  const CategoryPrefixes: seq<string> := ["R", "B", "GO", "C", "A"]

  /** The prefix of generated add-on codes. */
  const AddonPrefix := "ADD"

  /** Text made of capital ASCII letters and digits only. */
  predicate CapitalsAndDigits(s: string)
  {
    forall i :: 0 <= i < |s| ==> ('A' <= s[i] <= 'Z') || IsDigit(s[i])
  }

  /** A code of capitals and digits is found again when typed at a prompt. */
  lemma CapitalCodeEntered(code: string)
    requires CapitalsAndDigits(code)
    ensures EnteredCode(code) == code
  {
    CapitalTrimmed(code);
    assert forall i :: 0 <= i < |code| ==> !('a' <= code[i] <= 'z');
    UpperKeeps(code);
  }

  lemma CapitalTrimmed(code: string)
    requires CapitalsAndDigits(code)
    ensures Strip(code) == code
  {
    if code != [] {
      CapitalNotSpace(code[0]);
      CapitalNotSpace(code[|code| - 1]);
    }
    StripTrimmed(code);
  }

  lemma CapitalNotSpace(c: char)
    requires ('A' <= c <= 'Z') || IsDigit(c)
    ensures !IsSpace(c)
  {
  }

  /**
   * Every generated code, for a bloom of any category or for an add-on, can be typed back at
   * the update screens: the prompt's `strip().upper()` leaves it as it is.
   */
  lemma GeneratedCodeEntered(prefix: string, counter: nat)
    requires prefix == AddonPrefix || prefix in CategoryPrefixes
    ensures EnteredCode(Codes.CodeFor(prefix, counter)) == Codes.CodeFor(prefix, counter)
  {
    var code := Codes.CodeFor(prefix, counter);
    var digits := PadZeros(counter, 3);
    assert code == prefix + digits;
    assert CapitalsAndDigits(prefix);
    forall i | 0 <= i < |code| ensures ('A' <= code[i] <= 'Z') || IsDigit(code[i]) {
      if i >= |prefix| {
        assert code[i] == digits[i - |prefix|];
      }
    }
    CapitalCodeEntered(code);
  }

  /**
   * `add_new_bloom`: after the checks of `CheckNewItem`, a new `Available` product is stored
   * under the entered code, or under the first free code of the category's prefix, and the
   * catalog is saved; the code added and the text saved are returned.
   */
  method AddBloom(d: Dict<Product>, nameInput: string, manualCode: Option<string>, priceInput: string, category: nat)
    returns (added: Option<string>, written: Option<string>, ghost counter: nat)
    requires ProductsValid(d)
    requires category < |Categories|
    modifies d
    ensures ProductsValid(d)
    ensures CheckNewItem(old(d.items), nameInput, manualCode, priceInput).Reject? ==>
      added == None && written == None && ProductTable(d) == old(ProductTable(d))
    ensures CheckNewItem(old(d.items), nameInput, manualCode, priceInput).Admit? ==>
      var a := CheckNewItem(old(d.items), nameInput, manualCode, priceInput);
      && added.Some? && added.value !in old(d.items)
      && ProductTable(d) == Insert(old(ProductTable(d)), added.value,
           ProductRecord(added.value, a.name, Categories[category], a.price, Available))
      && written == Some(SaveProductsText(ProductTable(d)))
    ensures added.Some? && manualCode.Some? ==> added.value == EnteredCode(manualCode.value)
    ensures added.Some? && manualCode.None? ==>
      && counter >= 1 && added.value == Codes.CodeFor(CategoryPrefixes[category], counter)
      && forall k :: 1 <= k < counter ==> Codes.CodeFor(CategoryPrefixes[category], k) in old(d.items)
    ensures added.Some? ==>
      && added.value in d.items && fresh(d.items[added.value])
      && d.items[added.value].rating == 0.0 && d.items[added.value].ratingCount == 0 && d.items[added.value].ratings == []
    ensures added.None? ==> d.items == old(d.items)
    ensures added.Some? ==> d.items == old(d.items)[added.value := d.items[added.value]]
  {
    added, written, counter := None, None, 0;
    ghost var verdict := CheckNewItem(d.items, nameInput, manualCode, priceInput);
    var name := Strip(nameInput);
    if name == "" {
      assert verdict == Reject(EmptyName);
      return;
    }
    var code := "";
    if manualCode.Some? {
      code := EnteredCode(manualCode.value);
      if code in d.items {
        assert verdict == Reject(DuplicateCode);
        return;
      }
    }
    var price := ParsePrice(Strip(priceInput));
    if price.None? || price.value <= 0 {
      assert verdict.Reject?;
      return;
    }
    assert verdict == Admit(name, price.value);
    var cat := Categories[category];
    if manualCode.None? {
      code, counter := Codes.GenerateUniqueCode(CategoryPrefixes[category], d.items.Keys);
      ProductTableKept(d);
    }
    ghost var t0 := ProductTable(d);
    var r := ProductRecord(code, name, cat, price.value, Available);
    var p := PutProduct(d, r);
    assert ProductTable(d) == Insert(t0, code, r);
    added := Some(code);
    written := Some(SaveProductsText(ProductTable(d)));
  }

  /**
   * `add_new_addon`: as `AddBloom`, with no category; generated codes take the prefix `ADD`.
   */
  method AddAddon(d: Dict<Addon>, nameInput: string, manualCode: Option<string>, priceInput: string)
    returns (added: Option<string>, written: Option<string>, ghost counter: nat)
    requires AddonsValid(d)
    modifies d
    ensures AddonsValid(d)
    ensures CheckNewItem(old(d.items), nameInput, manualCode, priceInput).Reject? ==>
      added == None && written == None && AddonTable(d) == old(AddonTable(d))
    ensures CheckNewItem(old(d.items), nameInput, manualCode, priceInput).Admit? ==>
      var a := CheckNewItem(old(d.items), nameInput, manualCode, priceInput);
      && added.Some? && added.value !in old(d.items)
      && AddonTable(d) == Insert(old(AddonTable(d)), added.value, AddonRecord(added.value, a.name, a.price, Available))
      && written == Some(SaveAddonsText(AddonTable(d)))
    ensures added.Some? && manualCode.Some? ==> added.value == EnteredCode(manualCode.value)
    ensures added.Some? && manualCode.None? ==>
      && counter >= 1 && added.value == Codes.CodeFor(AddonPrefix, counter)
      && forall k :: 1 <= k < counter ==> Codes.CodeFor(AddonPrefix, k) in old(d.items)
    ensures added.Some? ==> added.value in d.items && fresh(d.items[added.value])
    ensures added.None? ==> d.items == old(d.items)
    ensures added.Some? ==> d.items == old(d.items)[added.value := d.items[added.value]]
  {
    added, written, counter := None, None, 0;
    ghost var verdict := CheckNewItem(d.items, nameInput, manualCode, priceInput);
    var name := Strip(nameInput);
    if name == "" {
      assert verdict == Reject(EmptyName);
      return;
    }
    var code := "";
    if manualCode.Some? {
      code := EnteredCode(manualCode.value);
      if code in d.items {
        assert verdict == Reject(DuplicateCode);
        return;
      }
    } else {
      code, counter := Codes.GenerateUniqueCode(AddonPrefix, d.items.Keys);
      AddonTableKept(d);
    }
    var price := ParsePrice(Strip(priceInput));
    if price.None? || price.value <= 0 {
      assert verdict.Reject?;
      return;
    }
    assert verdict == Admit(name, price.value);
    ghost var t0 := AddonTable(d);
    var r := AddonRecord(code, name, price.value, Available);
    var a := PutAddon(d, r);
    assert AddonTable(d) == Insert(t0, code, r);
    added := Some(code);
    written := Some(SaveAddonsText(AddonTable(d)));
  }
}
