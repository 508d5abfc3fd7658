/**
 * The catalog files: one comma-separated line per product or add-on, read back by
 * fixed-position splitting into a dictionary keyed by code (`load_products`,
 * `load_addons`) and written in dictionary order (`save_products`, `save_addons`).
 */
module Records {
  import opened Wrappers
  import opened Text
  import opened Numerals

  /** The persisted fields of a product (rating and rating count are not written). */
  datatype ProductRecord = ProductRecord(code: string, name: string, category: string, price: int, status: string)

  /** The persisted fields of an add-on. */
  datatype AddonRecord = AddonRecord(code: string, name: string, price: int, status: string)

  /** What one line of a catalog file does to a load: nothing, one record, or an exception that ends the load. */
  datatype LineResult<R> = Skip | Parsed(rec: R) | Raise

  const Available := "Available"

  /** A Python dict from codes to records: insertion-ordered keys and the mapping. */
  datatype Table<R> = Table(keys: seq<string>, items: map<string, R>)

  function EmptyTable<R>(): Table<R>
  {
    Table([], map[])
  }

  predicate Distinct(keys: seq<string>)
  {
    forall i, j :: 0 <= i < j < |keys| ==> keys[i] != keys[j]
  }

  /** Each key is listed once, the listing matches the mapping, and every record sits under its own code. */
  predicate WellFormed<R>(t: Table<R>, key: R -> string)
  {
    Distinct(t.keys)
    && (forall k :: k in t.keys ==> k in t.items)
    && (forall k :: k in t.items ==> k in t.keys)
    && (forall k :: k in t.items ==> key(t.items[k]) == k)
  }

  /** `d[k] = r`: a new key goes to the end, an existing key keeps its place and takes the new record. */
  function Insert<R>(t: Table<R>, k: string, r: R): (u: Table<R>)
    ensures u.items == t.items[k := r]
    ensures k in t.items ==> u.keys == t.keys
    ensures k !in t.items ==> u.keys == t.keys + [k]
  {
    Table(if k in t.items then t.keys else t.keys + [k], t.items[k := r])
  }

  /** Storing a record under its own code keeps a table well formed. */
  lemma InsertKeepsWellFormed<R>(t: Table<R>, k: string, r: R, key: R -> string)
    requires WellFormed(t, key) && key(r) == k
    ensures WellFormed(Insert(t, k, r), key)
  {
  }

  /**
   * The load loop from `acc` on: lines that parse are inserted under their code, skipped
   * lines change nothing, and the first line that raises ends the load with what was read so far.
   */
  function LoadFrom<R>(acc: Table<R>, lines: seq<string>, parse: string -> LineResult<R>, key: R -> string): Table<R>
    decreases |lines|
  {
    if lines == [] then acc
    else
      match parse(lines[0])
      case Skip => LoadFrom(acc, lines[1..], parse, key)
      case Raise => acc
      case Parsed(r) => LoadFrom(Insert(acc, key(r), r), lines[1..], parse, key)
  }

  /** One step of the load loop on a line that does not raise. */
  function LoadLine<R>(acc: Table<R>, line: string, parse: string -> LineResult<R>, key: R -> string): Table<R>
  {
    match parse(line)
    case Parsed(r) => Insert(acc, key(r), r)
    case _ => acc
  }

  /** The record lines of a table, in key order. */
  function SaveLines<R>(t: Table<R>, format: R -> string): (lines: seq<string>)
    requires forall k :: k in t.keys ==> k in t.items
    ensures |lines| == |t.keys|
    ensures forall i :: 0 <= i < |t.keys| ==> lines[i] == format(t.items[t.keys[i]])
  {
    seq(|t.keys|, i requires 0 <= i < |t.keys| => format(t.items[t.keys[i]]))
  }

  // ---------------------------------------------------------------------------
  // Properties of the load loop

  /** Loading lines none of which raises, then one more line, is one more step of the loop. */
  lemma {:induction false} LoadFromAppend<R>(acc: Table<R>, lines: seq<string>, line: string,
                                             parse: string -> LineResult<R>, key: R -> string)
    requires forall i :: 0 <= i < |lines| ==> !parse(lines[i]).Raise?
    ensures LoadFrom(acc, lines + [line], parse, key) == LoadLine(LoadFrom(acc, lines, parse, key), line, parse, key)
            || parse(line).Raise?
    ensures LoadFrom(acc, lines + [line], parse, key) == LoadFrom(acc, lines, parse, key) || !parse(line).Raise?
    decreases |lines|
  {
    if lines == [] {
      assert [line][1..] == [];
    } else {
      assert (lines + [line])[1..] == lines[1..] + [line];
      var next := match parse(lines[0]) case Parsed(r) => Insert(acc, key(r), r) case _ => acc;
      LoadFromAppend(next, lines[1..], line, parse, key);
    }
  }

  /** A later line with the same code overwrites the record of an earlier one (last one wins). */
  lemma LastLineWins<R>(acc: Table<R>, lines: seq<string>, line: string, r: R,
                        parse: string -> LineResult<R>, key: R -> string)
    requires forall i :: 0 <= i < |lines| ==> !parse(lines[i]).Raise?
    requires parse(line) == Parsed(r)
    ensures key(r) in LoadFrom(acc, lines + [line], parse, key).items
    ensures LoadFrom(acc, lines + [line], parse, key).items[key(r)] == r
  {
    LoadFromAppend(acc, lines, line, parse, key);
  }

  /** A line that raises ends the load: later lines are ignored and earlier records kept. */
  lemma {:induction false} LoadStopsAtRaise<R>(acc: Table<R>, lines: seq<string>, i: nat,
                                               parse: string -> LineResult<R>, key: R -> string)
    requires i < |lines| && parse(lines[i]).Raise?
    ensures LoadFrom(acc, lines, parse, key) == LoadFrom(acc, lines[..i], parse, key)
    decreases i
  {
    if i == 0 {
      assert lines[..0] == [];
    } else {
      var next := match parse(lines[0]) case Parsed(r) => Insert(acc, key(r), r) case _ => acc;
      assert lines[..i][1..] == lines[1..][..i - 1];
      if !parse(lines[0]).Raise? {
        LoadStopsAtRaise(next, lines[1..], i - 1, parse, key);
      }
    }
  }

  /** The first `i` entries of a table. */
  function Prefix<R>(t: Table<R>, i: nat): Table<R>
    requires i <= |t.keys|
    requires forall k :: k in t.keys ==> k in t.items
  {
    Table(t.keys[..i], map k | k in t.keys[..i] :: t.items[k])
  }

  /** Inserting the next saved record extends the prefix by one entry. */
  lemma PrefixStep<R>(t: Table<R>, i: nat, key: R -> string)
    requires WellFormed(t, key)
    requires i < |t.keys|
    ensures t.keys[i] !in Prefix(t, i).items
    ensures Insert(Prefix(t, i), t.keys[i], t.items[t.keys[i]]) == Prefix(t, i + 1)
  {
    var k := t.keys[i];
    forall j | 0 <= j < i ensures t.keys[..i][j] != k { }
    assert t.keys[..i + 1] == t.keys[..i] + [k];
    var u := Insert(Prefix(t, i), k, t.items[k]);
    assert u.keys == Prefix(t, i + 1).keys;
    forall x | x in t.keys[..i + 1] ensures x in u.items && u.items[x] == t.items[x] {
      if x != k {
        assert x in t.keys[..i];
      }
    }
    assert u.items == Prefix(t, i + 1).items;
  }

  lemma {:induction false} LoadSavedFrom<R>(t: Table<R>, i: nat, parse: string -> LineResult<R>,
                                            key: R -> string, format: R -> string)
    requires WellFormed(t, key)
    requires i <= |t.keys|
    requires forall k :: k in t.items ==> parse(format(t.items[k])) == Parsed(t.items[k])
    ensures LoadFrom(Prefix(t, i), SaveLines(t, format)[i..], parse, key) == t
    decreases |t.keys| - i
  {
    var lines := SaveLines(t, format);
    if i == |t.keys| {
      assert lines[i..] == [];
      assert Prefix(t, i).keys == t.keys;
      assert Prefix(t, i).items == t.items;
    } else {
      var k := t.keys[i];
      var r := t.items[k];
      var rest := lines[i..];
      assert rest[0] == format(r);
      assert rest[1..] == lines[i + 1..];
      assert parse(rest[0]) == Parsed(r);
      assert key(r) == k;
      PrefixStep(t, i, key);
      LoadSavedFrom(t, i + 1, parse, key, format);
      assert LoadFrom(Prefix(t, i), rest, parse, key)
          == LoadFrom(Insert(Prefix(t, i), k, r), rest[1..], parse, key);
    }
  }

  /** Loading the lines saved from a well-formed table gives the table back, order included. */
  lemma LoadSaved<R>(t: Table<R>, parse: string -> LineResult<R>, key: R -> string, format: R -> string)
    requires WellFormed(t, key)
    requires forall k :: k in t.items ==> parse(format(t.items[k])) == Parsed(t.items[k])
    ensures LoadFrom(EmptyTable(), SaveLines(t, format), parse, key) == t
  {
    LoadSavedFrom(t, 0, parse, key, format);
    assert Prefix(t, 0) == EmptyTable();
  }

  // ---------------------------------------------------------------------------
  // Product lines: code,name,category,price[,status]

  function ProductCode(r: ProductRecord): string { r.code }

  /**
   * One iteration of the `load_products` loop: the stripped line is skipped when empty or
   * with fewer than 4 fields; 4 fields take the default status; 5 fields are unpacked;
   * more than 5 fields, or a price `float` rejects, raise.
   */
  function ParseProductLine(raw: string): LineResult<ProductRecord>
  {
    var line := Strip(raw);
    if line == "" then Skip
    else
      var parts := Split(line, ',');
      if |parts| >= 5 then
        if |parts| > 5 then Raise
        else
          match ParsePrice(parts[3])
          case None => Raise
          case Some(p) => Parsed(ProductRecord(parts[0], parts[1], parts[2], p, parts[4]))
      else if |parts| == 4 then
        match ParsePrice(parts[3])
        case None => Raise
        case Some(p) => Parsed(ProductRecord(parts[0], parts[1], parts[2], p, Available))
      else Skip
  }

  /** The line `save_products` writes: `f"{code},{name},{category},{price},{status}"`. */
  function FormatProductLine(r: ProductRecord): string
  {
    Join([r.code, r.name, r.category, FormatPrice(r.price), r.status], ',')
  }

  /** `load_products`, on the file text (`None`: the file does not exist). */
  function LoadProductsText(file: Option<string>): Table<ProductRecord>
  {
    match file
    case None => EmptyTable()
    case Some(text) => LoadFrom(EmptyTable(), FileLines(text), ParseProductLine, ProductCode)
  }

  /** `save_products`: the file text written for a catalog. */
  function SaveProductsText(t: Table<ProductRecord>): string
    requires forall k :: k in t.keys ==> k in t.items
  {
    WriteLines(SaveLines(t, FormatProductLine))
  }

  predicate NoLineBreak(s: string)
  {
    forall c :: c in s ==> !IsLineBreak(c)
  }

  /**
   * A field survives the comma-separated line: it holds no comma and no line break.
   * The first field must not start, and the last must not end, with whitespace, which
   * the loader strips from the line.
   */
  predicate PersistableFields(fields: seq<string>)
  {
    |fields| >= 1
    && (forall i :: 0 <= i < |fields| ==> ',' !in fields[i] && NoLineBreak(fields[i]))
    && (fields[0] == "" || !IsSpace(fields[0][0]))
    && (fields[|fields| - 1] == "" || !IsSpace(fields[|fields| - 1][|fields[|fields| - 1]| - 1]))
  }

  predicate PersistableProduct(r: ProductRecord)
  {
    PersistableFields([r.code, r.name, r.category, r.status])
  }

  lemma PriceTextPlain(p: int)
    ensures ',' !in FormatPrice(p) && NoLineBreak(FormatPrice(p))
    ensures !IsSpace(FormatPrice(p)[0]) && !IsSpace(FormatPrice(p)[|FormatPrice(p)| - 1])
  {
    var s := FormatPrice(p);
    var a := if p < 0 then -p else p;
    var w := NatToDigits(a / 100);
    var f := FractionText(a % 100);
    assert s == (if p < 0 then "-" else "") + w + "." + f;
    forall c | c in s ensures c == '-' || c == '.' || IsDigit(c) {
      var i :| 0 <= i < |s| && s[i] == c;
      if p < 0 && i == 0 {
      } else {
        var j := if p < 0 then i - 1 else i;
        if j < |w| { assert c == w[j]; }
        else if j > |w| { assert c == f[j - |w| - 1]; }
      }
    }
    assert s[|s| - 1] == f[|f| - 1];
  }

  /** A line built from fields that survive it, split at commas after stripping, gives the fields back. */
  lemma SplitFormattedLine(fields: seq<string>)
    requires PersistableFields(fields)
    ensures Split(Strip(Join(fields, ',')), ',') == fields
    ensures Strip(Join(fields, ',')) == Join(fields, ',')
    ensures NoLineBreak(Join(fields, ','))
  {
    var line := Join(fields, ',');
    JoinShape(fields, ',');
    if line != [] {
      StripTrimmed(line);
    }
    SplitJoin(fields, ',');
  }

  /** The first character of a joined line is that of its first field, or the separator; likewise at the end. */
  lemma {:induction false} JoinShape(fields: seq<string>, sep: char)
    requires |fields| >= 1
    requires forall i :: 0 <= i < |fields| ==> NoLineBreak(fields[i])
    requires !IsLineBreak(sep)
    ensures var line := Join(fields, sep);
      && NoLineBreak(line)
      && (line == [] || line[0] == (if fields[0] == "" then sep else fields[0][0]))
      && (line == [] || line[|line| - 1] == (if fields[|fields| - 1] == "" then sep else fields[|fields| - 1][|fields[|fields| - 1]| - 1]))
      && (|fields| > 1 ==> line != [])
  {
    if |fields| > 1 {
      JoinShape(fields[1..], sep);
      var rest := Join(fields[1..], sep);
      assert Join(fields, sep) == fields[0] + [sep] + rest;
      forall c | c in Join(fields, sep) ensures !IsLineBreak(c) {
        assert c in fields[0] || c == sep || c in rest;
      }
    }
  }

  /** A written product line reads back as the same record. */
  lemma ProductLineRoundTrip(r: ProductRecord)
    requires PersistableProduct(r)
    ensures ParseProductLine(FormatProductLine(r)) == Parsed(r)
    ensures NoLineBreak(FormatProductLine(r))
  {
    var fields := [r.code, r.name, r.category, FormatPrice(r.price), r.status];
    ProductFieldsPersistable(r);
    SplitFormattedLine(fields);
    FormatPriceRoundTrip(r.price);
    ParseFiveFields(FormatProductLine(r), fields, r.price);
  }

  /** A line of five fields whose fourth reads as a price is parsed field by field. */
  lemma ParseFiveFields(raw: string, fields: seq<string>, p: int)
    requires |fields| == 5 && Split(Strip(raw), ',') == fields && Strip(raw) != ""
    requires ParsePrice(fields[3]) == Some(p)
    ensures ParseProductLine(raw) == Parsed(ProductRecord(fields[0], fields[1], fields[2], p, fields[4]))
  {
  }

  lemma ProductFieldsPersistable(r: ProductRecord)
    requires PersistableProduct(r)
    ensures PersistableFields([r.code, r.name, r.category, FormatPrice(r.price), r.status])
  {
    var kept := [r.code, r.name, r.category, r.status];
    assert kept[0] == r.code && kept[1] == r.name && kept[2] == r.category && kept[3] == r.status;
    PriceTextPlain(r.price);
    var fields := [r.code, r.name, r.category, FormatPrice(r.price), r.status];
    forall i | 0 <= i < 5 ensures ',' !in fields[i] && NoLineBreak(fields[i]) {
      if i < 3 { assert fields[i] == kept[i]; }
      else if i == 4 { assert fields[i] == kept[3]; }
    }
  }

  /**
   * Saving a catalog and loading the file again gives back every record, under the same
   * code and in the same order, provided the fields survive the line format.
   */
  lemma ProductsRoundTrip(t: Table<ProductRecord>)
    requires WellFormed(t, ProductCode)
    requires forall k :: k in t.items ==> PersistableProduct(t.items[k])
    ensures LoadProductsText(Some(SaveProductsText(t))) == t
  {
    var lines := SaveLines(t, FormatProductLine);
    forall k | k in t.items
      ensures ParseProductLine(FormatProductLine(t.items[k])) == Parsed(t.items[k])
    {
      ProductLineRoundTrip(t.items[k]);
    }
    forall i | 0 <= i < |lines| ensures NoLineBreak(lines[i]) {
      ProductLineRoundTrip(t.items[t.keys[i]]);
    }
    FileLinesWriteLines(lines);
    LoadSaved(t, ParseProductLine, ProductCode, FormatProductLine);
  }

  /** Text holding the separator splits into at least two fields. */
  lemma SplitSeveral(s: string, sep: char)
    requires sep in s
    ensures |Split(s, sep)| >= 2
  {
    var i :| 0 <= i < |s| && s[i] == sep;
    assert s == s[..i] + [sep] + s[i + 1..];
    SplitConcat(s[..i], sep, s[i + 1..]);
  }

  /** Splitting around one separator splits each side separately. */
  lemma {:induction false} SplitConcat(a: string, sep: char, b: string)
    ensures Split(a + [sep] + b, sep) == Split(a, sep) + Split(b, sep)
  {
    if a == [] {
      assert a + [sep] + b == [sep] + b;
      assert ([sep] + b)[1..] == b;
    } else {
      assert (a + [sep] + b)[1..] == a[1..] + [sep] + b;
      SplitConcat(a[1..], sep, b);
    }
  }

  /** A joined line has at least one field per part, and one more when some part holds the separator. */
  lemma {:induction false} SplitJoinCount(fields: seq<string>, sep: char)
    requires |fields| >= 1
    ensures |Split(Join(fields, sep), sep)| >= |fields|
    ensures (exists i :: 0 <= i < |fields| && sep in fields[i]) ==> |Split(Join(fields, sep), sep)| > |fields|
  {
    if sep in fields[0] {
      SplitSeveral(fields[0], sep);
    }
    if |fields| > 1 {
      SplitJoinCount(fields[1..], sep);
      SplitConcat(fields[0], sep, Join(fields[1..], sep));
      if exists i :: 0 <= i < |fields| && sep in fields[i] {
        var i :| 0 <= i < |fields| && sep in fields[i];
        if i > 0 {
          assert sep in fields[1..][i - 1];
        }
      }
    }
  }

  /**
   * The side condition on commas is needed: a name or category holding a comma is written
   * unescaped, its line then has more than five fields, and reloading raises on that line,
   * which (LoadStopsAtRaise) loses that product and every product saved after it.
   */
  lemma CommaInFieldRaises(r: ProductRecord)
    requires ',' in r.name || ',' in r.category
    requires NoLineBreak(r.code) && NoLineBreak(r.name) && NoLineBreak(r.category) && NoLineBreak(r.status)
    requires r.code == "" || !IsSpace(r.code[0])
    requires r.status == "" || !IsSpace(r.status[|r.status| - 1])
    ensures ParseProductLine(FormatProductLine(r)) == Raise
  {
    var fields := [r.code, r.name, r.category, FormatPrice(r.price), r.status];
    var line := FormatProductLine(r);
    ProductLineTrimmed(r);
    if ',' in r.name {
      assert ',' in fields[1];
    } else {
      assert ',' in fields[2];
    }
    SplitJoinCount(fields, ',');
    assert |Split(Strip(line), ',')| > 5;
  }

  /** A product line whose code and status have no edge whitespace is left unchanged by stripping. */
  lemma ProductLineTrimmed(r: ProductRecord)
    requires NoLineBreak(r.code) && NoLineBreak(r.name) && NoLineBreak(r.category) && NoLineBreak(r.status)
    requires r.code == "" || !IsSpace(r.code[0])
    requires r.status == "" || !IsSpace(r.status[|r.status| - 1])
    ensures Strip(FormatProductLine(r)) == FormatProductLine(r) != ""
  {
    var fields := [r.code, r.name, r.category, FormatPrice(r.price), r.status];
    PriceTextPlain(r.price);
    assert forall i :: 0 <= i < |fields| ==> NoLineBreak(fields[i]);
    JoinShape(fields, ',');
    StripTrimmed(Join(fields, ','));
  }

  // ---------------------------------------------------------------------------
  // Add-on lines: code,name,price[,status]

  function AddonCode(r: AddonRecord): string { r.code }

  /**
   * One iteration of the `load_addons` loop: as for products, with one field fewer —
   * 3 fields take the default status, 4 are unpacked, more raise.
   */
  function ParseAddonLine(raw: string): LineResult<AddonRecord>
  {
    var line := Strip(raw);
    if line == "" then Skip
    else
      var parts := Split(line, ',');
      if |parts| >= 4 then
        if |parts| > 4 then Raise
        else
          match ParsePrice(parts[2])
          case None => Raise
          case Some(p) => Parsed(AddonRecord(parts[0], parts[1], p, parts[3]))
      else if |parts| == 3 then
        match ParsePrice(parts[2])
        case None => Raise
        case Some(p) => Parsed(AddonRecord(parts[0], parts[1], p, Available))
      else Skip
  }

  /** The line `save_addons` writes: `f"{code},{name},{price},{status}"`. */
  function FormatAddonLine(r: AddonRecord): string
  {
    Join([r.code, r.name, FormatPrice(r.price), r.status], ',')
  }

  /** The three add-ons created when `Addons.txt` does not exist (prices 8, 12 and 16 dollars), in this order. */
  function DefaultAddons(): Table<AddonRecord>
  {
    var t1 := Insert(EmptyTable(), "ADD001", AddonRecord("ADD001", "Chocolates", 800, Available));
    var t2 := Insert(t1, "ADD002", AddonRecord("ADD002", "Customized Handwritten card", 1200, Available));
    Insert(t2, "ADD003", AddonRecord("ADD003", "Soft Toy", 1600, Available))
  }

  /** The defaults are three records under distinct codes. */
  lemma DefaultAddonsShape()
    ensures DefaultAddons().keys == ["ADD001", "ADD002", "ADD003"]
    ensures WellFormed(DefaultAddons(), AddonCode)
  {
    var t := DefaultAddons();
    assert "ADD001" != "ADD002" && "ADD001" != "ADD003" && "ADD002" != "ADD003";
    assert t.keys[0] != t.keys[1] && t.keys[0] != t.keys[2] && t.keys[1] != t.keys[2];
  }

  /** `load_addons`, on the file text (`None`: the file does not exist and the defaults are used). */
  function LoadAddonsText(file: Option<string>): Table<AddonRecord>
  {
    match file
    case None => DefaultAddons()
    case Some(text) => LoadFrom(EmptyTable(), FileLines(text), ParseAddonLine, AddonCode)
  }

  /** `save_addons`: the file text written for a set of add-ons. */
  function SaveAddonsText(t: Table<AddonRecord>): string
    requires forall k :: k in t.keys ==> k in t.items
  {
    WriteLines(SaveLines(t, FormatAddonLine))
  }

  predicate PersistableAddon(r: AddonRecord)
  {
    PersistableFields([r.code, r.name, r.status])
  }

  lemma AddonFieldsPersistable(r: AddonRecord)
    requires PersistableAddon(r)
    ensures PersistableFields([r.code, r.name, FormatPrice(r.price), r.status])
  {
    var kept := [r.code, r.name, r.status];
    assert kept[0] == r.code && kept[1] == r.name && kept[2] == r.status;
    PriceTextPlain(r.price);
    var fields := [r.code, r.name, FormatPrice(r.price), r.status];
    forall i | 0 <= i < 4 ensures ',' !in fields[i] && NoLineBreak(fields[i]) {
      if i < 2 { assert fields[i] == kept[i]; }
      else if i == 3 { assert fields[i] == kept[2]; }
    }
  }

  /** A written add-on line reads back as the same record. */
  lemma AddonLineRoundTrip(r: AddonRecord)
    requires PersistableAddon(r)
    ensures ParseAddonLine(FormatAddonLine(r)) == Parsed(r)
    ensures NoLineBreak(FormatAddonLine(r))
  {
    var fields := [r.code, r.name, FormatPrice(r.price), r.status];
    AddonFieldsPersistable(r);
    SplitFormattedLine(fields);
    FormatPriceRoundTrip(r.price);
    var parts := Split(Strip(FormatAddonLine(r)), ',');
    assert parts == fields;
    assert |parts| == 4;
    assert ParsePrice(parts[2]) == Some(r.price);
  }

  /** Saving add-ons and loading the file again gives back every record, in the same order. */
  lemma AddonsRoundTrip(t: Table<AddonRecord>)
    requires WellFormed(t, AddonCode)
    requires forall k :: k in t.items ==> PersistableAddon(t.items[k])
    ensures LoadAddonsText(Some(SaveAddonsText(t))) == t
  {
    var lines := SaveLines(t, FormatAddonLine);
    forall k | k in t.items
      ensures ParseAddonLine(FormatAddonLine(t.items[k])) == Parsed(t.items[k])
    {
      AddonLineRoundTrip(t.items[k]);
    }
    forall i | 0 <= i < |lines| ensures NoLineBreak(lines[i]) {
      AddonLineRoundTrip(t.items[t.keys[i]]);
    }
    FileLinesWriteLines(lines);
    LoadSaved(t, ParseAddonLine, AddonCode, FormatAddonLine);
  }

  /** Three fields of plain text survive the line format. */
  lemma ThreeFieldsPersistable(a: string, b: string, c: string)
    requires ',' !in a && ',' !in b && ',' !in c
    requires NoLineBreak(a) && NoLineBreak(b) && NoLineBreak(c)
    requires a == "" || !IsSpace(a[0])
    requires c == "" || !IsSpace(c[|c| - 1])
    ensures PersistableFields([a, b, c])
  {
    var fields := [a, b, c];
    assert fields[0] == a && fields[1] == b && fields[2] == c;
  }

  lemma ChocolatesPersistable(price: int)
    ensures PersistableAddon(AddonRecord("ADD001", "Chocolates", price, Available))
  {
    assert ',' !in "Chocolates" && NoLineBreak("Chocolates");
    assert ',' !in "ADD001" && NoLineBreak("ADD001") && !IsSpace("ADD001"[0]);
    assert ',' !in Available && NoLineBreak(Available) && !IsSpace(Available[|Available| - 1]);
    ThreeFieldsPersistable("ADD001", "Chocolates", Available);
  }

  lemma CardPersistable(price: int)
    ensures PersistableAddon(AddonRecord("ADD002", "Customized Handwritten card", price, Available))
  {
    assert ',' !in "Customized Handwritten card" && NoLineBreak("Customized Handwritten card");
    assert ',' !in "ADD002" && NoLineBreak("ADD002") && !IsSpace("ADD002"[0]);
    assert ',' !in Available && NoLineBreak(Available) && !IsSpace(Available[|Available| - 1]);
    ThreeFieldsPersistable("ADD002", "Customized Handwritten card", Available);
  }

  lemma SoftToyPersistable(price: int)
    ensures PersistableAddon(AddonRecord("ADD003", "Soft Toy", price, Available))
  {
    assert ',' !in "Soft Toy" && NoLineBreak("Soft Toy");
    assert ',' !in "ADD003" && NoLineBreak("ADD003") && !IsSpace("ADD003"[0]);
    assert ',' !in Available && NoLineBreak(Available) && !IsSpace(Available[|Available| - 1]);
    ThreeFieldsPersistable("ADD003", "Soft Toy", Available);
  }

  /** The defaults written when `Addons.txt` is missing are read back unchanged on the next start. */
  lemma DefaultAddonsReload()
    ensures LoadAddonsText(Some(SaveAddonsText(LoadAddonsText(None)))) == LoadAddonsText(None)
  {
    var t := DefaultAddons();
    DefaultAddonsShape();
    ChocolatesPersistable(800);
    CardPersistable(1200);
    SoftToyPersistable(1600);
    AddonsRoundTrip(t);
  }
}
