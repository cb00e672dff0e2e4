/**
 * What one run of the import does to the store, as functions: each retained
 * row, numbered from 1, first has its categories found or created, is then
 * skipped when a product of that name exists, and otherwise either becomes a
 * product or leaves one error entry with its number. The class in
 * `import_use_case.dfy` is proved to compute exactly these functions.
 */
module ImportRun {
  import opened Wrappers
  import opened CsvRows
  import opened Taxonomy

  /** The `enum status` of a product import. */
  datatype Status = Pending | Success | Failed

  /** `record.errors.messages`: attribute name to its messages. */
  type ErrorInfo = map<string, seq<string>>

  /** `{ row_index: index, error_info: ... }`. */
  datatype RowError = RowError(rowIndex: nat, errorInfo: ErrorInfo)

  /** A created product with the attributes the import sets. */
  datatype Product = Product(
    name: Cell,
    description: Cell,
    price: Cell,
    shippingCategory: string,
    taxonIds: seq<nat>,
    countOnHand: int)

  /**
   * What the framework decides and the import cannot see: the permalink
   * `set_permalink` gives a new taxon with a given name, whether Spree's
   * validations accept the product a row describes, and the messages they
   * report when not.
   */
  datatype Config = Config(slug: string -> string, valid: Row -> bool, messages: Row -> ErrorInfo)

  /** The shipping category every imported product gets. */
  const DefaultShippingCategory: string := "Default"

  /** `product_exists?`: some stored product has exactly this name. */
  predicate ProductExists(products: seq<Product>, name: Cell) {
    exists i :: 0 <= i < |products| && products[i].name == name
  }

  /** The ids of the resolved taxons, in their order. */
  function TaxonIds(taxons: seq<Taxon>): (ids: seq<nat>)
    ensures |ids| == |taxons|
    ensures forall i :: 0 <= i < |taxons| ==> ids[i] == taxons[i].id
  {
    seq(|taxons|, i requires 0 <= i < |taxons| => taxons[i].id)
  }

  /** The outcome of `create_product`: a product, or the error entry the rescue pushes. */
  datatype Outcome = Created(product: Product) | Rejected(error: RowError)

  /**
   * `create_product`: all-or-nothing. Either the product is created with the
   * row's name, description and price, the default shipping category, all the
   * row's taxons and a stock count of zero, or nothing is created and one
   * error carrying the row index is reported.
   */
  function CreateProduct(config: Config, row: Row, index: nat, resolved: seq<Taxon>): (o: Outcome)
    ensures o.Created? <==> config.valid(row)
    ensures o.Created? ==>
      o.product.name == CellAt(row, NameColumn) &&
      o.product.description == CellAt(row, DescriptionColumn) &&
      o.product.price == CellAt(row, PriceColumn) &&
      o.product.shippingCategory == DefaultShippingCategory &&
      |o.product.taxonIds| == |resolved| &&
      (forall i :: 0 <= i < |resolved| ==> o.product.taxonIds[i] == resolved[i].id) &&
      o.product.countOnHand == 0
    ensures o.Rejected? ==> o.error.rowIndex == index && o.error.errorInfo == config.messages(row)
  {
    if config.valid(row) then
      Created(Product(CellAt(row, NameColumn), CellAt(row, DescriptionColumn), CellAt(row, PriceColumn),
        DefaultShippingCategory, TaxonIds(resolved), 0))
    else Rejected(RowError(index, config.messages(row)))
  }

  /** The store and the collected errors part way through a run. */
  datatype RunState = RunState(taxons: seq<Taxon>, products: seq<Product>, errors: seq<RowError>)

  /** One pass of the `parsed_csv.each.with_index(1)` body, for the row numbered `index`. */
  function ProcessRow(config: Config, st: RunState, row: Row, index: nat, rootId: nat, taxonomyId: nat): RunState {
    var res := ResolveCategories(config.slug, st.taxons, CategoryNames(row), rootId, taxonomyId);
    if ProductExists(st.products, CellAt(row, NameColumn)) then RunState(res.taxons, st.products, st.errors)
    else
      match CreateProduct(config, row, index, res.resolved)
      case Created(p) => RunState(res.taxons, st.products + [p], st.errors)
      case Rejected(e) => RunState(res.taxons, st.products, st.errors + [e])
  }

  /** The loop over the retained rows; the row at position `k` is numbered `k + 1`. */
  function ImportRows(config: Config, st: RunState, rows: seq<Row>, rootId: nat, taxonomyId: nat): RunState
    decreases |rows|
  {
    if rows == [] then st
    else ProcessRow(config, ImportRows(config, st, rows[..|rows| - 1], rootId, taxonomyId), rows[|rows| - 1], |rows|, rootId, taxonomyId)
  }

  /** The run over the first `i + 1` rows is the run over the first `i`, then row `i + 1`. */
  lemma ImportRowsStep(config: Config, st: RunState, rows: seq<Row>, i: nat, rootId: nat, taxonomyId: nat)
    requires i < |rows|
    ensures ImportRows(config, st, rows[..i + 1], rootId, taxonomyId) ==
      ProcessRow(config, ImportRows(config, st, rows[..i], rootId, taxonomyId), rows[i], i + 1, rootId, taxonomyId)
  {
    assert rows[..i + 1][..i] == rows[..i];
  }

  /** A whole run over the lines of the file, starting with no errors. */
  function Import(config: Config, taxons: seq<Taxon>, products: seq<Product>, lines: seq<Row>, rootId: nat, taxonomyId: nat): RunState {
    ImportRows(config, RunState(taxons, products, []), ParsedCsv(lines), rootId, taxonomyId)
  }

  /** Every category name has a matching child of the root in the store. */
  ghost predicate CategoriesPresent(taxons: seq<Taxon>, names: seq<string>, rootId: nat, taxonomyId: nat) {
    forall i :: 0 <= i < |names| ==> ExistsMatchingChild(taxons, names[i], rootId, taxonomyId)
  }

  /** After a row its categories are present, whether or not a product is created. */
  lemma ProcessRowResolvesCategories(config: Config, st: RunState, row: Row, index: nat, rootId: nat, taxonomyId: nat)
    ensures var r := ProcessRow(config, st, row, index, rootId, taxonomyId);
      r.taxons == ResolveCategories(config.slug, st.taxons, CategoryNames(row), rootId, taxonomyId).taxons &&
      CategoriesPresent(r.taxons, CategoryNames(row), rootId, taxonomyId)
  {
    var names := CategoryNames(row);
    var res := ResolveCategories(config.slug, st.taxons, names, rootId, taxonomyId);
    forall i | 0 <= i < |names|
      ensures ExistsMatchingChild(res.taxons, names[i], rootId, taxonomyId)
    {
      var t := res.resolved[i];
      var k :| 0 <= k < |res.taxons| && res.taxons[k] == t;
      assert IsMatchingChild(res.taxons[k], names[i], rootId, taxonomyId);
    }
  }

  /** A row whose product exists adds no product and no error. */
  lemma ProcessRowSkipsExisting(config: Config, st: RunState, row: Row, index: nat, rootId: nat, taxonomyId: nat)
    requires ProductExists(st.products, CellAt(row, NameColumn))
    ensures var r := ProcessRow(config, st, row, index, rootId, taxonomyId);
      r.products == st.products && r.errors == st.errors
  {
  }

  /** A new, valid row adds exactly one product, with the row's name and taxons, and no error. */
  lemma ProcessRowCreates(config: Config, st: RunState, row: Row, index: nat, rootId: nat, taxonomyId: nat)
    requires !ProductExists(st.products, CellAt(row, NameColumn)) && config.valid(row)
    ensures var r := ProcessRow(config, st, row, index, rootId, taxonomyId);
      var resolved := ResolveCategories(config.slug, st.taxons, CategoryNames(row), rootId, taxonomyId).resolved;
      r.errors == st.errors &&
      |r.products| == |st.products| + 1 && r.products[..|st.products|] == st.products &&
      r.products[|st.products|].name == CellAt(row, NameColumn) &&
      r.products[|st.products|].taxonIds == TaxonIds(resolved) &&
      |r.products[|st.products|].taxonIds| <= 3
  {
    var r := ProcessRow(config, st, row, index, rootId, taxonomyId);
    assert r.products[..|st.products|] == st.products;
  }

  /** A new row that fails validation adds no product and exactly one error, carrying its number. */
  lemma ProcessRowRecordsFailure(config: Config, st: RunState, row: Row, index: nat, rootId: nat, taxonomyId: nat)
    requires !ProductExists(st.products, CellAt(row, NameColumn)) && !config.valid(row)
    ensures var r := ProcessRow(config, st, row, index, rootId, taxonomyId);
      r.products == st.products && r.errors == st.errors + [RowError(index, config.messages(row))]
  {
  }

  /** The one place a row can add an error: a new name that fails validation. */
  lemma ProcessRowErrors(config: Config, st: RunState, row: Row, index: nat, rootId: nat, taxonomyId: nat)
    ensures var r := ProcessRow(config, st, row, index, rootId, taxonomyId);
      if !ProductExists(st.products, CellAt(row, NameColumn)) && !config.valid(row)
      then r.errors == st.errors + [RowError(index, config.messages(row))]
      else r.errors == st.errors
  {
  }

  /** A row loses nothing from the store or the error list: it only appends. */
  lemma ProcessRowExtends(config: Config, st: RunState, row: Row, index: nat, rootId: nat, taxonomyId: nat)
    ensures var r := ProcessRow(config, st, row, index, rootId, taxonomyId);
      st.taxons <= r.taxons && st.products <= r.products && st.errors <= r.errors &&
      |r.products| + |r.errors| <= |st.products| + |st.errors| + 1
  {
    var res := ResolveCategories(config.slug, st.taxons, CategoryNames(row), rootId, taxonomyId);
    assert st.taxons <= res.taxons;
  }

  /** A run only appends to the store and to the errors, and a row adds at most one product or error. */
  lemma {:induction false} ImportRowsExtends(config: Config, st: RunState, rows: seq<Row>, rootId: nat, taxonomyId: nat)
    ensures var r := ImportRows(config, st, rows, rootId, taxonomyId);
      st.taxons <= r.taxons && st.products <= r.products && st.errors <= r.errors &&
      |r.products| + |r.errors| <= |st.products| + |st.errors| + |rows|
    decreases |rows|
  {
    if rows != [] {
      var prev := ImportRows(config, st, rows[..|rows| - 1], rootId, taxonomyId);
      ImportRowsExtends(config, st, rows[..|rows| - 1], rootId, taxonomyId);
      ProcessRowExtends(config, prev, rows[|rows| - 1], |rows|, rootId, taxonomyId);
    }
  }

  /** The numbers the errors of a run carry: each names a row, and they increase strictly. */
  ghost predicate ErrorsInRowOrder(errors: seq<RowError>, rowCount: nat) {
    (forall i :: 0 <= i < |errors| ==> 1 <= errors[i].rowIndex <= rowCount) &&
    (forall i, j :: 0 <= i < j < |errors| ==> errors[i].rowIndex < errors[j].rowIndex)
  }

  /** One more row: its error, if any, carries its own number, the largest so far. */
  lemma ErrorsInRowOrderStep(before: seq<RowError>, after: seq<RowError>, n: nat, info: ErrorInfo)
    requires n > 0 && ErrorsInRowOrder(before, n - 1)
    requires after == before || after == before + [RowError(n, info)]
    ensures ErrorsInRowOrder(after, n)
  {
  }

  /** Errors are reported in row order, each naming a row of the run, and no row twice. */
  lemma {:induction false} ImportErrorsInRowOrder(config: Config, st: RunState, rows: seq<Row>, rootId: nat, taxonomyId: nat)
    requires st.errors == []
    ensures ErrorsInRowOrder(ImportRows(config, st, rows, rootId, taxonomyId).errors, |rows|)
    decreases |rows|
  {
    if rows != [] {
      var n := |rows|;
      var prev := ImportRows(config, st, rows[..n - 1], rootId, taxonomyId);
      ImportErrorsInRowOrder(config, st, rows[..n - 1], rootId, taxonomyId);
      ProcessRowErrors(config, prev, rows[n - 1], n, rootId, taxonomyId);
      ErrorsInRowOrderStep(prev.errors, ImportRows(config, st, rows, rootId, taxonomyId).errors, n, config.messages(rows[n - 1]));
    }
  }

  /** Some error entry carries the number `k`. */
  ghost predicate HasErrorFor(errors: seq<RowError>, k: nat) {
    exists i :: 0 <= i < |errors| && errors[i].rowIndex == k
  }

  /** Every error entry that carries the number `k` reports `info`. */
  ghost predicate ErrorsFor(errors: seq<RowError>, k: nat, info: ErrorInfo) {
    forall i :: 0 <= i < |errors| && errors[i].rowIndex == k ==> errors[i].errorInfo == info
  }

  /** What one more row does to the entries for each row number. */
  lemma ErrorsForStep(before: seq<RowError>, after: seq<RowError>, n: nat, info: ErrorInfo, k: nat, kInfo: ErrorInfo)
    requires n > 0 && ErrorsInRowOrder(before, n - 1)
    requires after == before || after == before + [RowError(n, info)]
    requires 1 <= k <= n
    ensures k == n ==> (HasErrorFor(after, k) <==> after != before) && ErrorsFor(after, k, info)
    ensures k < n ==> (HasErrorFor(after, k) <==> HasErrorFor(before, k)) && (ErrorsFor(after, k, kInfo) <==> ErrorsFor(before, k, kInfo))
  {
    if after != before {
      assert after[|before|] == RowError(n, info);
      assert forall i :: 0 <= i < |before| ==> after[i] == before[i];
    }
  }

  /**
   * The row numbered `k` has an error entry exactly when, by the time it is
   * reached, no product has its name and it fails validation; the entry then
   * carries the validation messages of that row.
   */
  lemma ImportRowErrorIff(config: Config, st: RunState, rows: seq<Row>, k: nat, rootId: nat, taxonomyId: nat)
    requires st.errors == []
    requires 1 <= k <= |rows|
    ensures var r := ImportRows(config, st, rows, rootId, taxonomyId);
      var before := ImportRows(config, st, rows[..k - 1], rootId, taxonomyId);
      (HasErrorFor(r.errors, k) <==> !ProductExists(before.products, CellAt(rows[k - 1], NameColumn)) && !config.valid(rows[k - 1])) &&
      ErrorsFor(r.errors, k, config.messages(rows[k - 1]))
  {
    if k < |rows| {
      ImportEarlierRowErrorIff(config, st, rows, k, rootId, taxonomyId);
    } else {
      ImportLastRowErrorIff(config, st, rows, rootId, taxonomyId);
    }
  }

  /** The entries of a row other than the last are decided by the time the row is processed. */
  lemma {:induction false} ImportEarlierRowErrorIff(config: Config, st: RunState, rows: seq<Row>, k: nat, rootId: nat, taxonomyId: nat)
    requires st.errors == []
    requires 1 <= k < |rows|
    ensures var r := ImportRows(config, st, rows, rootId, taxonomyId);
      var before := ImportRows(config, st, rows[..k - 1], rootId, taxonomyId);
      (HasErrorFor(r.errors, k) <==> !ProductExists(before.products, CellAt(rows[k - 1], NameColumn)) && !config.valid(rows[k - 1])) &&
      ErrorsFor(r.errors, k, config.messages(rows[k - 1]))
    decreases |rows|
  {
    var n := |rows|;
    var shorter := rows[..n - 1];
    var row := rows[k - 1];
    ImportLaterRowKeepsErrorsFor(config, st, rows, k, config.messages(row), rootId, taxonomyId);
    assert shorter[k - 1] == row;
    if k < n - 1 {
      assert shorter[..k - 1] == rows[..k - 1];
      ImportEarlierRowErrorIff(config, st, shorter, k, rootId, taxonomyId);
    } else {
      assert shorter[..|shorter| - 1] == rows[..k - 1];
      ImportLastRowErrorIff(config, st, shorter, rootId, taxonomyId);
    }
  }

  /** The last row's entries: one exactly when it is new and fails, with its messages. */
  lemma ImportLastRowErrorIff(config: Config, st: RunState, rows: seq<Row>, rootId: nat, taxonomyId: nat)
    requires st.errors == [] && rows != []
    ensures var n := |rows|;
      var r := ImportRows(config, st, rows, rootId, taxonomyId);
      var before := ImportRows(config, st, rows[..n - 1], rootId, taxonomyId);
      (HasErrorFor(r.errors, n) <==> !ProductExists(before.products, CellAt(rows[n - 1], NameColumn)) && !config.valid(rows[n - 1])) &&
      ErrorsFor(r.errors, n, config.messages(rows[n - 1]))
  {
    var n := |rows|;
    var prev := ImportRows(config, st, rows[..n - 1], rootId, taxonomyId);
    ImportErrorsInRowOrder(config, st, rows[..n - 1], rootId, taxonomyId);
    ProcessRowErrors(config, prev, rows[n - 1], n, rootId, taxonomyId);
    ErrorsForStep(prev.errors, ImportRows(config, st, rows, rootId, taxonomyId).errors, n, config.messages(rows[n - 1]), n, config.messages(rows[n - 1]));
  }

  /** A later row leaves the entries for an earlier row number as they were. */
  lemma ImportLaterRowKeepsErrorsFor(config: Config, st: RunState, rows: seq<Row>, k: nat, info: ErrorInfo, rootId: nat, taxonomyId: nat)
    requires st.errors == [] && 1 <= k < |rows|
    ensures var n := |rows|;
      var r := ImportRows(config, st, rows, rootId, taxonomyId);
      var prev := ImportRows(config, st, rows[..n - 1], rootId, taxonomyId);
      (HasErrorFor(r.errors, k) <==> HasErrorFor(prev.errors, k)) && (ErrorsFor(r.errors, k, info) <==> ErrorsFor(prev.errors, k, info))
  {
    var n := |rows|;
    var prev := ImportRows(config, st, rows[..n - 1], rootId, taxonomyId);
    ImportErrorsInRowOrder(config, st, rows[..n - 1], rootId, taxonomyId);
    ProcessRowErrors(config, prev, rows[n - 1], n, rootId, taxonomyId);
    ErrorsForStep(prev.errors, ImportRows(config, st, rows, rootId, taxonomyId).errors, n, config.messages(rows[n - 1]), k, info);
  }

  /** When every row passes validation, the run collects no error. */
  lemma {:induction false} ImportAllValidNoErrors(config: Config, st: RunState, rows: seq<Row>, rootId: nat, taxonomyId: nat)
    requires forall i :: 0 <= i < |rows| ==> config.valid(rows[i])
    ensures ImportRows(config, st, rows, rootId, taxonomyId).errors == st.errors
    decreases |rows|
  {
    if rows != [] {
      ImportAllValidNoErrors(config, st, rows[..|rows| - 1], rootId, taxonomyId);
    }
  }

  /** No two products share a name. */
  ghost predicate ProductNamesDistinct(products: seq<Product>) {
    forall i, j :: 0 <= i < j < |products| ==> products[i].name != products[j].name
  }

  /** The existence check before creation means a run never creates a second product of one name. */
  lemma {:induction false} ImportKeepsProductNamesDistinct(config: Config, st: RunState, rows: seq<Row>, rootId: nat, taxonomyId: nat)
    requires ProductNamesDistinct(st.products)
    ensures ProductNamesDistinct(ImportRows(config, st, rows, rootId, taxonomyId).products)
    decreases |rows|
  {
    if rows != [] {
      var n := |rows|;
      ImportKeepsProductNamesDistinct(config, st, rows[..n - 1], rootId, taxonomyId);
      ProcessRowKeepsProductNamesDistinct(config, ImportRows(config, st, rows[..n - 1], rootId, taxonomyId), rows[n - 1], n, rootId, taxonomyId);
    }
  }

  lemma ProcessRowKeepsProductNamesDistinct(config: Config, st: RunState, row: Row, index: nat, rootId: nat, taxonomyId: nat)
    requires ProductNamesDistinct(st.products)
    ensures ProductNamesDistinct(ProcessRow(config, st, row, index, rootId, taxonomyId).products)
  {
    if !ProductExists(st.products, CellAt(row, NameColumn)) && config.valid(row) {
      ProcessRowCreates(config, st, row, index, rootId, taxonomyId);
    }
  }

  /** A run keeps sibling permalinks distinct and ids distinct. */
  lemma {:induction false} ImportKeepsTaxonsWellFormed(config: Config, st: RunState, rows: seq<Row>, rootId: nat, taxonomyId: nat)
    requires WellFormed(st.taxons)
    ensures WellFormed(ImportRows(config, st, rows, rootId, taxonomyId).taxons)
    decreases |rows|
  {
    if rows != [] {
      var n := |rows|;
      ImportKeepsTaxonsWellFormed(config, st, rows[..n - 1], rootId, taxonomyId);
      ProcessRowKeepsTaxonsWellFormed(config, ImportRows(config, st, rows[..n - 1], rootId, taxonomyId), rows[n - 1], n, rootId, taxonomyId);
    }
  }

  lemma ProcessRowKeepsTaxonsWellFormed(config: Config, st: RunState, row: Row, index: nat, rootId: nat, taxonomyId: nat)
    requires WellFormed(st.taxons)
    ensures WellFormed(ProcessRow(config, st, row, index, rootId, taxonomyId).taxons)
  {
    ProcessRowResolvesCategories(config, st, row, index, rootId, taxonomyId);
    ResolveCategoriesPreservesWellFormed(config.slug, st.taxons, CategoryNames(row), rootId, taxonomyId);
  }

  /** Each row, once run, has its categories present and its product present or rejected. */
  ghost predicate Covered(st: RunState, config: Config, rows: seq<Row>, rootId: nat, taxonomyId: nat) {
    forall i :: 0 <= i < |rows| ==>
      CategoriesPresent(st.taxons, CategoryNames(rows[i]), rootId, taxonomyId) &&
      (ProductExists(st.products, CellAt(rows[i], NameColumn)) || !config.valid(rows[i]))
  }

  lemma CoveredGrows(config: Config, a: RunState, b: RunState, rows: seq<Row>, rootId: nat, taxonomyId: nat)
    requires Covered(a, config, rows, rootId, taxonomyId)
    requires a.taxons <= b.taxons && a.products <= b.products
    ensures Covered(b, config, rows, rootId, taxonomyId)
  {
    forall i, j | 0 <= i < |rows| && 0 <= j < |CategoryNames(rows[i])|
      ensures ExistsMatchingChild(b.taxons, CategoryNames(rows[i])[j], rootId, taxonomyId)
    {
      var names := CategoryNames(rows[i]);
      assert ExistsMatchingChild(a.taxons, names[j], rootId, taxonomyId);
      var k :| 0 <= k < |a.taxons| && IsMatchingChild(a.taxons[k], names[j], rootId, taxonomyId);
      assert b.taxons[k] == a.taxons[k];
    }
    forall i | 0 <= i < |rows| && ProductExists(a.products, CellAt(rows[i], NameColumn))
      ensures ProductExists(b.products, CellAt(rows[i], NameColumn))
    {
      var k :| 0 <= k < |a.products| && a.products[k].name == CellAt(rows[i], NameColumn);
      assert b.products[k] == a.products[k];
    }
  }

  lemma {:induction false} ImportRowsCovers(config: Config, st: RunState, rows: seq<Row>, rootId: nat, taxonomyId: nat)
    ensures Covered(ImportRows(config, st, rows, rootId, taxonomyId), config, rows, rootId, taxonomyId)
    decreases |rows|
  {
    if rows != [] {
      var n := |rows|;
      ImportRowsCovers(config, st, rows[..n - 1], rootId, taxonomyId);
      ProcessRowCovers(config, ImportRows(config, st, rows[..n - 1], rootId, taxonomyId), rows[..n - 1], rows[n - 1], n, rootId, taxonomyId);
      assert rows[..n - 1] + [rows[n - 1]] == rows;
    }
  }

  /** Processing a row keeps the rows before it covered and covers the row itself. */
  lemma ProcessRowCovers(config: Config, st: RunState, done: seq<Row>, row: Row, index: nat, rootId: nat, taxonomyId: nat)
    requires Covered(st, config, done, rootId, taxonomyId)
    ensures Covered(ProcessRow(config, st, row, index, rootId, taxonomyId), config, done + [row], rootId, taxonomyId)
  {
    var r := ProcessRow(config, st, row, index, rootId, taxonomyId);
    ProcessRowExtends(config, st, row, index, rootId, taxonomyId);
    CoveredGrows(config, st, r, done, rootId, taxonomyId);
    ProcessRowResolvesCategories(config, st, row, index, rootId, taxonomyId);
    assert ProductExists(r.products, CellAt(row, NameColumn)) || !config.valid(row) by {
      if ProductExists(st.products, CellAt(row, NameColumn)) {
        var k :| 0 <= k < |st.products| && st.products[k].name == CellAt(row, NameColumn);
        assert r.products[k] == st.products[k];
      } else if config.valid(row) {
        ProcessRowCreates(config, st, row, index, rootId, taxonomyId);
        assert r.products[|st.products|].name == CellAt(row, NameColumn);
      }
    }
    assert forall i :: 0 <= i < |done| ==> (done + [row])[i] == done[i];
    assert (done + [row])[|done|] == row;
  }

  /** Rows already covered by the store change neither its taxons nor its products. */
  lemma {:induction false} CoveredRowsChangeNothing(config: Config, st: RunState, rows: seq<Row>, rootId: nat, taxonomyId: nat)
    requires Covered(st, config, rows, rootId, taxonomyId)
    ensures var r := ImportRows(config, st, rows, rootId, taxonomyId);
      r.taxons == st.taxons && r.products == st.products
    decreases |rows|
  {
    if rows != [] {
      var n := |rows|;
      assert Covered(st, config, rows[..n - 1], rootId, taxonomyId) by {
        assert forall i :: 0 <= i < n - 1 ==> rows[..n - 1][i] == rows[i];
      }
      CoveredRowsChangeNothing(config, st, rows[..n - 1], rootId, taxonomyId);
      var prev := ImportRows(config, st, rows[..n - 1], rootId, taxonomyId);
      var row := rows[n - 1];
      ResolveCategoriesFindsAll(config.slug, prev.taxons, CategoryNames(row), rootId, taxonomyId);
    }
  }

  /** Importing the same rows a second time creates no taxon and no product. */
  lemma ReimportCreatesNothing(config: Config, st: RunState, rows: seq<Row>, rootId: nat, taxonomyId: nat)
    ensures var first := ImportRows(config, st, rows, rootId, taxonomyId);
      var second := ImportRows(config, RunState(first.taxons, first.products, []), rows, rootId, taxonomyId);
      second.taxons == first.taxons && second.products == first.products
  {
    var first := ImportRows(config, st, rows, rootId, taxonomyId);
    ImportRowsCovers(config, st, rows, rootId, taxonomyId);
    CoveredGrows(config, first, RunState(first.taxons, first.products, []), rows, rootId, taxonomyId);
    CoveredRowsChangeNothing(config, RunState(first.taxons, first.products, []), rows, rootId, taxonomyId);
  }

  /** An all-blank data row anywhere after the header leaves the run exactly as if it were not there. */
  lemma BlankRowIgnored(config: Config, taxons: seq<Taxon>, products: seq<Product>,
                        preamble: seq<Row>, header: Row, before: seq<Row>, blank: Row, after: seq<Row>,
                        rootId: nat, taxonomyId: nat)
    requires |preamble| == IgnoreLines && header != [] && AllBlank(header, blank)
    ensures Import(config, taxons, products, preamble + [header] + before + [blank] + after, rootId, taxonomyId) ==
            Import(config, taxons, products, preamble + [header] + before + after, rootId, taxonomyId)
  {
    ParsedCsvIgnoresBlankRow(preamble, header, before, blank, after);
  }
}
