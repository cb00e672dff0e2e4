/**
 * `Imports::ImportProductsFromCsvUseCase` as an object over an in-memory
 * store: the taxons and products it reads and writes, and the status and
 * errors of the product import record it reports to. Each method changes
 * the fields the Ruby code changes, and is proved to leave them as the
 * functions of `ImportRun` and `Taxonomy` say.
 */
module ImportUseCase {
  import opened Wrappers
  import opened CsvRows
  import opened Permalinks
  import opened Taxonomy
  import opened ImportRun

  class ImportProductsFromCsv {
    /** The framework's decisions: slugs, product validation and its messages. */
    const config: Config
    /** The taxon table. */
    var taxons: seq<Taxon>
    /** The product table. */
    var products: seq<Product>
    /** `product_import.status`. */
    var status: Status
    /** `product_import.import_errors`. */
    var importErrors: seq<RowError>

    /** A use case over a store, reporting to a product import that is still pending. */
    constructor (config: Config, taxons: seq<Taxon>, products: seq<Product>)
      ensures this.config == config && this.taxons == taxons && this.products == products
      ensures status == Pending && importErrors == []
    {
      this.config := config;
      this.taxons := taxons;
      this.products := products;
      status := Pending;
      importErrors := [];
    }

    /**
     * `while permalink_is_not_unique(taxon) do append_integer(taxon) end`:
     * the candidate is suffixed until no stored taxon at the position has it.
     */
    method ResolvePermalink(start: string, parentId: nat, taxonomyId: nat) returns (permalink: string)
      ensures permalink == ResolvedPermalink(taxons, start, parentId, taxonomyId)
      ensures !PermalinkIsNotUnique(taxons, permalink, parentId, taxonomyId)
    {
      permalink := start;
      while PermalinkIsNotUnique(taxons, permalink, parentId, taxonomyId)
        invariant ResolvedPermalink(taxons, permalink, parentId, taxonomyId) == ResolvedPermalink(taxons, start, parentId, taxonomyId)
        decreases CollisionMeasure(taxons, permalink)
      {
        AppendIntegerSuffix(permalink);
        permalink := AppendInteger(permalink);
      }
    }

    /** The `where(...).first_or_create do ... end` of lines 43-52, followed by `taxon.save!`. */
    method FindOrCreateChild(name: string, rootId: nat, taxonomyId: nat) returns (taxon: Taxon)
      modifies this
      ensures var f := FindOrCreate(config.slug, old(taxons), name, rootId, taxonomyId);
        taxons == f.taxons && taxon == f.taxon
      ensures products == old(products) && status == old(status) && importErrors == old(importErrors)
    {
      var found := FirstMatchingChild(taxons, name, rootId, taxonomyId);
      if found.Some? {
        taxon := taxons[found.value];
      } else {
        var permalink := ResolvePermalink(config.slug(name), rootId, taxonomyId);
        taxon := Taxon(FreshId(taxons), name, permalink, Some(rootId), taxonomyId);
        taxons := taxons + [taxon];
      }
    }

    /** The `category_names.each` loop of lines 41-56: the row's taxons, in the order of its names. */
    method ResolveCategoryNames(names: seq<string>, rootId: nat, taxonomyId: nat) returns (resolved: seq<Taxon>)
      modifies this
      ensures Resolution(taxons, resolved) == ResolveCategories(config.slug, old(taxons), names, rootId, taxonomyId)
      ensures products == old(products) && status == old(status) && importErrors == old(importErrors)
    {
      resolved := [];
      for i := 0 to |names|
        invariant Resolution(taxons, resolved) == ResolveCategories(config.slug, old(taxons), names[..i], rootId, taxonomyId)
        invariant products == old(products) && status == old(status) && importErrors == old(importErrors)
      {
        assert names[..i + 1][..i] == names[..i];
        var taxon := FindOrCreateChild(names[i], rootId, taxonomyId);
        resolved := resolved + [taxon];
      }
      assert names[..|names|] == names;
    }

    /**
     * `create_product`: the product is stored whole, or, when validation
     * raises `RecordInvalid`, nothing is stored and the returned list has
     * one more entry for the row.
     */
    method CreateProduct(row: Row, index: nat, recordErrors: seq<RowError>, resolved: seq<Taxon>) returns (errors: seq<RowError>)
      modifies this
      ensures match ImportRun.CreateProduct(config, row, index, resolved)
        case Created(p) => products == old(products) + [p] && errors == recordErrors
        case Rejected(e) => products == old(products) && errors == recordErrors + [e]
      ensures taxons == old(taxons) && status == old(status) && importErrors == old(importErrors)
    {
      match ImportRun.CreateProduct(config, row, index, resolved)
      case Created(p) =>
        products := products + [p];
        errors := recordErrors;
      case Rejected(e) =>
        errors := recordErrors + [e];
    }

    /** `update_product_import`: success exactly when nothing failed; otherwise failed, with every error. */
    method UpdateProductImport(recordErrors: seq<RowError>)
      modifies this
      ensures status == Success <==> recordErrors == []
      ensures status == Success ==> importErrors == old(importErrors)
      ensures status != Success ==> status == Failed && importErrors == recordErrors
      ensures taxons == old(taxons) && products == old(products)
    {
      if recordErrors == [] {
        status := Success;
      } else {
        status := Failed;
        importErrors := recordErrors;
      }
    }

    /**
     * `import_csv`: every retained row, numbered from 1, resolves its
     * categories; a row whose product exists is then skipped, any other
     * goes through `create_product`; at the end the status is written.
     */
    method ImportCsv(lines: seq<Row>, rootId: nat, taxonomyId: nat)
      modifies this
      ensures var run := Import(config, old(taxons), old(products), lines, rootId, taxonomyId);
        taxons == run.taxons && products == run.products &&
        (status == Success <==> run.errors == []) &&
        (status == Success ==> importErrors == old(importErrors)) &&
        (status != Success ==> status == Failed && importErrors == run.errors)
    {
      var recordErrors: seq<RowError> := [];
      var rows := ParsedCsv(lines);
      ghost var start := RunState(taxons, products, []);
      for i := 0 to |rows|
        invariant RunState(taxons, products, recordErrors) == ImportRows(config, start, rows[..i], rootId, taxonomyId)
        invariant importErrors == old(importErrors)
      {
        ImportRowsStep(config, start, rows, i, rootId, taxonomyId);
        var row := rows[i];
        ghost var before := RunState(taxons, products, recordErrors);
        var resolved := ResolveCategoryNames(CategoryNames(row), rootId, taxonomyId);
        if ProductExists(products, CellAt(row, NameColumn)) {
          assert RunState(taxons, products, recordErrors) == ProcessRow(config, before, row, i + 1, rootId, taxonomyId);
          continue;
        }
        recordErrors := CreateProduct(row, i + 1, recordErrors, resolved);
        assert RunState(taxons, products, recordErrors) == ProcessRow(config, before, row, i + 1, rootId, taxonomyId);
      }
      assert rows[..|rows|] == rows;
      UpdateProductImport(recordErrors);
    }
  }
}
