/**
 * The category tree as the import sees it: a table of taxon records, the
 * case-sensitive permalink collision test, the collision-resolution loop as
 * a function, the case-insensitive lookup of a child of the root, and
 * find-or-create.
 */
module Taxonomy {
  import opened Wrappers
  import opened Permalinks

  /** A stored taxon; `parentId` is `None` for a root. */
  datatype Taxon = Taxon(id: nat, name: string, permalink: string, parentId: Option<nat>, taxonomyId: nat)

  /** The taxon sits under `parentId` in taxonomy `taxonomyId`. */
  predicate InPosition(t: Taxon, parentId: nat, taxonomyId: nat) {
    t.parentId == Some(parentId) && t.taxonomyId == taxonomyId
  }

  /**
   * `permalink_is_not_unique` for a taxon that has not been saved: some stored
   * taxon at the same position has exactly this permalink (case-sensitive).
   */
  predicate PermalinkIsNotUnique(taxons: seq<Taxon>, permalink: string, parentId: nat, taxonomyId: nat) {
    exists i :: 0 <= i < |taxons| && taxons[i].permalink == permalink && InPosition(taxons[i], parentId, taxonomyId)
  }

  function MaxOf(values: seq<nat>): (m: nat)
    ensures forall i :: 0 <= i < |values| ==> values[i] <= m
  {
    if values == [] then 0
    else
      var m' := MaxOf(values[1..]);
      if values[0] > m' then values[0] else m'
  }

  /** The largest number any stored permalink ends in. */
  function MaxSuffixValue(taxons: seq<Taxon>): (m: nat)
    ensures forall i :: 0 <= i < |taxons| ==> BaseValue(taxons[i].permalink) <= m
  {
    var values := seq(|taxons|, i requires 0 <= i < |taxons| => BaseValue(taxons[i].permalink));
    var m := MaxOf(values);
    assert forall i :: 0 <= i < |taxons| ==> values[i] == BaseValue(taxons[i].permalink) && values[i] <= m;
    m
  }

  /**
   * The collision loop's variant: a candidate without a number comes first;
   * after that the number climbs towards the largest stored one, and a
   * candidate whose number is above it cannot collide.
   */
  function CollisionMeasure(taxons: seq<Taxon>, permalink: string): int {
    match SuffixValue(permalink)
    case None => MaxSuffixValue(taxons) + 2
    case Some(v) => MaxSuffixValue(taxons) + 1 - v
  }

  /** `while permalink_is_not_unique(taxon) do append_integer(taxon) end`, as a function of the store. */
  function ResolvedPermalink(taxons: seq<Taxon>, permalink: string, parentId: nat, taxonomyId: nat): (r: string)
    ensures !PermalinkIsNotUnique(taxons, r, parentId, taxonomyId)
    decreases CollisionMeasure(taxons, permalink)
  {
    if PermalinkIsNotUnique(taxons, permalink, parentId, taxonomyId) then
      AppendIntegerSuffix(permalink);
      ResolvedPermalink(taxons, AppendInteger(permalink), parentId, taxonomyId)
    else permalink
  }

  /**
   * The loop only ever changes the number at the end: the result is the
   * candidate itself, or has the candidate's stem and a number above the
   * candidate's own.
   */
  lemma {:induction false} ResolvedKeepsStem(taxons: seq<Taxon>, permalink: string, parentId: nat, taxonomyId: nat)
    ensures var r := ResolvedPermalink(taxons, permalink, parentId, taxonomyId);
      r == permalink || (Stem(r) == Stem(permalink) && SuffixValue(r).Some? && SuffixValue(r).value > BaseValue(permalink))
    decreases CollisionMeasure(taxons, permalink)
  {
    if PermalinkIsNotUnique(taxons, permalink, parentId, taxonomyId) {
      AppendIntegerSuffix(permalink);
      ResolvedKeepsStem(taxons, AppendInteger(permalink), parentId, taxonomyId);
    }
  }

  /**
   * The loop stops at the first step that is free: the result is the
   * candidate with `append_integer` applied `k` times, and every earlier
   * step collided.
   */
  lemma {:induction false} ResolvedIsFirstFree(taxons: seq<Taxon>, permalink: string, parentId: nat, taxonomyId: nat)
    returns (k: nat)
    ensures ResolvedPermalink(taxons, permalink, parentId, taxonomyId) == Iterate(permalink, k)
    ensures forall j :: 0 <= j < k ==> PermalinkIsNotUnique(taxons, Iterate(permalink, j), parentId, taxonomyId)
    decreases CollisionMeasure(taxons, permalink)
  {
    if PermalinkIsNotUnique(taxons, permalink, parentId, taxonomyId) {
      var next := AppendInteger(permalink);
      assert CollisionMeasure(taxons, next) < CollisionMeasure(taxons, permalink) by {
        AppendIntegerSuffix(permalink);
      }
      assert ResolvedPermalink(taxons, permalink, parentId, taxonomyId) == ResolvedPermalink(taxons, next, parentId, taxonomyId);
      var k' := ResolvedIsFirstFree(taxons, next, parentId, taxonomyId);
      CollisionsShift(taxons, permalink, k', parentId, taxonomyId);
      k := k' + 1;
    } else {
      k := 0;
    }
  }

  lemma CollisionsShift(taxons: seq<Taxon>, permalink: string, k: nat, parentId: nat, taxonomyId: nat)
    requires PermalinkIsNotUnique(taxons, permalink, parentId, taxonomyId)
    requires forall j :: 0 <= j < k ==> PermalinkIsNotUnique(taxons, Iterate(AppendInteger(permalink), j), parentId, taxonomyId)
    ensures Iterate(AppendInteger(permalink), k) == Iterate(permalink, k + 1)
    ensures forall j :: 0 <= j < k + 1 ==> PermalinkIsNotUnique(taxons, Iterate(permalink, j), parentId, taxonomyId)
  {
    IterateShift(permalink, k);
    forall j | 0 < j < k + 1
      ensures PermalinkIsNotUnique(taxons, Iterate(permalink, j), parentId, taxonomyId)
    {
      IterateShift(permalink, j - 1);
    }
  }

  /** A candidate that collides with nothing is kept as it is. */
  lemma ResolvedKeepsFreePermalink(taxons: seq<Taxon>, permalink: string, parentId: nat, taxonomyId: nat)
    requires !PermalinkIsNotUnique(taxons, permalink, parentId, taxonomyId)
    ensures ResolvedPermalink(taxons, permalink, parentId, taxonomyId) == permalink
  {
  }

  /**
   * Two siblings already hold `shoes` and `shoes_1`, and a taxon under
   * another parent holds `shoes_2`: the new sibling gets `shoes_2`.
   */
  lemma ResolvedPermalinkExample()
    ensures ResolvedPermalink(
      [Taxon(1, "Shoes", "shoes", Some(0), 7), Taxon(2, "shoes", "shoes_1", Some(0), 7), Taxon(3, "Shoes", "shoes_2", Some(5), 7)],
      "shoes", 0, 7) == "shoes_2"
  {
    var store := [Taxon(1, "Shoes", "shoes", Some(0), 7), Taxon(2, "shoes", "shoes_1", Some(0), 7), Taxon(3, "Shoes", "shoes_2", Some(5), 7)];
    var p0, p1, p2: string := "shoes", "shoes_1", "shoes_2";
    AppendIntegerExampleNoSuffix();
    AppendIntegerExampleOne();
    assert PermalinkIsNotUnique(store, p0, 0, 7) by {
      assert store[0].permalink == p0;
    }
    assert PermalinkIsNotUnique(store, p1, 0, 7) by {
      assert store[1].permalink == p1;
    }
    assert !PermalinkIsNotUnique(store, p2, 0, 7) by {
      assert p2 != p0 && p2[6] != p1[6];
    }
    assert ResolvedPermalink(store, p0, 0, 7) == ResolvedPermalink(store, p1, 0, 7);
    assert ResolvedPermalink(store, p1, 0, 7) == ResolvedPermalink(store, p2, 0, 7);
  }

  /** ASCII case folding, the part of `ILIKE` the model keeps. */
  function LowerChar(c: char): char {
    if 'A' <= c <= 'Z' then (c as int - 'A' as int + 'a' as int) as char else c
  }

  /** `name ILIKE ?` without wildcards: equal up to case. */
  predicate NamesMatch(a: string, b: string) {
    |a| == |b| && forall i :: 0 <= i < |a| ==> LowerChar(a[i]) == LowerChar(b[i])
  }

  lemma NamesMatchIsEquivalence(a: string, b: string, c: string)
    ensures NamesMatch(a, a)
    ensures NamesMatch(a, b) ==> NamesMatch(b, a)
    ensures NamesMatch(a, b) && NamesMatch(b, c) ==> NamesMatch(a, c)
  {
  }

  /** The taxon is a child of the root in the categories taxonomy whose name matches `name` up to case. */
  predicate IsMatchingChild(t: Taxon, name: string, rootId: nat, taxonomyId: nat) {
    NamesMatch(t.name, name) && InPosition(t, rootId, taxonomyId)
  }

  /** `categories_taxon.children.where("name ILIKE ? AND parent_id = ? AND taxonomy_id = ?").first`: the index of the first match. */
  function FirstMatchingChild(taxons: seq<Taxon>, name: string, rootId: nat, taxonomyId: nat): (r: Option<nat>)
    ensures r.Some? ==> r.value < |taxons| && IsMatchingChild(taxons[r.value], name, rootId, taxonomyId)
    ensures r.Some? ==> forall j :: 0 <= j < r.value ==> !IsMatchingChild(taxons[j], name, rootId, taxonomyId)
    ensures r.None? ==> forall j :: 0 <= j < |taxons| ==> !IsMatchingChild(taxons[j], name, rootId, taxonomyId)
  {
    if taxons == [] then None
    else if IsMatchingChild(taxons[0], name, rootId, taxonomyId) then Some(0)
    else
      match FirstMatchingChild(taxons[1..], name, rootId, taxonomyId)
      case Some(k) => Some(k + 1)
      case None => None
  }

  /** Names that match each other up to case find the same taxon. */
  lemma {:induction false} FirstMatchingChildUpToCase(taxons: seq<Taxon>, a: string, b: string, rootId: nat, taxonomyId: nat)
    requires NamesMatch(a, b)
    ensures FirstMatchingChild(taxons, a, rootId, taxonomyId) == FirstMatchingChild(taxons, b, rootId, taxonomyId)
  {
    if taxons != [] {
      NamesMatchIsEquivalence(taxons[0].name, a, b);
      NamesMatchIsEquivalence(taxons[0].name, b, a);
      FirstMatchingChildUpToCase(taxons[1..], a, b, rootId, taxonomyId);
    }
  }

  /** An id larger than every stored one, standing for the id the database assigns. */
  function FreshId(taxons: seq<Taxon>): (id: nat)
    ensures forall i :: 0 <= i < |taxons| ==> taxons[i].id < id
  {
    if taxons == [] then 0
    else
      var m := FreshId(taxons[..|taxons| - 1]);
      var next := taxons[|taxons| - 1].id + 1;
      if next > m then next else m
  }

  /** The store after a lookup, and the taxon the lookup returned. */
  datatype Found = Found(taxons: seq<Taxon>, taxon: Taxon)

  predicate ExistsMatchingChild(taxons: seq<Taxon>, name: string, rootId: nat, taxonomyId: nat) {
    exists i :: 0 <= i < |taxons| && IsMatchingChild(taxons[i], name, rootId, taxonomyId)
  }

  /**
   * `first_or_create` with the block of lines 44-52: reuse the first child of
   * the root whose name matches; otherwise create one named `name`, under the
   * root, in the categories taxonomy, whose permalink starts from `slug(name)`
   * and is suffixed until no sibling has it.
   */
  function FindOrCreate(slug: string -> string, taxons: seq<Taxon>, name: string, rootId: nat, taxonomyId: nat): (r: Found)
    ensures InPosition(r.taxon, rootId, taxonomyId) && NamesMatch(r.taxon.name, name)
    ensures r.taxon in r.taxons
    ensures |taxons| <= |r.taxons| && r.taxons[..|taxons|] == taxons
    ensures ExistsMatchingChild(taxons, name, rootId, taxonomyId) ==>
      r.taxons == taxons &&
      exists i :: 0 <= i < |taxons| && r.taxon == taxons[i] &&
        forall j :: 0 <= j < i ==> !IsMatchingChild(taxons[j], name, rootId, taxonomyId)
    ensures !ExistsMatchingChild(taxons, name, rootId, taxonomyId) ==>
      r.taxons == taxons + [r.taxon] &&
      r.taxon.name == name &&
      r.taxon.id == FreshId(taxons) &&
      (forall i :: 0 <= i < |taxons| ==> taxons[i].id != r.taxon.id) &&
      r.taxon.permalink == ResolvedPermalink(taxons, slug(name), rootId, taxonomyId) &&
      !PermalinkIsNotUnique(taxons, r.taxon.permalink, rootId, taxonomyId)
  {
    match FirstMatchingChild(taxons, name, rootId, taxonomyId)
    case Some(i) => Found(taxons, taxons[i])
    case None =>
      var t := Taxon(FreshId(taxons), name, ResolvedPermalink(taxons, slug(name), rootId, taxonomyId), Some(rootId), taxonomyId);
      assert (taxons + [t])[..|taxons|] == taxons;
      Found(taxons + [t], t)
  }

  /** A second lookup of a name that matches the first up to case finds the same taxon and creates nothing. */
  lemma FindOrCreateTwice(slug: string -> string, taxons: seq<Taxon>, a: string, b: string, rootId: nat, taxonomyId: nat)
    requires NamesMatch(a, b)
    ensures var first := FindOrCreate(slug, taxons, a, rootId, taxonomyId);
      FindOrCreate(slug, first.taxons, b, rootId, taxonomyId) == first
  {
    var first := FindOrCreate(slug, taxons, a, rootId, taxonomyId);
    FirstMatchingChildUpToCase(taxons, a, b, rootId, taxonomyId);
    if FirstMatchingChild(taxons, a, rootId, taxonomyId).None? {
      NamesMatchIsEquivalence(a, b, b);
      var again := FirstMatchingChild(first.taxons, b, rootId, taxonomyId);
      assert IsMatchingChild(first.taxons[|taxons|], b, rootId, taxonomyId);
      assert again == Some(|taxons|);
    }
  }

  /** A matching child with no matching child before it is the one the lookup finds. */
  lemma FirstMatchingChildAt(taxons: seq<Taxon>, name: string, rootId: nat, taxonomyId: nat, i: nat)
    requires i < |taxons| && IsMatchingChild(taxons[i], name, rootId, taxonomyId)
    requires forall j :: 0 <= j < i ==> !IsMatchingChild(taxons[j], name, rootId, taxonomyId)
    ensures FirstMatchingChild(taxons, name, rootId, taxonomyId) == Some(i)
  {
  }

  /**
   * Once a name has been found or created, any later lookup of the same name,
   * up to case, in a store that has only grown since, finds that taxon and
   * creates nothing, whatever other lookups came in between.
   */
  lemma FindOrCreateStable(slug: string -> string, taxons: seq<Taxon>, later: seq<Taxon>, a: string, b: string, rootId: nat, taxonomyId: nat)
    requires NamesMatch(a, b)
    requires var f := FindOrCreate(slug, taxons, a, rootId, taxonomyId);
      |f.taxons| <= |later| && later[..|f.taxons|] == f.taxons
    ensures var g := FindOrCreate(slug, later, b, rootId, taxonomyId);
      g.taxon == FindOrCreate(slug, taxons, a, rootId, taxonomyId).taxon && g.taxons == later
  {
    var f := FindOrCreate(slug, taxons, a, rootId, taxonomyId);
    var found := FirstMatchingChild(taxons, a, rootId, taxonomyId);
    var i: nat := if found.Some? then found.value else |taxons|;
    assert i < |f.taxons| && f.taxons[i] == f.taxon;
    assert forall j :: 0 <= j < i ==> !IsMatchingChild(f.taxons[j], a, rootId, taxonomyId);
    forall j | 0 <= j <= i
      ensures later[j] == f.taxons[j]
      ensures IsMatchingChild(later[j], b, rootId, taxonomyId) <==> IsMatchingChild(f.taxons[j], a, rootId, taxonomyId)
    {
      assert later[..|f.taxons|][j] == later[j];
      NamesMatchIsEquivalence(later[j].name, a, b);
      NamesMatchIsEquivalence(later[j].name, b, a);
      NamesMatchIsEquivalence(a, b, b);
    }
    FirstMatchingChildAt(later, b, rootId, taxonomyId, i);
  }

  /** No two taxons with the same parent and taxonomy share a permalink. */
  ghost predicate SiblingPermalinksDistinct(taxons: seq<Taxon>) {
    forall i, j ::
      0 <= i < j < |taxons| && taxons[i].parentId == taxons[j].parentId && taxons[i].taxonomyId == taxons[j].taxonomyId
      ==> taxons[i].permalink != taxons[j].permalink
  }

  /** No two taxons share an id. */
  ghost predicate IdsDistinct(taxons: seq<Taxon>) {
    forall i, j :: 0 <= i < j < |taxons| ==> taxons[i].id != taxons[j].id
  }

  ghost predicate WellFormed(taxons: seq<Taxon>) {
    SiblingPermalinksDistinct(taxons) && IdsDistinct(taxons)
  }

  lemma FindOrCreatePreservesWellFormed(slug: string -> string, taxons: seq<Taxon>, name: string, rootId: nat, taxonomyId: nat)
    requires WellFormed(taxons)
    ensures WellFormed(FindOrCreate(slug, taxons, name, rootId, taxonomyId).taxons)
  {
    var r := FindOrCreate(slug, taxons, name, rootId, taxonomyId);
    if !ExistsMatchingChild(taxons, name, rootId, taxonomyId) {
      forall i | 0 <= i < |taxons| && InPosition(taxons[i], rootId, taxonomyId)
        ensures taxons[i].permalink != r.taxon.permalink
      {
      }
    }
  }

  /** What resolving a row's category names leaves: the store, and the taxons in the order of the names. */
  datatype Resolution = Resolution(taxons: seq<Taxon>, resolved: seq<Taxon>)

  /** The `category_names.each` loop of lines 42-56. */
  function ResolveCategories(slug: string -> string, taxons: seq<Taxon>, names: seq<string>, rootId: nat, taxonomyId: nat): (r: Resolution)
    ensures |r.resolved| == |names|
    ensures forall i :: 0 <= i < |names| ==>
      InPosition(r.resolved[i], rootId, taxonomyId) && NamesMatch(r.resolved[i].name, names[i]) && r.resolved[i] in r.taxons
    ensures |taxons| <= |r.taxons| && r.taxons[..|taxons|] == taxons
    decreases |names|
  {
    if names == [] then
      assert taxons[..|taxons|] == taxons;
      Resolution(taxons, [])
    else
      var prev := ResolveCategories(slug, taxons, names[..|names| - 1], rootId, taxonomyId);
      var f := FindOrCreate(slug, prev.taxons, names[|names| - 1], rootId, taxonomyId);
      assert f.taxons[..|taxons|] == f.taxons[..|prev.taxons|][..|taxons|];
      assert forall t :: t in prev.taxons ==> t in f.taxons by {
        forall t | t in prev.taxons ensures t in f.taxons {
          var k :| 0 <= k < |prev.taxons| && prev.taxons[k] == t;
          assert f.taxons[k] == f.taxons[..|prev.taxons|][k];
        }
      }
      Resolution(f.taxons, prev.resolved + [f.taxon])
  }

  /**
   * Resolution creates at most one taxon per name, and every taxon it appends
   * is one the row resolved to: nothing unrelated enters the store.
   */
  lemma {:induction false} ResolveCategoriesAppendsResolved(slug: string -> string, taxons: seq<Taxon>, names: seq<string>, rootId: nat, taxonomyId: nat)
    ensures var r := ResolveCategories(slug, taxons, names, rootId, taxonomyId);
      |r.taxons| <= |taxons| + |names| &&
      forall k :: |taxons| <= k < |r.taxons| ==> r.taxons[k] in r.resolved
    decreases |names|
  {
    if names != [] {
      var prev := ResolveCategories(slug, taxons, names[..|names| - 1], rootId, taxonomyId);
      ResolveCategoriesAppendsResolved(slug, taxons, names[..|names| - 1], rootId, taxonomyId);
      var f := FindOrCreate(slug, prev.taxons, names[|names| - 1], rootId, taxonomyId);
      var r := ResolveCategories(slug, taxons, names, rootId, taxonomyId);
      assert r == Resolution(f.taxons, prev.resolved + [f.taxon]);
      forall k | |taxons| <= k < |r.taxons|
        ensures r.taxons[k] in r.resolved
      {
        if k < |prev.taxons| {
          assert r.taxons[k] == prev.taxons[k] by {
            assert f.taxons[..|prev.taxons|][k] == f.taxons[k];
          }
          assert prev.taxons[k] in prev.resolved;
        } else {
          assert r.taxons[k] == f.taxon;
        }
      }
    }
  }

  /** A name that already has a match adds nothing: the store grows only for names without one. */
  lemma ResolveOneFound(slug: string -> string, taxons: seq<Taxon>, name: string, rootId: nat, taxonomyId: nat)
    requires ExistsMatchingChild(taxons, name, rootId, taxonomyId)
    ensures ResolveCategories(slug, taxons, [name], rootId, taxonomyId).taxons == taxons
  {
    assert [name][..0] == [];
  }

  /** When every name already has a matching child, resolution finds them all and the store is unchanged. */
  lemma {:induction false} ResolveCategoriesFindsAll(slug: string -> string, taxons: seq<Taxon>, names: seq<string>, rootId: nat, taxonomyId: nat)
    requires forall i :: 0 <= i < |names| ==> ExistsMatchingChild(taxons, names[i], rootId, taxonomyId)
    ensures ResolveCategories(slug, taxons, names, rootId, taxonomyId).taxons == taxons
    decreases |names|
  {
    if names != [] {
      ResolveCategoriesFindsAll(slug, taxons, names[..|names| - 1], rootId, taxonomyId);
    }
  }

  lemma {:induction false} ResolveCategoriesPreservesWellFormed(slug: string -> string, taxons: seq<Taxon>, names: seq<string>, rootId: nat, taxonomyId: nat)
    requires WellFormed(taxons)
    ensures WellFormed(ResolveCategories(slug, taxons, names, rootId, taxonomyId).taxons)
    decreases |names|
  {
    if names != [] {
      var prev := ResolveCategories(slug, taxons, names[..|names| - 1], rootId, taxonomyId);
      ResolveCategoriesPreservesWellFormed(slug, taxons, names[..|names| - 1], rootId, taxonomyId);
      FindOrCreatePreservesWellFormed(slug, prev.taxons, names[|names| - 1], rootId, taxonomyId);
    }
  }
}
