/** The canonical taxonomy: validation of the file, construction of the store, and resolution of
    category and subcategory labels with their fallback. */
module Taxonomy {
  import opened Text
  import opened LabelIndex

  const UNKNOWN_CATEGORY := "unknown-unclassified"
  const UNKNOWN_SUBCATEGORY := "insufficient-evidence"

  datatype Subcategory = Subcategory(id: string, name: string)
  datatype Category = Category(id: string, name: string, subcategories: seq<Subcategory>)
  datatype CanonicalTaxonomy = CanonicalTaxonomy(version: string, categories: seq<Category>)

  // ---------- validation ----------

  predicate DistinctIds(ids: seq<string>) {
    forall i, j :: 0 <= i < j < |ids| ==> ids[i] != ids[j]
  }

  function CategoryIds(categories: seq<Category>): (ids: seq<string>)
    ensures |ids| == |categories| && forall i :: 0 <= i < |ids| ==> ids[i] == categories[i].id
  {
    seq(|categories|, i requires 0 <= i < |categories| => categories[i].id)
  }

  function SubcategoryIds(subs: seq<Subcategory>): (ids: seq<string>)
    ensures |ids| == |subs| && forall i :: 0 <= i < |ids| ==> ids[i] == subs[i].id
  {
    seq(|subs|, i requires 0 <= i < |subs| => subs[i].id)
  }

  predicate ValidCategory(category: Category) {
    category.subcategories != [] && DistinctIds(SubcategoryIds(category.subcategories))
  }

  predicate HasUnknown(categories: seq<Category>) {
    exists i :: 0 <= i < |categories| && categories[i].id == UNKNOWN_CATEGORY
  }

  /** What `validate` accepts. */
  predicate Valid(t: CanonicalTaxonomy) {
    && Trim(t.version) != ""
    && DistinctIds(CategoryIds(t.categories))
    && (forall i :: 0 <= i < |t.categories| ==> ValidCategory(t.categories[i]))
    && |t.categories| == 41
    && HasUnknown(t.categories)
  }

  method CheckDistinct(ids: seq<string>) returns (ok: bool)
    ensures ok <==> DistinctIds(ids)
  {
    var seen: set<string> := {};
    for i := 0 to |ids|
      invariant DistinctIds(ids[..i])
      invariant seen == set id | id in ids[..i]
    {
      if ids[i] in seen {
        var k :| 0 <= k < i && ids[..i][k] == ids[i];
        return false;
      }
      seen := seen + {ids[i]};
      assert ids[..i + 1] == ids[..i] + [ids[i]];
    }
    assert ids[..|ids|] == ids;
    return true;
  }

  /** `CanonicalTaxonomy::validate` */
  method Validate(t: CanonicalTaxonomy) returns (ok: bool)
    ensures ok <==> Valid(t)
  {
    if Trim(t.version) == "" {
      return false;
    }
    var distinct := CheckDistinct(CategoryIds(t.categories));
    if !distinct {
      return false;
    }
    var unknown := false;
    for i := 0 to |t.categories|
      invariant forall k :: 0 <= k < i ==> ValidCategory(t.categories[k])
      invariant unknown <==> HasUnknown(t.categories[..i])
    {
      var category := t.categories[i];
      if category.subcategories == [] {
        assert !ValidCategory(category);
        return false;
      }
      var subsDistinct := CheckDistinct(SubcategoryIds(category.subcategories));
      if !subsDistinct {
        assert !ValidCategory(category);
        return false;
      }
      HasUnknownStep(t.categories, i);
      unknown := unknown || category.id == UNKNOWN_CATEGORY;
    }
    assert t.categories[..|t.categories|] == t.categories;
    return |t.categories| == 41 && unknown;
  }

  lemma HasUnknownStep(categories: seq<Category>, n: nat)
    requires n < |categories|
    ensures HasUnknown(categories[..n + 1]) <==> HasUnknown(categories[..n]) || categories[n].id == UNKNOWN_CATEGORY
  {
    if HasUnknown(categories[..n]) {
      var i :| 0 <= i < n && categories[..n][i].id == UNKNOWN_CATEGORY;
      assert categories[..n + 1][i].id == UNKNOWN_CATEGORY;
    }
    if categories[n].id == UNKNOWN_CATEGORY {
      assert categories[..n + 1][n].id == UNKNOWN_CATEGORY;
    }
    if HasUnknown(categories[..n + 1]) {
      var i :| 0 <= i < n + 1 && categories[..n + 1][i].id == UNKNOWN_CATEGORY;
      assert i < n ==> categories[..n][i].id == UNKNOWN_CATEGORY;
    }
  }

  // ---------- keys and aliases ----------

  function CategoryKeys(c: Category): Keys {
    Keys(c.id, NormalizeLabel(c.name), NormalizeLabel(c.id))
  }

  function SubcategoryKeys(s: Subcategory): Keys {
    Keys(s.id, NormalizeLabel(s.name), NormalizeLabel(s.id))
  }

  function AllCategoryKeys(categories: seq<Category>): (keys: seq<Keys>)
    ensures |keys| == |categories| && forall i :: 0 <= i < |keys| ==> keys[i] == CategoryKeys(categories[i])
  {
    seq(|categories|, i requires 0 <= i < |categories| => CategoryKeys(categories[i]))
  }

  function AllSubcategoryKeys(subs: seq<Subcategory>): (keys: seq<Keys>)
    ensures |keys| == |subs| && forall i :: 0 <= i < |keys| ==> keys[i] == SubcategoryKeys(subs[i])
  {
    seq(|subs|, i requires 0 <= i < |subs| => SubcategoryKeys(subs[i]))
  }

  datatype SubAlias = SubAlias(category: string, alias: Alias)

  const CATEGORY_ALIASES: seq<(string, string)> := [
    ("social", "social-media"),
    ("social networking", "social-media"),
    ("shopping", "shopping-e-commerce"),
    ("ecommerce", "shopping-e-commerce"),
    ("malware", "malware-phishing-fraud"),
    ("phishing", "malware-phishing-fraud"),
    ("fraud", "malware-phishing-fraud"),
    ("adult", "adult-sexual-content"),
    ("sexual content", "adult-sexual-content"),
    ("advertising", "advertisements"),
    ("ads", "advertisements"),
    ("adtech", "advertisements"),
    ("ad network", "advertisements"),
    ("unknown", "unknown-unclassified")
  ]

  const SUBCATEGORY_ALIASES: seq<(string, string, string)> := [
    ("social-media", "short form video", "short-video-platforms"),
    ("social-media", "social networking", "social-networks"),
    ("social-media", "social network", "social-networks"),
    ("social-media", "general social networking", "social-networks"),
    ("news-media", "general", "general-news"),
    ("shopping-e-commerce", "retail", "general-retail"),
    (UNKNOWN_CATEGORY, "unknown", UNKNOWN_SUBCATEGORY),
    ("advertisements", "advertisement", "general-advertising"),
    ("advertisements", "ads", "general-advertising"),
    ("advertisements", "advertising network", "general-advertising")
  ]

  function NormalizedAliases(pairs: seq<(string, string)>): (aliases: seq<Alias>)
    ensures |aliases| == |pairs| && forall i :: 0 <= i < |pairs| ==>
            aliases[i] == Alias(NormalizeLabel(pairs[i].0), pairs[i].1)
  {
    seq(|pairs|, i requires 0 <= i < |pairs| => Alias(NormalizeLabel(pairs[i].0), pairs[i].1))
  }

  function NormalizedSubAliases(triples: seq<(string, string, string)>): (aliases: seq<SubAlias>)
    ensures |aliases| == |triples|
    ensures forall i :: 0 <= i < |triples| ==>
            aliases[i] == SubAlias(triples[i].0, Alias(NormalizeLabel(triples[i].1), triples[i].2))
  {
    seq(|triples|, i requires 0 <= i < |triples| => SubAlias(triples[i].0,
                                                             Alias(NormalizeLabel(triples[i].1), triples[i].2)))
  }

  /** The aliases listed for one category, in order. */
  function AliasesOf(aliases: seq<SubAlias>, category: string): seq<Alias> {
    if aliases == [] then []
    else
      var last := |aliases| - 1;
      AliasesOf(aliases[..last], category) + if aliases[last].category == category then [aliases[last].alias] else []
  }

  // ---------- the store ----------

  datatype Store = Store(categories: seq<Category>, categoryById: Index, categoryLookup: Index,
                         subById: map<string, Index>, subLookup: map<string, Index>,
                         unknownCategory: nat, unknownSubcategory: nat)

  function SubByIdMap(categories: seq<Category>): map<string, Index> {
    if categories == [] then map[]
    else
      var last := |categories| - 1;
      SubByIdMap(categories[..last])[categories[last].id := ById(AllSubcategoryKeys(categories[last].subcategories))]
  }

  function SubLookupMap(categories: seq<Category>): map<string, Index> {
    if categories == [] then map[]
    else
      var last := |categories| - 1;
      var lookup := Lookup(AllSubcategoryKeys(categories[last].subcategories));
      SubLookupMap(categories[..last])[categories[last].id := lookup]
  }

  function ApplySubAlias(lookups: map<string, Index>, byId: map<string, Index>, alias: SubAlias): map<string, Index> {
    if alias.category in byId && alias.alias.target in byId[alias.category] && alias.category in lookups then
      lookups[alias.category := OrInsert(lookups[alias.category], alias.alias.term,
                                         byId[alias.category][alias.alias.target])]
    else lookups
  }

  function ApplySubAliases(lookups: map<string, Index>, byId: map<string, Index>,
                           aliases: seq<SubAlias>): map<string, Index> {
    if aliases == [] then lookups
    else
      var last := |aliases| - 1;
      ApplySubAlias(ApplySubAliases(lookups, byId, aliases[..last]), byId, aliases[last])
  }

  /** The index of the default subcategory as the loops leave it: that of the last unknown category that has it. */
  function LastDefault(categories: seq<Category>): Option<nat> {
    if categories == [] then None
    else
      var last := |categories| - 1;
      var here := if categories[last].id == UNKNOWN_CATEGORY
                  then WithId(AllSubcategoryKeys(categories[last].subcategories), UNKNOWN_SUBCATEGORY) else None;
      if here.Some? then here else LastDefault(categories[..last])
  }

  function DefaultSubcategory(categories: seq<Category>): nat {
    if LastDefault(categories).Some? then LastDefault(categories).value else 0
  }

  /** Resolution reads the store only through what its construction loops put into it. */
  ghost predicate BuiltFrom(store: Store, t: CanonicalTaxonomy, aliases: seq<Alias>, subAliases: seq<SubAlias>) {
    && store.categories == t.categories
    && store.categoryById == ById(AllCategoryKeys(t.categories))
    && store.categoryLookup == WithAliases(Lookup(AllCategoryKeys(t.categories)), store.categoryById, aliases)
    && store.subById == SubByIdMap(t.categories)
    && store.subLookup == ApplySubAliases(SubLookupMap(t.categories), store.subById, subAliases)
    && WithId(AllCategoryKeys(t.categories), UNKNOWN_CATEGORY) == Some(store.unknownCategory)
    && store.unknownSubcategory == DefaultSubcategory(t.categories)
  }

  /** The insertions of `new` for one list of items: ids overwrite, names overwrite, normalized ids fill gaps. */
  method IndexItems(items: seq<Keys>) returns (byId: Index, lookup: Index)
    ensures byId == ById(items) && lookup == Lookup(items)
  {
    byId, lookup := map[], map[];
    for i := 0 to |items|
      invariant byId == ById(items[..i]) && lookup == Lookup(items[..i])
    {
      assert items[..i + 1][..i] == items[..i];
      var item := items[i];
      byId := byId[item.id := i];
      if item.name.Some? {
        lookup := lookup[item.name.value := i];
      }
      if item.term.Some? && item.term.value !in lookup {
        lookup := lookup[item.term.value := i];
      }
    }
    assert items[..|items|] == items;
  }

  /** The index of the last item with this id. */
  method LocateId(items: seq<Keys>, id: string) returns (found: Option<nat>)
    ensures found == WithId(items, id)
  {
    found := None;
    for i := 0 to |items|
      invariant found == WithId(items[..i], id)
    {
      assert items[..i + 1][..i] == items[..i];
      if items[i].id == id {
        found := Some(i);
      }
    }
    assert items[..|items|] == items;
  }

  /** The maps that the outer loop of `new` fills per category. */
  method IndexSubcategories(categories: seq<Category>)
    returns (subById: map<string, Index>, subLookup: map<string, Index>)
    ensures subById == SubByIdMap(categories) && subLookup == SubLookupMap(categories)
  {
    subById, subLookup := map[], map[];
    for i := 0 to |categories|
      invariant subById == SubByIdMap(categories[..i]) && subLookup == SubLookupMap(categories[..i])
    {
      assert categories[..i + 1][..i] == categories[..i];
      var category := categories[i];
      var byId, lookup := IndexItems(AllSubcategoryKeys(category.subcategories));
      subById := subById[category.id := byId];
      subLookup := subLookup[category.id := lookup];
    }
    assert categories[..|categories|] == categories;
  }

  /** `apply_category_aliases` */
  method ApplyCategoryAliases(lookup: Index, byId: Index, aliases: seq<Alias>) returns (r: Index)
    ensures r == WithAliases(lookup, byId, aliases)
  {
    r := lookup;
    for i := 0 to |aliases|
      invariant r == WithAliases(lookup, byId, aliases[..i])
    {
      assert aliases[..i + 1][..i] == aliases[..i];
      if aliases[i].target in byId {
        r := OrInsert(r, aliases[i].term, byId[aliases[i].target]);
      }
    }
    assert aliases[..|aliases|] == aliases;
  }

  /** `apply_subcategory_aliases` */
  method ApplySubcategoryAliases(lookups: map<string, Index>, byId: map<string, Index>, aliases: seq<SubAlias>)
    returns (r: map<string, Index>)
    ensures r == ApplySubAliases(lookups, byId, aliases)
  {
    r := lookups;
    for i := 0 to |aliases|
      invariant r == ApplySubAliases(lookups, byId, aliases[..i])
    {
      assert aliases[..i + 1][..i] == aliases[..i];
      var alias := aliases[i];
      if alias.category in byId && alias.alias.target in byId[alias.category] && alias.category in r {
        r := r[alias.category := OrInsert(r[alias.category], alias.alias.term,
                                          byId[alias.category][alias.alias.target])];
      }
    }
    assert aliases[..|aliases|] == aliases;
  }

  /** The default subcategory, found on the way by the loops of `new`. */
  method LocateDefault(categories: seq<Category>) returns (found: Option<nat>)
    ensures found == LastDefault(categories)
  {
    found := None;
    for i := 0 to |categories|
      invariant found == LastDefault(categories[..i])
    {
      assert categories[..i + 1][..i] == categories[..i];
      if categories[i].id == UNKNOWN_CATEGORY {
        var here := LocateId(AllSubcategoryKeys(categories[i].subcategories), UNKNOWN_SUBCATEGORY);
        if here.Some? {
          found := here;
        }
      }
    }
    assert categories[..|categories|] == categories;
  }

  /** The construction for any alias tables; `None` is its panic on a taxonomy without the unknown category. */
  method Build(t: CanonicalTaxonomy, aliases: seq<Alias>, subAliases: seq<SubAlias>) returns (r: Option<Store>)
    ensures r.None? <==> !HasUnknown(t.categories)
    ensures r.Some? ==> BuiltFrom(r.value, t, aliases, subAliases)
  {
    var items := AllCategoryKeys(t.categories);
    var byId, lookup := IndexItems(items);
    var subById, subLookup := IndexSubcategories(t.categories);
    var unknown := LocateId(items, UNKNOWN_CATEGORY);
    LocatesUnknown(t.categories);
    if unknown.None? {
      return None;
    }
    var default := LocateDefault(t.categories);
    lookup := ApplyCategoryAliases(lookup, byId, aliases);
    subLookup := ApplySubcategoryAliases(subLookup, subById, subAliases);
    return Some(Store(t.categories, byId, lookup, subById, subLookup, unknown.value,
                      if default.Some? then default.value else 0));
  }

  /** A store with the alias tables of the source. */
  ghost predicate IsStoreOf(store: Store, t: CanonicalTaxonomy) {
    BuiltFrom(store, t, NormalizedAliases(CATEGORY_ALIASES), NormalizedSubAliases(SUBCATEGORY_ALIASES))
  }

  /** `TaxonomyStore::new` */
  method New(t: CanonicalTaxonomy) returns (r: Option<Store>)
    ensures r.None? <==> !HasUnknown(t.categories)
    ensures r.Some? ==> IsStoreOf(r.value, t)
  {
    r := Build(t, NormalizedAliases(CATEGORY_ALIASES), NormalizedSubAliases(SUBCATEGORY_ALIASES));
  }

  lemma LocatesUnknown(categories: seq<Category>)
    ensures var found := WithId(AllCategoryKeys(categories), UNKNOWN_CATEGORY);
            && (found.Some? <==> HasUnknown(categories))
            && (found.Some? ==> found.value < |categories| && categories[found.value].id == UNKNOWN_CATEGORY)
  {
    var keys := AllCategoryKeys(categories);
    WithIdMeaning(keys, UNKNOWN_CATEGORY);
    assert forall i :: 0 <= i < |keys| ==> keys[i].id == categories[i].id;
  }

  // ---------- resolution ----------

  datatype Reason = MissingCategory | MissingSubcategory | UnknownCategory | UnknownSubcategory

  datatype CategoryResolution = CategoryResolution(index: nat, fallback: Option<Reason>)

  function ResolveCategory(s: Store, input: string, term: Option<string>): CategoryResolution {
    if input in s.categoryById then CategoryResolution(s.categoryById[input], None)
    else if term.Some? && term.value in s.categoryLookup then CategoryResolution(s.categoryLookup[term.value], None)
    else CategoryResolution(s.unknownCategory, Some(if input == "" then MissingCategory else UnknownCategory))
  }

  datatype SubcategoryResolution = Match(index: nat) | Fallback(reason: Reason)

  function ResolveSubcategory(s: Store, category: nat, input: Option<string>,
                              term: Option<string>): Option<SubcategoryResolution>
    requires category < |s.categories|
  {
    var id := s.categories[category].id;
    if id !in s.subById then None
    else if input.Some? && input.value in s.subById[id] then Some(Match(s.subById[id][input.value]))
    else if term.Some? && id in s.subLookup && term.value in s.subLookup[id]
        then Some(Match(s.subLookup[id][term.value]))
    else Some(Fallback(if input.None? then MissingSubcategory else UnknownSubcategory))
  }

  datatype Labels = Labels(category: nat, subcategory: nat, fallback: Option<Reason>)

  function Cleaned(subcategory: Option<string>): Option<string> {
    if subcategory.Some? && Trim(subcategory.value) != "" then Some(Trim(subcategory.value)) else None
  }

  function NormalizedOption(value: Option<string>): Option<string> {
    if value.Some? then NormalizeLabel(value.value) else None
  }

  /** `validate_labels` once the input is trimmed and normalized. */
  function ResolveLabels(s: Store, input: string, term: Option<string>, sub: Option<string>,
                         subTerm: Option<string>): Labels
    requires ResolveCategory(s, input, term).index < |s.categories|
  {
    var resolved := ResolveCategory(s, input, term);
    if resolved.index == s.unknownCategory then Labels(s.unknownCategory, s.unknownSubcategory, resolved.fallback)
    else match ResolveSubcategory(s, resolved.index, sub, subTerm)
      case Some(Match(index)) => Labels(resolved.index, index, resolved.fallback)
      case Some(Fallback(reason)) =>
        Labels(s.unknownCategory, s.unknownSubcategory,
               if resolved.fallback.None? then Some(reason) else resolved.fallback)
      case None =>
        Labels(s.unknownCategory, s.unknownSubcategory,
               if resolved.fallback.None? then Some(MissingSubcategory) else resolved.fallback)
  }

  /** `validate_labels` */
  function ValidateLabels(s: Store, category: string, subcategory: Option<string>): Labels
    requires ResolveCategory(s, Trim(category), NormalizeLabel(Trim(category))).index < |s.categories|
  {
    ResolveLabels(s, Trim(category), NormalizeLabel(Trim(category)), Cleaned(subcategory),
                  NormalizedOption(Cleaned(subcategory)))
  }

  // ---------- the store refines the search ----------

  /** Category resolution is the search over the category list, with the unknown category as fallback. */
  lemma CategoryResolutionRefines(s: Store, t: CanonicalTaxonomy, aliases: seq<Alias>, subAliases: seq<SubAlias>,
                                  input: string, term: Option<string>)
    requires BuiltFrom(s, t, aliases, subAliases)
    ensures ResolveCategory(s, input, term) ==
            match Search(AllCategoryKeys(t.categories), aliases, Some(input), term)
            case Some(index) => CategoryResolution(index, None)
            case None => CategoryResolution(s.unknownCategory,
                                            Some(if input == "" then MissingCategory else UnknownCategory))
    ensures ResolveCategory(s, input, term).index < |s.categories|
  {
    IndexRefinesSearch(AllCategoryKeys(t.categories), aliases, Some(input), term);
    SearchInRange(AllCategoryKeys(t.categories), aliases, Some(input), term);
    WithIdMeaning(AllCategoryKeys(t.categories), UNKNOWN_CATEGORY);
  }

  /** With distinct category ids, each category's maps are those of its own subcategories. */
  lemma {:induction false} SubMapsOf(categories: seq<Category>, c: nat)
    requires DistinctIds(CategoryIds(categories)) && c < |categories|
    ensures var id, keys := categories[c].id, AllSubcategoryKeys(categories[c].subcategories);
            && id in SubByIdMap(categories) && SubByIdMap(categories)[id] == ById(keys)
            && id in SubLookupMap(categories) && SubLookupMap(categories)[id] == Lookup(keys)
    decreases |categories|
  {
    var last := |categories| - 1;
    if c < last {
      DistinctPrefix(categories, c);
      SubMapsOf(categories[..last], c);
    }
  }

  lemma DistinctPrefix(categories: seq<Category>, c: nat)
    requires DistinctIds(CategoryIds(categories)) && c < |categories| - 1
    ensures var last := |categories| - 1;
            DistinctIds(CategoryIds(categories[..last])) && categories[c].id != categories[last].id
  {
    var last := |categories| - 1;
    assert CategoryIds(categories)[c] != CategoryIds(categories)[last];
    assert forall i :: 0 <= i < last ==> CategoryIds(categories[..last])[i] == CategoryIds(categories)[i];
  }

  /** Applying all aliases to all categories gives each category its own aliases. */
  lemma {:induction false} SubAliasesOf(lookups: map<string, Index>, byId: map<string, Index>, aliases: seq<SubAlias>,
                                        id: string)
    requires id in lookups && id in byId
    ensures id in ApplySubAliases(lookups, byId, aliases)
    ensures ApplySubAliases(lookups, byId, aliases)[id] == WithAliases(lookups[id], byId[id], AliasesOf(aliases, id))
    decreases |aliases|
  {
    if aliases != [] {
      var last := |aliases| - 1;
      SubAliasesOf(lookups, byId, aliases[..last], id);
      var before := AliasesOf(aliases[..last], id);
      if aliases[last].category == id {
        assert AliasesOf(aliases, id)[..|before|] == before;
      } else {
        assert AliasesOf(aliases, id) == before;
      }
    }
  }

  /** Subcategory resolution is the search over the category's own list. */
  lemma SubcategoryResolutionRefines(s: Store, t: CanonicalTaxonomy, aliases: seq<Alias>, subAliases: seq<SubAlias>,
                                     c: nat, input: Option<string>, term: Option<string>)
    requires BuiltFrom(s, t, aliases, subAliases) && DistinctIds(CategoryIds(t.categories)) && c < |t.categories|
    ensures var keys := AllSubcategoryKeys(t.categories[c].subcategories);
            ResolveSubcategory(s, c, input, term) ==
            match Search(keys, AliasesOf(subAliases, t.categories[c].id), input, term)
            case Some(index) => Some(Match(index))
            case None => Some(Fallback(if input.None? then MissingSubcategory else UnknownSubcategory))
    ensures var r := ResolveSubcategory(s, c, input, term);
            r.Some? && (r.value.Match? ==> r.value.index < |t.categories[c].subcategories|)
  {
    var id, keys := t.categories[c].id, AllSubcategoryKeys(t.categories[c].subcategories);
    SubMapsOf(t.categories, c);
    SubAliasesOf(SubLookupMap(t.categories), s.subById, subAliases, id);
    IndexRefinesSearch(keys, AliasesOf(subAliases, id), input, term);
    SearchInRange(keys, AliasesOf(subAliases, id), input, term);
  }

  // ---------- label validation ----------

  /** With distinct ids there is one unknown category, and the default is looked up in it. */
  lemma {:induction false} LastDefaultOf(categories: seq<Category>, u: nat)
    requires DistinctIds(CategoryIds(categories)) && u < |categories| && categories[u].id == UNKNOWN_CATEGORY
    ensures LastDefault(categories) == WithId(AllSubcategoryKeys(categories[u].subcategories), UNKNOWN_SUBCATEGORY)
    decreases |categories|
  {
    var last := |categories| - 1;
    if u < last {
      DistinctPrefix(categories, u);
      LastDefaultOf(categories[..last], u);
    } else {
      NoDefault(categories[..last], CategoryIds(categories));
    }
  }

  lemma {:induction false} NoDefault(categories: seq<Category>, ids: seq<string>)
    requires |categories| < |ids| && DistinctIds(ids) && ids[|ids| - 1] == UNKNOWN_CATEGORY
    requires forall i :: 0 <= i < |categories| ==> categories[i].id == ids[i]
    ensures LastDefault(categories).None?
    decreases |categories|
  {
    if categories != [] {
      NoDefault(categories[..|categories| - 1], ids);
      assert ids[|categories| - 1] != ids[|ids| - 1];
    }
  }

  lemma DefaultInRange(s: Store, t: CanonicalTaxonomy, aliases: seq<Alias>, subAliases: seq<SubAlias>)
    requires Valid(t) && BuiltFrom(s, t, aliases, subAliases)
    ensures s.unknownCategory < |t.categories| && t.categories[s.unknownCategory].id == UNKNOWN_CATEGORY
    ensures s.unknownSubcategory < |t.categories[s.unknownCategory].subcategories|
  {
    WithIdMeaning(AllCategoryKeys(t.categories), UNKNOWN_CATEGORY);
    assert ValidCategory(t.categories[s.unknownCategory]);
    LastDefaultOf(t.categories, s.unknownCategory);
    WithIdMeaning(AllSubcategoryKeys(t.categories[s.unknownCategory].subcategories), UNKNOWN_SUBCATEGORY);
  }

  lemma ResolveLabelsSound(s: Store, t: CanonicalTaxonomy, aliases: seq<Alias>, subAliases: seq<SubAlias>,
                           input: string, term: Option<string>, sub: Option<string>, subTerm: Option<string>)
    requires Valid(t) && BuiltFrom(s, t, aliases, subAliases)
    ensures ResolveCategory(s, input, term).index < |s.categories|
    ensures var r := ResolveLabels(s, input, term, sub, subTerm);
            && r.category < |t.categories| && r.subcategory < |t.categories[r.category].subcategories|
            && (r.fallback.Some? || r.category == s.unknownCategory ==>
                  r.category == s.unknownCategory && r.subcategory == s.unknownSubcategory)
  {
    CategoryResolutionRefines(s, t, aliases, subAliases, input, term);
    DefaultInRange(s, t, aliases, subAliases);
    var c := ResolveCategory(s, input, term).index;
    SubcategoryResolutionRefines(s, t, aliases, subAliases, c, sub, subTerm);
  }

  /** For every validated taxonomy and every input, validation answers with indices that are in range, and
      any fallback reason means the unknown category with its default subcategory. */
  lemma ValidateLabelsSound(s: Store, t: CanonicalTaxonomy, aliases: seq<Alias>, subAliases: seq<SubAlias>,
                            category: string, subcategory: Option<string>)
    requires Valid(t) && BuiltFrom(s, t, aliases, subAliases)
    ensures ResolveCategory(s, Trim(category), NormalizeLabel(Trim(category))).index < |s.categories|
    ensures var r := ValidateLabels(s, category, subcategory);
            && r.category < |t.categories| && r.subcategory < |t.categories[r.category].subcategories|
            && (r.fallback.Some? ==> r.category == s.unknownCategory && r.subcategory == s.unknownSubcategory)
  {
    ResolveLabelsSound(s, t, aliases, subAliases, Trim(category), NormalizeLabel(Trim(category)),
                       Cleaned(subcategory), NormalizedOption(Cleaned(subcategory)));
  }

  predicate TidyId(id: string) {
    id != "" && IsTrimmed(id)
  }

  /** Ids without surrounding blanks. */
  predicate TidyIds(t: CanonicalTaxonomy) {
    forall i :: 0 <= i < |t.categories| ==>
      && TidyId(t.categories[i].id)
      && forall j :: 0 <= j < |t.categories[i].subcategories| ==> TidyId(t.categories[i].subcategories[j].id)
  }

  lemma {:induction false} WithDistinctId(keys: seq<Keys>, i: nat)
    requires i < |keys| && forall a, b :: 0 <= a < b < |keys| ==> keys[a].id != keys[b].id
    ensures WithId(keys, keys[i].id) == Some(i)
  {
    if i < |keys| - 1 {
      WithDistinctId(keys[..|keys| - 1], i);
    }
  }

  lemma CategoryIdResolves(s: Store, t: CanonicalTaxonomy, aliases: seq<Alias>, subAliases: seq<SubAlias>, c: nat,
                           term: Option<string>)
    requires Valid(t) && BuiltFrom(s, t, aliases, subAliases) && c < |t.categories|
    ensures ResolveCategory(s, t.categories[c].id, term) == CategoryResolution(c, None)
  {
    var keys := AllCategoryKeys(t.categories);
    CategoryResolutionRefines(s, t, aliases, subAliases, t.categories[c].id, term);
    DistinctKeys(keys, CategoryIds(t.categories));
    WithDistinctId(keys, c);
  }

  lemma SubcategoryIdResolves(s: Store, t: CanonicalTaxonomy, aliases: seq<Alias>, subAliases: seq<SubAlias>, c: nat,
                              b: nat, term: Option<string>)
    requires Valid(t) && BuiltFrom(s, t, aliases, subAliases) && c < |t.categories|
    requires b < |t.categories[c].subcategories|
    ensures ResolveSubcategory(s, c, Some(t.categories[c].subcategories[b].id), term) == Some(Match(b))
  {
    var keys := AllSubcategoryKeys(t.categories[c].subcategories);
    SubcategoryResolutionRefines(s, t, aliases, subAliases, c, Some(t.categories[c].subcategories[b].id), term);
    assert ValidCategory(t.categories[c]);
    DistinctKeys(keys, SubcategoryIds(t.categories[c].subcategories));
    WithDistinctId(keys, b);
  }

  lemma DistinctKeys(keys: seq<Keys>, ids: seq<string>)
    requires |keys| == |ids| && DistinctIds(ids) && forall i :: 0 <= i < |keys| ==> keys[i].id == ids[i]
    ensures forall a, b :: 0 <= a < b < |keys| ==> keys[a].id != keys[b].id
  {
  }

  /** Feeding the returned ids back gives the same pair with no fallback. */
  lemma ValidatedLabelsAreStable(s: Store, t: CanonicalTaxonomy, aliases: seq<Alias>, subAliases: seq<SubAlias>,
                                 category: string, subcategory: Option<string>)
    requires Valid(t) && TidyIds(t) && BuiltFrom(s, t, aliases, subAliases)
    requires ResolveCategory(s, Trim(category), NormalizeLabel(Trim(category))).index < |s.categories|
    ensures var r := ValidateLabels(s, category, subcategory);
            && r.category < |t.categories| && r.subcategory < |t.categories[r.category].subcategories|
            && var id, subId := t.categories[r.category].id, t.categories[r.category].subcategories[r.subcategory].id;
            && ResolveCategory(s, Trim(id), NormalizeLabel(Trim(id))).index < |s.categories|
            && ValidateLabels(s, id, Some(subId)) == Labels(r.category, r.subcategory, None)
  {
    ResolveLabelsSound(s, t, aliases, subAliases, Trim(category), NormalizeLabel(Trim(category)),
                       Cleaned(subcategory), NormalizedOption(Cleaned(subcategory)));
    var r := ValidateLabels(s, category, subcategory);
    var id, subId := t.categories[r.category].id, t.categories[r.category].subcategories[r.subcategory].id;
    TrimFixpoint(id);
    TrimFixpoint(subId);
    CategoryIdResolves(s, t, aliases, subAliases, r.category, NormalizeLabel(id));
    SubcategoryIdResolves(s, t, aliases, subAliases, r.category, r.subcategory, NormalizeLabel(subId));
  }

  // ---------- exactly when an id resolves to its own item ----------

  /** This item is the one a label stands for: the last named so or, if none is, the first with such an id. */
  predicate IsBestLabelled(keys: seq<Keys>, i: nat, term: string)
    requires i < |keys|
  {
    || (keys[i].name == Some(term) && forall k :: i < k < |keys| ==> keys[k].name != Some(term))
    || ((forall k :: 0 <= k < |keys| ==> keys[k].name != Some(term)) && forall k :: 0 <= k < i ==>
        keys[k].term != Some(term))
  }

  /** The id has no blanks around it; or no item has the trimmed id, and the item is the one its label stands for. */
  predicate ResolvesToItself(keys: seq<Keys>, i: nat)
    requires i < |keys|
  {
    || Trim(keys[i].id) == keys[i].id
    || ((forall k :: 0 <= k < |keys| ==> keys[k].id != Trim(keys[i].id))
        && keys[i].term.Some? && IsBestLabelled(keys, i, keys[i].term.value))
  }

  lemma BestLabelExactly(keys: seq<Keys>, aliases: seq<Alias>, i: nat, term: string)
    requires i < |keys| && keys[i].term == Some(term)
    ensures SearchLabel(keys, aliases, term) == Some(i) <==> IsBestLabelled(keys, i, term)
  {
    LastNamedMeaning(keys, term);
    FirstLabelledMeaning(keys, term);
  }

  lemma SearchSelfExactly(keys: seq<Keys>, aliases: seq<Alias>, i: nat)
    requires i < |keys| && forall a, b :: 0 <= a < b < |keys| ==> keys[a].id != keys[b].id
    ensures Search(keys, aliases, Some(Trim(keys[i].id)), keys[i].term) == Some(i) <==> ResolvesToItself(keys, i)
  {
    WithIdMeaning(keys, Trim(keys[i].id));
    if Trim(keys[i].id) == keys[i].id {
      WithDistinctId(keys, i);
    } else if keys[i].term.Some? {
      BestLabelExactly(keys, aliases, i, keys[i].term.value);
    }
  }

  lemma TermOfTrimmed(id: string)
    ensures NormalizeLabel(Trim(id)) == NormalizeLabel(id)
  {
    TrimIdempotent(id);
  }

  lemma CategorySelfExactly(s: Store, t: CanonicalTaxonomy, aliases: seq<Alias>, subAliases: seq<SubAlias>, c: nat)
    requires Valid(t) && BuiltFrom(s, t, aliases, subAliases) && c < |t.categories|
    ensures var id := Trim(t.categories[c].id);
            ResolveCategory(s, id, NormalizeLabel(id)) == CategoryResolution(c, None) <==>
                ResolvesToItself(AllCategoryKeys(t.categories), c)
  {
    var keys, id := AllCategoryKeys(t.categories), t.categories[c].id;
    TermOfTrimmed(id);
    CategoryResolutionRefines(s, t, aliases, subAliases, Trim(id), keys[c].term);
    DistinctKeys(keys, CategoryIds(t.categories));
    SearchSelfExactly(keys, aliases, c);
  }

  lemma SubcategorySelfExactly(s: Store, t: CanonicalTaxonomy, aliases: seq<Alias>, subAliases: seq<SubAlias>, c: nat,
                               b: nat)
    requires Valid(t) && BuiltFrom(s, t, aliases, subAliases) && c < |t.categories|
    requires b < |t.categories[c].subcategories|
    ensures var id := t.categories[c].subcategories[b].id;
            ResolveSubcategory(s, c, Cleaned(Some(id)), NormalizedOption(Cleaned(Some(id)))) == Some(Match(b)) <==>
            Trim(id) != "" && ResolvesToItself(AllSubcategoryKeys(t.categories[c].subcategories), b)
  {
    var keys, id := AllSubcategoryKeys(t.categories[c].subcategories), t.categories[c].subcategories[b].id;
    TermOfTrimmed(id);
    assert ValidCategory(t.categories[c]);
    DistinctKeys(keys, SubcategoryIds(t.categories[c].subcategories));
    if Trim(id) != "" {
      SubcategoryResolutionRefines(s, t, aliases, subAliases, c, Some(Trim(id)), keys[b].term);
      SearchSelfExactly(keys, AliasesOf(subAliases, t.categories[c].id), b);
    } else {
      SubcategoryResolutionRefines(s, t, aliases, subAliases, c, None, None);
    }
  }

  lemma FedBackIs(s: Store, c: nat, b: nat, input: string, term: Option<string>, sub: Option<string>,
                  subTerm: Option<string>)
    requires ResolveCategory(s, input, term).index < |s.categories| && c < |s.categories|
    requires c == s.unknownCategory ==> b == s.unknownSubcategory
    ensures ResolveLabels(s, input, term, sub, subTerm) == Labels(c, b, None) <==>
            ResolveCategory(s, input, term) == CategoryResolution(c, None)
            && (c == s.unknownCategory || ResolveSubcategory(s, c, sub, subTerm) == Some(Match(b)))
  {
  }

  /** For every valid taxonomy, tidy or not, and every category with one of its subcategories (the default one for
      the unknown category): feeding the two ids back gives this pair with no fallback if and only if each id
      resolves to its own item. */
  lemma FeedbackStableExactly(s: Store, t: CanonicalTaxonomy, aliases: seq<Alias>, subAliases: seq<SubAlias>, c: nat,
                              b: nat)
    requires Valid(t) && BuiltFrom(s, t, aliases, subAliases) && c < |t.categories|
    requires b < |t.categories[c].subcategories|
    requires c == s.unknownCategory ==> b == s.unknownSubcategory
    ensures var id, subId := t.categories[c].id, t.categories[c].subcategories[b].id;
            && ResolveCategory(s, Trim(id), NormalizeLabel(Trim(id))).index < |s.categories|
            && (ValidateLabels(s, id, Some(subId)) == Labels(c, b, None) <==>
                && ResolvesToItself(AllCategoryKeys(t.categories), c)
                && (c == s.unknownCategory
                    || (Trim(subId) != "" && ResolvesToItself(AllSubcategoryKeys(t.categories[c].subcategories), b))))
  {
    var id, sub := t.categories[c].id, Cleaned(Some(t.categories[c].subcategories[b].id));
    CategoryResolutionRefines(s, t, aliases, subAliases, Trim(id), NormalizeLabel(Trim(id)));
    CategorySelfExactly(s, t, aliases, subAliases, c);
    SubcategorySelfExactly(s, t, aliases, subAliases, c, b);
    FedBackIs(s, c, b, Trim(id), NormalizeLabel(Trim(id)), sub, NormalizedOption(sub));
  }

  // ---------- a taxonomy on which it fails ----------

  function ExampleId(i: nat): string {
    if i == 0 then UNKNOWN_CATEGORY else if i == 1 then "a" else if i == 2 then " a " else seq(100 + i, _ => 'x')
  }

  /** Valid, with the ids `a` and ` a ` in it; the latter is named `b`. */
  function Example(): CanonicalTaxonomy {
    CanonicalTaxonomy("1", seq(41, i requires 0 <= i < 41 => ExampleCategory(i)))
  }

  function ExampleCategory(i: nat): Category {
    Category(ExampleId(i), if i == 2 then "b" else "", [Subcategory("s", "")])
  }

  lemma ExampleIsValid()
    ensures Valid(Example()) && Example().categories[1].id == "a" && Example().categories[2].id == " a "
  {
    var t := Example();
    TrimFixpoint("1");
    forall i, j | 0 <= i < j < 41 ensures CategoryIds(t.categories)[i] != CategoryIds(t.categories)[j] {
      assert |ExampleId(i)| != |ExampleId(j)| || (i == 0 && |UNKNOWN_CATEGORY| == 20);
    }
    assert t.categories[0].id == UNKNOWN_CATEGORY;
  }

  lemma TrimmedExampleId()
    ensures Trim(" a ") == "a" && " a " != "a"
  {
    assert IsWhitespace(' ') && !IsWhitespace('a');
    assert TrimStart(" a ") == "a " by {
      assert " a "[1..] == "a ";
    }
    assert TrimEnd("a ") == "a" by {
      assert "a "[..1] == "a";
    }
  }

  lemma OneLetterLabel(text: string)
    requires |text| == 1 && 'a' <= text[0] <= 'z'
    ensures Trim(text) == text && NormalizeLabel(text) == Some(text)
  {
    TrimFixpoint(text);
    NormalizeLabelCanonical(text);
  }

  lemma ExampleKeys(keys: seq<Keys>)
    requires keys == AllCategoryKeys(Example().categories)
    ensures |keys| == 41 && keys[2].name == Some("b")
    ensures forall i :: 0 <= i < |keys| ==> keys[i].id == ExampleId(i) && (i != 2 ==> keys[i].name.None?)
  {
    OneLetterLabel("b");
    assert Trim("") == "";
    forall i | 0 <= i < |keys| ensures keys[i].id == ExampleId(i) && (i != 2 ==> keys[i].name.None?) {
      assert keys[i] == CategoryKeys(ExampleCategory(i));
    }
  }

  /** `b` is looked up by name, `a` by id. */
  lemma ExampleSearch(keys: seq<Keys>, aliases: seq<Alias>, term: Option<string>)
    requires keys == AllCategoryKeys(Example().categories)
    ensures Search(keys, aliases, Some("b"), Some("b")) == Some(2)
    ensures Search(keys, aliases, Some("a"), term) == Some(1)
    ensures WithId(keys, UNKNOWN_CATEGORY) == Some(0)
  {
    ExampleKeys(keys);
    forall i | 0 <= i < |keys| ensures keys[i].id != "b" && (keys[i].id == "a" <==> i == 1) {
      assert keys[i].id == ExampleId(i) && (i > 2 ==> |ExampleId(i)| > 100) && |UNKNOWN_CATEGORY| == 20;
    }
    WithIdMeaning(keys, "b");
    WithIdMeaning(keys, "a");
    LastNamedMeaning(keys, "b");
    ExampleIsValid();
    DistinctKeys(keys, CategoryIds(Example().categories));
    WithDistinctId(keys, 0);
  }

  lemma ExampleSubcategory(s: Store, c: nat)
    requires IsStoreOf(s, Example()) && c < 41
    ensures ResolveSubcategory(s, c, Some("s"), Some("s")) == Some(Match(0))
  {
    var t := Example();
    ExampleIsValid();
    assert t.categories[c] == ExampleCategory(c);
    SubcategoryIdResolves(s, t, NormalizedAliases(CATEGORY_ALIASES), NormalizedSubAliases(SUBCATEGORY_ALIASES), c, 0,
                          Some("s"));
  }

  lemma ExampleAnswer(s: Store, input: string, term: Option<string>, c: nat)
    requires IsStoreOf(s, Example()) && c in {1, 2}
    requires Search(AllCategoryKeys(Example().categories), NormalizedAliases(CATEGORY_ALIASES), Some(input), term) ==
                 Some(c)
    ensures ResolveCategory(s, input, term).index < |s.categories|
    ensures ResolveLabels(s, input, term, Some("s"), Some("s")) == Labels(c, 0, None)
  {
    var aliases, subAliases := NormalizedAliases(CATEGORY_ALIASES), NormalizedSubAliases(SUBCATEGORY_ALIASES);
    CategoryResolutionRefines(s, Example(), aliases, subAliases, input, term);
    ExampleSearch(AllCategoryKeys(Example().categories), aliases, term);
    ExampleSubcategory(s, c);
  }

  lemma ExampleSubInput()
    ensures Cleaned(Some("s")) == Some("s") && NormalizedOption(Cleaned(Some("s"))) == Some("s")
  {
    OneLetterLabel("s");
  }

  /** On this taxonomy, with the aliases of the source, the label `b` is answered with the category ` a `, and that
      category's own ids, fed back, are answered with the category `a`. */
  lemma UntidyIdIsNotFedBack(s: Store)
    requires IsStoreOf(s, Example())
    ensures ResolveCategory(s, Trim("b"), NormalizeLabel(Trim("b"))).index < |s.categories|
    ensures ValidateLabels(s, "b", Some("s")) == Labels(2, 0, None)
    ensures s.categories[2].id == " a " && s.categories[2].subcategories[0].id == "s"
    ensures ResolveCategory(s, Trim(" a "), NormalizeLabel(Trim(" a "))).index < |s.categories|
    ensures ValidateLabels(s, " a ", Some("s")) == Labels(1, 0, None)
  {
    ExampleSearch(AllCategoryKeys(Example().categories), NormalizedAliases(CATEGORY_ALIASES), NormalizeLabel("a"));
    ExampleSubInput();
    OneLetterLabel("b");
    TrimmedExampleId();
    ExampleAnswer(s, "b", Some("b"), 2);
    ExampleAnswer(s, "a", NormalizeLabel("a"), 1);
  }

  // ---------- the aliases of the source ----------

  /** An alias of the table answers with its target, in every valid taxonomy that has the target, unless a category
      has the alias text as its id or is known by its label, or an earlier alias with a target has the same label. */
  lemma CategoryAliasResolves(s: Store, t: CanonicalTaxonomy, k: nat, c: nat)
    requires Valid(t) && IsStoreOf(s, t) && k < |CATEGORY_ALIASES| && c < |t.categories|
    requires t.categories[c].id == CATEGORY_ALIASES[k].1
    requires var keys, text := AllCategoryKeys(t.categories), CATEGORY_ALIASES[k].0;
             && (forall i :: 0 <= i < |keys| ==> keys[i].id != text)
             && NormalizeLabel(text).Some?
             && (forall i :: 0 <= i < |keys| ==>
                 keys[i].name != NormalizeLabel(text) && keys[i].term != NormalizeLabel(text))
             && forall j :: 0 <= j < k ==>
                 !Answers(keys, NormalizedAliases(CATEGORY_ALIASES)[j], NormalizeLabel(text).value)
    ensures ResolveCategory(s, CATEGORY_ALIASES[k].0, NormalizeLabel(CATEGORY_ALIASES[k].0)) ==
            CategoryResolution(c, None)
  {
    var keys, aliases, text := AllCategoryKeys(t.categories), NormalizedAliases(CATEGORY_ALIASES),
        CATEGORY_ALIASES[k].0;
    var term := NormalizeLabel(text).value;
    CategoryResolutionRefines(s, t, aliases, NormalizedSubAliases(SUBCATEGORY_ALIASES), text, Some(term));
    DistinctKeys(keys, CategoryIds(t.categories));
    WithDistinctId(keys, c);
    AliasIsFound(keys, aliases, k, text, term, c);
  }

  lemma AliasIsFound(keys: seq<Keys>, aliases: seq<Alias>, k: nat, text: string, term: string, c: nat)
    requires k < |aliases| && aliases[k].term == Some(term) && WithId(keys, aliases[k].target) == Some(c)
    requires forall i :: 0 <= i < |keys| ==>
                 keys[i].id != text && keys[i].name != Some(term) && keys[i].term != Some(term)
    requires forall j :: 0 <= j < k ==> !Answers(keys, aliases[j], term)
    ensures Search(keys, aliases, Some(text), Some(term)) == Some(c)
  {
    WithIdMeaning(keys, text);
    LastNamedMeaning(keys, term);
    FirstLabelledMeaning(keys, term);
    FirstAliasedMeaning(keys, aliases, term);
    assert Answers(keys, aliases[k], term);
  }
}
