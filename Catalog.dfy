/**
 * The storefront's filter-then-sort pipeline (`applyFiltersAndSort`): a
 * case-insensitive search over three text fields, an exact-match assortment
 * filter, and a stable sort by the selected key. The full product list is an
 * input value and is never changed; the result is a new sequence.
 */
module Catalog {
  import opened Wrappers
  import opened Text
  import opened Coercion
  import Seqs
  import StableSort

  /** One product record as loaded from the JSON payload; absent and null fields are `None`. */
  datatype Product = Product(
    productNameBold: Option<string>,
    productNameThin: Option<string>,
    customCategoryTitle: Option<string>,
    categoryLevel1: Option<string>,
    grapes: Option<seq<string>>,
    volume: Option<Raw>,
    alcoholPercentage: Option<Raw>,
    price: Option<Raw>,
    apk: Option<Raw>,
    assortment: Option<string>,
    productUrl: Option<string>)

  /** `field || ''`: a missing, null or empty text field reads as "". */
  function OrEmpty(o: Option<string>): string {
    o.GetOr("")
  }

  /** The name searched in: bold part first. */
  function SearchName(p: Product): string {
    OrEmpty(p.productNameBold) + " " + OrEmpty(p.productNameThin)
  }

  /** The name sorted by under `name-asc`: thin part first. */
  function SortName(p: Product): string {
    OrEmpty(p.productNameThin) + " " + OrEmpty(p.productNameBold)
  }

  /** `customCategoryTitle || categoryLevel1 || ''`: the first non-empty of the two, else "". */
  function CategoryLabel(p: Product): (r: string)
    ensures r != "" ==> Some(r) == p.customCategoryTitle || Some(r) == p.categoryLevel1
    ensures r == "" <==> OrEmpty(p.customCategoryTitle) == "" && OrEmpty(p.categoryLevel1) == ""
    ensures OrEmpty(p.customCategoryTitle) != "" ==> r == p.customCategoryTitle.value
  {
    if OrEmpty(p.customCategoryTitle) != "" then p.customCategoryTitle.value
    else OrEmpty(p.categoryLevel1)
  }

  /** `(grapes || []).join(', ')`. */
  function GrapesText(p: Product): string {
    Join(p.grapes.GetOr([]), ", ")
  }

  /** The search predicate for an already lower-cased term: an OR over three separate haystacks. */
  predicate MatchesSearch(p: Product, term: string) {
    || IsSubstring(term, ToLower(SearchName(p)))
    || IsSubstring(term, ToLower(CategoryLabel(p)))
    || IsSubstring(term, ToLower(GrapesText(p)))
  }

  /** `product.assortment === assortmentFilter`. */
  predicate MatchesAssortment(p: Product, filter: string) {
    p.assortment == Some(filter)
  }

  function SearchCondition(term: string): Product -> bool {
    p => MatchesSearch(p, term)
  }

  function AssortmentCondition(filter: string): Product -> bool {
    p => MatchesAssortment(p, filter)
  }

  /** The Swedish `localeCompare`, taken as a parameter: it must be a total preorder on strings. */
  ghost predicate IsCollation(collate: (string, string) -> int) {
    && (forall x, y :: collate(x, y) <= 0 || collate(y, x) <= 0)
    && (forall x, y, z :: collate(x, y) <= 0 && collate(y, z) <= 0 ==> collate(x, z) <= 0)
  }

  const NUMERIC_KEYS: set<string> := {"apk-desc", "apk-asc", "price-asc", "price-desc", "volume-desc"}

  const SORT_KEYS: set<string> := NUMERIC_KEYS + {"name-asc"}

  /** The comparator of the `switch (sortBy)`: negative puts `a` first, positive puts `b` first. */
  function Compare(sortBy: string, collate: (string, string) -> int, a: Product, b: Product): real {
    if sortBy == "apk-desc" then Coerce(b.apk) - Coerce(a.apk)
    else if sortBy == "apk-asc" then Coerce(a.apk) - Coerce(b.apk)
    else if sortBy == "price-asc" then Coerce(a.price) - Coerce(b.price)
    else if sortBy == "price-desc" then Coerce(b.price) - Coerce(a.price)
    else if sortBy == "volume-desc" then Coerce(b.volume) - Coerce(a.volume)
    else if sortBy == "name-asc" then collate(SortName(a), SortName(b)) as real
    else 0.0
  }

  function Comparator(sortBy: string, collate: (string, string) -> int): (Product, Product) -> real {
    (a, b) => Compare(sortBy, collate, a, b)
  }

  /** The coerced value a numeric sort key orders by. */
  function KeyValue(sortBy: string, p: Product): real {
    if sortBy == "apk-desc" || sortBy == "apk-asc" then Coerce(p.apk)
    else if sortBy == "price-asc" || sortBy == "price-desc" then Coerce(p.price)
    else Coerce(p.volume)
  }

  /** Steps A and B: the search filter (only for a non-empty term), then the assortment filter (only when one is chosen). */
  function Filtered(allProducts: seq<Product>, search: string, assortmentFilter: string): seq<Product> {
    var searchTerm := ToLower(search);
    var afterSearch :=
      if searchTerm != "" then Seqs.Filter(allProducts, SearchCondition(searchTerm)) else allProducts;
    if assortmentFilter != "" then Seqs.Filter(afterSearch, AssortmentCondition(assortmentFilter))
    else afterSearch
  }

  /** The whole recomputation: filter a copy of the products, then sort it stably by the chosen key. */
  function ApplyFiltersAndSort(allProducts: seq<Product>, search: string, assortmentFilter: string,
                               sortBy: string, collate: (string, string) -> int): (visible: seq<Product>)
    ensures |visible| <= |allProducts|
  {
    FilteredShorter(allProducts, search, assortmentFilter);
    StableSort.Sort(Filtered(allProducts, search, assortmentFilter), Comparator(sortBy, collate))
  }

  lemma FilteredShorter(allProducts: seq<Product>, search: string, assortmentFilter: string)
    ensures |Filtered(allProducts, search, assortmentFilter)| <= |allProducts|
  {
  }

  // ---------------------------------------------------------------------
  // The reference definition of which products are visible
  // ---------------------------------------------------------------------

  /** A product is visible when it passes both controls; an empty control passes everything. */
  predicate Selected(p: Product, search: string, assortmentFilter: string) {
    && (ToLower(search) == "" || MatchesSearch(p, ToLower(search)))
    && (assortmentFilter == "" || MatchesAssortment(p, assortmentFilter))
  }

  function SelectedCondition(search: string, assortmentFilter: string): Product -> bool {
    p => Selected(p, search, assortmentFilter)
  }

  /** The two filter steps together are one filter by `Selected`. */
  lemma FilteredIsSelection(allProducts: seq<Product>, search: string, assortmentFilter: string)
    ensures Filtered(allProducts, search, assortmentFilter)
         == Seqs.Filter(allProducts, SelectedCondition(search, assortmentFilter))
  {
    var term := ToLower(search);
    var sel := SelectedCondition(search, assortmentFilter);
    if term != "" && assortmentFilter != "" {
      Seqs.FilterTwice(allProducts, SearchCondition(term), AssortmentCondition(assortmentFilter), sel);
    } else if term != "" {
      Seqs.FilterSameCondition(allProducts, SearchCondition(term), sel);
    } else if assortmentFilter != "" {
      Seqs.FilterSameCondition(allProducts, AssortmentCondition(assortmentFilter), sel);
    } else {
      Seqs.FilterKeepsAll(allProducts, sel);
    }
  }

  /** The filter steps keep the products' relative order and only delete. */
  lemma FilteredIsSubsequence(allProducts: seq<Product>, search: string, assortmentFilter: string)
    ensures Seqs.SubseqOf(Filtered(allProducts, search, assortmentFilter), allProducts)
  {
    FilteredIsSelection(allProducts, search, assortmentFilter);
    Seqs.FilterIsSubseq(allProducts, SelectedCondition(search, assortmentFilter));
  }

  /**
   * The exact contents of the result: each selected product appears as often
   * as in the full list, every other product not at all.
   */
  lemma VisibleContents(allProducts: seq<Product>, search: string, assortmentFilter: string,
                        sortBy: string, collate: (string, string) -> int, p: Product)
    ensures var visible := ApplyFiltersAndSort(allProducts, search, assortmentFilter, sortBy, collate);
            && multiset(visible)[p] == (if Selected(p, search, assortmentFilter) then multiset(allProducts)[p] else 0)
            && (p in visible <==> p in allProducts && Selected(p, search, assortmentFilter))
  {
    FilteredIsSelection(allProducts, search, assortmentFilter);
    Seqs.FilterCount(allProducts, SelectedCondition(search, assortmentFilter), p);
  }

  /** With no search term and no assortment filter, every product is shown: a permutation of the full list. */
  lemma NoFilterIsPermutation(allProducts: seq<Product>, sortBy: string, collate: (string, string) -> int)
    ensures var visible := ApplyFiltersAndSort(allProducts, "", "", sortBy, collate);
            multiset(visible) == multiset(allProducts) && |visible| == |allProducts|
  {
    assert Filtered(allProducts, "", "") == allProducts;
  }

  /** A non-empty assortment filter keeps only products of exactly that assortment. */
  lemma AssortmentIsExact(allProducts: seq<Product>, search: string, assortmentFilter: string,
                          sortBy: string, collate: (string, string) -> int)
    requires assortmentFilter != ""
    ensures var visible := ApplyFiltersAndSort(allProducts, search, assortmentFilter, sortBy, collate);
            forall i :: 0 <= i < |visible| ==> visible[i].assortment == Some(assortmentFilter)
  {
    var visible := ApplyFiltersAndSort(allProducts, search, assortmentFilter, sortBy, collate);
    forall i | 0 <= i < |visible|
      ensures visible[i].assortment == Some(assortmentFilter)
    {
      VisibleContents(allProducts, search, assortmentFilter, sortBy, collate, visible[i]);
    }
  }

  /** A product matching a longer term also matches every term contained in it. */
  lemma SearchMatchShrinks(p: Product, shorter: string, longer: string)
    requires IsSubstring(shorter, longer)
    requires MatchesSearch(p, ToLower(longer))
    ensures MatchesSearch(p, ToLower(shorter))
  {
    SubstringLower(shorter, longer);
    var t, t' := ToLower(shorter), ToLower(longer);
    if IsSubstring(t', ToLower(SearchName(p))) {
      SubstringTransitive(t, t', ToLower(SearchName(p)));
    } else if IsSubstring(t', ToLower(CategoryLabel(p))) {
      SubstringTransitive(t, t', ToLower(CategoryLabel(p)));
    } else {
      SubstringTransitive(t, t', ToLower(GrapesText(p)));
    }
  }

  /**
   * Search ignores case: a term that differs from part of the name only in
   * the case of its letters (`"VIN"` for the name `"Vin Rosé"`) finds it.
   */
  lemma NameHitIgnoresCase(p: Product, search: string, t: string)
    requires IsSubstring(t, SearchName(p)) && ToLower(t) == ToLower(search)
    ensures MatchesSearch(p, ToLower(search))
  {
    SubstringLower(t, SearchName(p));
  }

  /** Two search texts that differ only in case show the same rows. */
  lemma SearchCaseBlind(allProducts: seq<Product>, search: string, search': string, assortmentFilter: string,
                        sortBy: string, collate: (string, string) -> int)
    requires ToLower(search) == ToLower(search')
    ensures ApplyFiltersAndSort(allProducts, search, assortmentFilter, sortBy, collate)
         == ApplyFiltersAndSort(allProducts, search', assortmentFilter, sortBy, collate)
  {
  }

  /**
   * Search is monotone: typing more (a term that contains the previous one)
   * never shows a product that was hidden, so the count never grows.
   */
  lemma SearchMonotone(allProducts: seq<Product>, shorter: string, longer: string, assortmentFilter: string,
                       sortBy: string, collate: (string, string) -> int)
    requires IsSubstring(shorter, longer)
    ensures var wide := ApplyFiltersAndSort(allProducts, shorter, assortmentFilter, sortBy, collate);
            var narrow := ApplyFiltersAndSort(allProducts, longer, assortmentFilter, sortBy, collate);
            multiset(narrow) <= multiset(wide) && |narrow| <= |wide|
  {
    forall p | Selected(p, longer, assortmentFilter)
      ensures Selected(p, shorter, assortmentFilter)
    {
      if ToLower(shorter) != "" {
        SearchMatchShrinks(p, shorter, longer);
      }
    }
    FilteredIsSelection(allProducts, shorter, assortmentFilter);
    FilteredIsSelection(allProducts, longer, assortmentFilter);
    Seqs.FilterWeaker(allProducts, SelectedCondition(longer, assortmentFilter),
                      SelectedCondition(shorter, assortmentFilter));
  }

  /** A term found in any one grape name finds the product. */
  lemma GrapeHitMatches(p: Product, search: string, k: nat)
    requires p.grapes.Some? && k < |p.grapes.value|
    requires IsSubstring(search, p.grapes.value[k])
    ensures MatchesSearch(p, ToLower(search))
  {
    JoinContainsPart(p.grapes.value, ", ", k);
    SubstringTransitive(search, p.grapes.value[k], GrapesText(p));
    SubstringLower(search, GrapesText(p));
  }

  /**
   * The searched name always holds the space between its two parts, so a
   * search for " " shows every product, even one without any text field.
   */
  lemma SpaceMatchesAll(allProducts: seq<Product>, sortBy: string, collate: (string, string) -> int)
    ensures multiset(ApplyFiltersAndSort(allProducts, " ", "", sortBy, collate)) == multiset(allProducts)
  {
    forall p: Product
      ensures Selected(p, " ", "")
    {
      var k := |OrEmpty(p.productNameBold)|;
      var name := ToLower(SearchName(p));
      assert SearchName(p)[k] == ' ';
      assert name[k] == LowerChar(' ') == ' ';
      assert name[k..k + 1] == " ";
      assert ToLower(" ") == " ";
      SubstringAt(" ", name, k);
    }
    FilteredIsSelection(allProducts, " ", "");
    Seqs.FilterKeepsAll(allProducts, SelectedCondition(" ", ""));
  }

  // ---------------------------------------------------------------------
  // Sorting
  // ---------------------------------------------------------------------

  /** Every comparator of the switch is a total preorder (for `name-asc`, when the collation is one). */
  lemma ComparatorIsPreorder(sortBy: string, collate: (string, string) -> int)
    requires sortBy == "name-asc" ==> IsCollation(collate)
    ensures StableSort.TotalPreorder(Comparator(sortBy, collate))
  {
    var cmp := Comparator(sortBy, collate);
    forall a, b, c | cmp(a, b) <= 0.0 && cmp(b, c) <= 0.0
      ensures cmp(a, c) <= 0.0
    {
      if sortBy == "name-asc" {
        assert collate(SortName(a), SortName(b)) <= 0 && collate(SortName(b), SortName(c)) <= 0;
      }
    }
    forall a, b
      ensures cmp(a, b) <= 0.0 || cmp(b, a) <= 0.0
    {
      if sortBy == "name-asc" {
        assert collate(SortName(a), SortName(b)) <= 0 || collate(SortName(b), SortName(a)) <= 0;
      }
    }
  }

  lemma VisibleSorted(allProducts: seq<Product>, search: string, assortmentFilter: string,
                      sortBy: string, collate: (string, string) -> int)
    requires sortBy == "name-asc" ==> IsCollation(collate)
    ensures StableSort.Sorted(ApplyFiltersAndSort(allProducts, search, assortmentFilter, sortBy, collate),
                              Comparator(sortBy, collate))
  {
    ComparatorIsPreorder(sortBy, collate);
    StableSort.SortSorted(Filtered(allProducts, search, assortmentFilter), Comparator(sortBy, collate));
  }

  /** `apk-desc`, `price-desc` and `volume-desc` list the coerced key in non-increasing order. */
  lemma DescendingKeys(allProducts: seq<Product>, search: string, assortmentFilter: string,
                       sortBy: string, collate: (string, string) -> int)
    requires sortBy in {"apk-desc", "price-desc", "volume-desc"}
    ensures var v := ApplyFiltersAndSort(allProducts, search, assortmentFilter, sortBy, collate);
            forall i, j :: 0 <= i < j < |v| ==> KeyValue(sortBy, v[i]) >= KeyValue(sortBy, v[j])
  {
    VisibleSorted(allProducts, search, assortmentFilter, sortBy, collate);
  }

  /** `apk-asc` and `price-asc` list the coerced key in non-decreasing order. */
  lemma AscendingKeys(allProducts: seq<Product>, search: string, assortmentFilter: string,
                      sortBy: string, collate: (string, string) -> int)
    requires sortBy in {"apk-asc", "price-asc"}
    ensures var v := ApplyFiltersAndSort(allProducts, search, assortmentFilter, sortBy, collate);
            forall i, j :: 0 <= i < j < |v| ==> KeyValue(sortBy, v[i]) <= KeyValue(sortBy, v[j])
  {
    VisibleSorted(allProducts, search, assortmentFilter, sortBy, collate);
  }

  /** `name-asc` lists the thin-then-bold names in collation order. */
  lemma NameAscending(allProducts: seq<Product>, search: string, assortmentFilter: string,
                      collate: (string, string) -> int)
    requires IsCollation(collate)
    ensures var v := ApplyFiltersAndSort(allProducts, search, assortmentFilter, "name-asc", collate);
            forall i, j :: 0 <= i < j < |v| ==> collate(SortName(v[i]), SortName(v[j])) <= 0
  {
    VisibleSorted(allProducts, search, assortmentFilter, "name-asc", collate);
  }

  function SameKeyAs(sortBy: string, x: Product): Product -> bool {
    e => KeyValue(sortBy, e) == KeyValue(sortBy, x)
  }

  /**
   * Ties under a numeric key keep the filtered order: the products whose key
   * equals that of `x` appear in the result in the order the filters left them.
   */
  lemma EqualKeysKeepOrder(allProducts: seq<Product>, search: string, assortmentFilter: string,
                           sortBy: string, collate: (string, string) -> int, x: Product)
    requires sortBy in NUMERIC_KEYS
    ensures Seqs.Filter(ApplyFiltersAndSort(allProducts, search, assortmentFilter, sortBy, collate), SameKeyAs(sortBy, x))
         == Seqs.Filter(Filtered(allProducts, search, assortmentFilter), SameKeyAs(sortBy, x))
  {
    assert StableSort.TieClass(Comparator(sortBy, collate), SameKeyAs(sortBy, x));
    StableSort.SortStable(Filtered(allProducts, search, assortmentFilter), Comparator(sortBy, collate),
                          SameKeyAs(sortBy, x));
  }

  function TiedWith(sortBy: string, collate: (string, string) -> int, x: Product): Product -> bool {
    e => StableSort.Tied(Comparator(sortBy, collate), e, x)
  }

  /** For every key, products the comparator ties with `x` keep their filtered order. */
  lemma TiesKeepOrder(allProducts: seq<Product>, search: string, assortmentFilter: string,
                      sortBy: string, collate: (string, string) -> int, x: Product)
    requires sortBy == "name-asc" ==> IsCollation(collate)
    ensures Seqs.Filter(ApplyFiltersAndSort(allProducts, search, assortmentFilter, sortBy, collate), TiedWith(sortBy, collate, x))
         == Seqs.Filter(Filtered(allProducts, search, assortmentFilter), TiedWith(sortBy, collate, x))
  {
    ComparatorIsPreorder(sortBy, collate);
    StableSort.TiedWithIsClass(Comparator(sortBy, collate), x);
    assert TiedWith(sortBy, collate, x) == (e => StableSort.Tied(Comparator(sortBy, collate), e, x));
    StableSort.SortStable(Filtered(allProducts, search, assortmentFilter), Comparator(sortBy, collate),
                          TiedWith(sortBy, collate, x));
  }

  /** An unrecognised sort key (the comparator's `default: return 0`) leaves the filtered order unchanged. */
  lemma UnknownKeyKeepsOrder(allProducts: seq<Product>, search: string, assortmentFilter: string,
                             sortBy: string, collate: (string, string) -> int)
    requires sortBy !in SORT_KEYS
    ensures ApplyFiltersAndSort(allProducts, search, assortmentFilter, sortBy, collate)
         == Filtered(allProducts, search, assortmentFilter)
  {
    var filtered := Filtered(allProducts, search, assortmentFilter);
    UnknownKeyTiesAll(sortBy, collate);
    StableSort.AllTiedIsIdentity(filtered, Comparator(sortBy, collate));
  }

  lemma UnknownKeyTiesAll(sortBy: string, collate: (string, string) -> int)
    requires sortBy !in SORT_KEYS
    ensures forall a, b :: Comparator(sortBy, collate)(a, b) == 0.0
  {
    forall a, b
      ensures Compare(sortBy, collate, a, b) == 0.0
    {
    }
  }

  // ---------------------------------------------------------------------
  // A worked example: three products, one field each
  // ---------------------------------------------------------------------

  function Sample(name: string, price: real, apk: real): Product {
    Product(Some(name), None, None, None, None, None, None, Some(Num(price)), Some(Num(apk)), None, None)
  }

  /** Sorting Äpple (100 kr), Öl (50 kr) and Vin (75 kr) by `price-asc` gives Öl, Vin, Äpple. */
  lemma PriceAscExample(collate: (string, string) -> int)
    ensures var apple, beer, wine := Sample("Äpple", 100.0, 0.5), Sample("Öl", 50.0, 1.2), Sample("Vin", 75.0, 0.8);
            ApplyFiltersAndSort([apple, beer, wine], "", "", "price-asc", collate) == [beer, wine, apple]
  {
    var apple, beer, wine := Sample("Äpple", 100.0, 0.5), Sample("Öl", 50.0, 1.2), Sample("Vin", 75.0, 0.8);
    var cmp := Comparator("price-asc", collate);
    assert cmp(beer, wine) == -25.0;
    assert cmp(apple, beer) == 50.0;
    assert cmp(apple, wine) == 25.0;
    assert Filtered([apple, beer, wine], "", "") == [apple, beer, wine];
    assert StableSort.Insert(beer, [wine], cmp) == [beer, wine];
    assert StableSort.Insert(apple, [wine], cmp) == [wine, apple];
    assert StableSort.Insert(apple, [beer, wine], cmp) == [beer, wine, apple];
    assert [apple, beer, wine][1..] == [beer, wine];
    assert [beer, wine][1..] == [wine];
    assert StableSort.Sort([wine], cmp) == [wine];
    assert StableSort.Sort([beer, wine], cmp) == [beer, wine];
    assert StableSort.Sort([apple, beer, wine], cmp) == [beer, wine, apple];
  }

  /** Searching "vin" over the same three shows only Vin, whatever its case. */
  lemma SearchVinExample(collate: (string, string) -> int)
    ensures var apple, beer, wine := Sample("Äpple", 100.0, 0.5), Sample("Öl", 50.0, 1.2), Sample("Vin", 75.0, 0.8);
            ApplyFiltersAndSort([apple, beer, wine], "vin", "", "price-asc", collate) == [wine]
  {
    var apple, beer, wine := Sample("Äpple", 100.0, 0.5), Sample("Öl", 50.0, 1.2), Sample("Vin", 75.0, 0.8);
    assert ToLower("vin") == "vin";
    VinMatchesOnlyVin();
    var c := SearchCondition("vin");
    assert [apple, beer, wine][1..] == [beer, wine];
    assert [beer, wine][1..] == [wine];
    assert Seqs.Filter([wine], c) == [wine];
    assert Seqs.Filter([beer, wine], c) == [wine];
    assert Seqs.Filter([apple, beer, wine], c) == [wine];
    assert Filtered([apple, beer, wine], "vin", "") == [wine];
  }

  lemma VinMatchesOnlyVin()
    ensures var apple, beer, wine := Sample("Äpple", 100.0, 0.5), Sample("Öl", 50.0, 1.2), Sample("Vin", 75.0, 0.8);
            !MatchesSearch(apple, "vin") && !MatchesSearch(beer, "vin") && MatchesSearch(wine, "vin")
  {
    var apple, beer, wine := Sample("Äpple", 100.0, 0.5), Sample("Öl", 50.0, 1.2), Sample("Vin", 75.0, 0.8);
    assert ToLower(SearchName(wine)) == "vin ";
    assert OccursAt("vin", "vin ", 0);
    assert ToLower(SearchName(apple)) == "äpple ";
    MissingCharNotSubstring("vin", "äpple ", 0);
    assert ToLower(SearchName(beer)) == "öl ";
    MissingCharNotSubstring("vin", "öl ", 0);
    assert !IsSubstring("vin", "");
    assert ToLower(CategoryLabel(apple)) == ToLower(GrapesText(apple)) == "";
  }
}
