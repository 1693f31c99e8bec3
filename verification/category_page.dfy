/** `CategoryPage`: the products of one catalogue category, filtered by the
    filter menu and sorted by the default "featured" comparator, with the
    result count and the Load More threshold. Properties read through
    JavaScript truthiness: a flag counts only when it is `true`, and an
    original price only when it is a non-empty string. */
module CategoryPage {
  import opened Common

  datatype Listing = Listing(
    id: string,
    name: string,
    price: string,
    originalPrice: Option<string>,
    inStock: Option<bool>,
    featured: Option<bool>)

  datatype CategoryData = CategoryData(title: string, description: string, products: seq<Listing>)

  predicate InStock(p: Listing) {
    p.inStock == Some(true)
  }

  predicate Featured(p: Listing) {
    p.featured == Some(true)
  }

  predicate NotFeatured(p: Listing) {
    !Featured(p)
  }

  /** `product.originalPrice` is truthy: present and not empty. */
  predicate OnSale(p: Listing) {
    p.originalPrice.Some? && p.originalPrice.value != ""
  }

  const LOAD_MORE_THRESHOLD: int := 8

  /** The filter menu: three named filters; "all" and any other value keep
      every product in its order. */
  function ApplyFilter(products: seq<Listing>, filterBy: string): (r: seq<Listing>)
    ensures |r| <= |products|
    ensures filterBy != "in-stock" && filterBy != "featured" && filterBy != "sale" ==> r == products
    ensures filterBy == "in-stock" ==> r == Filter(InStock, products)
    ensures filterBy == "featured" ==> r == Filter(Featured, products)
    ensures filterBy == "sale" ==> r == Filter(OnSale, products)
  {
    if filterBy == "in-stock" then Filter(InStock, products)
    else if filterBy == "featured" then Filter(Featured, products)
    else if filterBy == "sale" then Filter(OnSale, products)
    else products
  }

  /** What the named filters keep: exactly the products with the property,
      each as often as it occurs. */
  lemma FilterKeepsExactly(products: seq<Listing>, filterBy: string, p: Listing)
    requires filterBy == "in-stock" || filterBy == "featured" || filterBy == "sale"
    ensures var keep := if filterBy == "in-stock" then InStock(p)
                        else if filterBy == "featured" then Featured(p) else OnSale(p);
            multiset(ApplyFilter(products, filterBy))[p] == if keep then multiset(products)[p] else 0
  {
    if filterBy == "in-stock" {
      FilterMultiset(InStock, products, p);
    } else if filterBy == "featured" {
      FilterMultiset(Featured, products, p);
    } else {
      FilterMultiset(OnSale, products, p);
    }
  }

  // ---------------------------------------------------------------------------
  // The default sort.

  /** The comparator `(b.featured ? 1 : 0) - (a.featured ? 1 : 0)` orders
      by this rank: featured products first. */
  function Rank(p: Listing): int {
    if Featured(p) then 0 else 1
  }

  /** Featured products first, each group in its original order: what a
      stable sort with the featured comparator produces. */
  function FeaturedFirst(s: seq<Listing>): seq<Listing> {
    Filter(Featured, s) + Filter(NotFeatured, s)
  }

  /** One step of a stable insertion sort: `x` goes after every element
      that does not rank strictly after it. */
  function InsertStable(r: seq<Listing>, x: Listing): (out: seq<Listing>)
    ensures |out| == |r| + 1
    decreases |r|
  {
    if |r| == 0 then [x]
    else if Rank(r[|r| - 1]) > Rank(x) then InsertStable(r[..|r| - 1], x) + [r[|r| - 1]]
    else r + [x]
  }

  predicate AllFeatured(s: seq<Listing>) {
    forall i :: 0 <= i < |s| ==> Featured(s[i])
  }

  predicate NoneFeatured(s: seq<Listing>) {
    forall i :: 0 <= i < |s| ==> !Featured(s[i])
  }

  /** Inserting into a list already in featured-first order puts a featured
      product after the featured group and any other product at the end. */
  lemma {:induction false} InsertIntoPartition(a: seq<Listing>, b: seq<Listing>, x: Listing)
    requires AllFeatured(a) && NoneFeatured(b)
    ensures InsertStable(a + b, x) == if Featured(x) then a + [x] + b else a + b + [x]
    decreases |b|
  {
    var r := a + b;
    if Featured(x) && |b| > 0 {
      var b' := b[..|b| - 1];
      assert r[..|r| - 1] == a + b';
      InsertIntoPartition(a, b', x);
      assert b == b' + [b[|b| - 1]];
    } else if Featured(x) {
      assert r == a;
    }
  }

  lemma FilterOneMore(p: Listing -> bool, s: seq<Listing>, x: Listing)
    ensures Filter(p, s + [x]) == Filter(p, s) + (if p(x) then [x] else [])
  {
    FilterConcat(p, s, [x]);
  }

  /** Inserting the next product keeps the list in featured-first order. */
  lemma FeaturedFirstStep(t: seq<Listing>, x: Listing)
    ensures InsertStable(FeaturedFirst(t), x) == FeaturedFirst(t + [x])
  {
    var a, b := Filter(Featured, t), Filter(NotFeatured, t);
    assert AllFeatured(a);
    assert NoneFeatured(b);
    InsertIntoPartition(a, b, x);
    FilterOneMore(Featured, t, x);
    FilterOneMore(NotFeatured, t, x);
  }

  /** The sort as the page runs it: a stable insertion sort with the
      featured comparator. The result is the featured products followed by
      the others, each group in its original order. */
  method SortFeaturedFirst(s: seq<Listing>) returns (r: seq<Listing>)
    ensures r == FeaturedFirst(s)
    ensures |r| == |s|
  {
    r := [];
    var i := 0;
    while i < |s|
      invariant 0 <= i <= |s|
      invariant r == FeaturedFirst(s[..i])
    {
      FeaturedFirstStep(s[..i], s[i]);
      assert s[..i + 1] == s[..i] + [s[i]];
      r := InsertStable(r, s[i]);
      i := i + 1;
    }
    assert s[..i] == s;
    FeaturedFirstIsPermutation(s);
  }

  /** The sorted list is a rearrangement of its input: every product occurs
      in it exactly as often, and every featured product precedes every
      other one. */
  lemma FeaturedFirstIsPermutation(s: seq<Listing>)
    ensures multiset(FeaturedFirst(s)) == multiset(s)
    ensures |FeaturedFirst(s)| == |s|
    ensures var r := FeaturedFirst(s);
            forall i, j :: 0 <= i < j < |r| && !Featured(r[i]) ==> !Featured(r[j])
  {
    FeaturedFirstSameMultiset(s);
    var r := FeaturedFirst(s);
    assert |r| == |multiset(r)|;
    FeaturedFirstOrdered(s);
  }

  lemma FeaturedFirstSameMultiset(s: seq<Listing>)
    ensures multiset(FeaturedFirst(s)) == multiset(s)
  {
    var r := FeaturedFirst(s);
    forall x ensures multiset(r)[x] == multiset(s)[x] {
      FilterMultiset(Featured, s, x);
      FilterMultiset(NotFeatured, s, x);
    }
  }

  lemma FeaturedFirstOrdered(s: seq<Listing>)
    ensures var r := FeaturedFirst(s);
            forall i, j :: 0 <= i < j < |r| && !Featured(r[i]) ==> !Featured(r[j])
  {
    var r := FeaturedFirst(s);
    var a := Filter(Featured, s);
    var b := Filter(NotFeatured, s);
    forall i, j | 0 <= i < j < |r| && !Featured(r[i]) ensures !Featured(r[j]) {
      assert i >= |a|;
      assert r[j] == b[j - |a|];
    }
  }

  // ---------------------------------------------------------------------------
  // The page.

  /** What the page shows: a redirect home for an unknown slug; a render
      that throws, for a slug that names a member every object inherits;
      otherwise the sorted products, the total behind the count, and the
      Load More flag. */
  datatype View =
    | RedirectHome
    | Crashed
    | Listed(products: seq<Listing>, total: int, loadMore: bool)

  /** The page for `slug` under a filter, with the default sort. The lookup
      `productsByCategory[categorySlug]` also finds the inherited members of
      `Object.prototype`; those are truthy, so neither the redirect nor the
      early return fires, and spreading their missing `products` throws a
      `TypeError`. */
  method ShowCategory(catalog: map<string, CategoryData>, slug: string, filterBy: string) returns (v: View)
    ensures v.Listed? <==> slug in catalog
    ensures v.RedirectHome? <==> slug !in catalog && slug !in OBJECT_PROTOTYPE_MEMBERS
    ensures v.Crashed? <==> slug !in catalog && slug in OBJECT_PROTOTYPE_MEMBERS
    ensures v.Listed? ==>
              && v.products == FeaturedFirst(ApplyFilter(catalog[slug].products, filterBy))
              && v.total == |catalog[slug].products|
              && |v.products| <= v.total
              && (v.loadMore <==> |v.products| >= LOAD_MORE_THRESHOLD)
  {
    if slug !in catalog {
      if slug in OBJECT_PROTOTYPE_MEMBERS {
        return Crashed;
      }
      return RedirectHome;
    }
    var all := catalog[slug].products;
    var shown := SortFeaturedFirst(ApplyFilter(all, filterBy));
    v := Listed(shown, |all|, |shown| >= LOAD_MORE_THRESHOLD);
  }
}
