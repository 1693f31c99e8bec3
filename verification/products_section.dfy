/** `ProductsSection`: the home page's fixed showcase of six products, the
    category buttons that filter it, and the count text above the grid. */
module ProductsSection {
  import opened Common

  datatype ShowcaseProduct = ShowcaseProduct(id: int, title: string, price: string, category: string)

  const ALL: string := "All"

  /** The six showcase products (images and alt texts left out). */
  const PRODUCTS: seq<ShowcaseProduct> := [
    ShowcaseProduct(1, "Premium Car Wax - Long Lasting Protection", "$49.99", "Wax"),
    ShowcaseProduct(2, "Ceramic Coating Kit - Professional Grade", "$159.99", "Coating"),
    ShowcaseProduct(3, "Microfiber Towel Set - Ultra Soft", "$29.99", "Accessories"),
    ShowcaseProduct(4, "Paint Correction Polish - Swirl Remover", "$79.99", "Polish"),
    ShowcaseProduct(5, "Interior Cleaner Spray - All Surfaces", "$24.99", "Cleaner"),
    ShowcaseProduct(6, "Tire Shine Gel - Long Lasting Gloss", "$19.99", "Tire Care")
  ]

  /** The category buttons, in display order. */
  const CATEGORIES: seq<string> := ["All", "Wax", "Coating", "Polish", "Cleaner", "Accessories", "Tire Care"]

  predicate InShowcaseCategory(category: string, p: ShowcaseProduct) {
    p.category == category
  }

  /** The products shown under the active button: all of them for "All",
      otherwise exactly those of that category, in order. */
  function Visible(products: seq<ShowcaseProduct>, active: string): (r: seq<ShowcaseProduct>)
    ensures active == ALL ==> r == products
    ensures active != ALL ==> forall i :: 0 <= i < |r| ==> r[i].category == active && r[i] in products
    ensures active != ALL ==> forall i :: 0 <= i < |products| && products[i].category == active ==> products[i] in r
    ensures active != ALL ==> IsSelection(r, products, (p: ShowcaseProduct) => p.category == active)
  {
    FilterIsSelection(p => InShowcaseCategory(active, p), products);
    if active == ALL then products else Filter(p => InShowcaseCategory(active, p), products)
  }

  /** The label: "<n> Products" for "All", "<k> <category> Products" otherwise. */
  function CountLabel(products: seq<ShowcaseProduct>, active: string): string {
    if active == ALL then DecimalString(|products|) + " Products"
    else DecimalString(|Visible(products, active)|) + " " + active + " Products"
  }

  /** The number in the label is the number of cards in the grid, and it is
      followed by the category name unless all products are shown. */
  lemma LabelCountsVisible(products: seq<ShowcaseProduct>, active: string)
    ensures var n := DecimalString(|Visible(products, active)|);
            var text := CountLabel(products, active);
            && |text| > |n| && text[..|n|] == n && text[|n|] == ' '
            && ParseDecimal(text[..|n|]) == Some(|Visible(products, active)|)
            && (active != ALL ==> text[|n| + 1..] == active + " Products")
            && (active == ALL ==> text[|n| + 1..] == "Products")
  {
    var n := DecimalString(|Visible(products, active)|);
    var text := CountLabel(products, active);
    if active == ALL {
      assert text == n + " Products";
    } else {
      assert text == n + " " + (active + " Products");
    }
    ParseDecimalString(|Visible(products, active)|);
  }

  /** Every category button other than "All" shows at least one product,
      so the empty-grid message never appears with this data. */
  lemma NoEmptyCategory(k: int)
    requires 1 <= k < |CATEGORIES|
    ensures |Visible(PRODUCTS, CATEGORIES[k])| >= 1
  {
    var c := CATEGORIES[k];
    var i := match k case 1 => 0 case 2 => 1 case 3 => 3 case 4 => 4 case 5 => 2 case _ => 5;
    assert PRODUCTS[i].category == c;
  }
}
