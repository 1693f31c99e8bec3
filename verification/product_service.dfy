/** `productService`: the three read-only queries over the product table.
    Each is a function of the table, so none of them can modify it. */
module ProductService {
  import opened Common
  import opened Products
  import opened ProductStore

  /** `getAllProducts`: the store's full list, in the store's order. */
  function GetAllProducts(t: Table): (r: seq<Product>)
    ensures |r| == |t|
    ensures forall i :: 0 <= i < |t| ==> r[i] == t[i].product
  {
    FindAll(t)
  }

  /** `getProductById`: the id is narrowed with `Math.toIntExact` first, so
      an id outside `int` range throws instead of yielding empty. */
  function GetProductById(t: Table, proId: Long): (r: Result<Option<Product>, JavaException>)
    ensures r.Err? <==> !(INT_MIN <= proId <= INT_MAX)
    ensures r.Err? ==> r.error == ArithmeticOverflow("integer overflow")
    ensures r.Ok? ==> (r.value.Some? <==> HasKey(t, proId))
    ensures r.Ok? && KeysUnique(t) ==>
              forall i :: 0 <= i < |t| && t[i].key == proId ==> r.value == Some(t[i].product)
  {
    match ToIntExact(proId)
    case Err(e) => Err(e)
    case Ok(key) => Ok(FindById(t, key))
  }

  /** `getProductsByCategory`: the products whose category equals the
      argument exactly (a product with no category never matches). */
  function GetProductsByCategory(t: Table, category: string): (r: seq<Product>)
    ensures |r| <= |t|
    ensures forall i :: 0 <= i < |r| ==> r[i].category == Some(category)
    ensures forall i :: 0 <= i < |t| && t[i].product.category == Some(category) ==> t[i].product in r
  {
    FindByCategory(t, category)
  }

  /** The category query keeps every matching product as often as it is
      stored and nothing else, in the store's order. */
  lemma CategoryQueryExact(t: Table, u: Table, category: string, p: Product)
    ensures multiset(GetProductsByCategory(t, category))[p]
            == if p.category == Some(category) then multiset(GetAllProducts(t))[p] else 0
    ensures GetProductsByCategory(t + u, category)
            == GetProductsByCategory(t, category) + GetProductsByCategory(u, category)
  {
    FilterMultiset(q => InCategory(category, q), FindAll(t), p);
    assert FindAll(t + u) == FindAll(t) + FindAll(u);
    FilterConcat(q => InCategory(category, q), FindAll(t), FindAll(u));
  }
}
