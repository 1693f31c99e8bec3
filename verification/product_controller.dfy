/** `productController`: the three GET handlers over `productService`. */
module ProductController {
  import opened Common
  import opened Products
  import opened ProductStore
  import opened Http
  import opened ProductService

  /** `GET /products`: the service list, unchanged. */
  function GetAll(t: Table): (r: Response<seq<Product>>)
    ensures r.status == OK && r.body.Some?
    ensures |r.body.value| == |t|
    ensures forall i :: 0 <= i < |t| ==> r.body.value[i] == t[i].product
  {
    Response(OK, Some(GetAllProducts(t)), None)
  }

  /** `GET /products/{proId}`: 200 with the product, 404 when absent; an
      id outside `int` range throws out of the handler. */
  function GetById(t: Table, proId: Long): (r: Handled<Product>)
    ensures r.Escaped? <==> !(INT_MIN <= proId <= INT_MAX)
    ensures r.Responded? ==> (r.response.status == OK <==> HasKey(t, proId))
    ensures r.Responded? && r.response.status == OK ==>
              r.response.body.Some? && Some(r.response.body.value) == FindById(t, proId)
    ensures r.Responded? && r.response.status != OK ==> r.response == Response(NOT_FOUND, None, None)
  {
    match GetProductById(t, proId)
    case Err(e) => Escaped(e)
    case Ok(None) => Responded(Response(NOT_FOUND, None, None))
    case Ok(Some(p)) => Responded(Response(OK, Some(p), None))
  }

  /** `GET /products/category/{categorySlug}`: 404 when nothing matches,
      never 200 with an empty list; otherwise 200 with exactly the matches. */
  function GetByCategory(t: Table, slug: string): (r: Response<seq<Product>>)
    ensures r.status == NOT_FOUND <==> forall i :: 0 <= i < |t| ==> t[i].product.category != Some(slug)
    ensures r.status == NOT_FOUND ==> r.body.None?
    ensures r.status != NOT_FOUND ==>
              && r.status == OK && r.body == Some(GetProductsByCategory(t, slug))
              && |r.body.value| > 0
  {
    var products := GetProductsByCategory(t, slug);
    if |products| == 0 then Response(NOT_FOUND, None, None)
    else
      assert products[0] in FindAll(t);
      Response(OK, Some(products), None)
  }
}
