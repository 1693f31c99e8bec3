/** The `products` entity: thirteen nullable columns, two constructors, and
    one getter/setter pair per column. A Java `null` is `None`; floating
    point columns are carried as opaque `real` values and never computed
    with. Getters and setters are modelled once, over a `Field` name. */
module Products {
  import opened Common

  datatype Product = Product(
    id: Option<Long>,
    name: Option<string>,
    image: Option<string>,
    price: Option<real>,
    category: Option<string>,
    originalPrice: Option<real>,
    featured: Option<bool>,
    rating: Option<real>,
    reviews: Option<Int32>,
    inStock: Option<bool>,
    imageUrl: Option<string>,
    imageFilename: Option<string>,
    imagePath: Option<string>)

  datatype Field =
    | Id | Name | Image | Price | Category | OriginalPrice | Featured
    | Rating | Reviews | InStock | ImageUrl | ImageFilename | ImagePath

  /** What a getter returns: `Null` or a value of the column's Java type. */
  datatype Value =
    | Null
    | LongValue(l: Long)
    | Text(s: string)
    | Decimal(d: real)
    | Flag(b: bool)
    | IntValue(i: Int32)

  function OfLong(o: Option<Long>): Value {
    match o case None => Null case Some(x) => LongValue(x)
  }

  function OfText(o: Option<string>): Value {
    match o case None => Null case Some(x) => Text(x)
  }

  function OfDecimal(o: Option<real>): Value {
    match o case None => Null case Some(x) => Decimal(x)
  }

  function OfFlag(o: Option<bool>): Value {
    match o case None => Null case Some(x) => Flag(x)
  }

  function OfInt(o: Option<Int32>): Value {
    match o case None => Null case Some(x) => IntValue(x)
  }

  /** The value a setter for `f` accepts: `null` or the column's type. */
  predicate Fits(f: Field, v: Value) {
    match f
    case Id => v.Null? || v.LongValue?
    case Name | Image | Category | ImageUrl | ImageFilename | ImagePath => v.Null? || v.Text?
    case Price | OriginalPrice | Rating => v.Null? || v.Decimal?
    case Featured | InStock => v.Null? || v.Flag?
    case Reviews => v.Null? || v.IntValue?
  }

  /** The getter for `f`. */
  function Get(p: Product, f: Field): (v: Value)
    ensures Fits(f, v)
  {
    match f
    case Id => OfLong(p.id)
    case Name => OfText(p.name)
    case Image => OfText(p.image)
    case Price => OfDecimal(p.price)
    case Category => OfText(p.category)
    case OriginalPrice => OfDecimal(p.originalPrice)
    case Featured => OfFlag(p.featured)
    case Rating => OfDecimal(p.rating)
    case Reviews => OfInt(p.reviews)
    case InStock => OfFlag(p.inStock)
    case ImageUrl => OfText(p.imageUrl)
    case ImageFilename => OfText(p.imageFilename)
    case ImagePath => OfText(p.imagePath)
  }

  function AsLong(v: Value): Option<Long> {
    if v.LongValue? then Some(v.l) else None
  }

  function AsText(v: Value): Option<string> {
    if v.Text? then Some(v.s) else None
  }

  function AsDecimal(v: Value): Option<real> {
    if v.Decimal? then Some(v.d) else None
  }

  function AsFlag(v: Value): Option<bool> {
    if v.Flag? then Some(v.b) else None
  }

  function AsInt(v: Value): Option<Int32> {
    if v.IntValue? then Some(v.i) else None
  }

  /** The setter for `f`: the matching getter then returns `v`, and every
      other getter returns what it returned before. */
  function Set(p: Product, f: Field, v: Value): (q: Product)
    requires Fits(f, v)
    ensures Get(q, f) == v
    ensures forall g :: g != f ==> Get(q, g) == Get(p, g)
  {
    match f
    case Id => p.(id := AsLong(v))
    case Name => p.(name := AsText(v))
    case Image => p.(image := AsText(v))
    case Price => p.(price := AsDecimal(v))
    case Category => p.(category := AsText(v))
    case OriginalPrice => p.(originalPrice := AsDecimal(v))
    case Featured => p.(featured := AsFlag(v))
    case Rating => p.(rating := AsDecimal(v))
    case Reviews => p.(reviews := AsInt(v))
    case InStock => p.(inStock := AsFlag(v))
    case ImageUrl => p.(imageUrl := AsText(v))
    case ImageFilename => p.(imageFilename := AsText(v))
    case ImagePath => p.(imagePath := AsText(v))
  }

  /** Two records with the same getters are the same record. */
  lemma GettersDetermineProduct(p: Product, q: Product)
    requires forall f :: Get(p, f) == Get(q, f)
    ensures p == q
  {
    assert p.id == q.id by { assert Get(p, Id) == Get(q, Id); }
    assert p.name == q.name by { assert Get(p, Name) == Get(q, Name); }
    assert p.image == q.image by { assert Get(p, Image) == Get(q, Image); }
    assert p.price == q.price by { assert Get(p, Price) == Get(q, Price); }
    assert p.category == q.category by { assert Get(p, Category) == Get(q, Category); }
    assert p.originalPrice == q.originalPrice by { assert Get(p, OriginalPrice) == Get(q, OriginalPrice); }
    assert p.featured == q.featured by { assert Get(p, Featured) == Get(q, Featured); }
    assert p.rating == q.rating by { assert Get(p, Rating) == Get(q, Rating); }
    assert p.reviews == q.reviews by { assert Get(p, Reviews) == Get(q, Reviews); }
    assert p.inStock == q.inStock by { assert Get(p, InStock) == Get(q, InStock); }
    assert p.imageUrl == q.imageUrl by { assert Get(p, ImageUrl) == Get(q, ImageUrl); }
    assert p.imageFilename == q.imageFilename by { assert Get(p, ImageFilename) == Get(q, ImageFilename); }
    assert p.imagePath == q.imagePath by { assert Get(p, ImagePath) == Get(q, ImagePath); }
  }

  /** The no-argument constructor: every column is `null`, the id included. */
  function NoArgs(): (p: Product)
    ensures forall f :: Get(p, f) == Null
  {
    Product(None, None, None, None, None, None, None, None, None, None, None, None, None)
  }

  /** The fields the five-argument constructor assigns. */
  predicate IsEssential(f: Field) {
    f == Name || f == Image || f == Price || f == Category || f == InStock
  }

  /** The five-argument constructor: it assigns name, image, price, category
      and inStock, and leaves every other column `null` — the id included,
      which the store generates. */
  function WithEssentials(name: Option<string>, image: Option<string>, price: Option<real>,
                          category: Option<string>, inStock: Option<bool>): (p: Product)
    ensures Get(p, Name) == OfText(name) && Get(p, Image) == OfText(image)
    ensures Get(p, Price) == OfDecimal(price) && Get(p, Category) == OfText(category)
    ensures Get(p, InStock) == OfFlag(inStock)
    ensures forall f :: !IsEssential(f) ==> Get(p, f) == Null
  {
    NoArgs().(name := name, image := image, price := price, category := category, inStock := inStock)
  }

  /** The image columns after an upload: exactly `imageUrl`, `imageFilename`
      and `imagePath` change, to the given values. */
  function WithImage(p: Product, url: string, filename: string, path: string): (q: Product)
    ensures Get(q, ImageUrl) == Text(url)
    ensures Get(q, ImageFilename) == Text(filename)
    ensures Get(q, ImagePath) == Text(path)
    ensures forall g :: g != ImageUrl && g != ImageFilename && g != ImagePath ==> Get(q, g) == Get(p, g)
  {
    Set(Set(Set(p, ImageUrl, Text(url)), ImageFilename, Text(filename)), ImagePath, Text(path))
  }

  /** The three image columns are either all `null` or all set. */
  predicate ImageColumnsAgree(p: Product) {
    p.imageUrl.None? == p.imageFilename.None? && p.imageFilename.None? == p.imagePath.None?
  }
}
