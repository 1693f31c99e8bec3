/** The `repository` (a `JpaRepository<products, Integer>`) as an abstract
    table: a list of rows in the store's own order, each under a distinct
    `int` primary key. Persistence, transactions and SQL are not modelled. */
module ProductStore {
  import opened Common
  import opened Products

  datatype Row = Row(key: Int32, product: Product)

  type Table = seq<Row>

  /** Primary keys are distinct. */
  predicate KeysUnique(t: Table) {
    forall i, j :: 0 <= i < j < |t| ==> t[i].key != t[j].key
  }

  predicate HasKey(t: Table, key: int) {
    exists i :: 0 <= i < |t| && t[i].key == key
  }

  /** `findById`: the product stored under `key`, or empty. */
  function FindById(t: Table, key: Int32): (r: Option<Product>)
    ensures r.Some? <==> HasKey(t, key)
    ensures r.Some? ==> exists i :: 0 <= i < |t| && t[i].key == key && t[i].product == r.value
    ensures KeysUnique(t) ==> forall i :: 0 <= i < |t| && t[i].key == key ==> r == Some(t[i].product)
  {
    if |t| == 0 then None
    else if t[0].key == key then Some(t[0].product)
    else
      assert forall i :: 1 <= i < |t| ==> t[i] == t[1..][i - 1];
      FindById(t[1..], key)
  }

  /** `findAll`: every stored product, in the store's order. */
  function FindAll(t: Table): (r: seq<Product>)
    ensures |r| == |t|
    ensures forall i :: 0 <= i < |t| ==> r[i] == t[i].product
  {
    seq(|t|, i requires 0 <= i < |t| => t[i].product)
  }

  predicate InCategory(c: string, p: Product) {
    p.category == Some(c)
  }

  /** `findByCategory`: the products whose category equals `c` exactly. */
  function FindByCategory(t: Table, c: string): seq<Product> {
    Filter(p => InCategory(c, p), FindAll(t))
  }

  /** `save` of an entity already stored under `key`: that row's product is
      replaced; keys, order and every other row are kept. */
  function Save(t: Table, key: Int32, p: Product): (r: Table)
    ensures |r| == |t|
    ensures forall i :: 0 <= i < |t| ==> r[i].key == t[i].key
    ensures forall i :: 0 <= i < |t| ==> r[i].product == if t[i].key == key then p else t[i].product
  {
    seq(|t|, i requires 0 <= i < |t| => if t[i].key == key then Row(key, p) else t[i])
  }

  /** After a save, looking the key up yields the saved product, any other
      key yields what it yielded before, and keys stay distinct. */
  lemma SaveThenFind(t: Table, key: Int32, p: Product, other: Int32)
    requires KeysUnique(t) && HasKey(t, key)
    ensures KeysUnique(Save(t, key, p))
    ensures FindById(Save(t, key, p), key) == Some(p)
    ensures other != key ==> FindById(Save(t, key, p), other) == FindById(t, other)
  {
    var r := Save(t, key, p);
    var i :| 0 <= i < |t| && t[i].key == key;
    assert r[i].key == key;
    if other != key && HasKey(t, other) {
      var j :| 0 <= j < |t| && t[j].key == other;
      assert r[j].key == other;
    }
  }

  /** A save leaves every other key's lookup as it was. */
  lemma SaveKeepsOtherKeys(t: Table, key: Int32, p: Product)
    requires KeysUnique(t) && HasKey(t, key)
    ensures forall k: Int32 :: k != key ==> FindById(Save(t, key, p), k) == FindById(t, k)
  {
    forall k: Int32 | k != key
      ensures FindById(Save(t, key, p), k) == FindById(t, k)
    {
      SaveThenFind(t, key, p, k);
    }
  }
}
