/** `ProductDetailView`: the quantity stepper, the Add to Cart button that
    adds the product once per unit, and the icon chosen from the id. */
module ProductDetail {
  import opened Cart

  const INITIAL_QUANTITY: int := 1

  /** The minus button: one less, but never below one. */
  function Decrement(quantity: int): (r: int)
    ensures r >= 1
    ensures r <= quantity || quantity < 1
    ensures quantity > 1 ==> r == quantity - 1
  {
    if quantity - 1 > 1 then quantity - 1 else 1
  }

  /** The plus button: one more, which the minus button takes back on every
      quantity the stepper can show. */
  function Increment(quantity: int): (r: int)
    ensures r > quantity
    ensures quantity >= 1 ==> Decrement(r) == quantity
  {
    quantity + 1
  }

  datatype Click = Minus | Plus

  function Clicks(quantity: int, clicks: seq<Click>): int
    decreases |clicks|
  {
    if |clicks| == 0 then quantity
    else Clicks(if clicks[0] == Minus then Decrement(quantity) else Increment(quantity), clicks[1..])
  }

  /** Starting from one, no sequence of clicks shows a quantity below one,
      and the quantity never exceeds one plus the number of clicks. */
  lemma {:induction false} ClicksStayPositive(quantity: int, clicks: seq<Click>)
    requires quantity >= 1
    ensures 1 <= Clicks(quantity, clicks) <= quantity + |clicks|
    decreases |clicks|
  {
    if |clicks| > 0 {
      var next := if clicks[0] == Minus then Decrement(quantity) else Increment(quantity);
      ClicksStayPositive(next, clicks[1..]);
    }
  }

  /** What `n` additions of the same product do to a cart: a line already
      there gains `n`, otherwise one line with quantity `n` is appended. */
  function AddedTimes(items: seq<Item>, p: Payload, n: nat): seq<Item> {
    if n == 0 then items
    else if HasId(items, p.id) then ChangeQuantity(items, p.id, x => x + n)
    else items + [Item(p.id, n, p.details)]
  }

  /** One more addition extends `n` additions to `n + 1`. */
  lemma AddOnceMore(items: seq<Item>, p: Payload, n: nat)
    ensures Add(AddedTimes(items, p, n), p) == AddedTimes(items, p, n + 1)
  {
    var before := AddedTimes(items, p, n);
    var after := Add(before, p);
    var want := AddedTimes(items, p, n + 1);
    if n > 0 && !HasId(items, p.id) {
      assert before[|items|].id == p.id;
    }
    assert |after| == |want|;
    forall i | 0 <= i < |want| ensures after[i] == want[i] {
      if i < |items| {
        assert before[i].id == items[i].id;
      }
    }
  }

  /** The Add to Cart handler: `quantity` dispatches of `ADD_TO_CART` with
      the same product. The product's line gains exactly `quantity` (or is
      appended with it), and on a cart with distinct ids the item count
      rises by `quantity`. */
  method HandleAddToCart(state: CartState, product: Payload, quantity: int) returns (r: CartState)
    ensures quantity <= 0 ==> r == state
    ensures quantity > 0 ==> r.items == AddedTimes(state.items, product, quantity)
    ensures forall i :: 0 <= i < |state.items| && state.items[i].id == product.id ==>
              quantity > 0 ==> r.items[i].quantity == state.items[i].quantity + quantity
    ensures IdsUnique(state.items) && quantity > 0 ==>
              IdsUnique(r.items) && Count(r.items) == Count(state.items) + quantity
  {
    r := state;
    var i := 0;
    while i < quantity
      invariant 0 <= i <= if quantity > 0 then quantity else 0
      invariant r == CartState(AddedTimes(state.items, product, i))
      invariant IdsUnique(state.items) ==> IdsUnique(r.items) && Count(r.items) == Count(state.items) + i
    {
      if IdsUnique(state.items) {
        ReduceKeepsIdsUnique(r, AddToCart(product));
        AddCount(r.items, product);
      }
      AddOnceMore(state.items, product, i);
      r := Reduce(r, AddToCart(product));
      i := i + 1;
    }
  }

  /** The icon shown for a product, by numeric id band. */
  datatype Icon = Bottle | Sponge | Sparkles | Chair

  /** Ids up to 3, 4 to 6, 7 to 10 and above 10 each get their own icon. */
  function IconFor(id: int): (r: Icon)
    ensures r == Bottle <==> id <= 3
    ensures r == Sponge <==> 3 < id <= 6
    ensures r == Sparkles <==> 6 < id <= 10
    ensures r == Chair <==> 10 < id
  {
    if id <= 3 then Bottle else if id <= 6 then Sponge else if id <= 10 then Sparkles else Chair
  }
}
