/** `CartContext`: the cart reducer and the item count. The cart is a list
    of items keyed by the product's `id`; ids are compared with `===`, so a
    numeric id and a string id never match. The payload's other properties
    ride along unexamined. Loading from and saving to `localStorage`, the
    toasts and the price total are not part of this model. */
module Cart {
  import opened Common

  /** A product id as JavaScript holds it: a number or a string. */
  datatype Key = Num(n: int) | Str(s: string)

  /** A cart line: the product's properties plus its quantity. */
  datatype Item = Item(id: Key, quantity: int, details: map<string, string>)

  /** What `addToCart` dispatches: a product, without a quantity. */
  datatype Payload = Payload(id: Key, details: map<string, string>)

  datatype CartState = CartState(items: seq<Item>)

  /** A dispatched action, by its `type`. `Unknown` stands for a `type`
      string other than the four the reducer recognises; an action with one
      of those four strings is always written with its own constructor. */
  datatype Action =
    | AddToCart(product: Payload)
    | RemoveFromCart(id: Key)
    | UpdateQuantity(target: Key, quantity: int)
    | ClearCart
    | Unknown(kind: string)

  const EMPTY: CartState := CartState([])

  predicate HasId(items: seq<Item>, id: Key) {
    exists i :: 0 <= i < |items| && items[i].id == id
  }

  /** No two lines share an id. */
  predicate IdsUnique(items: seq<Item>) {
    forall i, j :: 0 <= i < j < |items| ==> items[i].id != items[j].id
  }

  /** Every line has a quantity of at least one. */
  predicate AllPositive(items: seq<Item>) {
    forall i :: 0 <= i < |items| ==> items[i].quantity > 0
  }

  /** Every line under `id` has its quantity passed through `f`; ids, order
      and every other line are kept. */
  function ChangeQuantity(items: seq<Item>, id: Key, f: int -> int): (r: seq<Item>)
    ensures |r| == |items|
    ensures forall i :: 0 <= i < |items| ==> r[i].id == items[i].id && r[i].details == items[i].details
    ensures forall i :: 0 <= i < |items| ==>
              r[i].quantity == if items[i].id == id then f(items[i].quantity) else items[i].quantity
  {
    seq(|items|, i requires 0 <= i < |items| =>
      if items[i].id == id then items[i].(quantity := f(items[i].quantity)) else items[i])
  }

  /** `ADD_TO_CART`: a product already in the cart has its quantity raised by
      one; a new product is appended with quantity one. */
  function Add(items: seq<Item>, p: Payload): (r: seq<Item>)
    ensures HasId(items, p.id) ==>
              && |r| == |items|
              && (forall i :: 0 <= i < |items| ==> r[i].id == items[i].id && r[i].details == items[i].details)
              && (forall i :: 0 <= i < |items| ==>
                    r[i].quantity == items[i].quantity + if items[i].id == p.id then 1 else 0)
    ensures !HasId(items, p.id) ==>
              |r| == |items| + 1 && r[..|items|] == items && r[|items|] == Item(p.id, 1, p.details)
  {
    if HasId(items, p.id) then ChangeQuantity(items, p.id, x => x + 1)
    else items + [Item(p.id, 1, p.details)]
  }

  /** `REMOVE_FROM_CART`: every line under `id` goes, the rest stay in order. */
  function Remove(items: seq<Item>, id: Key): (r: seq<Item>)
    ensures !HasId(r, id)
    ensures forall i :: 0 <= i < |items| && items[i].id != id ==> items[i] in r
    ensures forall i :: 0 <= i < |r| ==> r[i] in items
    ensures IsSelection(r, items, (it: Item) => it.id != id)
  {
    FilterIsSelection((it: Item) => it.id != id, items);
    Filter((it: Item) => it.id != id, items)
  }

  /** `UPDATE_QUANTITY`: the line under `id` takes the new quantity, then
      every line whose quantity is not positive is dropped. */
  function Update(items: seq<Item>, id: Key, quantity: int): (r: seq<Item>)
    ensures AllPositive(r)
    ensures |r| <= |items|
    ensures forall i :: 0 <= i < |r| ==> r[i].id == id ==> r[i].quantity == quantity
    ensures forall i :: 0 <= i < |items| && items[i].id != id && items[i].quantity > 0 ==> items[i] in r
    ensures HasId(r, id) <==> HasId(items, id) && quantity > 0
    ensures IsSelection(r, ChangeQuantity(items, id, _ => quantity), (it: Item) => it.quantity > 0)
  {
    FilterIsSelection((it: Item) => it.quantity > 0, ChangeQuantity(items, id, _ => quantity));
    Filter((it: Item) => it.quantity > 0, ChangeQuantity(items, id, _ => quantity))
  }

  /** `cartReducer`: one of the four actions, or the state itself. */
  function Reduce(state: CartState, action: Action): (r: CartState)
    ensures action.AddToCart? ==> r.items == Add(state.items, action.product)
    ensures action.RemoveFromCart? ==> r.items == Remove(state.items, action.id)
    ensures action.UpdateQuantity? ==> r.items == Update(state.items, action.target, action.quantity)
    ensures action.ClearCart? ==> r.items == []
    ensures action.Unknown? ==> r == state
  {
    match action
    case AddToCart(p) => CartState(Add(state.items, p))
    case RemoveFromCart(id) => CartState(Remove(state.items, id))
    case UpdateQuantity(id, q) => CartState(Update(state.items, id, q))
    case ClearCart => EMPTY
    case Unknown(_) => state
  }

  /** `getCartItemsCount`: the quantities summed. */
  function Count(items: seq<Item>): int {
    if |items| == 0 then 0 else items[0].quantity + Count(items[1..])
  }

  // ---------------------------------------------------------------------------
  // The reducer's invariants.

  /** Filtering keeps ids distinct. */
  lemma {:induction false} FilterKeepsIdsUnique(p: Item -> bool, items: seq<Item>)
    requires IdsUnique(items)
    ensures IdsUnique(Filter(p, items))
    decreases |items|
  {
    if |items| > 0 {
      var rest := items[1..];
      FilterKeepsIdsUnique(p, rest);
      var r := Filter(p, items);
      if p(items[0]) {
        forall j | 0 < j < |r| ensures r[0].id != r[j].id {
          assert r[j] in rest;
        }
      }
    }
  }

  /** Every action keeps ids distinct: `ADD_TO_CART` appends only an id the
      cart does not have, and the other actions only drop or edit lines. */
  lemma ReduceKeepsIdsUnique(state: CartState, action: Action)
    requires IdsUnique(state.items)
    ensures IdsUnique(Reduce(state, action).items)
  {
    match action
    case RemoveFromCart(id) =>
      FilterKeepsIdsUnique((it: Item) => it.id != id, state.items);
    case UpdateQuantity(id, q) =>
      FilterKeepsIdsUnique((it: Item) => it.quantity > 0, ChangeQuantity(state.items, id, _ => q));
    case _ =>
  }

  /** Every action keeps quantities positive. */
  lemma ReduceKeepsPositive(state: CartState, action: Action)
    requires AllPositive(state.items)
    ensures AllPositive(Reduce(state, action).items)
  {
  }

  // ---------------------------------------------------------------------------
  // The count.

  lemma {:induction false} CountConcat(a: seq<Item>, b: seq<Item>)
    ensures Count(a + b) == Count(a) + Count(b)
    decreases |a|
  {
    if |a| == 0 {
      assert a + b == b;
    } else {
      assert (a + b)[1..] == a[1..] + b;
      CountConcat(a[1..], b);
    }
  }

  /** Changing the quantity of the one line under `id` changes the count by
      the difference. */
  lemma {:induction false} CountChangeQuantity(items: seq<Item>, id: Key, f: int -> int, i: int)
    requires IdsUnique(items)
    requires 0 <= i < |items| && items[i].id == id
    ensures Count(ChangeQuantity(items, id, f)) == Count(items) - items[i].quantity + f(items[i].quantity)
    decreases |items|
  {
    var r := ChangeQuantity(items, id, f);
    var rest := items[1..];
    if i == 0 {
      assert r[1..] == rest;
    } else {
      assert r[1..] == ChangeQuantity(rest, id, f);
      assert rest[i - 1] == items[i];
      CountChangeQuantity(rest, id, f, i - 1);
    }
  }

  /** Dropping the one line under `id` lowers the count by its quantity. */
  lemma {:induction false} CountRemove(items: seq<Item>, id: Key, i: int)
    requires IdsUnique(items)
    requires 0 <= i < |items| && items[i].id == id
    ensures Count(Remove(items, id)) == Count(items) - items[i].quantity
    decreases |items|
  {
    var rest := items[1..];
    if i == 0 {
      FilterAll((it: Item) => it.id != id, rest);
    } else {
      assert rest[i - 1] == items[i];
      CountRemove(rest, id, i - 1);
    }
  }

  /** Dropping the non-positive lines, when only line `i` may be one. */
  lemma {:induction false} CountDropNonPositive(items: seq<Item>, i: int)
    requires 0 <= i < |items|
    requires forall j :: 0 <= j < |items| && j != i ==> items[j].quantity > 0
    ensures Count(Filter((it: Item) => it.quantity > 0, items))
            == Count(items) - if items[i].quantity > 0 then 0 else items[i].quantity
    decreases |items|
  {
    var rest := items[1..];
    if i == 0 {
      FilterAll((it: Item) => it.quantity > 0, rest);
    } else {
      assert rest[i - 1] == items[i];
      CountDropNonPositive(rest, i - 1);
    }
  }

  /** `ADD_TO_CART` raises the count by exactly one. */
  lemma AddCount(items: seq<Item>, p: Payload)
    requires IdsUnique(items)
    ensures Count(Add(items, p)) == Count(items) + 1
  {
    if HasId(items, p.id) {
      var i :| 0 <= i < |items| && items[i].id == p.id;
      CountChangeQuantity(items, p.id, x => x + 1, i);
    } else {
      CountConcat(items, [Item(p.id, 1, p.details)]);
    }
  }

  /** `REMOVE_FROM_CART` lowers the count by the removed line's quantity, and
      leaves the cart as it was when no line has the id. */
  lemma RemoveCount(items: seq<Item>, id: Key)
    requires IdsUnique(items)
    ensures !HasId(items, id) ==> Remove(items, id) == items
    ensures forall i :: 0 <= i < |items| && items[i].id == id ==>
              Count(Remove(items, id)) == Count(items) - items[i].quantity
  {
    if !HasId(items, id) {
      FilterAll((it: Item) => it.id != id, items);
    }
    forall i | 0 <= i < |items| && items[i].id == id
      ensures Count(Remove(items, id)) == Count(items) - items[i].quantity
    {
      CountRemove(items, id, i);
    }
  }

  /** `UPDATE_QUANTITY` on a cart of positive lines: the count moves from the
      line's old quantity to the new one, or loses the line when the new
      quantity is not positive; an absent id changes nothing. */
  lemma UpdateCount(items: seq<Item>, id: Key, quantity: int)
    requires IdsUnique(items) && AllPositive(items)
    ensures !HasId(items, id) ==> Update(items, id, quantity) == items
    ensures forall i :: 0 <= i < |items| && items[i].id == id ==>
              Count(Update(items, id, quantity))
              == Count(items) - items[i].quantity + if quantity > 0 then quantity else 0
  {
    var changed := ChangeQuantity(items, id, _ => quantity);
    if !HasId(items, id) {
      assert changed == items;
      FilterAll((it: Item) => it.quantity > 0, items);
    }
    forall i | 0 <= i < |items| && items[i].id == id
      ensures Count(Update(items, id, quantity))
              == Count(items) - items[i].quantity + if quantity > 0 then quantity else 0
    {
      CountChangeQuantity(items, id, _ => quantity, i);
      CountDropNonPositive(changed, i);
    }
  }
}
