/** `apiService`: the pure post-processing the frontend applies to backend
    answers. Requests themselves are parameters: each is either `Fetched`
    with the data or `Failed`. The axios client, interceptor side effects
    other than the session keys, toasts and redirects are not modelled. */
module ApiService {
  import opened Common

  // ---------------------------------------------------------------------------
  // Category names.

  /** The four display names with their backend codes. */
  const CATEGORY_CODES: map<string, string> := map[
    "Car Wash Products" := "car_wash",
    "Detailing Tools" := "detailing_tools",
    "Protection Products" := "protection",
    "Interior Care" := "interior_care"]

  /** The four display names with their backend category ids. */
  const CATEGORY_IDS: map<string, int> := map[
    "Car Wash Products" := 1,
    "Detailing Tools" := 2,
    "Protection Products" := 3,
    "Interior Care" := 4]

  /** The leading run of whitespace dropped. */
  function DropSpaceRun(s: string): (r: string)
    ensures |r| <= |s|
    ensures |s| > 0 && IsJsSpace(s[0]) ==> |r| < |s|
    ensures |r| > 0 ==> !IsJsSpace(r[0])
    ensures r == s[|s| - |r|..]
    decreases |s|
  {
    if |s| > 0 && IsJsSpace(s[0]) then DropSpaceRun(s[1..]) else s
  }

  /** `replace(/\s+/g, '_')`: each maximal whitespace run becomes one `_`. */
  function CollapseSpaces(s: string): (r: string)
    ensures HasNoSpace(r)
    ensures |r| <= |s|
    ensures (forall i :: 0 <= i < |s| ==> !IsAsciiUpper(s[i])) ==> forall i :: 0 <= i < |r| ==> !IsAsciiUpper(r[i])
    decreases |s|
  {
    if |s| == 0 then ""
    else if IsJsSpace(s[0]) then "_" + CollapseSpaces(DropSpaceRun(s))
    else [s[0]] + CollapseSpaces(s[1..])
  }

  /** Text without whitespace is left alone. */
  lemma {:induction false} CollapseWithoutSpace(s: string)
    requires HasNoSpace(s)
    ensures CollapseSpaces(s) == s
    decreases |s|
  {
    if |s| > 0 {
      CollapseWithoutSpace(s[1..]);
    }
  }

  /** Every character is whitespace. */
  predicate AllSpace(w: string) {
    forall i :: 0 <= i < |w| ==> IsJsSpace(w[i])
  }

  /** Text that is empty or starts with a character other than whitespace. */
  predicate StartsClear(s: string) {
    |s| == 0 || !IsJsSpace(s[0])
  }

  /** Text that is empty or ends with a character other than whitespace. */
  predicate EndsClear(s: string) {
    |s| == 0 || !IsJsSpace(s[|s| - 1])
  }

  /** Dropping the leading run stops exactly where the run ends. */
  lemma {:induction false} DropSpaceRunStops(w: string, y: string)
    requires AllSpace(w) && StartsClear(y)
    ensures DropSpaceRun(w + y) == y
    decreases |w|
  {
    if |w| == 0 {
      assert w + y == y;
    } else {
      assert (w + y)[1..] == w[1..] + y;
      DropSpaceRunStops(w[1..], y);
    }
  }

  /** A run that ends inside `x` is dropped without looking past `x`. */
  lemma {:induction false} DropSpaceRunWithin(x: string, y: string)
    requires |x| > 0 && EndsClear(x)
    ensures DropSpaceRun(x + y) == DropSpaceRun(x) + y
    decreases |x|
  {
    if IsJsSpace(x[0]) {
      assert (x + y)[1..] == x[1..] + y;
      DropSpaceRunWithin(x[1..], y);
    }
  }

  /** The collapse, run by run: a maximal whitespace run `w` between `x`
      and `y` becomes exactly one `_`, and the text on either side is
      collapsed on its own. With `CollapseWithoutSpace` this fixes the
      result on every input: the characters outside whitespace are kept in
      order, and each maximal run turns into a single `_`. */
  lemma {:induction false} CollapseRun(x: string, w: string, y: string)
    requires EndsClear(x) && |w| > 0 && AllSpace(w) && StartsClear(y)
    ensures CollapseSpaces(x + w + y) == CollapseSpaces(x) + "_" + CollapseSpaces(y)
    decreases |x|
  {
    if |x| == 0 {
      CollapseRunFirst(x, w, y);
    } else if IsJsSpace(x[0]) {
      var d := DropSpaceRun(x);
      assert EndsClear(d) by {
        if |d| > 0 {
          assert d[|d| - 1] == x[|x| - 1];
        }
      }
      CollapseRun(d, w, y);
      CollapseRunAfterSpace(x, w, y);
    } else {
      assert EndsClear(x[1..]) by {
        if |x| > 1 {
          assert x[1..][|x| - 2] == x[|x| - 1];
        }
      }
      CollapseRun(x[1..], w, y);
      CollapseRunAfterChar(x, w, y);
    }
  }

  lemma CollapseRunFirst(x: string, w: string, y: string)
    requires |x| == 0 && |w| > 0 && AllSpace(w) && StartsClear(y)
    ensures CollapseSpaces(x + w + y) == CollapseSpaces(x) + "_" + CollapseSpaces(y)
  {
    assert x + w + y == w + y;
    assert CollapseSpaces(x) + "_" + CollapseSpaces(y) == "_" + CollapseSpaces(y);
    DropSpaceRunStops(w, y);
  }

  lemma CollapseRunAfterSpace(x: string, w: string, y: string)
    requires |x| > 0 && IsJsSpace(x[0]) && EndsClear(x)
    requires CollapseSpaces(DropSpaceRun(x) + w + y) == CollapseSpaces(DropSpaceRun(x)) + "_" + CollapseSpaces(y)
    ensures CollapseSpaces(x + w + y) == CollapseSpaces(x) + "_" + CollapseSpaces(y)
  {
    UnfoldSpace(x, w, y);
    UnfoldFirst(x);
    Chain(CollapseSpaces(x + w + y), "_", CollapseSpaces(DropSpaceRun(x) + w + y),
          CollapseSpaces(DropSpaceRun(x)), CollapseSpaces(y), CollapseSpaces(x));
  }

  lemma UnfoldSpace(x: string, w: string, y: string)
    requires |x| > 0 && IsJsSpace(x[0]) && EndsClear(x)
    ensures CollapseSpaces(x + w + y) == "_" + CollapseSpaces(DropSpaceRun(x) + w + y)
  {
    Regroup(x, w, y);
    DropSpaceRunWithin(x, w + y);
    Regroup(DropSpaceRun(x), w, y);
  }

  lemma CollapseRunAfterChar(x: string, w: string, y: string)
    requires |x| > 0 && !IsJsSpace(x[0])
    requires CollapseSpaces(x[1..] + w + y) == CollapseSpaces(x[1..]) + "_" + CollapseSpaces(y)
    ensures CollapseSpaces(x + w + y) == CollapseSpaces(x) + "_" + CollapseSpaces(y)
  {
    UnfoldChar(x, w, y);
    UnfoldFirst(x);
    Chain(CollapseSpaces(x + w + y), [x[0]], CollapseSpaces(x[1..] + w + y),
          CollapseSpaces(x[1..]), CollapseSpaces(y), CollapseSpaces(x));
  }

  /** One step of the collapse at the front of `x`. */
  lemma UnfoldFirst(x: string)
    requires |x| > 0
    ensures IsJsSpace(x[0]) ==> CollapseSpaces(x) == "_" + CollapseSpaces(DropSpaceRun(x))
    ensures !IsJsSpace(x[0]) ==> CollapseSpaces(x) == [x[0]] + CollapseSpaces(x[1..])
  {
  }

  /** The regrouping both cases of `CollapseRun` end with. */
  lemma Chain(whole: string, head: string, tail: string, left: string, right: string, x: string)
    requires whole == head + tail && tail == left + "_" + right && x == head + left
    ensures whole == x + "_" + right
  {
  }

  lemma UnfoldChar(x: string, w: string, y: string)
    requires |x| > 0 && !IsJsSpace(x[0])
    ensures CollapseSpaces(x + w + y) == [x[0]] + CollapseSpaces(x[1..] + w + y)
  {
    assert (x + w + y)[1..] == x[1..] + w + y;
  }

  /** Concatenation regrouped. */
  lemma Regroup<T>(a: seq<T>, b: seq<T>, c: seq<T>)
    ensures a + b + c == a + (b + c)
  {
  }

  /** Lower-casing twice is lower-casing once. */
  lemma ToLowerIdempotent(s: string)
    ensures ToLower(ToLower(s)) == ToLower(s)
  {
  }

  /** `mapCategoryName` with the mapping read as a table of its own four
      entries: a known display name gives its code, anything else is lower-
      cased with whitespace runs collapsed to `_`. */
  function MapCategoryName(name: string): (r: string)
    ensures name in CATEGORY_CODES ==> r == CATEGORY_CODES[name]
    ensures name !in CATEGORY_CODES ==> r == CollapseSpaces(ToLower(name))
  {
    if name in CATEGORY_CODES then CATEGORY_CODES[name] else CollapseSpaces(ToLower(name))
  }

  /** An unknown name of two space-free words joined by a whitespace run is
      sent as the two words lower-cased and joined by one `_`. */
  lemma MapCategoryNameJoinsWords(x: string, w: string, y: string)
    requires HasNoSpace(x) && |w| > 0 && AllSpace(w) && HasNoSpace(y)
    requires x + w + y !in CATEGORY_CODES
    ensures MapCategoryName(x + w + y) == ToLower(x) + "_" + ToLower(y)
  {
    var lx, lw, ly := ToLower(x), ToLower(w), ToLower(y);
    ToLowerConcat(x + w, y);
    ToLowerConcat(x, w);
    assert HasNoSpace(lx) && HasNoSpace(ly) && AllSpace(lw);
    CollapseRun(lx, lw, ly);
    CollapseWithoutSpace(lx);
    CollapseWithoutSpace(ly);
  }

  /** Each known display name contains a space, so no output of the
      mapping is itself a display name; `MapCategoryNameNormalises` relies
      on this for mapping twice. */
  lemma DisplayNamesHaveSpaces(k: string)
    requires k in CATEGORY_CODES
    ensures !HasNoSpace(k)
  {
    if k == "Car Wash Products" {
      assert k[3] == ' ';
    } else if k == "Detailing Tools" {
      assert k[9] == ' ';
    } else if k == "Protection Products" {
      assert k[10] == ' ';
    } else {
      assert k[8] == ' ';
    }
  }

  /** Each backend code is already lower-case and free of whitespace;
      `MapCategoryNameNormalises` relies on this for a known name. */
  lemma CodesAreNormal(k: string)
    requires k in CATEGORY_CODES
    ensures HasNoSpace(CATEGORY_CODES[k])
    ensures forall i :: 0 <= i < |CATEGORY_CODES[k]| ==> !IsAsciiUpper(CATEGORY_CODES[k][i])
  {
  }

  /** The mapped name never contains whitespace or an upper-case ASCII
      letter, and mapping it again changes nothing. */
  lemma MapCategoryNameNormalises(name: string)
    ensures HasNoSpace(MapCategoryName(name))
    ensures forall i :: 0 <= i < |MapCategoryName(name)| ==> !IsAsciiUpper(MapCategoryName(name)[i])
    ensures MapCategoryName(MapCategoryName(name)) == MapCategoryName(name)
  {
    var r := MapCategoryName(name);
    if name in CATEGORY_CODES {
      CodesAreNormal(name);
    }
    if r in CATEGORY_CODES {
      DisplayNamesHaveSpaces(r);
    }
    assert ToLower(r) == r;
    CollapseWithoutSpace(r);
  }

  /** What `mapCategoryName` can return as written: a string, or the
      inherited member its object-literal lookup found. */
  datatype MappedName = CodeString(s: string) | PrototypeMember(member: string)

  /** `mapCategoryName` as written: `categoryMapping[name]` also finds the
      inherited members, which are truthy, so `||` returns them. */
  function MapCategoryNameAsWritten(name: string): (r: MappedName)
    ensures r.PrototypeMember? <==> name !in CATEGORY_CODES && name in OBJECT_PROTOTYPE_MEMBERS
    ensures r.CodeString? ==> r.s == MapCategoryName(name)
  {
    if name in CATEGORY_CODES then CodeString(CATEGORY_CODES[name])
    else if name in OBJECT_PROTOTYPE_MEMBERS then PrototypeMember(name)
    else CodeString(CollapseSpaces(ToLower(name)))
  }

  /** The name "toString" is mapped to `Object.prototype.toString` rather
      than to the string "tostring". */
  lemma InheritedNameEscapesMapping()
    ensures MapCategoryNameAsWritten("toString") == PrototypeMember("toString")
    ensures MapCategoryName("toString") == "tostring"
  {
    assert "toString" !in CATEGORY_CODES;
    assert "toString" in OBJECT_PROTOTYPE_MEMBERS;
    ToStringLowered();
  }

  lemma ToStringLowered()
    ensures MapCategoryName("toString") == "tostring"
  {
    assert "toString" !in CATEGORY_CODES;
    assert ToLower("toString") == "tostring";
    CollapseWithoutSpace("tostring");
  }

  // ---------------------------------------------------------------------------
  // Product lists.

  datatype CategoryRef = CategoryRef(categoryId: Option<int>)

  /** A product as the frontend reads it. `prod_name` and
      `prod_description` may be missing: nothing checks that the backend
      sends them. */
  datatype ApiProduct = ApiProduct(prodName: Option<string>, prodDescription: Option<string>,
                                   category: Option<CategoryRef>)

  /** The outcome of one request. */
  datatype Fetch<T> = Fetched(value: T) | Failed

  /** What a promise rejects with when the code reads a property of
      `undefined`. */
  const TYPE_ERROR: string := "TypeError"

  predicate NameMatches(query: string, p: ApiProduct) {
    p.prodName.Some? && Contains(ToLower(p.prodName.value), ToLower(query))
  }

  predicate DescriptionMatches(query: string, p: ApiProduct) {
    p.prodDescription.Some? && Contains(ToLower(p.prodDescription.value), ToLower(query))
  }

  /** The `search` predicate throws on `p`: it calls `toLowerCase` on a
      missing name, or on a missing description once the name has not
      matched (`||` does not read the description after a match). */
  predicate SearchThrows(query: string, p: ApiProduct) {
    p.prodName.None? || (!NameMatches(query, p) && p.prodDescription.None?)
  }

  /** The `search` predicate on a product it does not throw on: the query
      occurs, ignoring ASCII case, in the name or the description. */
  predicate MatchesQuery(query: string, p: ApiProduct) {
    NameMatches(query, p) || DescriptionMatches(query, p)
  }

  /** `search`: the filter visits the products in order, and the first one
      its predicate throws on rejects the whole search with a `TypeError`.
      Otherwise the result is exactly the matching products, in the
      backend's order. */
  function Search(products: seq<ApiProduct>, query: string): (r: Result<seq<ApiProduct>, string>)
    ensures r.Err? <==> exists i :: 0 <= i < |products| && SearchThrows(query, products[i])
    ensures r.Err? ==> r.error == TYPE_ERROR
    ensures r.Ok? ==> |r.value| <= |products|
    ensures r.Ok? ==> forall i :: 0 <= i < |r.value| ==> MatchesQuery(query, r.value[i]) && r.value[i] in products
    ensures r.Ok? ==> forall i :: 0 <= i < |products| && MatchesQuery(query, products[i]) ==> products[i] in r.value
    ensures r.Ok? ==> r.value == Filter((p: ApiProduct) => MatchesQuery(query, p), products)
    ensures r.Ok? ==> IsSelection(r.value, products, (p: ApiProduct) => MatchesQuery(query, p))
  {
    FilterIsSelection((p: ApiProduct) => MatchesQuery(query, p), products);
    SearchWalk(products, query)
  }

  /** The walk `Array.prototype.filter` makes for `search`, one product at
      a time. */
  function SearchWalk(products: seq<ApiProduct>, query: string): (r: Result<seq<ApiProduct>, string>)
    ensures r.Err? <==> exists i :: 0 <= i < |products| && SearchThrows(query, products[i])
    ensures r.Err? ==> r.error == TYPE_ERROR
    ensures r.Ok? ==> r.value == Filter((p: ApiProduct) => MatchesQuery(query, p), products)
    decreases |products|
  {
    if |products| == 0 then Ok([])
    else if SearchThrows(query, products[0]) then Err(TYPE_ERROR)
    else
      match SearchWalk(products[1..], query)
      case Err(e) =>
        assert exists j :: 0 <= j < |products| && SearchThrows(query, products[j]) by {
          var i :| 0 <= i < |products[1..]| && SearchThrows(query, products[1..][i]);
          assert products[1..][i] == products[i + 1];
        }
        Err(e)
      case Ok(rest) =>
        assert forall j :: 0 < j < |products| ==> products[j] == products[1..][j - 1];
        FilterStep((p: ApiProduct) => MatchesQuery(query, p), products, rest);
        Ok(if MatchesQuery(query, products[0]) then [products[0]] + rest else rest)
  }

  /** Case does not matter to the search, and an empty query keeps every
      product when each has a name. */
  lemma SearchIgnoresCase(products: seq<ApiProduct>, query: string)
    ensures Search(products, ToLower(query)) == Search(products, query)
    ensures (forall i :: 0 <= i < |products| ==> products[i].prodName.Some?) ==> Search(products, "") == Ok(products)
  {
    ToLowerIdempotent(query);
    SearchLowered(products, query);
    if forall i :: 0 <= i < |products| ==> products[i].prodName.Some? {
      SearchEmptyQuery(products);
    }
  }

  lemma {:induction false} SearchLowered(products: seq<ApiProduct>, query: string)
    requires ToLower(ToLower(query)) == ToLower(query)
    ensures Search(products, ToLower(query)) == Search(products, query)
    decreases |products|
  {
    if |products| > 0 {
      SearchLowered(products[1..], query);
    }
  }

  lemma {:induction false} SearchEmptyQuery(products: seq<ApiProduct>)
    requires forall i :: 0 <= i < |products| ==> products[i].prodName.Some?
    ensures Search(products, "") == Ok(products)
    decreases |products|
  {
    if |products| > 0 {
      var first, rest := products[0], products[1..];
      SearchEmptyQuery(rest);
      assert NameMatches("", first) by {
        assert OccursAt(ToLower(first.prodName.value), "", 0);
      }
      assert Search(products, "") == Ok([first] + rest);
      assert [first] + rest == products;
    }
  }

  predicate HasCategoryId(id: int, p: ApiProduct) {
    p.category.Some? && p.category.value.categoryId == Some(id)
  }

  const BACKEND_UNAVAILABLE: string := "Backend unavailable"

  /** `getByCategory`: a known name is asked for by id, and when that
      request fails, all products are fetched and filtered by id; an
      unknown name gets the full list. Any failure left over rejects with
      one fixed message. */
  function GetByCategory(name: string, byId: Fetch<seq<ApiProduct>>, all: Fetch<seq<ApiProduct>>)
    : (r: Result<seq<ApiProduct>, string>)
    ensures r.Err? ==> r.error == BACKEND_UNAVAILABLE
    ensures name !in CATEGORY_IDS ==> r == if all.Fetched? then Ok(all.value) else Err(BACKEND_UNAVAILABLE)
    ensures name in CATEGORY_IDS && byId.Fetched? ==> r == Ok(byId.value)
    ensures name in CATEGORY_IDS && byId.Failed? ==> (r.Ok? <==> all.Fetched?)
    ensures name in CATEGORY_IDS && byId.Failed? && r.Ok? ==>
              && (forall i :: 0 <= i < |r.value| ==> HasCategoryId(CATEGORY_IDS[name], r.value[i]) && r.value[i] in all.value)
              && (forall i :: 0 <= i < |all.value| && HasCategoryId(CATEGORY_IDS[name], all.value[i]) ==> all.value[i] in r.value)
              && IsSelection(r.value, all.value, (p: ApiProduct) => HasCategoryId(CATEGORY_IDS[name], p))
  {
    if name in CATEGORY_IDS then
      match byId
      case Fetched(products) => Ok(products)
      case Failed =>
        match all
        case Fetched(products) =>
          FilterIsSelection(p => HasCategoryId(CATEGORY_IDS[name], p), products);
          Ok(Filter(p => HasCategoryId(CATEGORY_IDS[name], p), products))
        case Failed => Err(BACKEND_UNAVAILABLE)
    else
      match all
      case Fetched(products) => Ok(products)
      case Failed => Err(BACKEND_UNAVAILABLE)
  }

  /** The four known names have four distinct ids, 1 to 4. */
  lemma CategoryIdsDistinct(a: string, b: string)
    requires a in CATEGORY_IDS && b in CATEGORY_IDS
    ensures 1 <= CATEGORY_IDS[a] <= 4
    ensures CATEGORY_IDS[a] == CATEGORY_IDS[b] ==> a == b
  {
  }

  /** `slice(0, n)`. */
  function Take<T>(s: seq<T>, n: nat): (r: seq<T>)
    ensures |r| == if |s| < n then |s| else n
    ensures r == s[..|r|]
  {
    if |s| < n then s else s[..n]
  }

  const FEATURED_COUNT: nat := 6
  const POPULAR_COUNT: nat := 3

  /** `getFeatured`: the first six products, in order. */
  function GetFeatured(products: seq<ApiProduct>): (r: seq<ApiProduct>)
    ensures |r| == if |products| < FEATURED_COUNT then |products| else FEATURED_COUNT
    ensures r == products[..|r|]
  {
    Take(products, FEATURED_COUNT)
  }

  /** `getPopular`: the first three products, in order. */
  function GetPopular(products: seq<ApiProduct>): (r: seq<ApiProduct>)
    ensures |r| == if |products| < POPULAR_COUNT then |products| else POPULAR_COUNT
    ensures r == products[..|r|]
  {
    Take(products, POPULAR_COUNT)
  }

  /** The popular products are the first of the featured ones. */
  lemma PopularLeadsFeatured(products: seq<ApiProduct>)
    ensures GetPopular(products) == GetFeatured(products)[..|GetPopular(products)|]
  {
  }

  // ---------------------------------------------------------------------------
  // The response interceptor's rejection.

  datatype ErrorBody = ErrorBody(message: Option<string>)

  /** Why a request failed: the server answered with a status, no answer
      came, or the request could not be set up. */
  datatype RequestError =
    | HttpStatus(status: int, data: Option<ErrorBody>)
    | NoResponse
    | SetupFailure(message: string)

  const AUTH_TOKEN_KEY: string := "dg-auth-token"
  const USER_KEY: string := "dg-user"

  /** `data?.message` is truthy: present and not empty. */
  predicate HasServerMessage(data: Option<ErrorBody>) {
    data.Some? && data.value.message.Some? && data.value.message.value != ""
  }

  /** The message of the error the interceptor rejects with. */
  function RejectionMessage(e: RequestError): string {
    match e
    case HttpStatus(status, data) =>
      if HasServerMessage(data) then data.value.message.value else "Error " + DecimalString(status)
    case NoResponse => "Network error"
    case SetupFailure(m) => m
  }

  /** A 401 removes the token and the stored user; nothing else in storage
      changes, and no other outcome touches storage. */
  function StorageAfter(storage: map<string, string>, e: RequestError): (r: map<string, string>)
    ensures e.HttpStatus? && e.status == 401 ==> AUTH_TOKEN_KEY !in r && USER_KEY !in r
    ensures r - {AUTH_TOKEN_KEY, USER_KEY} == storage - {AUTH_TOKEN_KEY, USER_KEY}
    ensures !(e.HttpStatus? && e.status == 401) ==> r == storage
  {
    if e.HttpStatus? && e.status == 401 then storage - {AUTH_TOKEN_KEY, USER_KEY} else storage
  }

  /** A server error without a usable message is reported as "Error "
      followed by the status, which reads back from the message; a server
      or network error never rejects with an empty message. */
  lemma RejectionMessageCarriesStatus(e: RequestError)
    ensures e.HttpStatus? && !HasServerMessage(e.data) ==>
              var m := RejectionMessage(e);
              |m| > 6 && m[..6] == "Error " && ParseDecimal(m[6..]) == Some(e.status)
    ensures e.HttpStatus? && HasServerMessage(e.data) ==> RejectionMessage(e) == e.data.value.message.value
    ensures !e.SetupFailure? ==> RejectionMessage(e) != ""
  {
    if e.HttpStatus? && !HasServerMessage(e.data) {
      var m := RejectionMessage(e);
      assert m[6..] == DecimalString(e.status);
      ParseDecimalString(e.status);
    }
  }
}
