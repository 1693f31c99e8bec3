/** Vocabulary shared by the storefront model: optional and fallible values,
    the Java integer widths and the runtime exceptions the backend can raise,
    order-preserving filtering, decimal rendering of integers, and the
    character classes the frontend's regular expressions and case mappings
    work with. */
module Common {

  datatype Option<+T> = None | Some(value: T)

  datatype Result<+T, +E> = Ok(value: T) | Err(error: E)

  /** Java's `long` and `int`. */
  const LONG_MIN: int := -0x8000_0000_0000_0000
  const LONG_MAX: int := 0x7FFF_FFFF_FFFF_FFFF
  const INT_MIN: int := -0x8000_0000
  const INT_MAX: int := 0x7FFF_FFFF

  type Long = x: int | LONG_MIN <= x <= LONG_MAX
  type Int32 = x: int | INT_MIN <= x <= INT_MAX

  /** The exceptions the backend's services can throw. Only `IOException`
      is a checked exception; the others escape any `catch (IOException)`.
      `ClassCast` names the type a reference could not be cast to. */
  datatype JavaException =
    | IOException(message: string)
    | StringIndexOutOfBounds(index: int)
    | ArithmeticOverflow(message: string)
    | ClassCast(target: string)

  /** `Math.toIntExact`: the same value when it fits in an `int`, otherwise
      an `ArithmeticException("integer overflow")`. */
  function ToIntExact(x: Long): (r: Result<Int32, JavaException>)
    ensures r.Ok? <==> INT_MIN <= x <= INT_MAX
    ensures r.Ok? ==> r.value == x
    ensures r.Err? ==> r.error == ArithmeticOverflow("integer overflow")
  {
    if INT_MIN <= x <= INT_MAX then Ok(x) else Err(ArithmeticOverflow("integer overflow"))
  }

  // ---------------------------------------------------------------------------
  // Order-preserving filtering (`Array.prototype.filter`, a derived query's
  // WHERE clause).

  function Filter<T>(p: T -> bool, s: seq<T>): (r: seq<T>)
    ensures |r| <= |s|
    ensures forall i :: 0 <= i < |r| ==> p(r[i]) && r[i] in s
    ensures forall i :: 0 <= i < |s| && p(s[i]) ==> s[i] in r
  {
    if |s| == 0 then []
    else if p(s[0]) then [s[0]] + Filter(p, s[1..])
    else Filter(p, s[1..])
  }

  /** One step of the filter, given what it leaves of the tail. */
  lemma FilterStep<T>(p: T -> bool, s: seq<T>, rest: seq<T>)
    requires |s| > 0 && rest == Filter(p, s[1..])
    ensures Filter(p, s) == if p(s[0]) then [s[0]] + rest else rest
  {
  }

  /** Filtering distributes over concatenation, which is what "keeps the
      survivors in their original order" means. */
  lemma {:induction false} FilterConcat<T>(p: T -> bool, s: seq<T>, t: seq<T>)
    ensures Filter(p, s + t) == Filter(p, s) + Filter(p, t)
    decreases |s|
  {
    if |s| == 0 {
      assert s + t == t;
    } else {
      assert (s + t)[1..] == s[1..] + t;
      FilterConcat(p, s[1..], t);
    }
  }

  /** A filter whose predicate holds everywhere is the identity. */
  lemma {:induction false} FilterAll<T>(p: T -> bool, s: seq<T>)
    requires forall i :: 0 <= i < |s| ==> p(s[i])
    ensures Filter(p, s) == s
    decreases |s|
  {
    if |s| > 0 {
      FilterAll(p, s[1..]);
    }
  }

  /** Two predicates that agree on every element filter alike. */
  lemma {:induction false} FilterSamePredicate<T>(p: T -> bool, q: T -> bool, s: seq<T>)
    requires forall i :: 0 <= i < |s| ==> p(s[i]) == q(s[i])
    ensures Filter(p, s) == Filter(q, s)
    decreases |s|
  {
    if |s| > 0 {
      FilterSamePredicate(p, q, s[1..]);
    }
  }

  /** Filtering twice with the same predicate changes nothing the second time. */
  lemma FilterIdempotent<T>(p: T -> bool, s: seq<T>)
    ensures Filter(p, Filter(p, s)) == Filter(p, s)
  {
    FilterAll(p, Filter(p, s));
  }

  /** The survivors of a filter, counted with multiplicity, are exactly the
      input's elements that satisfy the predicate. */
  lemma {:induction false} FilterMultiset<T>(p: T -> bool, s: seq<T>, x: T)
    ensures multiset(Filter(p, s))[x] == if p(x) then multiset(s)[x] else 0
    decreases |s|
  {
    if |s| > 0 {
      FilterMultiset(p, s[1..], x);
      assert s == [s[0]] + s[1..];
    }
  }

  /** `r` can be had from `s` by deleting elements: its elements appear in
      `s` in the same order. */
  predicate IsSubsequence<T(==)>(r: seq<T>, s: seq<T>)
    decreases |s|
  {
    if |r| == 0 then true
    else if |s| == 0 then false
    else if r[0] == s[0] then IsSubsequence(r[1..], s[1..])
    else IsSubsequence(r, s[1..])
  }

  /** `r` is what keeping the elements of `s` that satisfy `p` leaves: they
      keep their order, each appears as often as in `s`, and nothing else
      appears. */
  ghost predicate IsSelection<T(!new)>(r: seq<T>, s: seq<T>, p: T -> bool) {
    && IsSubsequence(r, s)
    && forall x :: multiset(r)[x] == if p(x) then multiset(s)[x] else 0
  }

  lemma {:induction false} FilterSubsequence<T>(p: T -> bool, s: seq<T>)
    ensures IsSubsequence(Filter(p, s), s)
    decreases |s|
  {
    if |s| > 0 {
      FilterSubsequence(p, s[1..]);
    }
  }

  /** The filter is a selection. */
  lemma FilterIsSelection<T(!new)>(p: T -> bool, s: seq<T>)
    ensures IsSelection(Filter(p, s), s, p)
  {
    FilterSubsequence(p, s);
    forall x ensures multiset(Filter(p, s))[x] == if p(x) then multiset(s)[x] else 0 {
      FilterMultiset(p, s, x);
    }
  }

  /** A subsequence holds each element at most as often as the sequence. */
  lemma {:induction false} SubsequenceCount<T>(r: seq<T>, s: seq<T>, x: T)
    requires IsSubsequence(r, s)
    ensures multiset(r)[x] <= multiset(s)[x]
    decreases |s|
  {
    if |r| > 0 {
      assert s == [s[0]] + s[1..];
      if r[0] == s[0] {
        assert r == [r[0]] + r[1..];
        SubsequenceCount(r[1..], s[1..], x);
      } else {
        SubsequenceCount(r, s[1..], x);
      }
    }
  }

  /** The filter is the only selection: order and multiplicity pin it down. */
  lemma {:induction false} SelectionIsFilter<T(!new)>(r: seq<T>, s: seq<T>, p: T -> bool)
    requires IsSelection(r, s, p)
    ensures r == Filter(p, s)
    decreases |s|
  {
    if |s| == 0 {
      if |r| > 0 {
        assert false;
      }
    } else {
      var a, t := s[0], s[1..];
      assert s == [a] + t;
      assert multiset(s)[a] == multiset(t)[a] + 1;
      if |r| > 0 && r[0] == a {
        assert r == [a] + r[1..];
        forall x ensures multiset(r[1..])[x] == if p(x) then multiset(t)[x] else 0 {
          assert multiset(r)[x] == multiset(r[1..])[x] + if x == a then 1 else 0;
          assert multiset(s)[x] == multiset(t)[x] + if x == a then 1 else 0;
        }
        assert p(a) by {
          assert multiset(r)[a] > 0;
        }
        SelectionIsFilter(r[1..], t, p);
      } else {
        assert IsSubsequence(r, t);
        if p(a) {
          SubsequenceCount(r, t, a);
          assert false;
        }
        forall x ensures multiset(r)[x] == if p(x) then multiset(t)[x] else 0 {
          assert multiset(s)[x] == multiset(t)[x] + if x == a then 1 else 0;
        }
        SelectionIsFilter(r, t, p);
      }
    }
  }

  // ---------------------------------------------------------------------------
  // Decimal rendering of integers: Java's `Long.toString` and a JavaScript
  // template literal agree on every integer the model renders.

  predicate IsDigit(c: char) {
    '0' <= c <= '9'
  }

  function DigitChar(d: int): (c: char)
    requires 0 <= d < 10
    ensures IsDigit(c) && c as int - '0' as int == d
  {
    ('0' as int + d) as char
  }

  function NatDigits(n: nat): (r: string)
    ensures |r| >= 1
    ensures forall i :: 0 <= i < |r| ==> IsDigit(r[i])
    decreases n
  {
    if n < 10 then [DigitChar(n)] else NatDigits(n / 10) + [DigitChar(n % 10)]
  }

  function DecimalString(n: int): (r: string)
    ensures |r| >= 1
    ensures n >= 0 ==> forall i :: 0 <= i < |r| ==> IsDigit(r[i])
    ensures n < 0 ==> r[0] == '-' && forall i :: 1 <= i < |r| ==> IsDigit(r[i])
  {
    if n < 0 then "-" + NatDigits(-n) else NatDigits(n)
  }

  function DigitValue(c: char): (d: nat)
    requires IsDigit(c)
    ensures d < 10 && DigitChar(d) == c
  {
    c as int - '0' as int
  }

  function ParseDigits(s: string): nat
    requires |s| >= 1
    requires forall i :: 0 <= i < |s| ==> IsDigit(s[i])
  {
    if |s| == 1 then DigitValue(s[0])
    else ParseDigits(s[..|s| - 1]) * 10 + DigitValue(s[|s| - 1])
  }

  /** Reads back an optional `-` followed by at least one digit. */
  function ParseDecimal(s: string): (r: Option<int>)
    ensures r.Some? <==> (|s| >= 1 && forall i :: 0 <= i < |s| ==> IsDigit(s[i]))
                         || (|s| >= 2 && s[0] == '-' && forall i :: 1 <= i < |s| ==> IsDigit(s[i]))
  {
    if |s| >= 1 && forall i :: 0 <= i < |s| ==> IsDigit(s[i]) then Some(ParseDigits(s) as int)
    else if |s| >= 2 && s[0] == '-' && forall i :: 1 <= i < |s| ==> IsDigit(s[i]) then Some(0 - ParseDigits(s[1..]) as int)
    else None
  }

  lemma {:induction false} ParseNatDigits(n: nat)
    ensures ParseDigits(NatDigits(n)) == n
    decreases n
  {
    if n >= 10 {
      var r := NatDigits(n);
      assert r[..|r| - 1] == NatDigits(n / 10);
      ParseNatDigits(n / 10);
    }
  }

  /** Rendering an integer in decimal loses nothing. */
  lemma ParseDecimalString(n: int)
    ensures ParseDecimal(DecimalString(n)) == Some(n)
  {
    if n < 0 {
      var r := DecimalString(n);
      assert r[1..] == NatDigits(-n);
      assert !IsDigit(r[0]);
      ParseNatDigits(-n);
    } else {
      ParseNatDigits(n);
    }
  }

  lemma DecimalStringInjective(a: int, b: int)
    requires DecimalString(a) == DecimalString(b)
    ensures a == b
  {
    ParseDecimalString(a);
    ParseDecimalString(b);
  }

  // ---------------------------------------------------------------------------
  // Characters and strings.

  /** The characters JavaScript's `\s` matches. */
  predicate IsJsSpace(c: char) {
    || c == ' ' || c == '\t' || c == '\n' || c == '\r'
    || c == '\U{000B}' || c == '\U{000C}' || c == '\U{00A0}' || c == '\U{1680}'
    || ('\U{2000}' <= c <= '\U{200A}')
    || c == '\U{2028}' || c == '\U{2029}' || c == '\U{202F}' || c == '\U{205F}'
    || c == '\U{3000}' || c == '\U{FEFF}'
  }

  predicate HasNoSpace(s: string) {
    forall i :: 0 <= i < |s| ==> !IsJsSpace(s[i])
  }

  predicate IsAsciiUpper(c: char) {
    'A' <= c <= 'Z'
  }

  predicate IsAsciiLower(c: char) {
    'a' <= c <= 'z'
  }

  function ToLowerChar(c: char): (r: char)
    ensures !IsAsciiUpper(r)
    ensures IsJsSpace(r) <==> IsJsSpace(c)
    ensures IsAsciiUpper(c) ==> IsAsciiLower(r)
    ensures !IsAsciiUpper(c) ==> r == c
  {
    if IsAsciiUpper(c) then (c as int + 32) as char else c
  }

  function ToUpperChar(c: char): (r: char)
    ensures !IsAsciiLower(r)
    ensures IsAsciiLower(c) ==> IsAsciiUpper(r) && ToLowerChar(r) == c
    ensures !IsAsciiLower(c) ==> r == c
  {
    if IsAsciiLower(c) then (c as int - 32) as char else c
  }

  /** `String.prototype.toLowerCase`, on the ASCII letters. */
  function ToLower(s: string): (r: string)
    ensures |r| == |s|
    ensures forall i :: 0 <= i < |s| ==> r[i] == ToLowerChar(s[i])
  {
    seq(|s|, i requires 0 <= i < |s| => ToLowerChar(s[i]))
  }

  /** Lower-casing works character by character, so it distributes over
      concatenation. */
  lemma ToLowerConcat(a: string, b: string)
    ensures ToLower(a + b) == ToLower(a) + ToLower(b)
  {
    assert forall i :: 0 <= i < |a + b| ==> (a + b)[i] == if i < |a| then a[i] else b[i - |a|];
  }

  /** `hay.includes(needle)`. */
  predicate Contains(hay: string, needle: string) {
    exists i :: 0 <= i <= |hay| - |needle| && OccursAt(hay, needle, i)
  }

  predicate OccursAt(hay: string, needle: string, i: int)
    requires 0 <= i <= |hay| - |needle|
  {
    hay[i..i + |needle|] == needle
  }

  // ---------------------------------------------------------------------------
  // JavaScript property lookup.

  /** The members every plain JavaScript object inherits from
      `Object.prototype`; looking one up in an object literal that does
      not define it yields a function (or, for `__proto__`, an object). */
  const OBJECT_PROTOTYPE_MEMBERS: set<string> := {
    "constructor", "hasOwnProperty", "isPrototypeOf", "propertyIsEnumerable",
    "toLocaleString", "toString", "valueOf", "__proto__",
    "__defineGetter__", "__defineSetter__", "__lookupGetter__", "__lookupSetter__"}
}
