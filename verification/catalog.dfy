/**
 * The product catalog and the resolution of the page's `id` query parameter
 * against it: an `Array.prototype.find` over the records comparing each id's
 * text with the query, preceded by a check that the query is non-empty
 * (js/detail.js, `loadProduct`).
 */
module Catalog {
  import opened Wrappers
  import Decimal

  /**
   * The integers a JavaScript number holds exactly (`Number.MIN_SAFE_INTEGER`
   * to `Number.MAX_SAFE_INTEGER`); `toString` writes each of them as its plain
   * decimal digits.
   */
  type SafeInteger = n: int | -0x1F_FFFF_FFFF_FFFF <= n <= 0x1F_FFFF_FFFF_FFFF

  /** The JSON value stored in a record's `id` field. */
  datatype JsonId = NumId(n: SafeInteger) | TextId(s: string) | BoolId(b: bool) | NullId

  /** One record of `products.json`. */
  datatype Product = Product(
    id: JsonId,
    name: string,
    price: int,
    category: string,
    description: string,
    image: string)

  /** The three ways loading `products.json` can fail; the page does not distinguish them. */
  datatype LoadError =
    | NetworkError   // `fetch` rejected
    | BadStatus      // `response.ok` was false
    | ParseError     // `response.json()` rejected

  type Products = seq<Product>

  /**
   * `id.toString()`: the text of an id, or `None` where the call throws
   * (a `null` or missing id).
   */
  function IdText(id: JsonId): (r: Option<string>)
    ensures r.None? <==> id.NullId?
    ensures id.NumId? ==> r == Some(Decimal.DecimalString(id.n))
    ensures id.TextId? ==> r == Some(id.s)
  {
    match id
    case NumId(n) => Some(Decimal.DecimalString(n))
    case TextId(s) => Some(s)
    case BoolId(b) => Some(if b then "true" else "false")
    case NullId => None
  }

  /** The `find` callback returns true for `p`. */
  predicate Matches(p: Product, q: string) {
    IdText(p.id) == Some(q)
  }

  /** The `find` callback returns false for `p` (without throwing). */
  predicate Passes(p: Product, q: string) {
    IdText(p.id).Some? && IdText(p.id) != Some(q)
  }

  /**
   * Record `i` is the one `find` returns: it matches, and every earlier record
   * was inspected without throwing and did not match.
   */
  ghost predicate ResolvesTo(c: Products, q: string, i: int) {
    0 <= i < |c| && Matches(c[i], q) && forall j :: 0 <= j < i ==> Passes(c[j], q)
  }

  /** How a `find` scan ends: at a match, at the end of the array, or at a thrown error. */
  datatype Scan = Hit(at: nat) | Miss | Threw(at: nat)

  /** `Array.prototype.find` with the id-comparing callback, scanning from `from`. */
  function FindFrom(c: Products, q: string, from: nat): (r: Scan)
    ensures r.Hit? ==> from <= r.at < |c| && Matches(c[r.at], q)
    ensures r.Threw? ==> from <= r.at < |c| && IdText(c[r.at].id).None?
    ensures !r.Miss? ==> forall j :: from <= j < r.at ==> Passes(c[j], q)
    ensures r.Miss? ==> forall j :: from <= j < |c| ==> Passes(c[j], q)
    decreases |c| - from
  {
    if from >= |c| then Miss
    else match IdText(c[from].id)
      case None => Threw(from)
      case Some(t) => if t == q then Hit(from) else FindFrom(c, q, from + 1)
  }

  /** The page's outcome: the not-found placeholder or the detail of one product. */
  datatype Outcome = NotFound | Detail(product: Product)

  /** The parameter is missing or empty, so JavaScript treats it as false. */
  predicate MissingId(query: Option<string>) {
    query.None? || query.value == ""
  }

  /**
   * The decision `loadProduct` makes: a missing id, a failed load, a thrown
   * `toString` and an unmatched id all end in `NotFound`; otherwise the first
   * matching record is shown.
   */
  function Resolve(query: Option<string>, load: Result<Products, LoadError>): (r: Outcome)
    ensures MissingId(query) ==> r == NotFound
    ensures load.Failure? ==> r == NotFound
    ensures r.Detail? <==>
              !MissingId(query) && load.Success? && exists i :: ResolvesTo(load.value, query.value, i)
    ensures r.Detail? ==>
              exists i :: ResolvesTo(load.value, query.value, i) && r.product == load.value[i]
  {
    if MissingId(query) then NotFound
    else match load
      case Failure(_) => NotFound
      case Success(c) =>
        match FindFrom(c, query.value, 0)
        case Hit(i) =>
          assert ResolvesTo(c, query.value, i);
          Detail(c[i])
        case _ => NotFound
  }

  /** At most one record is the one `find` returns. */
  lemma ResolvesToUnique(c: Products, q: string, i: int, k: int)
    requires ResolvesTo(c, q, i) && ResolvesTo(c, q, k)
    ensures i == k
  {
  }

  /** The first matching record is shown; later records with the same id never are. */
  lemma FirstMatchWins(c: Products, q: string, i: int)
    requires q != "" && ResolvesTo(c, q, i)
    ensures Resolve(Some(q), Success(c)) == Detail(c[i])
  {
    var r := Resolve(Some(q), Success(c));
    var k :| ResolvesTo(c, q, k) && r.product == c[k];
    ResolvesToUnique(c, q, i, k);
  }

  /** Every record's id can be turned into text, so `find` never throws. */
  ghost predicate IdsPresent(c: Products) {
    forall j :: 0 <= j < |c| ==> !c[j].id.NullId?
  }

  /**
   * With every id present, a non-empty id resolves exactly when some record's
   * id text equals it, and then to the leftmost such record.
   */
  lemma ResolveWithPresentIds(c: Products, q: string)
    requires q != "" && IdsPresent(c)
    ensures Resolve(Some(q), Success(c)).Detail? <==> exists i :: 0 <= i < |c| && Matches(c[i], q)
    ensures Resolve(Some(q), Success(c)).Detail? ==>
              exists i :: 0 <= i < |c| && Matches(c[i], q) && Resolve(Some(q), Success(c)).product == c[i]
                          && forall j :: 0 <= j < i ==> !Matches(c[j], q)
  {
    if exists i :: 0 <= i < |c| && Matches(c[i], q) {
      var i :| 0 <= i < |c| && Matches(c[i], q);
      var m := LeftmostMatch(c, q, i);
      assert ResolvesTo(c, q, m);
      FirstMatchWins(c, q, m);
    }
  }

  /** The leftmost matching index at or before a known match `i`, when every id is present. */
  lemma {:induction false} LeftmostMatch(c: Products, q: string, i: int) returns (m: int)
    requires IdsPresent(c) && 0 <= i < |c| && Matches(c[i], q)
    ensures 0 <= m <= i && Matches(c[m], q)
    ensures forall j :: 0 <= j < m ==> Passes(c[j], q)
    decreases i
  {
    if exists j :: 0 <= j < i && Matches(c[j], q) {
      var j :| 0 <= j < i && Matches(c[j], q);
      m := LeftmostMatch(c, q, j);
    } else {
      m := i;
    }
  }

  /**
   * A record whose id is the number `n` is found by exactly one query text,
   * the decimal text of `n`: two different numeric ids never answer the same
   * query.
   */
  lemma NumericIdsDistinct(n: SafeInteger, m: SafeInteger)
    ensures IdText(NumId(n)) == IdText(NumId(m)) <==> n == m
  {
    Decimal.DecimalInjective(n, m);
  }

  /**
   * A record whose id is the number `n` is found by a query exactly when the
   * query is canonical decimal text (no leading zeros, no `-0`) whose value
   * is `n`.
   */
  lemma NumericIdMatches(p: Product, q: string)
    requires p.id.NumId?
    ensures Matches(p, q) <==> Decimal.IsCanonicalDecimal(q) && Decimal.ParseDecimal(q) == p.id.n
  {
    if Decimal.IsCanonicalDecimal(q) && Decimal.ParseDecimal(q) == p.id.n {
      Decimal.CanonicalRoundTrip(q);
    }
    if Matches(p, q) {
      Decimal.DecimalRoundTrip(p.id.n);
    }
  }
}
