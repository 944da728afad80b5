/**
 * The `/deals/search` handler of the API server once the stored deals are
 * in memory: clean the price and discount text of every deal into numbers,
 * drop deals above an optional price ceiling, sort on the key `filterBy`
 * selects, and keep the first `limit` deals.
 *
 * The database query (and with it the `date` floor it applies) happens
 * before this point: `rows` are the documents it returned, in the order it
 * returned them. The host's `parseFloat` and its string-to-number
 * conversion (the `Host` parameter) are left abstract: the model does not
 * define how decimal text becomes a number.
 */
module DealSearch {

  import opened JsValues
  import opened JsStrings
  import opened Filtering
  import StableSort

  /** A stored deal: the fields the handler reads, and all the others
      (which may include a stale `priceValue` or `discountValue`). */
  datatype Deal = Deal(
    legoId: Value,
    price: Value,
    discount: Value,
    commentsCount: Value,
    others: map<string, Value>)

  /** A deal as the handler returns it: `{ ...deal, priceValue,
      discountValue }`, the stored deal plus the two computed fields
      (`None` is `null`). The spread puts the computed fields last, so a
      `priceValue` or `discountValue` already stored in `deal.others` does
      not reach the response: the values held here replace it. */
  datatype CleanDeal = CleanDeal(
    deal: Deal,
    priceValue: Option<Number>,
    discountValue: Option<Number>)

  /** The query string of `/deals/search`; an absent parameter is `None`. */
  datatype Query = Query(
    limit: Option<string>,
    page: Option<string>,
    price: Option<string>,
    filterBy: Option<string>)

  /** The JSON body of a successful response. */
  datatype Response = Response(limit: Number, total: nat, results: seq<CleanDeal>)

  datatype SortField = PriceValue | DiscountValue | CommentsCount
  datatype Direction = Ascending | Descending
  datatype SortSpec = SortSpec(field: SortField, direction: Direction)

  /** The number of results when the query has no `limit`. */
  const DefaultLimit: real := 12.0

  // ------------------------------------------------------------ cleaning

  /** The price text with the first euro sign removed and the first comma
      turned into a decimal point, then trimmed. */
  function CleanPriceText(s: string): (r: string)
    ensures |r| <= |s|
    ensures '€' !in s && ',' !in s ==> r == Trim(s)
    ensures r != [] ==> !IsWhiteSpace(r[0]) && !IsWhiteSpace(r[|r| - 1])
  {
    Trim(ReplaceFirst(ReplaceFirst(s, '€', ""), ',', "."))
  }

  /** The discount text with the first `%` and the first `-` removed, then
      trimmed. */
  function CleanDiscountText(s: string): (r: string)
    ensures |r| <= |s|
    ensures '%' !in s && '-' !in s ==> r == Trim(s)
    ensures r != [] ==> !IsWhiteSpace(r[0]) && !IsWhiteSpace(r[|r| - 1])
  {
    Trim(ReplaceFirst(ReplaceFirst(s, '%', ""), '-', ""))
  }

  /** Adds `priceValue` and `discountValue` to a stored deal. A field that is
      not a string gives `null`; a string gives whatever the number parser
      makes of its cleaned text, NaN included. */
  function Clean(d: Deal, js: Host): (c: CleanDeal)
    ensures c.deal == d
    ensures c.priceValue == None <==> !d.price.Str?
    ensures c.discountValue == None <==> !d.discount.Str?
    ensures d.price.Str? ==> c.priceValue == Some(js.parseFloat(CleanPriceText(d.price.s)))
    ensures d.discount.Str? ==> c.discountValue == Some(ParseInt(CleanDiscountText(d.discount.s)))
  {
    var priceValue := if d.price.Str? then Some(js.parseFloat(CleanPriceText(d.price.s))) else None;
    var discountValue := if d.discount.Str? then Some(ParseInt(CleanDiscountText(d.discount.s))) else None;
    CleanDeal(d, priceValue, discountValue)
  }

  /** A price written `<units>,<cents>€` is cleaned to `<units>.<cents>`,
      the text `parseFloat` reads as a decimal number. */
  lemma CleanPriceTextEuro(units: string, cents: string)
    requires AllDigits(units) && AllDigits(cents)
    ensures CleanPriceText(units + "," + cents + "€") == units + "." + cents
  {
    EuroPriceReplace(units, cents);
    var t := units + "." + cents;
    assert t != [] && !IsWhiteSpace(t[0]) by {
      if units != [] { assert t[0] == units[0]; } else { assert t[0] == '.'; }
    }
    assert !IsWhiteSpace(t[|t| - 1]) by {
      if cents != [] { assert t[|t| - 1] == cents[|cents| - 1]; } else { assert t[|t| - 1] == '.'; }
    }
    TrimNoSpace(t);
  }

  /** The two replacements on `<units>,<cents>€`, before trimming. */
  lemma EuroPriceReplace(units: string, cents: string)
    requires AllDigits(units) && AllDigits(cents)
    ensures ReplaceFirst(ReplaceFirst(units + "," + cents + "€", '€', ""), ',', ".") == units + "." + cents
  {
    var s := units + "," + cents + "€";
    var p := units + "," + cents;
    assert '€' !in p by {
      forall i | 0 <= i < |p| ensures p[i] != '€' {
        if i > |units| { assert p[i] == cents[i - |units| - 1]; }
      }
    }
    assert s == p + ['€'] + [];
    ReplaceFirstAfter(p, '€', "", []);
    assert p + "" + [] == units + [','] + cents;
    assert ',' !in units by { assert forall i :: 0 <= i < |units| ==> units[i] != ','; }
    ReplaceFirstAfter(units, ',', ".", cents);
  }

  /** Price text with neither a euro sign nor a comma is only trimmed. */
  lemma CleanPriceTextPlain(s: string)
    requires '€' !in s && ',' !in s
    ensures CleanPriceText(s) == Trim(s)
  {
  }

  /** A discount written `-<digits>%` is cleaned to the digits. */
  lemma CleanDiscountTextPercent(digits: string)
    requires AllDigits(digits)
    ensures CleanDiscountText("-" + digits + "%") == digits
  {
    var p := "-" + digits;
    assert '%' !in p by {
      forall i | 0 <= i < |p| ensures p[i] != '%' {
        if i > 0 { assert p[i] == digits[i - 1]; }
      }
    }
    assert "-" + digits + "%" == p + ['%'] + [];
    ReplaceFirstAfter(p, '%', "", []);
    assert p + "" + [] == [] + ['-'] + digits;
    ReplaceFirstAfter([], '-', "", digits);
    assert [] + "" + digits == digits;
    if digits != [] {
      assert !IsWhiteSpace(digits[0]) && !IsWhiteSpace(digits[|digits| - 1]);
    }
    TrimNoSpace(digits);
  }

  /** A deal priced `<units>,<cents>€` gets the `priceValue` that
      `parseFloat` gives for `<units>.<cents>`. */
  lemma CleanEuroPrice(d: Deal, js: Host, units: string, cents: string)
    requires AllDigits(units) && AllDigits(cents)
    requires d.price == Str(units + "," + cents + "€")
    ensures Clean(d, js).priceValue == Some(js.parseFloat(units + "." + cents))
  {
    CleanPriceTextEuro(units, cents);
  }

  /** A deal with discount `-<digits>%` gets the integer the digits denote
      as its `discountValue`, whatever `parseFloat` does. */
  lemma CleanPercentDiscount(d: Deal, js: Host, digits: string)
    requires digits != [] && AllDigits(digits)
    requires d.discount == Str("-" + digits + "%")
    ensures Clean(d, js).discountValue == Some(Fin(DigitsValue(digits, 10) as real))
  {
    CleanDiscountTextPercent(digits);
    ParseIntDigits(digits);
  }

  function CleanAll(rows: seq<Deal>, js: Host): (cs: seq<CleanDeal>)
    ensures |cs| == |rows|
    ensures forall i :: 0 <= i < |rows| ==> cs[i] == Clean(rows[i], js)
  {
    seq(|rows|, i requires 0 <= i < |rows| => Clean(rows[i], js))
  }

  // ----------------------------------------------------- price ceiling

  /** `if (price && ...)`: a ceiling applies only when the parameter is
      present and not empty. */
  predicate HasCeiling(ceiling: Option<string>)
    ensures HasCeiling(ceiling) <==> ceiling.Some? && Truthy(Str(ceiling.value))
  {
    ceiling.Some? && ceiling.value != []
  }

  /** The filter callback: a deal is dropped only when a ceiling applies,
      its `priceValue` is not null, and it is greater than the parsed
      ceiling (a comparison with NaN is false, so NaN drops nothing). */
  predicate Keep(ceiling: Option<string>, js: Host, c: CleanDeal) {
    !(HasCeiling(ceiling) && c.priceValue.Some? && Greater(c.priceValue.value, js.parseFloat(ceiling.value)))
  }

  /** The deals that pass the price ceiling, in stored order. */
  function Matches(rows: seq<Deal>, q: Query, js: Host): (ms: seq<CleanDeal>)
    ensures |ms| <= |rows|
    ensures forall i :: 0 <= i < |ms| ==> ms[i] in CleanAll(rows, js)
    ensures forall i :: 0 <= i < |ms| ==> Keep(q.price, js, ms[i])
    ensures forall i :: 0 <= i < |rows| && Keep(q.price, js, Clean(rows[i], js)) ==>
      Clean(rows[i], js) in ms
  {
    var cs := CleanAll(rows, js);
    var ms := Filter(cs, c => Keep(q.price, js, c));
    assert forall i :: 0 <= i < |rows| ==> cs[i] == Clean(rows[i], js);
    ms
  }

  /** The filter keeps stored order: the matches of two runs of deals are
      the matches of the first followed by those of the second. */
  lemma MatchesAppend(r1: seq<Deal>, r2: seq<Deal>, q: Query, js: Host)
    ensures Matches(r1 + r2, q, js) == Matches(r1, q, js) + Matches(r2, q, js)
  {
    var keep := c => Keep(q.price, js, c);
    CleanAllAppend(r1, r2, js);
    FilterAppend(CleanAll(r1, js), CleanAll(r2, js), keep);
    assert Matches(r1, q, js) == Filter(CleanAll(r1, js), keep);
    assert Matches(r2, q, js) == Filter(CleanAll(r2, js), keep);
    assert Matches(r1 + r2, q, js) == Filter(CleanAll(r1 + r2, js), keep);
  }

  lemma CleanAllAppend(r1: seq<Deal>, r2: seq<Deal>, js: Host)
    ensures CleanAll(r1 + r2, js) == CleanAll(r1, js) + CleanAll(r2, js)
  {
    var a, b, ab := CleanAll(r1, js), CleanAll(r2, js), CleanAll(r1 + r2, js);
    assert |ab| == |a + b|;
    forall i | 0 <= i < |ab| ensures ab[i] == (a + b)[i] {
      if i < |r1| {
        calc {
          ab[i];
          Clean((r1 + r2)[i], js);
          { assert (r1 + r2)[i] == r1[i]; }
          Clean(r1[i], js);
          a[i];
        }
      } else {
        calc {
          ab[i];
          Clean((r1 + r2)[i], js);
          { assert (r1 + r2)[i] == r2[i - |r1|]; }
          Clean(r2[i - |r1|], js);
          b[i - |r1|];
        }
      }
    }
  }

  /** With a ceiling, a kept deal whose price is a number is at most the
      ceiling; a deal is dropped exactly when its price number is above it. */
  lemma CeilingBound(rows: seq<Deal>, q: Query, js: Host, i: nat)
    requires HasCeiling(q.price) && js.parseFloat(q.price.value).Fin?
    requires i < |rows|
    requires Clean(rows[i], js).priceValue.Some?
    requires Clean(rows[i], js).priceValue.value.Fin?
    ensures Clean(rows[i], js) in Matches(rows, q, js) <==>
      Clean(rows[i], js).priceValue.value.v <= js.parseFloat(q.price.value).v
  {
    var c := Clean(rows[i], js);
    var ms := Matches(rows, q, js);
    if c in ms {
      var k :| 0 <= k < |ms| && ms[k] == c;
      assert Keep(q.price, js, ms[k]);
    }
  }

  /** Without a ceiling nothing is dropped. */
  lemma NoCeilingKeepsAll(rows: seq<Deal>, q: Query, js: Host)
    requires !HasCeiling(q.price)
    ensures Matches(rows, q, js) == CleanAll(rows, js)
  {
    var cs := CleanAll(rows, js);
    FilterAll(cs, c => Keep(q.price, js, c));
  }

  /** A deal whose `price` is not a string gets a null `priceValue` and is
      never dropped by the ceiling. */
  lemma NonStringPriceIsKept(rows: seq<Deal>, q: Query, js: Host, i: nat)
    requires i < |rows| && !rows[i].price.Str?
    ensures Clean(rows[i], js).priceValue == None
    ensures Clean(rows[i], js) in Matches(rows, q, js)
  {
  }

  // ------------------------------------------------------------ sorting

  /** The sort object the handler builds from `filterBy`. */
  function SortSpecOf(filterBy: Option<string>): (spec: SortSpec)
    ensures spec.field == DiscountValue <==> filterBy == Some("best-discount")
    ensures spec.field == CommentsCount <==> filterBy == Some("most-commented")
    ensures spec.direction == Ascending <==> spec.field == PriceValue
  {
    if filterBy == Some("best-discount") then SortSpec(DiscountValue, Descending)
    else if filterBy == Some("most-commented") then SortSpec(CommentsCount, Descending)
    else SortSpec(PriceValue, Ascending)
  }

  /** `c[key] ?? 0`, the value the comparator reads for a deal. */
  function KeyValue(c: CleanDeal, field: SortField): Value {
    match field
    case PriceValue => if c.priceValue.Some? then Num(c.priceValue.value) else Null
    case DiscountValue => if c.discountValue.Some? then Num(c.discountValue.value) else Null
    case CommentsCount => c.deal.commentsCount
  }

  /** The number `aVal - bVal` takes from a deal's key: `??` turns null and
      undefined into 0, then the subtraction applies ToNumber, so numeric
      text and booleans count as numbers. */
  function KeyNumber(c: CleanDeal, field: SortField, js: Host): (n: Number)
    ensures Nullish(KeyValue(c, field)) ==> n == Fin(0.0)
    ensures KeyValue(c, field).Num? ==> n == KeyValue(c, field).n
    ensures KeyValue(c, field).Str? ==> n == js.stringToNumber(KeyValue(c, field).s)
    ensures KeyValue(c, field).Bool? ==> n == Fin(if KeyValue(c, field).b then 1.0 else 0.0)
  {
    var v := KeyValue(c, field);
    ToNumber(if Nullish(v) then Num(Fin(0.0)) else v, js)
  }

  /** The comparator is consistent only when every key converts to a
      number that is not NaN. */
  predicate NumericKey(c: CleanDeal, field: SortField, js: Host) {
    KeyNumber(c, field, js).Fin?
  }

  /** The value the comparator subtracts; a NaN key is counted as 0. */
  function SortValue(c: CleanDeal, field: SortField, js: Host): real {
    var k := KeyNumber(c, field, js);
    if k.Fin? then k.v else 0.0
  }

  /** The ascending key the comparator orders by: a descending comparator
      `b - a` orders ascending on the negated value. */
  function Rank(spec: SortSpec, js: Host, c: CleanDeal): real {
    if spec.direction == Ascending then SortValue(c, spec.field, js) else -SortValue(c, spec.field, js)
  }

  /** `s` is in the key order and direction `spec` asks for. */
  predicate Ordered(s: seq<CleanDeal>, spec: SortSpec, js: Host) {
    forall i, j :: 0 <= i < j < |s| ==>
      if spec.direction == Ascending then SortValue(s[i], spec.field, js) <= SortValue(s[j], spec.field, js)
      else SortValue(s[i], spec.field, js) >= SortValue(s[j], spec.field, js)
  }

  /** What the handler needs of the data: every deal that reaches the sort
      has a key that converts to a finite number (no NaN). */
  predicate SortableMatches(rows: seq<Deal>, q: Query, js: Host) {
    forall i :: 0 <= i < |rows| && Keep(q.price, js, Clean(rows[i], js)) ==>
      NumericKey(Clean(rows[i], js), SortSpecOf(q.filterBy).field, js)
  }

  /** Comment counts stored as text (as a scraper that reads the count off
      the page stores them) sort as the numbers they spell: when that text
      converts to a number for every deal, `most-commented` is sortable. */
  lemma TextCommentCountsAreSortable(rows: seq<Deal>, q: Query, js: Host)
    requires q.filterBy == Some("most-commented")
    requires forall i :: 0 <= i < |rows| ==>
      rows[i].commentsCount.Str? && js.stringToNumber(rows[i].commentsCount.s).Fin?
    ensures SortableMatches(rows, q, js)
  {
    forall i | 0 <= i < |rows| && Keep(q.price, js, Clean(rows[i], js))
      ensures NumericKey(Clean(rows[i], js), CommentsCount, js)
    {
      assert KeyValue(Clean(rows[i], js), CommentsCount) == rows[i].commentsCount;
    }
  }

  /** All matches in the order the handler's stable sort puts them. When
      some key is NaN the comparator returns NaN, and ECMA-262 leaves the
      order to the implementation (it is still a rearrangement of the
      matches); the model then sorts with that key counted as 0, which is
      one of the orders an implementation may give. */
  function Ranked(rows: seq<Deal>, q: Query, js: Host): (rs: seq<CleanDeal>)
    ensures Ordered(rs, SortSpecOf(q.filterBy), js)
    ensures multiset(rs) == multiset(Matches(rows, q, js))
    ensures |rs| == |Matches(rows, q, js)|
  {
    var spec := SortSpecOf(q.filterBy);
    var rs := StableSort.Sort(Matches(rows, q, js), c => Rank(spec, js, c));
    assert forall i, j :: 0 <= i < j < |rs| ==> Rank(spec, js, rs[i]) <= Rank(spec, js, rs[j]);
    rs
  }

  /** Sorting is stable: deals with the same key value keep the order the
      database returned them in. */
  lemma RankedIsStable(rows: seq<Deal>, q: Query, js: Host, v: real)
    requires SortableMatches(rows, q, js)
    ensures StableSort.WithKey(Ranked(rows, q, js), c => Rank(SortSpecOf(q.filterBy), js, c), v)
         == StableSort.WithKey(Matches(rows, q, js), c => Rank(SortSpecOf(q.filterBy), js, c), v)
  {
  }

  // ------------------------------------------------------- limit, total

  /** `parseInt(limit)`, with `limit` defaulting to the number 12. */
  function LimitNumber(q: Query): (n: Number)
    ensures q.limit == None ==> n == Fin(DefaultLimit)
    ensures n.Fin? ==> Truncate(n.v) as real == n.v
  {
    if q.limit.Some? then ParseInt(q.limit.value) else Fin(DefaultLimit)
  }

  /** The end index `slice(0, end)` uses on a list of length `n`
      (section 23.1.3.28 of ECMA-262): the end is truncated toward zero
      and NaN counts as 0; a negative end counts from the back; the result
      never leaves `0..n`. */
  function SliceEnd(n: nat, end: Number): (k: nat)
    ensures k <= n
    ensures end == NaN ==> k == 0
    ensures end.Fin? && Truncate(end.v) >= 0 ==> k == Min(Truncate(end.v), n)
    ensures end.Fin? && Truncate(end.v) < 0 ==> k == Max(n + Truncate(end.v), 0)
  {
    if end.NaN? then 0
    else
      var e := Truncate(end.v);
      if e < 0 then (if n + e < 0 then 0 else n + e)
      else if e <= n then e
      else n
  }

  function Min(a: int, b: int): int { if a <= b then a else b }

  function Max(a: int, b: int): int { if a >= b then a else b }

  /** `[0, 1, 2, 3, 4].slice(0, -1.5)` keeps four elements: -1.5 truncates
      to -1. */
  lemma SliceEndFraction()
    ensures SliceEnd(5, Fin(-1.5)) == 4
    ensures SliceEnd(5, Fin(2.7)) == 2
  {
    assert Truncate(-1.5) == -1;
    assert Truncate(2.7) == 2;
  }

  /** The handler's response to the query `q` over the stored deals `rows`.
      The count, the fact that every result is a match, and the ignored
      `page` hold for any data; the order of the results, and with it which
      matches are returned when there are more than `limit`, is the
      handler's only when `SortableMatches` holds (see `Ranked`). */
  function Search(rows: seq<Deal>, q: Query, js: Host): (r: Response)
    ensures r.limit == LimitNumber(q)
    ensures r.total == |r.results|
    ensures r.total == SliceEnd(|Matches(rows, q, js)|, LimitNumber(q))
    ensures r.total <= |Ranked(rows, q, js)|
    ensures forall i :: 0 <= i < r.total ==> r.results[i] == Ranked(rows, q, js)[i]
    ensures Ordered(r.results, SortSpecOf(q.filterBy), js)
    ensures forall i :: 0 <= i < |r.results| ==> r.results[i] in Matches(rows, q, js)
  {
    var ranked := Ranked(rows, q, js);
    var n := SliceEnd(|ranked|, LimitNumber(q));
    OrderedPrefix(ranked, n, SortSpecOf(q.filterBy), js);
    PrefixMembers(ranked, Matches(rows, q, js), n);
    Response(LimitNumber(q), n, ranked[..n])
  }

  /** A prefix of an ordered list is ordered. */
  lemma OrderedPrefix(s: seq<CleanDeal>, n: nat, spec: SortSpec, js: Host)
    requires n <= |s| && Ordered(s, spec, js)
    ensures Ordered(s[..n], spec, js)
  {
    forall i, j | 0 <= i < j < n
      ensures s[..n][i] == s[i] && s[..n][j] == s[j]
    {
    }
  }

  /** The first `n` elements of a rearrangement of `ms` all belong to `ms`. */
  lemma PrefixMembers(rs: seq<CleanDeal>, ms: seq<CleanDeal>, n: nat)
    requires n <= |rs| && multiset(rs) == multiset(ms)
    ensures forall i :: 0 <= i < n ==> rs[..n][i] in ms
  {
    forall i | 0 <= i < n ensures rs[..n][i] in ms {
      assert rs[..n][i] == rs[i];
      assert rs[i] in multiset(rs);
    }
  }

  /** Each result is one of the stored deals, every field kept, plus the
      two cleaned fields computed from it. */
  lemma ResultsAreCleanedRows(rows: seq<Deal>, q: Query, js: Host)
    ensures forall k :: 0 <= k < |Search(rows, q, js).results| ==>
      exists i :: 0 <= i < |rows| && Search(rows, q, js).results[k] == Clean(rows[i], js)
    ensures forall k :: 0 <= k < |Search(rows, q, js).results| ==>
      Search(rows, q, js).results[k].deal in rows
  {
    var r := Search(rows, q, js).results;
    var cs := CleanAll(rows, js);
    forall k | 0 <= k < |r|
      ensures exists i :: 0 <= i < |rows| && r[k] == Clean(rows[i], js)
      ensures r[k].deal in rows
    {
      assert r[k] in cs;
      var i :| 0 <= i < |cs| && cs[i] == r[k];
      assert r[k] == Clean(rows[i], js);
    }
  }

  /** `results` holds the first `min(limit, matches)` deals, for a limit
      that parses to a non-negative integer; with no limit at all, the
      first twelve. */
  lemma SearchCount(rows: seq<Deal>, q: Query, js: Host, k: nat)
    requires LimitNumber(q) == Fin(k as real)
    ensures var n := |Matches(rows, q, js)|;
      Search(rows, q, js).total == if k <= n then k else n
  {
    assert Truncate(k as real) == k;
  }

  lemma SearchDefaultLimit(rows: seq<Deal>, q: Query, js: Host)
    requires q.limit == None
    ensures var n := |Matches(rows, q, js)|;
      Search(rows, q, js).total == if n < 12 then n else 12
  {
    SearchCount(rows, q, js, 12);
  }

  /** `total` counts the returned deals, not the matching ones: with more
      matches than the limit it reports the limit. */
  lemma TotalIsNotMatchCount(rows: seq<Deal>, q: Query, js: Host, k: nat)
    requires LimitNumber(q) == Fin(k as real)
    requires k < |Matches(rows, q, js)|
    ensures Search(rows, q, js).total == k < |Matches(rows, q, js)|
  {
    SearchCount(rows, q, js, k);
  }

  /** The order each `filterBy` value gives: `best-discount` by
      `discountValue` and `most-commented` by `commentsCount`, both
      descending; anything else, absent or empty by `priceValue` ascending.
      A null or undefined key counts as 0. */
  lemma SearchOrder(rows: seq<Deal>, q: Query, js: Host, i: nat, j: nat)
    requires SortableMatches(rows, q, js)
    requires i < j < Search(rows, q, js).total
    ensures var r := Search(rows, q, js).results;
      && (q.filterBy == Some("best-discount") ==>
            SortValue(r[i], DiscountValue, js) >= SortValue(r[j], DiscountValue, js))
      && (q.filterBy == Some("most-commented") ==>
            SortValue(r[i], CommentsCount, js) >= SortValue(r[j], CommentsCount, js))
      && (q.filterBy != Some("best-discount") && q.filterBy != Some("most-commented") ==>
            SortValue(r[i], PriceValue, js) <= SortValue(r[j], PriceValue, js))
  {
    var r := Search(rows, q, js).results;
    assert Ordered(r, SortSpecOf(q.filterBy), js);
  }

  /** The `page` parameter is never read: every page gets the same answer. */
  lemma SearchIgnoresPage(rows: seq<Deal>, q: Query, js: Host, page: Option<string>)
    ensures SortableMatches(rows, q.(page := page), js) == SortableMatches(rows, q, js)
    ensures Search(rows, q.(page := page), js) == Search(rows, q, js)
  {
    assert Matches(rows, q.(page := page), js) == Matches(rows, q, js);
  }

  /** When no matching deal has a comment count, `most-commented` sorts on
      all-zero keys and the stable sort returns the deals in stored order. */
  lemma MostCommentedWithoutCounts(rows: seq<Deal>, q: Query, js: Host)
    requires q.filterBy == Some("most-commented")
    requires forall i :: 0 <= i < |rows| ==> rows[i].commentsCount == Undefined
    ensures SortableMatches(rows, q, js)
    ensures Ranked(rows, q, js) == Matches(rows, q, js)
  {
    var ms := Matches(rows, q, js);
    var spec := SortSpecOf(q.filterBy);
    var key := c => Rank(spec, js, c);
    forall k | 0 <= k < |ms| ensures key(ms[k]) == 0.0 {
      assert ms[k] in CleanAll(rows, js);
    }
    StableSort.SortIsTheStableSort(ms, ms, key);
  }

  lemma PriceReplaceExample()
    ensures ReplaceFirst(ReplaceFirst("19,99€", '€', ""), ',', ".") == "19.99"
  {
    assert "19,99€" == "19,99" + ['€'] + [];
    ReplaceFirstAfter("19,99", '€', "", []);
    assert "19,99" + "" + [] == "19,99";
    assert "19,99" == "19" + [','] + "99";
    ReplaceFirstAfter("19", ',', ".", "99");
    assert "19" + "." + "99" == "19.99";
  }

  /** `"19,99€"` is cleaned to the text `"19.99"` before number parsing. */
  lemma CleanPriceExample()
    ensures CleanPriceText("19,99€") == "19.99"
  {
    PriceReplaceExample();
    TrimNoSpace("19.99");
  }

  lemma DiscountReplaceExample()
    ensures ReplaceFirst(ReplaceFirst("-30%", '%', ""), '-', "") == "30"
  {
    assert "-30%" == "-30" + ['%'] + [];
    ReplaceFirstAfter("-30", '%', "", []);
    assert "-30" + "" + [] == "-30";
    assert "-30" == [] + ['-'] + "30";
    ReplaceFirstAfter([], '-', "", "30");
    assert [] + "" + "30" == "30";
  }

  lemma CleanDiscountTextExample()
    ensures CleanDiscountText("-30%") == "30"
  {
    DiscountReplaceExample();
    TrimNoSpace("30");
  }

  /** `"-30%"` gives the discount 30, and a discount that is not a string
      gives null. */
  lemma CleanDiscountExample(d: Deal, js: Host)
    ensures d.discount == Str("-30%") ==> Clean(d, js).discountValue == Some(Fin(30.0))
    ensures !d.discount.Str? ==> Clean(d, js).discountValue == None
  {
    CleanDiscountTextExample();
    ParseIntExample();
  }
}
