/**
 * The pure helpers of the dashboard script: the list of set ids for the id
 * picker, the page count and page options of the pager, the parsing of a
 * sale's published time, and the order in which sales are listed.
 *
 * The script's network calls, its module-level state and its DOM code are
 * not modelled; the JavaScript `Date` parser is a parameter (`parseDate`
 * gives a time value in milliseconds, or NaN for an invalid date).
 */
module Portfolio {

  import opened JsValues
  import opened JsStrings
  import opened Filtering
  import opened Dedupe
  import StableSort
  import DealSearch

  // ------------------------------------------------------------- set ids

  /** `deals.map(deal => deal.legoId)` */
  function LegoIds(deals: seq<DealSearch.CleanDeal>): (ids: seq<Value>)
    ensures |ids| == |deals|
    ensures forall i :: 0 <= i < |deals| ==> ids[i] == deals[i].deal.legoId
  {
    seq(|deals|, i requires 0 <= i < |deals| => deals[i].deal.legoId)
  }

  /** `Array.from(new Set(ids)).filter(Boolean)`: repeats removed first,
      then every falsy id (undefined, null, `''`, 0, NaN, false). */
  function GetIdsFromDeals(deals: seq<DealSearch.CleanDeal>): (r: seq<Value>)
    ensures NoDuplicates(r)
    ensures forall i :: 0 <= i < |r| ==> Truthy(r[i]) && r[i] in LegoIds(deals)
    ensures forall i :: 0 <= i < |deals| && Truthy(deals[i].deal.legoId) ==>
      deals[i].deal.legoId in r
    ensures |r| <= |deals|
  {
    var ids := LegoIds(deals);
    var r := Filter(Distinct(ids), Truthy);
    assert forall i :: 0 <= i < |deals| ==> ids[i] == deals[i].deal.legoId;
    FilterNoDuplicates(Distinct(ids), Truthy);
    r
  }

  /** The ids come in order of their first occurrence among the deals. */
  lemma GetIdsFirstOccurrenceOrder(deals: seq<DealSearch.CleanDeal>, i: nat, j: nat)
    requires i < j < |GetIdsFromDeals(deals)|
    ensures var r := GetIdsFromDeals(deals);
      FirstIndex(LegoIds(deals), r[i]) < FirstIndex(LegoIds(deals), r[j])
  {
    var ids := LegoIds(deals);
    var d := Distinct(ids);
    FilterOrder(d, Truthy, i, j);
    DistinctFirstOccurrenceOrder(ids);
  }

  /** An id made of spaces only is truthy, so it is kept. */
  lemma BlankIdKept(deals: seq<DealSearch.CleanDeal>, k: nat)
    requires k < |deals| && deals[k].deal.legoId == Str(" ")
    ensures Str(" ") in GetIdsFromDeals(deals)
  {
  }

  // ---------------------------------------------------------- pagination

  /** `Math.ceil(total / size)` for a page size of at least one: the least
      number of pages of `size` deals that holds `total` deals. No deals
      means no pages; there is no minimum of one. */
  function PageCount(total: nat, size: int): (pages: nat)
    requires size >= 1
    ensures pages * size >= total
    ensures pages == 0 || (pages - 1) * size < total
    ensures pages == 0 <==> total == 0
  {
    var pages := (total + size - 1) / size;
    assert pages * size <= total + size - 1 < (pages + 1) * size;
    pages
  }

  /** `Array.from({ length: pageCount }, (_, index) => index + 1)`: the page
      numbers the pager offers, one option per page. */
  method PageOptions(pageCount: nat) returns (options: seq<nat>)
    ensures |options| == pageCount
    ensures forall i :: 0 <= i < |options| ==> options[i] == i + 1
  {
    options := [];
    while |options| < pageCount
      invariant |options| <= pageCount
      invariant forall i :: 0 <= i < |options| ==> options[i] == i + 1
    {
      options := options + [|options| + 1];
    }
  }

  /** The script asks for `limit=${size}` and pages with
      `Math.ceil(total / size)`, but the server counts `total` after cutting
      the list at `limit` and ignores `page`. So the pager never offers more
      than one page, and on any page after the first the selected index
      `currentPage - 1` has no option. */
  lemma ClientSeesAtMostOnePage(
    rows: seq<DealSearch.Deal>, size: nat, page: nat, filterBy: string,
    js: Host)
    requires size >= 1
    ensures var q := DealSearch.Query(Some(DecimalString(size)), Some(DecimalString(page)), None, Some(filterBy));
      var pages := PageCount(DealSearch.Search(rows, q, js).total, size);
      pages <= 1 && (page >= 2 ==> page - 1 >= pages)
  {
    var q := DealSearch.Query(Some(DecimalString(size)), Some(DecimalString(page)), None, Some(filterBy));
    ParseIntDecimal(size);
    DealSearch.SearchCount(rows, q, js, size);
    PageCountWithinOnePage(DealSearch.Search(rows, q, js).total, size);
  }

  /** At most one page of deals fits on one page. */
  lemma PageCountWithinOnePage(total: nat, size: int)
    requires size >= 1 && total <= size
    ensures PageCount(total, size) <= 1
  {
  }

  // ------------------------------------------------------ published time

  /** The `i`-th piece of a destructuring `const [a, b, c] = parts`, as a
      template literal prints it: a missing piece is the text `undefined`. */
  function Piece(parts: seq<string>, i: nat): string {
    if i < |parts| then parts[i] else "undefined"
  }

  /** The text handed to `new Date`: from `D/M/Y T` it builds `Y-M-DTT`,
      using only the first two space-separated tokens, so it never holds a
      space. */
  function IsoText(s: string): (r: string)
    ensures ' ' !in r
  {
    var tokens := Split(s, ' ');
    var dmy := Split(tokens[0], '/');
    SplitPiecesAvoid(tokens[0], '/', ' ');
    Piece(dmy, 2) + "-" + Piece(dmy, 1) + "-" + Piece(dmy, 0) + "T" + Piece(tokens, 1)
  }

  /** `parsePublishedTime(str)`: null for a falsy or non-string input and
      for text the date parser rejects, the parsed time otherwise. It never
      returns an invalid date. */
  function ParsePublishedTime(str: Value, parseDate: string -> Number): (r: Option<real>)
    ensures r == None <==> !str.Str? || str.s == [] || parseDate(IsoText(str.s)) == NaN
    ensures r.Some? ==> str.Str? && parseDate(IsoText(str.s)) == Fin(r.value)
  {
    if !Truthy(str) || !str.Str? then None
    else
      var t := parseDate(IsoText(str.s));
      if t.NaN? then None else Some(t.v)
  }

  lemma JoinThree(a: string, b: string, c: string, sep: char)
    ensures Join([a, b, c], sep) == a + [sep] + b + [sep] + c
  {
    assert [a, b, c][1..] == [b, c];
    assert [b, c][1..] == [c];
    assert Join([b, c], sep) == b + [sep] + c;
    assert Join([a, b, c], sep) == a + [sep] + (b + [sep] + c);
    assert a + [sep] + (b + [sep] + c) == a + [sep] + b + [sep] + c;
  }

  /** How `IsoText` reads the tokens of its input. */
  lemma IsoTextOfTokens(text: string, d: string, m: string, y: string)
    requires |Split(text, ' ')| >= 2
    requires Split(Split(text, ' ')[0], '/') == [d, m, y]
    ensures IsoText(text) == y + "-" + m + "-" + d + "T" + Split(text, ' ')[1]
  {
  }

  /** For a date `d/m/y` followed by a time `t` (and possibly more tokens),
      the parser is handed `y-m-dTt`. */
  lemma {:induction false} IsoTextOfFields(d: string, m: string, y: string, t: string, more: seq<string>)
    requires ' ' !in d && ' ' !in m && ' ' !in y && ' ' !in t
    requires '/' !in d && '/' !in m && '/' !in y
    requires forall k :: 0 <= k < |more| ==> ' ' !in more[k]
    ensures IsoText(Join([Join([d, m, y], '/'), t] + more, ' ')) == y + "-" + m + "-" + d + "T" + t
  {
    var date := Join([d, m, y], '/');
    JoinThree(d, m, y, '/');
    assert ' ' !in date;
    var tokens := [date, t] + more;
    assert forall k :: 0 <= k < |tokens| ==> ' ' !in tokens[k] by {
      forall k | 0 <= k < |tokens| ensures ' ' !in tokens[k] {
        if k >= 2 { assert tokens[k] == more[k - 2]; }
      }
    }
    var text := Join(tokens, ' ');
    SplitJoin(tokens, ' ');
    SplitJoin([d, m, y], '/');
    IsoTextOfTokens(text, d, m, y);
  }

  /** With no time token the time is the text `undefined`: there is no
      midnight default. */
  lemma {:induction false} IsoTextDateOnly(d: string, m: string, y: string)
    requires ' ' !in d && ' ' !in m && ' ' !in y
    requires '/' !in d && '/' !in m && '/' !in y
    ensures IsoText(Join([d, m, y], '/')) == y + "-" + m + "-" + d + "Tundefined"
  {
    var date := Join([d, m, y], '/');
    JoinThree(d, m, y, '/');
    assert ' ' !in date;
    SplitJoin([date], ' ');
    SplitJoin([d, m, y], '/');
  }

  /** `"25/12/2024 10:30:00"` is handed to the parser as `"2024-12-25T10:30:00"`. */
  lemma IsoTextExample()
    ensures IsoText("25/12/2024 10:30:00") == "2024" + "-" + "12" + "-" + "25" + "T" + "10:30:00"
  {
    JoinThree("25", "12", "2024", '/');
    assert "25" + "/" + "12" + "/" + "2024" == "25/12/2024";
    var tokens := ["25/12/2024", "10:30:00"] + [];
    assert tokens[1..] == ["10:30:00"];
    assert Join(tokens, ' ') == "25/12/2024" + " " + "10:30:00";
    assert "25/12/2024" + " " + "10:30:00" == "25/12/2024 10:30:00";
    IsoTextOfFields("25", "12", "2024", "10:30:00", []);
  }

  // --------------------------------------------------------------- sales

  /** A sale as the script holds it after fetching: `published` is what
      `parsePublishedTime` returned (a time value or null). */
  datatype Sale = Sale(title: Value, price: Number, published: Option<real>, link: Value)

  /** `new Date(sale.published)` as a number: null becomes time 0. */
  function SaleTime(s: Sale): real {
    if s.published.Some? then s.published.value else 0.0
  }

  /** `sales.sort((a, b) => new Date(a.published) - new Date(b.published))`:
      oldest first, a sale without a date counted as 1 January 1970. */
  function SortSales(sales: seq<Sale>): (r: seq<Sale>)
    ensures multiset(r) == multiset(sales)
    ensures forall i, j :: 0 <= i < j < |r| ==> SaleTime(r[i]) <= SaleTime(r[j])
    ensures forall t :: StableSort.WithKey(r, SaleTime, t) == StableSort.WithKey(sales, SaleTime, t)
  {
    var r := StableSort.Sort(sales, SaleTime);
    assert StableSort.Sorted(r, SaleTime);
    r
  }

  /** A sale without a date is listed before every sale dated after 1970. */
  lemma UndatedSalesFirst(sales: seq<Sale>, i: nat, j: nat)
    requires i < |SortSales(sales)| && j < |SortSales(sales)|
    requires SortSales(sales)[i].published == None
    requires SortSales(sales)[j].published.Some? && SortSales(sales)[j].published.value > 0.0
    ensures i < j
  {
  }
}
