/**
 * The second `getIdsFromDeals`, from the client's utility script. It keeps
 * only ids that are strings with a character other than white space, then
 * removes repeats, keeping first occurrences. Ids are compared as they
 * are, without trimming.
 */
module Utils {

  import opened JsValues
  import opened JsStrings
  import opened Filtering
  import opened Dedupe
  import DealSearch
  import Portfolio

  /** `typeof id === 'string' && id.trim() !== ''` */
  predicate NonBlankString(id: Value)
    ensures NonBlankString(id) ==> id.Str? && Trim(id.s) != [] && !IsBlank(id.s)
  {
    if id.Str? then TrimEmptyIffBlank(id.s); Trim(id.s) != [] else false
  }

  /** `Array.from(new Set(deals.map(d => d.legoId).filter(NonBlankString)))` */
  function GetIdsFromDeals(deals: seq<DealSearch.CleanDeal>): (r: seq<Value>)
    ensures NoDuplicates(r)
    ensures forall i :: 0 <= i < |r| ==> r[i].Str? && !IsBlank(r[i].s)
    ensures forall i :: 0 <= i < |r| ==> r[i] in Portfolio.LegoIds(deals)
    ensures forall i :: 0 <= i < |deals| ==>
      (deals[i].deal.legoId in r <==> deals[i].deal.legoId.Str? && !IsBlank(deals[i].deal.legoId.s))
    ensures |r| <= |deals|
  {
    var ids := Portfolio.LegoIds(deals);
    var kept := Filter(ids, NonBlankString);
    var r := Distinct(kept);
    forall i | 0 <= i < |r| ensures r[i].Str? && !IsBlank(r[i].s) {
      KeptIsNonBlank(ids, r[i]);
    }
    forall i | 0 <= i < |deals|
      ensures deals[i].deal.legoId in r <==> deals[i].deal.legoId.Str? && !IsBlank(deals[i].deal.legoId.s)
    {
      var id := deals[i].deal.legoId;
      assert ids[i] == id;
      NonBlankStringIff(id);
      if id in r {
        KeptIsNonBlank(ids, id);
      }
    }
    r
  }

  /** `NonBlankString` is the test `!IsBlank` on a string. */
  lemma NonBlankStringIff(id: Value)
    ensures NonBlankString(id) <==> id.Str? && !IsBlank(id.s)
  {
    if id.Str? {
      TrimEmptyIffBlank(id.s);
    }
  }

  /** What the string filter keeps is a non-blank string. */
  lemma KeptIsNonBlank(ids: seq<Value>, id: Value)
    requires id in Filter(ids, NonBlankString)
    ensures id.Str? && !IsBlank(id.s)
  {
    var kept := Filter(ids, NonBlankString);
    var k :| 0 <= k < |kept| && kept[k] == id;
    NonBlankStringIff(id);
  }

  /** The ids come in order of their first occurrence among the deals'
      non-blank string ids. */
  lemma GetIdsFirstOccurrenceOrder(deals: seq<DealSearch.CleanDeal>, i: nat, j: nat)
    requires i < j < |GetIdsFromDeals(deals)|
    ensures var kept := Filter(Portfolio.LegoIds(deals), NonBlankString);
      var r := GetIdsFromDeals(deals);
      r[i] in kept && r[j] in kept && FirstIndex(kept, r[i]) < FirstIndex(kept, r[j])
  {
    DistinctFirstOccurrenceOrder(Filter(Portfolio.LegoIds(deals), NonBlankString));
  }

  /** The two versions agree up to what this one filters out: it returns
      the other version's list with every id that is not a non-blank string
      removed. */
  lemma {:induction false} AgreesWithPortfolio(deals: seq<DealSearch.CleanDeal>)
    ensures GetIdsFromDeals(deals) == Filter(Portfolio.GetIdsFromDeals(deals), NonBlankString)
  {
    var ids := Portfolio.LegoIds(deals);
    DistinctFilterCommute(ids, NonBlankString);
    NonBlankIsTruthy();
    FilterFilter(Distinct(ids), Truthy, NonBlankString);
    assert Portfolio.GetIdsFromDeals(deals) == Filter(Distinct(ids), Truthy);
  }

  /** A non-blank string is not empty, so it is truthy. */
  lemma NonBlankIsTruthy()
    ensures forall x :: NonBlankString(x) ==> Truthy(x)
  {
    forall x | NonBlankString(x) ensures Truthy(x) {
      assert |Trim(x.s)| <= |x.s|;
    }
  }

  /** An id made of spaces only is kept by the other version and dropped by
      this one. */
  lemma BlankIdDropped(deals: seq<DealSearch.CleanDeal>, k: nat)
    requires k < |deals| && deals[k].deal.legoId == Str(" ")
    ensures Str(" ") in Portfolio.GetIdsFromDeals(deals)
    ensures Str(" ") !in GetIdsFromDeals(deals)
  {
    assert IsWhiteSpace(' ');
  }

  /** Ids are not trimmed: `" 42"` and `"42"` are two different ids. */
  lemma UntrimmedIdsStayApart(deals: seq<DealSearch.CleanDeal>, a: nat, b: nat)
    requires a < |deals| && deals[a].deal.legoId == Str(" 42")
    requires b < |deals| && deals[b].deal.legoId == Str("42")
    ensures Str(" 42") in GetIdsFromDeals(deals) && Str("42") in GetIdsFromDeals(deals)
    ensures |GetIdsFromDeals(deals)| >= 2
  {
    assert !IsBlank(" 42") by { assert " 42"[1] == '4' && !IsWhiteSpace('4'); }
    assert !IsBlank("42") by { assert "42"[0] == '4' && !IsWhiteSpace('4'); }
    NonBlankIdListed(deals, a);
    NonBlankIdListed(deals, b);
    assert " 42"[0] != "42"[0];
    TwoMembers(GetIdsFromDeals(deals), Str(" 42"), Str("42"));
  }

  /** A deal's non-blank string id is listed. */
  lemma NonBlankIdListed(deals: seq<DealSearch.CleanDeal>, k: nat)
    requires k < |deals|
    requires deals[k].deal.legoId.Str? && !IsBlank(deals[k].deal.legoId.s)
    ensures deals[k].deal.legoId in GetIdsFromDeals(deals)
  {
  }

  /** A sequence holding two different values has at least two elements. */
  lemma TwoMembers<T>(r: seq<T>, x: T, y: T)
    requires x in r && y in r && x != y
    ensures |r| >= 2
  {
    var i :| 0 <= i < |r| && r[i] == x;
    var j :| 0 <= j < |r| && r[j] == y;
    assert i != j;
  }
}
