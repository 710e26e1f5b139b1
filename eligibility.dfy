/**
 * determine_eligible_rewards (services.py lines 340-353): the current week's
 * records, best first by score and then by longevity, have their eligibility
 * flag set for the first hundred and cleared for the rest.
 */
module Eligibility {
  import opened Models

  /** How many of the week's best records are eligible for rewards. */
  const TopN := 100

  predicate InCurrentWeek(r: Scoring, key: string) {
    r.kind == Weekly && r.period == key
  }

  /** Positions of the current week's records. */
  function WeekIndices(recs: seq<Scoring>, key: string): set<nat> {
    set i | 0 <= i < |recs| && InCurrentWeek(recs[i], key)
  }

  predicate Distinct(order: seq<nat>) {
    forall p, q :: 0 <= p < q < |order| ==> order[p] != order[q]
  }

  /** `order` lists the current week's records as filter(type='W',
      timestamp=key).order_by('-score', '-longevity') returns them: each such
      record exactly once, and no record ranks above one listed before it. */
  predicate IsRanking(recs: seq<Scoring>, key: string, order: seq<nat>) {
    (forall p :: 0 <= p < |order| ==> order[p] < |recs| && InCurrentWeek(recs[order[p]], key))
    && Distinct(order)
    && (forall i :: 0 <= i < |recs| && InCurrentWeek(recs[i], key) ==> i in order)
    && Ranked(recs, order)
  }

  /** No entry ranks above an entry listed before it. */
  predicate Ranked(recs: seq<Scoring>, order: seq<nat>) {
    forall p, q :: 0 <= p < q < |order| && order[p] < |recs| && order[q] < |recs| ==>
      !RanksAbove(recs[order[q]], recs[order[p]])
  }

  /** Inserting a record just before the first entry it ranks above keeps the
      list ranked. */
  lemma InsertRanked(recs: seq<Scoring>, order: seq<nat>, pos: nat, i: nat)
    requires Ranked(recs, order) && i < |recs| && pos <= |order|
    requires forall p :: 0 <= p < |order| ==> order[p] < |recs|
    requires forall p :: 0 <= p < pos ==> !RanksAbove(recs[i], recs[order[p]])
    requires pos < |order| ==> RanksAbove(recs[i], recs[order[pos]])
    ensures Ranked(recs, order[..pos] + [i] + order[pos..])
  {
    var o := order[..pos] + [i] + order[pos..];
    forall p, q | 0 <= p < q < |o| && o[p] < |recs| && o[q] < |recs|
      ensures !RanksAbove(recs[o[q]], recs[o[p]])
    {
      if q == pos {
        assert o[p] == order[p];
      } else if p == pos {
        assert o[q] == order[q - 1];
        RankingIsStrictWeakOrder(recs[o[q]], recs[i], recs[order[pos]]);
        if q - 1 > pos {
          assert !RanksAbove(recs[order[q - 1]], recs[order[pos]]);
        }
      } else {
        var p' := if p < pos then p else p - 1;
        var q' := if q < pos then q else q - 1;
        assert o[p] == order[p'] && o[q] == order[q'] && p' < q';
      }
    }
  }

  /** Inserting a position greater than every listed one keeps the positions
      distinct and adds exactly that position. */
  lemma InsertDistinct(order: seq<nat>, pos: nat, i: nat)
    requires pos <= |order| && Distinct(order)
    requires forall p :: 0 <= p < |order| ==> order[p] < i
    ensures var o := order[..pos] + [i] + order[pos..];
      Distinct(o) && (forall m :: m in o <==> m in order || m == i)
  {
    var o := order[..pos] + [i] + order[pos..];
    forall p, q | 0 <= p < q < |o|
      ensures o[p] != o[q]
    {
      var p' := if p < pos then p else p - 1;
      var q' := if q < pos then q else q - 1;
      if p == pos {
        assert o[q] == order[q'];
      } else if q == pos {
        assert o[p] == order[p'];
      } else {
        assert o[p] == order[p'] && o[q] == order[q'] && p' < q';
      }
    }
    assert order == order[..pos] + order[pos..];
  }

  /** One turn of the ranking loop: inserting record i, later than every
      listed record, at the place the scan found keeps the list a ranking of
      the records seen so far. */
  lemma InsertIntoRanking(recs: seq<Scoring>, key: string, order: seq<nat>, pos: nat, i: nat)
    requires i < |recs| && InCurrentWeek(recs[i], key) && pos <= |order|
    requires forall p :: 0 <= p < |order| ==> order[p] < i && InCurrentWeek(recs[order[p]], key)
    requires Distinct(order) && Ranked(recs, order)
    requires forall p :: 0 <= p < pos ==> !RanksAbove(recs[i], recs[order[p]])
    requires pos < |order| ==> RanksAbove(recs[i], recs[order[pos]])
    ensures var o := order[..pos] + [i] + order[pos..];
      (forall p :: 0 <= p < |o| ==> o[p] <= i && InCurrentWeek(recs[o[p]], key))
      && Distinct(o) && Ranked(recs, o)
      && (forall m :: m in o <==> m in order || m == i)
  {
    var o := order[..pos] + [i] + order[pos..];
    InsertRanked(recs, order, pos, i);
    InsertDistinct(order, pos, i);
    forall p | 0 <= p < |o|
      ensures o[p] <= i && InCurrentWeek(recs[o[p]], key)
    {
      if p < pos {
        assert o[p] == order[p];
      } else if p > pos {
        assert o[p] == order[p - 1];
      }
    }
  }

  /** The marking loop over the first |order| places of the ranking. */
  function MarkEligible(recs: seq<Scoring>, order: seq<nat>): (r: seq<Scoring>)
    requires forall p :: 0 <= p < |order| ==> order[p] < |recs|
    ensures |r| == |recs|
  {
    if |order| == 0 then recs
    else
      var n := |order| - 1;
      var prev := MarkEligible(recs, order[..n]);
      prev[order[n] := prev[order[n]].(eligible := n < TopN)]
  }

  /** A record the order does not list is left as it was. */
  lemma {:induction false} MarkLeavesOthers(recs: seq<Scoring>, order: seq<nat>, i: nat)
    requires forall p :: 0 <= p < |order| ==> order[p] < |recs|
    requires i < |recs| && i !in order
    ensures MarkEligible(recs, order)[i] == recs[i]
  {
    if |order| > 0 {
      var init := order[..|order| - 1];
      assert forall p :: 0 <= p < |init| ==> init[p] == order[p];
      MarkLeavesOthers(recs, init, i);
    }
  }

  /** The marking changes nothing but eligibility flags. */
  lemma {:induction false} MarkOnlyFlag(recs: seq<Scoring>, order: seq<nat>, i: nat)
    requires forall p :: 0 <= p < |order| ==> order[p] < |recs|
    requires i < |recs|
    ensures var r := MarkEligible(recs, order); r[i] == recs[i].(eligible := r[i].eligible)
  {
    if |order| > 0 {
      var init := order[..|order| - 1];
      assert forall p :: 0 <= p < |init| ==> init[p] == order[p];
      MarkOnlyFlag(recs, init, i);
    }
  }

  /** The record at place p of an order without repeats is made eligible
      exactly when p < 100. */
  lemma {:induction false} MarkedPlace(recs: seq<Scoring>, order: seq<nat>, p: nat)
    requires Distinct(order) && forall q :: 0 <= q < |order| ==> order[q] < |recs|
    requires p < |order|
    ensures MarkEligible(recs, order)[order[p]] == recs[order[p]].(eligible := p < TopN)
  {
    var n := |order| - 1;
    var init := order[..n];
    assert forall q :: 0 <= q < n ==> init[q] == order[q];
    if p == n {
      assert order[n] !in init;
      MarkLeavesOthers(recs, init, order[n]);
    } else {
      assert order[p] != order[n];
      MarkedPlace(recs, init, p);
    }
  }

  /** The record at place p of the order is made eligible exactly when p < 100;
      records not in the order are untouched; only the eligibility flag changes. */
  lemma MarkEligibleFlags(recs: seq<Scoring>, order: seq<nat>)
    requires Distinct(order) && forall p :: 0 <= p < |order| ==> order[p] < |recs|
    ensures var r := MarkEligible(recs, order);
      (forall p :: 0 <= p < |order| ==> r[order[p]] == recs[order[p]].(eligible := p < TopN))
      && (forall i :: 0 <= i < |recs| && i !in order ==> r[i] == recs[i])
      && (forall i :: 0 <= i < |recs| ==> r[i] == recs[i].(eligible := r[i].eligible))
  {
    forall p | 0 <= p < |order| {
      MarkedPlace(recs, order, p);
    }
    forall i | 0 <= i < |recs| && i !in order {
      MarkLeavesOthers(recs, order, i);
    }
    forall i | 0 <= i < |recs| {
      MarkOnlyFlag(recs, order, i);
    }
  }

  /** One more turn of the marking loop. */
  lemma MarkEligibleSnoc(recs: seq<Scoring>, order: seq<nat>, p: nat)
    requires forall q :: 0 <= q < |order| ==> order[q] < |recs|
    requires p < |order|
    ensures MarkEligible(recs, order[..p + 1]) ==
      var prev := MarkEligible(recs, order[..p]);
      prev[order[p] := prev[order[p]].(eligible := p < TopN)]
  {
    var o := order[..p + 1];
    assert o[..p] == order[..p];
    assert o[p] == order[p];
  }

  /** The first m entries of a list without repeats are m different values. */
  lemma {:induction false} DistinctPrefixSize(order: seq<nat>, m: nat)
    requires Distinct(order) && m <= |order|
    ensures |set p | 0 <= p < m :: order[p]| == m
  {
    if m > 0 {
      DistinctPrefixSize(order, m - 1);
      var before := set p | 0 <= p < m - 1 :: order[p];
      assert (set p | 0 <= p < m :: order[p]) == before + {order[m - 1]};
      assert order[m - 1] !in before;
    }
  }

  function Min(a: int, b: int): int {
    if a < b then a else b
  }

  /** The week has as many records as the ranking has entries. */
  lemma RankingCoversWeek(recs: seq<Scoring>, key: string, order: seq<nat>)
    requires IsRanking(recs, key, order)
    ensures |WeekIndices(recs, key)| == |order|
  {
    assert WeekIndices(recs, key) == set p | 0 <= p < |order| :: order[p];
    DistinctPrefixSize(order, |order|);
  }

  /** Marking by a ranking makes exactly min(100, n) of the week's n records
      eligible. */
  lemma EligibleCount(recs: seq<Scoring>, key: string, order: seq<nat>)
    requires IsRanking(recs, key, order)
    ensures var r := MarkEligible(recs, order);
      |set i | 0 <= i < |r| && InCurrentWeek(r[i], key) && r[i].eligible| == Min(TopN, |WeekIndices(recs, key)|)
  {
    RankingCoversWeek(recs, key, order);
    MarkEligibleFlags(recs, order);
    var r := MarkEligible(recs, order);
    var m := Min(TopN, |order|);
    var top := set p | 0 <= p < m :: order[p];
    var chosen := set i | 0 <= i < |r| && InCurrentWeek(r[i], key) && r[i].eligible;
    forall i | i in chosen
      ensures i in top
    {
      var p :| 0 <= p < |order| && order[p] == i;
    }
    assert chosen == top;
    DistinctPrefixSize(order, m);
  }

  /** No record of the week left ineligible ranks above one made eligible. */
  lemma EligibleAreBest(recs: seq<Scoring>, key: string, order: seq<nat>, i: nat, j: nat)
    requires IsRanking(recs, key, order)
    requires i < |recs| && j < |recs| && InCurrentWeek(recs[i], key) && InCurrentWeek(recs[j], key)
    requires MarkEligible(recs, order)[i].eligible && !MarkEligible(recs, order)[j].eligible
    ensures !RanksAbove(MarkEligible(recs, order)[j], MarkEligible(recs, order)[i])
  {
    MarkEligibleFlags(recs, order);
    var p :| 0 <= p < |order| && order[p] == i;
    var q :| 0 <= q < |order| && order[q] == j;
    assert p < q;
  }
}
