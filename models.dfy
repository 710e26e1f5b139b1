/**
 * The three record shapes of app/src/core/models.py. Rows of the node table are
 * addressed by their position in the registry, which stands in for the primary
 * key that Score.node and the scoring records refer to.
 */
module Models {
  import opened Calendar

  /** models.Node: an address and the latest state observed for it. */
  datatype Node = Node(
    ip: string,
    publicKey: string,
    height: int,
    networkWeight: int,
    totalStake: int,
    activeBid: bool,
    percentOfNetwork: real)

  /** Node.objects.create(ip=ip): every other field takes its declared default. */
  function NewNode(ip: string): Node {
    Node(ip, "", 0, 0, 0, false, 0.0)
  }

  /** A node takes part in scoring once a status response has given it a key. */
  predicate Resolved(n: Node) {
    n.publicKey != ""
  }

  /** A node just added by address has no key yet, height 0, network weight 0,
      holds no stake, and has no active bid, so it is neither scored nor
      counted as active. */
  lemma NewNodeIsUnresolved(ip: string)
    ensures !Resolved(NewNode(ip)) && NewNode(ip).ip == ip
    ensures !NewNode(ip).activeBid && NewNode(ip).totalStake == 0 && NewNode(ip).percentOfNetwork == 0.0
    ensures NewNode(ip).height == 0 && NewNode(ip).networkWeight == 0
  {
  }

  /** models.Score: the snapshot of one node in one five-minute interval.
      `node` is the position of the node row it references. */
  datatype Score = Score(
    node: nat,
    currentBlock: int,
    networkWeight: int,
    totalStake: int,
    activeBid: bool,
    percentOfNetwork: real,
    active: bool,
    timestamp: DateTime)

  /** Scoring.TYPE_CHOICES: 'D' (day), 'W' (week), 'Q' (quarter). */
  datatype Kind = Daily | Weekly | Quarterly

  function KindCode(k: Kind): char {
    match k
    case Daily => 'D'
    case Weekly => 'W'
    case Quarterly => 'Q'
  }

  /** The stored one-letter type, read back. */
  function KindOfCode(c: char): (k: Kind)
    requires c in {'D', 'W', 'Q'}
    ensures KindCode(k) == c
  {
    if c == 'D' then Daily else if c == 'W' then Weekly else Quarterly
  }

  /** models.Scoring: a day, week or quarter record of one node. The services
      look these records up by node (not by the public_key column the model also
      declares), by type and by the period key held in `timestamp`. */
  datatype Scoring = Scoring(
    node: nat,
    kind: Kind,
    period: string,
    score: real,
    longevity: real,
    stakeOver: bool,
    eligible: bool)

  /** The record get_or_create makes when none exists: the declared defaults,
      with the type defaulting to 'D'. */
  function NewScoring(node: nat, period: string, kind: Kind := Daily): Scoring {
    Scoring(node, kind, period, 0.0, 0.0, false, false)
  }

  /** A freshly created record carries the defaults: nothing scored, nothing
      carried, no penalty, not eligible; its type defaults to 'D'. */
  lemma NewScoringDefaults(node: nat, period: string)
    ensures var r := NewScoring(node, period);
      r.kind == Daily && KindCode(r.kind) == 'D' && r.score == 0.0 && r.longevity == 0.0
      && !r.stakeOver && !r.eligible
  {
  }

  /** Scoring.Meta.ordering ('-score', '-longevity'): a comes strictly before b. */
  predicate RanksAbove(a: Scoring, b: Scoring) {
    a.score > b.score || (a.score == b.score && a.longevity > b.longevity)
  }

  /** The ordering is a strict weak order: irreflexive and transitive, and
      records that do not rank above each other form ties that chain. */
  lemma RankingIsStrictWeakOrder(a: Scoring, b: Scoring, c: Scoring)
    ensures !RanksAbove(a, a)
    ensures RanksAbove(a, b) && RanksAbove(b, c) ==> RanksAbove(a, c)
    ensures !RanksAbove(a, b) && !RanksAbove(b, c) ==> !RanksAbove(a, c)
    ensures RanksAbove(a, b) || RanksAbove(b, a) || (a.score == b.score && a.longevity == b.longevity)
  {
  }

  /** No record ranks above one listed before it. */
  predicate RankSorted(rs: seq<Scoring>) {
    forall p, q :: 0 <= p < q < |rs| ==> !RanksAbove(rs[q], rs[p])
  }

  /** r placed just before the first listed record it ranks above. */
  function InsertByRank(r: Scoring, rs: seq<Scoring>): seq<Scoring> {
    if |rs| == 0 then [r]
    else if RanksAbove(r, rs[0]) then [r] + rs
    else [rs[0]] + InsertByRank(r, rs[1..])
  }

  /** Records as a query returns them under Scoring.Meta.ordering ('-score',
      '-longevity'): best first, records equal in both fields in table order. */
  function ByRank(rs: seq<Scoring>): seq<Scoring> {
    if |rs| == 0 then [] else InsertByRank(rs[|rs| - 1], ByRank(rs[..|rs| - 1]))
  }

  /** Inserting adds exactly the one record. */
  lemma {:induction false} InsertByRankAdds(r: Scoring, rs: seq<Scoring>)
    ensures multiset(InsertByRank(r, rs)) == multiset(rs) + multiset{r}
  {
    if |rs| > 0 && !RanksAbove(r, rs[0]) {
      InsertByRankAdds(r, rs[1..]);
      assert rs == [rs[0]] + rs[1..];
    }
  }

  /** A list with a head is sorted exactly when its tail is and nothing in the
      tail ranks above the head. */
  lemma SortedCons(h: Scoring, t: seq<Scoring>)
    ensures RankSorted([h] + t) <==> RankSorted(t) && forall x | x in t :: !RanksAbove(x, h)
  {
    var o := [h] + t;
    if RankSorted(t) && forall x | x in t :: !RanksAbove(x, h) {
      forall p, q | 0 <= p < q < |o|
        ensures !RanksAbove(o[q], o[p])
      {
        assert o[q] == t[q - 1];
        if p > 0 {
          assert o[p] == t[p - 1];
        }
      }
    }
    if RankSorted(o) {
      forall p, q | 0 <= p < q < |t|
        ensures !RanksAbove(t[q], t[p])
      {
        assert t[q] == o[q + 1] && t[p] == o[p + 1];
      }
      forall x | x in t
        ensures !RanksAbove(x, h)
      {
        var q :| 0 <= q < |t| && t[q] == x;
        assert o[q + 1] == x && o[0] == h;
        assert !RanksAbove(o[q + 1], o[0]);
      }
    }
  }

  /** Inserting into a sorted list keeps it sorted. */
  lemma {:induction false} InsertByRankSorted(r: Scoring, rs: seq<Scoring>)
    requires RankSorted(rs)
    ensures RankSorted(InsertByRank(r, rs))
  {
    if |rs| > 0 {
      var tail := rs[1..];
      assert rs == [rs[0]] + tail;
      SortedCons(rs[0], tail);
      if RanksAbove(r, rs[0]) {
        SortedCons(r, rs);
        forall x | x in rs
          ensures !RanksAbove(x, r)
        {
          RankingIsStrictWeakOrder(x, r, rs[0]);
        }
      } else {
        InsertByRankSorted(r, tail);
        InsertByRankAdds(r, tail);
        var ins := InsertByRank(r, tail);
        forall x | x in ins
          ensures !RanksAbove(x, rs[0])
        {
          assert x in multiset(ins);
        }
        SortedCons(rs[0], ins);
      }
    }
  }

  /** Ordering neither adds nor drops a record. */
  lemma ByRankMembers(rs: seq<Scoring>)
    ensures forall x :: x in ByRank(rs) <==> x in rs
  {
    ByRankMeaning(rs);
    assert forall x :: x in ByRank(rs) <==> x in multiset(ByRank(rs));
  }

  /** The ordered records are the same records, best first. */
  lemma {:induction false} ByRankMeaning(rs: seq<Scoring>)
    ensures RankSorted(ByRank(rs))
    ensures multiset(ByRank(rs)) == multiset(rs)
  {
    if |rs| > 0 {
      var init := rs[..|rs| - 1];
      ByRankMeaning(init);
      InsertByRankSorted(rs[|rs| - 1], ByRank(init));
      InsertByRankAdds(rs[|rs| - 1], ByRank(init));
      assert rs == init + [rs[|rs| - 1]];
    }
  }
}
