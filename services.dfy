/**
 * The scoring pipeline of app/src/casper/services.py as operations on the
 * database: the node registry, the interval snapshots and the scoring table,
 * each a table the stages read and update in place.
 */
module Services {
  import opened Wrappers
  import opened Text
  import opened Calendar
  import opened Periods
  import opened Models
  import opened Polling
  import opened Auction
  import opened Intervals
  import opened ScoringTable
  import opened Rollups
  import opened Eligibility

  /** The position of the node row with this address, or |nodes|. */
  function FindIp(nodes: seq<Node>, ip: string): (k: nat)
    ensures k <= |nodes|
    ensures k < |nodes| ==> nodes[k].ip == ip
    ensures k == |nodes| <==> !Registered(nodes, ip)
  {
    if |nodes| == 0 then 0
    else if nodes[0].ip == ip then 0
    else
      var k := 1 + FindIp(nodes[1..], ip);
      assert forall j :: 1 <= j < |nodes| ==> nodes[1..][j - 1] == nodes[j];
      k
  }

  /** With distinct addresses, rewriting the one row with the response's address
      is the registry after that response. */
  lemma RewriteOneRow(nodes: seq<Node>, k: nat, st: Status)
    requires DistinctIps(nodes) && k < |nodes|
    ensures nodes[k := ApplyStatus(nodes[k], st)] == ApplyResponse(nodes, nodes[k].ip, st)
  {
  }

  /** The response loop keeps every address registered. */
  lemma RegisteredAfterResponses(nodes: seq<Node>, rs: seq<(string, Status)>, ip: string)
    requires Registered(nodes, ip)
    ensures Registered(ApplyResponses(nodes, rs), ip)
  {
    var i :| 0 <= i < |nodes| && nodes[i].ip == ip;
    assert ApplyResponses(nodes, rs)[i].ip == ip;
  }

  lemma PeerHostsStep(rs: seq<(string, Status)>, i: nat)
    requires i < |rs|
    ensures PeerHosts(rs[..i + 1]) ==
      PeerHosts(rs[..i]) + (if rs[i].1.peers.Some? then HostsOf(rs[i].1.peers.value) else [])
  {
    assert rs[..i + 1][..i] == rs[..i];
  }

  /** The inner loop of lines 192-195: the host part of each advertised address. */
  method PeerAddressHosts(peers: seq<string>) returns (hosts: seq<string>)
    ensures |hosts| == |peers|
    ensures forall k :: 0 <= k < |peers| ==> hosts[k] == HostOf(peers[k]) && ':' !in hosts[k]
  {
    hosts := [];
    var j := 0;
    while j < |peers|
      invariant 0 <= j <= |peers|
      invariant |hosts| == j
      invariant forall k :: 0 <= k < j ==> hosts[k] == HostOf(peers[k])
    {
      hosts := hosts + [HostOf(peers[j])];
      j := j + 1;
    }
  }

  lemma SameIpsDistinct(a: seq<Node>, b: seq<Node>)
    requires DistinctIps(a) && |a| == |b| && forall j :: 0 <= j < |a| ==> a[j].ip == b[j].ip
    ensures DistinctIps(b)
  {
  }

  lemma SafeToApplyPrefix(nodes: seq<Node>, bids: seq<Bid>, weight: int, validators: set<string>, n: nat)
    requires SafeToApply(nodes, bids, weight, validators) && n <= |bids|
    ensures SafeToApply(nodes, bids[..n], weight, validators)
  {
    assert forall k :: 0 <= k < n ==> bids[..n][k] == bids[k];
  }

  /** The registry part-way through the inner bid loop: the first j nodes
      have been visited. */
  function BidPrefix(nodes: seq<Node>, b: Bid, weight: int, validators: set<string>, j: nat): (r: seq<Node>)
    requires Harmless(nodes, BidKey(b), weight, validators)
    ensures |r| == |nodes|
  {
    seq(|nodes|, m requires 0 <= m < |nodes| =>
      if m < j && nodes[m].publicKey == BidKey(b) then ApplyBid(nodes[m], b, weight, validators) else nodes[m])
  }

  lemma BidPrefixStep(nodes: seq<Node>, b: Bid, weight: int, validators: set<string>, j: nat)
    requires Harmless(nodes, BidKey(b), weight, validators) && j < |nodes|
    ensures var p := BidPrefix(nodes, b, weight, validators, j);
      p[j] == nodes[j]
      && (nodes[j].publicKey in validators && nodes[j].publicKey == BidKey(b) ==> weight != 0)
      && BidPrefix(nodes, b, weight, validators, j + 1) ==
           if nodes[j].publicKey == BidKey(b) then p[j := ApplyBid(nodes[j], b, weight, validators)] else p
  {
  }

  lemma BidPrefixAll(nodes: seq<Node>, b: Bid, weight: int, validators: set<string>)
    requires Harmless(nodes, BidKey(b), weight, validators)
    ensures BidPrefix(nodes, b, weight, validators, |nodes|) == ApplyBidToAll(nodes, b, weight, validators)
    ensures forall j :: 0 <= j < |nodes| ==> BidPrefix(nodes, b, weight, validators, |nodes|)[j].ip == nodes[j].ip
  {
  }

  /** Every interval row references one of the n node rows. */
  predicate RowsReference(scores: seq<Score>, n: nat) {
    forall j :: 0 <= j < |scores| ==> scores[j].node < n
  }

  /** The loop of lines 124-127: the network weight and the validator keys. */
  method TallyValidators(vs: seq<ValidatorWeight>) returns (weight: int, validators: set<string>)
    ensures weight == NetworkWeight(vs)
    ensures validators == ValidatorKeys(vs)
  {
    weight := 0;
    validators := {};
    for i := 0 to |vs|
      invariant weight == NetworkWeight(vs[..i]) && validators == ValidatorKeys(vs[..i])
    {
      assert vs[..i + 1][..i] == vs[..i];
      weight := weight + vs[i].weight;
      validators := validators + {Lower(vs[i].publicKey)};
    }
    assert vs[..|vs|] == vs;
  }

  /** One more turn of the bid loop. */
  lemma ApplyBidsStep(nodes: seq<Node>, bids: seq<Bid>, weight: int, validators: set<string>, b: nat)
    requires SafeToApply(nodes, bids, weight, validators) && b < |bids|
    ensures SafeToApply(nodes, bids[..b], weight, validators)
    ensures SafeToApply(nodes, bids[..b + 1], weight, validators)
    ensures Harmless(ApplyBids(nodes, bids[..b], weight, validators), BidKey(bids[b]), weight, validators)
    ensures ApplyBids(nodes, bids[..b + 1], weight, validators) ==
      ApplyBidToAll(ApplyBids(nodes, bids[..b], weight, validators), bids[b], weight, validators)
  {
    SafeToApplyPrefix(nodes, bids, weight, validators, b);
    SafeToApplyPrefix(nodes, bids, weight, validators, b + 1);
    var prev := ApplyBids(nodes, bids[..b], weight, validators);
    assert SameKeys(nodes, prev);
    SafeToApplyKeys(nodes, prev, bids, weight, validators);
    assert Harmless(prev, BidKey(bids[b]), weight, validators);
    var next := bids[..b + 1];
    assert next[..b] == bids[..b] && next[b] == bids[b] && |next| == b + 1;
  }

  lemma WellFormedMember(recs: seq<Scoring>, n: nat, r: Scoring)
    requires WellFormed(recs, n) && r in recs
    ensures r.node < n && PeriodReadable(r.kind, r.period)
  {
    var j :| 0 <= j < |recs| && recs[j] == r;
  }

  /** Tables that reference n node rows still do once there are more rows. */
  lemma TablesReferenceMore(scores: seq<Score>, recs: seq<Scoring>, n: nat, m: nat)
    requires RowsReference(scores, n) && WellFormed(recs, n) && n <= m
    ensures RowsReference(scores, m) && WellFormed(recs, m)
  {
  }

  /** A table whose records keep their identities stays well formed. */
  lemma TableKeysKept(a: seq<Scoring>, b: seq<Scoring>, n: nat)
    requires UniqueKeys(a) && WellFormed(a, n)
    requires |a| == |b| && forall j :: 0 <= j < |a| ==> SameKey(b[j], a[j])
    ensures UniqueKeys(b) && WellFormed(b, n)
  {
  }

  /** The tallest node is determined by the heights alone. */
  lemma MaxHeightOfHeights(a: seq<Node>, b: seq<Node>)
    requires |a| == |b| > 0 && forall j :: 0 <= j < |a| ==> a[j].height == b[j].height
    ensures MaxHeight(a) == MaxHeight(b)
  {
    var i :| 0 <= i < |a| && a[i].height == MaxHeight(a);
    var j :| 0 <= j < |b| && b[j].height == MaxHeight(b);
    assert MaxHeight(a) <= MaxHeight(b) by { assert a[i].height == b[i].height; }
    assert MaxHeight(b) <= MaxHeight(a) by { assert b[j].height == a[j].height; }
  }

  /** The per-node body of calculate_day_scoring (lines 249-274): the day's
      score is the active share of max_scores as a percentage, the longevity
      restarts after a low score on a full day and otherwise adds the score to
      yesterday's, and the stake flag says whether any of the day's rows reached
      the stake limit. */
  method DayUpdateOf(recs: seq<Scoring>, nodes: seq<Node>, scores: seq<Score>, day: Date, maxScores: nat, i: nat)
    returns (u: Update)
    requires DayStageDefined(nodes, scores, day) && maxScores == MaxIntervals(nodes, scores, day)
    requires i < |nodes| && Resolved(nodes[i])
    ensures 0.0 <= u.score <= 100.0
    ensures u.score == 100.0 <==> CountActive(RowsOn(scores, i, day)) == maxScores
    ensures u.score < LongevityThreshold && maxScores == FullDay ==> u.longevity == 0.0
    ensures u.score >= LongevityThreshold || maxScores != FullDay ==> u.longevity == PrevLongevity(recs, i, day) + u.score
    ensures u.stakeOver <==> exists r | r in RowsOn(scores, i, day) :: r.percentOfNetwork >= StakeLimit
    ensures u.eligible.None?
    ensures DayUpdate(recs, nodes, scores, day, i) == Some(u)
  {
    var rows := RowsOn(scores, i, day);
    var activeScores := CountActive(rows);
    var score := (activeScores as real / maxScores as real) * 100.0;
    var stakeOver := StakeOverAny(rows);
    var longevity: real;
    if score < LongevityThreshold && maxScores == FullDay {
      longevity := 0.0;
    } else {
      var previous := Find(recs, i, Daily, PrevDayKey(day));
      longevity := if previous.Some? then previous.value.longevity else 0.0;
      longevity := longevity + score;
    }
    assert activeScores <= |rows| <= maxScores;
    DayScoreBounds(activeScores, maxScores);
    assert score == DayScore(activeScores, maxScores);
    assert longevity == DayLongevity(score, maxScores, PrevLongevity(recs, i, day));
    u := Update(score, longevity, stakeOver, None);
  }

  /** One turn of the day loop: the update computed from the table as the
      earlier turns left it is the one the stage computes from the table it
      started with, because no turn writes a record of the previous day. */
  lemma DayStep(recs: seq<Scoring>, nodes: seq<Node>, scores: seq<Score>, day: Date, i: nat)
    requires DayStageDefined(nodes, scores, day) && i < |nodes|
    ensures var us := DayUpdates(recs, nodes, scores, day);
      var sofar := UpsertAll(recs, Daily, FormatDate(day), us[..i]);
      UpsertAll(recs, Daily, FormatDate(day), us[..i + 1]) ==
        match DayUpdate(sofar, nodes, scores, day, i)
        case None => sofar
        case Some(u) => Upsert(sofar, i, Daily, FormatDate(day), u)
  {
    var dayKey := FormatDate(day);
    var us := DayUpdates(recs, nodes, scores, day);
    DayKeysDiffer(day);
    UpsertAllSnoc(recs, Daily, dayKey, us, i);
    UpsertAllFind(recs, Daily, dayKey, us[..i], i, Daily, PrevDayKey(day));
    DayUpdateReadsPrevious(UpsertAll(recs, Daily, dayKey, us[..i]), recs, nodes, scores, day, i);
  }

  /** Every day record of a well-formed table has a readable date. */
  lemma DaysReadable(recs: seq<Scoring>, n: nat, i: nat)
    requires WellFormed(recs, n)
    ensures forall r | r in Select(recs, i, Daily) :: ParseDate(r.period).Some?
  {
    forall r | r in Select(recs, i, Daily) ensures ParseDate(r.period).Some? {
      WellFormedMember(recs, n, r);
    }
  }

  /** The loop over a node's day records in calculate_week_scoring
      (lines 305-324). */
  method TallyWeek(days: seq<Scoring>, w: Week) returns (t: Tally)
    requires ValidDate(w.start.date) && ValidDate(w.end.date)
    requires forall r | r in days :: ParseDate(r.period).Some?
    ensures t == WeekTally(days, w)
  {
    var score, stakeOver, latest, longevity := 0.0, false, 1, 0.0;
    for j := 0 to |days|
      invariant Tally(score, stakeOver, latest, longevity) == WeekTally(days[..j], w)
    {
      WeekTallySnoc(days, j, w);
      var r := days[j];
      var day := ParseDate(r.period).value;
      if InWeek(w, day) {
        score := score + r.score;
        if r.stakeOver {
          stakeOver := true;
        }
        if Ordinal(day) > latest {
          latest, longevity := Ordinal(day), r.longevity;
        }
      }
    }
    assert days[..|days|] == days;
    t := Tally(score, stakeOver, latest, longevity);
  }

  /** The per-node body of calculate_week_scoring (lines 303-337): tally the
      node's days in the window, average over seven days and apply the stake
      penalty. */
  method WeekUpdateOf(days: seq<Scoring>, w: Week) returns (u: Update)
    requires ValidDate(w.start.date) && ValidDate(w.end.date)
    requires forall r | r in days :: ParseDate(r.period).Some?
    ensures u == WeekUpdate(WeekTally(days, w))
  {
    var t := TallyWeek(days, w);
    var score := t.score / 7.0;
    if t.stakeOver {
      score := score * StakePenalty;
    }
    u := Update(score, t.longevity, t.stakeOver, None);
  }

  /** Every week record of a well-formed table has a readable key. */
  lemma WeeksReadable(recs: seq<Scoring>, n: nat, i: nat)
    requires WellFormed(recs, n)
    ensures forall r | r in Select(recs, i, Weekly) :: ParseWeekKey(r.period).Some?
  {
    forall r | r in Select(recs, i, Weekly) ensures ParseWeekKey(r.period).Some? {
      WellFormedMember(recs, n, r);
    }
  }

  /** One turn of the loop over a node's week records in
      calculate_quarter_rewards (lines 379-395): read the week's dates from its
      key and count it when both lie in the quarter. */
  method CountWeek(t: Tally, r: Scoring, q: Quarter) returns (t': Tally)
    requires ValidDate(q.start) && ValidDate(q.end) && ParseWeekKey(r.period).Some?
    ensures t' == if WeekIn(q, r)
      then Count(t, WeekStartOrdinal(r), if r.eligible then r.score else 0.0, r.stakeOver, r.longevity)
      else t
  {
    var score, stakeOver, latest, longevity := t.score, t.stakeOver, t.latest, t.longevity;
    var period := ParseWeekKey(r.period).value;
    var startOfWeek, endOfWeek := period.0, period.1;
    if WeekInQuarter(q, startOfWeek, endOfWeek) {
      if r.eligible {
        score := score + r.score;
      }
      if r.stakeOver {
        stakeOver := true;
      }
      if Ordinal(startOfWeek) > latest {
        latest, longevity := Ordinal(startOfWeek), r.longevity;
      }
    }
    t' := Tally(score, stakeOver, latest, longevity);
  }

  /** The loop over a node's week records in calculate_quarter_rewards
      (lines 375-395). */
  method TallyQuarter(weeks: seq<Scoring>, q: Quarter) returns (t: Tally)
    requires ValidDate(q.start) && ValidDate(q.end)
    requires forall r | r in weeks :: ParseWeekKey(r.period).Some?
    ensures t == QuarterTally(weeks, q)
  {
    t := Tally(0.0, false, 1, 0.0);
    for j := 0 to |weeks|
      invariant t == QuarterTally(weeks[..j], q)
    {
      QuarterTallySnoc(weeks, j, q);
      t := CountWeek(t, weeks[j], q);
    }
    assert weeks[..|weeks|] == weeks;
  }

  /** order_by('-score', '-longevity') on the current week's records, as a
      stable insertion: each record goes before the first listed record it
      ranks above. */
  method RankWeek(scorings: seq<Scoring>, key: string) returns (order: seq<nat>)
    ensures IsRanking(scorings, key, order)
  {
    order := [];
    for i := 0 to |scorings|
      invariant forall p :: 0 <= p < |order| ==> order[p] < i && InCurrentWeek(scorings[order[p]], key)
      invariant Distinct(order)
      invariant forall m :: 0 <= m < i && InCurrentWeek(scorings[m], key) ==> m in order
      invariant Ranked(scorings, order)
    {
      if InCurrentWeek(scorings[i], key) {
        var pos := 0;
        while pos < |order| && !RanksAbove(scorings[i], scorings[order[pos]])
          invariant 0 <= pos <= |order|
          invariant forall p :: 0 <= p < pos ==> !RanksAbove(scorings[i], scorings[order[p]])
        {
          pos := pos + 1;
        }
        InsertIntoRanking(scorings, key, order, pos, i);
        order := order[..pos] + [i] + order[pos..];
      }
    }
  }

  /** After the interval snapshot, a node with a key has a row on the
      snapshot's day, so max_scores is positive. */
  lemma KeyedNodeHasRows(nodes: seq<Node>, scores: seq<Score>, maxHeight: int, now: DateTime, i: nat)
    requires i < |nodes| && Resolved(nodes[i])
    ensures MaxIntervals(nodes, scores + IntervalRows(nodes, maxHeight, now), now.date) > 0
  {
    var rows := IntervalRows(nodes, maxHeight, now);
    RowsOnAppend(scores, rows, i, now.date);
    OneRowPerKeyedNode(nodes, maxHeight, now, i);
  }

  /** The scoring table after the roll-ups and the eligibility marking of one
      run of main (lines 414-420), on the node registry and interval rows that
      monitoring_score left. */
  function CycleScorings(recs: seq<Scoring>, nodes: seq<Node>, scores: seq<Score>, now: DateTime, order: seq<nat>): seq<Scoring>
    requires DayStageDefined(nodes, scores, now.date) && WeekStageDefined(now)
    requires forall p :: 0 <= p < |order| ==> order[p] < |WeekStage(DayStage(recs, nodes, scores, now.date), nodes, now)|
  {
    var week := WeekStage(DayStage(recs, nodes, scores, now.date), nodes, now);
    QuarterStage(MarkEligible(week, order), nodes, now.date)
  }

  /** After one run of main every node with a key has a record for the day, one
      for the week and one for the quarter. */
  lemma CycleRecords(recs: seq<Scoring>, nodes: seq<Node>, scores: seq<Score>, now: DateTime, order: seq<nat>, i: nat)
    requires DayStageDefined(nodes, scores, now.date) && WeekStageDefined(now)
    requires IsRanking(WeekStage(DayStage(recs, nodes, scores, now.date), nodes, now), WeekOf(now).key, order)
    requires i < |nodes| && Resolved(nodes[i])
    ensures var final := CycleScorings(recs, nodes, scores, now, order);
      Find(final, i, Daily, FormatDate(now.date)).Some?
      && Find(final, i, Weekly, WeekOf(now).key).Some?
      && Find(final, i, Quarterly, QuarterOf(now.date).key).Some?
  {
    var dayKey, w, q := FormatDate(now.date), WeekOf(now), QuarterOf(now.date);
    var day := DayStage(recs, nodes, scores, now.date);
    DayRecord(recs, nodes, scores, now.date, i);
    var week := WeekStage(day, nodes, now);
    UpsertAllFind(day, Weekly, w.key, WeekUpdates(day, nodes, w), i, Daily, dayKey);
    WeekRecord(day, nodes, now, i);
    var marked := MarkEligible(week, order);
    MarkEligibleFlags(week, order);
    FindKeysKept(week, marked, i, Daily, dayKey);
    FindKeysKept(week, marked, i, Weekly, w.key);
    var us := QuarterUpdates(marked, nodes, q);
    UpsertAllFind(marked, Quarterly, q.key, us, i, Daily, dayKey);
    UpsertAllFind(marked, Quarterly, q.key, us, i, Weekly, w.key);
    QuarterRecord(marked, nodes, now.date, i);
  }

  class Database {
    /** models.Node rows, addressed by position. */
    var nodes: seq<Node>
    /** models.Score rows, in creation order. */
    var scores: seq<Score>
    /** models.Scoring rows, in creation order. */
    var scorings: seq<Scoring>

    /** What the pipeline keeps true of the tables: addresses are distinct,
        every row references an existing node, no two scoring records share an
        identity, and every day and week key reads back as dates (so the week
        and quarter stages never meet a key strptime rejects). */
    ghost predicate Valid()
      reads this
    {
      DistinctIps(nodes)
      && RowsReference(scores, |nodes|)
      && UniqueKeys(scorings)
      && WellFormed(scorings, |nodes|)
    }

    constructor ()
      ensures Valid() && nodes == [] && scores == [] && scorings == []
    {
      nodes := [];
      scores := [];
      scorings := [];
    }

    /** Scoring.objects.get_or_create(node, timestamp=period, type=kind), the
        stage's assignments, then save(). */
    method Save(node: nat, kind: Kind, period: string, u: Update)
      requires Valid() && node < |nodes| && PeriodReadable(kind, period)
      modifies this
      ensures Valid()
      ensures scorings == Upsert(old(scorings), node, kind, period, u)
      ensures nodes == old(nodes) && scores == old(scores)
    {
      var k := IndexOfKey(scorings, node, kind, period);
      var rec := if k < |scorings| then scorings[k] else NewScoring(node, period, kind);
      rec := rec.(score := u.score, longevity := u.longevity);
      if u.stakeOver {
        rec := rec.(stakeOver := true);
      }
      if u.eligible.Some? {
        rec := rec.(eligible := u.eligible.value);
      }
      UpsertWellFormed(scorings, node, kind, period, u, |nodes|);
      if k < |scorings| {
        scorings := scorings[k := rec];
      } else {
        scorings := scorings + [rec];
      }
    }

    /** The loops of update_peers (lines 76-80) and of monitoring_score over the
        advertised hosts (lines 199-202): create a node for each address not yet
        registered. */
    method RegisterAll(ips: seq<string>)
      requires Valid()
      modifies this
      ensures Valid()
      ensures nodes == AddPeers(old(nodes), ips)
      ensures scores == old(scores) && scorings == old(scorings)
    {
      var i := 0;
      while i < |ips|
        invariant 0 <= i <= |ips|
        invariant nodes == AddPeers(old(nodes), ips[..i])
        invariant scores == old(scores) && scorings == old(scorings)
      {
        var ip := ips[i];
        assert ips[..i + 1][..i] == ips[..i];
        if FindIp(nodes, ip) == |nodes| {
          nodes := nodes + [NewNode(ip)];
        }
        i := i + 1;
      }
      assert ips[..i] == ips;
      AddPeersKeeps(old(nodes), ips);
      AddPeersDistinct(old(nodes), ips);
      TablesReferenceMore(scores, scorings, |old(nodes)|, |nodes|);
    }

    /** One response stored on its node (lines 173-189): Node.objects.get(ip=ip),
        the key when the response has one, the height always, then save(). */
    method SaveStatus(ip: string, st: Status)
      requires Valid() && Registered(nodes, ip)
      modifies this
      ensures Valid()
      ensures nodes == ApplyResponse(old(nodes), ip, st)
      ensures scores == old(scores) && scorings == old(scorings)
    {
      var pk := ResponseKey(st);
      var height := ResponseHeight(st);
      var k := FindIp(nodes, ip);
      var node := nodes[k];
      if pk != "" {
        node := node.(publicKey := pk);
      }
      node := node.(height := height);
      RewriteOneRow(nodes, k, st);
      nodes := nodes[k := node];
    }

    /** One pass of the response loop (lines 171-195): save the node's key and
        height, and collect the hosts of the peers it advertises. */
    method HandleResponse(ip: string, st: Status) returns (found: seq<string>)
      requires Valid() && Registered(nodes, ip)
      modifies this
      ensures Valid()
      ensures nodes == ApplyResponse(old(nodes), ip, st)
      ensures found == if st.peers.Some? then HostsOf(st.peers.value) else []
      ensures scores == old(scores) && scorings == old(scorings)
    {
      SaveStatus(ip, st);
      found := [];
      if st.peers.Some? {
        found := PeerAddressHosts(st.peers.value);
      }
    }

    /** The response loop of monitoring_score (lines 171-196): store each
        response's key (when it has one) and height on its node, and collect the
        hosts of the advertised peers. */
    method ApplyStatuses(responses: seq<(string, Status)>) returns (hosts: seq<string>)
      requires Valid()
      requires forall k :: 0 <= k < |responses| ==> Registered(nodes, responses[k].0)
      modifies this
      ensures Valid()
      ensures nodes == ApplyResponses(old(nodes), responses)
      ensures hosts == PeerHosts(responses)
      ensures scores == old(scores) && scorings == old(scorings)
    {
      hosts := [];
      var i := 0;
      while i < |responses|
        invariant 0 <= i <= |responses|
        invariant Valid()
        invariant nodes == ApplyResponses(old(nodes), responses[..i])
        invariant hosts == PeerHosts(responses[..i])
        invariant scores == old(scores) && scorings == old(scorings)
      {
        ApplyResponsesSnoc(old(nodes), responses, i);
        PeerHostsStep(responses, i);
        RegisteredAfterResponses(old(nodes), responses[..i], responses[i].0);
        var found := HandleResponse(responses[i].0, responses[i].1);
        hosts := hosts + found;
        i := i + 1;
      }
      assert responses[..i] == responses;
    }
  
    /** update_auction_info (lines 113-144) on the reply get_auction_info
        settles on: nothing changes when it is empty; otherwise sum the weights,
        collect the validator keys, and give every node named by a bid that bid's
        state. */
    method UpdateAuctionInfo(attempts: seq<Attempt>)
      requires Valid() && |attempts| == MaxAttempts
      requires var reply := ChosenReply(attempts);
        reply.AuctionState? ==>
          SafeToApply(nodes, reply.bids, NetworkWeight(reply.validatorWeights), ValidatorKeys(reply.validatorWeights))
      modifies this
      ensures Valid()
      ensures nodes == AuctionUpdate(old(nodes), ChosenReply(attempts))
      ensures scores == old(scores) && scorings == old(scorings)
    {
      var reply, made := GetAuctionInfo(attempts);
      if reply.EmptyReply? {
        return;
      }
      var weight, validators := TallyValidators(reply.validatorWeights);
      var bids := reply.bids;
      for b := 0 to |bids|
        invariant SafeToApply(old(nodes), bids[..b], weight, validators)
        invariant nodes == ApplyBids(old(nodes), bids[..b], weight, validators)
        invariant scores == old(scores) && scorings == old(scorings)
      {
        ApplyBidsStep(old(nodes), bids, weight, validators, b);
        ApplyBidToNodes(bids[b], weight, validators);
      }
      assert bids[..|bids|] == bids;
      SameIpsDistinct(old(nodes), nodes);
    }

    /** The inner loop of lines 136-144: every node whose key is the bid's key
        gets the bid's status, the network weight, the bid's total stake, and its
        share of the weight (zero unless it is a validator). */
    method ApplyBidToNodes(bid: Bid, weight: int, validators: set<string>)
      requires Harmless(nodes, BidKey(bid), weight, validators)
      modifies this
      ensures nodes == ApplyBidToAll(old(nodes), bid, weight, validators)
      ensures scores == old(scores) && scorings == old(scorings)
    {
      var key := BidKey(bid);
      for j := 0 to |nodes|
        invariant nodes == BidPrefix(old(nodes), bid, weight, validators, j)
        invariant scores == old(scores) && scorings == old(scorings)
      {
        BidPrefixStep(old(nodes), bid, weight, validators, j);
        if nodes[j].publicKey == key {
          var node := nodes[j];
          node := node.(activeBid := !bid.inactive);
          node := node.(networkWeight := weight);
          node := node.(totalStake := TotalStake(bid));
          node := node.(percentOfNetwork :=
            if node.publicKey in validators then (node.totalStake * 100) as real / weight as real else 0.0);
          nodes := nodes[j := node];
        }
      }
      BidPrefixAll(old(nodes), bid, weight, validators);
    }

    /** The snapshot loop of lines 211-230: one row per keyed node, stamped with
        the same time. */
    method RecordIntervals(maxHeight: int, now: DateTime)
      requires Valid()
      modifies this
      ensures Valid()
      ensures scores == old(scores) + IntervalRows(nodes, maxHeight, now)
      ensures nodes == old(nodes) && scorings == old(scorings)
    {
      for i := 0 to |nodes|
        invariant nodes == old(nodes) && scorings == old(scorings)
        invariant RowsReference(scores, |nodes|)
        invariant scores == old(scores) + IntervalRows(nodes[..i], maxHeight, now)
      {
        IntervalRowsSnoc(nodes, maxHeight, now, i);
        var node := nodes[i];
        if node.publicKey != "" {
          var active := if maxHeight - node.height <= MaxLag && node.activeBid then true else false;
          scores := scores + [Score(i, node.height, node.networkWeight, node.totalStake, node.activeBid,
                                    node.percentOfNetwork, active, now)];
        }
      }
      assert nodes[..|nodes|] == nodes;
    }
  
    /** monitoring_score (lines 147-230): seed an empty registry from the
        listing, store the status responses, register the advertised hosts, take
        the tallest height, refresh the auction state, then record one interval
        row per keyed node. */
    method MonitoringScore(listing: seq<string>, responses: seq<(string, Status)>,
                           attempts: seq<Attempt>, now: DateTime)
      requires Valid() && |attempts| == MaxAttempts
      requires forall k :: 0 <= k < |responses| ==> Registered(Bootstrap(nodes, listing), responses[k].0)
      requires |PolledRegistry(nodes, listing, responses)| > 0
      requires var reply := ChosenReply(attempts);
        reply.AuctionState? ==>
          SafeToApply(PolledRegistry(nodes, listing, responses), reply.bids,
                      NetworkWeight(reply.validatorWeights), ValidatorKeys(reply.validatorWeights))
      modifies this
      ensures Valid()
      ensures nodes == AuctionUpdate(PolledRegistry(old(nodes), listing, responses), ChosenReply(attempts))
      ensures |nodes| > 0 && scores == old(scores) + IntervalRows(nodes, MaxHeight(nodes), now)
      ensures scorings == old(scorings)
    {
      if |nodes| == 0 {
        RegisterAll(listing);
      }
      var hosts := ApplyStatuses(responses);
      RegisterAll(hosts);
      var maxHeight := MaxHeight(nodes);
      ghost var polled := nodes;
      UpdateAuctionInfo(attempts);
      MaxHeightOfHeights(polled, nodes);
      RecordIntervals(maxHeight, now);
    }

    /** calculate_day_scoring (lines 233-281) for `day`. */
    method CalculateDayScoring(day: Date)
      requires Valid() && DayStageDefined(nodes, scores, day)
      modifies this
      ensures nodes == old(nodes) && scores == old(scores)
      ensures Valid()
      ensures scorings == DayStage(old(scorings), nodes, scores, day)
    {
      var maxScores := MaxIntervals(nodes, scores, day);
      var dayKey := FormatDate(day);
      ghost var us := DayUpdates(old(scorings), nodes, scores, day);
      ParseFormat(day);
      DayKeysDiffer(day);
      for i := 0 to |nodes|
        invariant Valid() && nodes == old(nodes) && scores == old(scores)
        invariant scorings == UpsertAll(old(scorings), Daily, dayKey, us[..i])
      {
        ScoreDay(old(scorings), i, day, dayKey, maxScores);
      }
      assert us[..|nodes|] == us;
    }

    /** One pass of the loop in calculate_day_scoring (lines 246-281): a node
        with a key gets its day update, computed from the table as it stands,
        saved under the day's key. */
    method ScoreDay(ghost start: seq<Scoring>, i: nat, day: Date, dayKey: string, maxScores: nat)
      requires Valid() && DayStageDefined(nodes, scores, day) && maxScores == MaxIntervals(nodes, scores, day)
      requires i < |nodes| && dayKey == FormatDate(day)
      requires scorings == UpsertAll(start, Daily, dayKey, DayUpdates(start, nodes, scores, day)[..i])
      modifies this
      ensures Valid() && nodes == old(nodes) && scores == old(scores)
      ensures scorings == match DayUpdate(old(scorings), nodes, scores, day, i)
        case None => old(scorings)
        case Some(u) => Upsert(old(scorings), i, Daily, dayKey, u)
      ensures scorings == UpsertAll(start, Daily, dayKey, DayUpdates(start, nodes, scores, day)[..i + 1])
    {
      DayStep(start, nodes, scores, day, i);
      if nodes[i].publicKey != "" {
        ParseFormat(day);
        var u := DayUpdateOf(scorings, nodes, scores, day, maxScores, i);
        Save(i, Daily, dayKey, u);
      }
    }

    /** calculate_week_scoring (lines 295-337) at `now`. */
    method CalculateWeekScoring(now: DateTime)
      requires Valid() && WeekStageDefined(now)
      modifies this
      ensures nodes == old(nodes) && scores == old(scores)
      ensures Valid()
      ensures scorings == WeekStage(old(scorings), nodes, now)
    {
      var w := WeekOf(now);
      ghost var us := WeekUpdates(old(scorings), nodes, w);
      WeekKeyRoundTrip(w.number, w.start.date, w.end.date);
      for i := 0 to |nodes|
        invariant Valid() && nodes == old(nodes) && scores == old(scores)
        invariant scorings == UpsertAll(old(scorings), Weekly, w.key, us[..i])
      {
        UpsertAllSnoc(old(scorings), Weekly, w.key, us, i);
        if nodes[i].publicKey != "" {
          UpsertAllKeepsOtherKinds(old(scorings), Weekly, w.key, us[..i], i, Daily);
          DaysReadable(scorings, |nodes|, i);
          var u := WeekUpdateOf(Select(scorings, i, Daily), w);
          Save(i, Weekly, w.key, u);
        }
      }
      assert us[..|nodes|] == us;
    }

    /** determine_eligible_rewards (lines 340-353): walk the ranking of the
        current week's records and mark the first hundred eligible, the rest
        not. */
    method DetermineEligibleRewards(now: DateTime) returns (order: seq<nat>)
      requires Valid() && WeekStageDefined(now)
      modifies this
      ensures nodes == old(nodes) && scores == old(scores)
      ensures IsRanking(old(scorings), WeekOf(now).key, order)
      ensures scorings == MarkEligible(old(scorings), order)
      ensures Valid()
    {
      order := RankWeek(scorings, WeekOf(now).key);
      MarkRanked(order);
      MarkEligibleFlags(old(scorings), order);
      TableKeysKept(old(scorings), scorings, |nodes|);
    }

    /** The loop of lines 351-353: the record at each place of the ranking is
        made eligible when the place is below 100 and ineligible otherwise. */
    method MarkRanked(order: seq<nat>)
      requires forall p :: 0 <= p < |order| ==> order[p] < |scorings|
      modifies this
      ensures nodes == old(nodes) && scores == old(scores)
      ensures scorings == MarkEligible(old(scorings), order)
    {
      for p := 0 to |order|
        invariant nodes == old(nodes) && scores == old(scores)
        invariant |scorings| == |old(scorings)|
        invariant scorings == MarkEligible(old(scorings), order[..p])
      {
        MarkEligibleSnoc(old(scorings), order, p);
        var k := order[p];
        scorings := scorings[k := scorings[k].(eligible := if p < TopN then true else false)];
      }
      assert order[..|order|] == order;
    }

    /** calculate_quarter_rewards (lines 356-404) on `today`. */
    method CalculateQuarterRewards(today: Date)
      requires Valid() && QuarterStageDefined(today)
      modifies this
      ensures nodes == old(nodes) && scores == old(scores)
      ensures Valid()
      ensures scorings == QuarterStage(old(scorings), nodes, today)
    {
      var q := QuarterOf(today);
      ghost var us := QuarterUpdates(old(scorings), nodes, q);
      for i := 0 to |nodes|
        invariant Valid() && nodes == old(nodes) && scores == old(scores)
        invariant scorings == UpsertAll(old(scorings), Quarterly, q.key, us[..i])
      {
        UpsertAllSnoc(old(scorings), Quarterly, q.key, us, i);
        if nodes[i].publicKey != "" {
          UpsertAllKeepsOtherKinds(old(scorings), Quarterly, q.key, us[..i], i, Weekly);
          WeeksReadable(scorings, |nodes|, i);
          ByRankMembers(Select(scorings, i, Weekly));
          var t := TallyQuarter(ByRank(Select(scorings, i, Weekly)), q);
          Save(i, Quarterly, q.key, Update(t.score, t.longevity, t.stakeOver, Some(if t.score != 0.0 then true else false)));
        }
      }
      assert us[..|nodes|] == us;
    }

    /** main (lines 407-420): one run of the pipeline at `now`. The roll-ups
        run on `now`'s date, the ranking is the current week's. */
    method RunCycle(listing: seq<string>, responses: seq<(string, Status)>, attempts: seq<Attempt>, now: DateTime)
      returns (order: seq<nat>)
      requires Valid() && |attempts| == MaxAttempts
      requires forall k :: 0 <= k < |responses| ==> Registered(Bootstrap(nodes, listing), responses[k].0)
      requires var polled := PolledRegistry(nodes, listing, responses);
        |polled| > 0 && exists i :: 0 <= i < |polled| && Resolved(polled[i])
      requires var reply := ChosenReply(attempts);
        reply.AuctionState? ==>
          SafeToApply(PolledRegistry(nodes, listing, responses), reply.bids,
                      NetworkWeight(reply.validatorWeights), ValidatorKeys(reply.validatorWeights))
      requires ValidDateTime(now) && 1 < Ordinal(now.date) && now.date.year <= 9998
      modifies this
      ensures nodes == AuctionUpdate(PolledRegistry(old(nodes), listing, responses), ChosenReply(attempts))
      ensures scores == old(scores) + IntervalRows(nodes, MaxHeight(nodes), now)
      ensures DayStageDefined(nodes, scores, now.date) && WeekStageDefined(now)
      ensures IsRanking(WeekStage(DayStage(old(scorings), nodes, scores, now.date), nodes, now), WeekOf(now).key, order)
      ensures scorings == CycleScorings(old(scorings), nodes, scores, now, order)
      ensures Valid()
    {
      ghost var polled := PolledRegistry(nodes, listing, responses);
      ghost var i :| 0 <= i < |polled| && Resolved(polled[i]);
      MonitoringScore(listing, responses, attempts, now);
      KeyedNodeHasRows(nodes, old(scores), MaxHeight(nodes), now, i);
      order := ScoringStages(now);
    }

    /** The four scoring stages of main (lines 414-420), in order, on the node
        registry and interval rows monitoring_score left. */
    method ScoringStages(now: DateTime) returns (order: seq<nat>)
      requires Valid() && DayStageDefined(nodes, scores, now.date) && WeekStageDefined(now)
      modifies this
      ensures nodes == old(nodes) && scores == old(scores)
      ensures IsRanking(WeekStage(DayStage(old(scorings), nodes, scores, now.date), nodes, now), WeekOf(now).key, order)
      ensures scorings == CycleScorings(old(scorings), nodes, scores, now, order)
      ensures Valid()
    {
      CalculateDayScoring(now.date);
      CalculateWeekScoring(now);
      order := DetermineEligibleRewards(now);
      CalculateQuarterRewards(now.date);
    }
  }
}
