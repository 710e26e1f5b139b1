/**
 * The three roll-ups of the scoring pipeline: calculate_day_scoring (services.py
 * lines 233-281), calculate_week_scoring (lines 295-337) and
 * calculate_quarter_rewards (lines 356-404), each as the records it writes into
 * the scoring table.
 */
module Rollups {
  import opened Wrappers
  import opened Calendar
  import opened Periods
  import opened Models
  import opened Intervals
  import opened ScoringTable

  /** Five-minute intervals in a whole day. */
  const FullDay := 288
  /** A day scoring below this at the end of a full day resets the longevity. */
  const LongevityThreshold := 90.0
  /** A share of the network weight at or above this percentage is "stake over". */
  const StakeLimit := 6.0
  /** The factor applied to a week's score when the node was over the stake limit. */
  const StakePenalty := 0.9

  // ---------------------------------------------------------------- day

  /** The number of active rows. */
  function CountActive(rows: seq<Score>): (n: nat)
    ensures n <= |rows|
  {
    if |rows| == 0 then 0
    else CountActive(rows[..|rows| - 1]) + (if rows[|rows| - 1].active then 1 else 0)
  }

  /** The positions of the active rows. */
  function ActivePlaces(rows: seq<Score>): set<nat> {
    set k: nat | k < |rows| && rows[k].active
  }

  /** The count is the number of active rows. */
  lemma {:induction false} CountActiveMeaning(rows: seq<Score>)
    ensures CountActive(rows) == |ActivePlaces(rows)|
  {
    if |rows| > 0 {
      var n := |rows| - 1;
      var init := rows[..n];
      CountActiveMeaning(init);
      assert ActivePlaces(init) == set k: nat | k < n && rows[k].active;
      if rows[n].active {
        assert ActivePlaces(rows) == ActivePlaces(init) + {n};
      } else {
        assert ActivePlaces(rows) == ActivePlaces(init);
      }
    }
  }

  /** Some row shows a share at or above the stake limit. */
  predicate StakeOverAny(rows: seq<Score>) {
    exists r | r in rows :: r.percentOfNetwork >= StakeLimit
  }

  /** The largest number of rows any keyed node among the first n has on `day`
      (0 when none of them has a key). */
  function MaxRows(nodes: seq<Node>, scores: seq<Score>, day: Date, n: nat): (m: nat)
    requires n <= |nodes|
    ensures forall i :: 0 <= i < n && Resolved(nodes[i]) ==> |RowsOn(scores, i, day)| <= m
    ensures m == 0 || exists i :: 0 <= i < n && Resolved(nodes[i]) && |RowsOn(scores, i, day)| == m
  {
    if n == 0 then 0
    else
      var m := MaxRows(nodes, scores, day, n - 1);
      var c := |RowsOn(scores, n - 1, day)|;
      if Resolved(nodes[n - 1]) && c > m then c else m
  }

  /** max_scores: the most intervals any keyed node recorded on the day. */
  function MaxIntervals(nodes: seq<Node>, scores: seq<Score>, day: Date): nat {
    MaxRows(nodes, scores, day, |nodes|)
  }

  /** The day stage can run: the day has a predecessor and a four-digit year,
      and max_scores is positive (the source raises on max() of no keyed nodes
      and divides by zero when no keyed node recorded an interval). */
  predicate DayStageDefined(nodes: seq<Node>, scores: seq<Score>, day: Date) {
    ValidDate(day) && 1 < Ordinal(day) && day.year <= 9999 && MaxIntervals(nodes, scores, day) > 0
  }

  /** The key of the day before: previous_day.strftime('%Y.%m.%d'). */
  function PrevDayKey(day: Date): string
    requires ValidDate(day) && 1 < Ordinal(day) && day.year <= 9999
  {
    var p := PrevDay(day);
    YearOrder(p, day);
    FormatDate(p)
  }

  /** The previous day's longevity of node i, or 0 when it has no record. */
  function PrevLongevity(recs: seq<Scoring>, i: nat, day: Date): real
    requires ValidDate(day) && 1 < Ordinal(day) && day.year <= 9999
  {
    match Find(recs, i, Daily, PrevDayKey(day))
    case Some(r) => r.longevity
    case None => 0.0
  }

  /** The day score: the percentage of the day's intervals the node was active. */
  function DayScore(active: nat, maxScores: nat): real
    requires maxScores > 0
  {
    (active as real / maxScores as real) * 100.0
  }

  lemma DayScoreBounds(active: nat, maxScores: nat)
    requires 0 < maxScores && active <= maxScores
    ensures 0.0 <= DayScore(active, maxScores) <= 100.0
    ensures DayScore(active, maxScores) == 100.0 <==> active == maxScores
  {
    var a, m := active as real, maxScores as real;
    var q := a / m;
    assert q * m == a;
    ScaleOrder(q, m);
    assert DayScore(active, maxScores) == q * 100.0;
  }

  /** Scaling a positive m by q keeps q's order against 0 and 1. */
  lemma ScaleOrder(q: real, m: real)
    requires m > 0.0
    ensures q < 0.0 ==> q * m < 0.0
    ensures q < 1.0 ==> q * m < m
    ensures q > 1.0 ==> q * m > m
  {
    if q < 0.0 {
      PositiveProduct(-q, m);
      assert (-q) * m == -(q * m);
    }
    if q < 1.0 {
      PositiveProduct(1.0 - q, m);
      assert (1.0 - q) * m == m - q * m;
    }
    if q > 1.0 {
      PositiveProduct(q - 1.0, m);
      assert (q - 1.0) * m == q * m - m;
    }
  }

  lemma PositiveProduct(x: real, y: real)
    requires x > 0.0 && y > 0.0
    ensures x * y > 0.0
  {
  }

  /** The longevity rule: reset to 0 by a low score at the end of a full day,
      otherwise the previous longevity plus today's score. */
  function DayLongevity(score: real, maxScores: nat, previous: real): real {
    if score < LongevityThreshold && maxScores == FullDay then 0.0 else previous + score
  }

  /** The update of node i, None for a node without a key. */
  function DayUpdate(recs: seq<Scoring>, nodes: seq<Node>, scores: seq<Score>, day: Date, i: nat): Option<Update>
    requires DayStageDefined(nodes, scores, day) && i < |nodes|
  {
    if !Resolved(nodes[i]) then None
    else
      var rows := RowsOn(scores, i, day);
      var maxScores := MaxIntervals(nodes, scores, day);
      var score := DayScore(CountActive(rows), maxScores);
      Some(Update(score, DayLongevity(score, maxScores, PrevLongevity(recs, i, day)), StakeOverAny(rows), None))
  }

  function DayUpdates(recs: seq<Scoring>, nodes: seq<Node>, scores: seq<Score>, day: Date): (us: seq<Option<Update>>)
    requires DayStageDefined(nodes, scores, day)
    ensures |us| == |nodes|
    ensures forall i :: 0 <= i < |us| ==> us[i] == DayUpdate(recs, nodes, scores, day, i)
  {
    seq(|nodes|, i requires 0 <= i < |nodes| => DayUpdate(recs, nodes, scores, day, i))
  }

  /** Of the scoring table, a node's day update reads only its record for the
      previous day. */
  lemma DayUpdateReadsPrevious(a: seq<Scoring>, b: seq<Scoring>, nodes: seq<Node>, scores: seq<Score>, day: Date, i: nat)
    requires DayStageDefined(nodes, scores, day) && i < |nodes|
    requires Find(a, i, Daily, PrevDayKey(day)) == Find(b, i, Daily, PrevDayKey(day))
    ensures DayUpdate(a, nodes, scores, day, i) == DayUpdate(b, nodes, scores, day, i)
  {
    assert PrevLongevity(a, i, day) == PrevLongevity(b, i, day);
  }

  /** The scoring table after the day stage for `day`. */
  function DayStage(recs: seq<Scoring>, nodes: seq<Node>, scores: seq<Score>, day: Date): seq<Scoring>
    requires DayStageDefined(nodes, scores, day)
  {
    UpsertAll(recs, Daily, FormatDate(day), DayUpdates(recs, nodes, scores, day))
  }

  /** Two days have two different keys (the day's key is not the previous day's). */
  lemma DayKeysDiffer(day: Date)
    requires ValidDate(day) && 1 < Ordinal(day) && day.year <= 9999
    ensures PrevDayKey(day) != FormatDate(day)
  {
    var p := PrevDay(day);
    YearOrder(p, day);
    ParseFormat(p);
    ParseFormat(day);
  }

  /** After the day stage every keyed node has today's record: its score is the
      percentage of the day's intervals it was active, between 0 and 100; its
      longevity is reset by a low score at the end of a full day and otherwise
      is yesterday's longevity plus today's score; its stake flag is raised if
      any of today's rows reached the stake limit and is never lowered; its
      eligibility is untouched. */
  lemma DayRecord(recs: seq<Scoring>, nodes: seq<Node>, scores: seq<Score>, day: Date, i: nat)
    requires DayStageDefined(nodes, scores, day) && i < |nodes| && Resolved(nodes[i])
    ensures var f := Find(DayStage(recs, nodes, scores, day), i, Daily, FormatDate(day));
      var before := Existing(recs, i, Daily, FormatDate(day));
      var rows := RowsOn(scores, i, day);
      f.Some?
      && 0.0 <= f.value.score <= 100.0
      && f.value.score == DayScore(CountActive(rows), MaxIntervals(nodes, scores, day))
      && (f.value.score < LongevityThreshold && MaxIntervals(nodes, scores, day) == FullDay ==> f.value.longevity == 0.0)
      && (f.value.score >= LongevityThreshold || MaxIntervals(nodes, scores, day) != FullDay ==>
            f.value.longevity == PrevLongevity(recs, i, day) + f.value.score)
      && f.value.stakeOver == (before.stakeOver || StakeOverAny(rows))
      && f.value.eligible == before.eligible
  {
    var rows := RowsOn(scores, i, day);
    var m := MaxIntervals(nodes, scores, day);
    assert CountActive(rows) <= |rows| <= m;
    DayScoreBounds(CountActive(rows), m);
    UpsertAllFind(recs, Daily, FormatDate(day), DayUpdates(recs, nodes, scores, day), i, Daily, FormatDate(day));
  }

  /** A node without a key gets no day record, and records of other days and
      other types are untouched. */
  lemma DayStageLeavesRest(recs: seq<Scoring>, nodes: seq<Node>, scores: seq<Score>, day: Date,
                           node: nat, kind: Kind, period: string)
    requires DayStageDefined(nodes, scores, day)
    requires kind != Daily || period != FormatDate(day) || node >= |nodes| || !Resolved(nodes[node])
    ensures Find(DayStage(recs, nodes, scores, day), node, kind, period) == Find(recs, node, kind, period)
  {
    UpsertAllFind(recs, Daily, FormatDate(day), DayUpdates(recs, nodes, scores, day), node, kind, period);
  }

  /** Running the day stage twice on the same intervals gives the table one run
      gives. */
  lemma DayStageIdempotent(recs: seq<Scoring>, nodes: seq<Node>, scores: seq<Score>, day: Date)
    requires DayStageDefined(nodes, scores, day)
    ensures var once := DayStage(recs, nodes, scores, day);
      DayStage(once, nodes, scores, day) == once
  {
    var once := DayStage(recs, nodes, scores, day);
    forall i | 0 <= i < |nodes|
      ensures PrevLongevity(once, i, day) == PrevLongevity(recs, i, day)
    {
      DayKeysDiffer(day);
      DayStageLeavesRest(recs, nodes, scores, day, i, Daily, PrevDayKey(day));
    }
    assert DayUpdates(once, nodes, scores, day) == DayUpdates(recs, nodes, scores, day);
    UpsertAllIdempotent(recs, Daily, FormatDate(day), DayUpdates(recs, nodes, scores, day));
  }

  // ---------------------------------------------------------------- week

  /** What the loop over a node's records accumulates: the summed score, whether
      any counted record was over the stake limit, the ordinal of the latest
      counted date (starting from 0001-01-01, the ordinal of datetime.min) and
      the longevity of the record with that date. */
  datatype Tally = Tally(score: real, stakeOver: bool, latest: int, longevity: real)

  const NoTally := Tally(0.0, false, 1, 0.0)

  /** A counted record with date ordinal o adds its score, may raise the stake
      flag, and replaces the longevity when it is strictly later than the latest
      date so far. */
  function Count(t: Tally, o: int, score: real, stakeOver: bool, longevity: real): Tally {
    Tally(t.score + score, t.stakeOver || stakeOver,
          if o > t.latest then o else t.latest,
          if o > t.latest then longevity else t.longevity)
  }

  /** A day record whose date lies in the week window. */
  predicate DayIn(w: Week, r: Scoring)
    requires ValidDate(w.start.date) && ValidDate(w.end.date)
  {
    var d := ParseDate(r.period);
    d.Some? && InWeek(w, d.value)
  }

  function DayOrdinal(r: Scoring): int
    requires ParseDate(r.period).Some?
  {
    Ordinal(ParseDate(r.period).value)
  }

  /** The week loop over one node's day records, taken in order. */
  function WeekTally(days: seq<Scoring>, w: Week): Tally
    requires ValidDate(w.start.date) && ValidDate(w.end.date)
  {
    if |days| == 0 then NoTally
    else
      var r := days[|days| - 1];
      var t := WeekTally(days[..|days| - 1], w);
      if !DayIn(w, r) then t
      else Count(t, DayOrdinal(r), r.score, r.stakeOver, r.longevity)
  }

  /** What the week loop finds: the score is the sum over the days in the
      window; the stake flag is raised exactly when a day in
      the window had it; the latest date is the latest day in the window (or the
      starting point), and the longevity is that day's. */
  lemma {:induction false} WeekTallyMeaning(days: seq<Scoring>, w: Week)
    requires ValidDate(w.start.date) && ValidDate(w.end.date)
    ensures var t := WeekTally(days, w);
      t.score == WindowSum(days, w)
      && (t.stakeOver <==> exists r | r in days :: DayIn(w, r) && r.stakeOver)
      && t.latest >= 1
      && (forall r | r in days && DayIn(w, r) :: DayOrdinal(r) <= t.latest)
      && ((t.latest == 1 && t.longevity == 0.0)
          || exists r | r in days && DayIn(w, r) :: DayOrdinal(r) == t.latest && t.longevity == r.longevity)
  {
    WeekTallySum(days, w);
    if |days| > 0 {
      var init := days[..|days| - 1];
      WeekTallyMeaning(init, w);
      assert forall x :: x in days <==> x in init || x == days[|days| - 1];
    }
  }

  /** The summed scores of the day records in the window. */
  function WindowSum(days: seq<Scoring>, w: Week): real
    requires ValidDate(w.start.date) && ValidDate(w.end.date)
  {
    if |days| == 0 then 0.0
    else (if DayIn(w, days[0]) then days[0].score else 0.0) + WindowSum(days[1..], w)
  }

  lemma {:induction false} WindowSumSnoc(days: seq<Scoring>, x: Scoring, w: Week)
    requires ValidDate(w.start.date) && ValidDate(w.end.date)
    ensures WindowSum(days + [x], w) == WindowSum(days, w) + (if DayIn(w, x) then x.score else 0.0)
  {
    if |days| > 0 {
      assert (days + [x])[1..] == days[1..] + [x];
      WindowSumSnoc(days[1..], x, w);
    }
  }

  /** The week loop's score is the sum of the scores of the day records in the
      window. */
  lemma {:induction false} WeekTallySum(days: seq<Scoring>, w: Week)
    requires ValidDate(w.start.date) && ValidDate(w.end.date)
    ensures WeekTally(days, w).score == WindowSum(days, w)
  {
    if |days| > 0 {
      var init := days[..|days| - 1];
      WeekTallySum(init, w);
      WindowSumSnoc(init, days[|days| - 1], w);
      assert init + [days[|days| - 1]] == days;
    }
  }

  /** One turn of the week loop, on a prefix of the node's day records. */
  lemma WeekTallySnoc(days: seq<Scoring>, j: nat, w: Week)
    requires ValidDate(w.start.date) && ValidDate(w.end.date) && j < |days|
    ensures WeekTally(days[..j + 1], w) ==
      if DayIn(w, days[j])
      then Count(WeekTally(days[..j], w), DayOrdinal(days[j]), days[j].score, days[j].stakeOver, days[j].longevity)
      else WeekTally(days[..j], w)
  {
    assert days[..j + 1][..j] == days[..j];
  }

  /** The week score: the summed day scores over seven days, cut by the stake
      penalty when the node was over the stake limit. */
  function WeekScore(t: Tally): real {
    var score := t.score / 7.0;
    if t.stakeOver then score * StakePenalty else score
  }

  function WeekUpdate(t: Tally): Update {
    Update(WeekScore(t), t.longevity, t.stakeOver, None)
  }

  /** A penalised week scores nine tenths of the plain average; a week without
      the penalty scores the plain average. */
  lemma WeekPenalty(t: Tally)
    ensures t.stakeOver ==> WeekScore(t) == 0.9 * (t.score / 7.0)
    ensures !t.stakeOver ==> WeekScore(t) * 7.0 == t.score
    ensures 0.0 <= t.score ==> 0.0 <= WeekScore(t) <= t.score / 7.0
  {
  }

  predicate WeekStageDefined(now: DateTime) {
    ValidDateTime(now) && now.date.year <= 9998
  }

  function WeekUpdates(recs: seq<Scoring>, nodes: seq<Node>, w: Week): (us: seq<Option<Update>>)
    requires ValidDate(w.start.date) && ValidDate(w.end.date)
    ensures |us| == |nodes|
    ensures forall i :: 0 <= i < |nodes| ==>
      us[i] == if Resolved(nodes[i]) then Some(WeekUpdate(WeekTally(Select(recs, i, Daily), w))) else None
  {
    seq(|nodes|, i requires 0 <= i < |nodes| =>
      if Resolved(nodes[i]) then Some(WeekUpdate(WeekTally(Select(recs, i, Daily), w))) else None)
  }

  /** The scoring table after the week stage run at `now`. */
  function WeekStage(recs: seq<Scoring>, nodes: seq<Node>, now: DateTime): seq<Scoring>
    requires WeekStageDefined(now)
  {
    var w := WeekOf(now);
    UpsertAll(recs, Weekly, w.key, WeekUpdates(recs, nodes, w))
  }

  /** After the week stage every keyed node has the current week's record, with
      the week score of its day records in the window, the longevity of its
      latest such day, and a stake flag raised when any such day had it. */
  lemma WeekRecord(recs: seq<Scoring>, nodes: seq<Node>, now: DateTime, i: nat)
    requires WeekStageDefined(now) && i < |nodes| && Resolved(nodes[i])
    ensures var w := WeekOf(now);
      var f := Find(WeekStage(recs, nodes, now), i, Weekly, w.key);
      var t := WeekTally(Select(recs, i, Daily), w);
      var before := Existing(recs, i, Weekly, w.key);
      f.Some? && f.value.score == WeekScore(t) && f.value.longevity == t.longevity
      && f.value.stakeOver == (before.stakeOver || t.stakeOver) && f.value.eligible == before.eligible
  {
    var w := WeekOf(now);
    UpsertAllFind(recs, Weekly, w.key, WeekUpdates(recs, nodes, w), i, Weekly, w.key);
  }

  /** The week updates read nothing but each node's day records. */
  lemma WeekUpdatesReadDays(a: seq<Scoring>, b: seq<Scoring>, nodes: seq<Node>, w: Week)
    requires ValidDate(w.start.date) && ValidDate(w.end.date)
    requires forall i: nat :: i < |nodes| ==> Select(a, i, Daily) == Select(b, i, Daily)
    ensures WeekUpdates(a, nodes, w) == WeekUpdates(b, nodes, w)
  {
    var ua := WeekUpdates(a, nodes, w);
    var ub := WeekUpdates(b, nodes, w);
    forall i | 0 <= i < |nodes|
      ensures ua[i] == ub[i]
    {
      assert Select(a, i, Daily) == Select(b, i, Daily);
    }
  }

  /** The week stage changes no day record, so running it again reads the same
      days and gives the table one run gives. */
  lemma WeekStageIdempotent(recs: seq<Scoring>, nodes: seq<Node>, now: DateTime)
    requires WeekStageDefined(now)
    ensures var once := WeekStage(recs, nodes, now);
      (forall i: nat :: Select(once, i, Daily) == Select(recs, i, Daily))
      && WeekStage(once, nodes, now) == once
  {
    var w := WeekOf(now);
    var us := WeekUpdates(recs, nodes, w);
    var once := WeekStage(recs, nodes, now);
    forall i: nat
      ensures Select(once, i, Daily) == Select(recs, i, Daily)
    {
      UpsertAllKeepsOtherKinds(recs, Weekly, w.key, us, i, Daily);
    }
    WeekUpdatesReadDays(once, recs, nodes, w);
    UpsertAllIdempotent(recs, Weekly, w.key, us);
  }

  // ---------------------------------------------------------------- quarter

  /** A week record whose two dates both lie in the quarter. */
  predicate WeekIn(q: Quarter, r: Scoring)
    requires ValidDate(q.start) && ValidDate(q.end)
  {
    var k := ParseWeekKey(r.period);
    k.Some? && ValidDate(k.value.0) && ValidDate(k.value.1) && WeekInQuarter(q, k.value.0, k.value.1)
  }

  function WeekStartOrdinal(r: Scoring): int
    requires ParseWeekKey(r.period).Some? && ValidDate(ParseWeekKey(r.period).value.0)
  {
    Ordinal(ParseWeekKey(r.period).value.0)
  }

  /** The quarter loop over one node's week records, taken in the order given. */
  function QuarterTally(weeks: seq<Scoring>, q: Quarter): Tally
    requires ValidDate(q.start) && ValidDate(q.end)
  {
    if |weeks| == 0 then NoTally
    else
      var r := weeks[|weeks| - 1];
      var t := QuarterTally(weeks[..|weeks| - 1], q);
      if !WeekIn(q, r) then t
      else Count(t, WeekStartOrdinal(r), if r.eligible then r.score else 0.0, r.stakeOver, r.longevity)
  }

  /** What one week record adds to the quarter score. */
  function QuarterShare(q: Quarter, r: Scoring): real
    requires ValidDate(q.start) && ValidDate(q.end)
  {
    if WeekIn(q, r) && r.eligible then r.score else 0.0
  }

  /** The summed scores of the eligible week records inside the quarter. */
  function EligibleSum(weeks: seq<Scoring>, q: Quarter): real
    requires ValidDate(q.start) && ValidDate(q.end)
  {
    if |weeks| == 0 then 0.0 else QuarterShare(q, weeks[0]) + EligibleSum(weeks[1..], q)
  }

  lemma {:induction false} EligibleSumSnoc(weeks: seq<Scoring>, x: Scoring, q: Quarter)
    requires ValidDate(q.start) && ValidDate(q.end)
    ensures EligibleSum(weeks + [x], q) == EligibleSum(weeks, q) + QuarterShare(q, x)
  {
    if |weeks| > 0 {
      assert (weeks + [x])[1..] == weeks[1..] + [x];
      EligibleSumSnoc(weeks[1..], x, q);
    }
  }

  lemma {:induction false} EligibleSumInsert(r: Scoring, weeks: seq<Scoring>, q: Quarter)
    requires ValidDate(q.start) && ValidDate(q.end)
    ensures EligibleSum(InsertByRank(r, weeks), q) == EligibleSum(weeks, q) + QuarterShare(q, r)
  {
    if |weeks| > 0 && !RanksAbove(r, weeks[0]) {
      EligibleSumInsert(r, weeks[1..], q);
    }
  }

  /** The order the records are read in does not change the sum. */
  lemma {:induction false} EligibleSumByRank(weeks: seq<Scoring>, q: Quarter)
    requires ValidDate(q.start) && ValidDate(q.end)
    ensures EligibleSum(ByRank(weeks), q) == EligibleSum(weeks, q)
  {
    if |weeks| > 0 {
      var init, x := weeks[..|weeks| - 1], weeks[|weeks| - 1];
      EligibleSumByRank(init, q);
      EligibleSumInsert(x, ByRank(init), q);
      EligibleSumSnoc(init, x, q);
      assert init + [x] == weeks;
    }
  }

  /** The quarter loop's score is the sum of the eligible weeks inside the quarter. */
  lemma {:induction false} QuarterTallySum(weeks: seq<Scoring>, q: Quarter)
    requires ValidDate(q.start) && ValidDate(q.end)
    ensures QuarterTally(weeks, q).score == EligibleSum(weeks, q)
  {
    if |weeks| > 0 {
      var init := weeks[..|weeks| - 1];
      QuarterTallySum(init, q);
      EligibleSumSnoc(init, weeks[|weeks| - 1], q);
      assert init + [weeks[|weeks| - 1]] == weeks;
    }
  }

  /** The quarter score is 0 when no week in the quarter was eligible, and not
      negative when no week score is. */
  lemma {:induction false} QuarterTallyScore(weeks: seq<Scoring>, q: Quarter)
    requires ValidDate(q.start) && ValidDate(q.end)
    ensures var t := QuarterTally(weeks, q);
      ((forall r | r in weeks && WeekIn(q, r) :: !r.eligible) ==> t.score == 0.0)
      && ((forall r | r in weeks && WeekIn(q, r) :: 0.0 <= r.score) ==> 0.0 <= t.score)
  {
    if |weeks| > 0 {
      var init := weeks[..|weeks| - 1];
      QuarterTallyScore(init, q);
      assert forall x | x in init :: x in weeks;
    }
  }

  /** The quarter tally's stake flag is raised exactly by a week in the quarter. */
  lemma {:induction false} QuarterTallyStake(weeks: seq<Scoring>, q: Quarter)
    requires ValidDate(q.start) && ValidDate(q.end)
    ensures QuarterTally(weeks, q).stakeOver <==> exists r | r in weeks :: WeekIn(q, r) && r.stakeOver
  {
    if |weeks| > 0 {
      var init := weeks[..|weeks| - 1];
      QuarterTallyStake(init, q);
      assert forall x :: x in weeks <==> x in init || x == weeks[|weeks| - 1];
    }
  }

  /** The latest week of the quarter tally and its longevity. */
  lemma {:induction false} QuarterTallyLatest(weeks: seq<Scoring>, q: Quarter)
    requires ValidDate(q.start) && ValidDate(q.end)
    ensures var t := QuarterTally(weeks, q);
      t.latest >= 1
      && (forall r | r in weeks && WeekIn(q, r) :: WeekStartOrdinal(r) <= t.latest)
      && ((t.latest == 1 && t.longevity == 0.0)
          || exists r | r in weeks && WeekIn(q, r) :: WeekStartOrdinal(r) == t.latest && t.longevity == r.longevity)
  {
    if |weeks| > 0 {
      var init := weeks[..|weeks| - 1];
      var r := weeks[|weeks| - 1];
      var t0 := QuarterTally(init, q);
      QuarterTallyLatest(init, q);
      assert forall x :: x in weeks <==> x in init || x == r;
      if WeekIn(q, r) {
        var o := WeekStartOrdinal(r);
        var t := Count(t0, o, if r.eligible then r.score else 0.0, r.stakeOver, r.longevity);
        assert QuarterTally(weeks, q) == t;
        if o > t0.latest {
          assert t.latest == o && t.longevity == r.longevity;
        } else {
          assert t.latest == t0.latest && t.longevity == t0.longevity;
        }
      } else {
        assert QuarterTally(weeks, q) == t0;
      }
    }
  }

  /** r is, of the records in the quarter starting on day ordinal `latest`, one
      that none of the others ranks above. */
  predicate BestStartingOn(weeks: seq<Scoring>, q: Quarter, latest: int, r: Scoring)
    requires ValidDate(q.start) && ValidDate(q.end)
  {
    r in weeks && WeekIn(q, r) && WeekStartOrdinal(r) == latest
    && forall x | x in weeks && WeekIn(q, x) && WeekStartOrdinal(x) == latest :: !RanksAbove(x, r)
  }

  /** A week in the quarter starting after every other one is the best of those
      starting on its day. */
  lemma BestNewLatest(init: seq<Scoring>, x: Scoring, q: Quarter, before: int)
    requires ValidDate(q.start) && ValidDate(q.end) && WeekIn(q, x) && WeekStartOrdinal(x) > before
    requires forall r | r in init && WeekIn(q, r) :: WeekStartOrdinal(r) <= before
    ensures BestStartingOn(init + [x], q, WeekStartOrdinal(x), x)
  {
    assert forall y :: y in init + [x] <==> y in init || y == x;
  }

  /** A later record that does not rank above the best keeps it the best. */
  lemma BestKept(init: seq<Scoring>, x: Scoring, q: Quarter, latest: int, r: Scoring)
    requires ValidDate(q.start) && ValidDate(q.end)
    requires BestStartingOn(init, q, latest, r) && !RanksAbove(x, r)
    ensures BestStartingOn(init + [x], q, latest, r)
  {
    assert forall y :: y in init + [x] <==> y in init || y == x;
  }

  /** Read best first, the loop's strict "later start" test keeps the longevity
      of the best-ranked week among those starting latest. */
  lemma {:induction false} QuarterTallyBest(weeks: seq<Scoring>, q: Quarter)
    requires ValidDate(q.start) && ValidDate(q.end) && RankSorted(weeks)
    ensures var t := QuarterTally(weeks, q);
      (t.latest == 1 && t.longevity == 0.0)
      || exists r :: BestStartingOn(weeks, q, t.latest, r) && t.longevity == r.longevity
  {
    if |weeks| > 0 {
      var n := |weeks| - 1;
      var init, x := weeks[..n], weeks[n];
      assert weeks == init + [x];
      SortedPrefix(weeks, n);
      QuarterTallyBest(init, q);
      QuarterTallyLatest(init, q);
      var t0 := QuarterTally(init, q);
      if WeekIn(q, x) && WeekStartOrdinal(x) > t0.latest {
        BestNewLatest(init, x, q, t0.latest);
      } else if t0.latest != 1 || t0.longevity != 0.0 {
        var r :| BestStartingOn(init, q, t0.latest, r) && t0.longevity == r.longevity;
        var a :| 0 <= a < n && init[a] == r;
        assert weeks[a] == r;
        BestKept(init, x, q, t0.latest, r);
      }
    }
  }

  lemma SortedPrefix(weeks: seq<Scoring>, n: nat)
    requires RankSorted(weeks) && n <= |weeks|
    ensures RankSorted(weeks[..n])
  {
    var init := weeks[..n];
    forall a, b | 0 <= a < b < n ensures !RanksAbove(init[b], init[a]) {
      assert init[a] == weeks[a] && init[b] == weeks[b];
    }
  }

  /** Records that neither ranks above the other carry the same longevity, so
      the longevity BestStartingOn picks does not depend on the database's order
      among equally ranked records. */
  lemma BestStartingOnUnique(weeks: seq<Scoring>, q: Quarter, latest: int, r1: Scoring, r2: Scoring)
    requires ValidDate(q.start) && ValidDate(q.end)
    requires BestStartingOn(weeks, q, latest, r1) && BestStartingOn(weeks, q, latest, r2)
    ensures r1.longevity == r2.longevity && r1.score == r2.score
  {
    RankingIsStrictWeakOrder(r1, r2, r2);
  }

  /** Reading the same records in another order picks from the same records. */
  lemma BestStartingOnSameRecords(a: seq<Scoring>, b: seq<Scoring>, q: Quarter, latest: int, r: Scoring)
    requires ValidDate(q.start) && ValidDate(q.end)
    requires forall x :: x in a <==> x in b
    ensures BestStartingOn(a, q, latest, r) <==> BestStartingOn(b, q, latest, r)
  {
  }

  /** What the quarter loop finds over a node's week records, read best first
      as Scoring.Meta.ordering returns them: the score is the sum of the eligible
      weeks inside the quarter; the stake flag is raised exactly when a week in
      the quarter had it; the longevity is that of the best-ranked week among
      those starting latest (0 when no week in the quarter starts after
      0001-01-01). */
  lemma QuarterTallyMeaning(weeks: seq<Scoring>, q: Quarter)
    requires ValidDate(q.start) && ValidDate(q.end)
    ensures var t := QuarterTally(ByRank(weeks), q);
      t.score == EligibleSum(weeks, q)
      && ((forall r | r in weeks && WeekIn(q, r) :: !r.eligible) ==> t.score == 0.0)
      && (t.stakeOver <==> exists r | r in weeks :: WeekIn(q, r) && r.stakeOver)
      && t.latest >= 1
      && (forall r | r in weeks && WeekIn(q, r) :: WeekStartOrdinal(r) <= t.latest)
      && ((t.latest == 1 && t.longevity == 0.0)
          || exists r :: BestStartingOn(weeks, q, t.latest, r) && t.longevity == r.longevity)
  {
    var ordered := ByRank(weeks);
    ByRankMeaning(weeks);
    ByRankMembers(weeks);
    QuarterTallySum(ordered, q);
    EligibleSumByRank(weeks, q);
    QuarterTallyScore(ordered, q);
    QuarterTallyStake(ordered, q);
    QuarterTallyLatest(ordered, q);
    QuarterTallyBest(ordered, q);
    var t := QuarterTally(ordered, q);
    if t.latest != 1 || t.longevity != 0.0 {
      var r :| BestStartingOn(ordered, q, t.latest, r) && t.longevity == r.longevity;
      BestStartingOnSameRecords(ordered, weeks, q, t.latest, r);
    }
  }

  /** One turn of the quarter loop, on a prefix of the node's week records. */
  lemma QuarterTallySnoc(weeks: seq<Scoring>, j: nat, q: Quarter)
    requires ValidDate(q.start) && ValidDate(q.end) && j < |weeks|
    ensures QuarterTally(weeks[..j + 1], q) ==
      if WeekIn(q, weeks[j])
      then Count(QuarterTally(weeks[..j], q), WeekStartOrdinal(weeks[j]),
                 if weeks[j].eligible then weeks[j].score else 0.0, weeks[j].stakeOver, weeks[j].longevity)
      else QuarterTally(weeks[..j], q)
  {
    assert weeks[..j + 1][..j] == weeks[..j];
  }

  /** The quarter record's assignments: eligible exactly when the score is not 0. */
  function QuarterUpdate(t: Tally): Update {
    Update(t.score, t.longevity, t.stakeOver, Some(t.score != 0.0))
  }

  predicate QuarterStageDefined(today: Date) {
    ValidDate(today) && today.year <= 9999
  }

  function QuarterUpdates(recs: seq<Scoring>, nodes: seq<Node>, q: Quarter): (us: seq<Option<Update>>)
    requires ValidDate(q.start) && ValidDate(q.end)
    ensures |us| == |nodes|
    ensures forall i :: 0 <= i < |nodes| ==>
      us[i] == if Resolved(nodes[i]) then Some(QuarterUpdate(QuarterTally(ByRank(Select(recs, i, Weekly)), q))) else None
  {
    seq(|nodes|, i requires 0 <= i < |nodes| =>
      if Resolved(nodes[i]) then Some(QuarterUpdate(QuarterTally(ByRank(Select(recs, i, Weekly)), q))) else None)
  }

  /** The scoring table after the quarter stage run on `today`. */
  function QuarterStage(recs: seq<Scoring>, nodes: seq<Node>, today: Date): seq<Scoring>
    requires QuarterStageDefined(today)
  {
    var q := QuarterOf(today);
    UpsertAll(recs, Quarterly, q.key, QuarterUpdates(recs, nodes, q))
  }

  /** After the quarter stage every keyed node has the current quarter's record:
      its score sums its eligible weeks in the quarter, it is eligible exactly
      when that score is not zero (so a node never eligible in the quarter's
      weeks is not eligible for the quarter), its longevity is that of the
      best-ranked of its weeks starting latest in the quarter, and its stake
      flag is raised when a week in the quarter had it and never lowered. */
  lemma QuarterRecord(recs: seq<Scoring>, nodes: seq<Node>, today: Date, i: nat)
    requires QuarterStageDefined(today) && i < |nodes| && Resolved(nodes[i])
    ensures var q := QuarterOf(today);
      var f := Find(QuarterStage(recs, nodes, today), i, Quarterly, q.key);
      var weeks := Select(recs, i, Weekly);
      var t := QuarterTally(ByRank(weeks), q);
      f.Some? && f.value.score == EligibleSum(weeks, q)
      && (f.value.eligible <==> f.value.score != 0.0)
      && ((forall r | r in weeks && WeekIn(q, r) :: !r.eligible) ==> !f.value.eligible)
      && ((t.latest == 1 && f.value.longevity == 0.0)
          || exists r :: BestStartingOn(weeks, q, t.latest, r) && f.value.longevity == r.longevity)
      && f.value.stakeOver == (Existing(recs, i, Quarterly, q.key).stakeOver
                               || exists r | r in weeks :: WeekIn(q, r) && r.stakeOver)
  {
    var q := QuarterOf(today);
    QuarterTallyMeaning(Select(recs, i, Weekly), q);
    UpsertAllFind(recs, Quarterly, q.key, QuarterUpdates(recs, nodes, q), i, Quarterly, q.key);
  }

  /** The quarter stage changes no week record, and running it again gives the
      table one run gives. */
  lemma QuarterStageIdempotent(recs: seq<Scoring>, nodes: seq<Node>, today: Date)
    requires QuarterStageDefined(today)
    ensures var once := QuarterStage(recs, nodes, today);
      (forall i: nat :: Select(once, i, Weekly) == Select(recs, i, Weekly))
      && QuarterStage(once, nodes, today) == once
  {
    var q := QuarterOf(today);
    var us := QuarterUpdates(recs, nodes, q);
    var once := QuarterStage(recs, nodes, today);
    forall i: nat
      ensures Select(once, i, Weekly) == Select(recs, i, Weekly)
    {
      UpsertAllKeepsOtherKinds(recs, Quarterly, q.key, us, i, Weekly);
    }
    assert QuarterUpdates(once, nodes, q) == us;
    UpsertAllIdempotent(recs, Quarterly, q.key, us);
  }
}
