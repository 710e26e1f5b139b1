/**
 * The scoring table as the three stages use it: a record is identified by its
 * node, its type and its period key, and get_or_create followed by field
 * assignments either updates the one record with that identity or appends a
 * new one with the defaults.
 */
module ScoringTable {
  import opened Wrappers
  import opened Models
  import opened Calendar
  import opened Periods

  /** The assignments a stage makes to a record: score and longevity are always
      written, the stake flag is only ever raised, and the eligibility flag is
      written only by the stages that decide it. */
  datatype Update = Update(score: real, longevity: real, stakeOver: bool, eligible: Option<bool>)

  predicate HasKey(r: Scoring, node: nat, kind: Kind, period: string) {
    r.node == node && r.kind == kind && r.period == period
  }

  predicate SameKey(a: Scoring, b: Scoring) {
    HasKey(a, b.node, b.kind, b.period)
  }

  /** No two records share node, type and period key. */
  predicate UniqueKeys(recs: seq<Scoring>) {
    forall i, j :: 0 <= i < j < |recs| ==> !SameKey(recs[i], recs[j])
  }

  /** The position of the first record with this identity, or |recs|. */
  function IndexOfKey(recs: seq<Scoring>, node: nat, kind: Kind, period: string): (k: nat)
    ensures k <= |recs|
    ensures k < |recs| ==> HasKey(recs[k], node, kind, period)
    ensures forall j :: 0 <= j < k ==> !HasKey(recs[j], node, kind, period)
  {
    if |recs| == 0 then 0
    else if HasKey(recs[0], node, kind, period) then 0
    else 1 + IndexOfKey(recs[1..], node, kind, period)
  }

  /** IndexOfKey is characterised by its postconditions. */
  lemma IndexOfKeyIs(recs: seq<Scoring>, node: nat, kind: Kind, period: string, k: nat)
    requires k <= |recs|
    requires k < |recs| ==> HasKey(recs[k], node, kind, period)
    requires forall j :: 0 <= j < k ==> !HasKey(recs[j], node, kind, period)
    ensures IndexOfKey(recs, node, kind, period) == k
  {
  }

  /** Scoring.objects.filter(node=..., type=..., timestamp=...): the record with
      this identity, if there is one. */
  function Find(recs: seq<Scoring>, node: nat, kind: Kind, period: string): (r: Option<Scoring>)
    ensures r.Some? <==> exists j :: 0 <= j < |recs| && HasKey(recs[j], node, kind, period)
    ensures r.Some? ==> r.value in recs && HasKey(r.value, node, kind, period)
  {
    var k := IndexOfKey(recs, node, kind, period);
    if k < |recs| then Some(recs[k]) else None
  }

  /** Tables whose records have the same identities, position by position,
      hold the same identities. */
  lemma FindKeysKept(a: seq<Scoring>, b: seq<Scoring>, node: nat, kind: Kind, period: string)
    requires |a| == |b| && forall j :: 0 <= j < |a| ==> SameKey(b[j], a[j])
    ensures Find(b, node, kind, period).Some? == Find(a, node, kind, period).Some?
  {
    if Find(a, node, kind, period).Some? {
      var j :| 0 <= j < |a| && HasKey(a[j], node, kind, period);
      assert HasKey(b[j], node, kind, period);
    }
    if Find(b, node, kind, period).Some? {
      var j :| 0 <= j < |b| && HasKey(b[j], node, kind, period);
      assert HasKey(a[j], node, kind, period);
    }
  }

  /** The record get_or_create hands back: the existing one, or a new one with
      the defaults. */
  function Existing(recs: seq<Scoring>, node: nat, kind: Kind, period: string): Scoring {
    match Find(recs, node, kind, period)
    case Some(r) => r
    case None => NewScoring(node, period, kind)
  }

  /** The assignments applied to a record; its identity is kept. */
  function Apply(r: Scoring, u: Update): (r': Scoring)
    ensures SameKey(r', r)
  {
    r.(score := u.score, longevity := u.longevity,
       stakeOver := r.stakeOver || u.stakeOver,
       eligible := if u.eligible.Some? then u.eligible.value else r.eligible)
  }

  /** Applying the same assignments twice is applying them once. */
  lemma ApplyTwice(r: Scoring, u: Update)
    ensures Apply(Apply(r, u), u) == Apply(r, u)
  {
  }

  /** get_or_create, the assignments, save(). */
  function Upsert(recs: seq<Scoring>, node: nat, kind: Kind, period: string, u: Update): (r: seq<Scoring>)
    ensures |recs| <= |r| <= |recs| + 1
    ensures UniqueKeys(recs) ==> UniqueKeys(r)
    ensures forall j :: 0 <= j < |recs| ==> SameKey(r[j], recs[j])
    ensures forall j :: |recs| <= j < |r| ==> HasKey(r[j], node, kind, period)
    ensures forall j :: 0 <= j < |recs| && !HasKey(recs[j], node, kind, period) ==> r[j] == recs[j]
  {
    var k := IndexOfKey(recs, node, kind, period);
    if k < |recs| then recs[k := Apply(recs[k], u)]
    else recs + [Apply(NewScoring(node, period, kind), u)]
  }

  /** Every record references one of the n node rows, and every day and week
      key reads back as dates. */
  predicate WellFormed(recs: seq<Scoring>, n: nat) {
    forall j :: 0 <= j < |recs| ==> recs[j].node < n && PeriodReadable(recs[j].kind, recs[j].period)
  }

  predicate PeriodReadable(kind: Kind, period: string) {
    (kind == Daily ==> ParseDate(period).Some?) && (kind == Weekly ==> ParseWeekKey(period).Some?)
  }

  lemma UpsertWellFormed(recs: seq<Scoring>, node: nat, kind: Kind, period: string, u: Update, n: nat)
    requires WellFormed(recs, n) && node < n && PeriodReadable(kind, period)
    ensures WellFormed(Upsert(recs, node, kind, period, u), n)
  {
    var r := Upsert(recs, node, kind, period, u);
    forall j | 0 <= j < |r|
      ensures r[j].node < n && PeriodReadable(r[j].kind, r[j].period)
    {
      if j < |recs| {
        assert SameKey(r[j], recs[j]);
      }
    }
  }

  /** After the upsert, the record with that identity is the old (or default)
      record with the assignments applied, and every other identity finds what
      it found before. */
  lemma UpsertFind(recs: seq<Scoring>, node: nat, kind: Kind, period: string, u: Update,
                   node': nat, kind': Kind, period': string)
    ensures Find(Upsert(recs, node, kind, period, u), node', kind', period') ==
      if node' == node && kind' == kind && period' == period
      then Some(Apply(Existing(recs, node, kind, period), u))
      else Find(recs, node', kind', period')
  {
    if node' == node && kind' == kind && period' == period {
      UpsertFindSame(recs, node, kind, period, u);
    } else {
      UpsertFindOther(recs, node, kind, period, u, node', kind', period');
    }
  }

  /** The upserted identity finds the old (or default) record with the assignments applied. */
  lemma UpsertFindSame(recs: seq<Scoring>, node: nat, kind: Kind, period: string, u: Update)
    ensures Find(Upsert(recs, node, kind, period, u), node, kind, period) ==
      Some(Apply(Existing(recs, node, kind, period), u))
  {
    IndexOfKeyIs(Upsert(recs, node, kind, period, u), node, kind, period, IndexOfKey(recs, node, kind, period));
  }

  /** Every other identity finds what it found before the upsert. */
  lemma UpsertFindOther(recs: seq<Scoring>, node: nat, kind: Kind, period: string, u: Update,
                        node': nat, kind': Kind, period': string)
    requires node' != node || kind' != kind || period' != period
    ensures Find(Upsert(recs, node, kind, period, u), node', kind', period') == Find(recs, node', kind', period')
  {
    var r := Upsert(recs, node, kind, period, u);
    var k' := IndexOfKey(recs, node', kind', period');
    if k' < |recs| {
      IndexOfKeyIs(r, node', kind', period', k');
    } else {
      IndexOfKeyIs(r, node', kind', period', |r|);
    }
  }

  /** One stage's upserts with period key `period` and type `kind`: the node at
      position i gets update us[i], or is skipped when us[i] is None (a node
      without a key). */
  function UpsertAll(recs: seq<Scoring>, kind: Kind, period: string, us: seq<Option<Update>>): (r: seq<Scoring>)
    ensures |r| >= |recs|
    ensures UniqueKeys(recs) ==> UniqueKeys(r)
    ensures forall j :: 0 <= j < |recs| ==> SameKey(r[j], recs[j])
    ensures forall j :: |recs| <= j < |r| ==> r[j].kind == kind && r[j].period == period && r[j].node < |us|
    ensures forall j :: 0 <= j < |recs| && (recs[j].kind != kind || recs[j].period != period) ==> r[j] == recs[j]
  {
    if |us| == 0 then recs
    else
      var prev := UpsertAll(recs, kind, period, us[..|us| - 1]);
      match us[|us| - 1]
      case None => prev
      case Some(u) => Upsert(prev, |us| - 1, kind, period, u)
  }

  /** One more node of a stage's loop. */
  lemma UpsertAllSnoc(recs: seq<Scoring>, kind: Kind, period: string, us: seq<Option<Update>>, i: nat)
    requires i < |us|
    ensures UpsertAll(recs, kind, period, us[..i + 1]) ==
      match us[i]
      case None => UpsertAll(recs, kind, period, us[..i])
      case Some(u) => Upsert(UpsertAll(recs, kind, period, us[..i]), i, kind, period, u)
  {
    assert us[..i + 1][..i] == us[..i];
  }

  /** The records a stage leaves behind: each node it updates has its record
      for this period, the earlier (or default) record with the update applied;
      every other identity is untouched. */
  lemma {:induction false} UpsertAllFind(recs: seq<Scoring>, kind: Kind, period: string, us: seq<Option<Update>>,
                                         node: nat, kind': Kind, period': string)
    ensures Find(UpsertAll(recs, kind, period, us), node, kind', period') ==
      if kind' == kind && period' == period && node < |us| && us[node].Some?
      then Some(Apply(Existing(recs, node, kind, period), us[node].value))
      else Find(recs, node, kind', period')
  {
    if |us| > 0 {
      var last := |us| - 1;
      var init := us[..last];
      var prev := UpsertAll(recs, kind, period, init);
      UpsertAllFind(recs, kind, period, init, node, kind', period');
      if node < last {
        assert init[node] == us[node];
      }
      if us[last].Some? {
        if node == last && kind' == kind && period' == period {
          UpsertFindSame(prev, last, kind, period, us[last].value);
        } else {
          UpsertFindOther(prev, last, kind, period, us[last].value, node, kind', period');
        }
      }
    }
  }

  /** An upsert whose assignments are already in place changes nothing. */
  lemma UpsertSettled(recs: seq<Scoring>, node: nat, kind: Kind, period: string, u: Update)
    requires Find(recs, node, kind, period).Some?
    requires Apply(Find(recs, node, kind, period).value, u) == Find(recs, node, kind, period).value
    ensures Upsert(recs, node, kind, period, u) == recs
  {
  }

  lemma {:induction false} UpsertAllSettled(recs: seq<Scoring>, kind: Kind, period: string, us: seq<Option<Update>>)
    requires forall i :: 0 <= i < |us| && us[i].Some? ==>
      Find(recs, i, kind, period).Some? && Apply(Find(recs, i, kind, period).value, us[i].value) == Find(recs, i, kind, period).value
    ensures UpsertAll(recs, kind, period, us) == recs
  {
    if |us| > 0 {
      var init := us[..|us| - 1];
      assert forall i | 0 <= i < |init| :: init[i] == us[i];
      UpsertAllSettled(recs, kind, period, init);
      if us[|us| - 1].Some? {
        UpsertSettled(recs, |us| - 1, kind, period, us[|us| - 1].value);
      }
    }
  }

  /** Repeating a stage's upserts with the same updates leaves the table as the
      first run left it. */
  lemma UpsertAllIdempotent(recs: seq<Scoring>, kind: Kind, period: string, us: seq<Option<Update>>)
    ensures var once := UpsertAll(recs, kind, period, us);
      UpsertAll(once, kind, period, us) == once
  {
    var once := UpsertAll(recs, kind, period, us);
    forall i | 0 <= i < |us| && us[i].Some?
      ensures Find(once, i, kind, period).Some?
      ensures Apply(Find(once, i, kind, period).value, us[i].value) == Find(once, i, kind, period).value
    {
      UpsertAllFind(recs, kind, period, us, i, kind, period);
      ApplyTwice(Existing(recs, i, kind, period), us[i].value);
    }
    UpsertAllSettled(once, kind, period, us);
  }

  /** Scoring.objects.filter(node=node, type=kind): the node's records of one
      type, in table order. */
  function Select(recs: seq<Scoring>, node: nat, kind: Kind): (sel: seq<Scoring>)
    ensures forall r | r in sel :: r in recs && r.node == node && r.kind == kind
  {
    if |recs| == 0 then []
    else
      var r := recs[|recs| - 1];
      var prev := Select(recs[..|recs| - 1], node, kind);
      if r.node == node && r.kind == kind then prev + [r] else prev
  }

  /** The records selected are exactly the node's records of that type. */
  lemma {:induction false} SelectMeaning(recs: seq<Scoring>, node: nat, kind: Kind)
    ensures forall r :: r in Select(recs, node, kind) <==> r in recs && r.node == node && r.kind == kind
  {
    if |recs| > 0 {
      var init := recs[..|recs| - 1];
      SelectMeaning(init, node, kind);
      assert recs == init + [recs[|recs| - 1]];
    }
  }

  lemma {:induction false} SelectAgree(a: seq<Scoring>, b: seq<Scoring>, node: nat, kind: Kind)
    requires |a| == |b|
    requires forall j :: 0 <= j < |a| ==> (a[j].kind == kind <==> b[j].kind == kind)
    requires forall j :: 0 <= j < |a| && a[j].kind == kind ==> a[j] == b[j]
    ensures Select(a, node, kind) == Select(b, node, kind)
  {
    if |a| > 0 {
      SelectAgree(a[..|a| - 1], b[..|b| - 1], node, kind);
    }
  }

  lemma {:induction false} SelectIgnoresTail(a: seq<Scoring>, tail: seq<Scoring>, node: nat, kind: Kind)
    requires forall r | r in tail :: r.kind != kind
    ensures Select(a + tail, node, kind) == Select(a, node, kind)
  {
    if |tail| > 0 {
      var t' := tail[..|tail| - 1];
      assert (a + tail)[..|a + tail| - 1] == a + t';
      assert (a + tail)[|a + tail| - 1] == tail[|tail| - 1] && tail[|tail| - 1] in tail;
      SelectIgnoresTail(a, t', node, kind);
    } else {
      assert a + tail == a;
    }
  }

  /** A stage that writes records of one type leaves every node's records of the
      other types exactly as they were. */
  lemma UpsertAllKeepsOtherKinds(recs: seq<Scoring>, kind: Kind, period: string, us: seq<Option<Update>>,
                                 node: nat, other: Kind)
    requires other != kind
    ensures Select(UpsertAll(recs, kind, period, us), node, other) == Select(recs, node, other)
  {
    var r := UpsertAll(recs, kind, period, us);
    assert r == r[..|recs|] + r[|recs|..];
    SelectIgnoresTail(r[..|recs|], r[|recs|..], node, other);
    SelectAgree(r[..|recs|], recs, node, other);
  }
}
