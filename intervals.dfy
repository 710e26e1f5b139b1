/**
 * The interval snapshot at the end of monitoring_score (services.py lines
 * 205 and 211-230): one Score row per node with a key, marked active when the
 * node is within four blocks of the tallest node and has an active bid.
 */
module Intervals {
  import opened Calendar
  import opened Models

  /** The largest height of any node in the registry (all rows, keyed or not). */
  function MaxHeight(nodes: seq<Node>): (h: int)
    requires |nodes| > 0
    ensures exists i :: 0 <= i < |nodes| && nodes[i].height == h
    ensures forall i :: 0 <= i < |nodes| ==> nodes[i].height <= h
  {
    if |nodes| == 1 then nodes[0].height
    else
      var m := MaxHeight(nodes[..|nodes| - 1]);
      assert forall i :: 0 <= i < |nodes| - 1 ==> nodes[..|nodes| - 1][i] == nodes[i];
      if nodes[|nodes| - 1].height > m then nodes[|nodes| - 1].height else m
  }

  /** The number of blocks a node may lag behind the tallest node and still count
      as active. */
  const MaxLag := 4

  /** The row recorded for the node at position i. */
  function IntervalRow(n: Node, i: nat, maxHeight: int, now: DateTime): Score {
    Score(i, n.height, n.networkWeight, n.totalStake, n.activeBid, n.percentOfNetwork,
          maxHeight - n.height <= MaxLag && n.activeBid, now)
  }

  /** The rows recorded for the keyed nodes, in registry order. Every row
      belongs to a keyed node and copies that node's state at `now`. */
  function IntervalRows(nodes: seq<Node>, maxHeight: int, now: DateTime): (rows: seq<Score>)
    ensures forall r | r in rows ::
      r.node < |nodes| && Resolved(nodes[r.node]) && r == IntervalRow(nodes[r.node], r.node, maxHeight, now)
  {
    if |nodes| == 0 then []
    else
      var init := nodes[..|nodes| - 1];
      var prev := IntervalRows(init, maxHeight, now);
      assert forall i :: 0 <= i < |init| ==> init[i] == nodes[i];
      var i := |nodes| - 1;
      if Resolved(nodes[i]) then prev + [IntervalRow(nodes[i], i, maxHeight, now)] else prev
  }

  /** One more node of the recording loop. */
  lemma IntervalRowsSnoc(nodes: seq<Node>, maxHeight: int, now: DateTime, i: nat)
    requires i < |nodes|
    ensures IntervalRows(nodes[..i + 1], maxHeight, now) ==
      IntervalRows(nodes[..i], maxHeight, now) + (if Resolved(nodes[i]) then [IntervalRow(nodes[i], i, maxHeight, now)] else [])
  {
    assert nodes[..i + 1][..i] == nodes[..i];
  }

  /** The rows of one node recorded on one calendar day
      (Score.objects.filter(node=node, timestamp__date=day)). */
  function RowsOn(scores: seq<Score>, node: nat, day: Date): (rows: seq<Score>)
    ensures |rows| <= |scores|
    ensures forall r | r in rows :: r in scores && r.node == node && r.timestamp.date == day
  {
    if |scores| == 0 then []
    else
      var r := scores[|scores| - 1];
      var prev := RowsOn(scores[..|scores| - 1], node, day);
      if r.node == node && r.timestamp.date == day then prev + [r] else prev
  }

  /** The rows returned are exactly the node's rows of that day: none is missed. */
  lemma {:induction false} RowsOnMeaning(scores: seq<Score>, node: nat, day: Date)
    ensures forall r :: r in RowsOn(scores, node, day) <==> r in scores && r.node == node && r.timestamp.date == day
  {
    if |scores| > 0 {
      var init := scores[..|scores| - 1];
      RowsOnMeaning(init, node, day);
      assert scores == init + [scores[|scores| - 1]];
    }
  }

  lemma {:induction false} RowsOnAppend(a: seq<Score>, b: seq<Score>, node: nat, day: Date)
    ensures RowsOn(a + b, node, day) == RowsOn(a, node, day) + RowsOn(b, node, day)
  {
    if |b| > 0 {
      var b' := b[..|b| - 1];
      assert (a + b)[..|a + b| - 1] == a + b';
      RowsOnAppend(a, b', node, day);
    } else {
      assert a + b == a;
    }
  }

  /** Each keyed node gets exactly one row, stamped `now`; a node without a key
      gets none. */
  lemma {:induction false} OneRowPerKeyedNode(nodes: seq<Node>, maxHeight: int, now: DateTime, i: nat)
    requires i < |nodes|
    ensures |RowsOn(IntervalRows(nodes, maxHeight, now), i, now.date)| == if Resolved(nodes[i]) then 1 else 0
  {
    var init := nodes[..|nodes| - 1];
    assert forall k :: 0 <= k < |init| ==> init[k] == nodes[k];
    var prev := IntervalRows(init, maxHeight, now);
    var last := |nodes| - 1;
    if i < last {
      OneRowPerKeyedNode(init, maxHeight, now, i);
    } else {
      assert forall r | r in prev :: r.node < |init|;
      NoRowsBeyond(prev, i, now.date);
    }
    if Resolved(nodes[last]) {
      RowsOnAppend(prev, [IntervalRow(nodes[last], last, maxHeight, now)], i, now.date);
    }
  }

  lemma {:induction false} NoRowsBeyond(scores: seq<Score>, node: nat, day: Date)
    requires forall r | r in scores :: r.node != node
    ensures RowsOn(scores, node, day) == []
  {
    if |scores| > 0 {
      assert scores[|scores| - 1] in scores;
      NoRowsBeyond(scores[..|scores| - 1], node, day);
    }
  }

  /** A row is active exactly when its node has an active bid and lags the
      tallest node of the registry by at most four blocks. */
  lemma ActiveMeansNearTheTip(nodes: seq<Node>, now: DateTime, r: Score)
    requires |nodes| > 0 && r in IntervalRows(nodes, MaxHeight(nodes), now)
    ensures 0 <= MaxHeight(nodes) - r.currentBlock
    ensures r.active <==> r.activeBid && MaxHeight(nodes) - r.currentBlock <= MaxLag
    ensures r.activeBid == nodes[r.node].activeBid && r.currentBlock == nodes[r.node].height && r.timestamp == now
  {
  }
}
