/**
 * get_auction_info and update_auction_info (services.py lines 83-144): fetch
 * the auction state with up to three attempts, then give every node that has a
 * bid its bid status, stake, the network weight, and its share of that weight.
 */
module Auction {
  import opened Text
  import opened Models

  /** One entry of era_validators[0].validator_weights. */
  datatype ValidatorWeight = ValidatorWeight(publicKey: string, weight: int)

  /** One entry of auction_state.bids: the bidder's key, bid.inactive,
      bid.staked_amount and the staked_amount of each delegator. */
  datatype Bid = Bid(publicKey: string, inactive: bool, stakedAmount: int, delegatorStakes: seq<int>)

  /** The parsed reply: EmptyReply stands for the empty dict (every attempt
      failed, or the endpoint answered with an empty body). */
  datatype AuctionReply =
    | EmptyReply
    | AuctionState(validatorWeights: seq<ValidatorWeight>, bids: seq<Bid>)

  /** What one request attempt produced: it raised (timeout, unreadable JSON),
      or it came back with an HTTP status and a parsed body. */
  datatype Attempt = Raised | Responded(status: int, body: AuctionReply)

  const MaxAttempts := 3

  predicate Succeeds(a: Attempt) {
    a.Responded? && a.status == 200
  }

  /** The reply get_auction_info settles on, stated without the loop. */
  function ChosenReply(attempts: seq<Attempt>): AuctionReply
    requires |attempts| == MaxAttempts
  {
    if Succeeds(attempts[0]) then attempts[0].body
    else if Succeeds(attempts[1]) then attempts[1].body
    else if Succeeds(attempts[2]) then attempts[2].body
    else EmptyReply
  }

  /** get_auction_info: tries the attempts in order and returns the body of the
      first one that answered with status 200; after three failures it returns
      the empty reply. `made` is the number of attempts made. */
  method GetAuctionInfo(attempts: seq<Attempt>) returns (reply: AuctionReply, made: nat)
    requires |attempts| == MaxAttempts
    ensures 1 <= made <= MaxAttempts
    ensures forall k :: 0 <= k < made - 1 ==> !Succeeds(attempts[k])
    ensures Succeeds(attempts[made - 1]) ==> reply == attempts[made - 1].body
    ensures !Succeeds(attempts[made - 1]) ==> made == MaxAttempts && reply == EmptyReply
    ensures reply == ChosenReply(attempts)
  {
    made := 0;
    while made < MaxAttempts
      invariant 0 <= made <= MaxAttempts
      invariant forall k :: 0 <= k < made ==> !Succeeds(attempts[k])
    {
      var a := attempts[made];
      made := made + 1;
      if Succeeds(a) {
        return a.body, made;
      }
    }
    reply := EmptyReply;
  }

  /** The sum of the validator weights. */
  function NetworkWeight(vs: seq<ValidatorWeight>): int {
    if |vs| == 0 then 0 else NetworkWeight(vs[..|vs| - 1]) + vs[|vs| - 1].weight
  }

  /** The lower-cased validator keys (not stripped, unlike the bid keys). */
  function ValidatorKeys(vs: seq<ValidatorWeight>): (keys: set<string>)
    ensures forall k :: k in keys <==> exists v :: v in vs && Lower(v.publicKey) == k
  {
    if |vs| == 0 then {}
    else
      var init := vs[..|vs| - 1];
      var keys := ValidatorKeys(init) + {Lower(vs[|vs| - 1].publicKey)};
      assert forall v :: v in vs <==> v in init || v == vs[|vs| - 1];
      keys
  }

  /** The sum of the delegators' stakes. */
  function Sum(xs: seq<int>): int {
    if |xs| == 0 then 0 else Sum(xs[..|xs| - 1]) + xs[|xs| - 1]
  }

  /** A bid's total stake: the delegated stake plus the bidder's own. */
  function TotalStake(b: Bid): int {
    Sum(b.delegatorStakes) + b.stakedAmount
  }

  /** The key a bid is matched against: stripped and lower-cased. */
  function BidKey(b: Bid): string {
    Lower(Strip(b.publicKey))
  }

  /** One bid applied to a node with its key. A validator's share divides by
      the network weight, so the weight may not be zero then. */
  function ApplyBid(n: Node, b: Bid, weight: int, validators: set<string>): (r: Node)
    requires n.publicKey in validators ==> weight != 0
    ensures r.ip == n.ip && r.publicKey == n.publicKey && r.height == n.height
    ensures r.activeBid == !b.inactive && r.networkWeight == weight && r.totalStake == TotalStake(b)
    ensures n.publicKey !in validators ==> r.percentOfNetwork == 0.0
  {
    var total := TotalStake(b);
    n.(activeBid := !b.inactive, networkWeight := weight, totalStake := total,
       percentOfNetwork := if n.publicKey in validators then (total * 100) as real / weight as real else 0.0)
  }

  /** Applying a bid with this key divides by zero for no node: the source
      raises when the weights sum to zero and a validator node has a bid. */
  predicate Harmless(nodes: seq<Node>, key: string, weight: int, validators: set<string>) {
    weight != 0 || key !in validators || forall j :: 0 <= j < |nodes| ==> nodes[j].publicKey != key
  }

  /** The auction reply can be applied to this registry without dividing by zero. */
  predicate SafeToApply(nodes: seq<Node>, bids: seq<Bid>, weight: int, validators: set<string>) {
    forall k :: 0 <= k < |bids| ==> Harmless(nodes, BidKey(bids[k]), weight, validators)
  }

  predicate SameKeys(a: seq<Node>, b: seq<Node>) {
    |a| == |b| && forall j :: 0 <= j < |a| ==> a[j].publicKey == b[j].publicKey
  }

  lemma SafeToApplyKeys(a: seq<Node>, b: seq<Node>, bids: seq<Bid>, weight: int, validators: set<string>)
    requires SameKeys(a, b) && SafeToApply(a, bids, weight, validators)
    ensures SafeToApply(b, bids, weight, validators)
  {
    forall k | 0 <= k < |bids|
      ensures Harmless(b, BidKey(bids[k]), weight, validators)
    {
      assert Harmless(a, BidKey(bids[k]), weight, validators);
    }
  }

  /** One bid applied to every node whose key is the bid's key. */
  function ApplyBidToAll(nodes: seq<Node>, b: Bid, weight: int, validators: set<string>): (r: seq<Node>)
    requires Harmless(nodes, BidKey(b), weight, validators)
    ensures SameKeys(nodes, r)
  {
    seq(|nodes|, j requires 0 <= j < |nodes| =>
      if nodes[j].publicKey == BidKey(b) then ApplyBid(nodes[j], b, weight, validators) else nodes[j])
  }

  /** The registry after the bid loop, bids taken in the order given. No row is
      added or removed, and no address, key or height changes. */
  function ApplyBids(nodes: seq<Node>, bids: seq<Bid>, weight: int, validators: set<string>): (r: seq<Node>)
    requires SafeToApply(nodes, bids, weight, validators)
    ensures |r| == |nodes|
    ensures forall j :: 0 <= j < |r| ==>
      r[j].ip == nodes[j].ip && r[j].publicKey == nodes[j].publicKey && r[j].height == nodes[j].height
  {
    if |bids| == 0 then nodes
    else
      var init := bids[..|bids| - 1];
      var prev := ApplyBids(nodes, init, weight, validators);
      assert Harmless(nodes, BidKey(bids[|bids| - 1]), weight, validators);
      assert SameKeys(nodes, prev);
      ApplyBidToAll(prev, bids[|bids| - 1], weight, validators)
  }

  /** A node that no bid names is left as it was. */
  lemma {:induction false} UnmatchedNodeUnchanged(nodes: seq<Node>, bids: seq<Bid>, weight: int, validators: set<string>, j: int)
    requires SafeToApply(nodes, bids, weight, validators) && 0 <= j < |nodes|
    requires forall k :: 0 <= k < |bids| ==> BidKey(bids[k]) != nodes[j].publicKey
    ensures ApplyBids(nodes, bids, weight, validators)[j] == nodes[j]
  {
    if |bids| > 0 {
      var init := bids[..|bids| - 1];
      assert forall k :: 0 <= k < |init| ==> init[k] == bids[k];
      UnmatchedNodeUnchanged(nodes, init, weight, validators, j);
    }
  }

  /** A node some bid names ends up with the state the last such bid gives it. */
  lemma {:induction false} LastMatchingBidWins(nodes: seq<Node>, bids: seq<Bid>, weight: int, validators: set<string>, j: int, k: int)
    requires SafeToApply(nodes, bids, weight, validators) && 0 <= j < |nodes|
    requires 0 <= k < |bids| && BidKey(bids[k]) == nodes[j].publicKey
    requires forall k' :: k < k' < |bids| ==> BidKey(bids[k']) != nodes[j].publicKey
    ensures nodes[j].publicKey in validators ==> weight != 0
    ensures ApplyBids(nodes, bids, weight, validators)[j] == ApplyBid(nodes[j], bids[k], weight, validators)
  {
    assert Harmless(nodes, BidKey(bids[k]), weight, validators);
    var init := bids[..|bids| - 1];
    var prev := ApplyBids(nodes, init, weight, validators);
    var last := bids[|bids| - 1];
    if k < |bids| - 1 {
      assert init[k] == bids[k];
      assert forall k' :: k < k' < |init| ==> init[k'] == bids[k'];
      LastMatchingBidWins(nodes, init, weight, validators, j, k);
      assert BidKey(last) != nodes[j].publicKey;
    } else {
      assert prev[j].publicKey == nodes[j].publicKey;
      assert ApplyBid(prev[j], last, weight, validators) == ApplyBid(nodes[j], last, weight, validators);
    }
  }

  /** Every node a bid names carries the network weight and a share of it that
      is zero unless its key is a validator's; nodes with equal keys end up with
      equal auction state. */
  lemma MatchedNodeShare(nodes: seq<Node>, bids: seq<Bid>, weight: int, validators: set<string>, j: int, k: int)
    requires SafeToApply(nodes, bids, weight, validators) && 0 <= j < |nodes|
    requires 0 <= k < |bids| && BidKey(bids[k]) == nodes[j].publicKey
    ensures var r := ApplyBids(nodes, bids, weight, validators);
      r[j].networkWeight == weight
      && (nodes[j].publicKey !in validators ==> r[j].percentOfNetwork == 0.0)
      && (nodes[j].publicKey in validators ==> r[j].percentOfNetwork == (r[j].totalStake * 100) as real / weight as real)
  {
    var last := LastMatch(bids, nodes[j].publicKey, k);
    LastMatchingBidWins(nodes, bids, weight, validators, j, last);
  }

  /** The position of the last bid with the given key, at or after k. */
  function LastMatch(bids: seq<Bid>, key: string, k: int): (m: int)
    requires 0 <= k < |bids| && BidKey(bids[k]) == key
    ensures k <= m < |bids| && BidKey(bids[m]) == key
    ensures forall k' :: m < k' < |bids| ==> BidKey(bids[k']) != key
    decreases |bids| - k
  {
    if exists k' :: k < k' < |bids| && BidKey(bids[k']) == key then
      var k' :| k < k' < |bids| && BidKey(bids[k']) == key;
      LastMatch(bids, key, k')
    else k
  }

  /** The registry after update_auction_info with this reply. */
  function AuctionUpdate(nodes: seq<Node>, reply: AuctionReply): (r: seq<Node>)
    requires reply.AuctionState? ==>
      SafeToApply(nodes, reply.bids, NetworkWeight(reply.validatorWeights), ValidatorKeys(reply.validatorWeights))
    ensures |r| == |nodes|
    ensures forall j :: 0 <= j < |r| ==>
      r[j].ip == nodes[j].ip && r[j].publicKey == nodes[j].publicKey && r[j].height == nodes[j].height
    ensures reply.EmptyReply? ==> r == nodes
  {
    if reply.EmptyReply? then nodes
    else ApplyBids(nodes, reply.bids, NetworkWeight(reply.validatorWeights), ValidatorKeys(reply.validatorWeights))
  }
}
