/**
 * What monitoring_score does with the status responses (services.py lines
 * 171-202): each response may give its node a public key and a height, and
 * advertise peers whose hosts join the registry when not yet known. The
 * bootstrap listing (update_peers) is added the same way.
 */
module Polling {
  import opened Wrappers
  import opened Text
  import opened Models

  /** The fields of one status response that the pipeline reads. A field is None
      when it is missing or unreadable, or when the request itself failed (the
      response is then {'error': ...} and has none of them). `peers` holds the
      "ip:port" address of each advertised peer. */
  datatype Status = Status(signingKey: Option<string>, height: Option<int>, peers: Option<seq<string>>)

  /** resp['our_public_signing_key'].strip().lower(), or '' when that raises. */
  function ResponseKey(st: Status): string {
    if st.signingKey.Some? then Lower(Strip(st.signingKey.value)) else ""
  }

  /** int(resp['last_added_block_info']['height']), or 0 when that raises. */
  function ResponseHeight(st: Status): int {
    if st.height.Some? then st.height.value else 0
  }

  /** address.split(':')[0]: the host part of "host:port". */
  function HostOf(address: string): (h: string)
    ensures ':' !in h
  {
    SplitParts(address, ':');
    Split(address, ':')[0]
  }

  /** The host is the text before the first ':' of the address. */
  lemma HostOfAddress(host: string, port: string)
    requires ':' !in host
    ensures HostOf(host + ":" + port) == host
  {
    var s := host + ":" + port;
    assert s[..|host|] == host;
    IndexOfFirst(s, ':', |host|);
  }

  predicate Registered(nodes: seq<Node>, ip: string) {
    exists i :: 0 <= i < |nodes| && nodes[i].ip == ip
  }

  /** No two node rows share an address (Node.objects.get(ip=ip) finds one row). */
  predicate DistinctIps(nodes: seq<Node>) {
    forall i, j :: 0 <= i < j < |nodes| ==> nodes[i].ip != nodes[j].ip
  }

  /** The one response applied to its node: the key is replaced only by a
      non-empty key, the height is always written. */
  function ApplyStatus(n: Node, st: Status): Node {
    var pk := ResponseKey(st);
    n.(publicKey := if pk != "" then pk else n.publicKey, height := ResponseHeight(st))
  }

  /** The registry after one response for address ip. */
  function ApplyResponse(nodes: seq<Node>, ip: string, st: Status): (r: seq<Node>)
    ensures |r| == |nodes|
    ensures forall j :: 0 <= j < |r| ==> r[j].ip == nodes[j].ip
    ensures DistinctIps(nodes) ==> DistinctIps(r)
    ensures forall j :: 0 <= j < |r| && nodes[j].ip != ip ==> r[j] == nodes[j]
    ensures forall j :: 0 <= j < |r| && nodes[j].ip == ip ==>
      r[j].height == ResponseHeight(st)
      && (ResponseKey(st) != "" ==> r[j].publicKey == ResponseKey(st))
      && (ResponseKey(st) == "" ==> r[j].publicKey == nodes[j].publicKey)
  {
    seq(|nodes|, j requires 0 <= j < |nodes| =>
      if nodes[j].ip == ip then ApplyStatus(nodes[j], st) else nodes[j])
  }

  /** The registry after the response loop, responses taken in the order given.
      Rows are neither added nor removed, and no address changes. */
  function ApplyResponses(nodes: seq<Node>, rs: seq<(string, Status)>): (r: seq<Node>)
    ensures |r| == |nodes|
    ensures forall j :: 0 <= j < |r| ==> r[j].ip == nodes[j].ip
    ensures forall j :: 0 <= j < |r| ==>
      r[j] == nodes[j].(publicKey := r[j].publicKey, height := r[j].height)
  {
    if |rs| == 0 then nodes
    else
      var prev := ApplyResponses(nodes, rs[..|rs| - 1]);
      ApplyResponse(prev, rs[|rs| - 1].0, rs[|rs| - 1].1)
  }

  /** One more response of the loop. */
  lemma ApplyResponsesSnoc(nodes: seq<Node>, rs: seq<(string, Status)>, i: nat)
    requires i < |rs|
    ensures ApplyResponses(nodes, rs[..i + 1]) == ApplyResponse(ApplyResponses(nodes, rs[..i]), rs[i].0, rs[i].1)
  {
    assert rs[..i + 1][..i] == rs[..i];
  }

  /** A node's key after the loop is either the key it had or the non-empty key
      of a response for its address: a key is never cleared and never comes from
      elsewhere. */
  lemma {:induction false} KeyComesFromResponse(nodes: seq<Node>, rs: seq<(string, Status)>, j: int)
    requires 0 <= j < |nodes|
    ensures var r := ApplyResponses(nodes, rs);
      r[j].publicKey == nodes[j].publicKey
      || (r[j].publicKey != "" && exists k :: 0 <= k < |rs| && rs[k].0 == nodes[j].ip && ResponseKey(rs[k].1) == r[j].publicKey)
  {
    if |rs| > 0 {
      var init := rs[..|rs| - 1];
      KeyComesFromResponse(nodes, init, j);
      var prev := ApplyResponses(nodes, init);
      if prev[j].publicKey != nodes[j].publicKey {
        var k :| 0 <= k < |init| && init[k].0 == nodes[j].ip && ResponseKey(init[k].1) == prev[j].publicKey;
        assert rs[k] == init[k];
      }
    }
  }

  /** The last response for a node's address that carries a key sets that key:
      later responses without a key leave it in place. */
  lemma {:induction false} KeyFromLastKeyedResponse(nodes: seq<Node>, rs: seq<(string, Status)>, j: int, k: int)
    requires 0 <= j < |nodes| && 0 <= k < |rs| && rs[k].0 == nodes[j].ip && ResponseKey(rs[k].1) != ""
    requires forall k' :: k < k' < |rs| && rs[k'].0 == nodes[j].ip ==> ResponseKey(rs[k'].1) == ""
    ensures ApplyResponses(nodes, rs)[j].publicKey == ResponseKey(rs[k].1)
  {
    var init := rs[..|rs| - 1];
    if k < |rs| - 1 {
      assert init[k] == rs[k];
      assert forall k' :: k < k' < |init| ==> init[k'] == rs[k'];
      KeyFromLastKeyedResponse(nodes, init, j, k);
    } else {
      assert init + [rs[k]] == rs;
    }
  }

  /** A node that already has a key keeps a (non-empty) key. */
  lemma {:induction false} ResolvedStaysResolved(nodes: seq<Node>, rs: seq<(string, Status)>, j: int)
    requires 0 <= j < |nodes| && Resolved(nodes[j])
    ensures Resolved(ApplyResponses(nodes, rs)[j])
  {
    if |rs| > 0 {
      ResolvedStaysResolved(nodes, rs[..|rs| - 1], j);
    }
  }

  /** A node no response was about is left as it was. */
  lemma {:induction false} UnpolledNodeUnchanged(nodes: seq<Node>, rs: seq<(string, Status)>, j: int)
    requires 0 <= j < |nodes|
    requires forall k :: 0 <= k < |rs| ==> rs[k].0 != nodes[j].ip
    ensures ApplyResponses(nodes, rs)[j] == nodes[j]
  {
    if |rs| > 0 {
      var init := rs[..|rs| - 1];
      assert forall k :: 0 <= k < |init| ==> init[k] == rs[k];
      UnpolledNodeUnchanged(nodes, init, j);
    }
  }

  /** A node's height after the loop is the height read from the last response
      for its address (0 when that response had none). */
  lemma {:induction false} HeightFromLastResponse(nodes: seq<Node>, rs: seq<(string, Status)>, j: int, k: int)
    requires 0 <= j < |nodes| && 0 <= k < |rs| && rs[k].0 == nodes[j].ip
    requires forall k' :: k < k' < |rs| ==> rs[k'].0 != nodes[j].ip
    ensures ApplyResponses(nodes, rs)[j].height == ResponseHeight(rs[k].1)
  {
    var init := rs[..|rs| - 1];
    if k < |rs| - 1 {
      assert init[k] == rs[k];
      assert forall k' :: k < k' < |init| ==> init[k'] == rs[k'];
      HeightFromLastResponse(nodes, init, j, k);
    }
  }

  /** The hosts of all advertised peers, response by response (the new_peers set,
      kept in the order the responses give them). */
  function PeerHosts(rs: seq<(string, Status)>): (hosts: seq<string>)
    ensures forall h | h in hosts :: ':' !in h
  {
    if |rs| == 0 then []
    else
      var st := rs[|rs| - 1].1;
      PeerHosts(rs[..|rs| - 1]) + (if st.peers.Some? then HostsOf(st.peers.value) else [])
  }

  /** A peer was advertised at address a by some response. */
  predicate Advertised(rs: seq<(string, Status)>, a: string) {
    exists k :: 0 <= k < |rs| && rs[k].1.peers.Some? && a in rs[k].1.peers.value
  }

  /** Every advertised peer's host is collected, and nothing else is. */
  lemma {:induction false} PeerHostsMeaning(rs: seq<(string, Status)>)
    ensures forall h :: h in PeerHosts(rs) <==> exists a :: Advertised(rs, a) && h == HostOf(a)
  {
    if |rs| > 0 {
      var n := |rs| - 1;
      var init, st := rs[..n], rs[n].1;
      PeerHostsMeaning(init);
      var more := if st.peers.Some? then HostsOf(st.peers.value) else [];
      assert PeerHosts(rs) == PeerHosts(init) + more;
      forall a | Advertised(init, a) ensures Advertised(rs, a) {
        var k :| 0 <= k < |init| && init[k].1.peers.Some? && a in init[k].1.peers.value;
        assert rs[k] == init[k];
      }
      forall h | h in more ensures exists a :: Advertised(rs, a) && h == HostOf(a) {
        var p :| 0 <= p < |more| && more[p] == h;
        assert Advertised(rs, st.peers.value[p]);
      }
      forall a | Advertised(rs, a) ensures HostOf(a) in PeerHosts(rs) {
        var k :| 0 <= k < |rs| && rs[k].1.peers.Some? && a in rs[k].1.peers.value;
        if k < n {
          assert init[k] == rs[k];
          assert Advertised(init, a);
        } else {
          var p :| 0 <= p < |st.peers.value| && st.peers.value[p] == a;
          assert more[p] == HostOf(a);
        }
      }
    }
  }

  function HostsOf(addresses: seq<string>): (hosts: seq<string>)
    ensures |hosts| == |addresses|
    ensures forall k :: 0 <= k < |hosts| ==> hosts[k] == HostOf(addresses[k])
  {
    if |addresses| == 0 then [] else HostsOf(addresses[..|addresses| - 1]) + [HostOf(addresses[|addresses| - 1])]
  }

  /** Adds a node for every address not yet registered (lines 77-80 and
      199-202), addresses taken in order. */
  function AddPeers(nodes: seq<Node>, ips: seq<string>): seq<Node> {
    if |ips| == 0 then nodes
    else
      var prev := AddPeers(nodes, ips[..|ips| - 1]);
      var ip := ips[|ips| - 1];
      if Registered(prev, ip) then prev else prev + [NewNode(ip)]
  }

  /** Existing rows are kept as they are, and new rows are fresh nodes for listed addresses. */
  lemma {:induction false} AddPeersKeeps(nodes: seq<Node>, ips: seq<string>)
    ensures var r := AddPeers(nodes, ips);
      |r| >= |nodes| && r[..|nodes|] == nodes
      && forall j :: |nodes| <= j < |r| ==> r[j] == NewNode(r[j].ip) && r[j].ip in ips
  {
    if |ips| > 0 {
      var init, ip := ips[..|ips| - 1], ips[|ips| - 1];
      AddPeersKeeps(nodes, init);
      var prev := AddPeers(nodes, init);
      assert forall x | x in init :: x in ips;
      if !Registered(prev, ip) {
        var r := prev + [NewNode(ip)];
        assert r[..|nodes|] == prev[..|nodes|];
        assert forall k :: |nodes| <= k < |prev| ==> r[k] == prev[k];
      }
    }
  }

  /** Afterwards an address is registered exactly when it was before or is listed. */
  lemma {:induction false} AddPeersRegisters(nodes: seq<Node>, ips: seq<string>)
    ensures forall ip :: Registered(AddPeers(nodes, ips), ip) <==> Registered(nodes, ip) || ip in ips
  {
    if |ips| > 0 {
      var init, ip := ips[..|ips| - 1], ips[|ips| - 1];
      AddPeersRegisters(nodes, init);
      var prev := AddPeers(nodes, init);
      assert forall x :: x in ips <==> x in init || x == ip;
      if !Registered(prev, ip) {
        var r := prev + [NewNode(ip)];
        assert r[|prev|].ip == ip;
        forall x | Registered(prev, x)
          ensures Registered(r, x)
        {
          var k :| 0 <= k < |prev| && prev[k].ip == x;
          assert r[k] == prev[k];
        }
        forall x | Registered(r, x)
          ensures Registered(prev, x) || x == ip
        {
          var k :| 0 <= k < |r| && r[k].ip == x;
          if k < |prev| {
            assert r[k] == prev[k];
          }
        }
      }
    }
  }

  /** Adding peers keeps addresses distinct. */
  lemma {:induction false} AddPeersDistinct(nodes: seq<Node>, ips: seq<string>)
    requires DistinctIps(nodes)
    ensures DistinctIps(AddPeers(nodes, ips))
  {
    if |ips| > 0 {
      var init, ip := ips[..|ips| - 1], ips[|ips| - 1];
      AddPeersDistinct(nodes, init);
      var prev := AddPeers(nodes, init);
      if !Registered(prev, ip) {
        var r := prev + [NewNode(ip)];
        forall a, b | 0 <= a < b < |r|
          ensures r[a].ip != r[b].ip
        {
          assert r[a] == prev[a];
          if b < |prev| {
            assert r[b] == prev[b];
          }
        }
      }
    }
  }

  /** What adding peers does: existing rows are kept as they are; every listed
      address ends up registered and no other is added; new rows are fresh
      nodes for listed addresses; addresses stay distinct. */
  lemma AddPeersMeaning(nodes: seq<Node>, ips: seq<string>)
    ensures var r := AddPeers(nodes, ips);
      |r| >= |nodes| && r[..|nodes|] == nodes
      && (forall ip | ip in ips :: Registered(r, ip))
      && (forall j :: |nodes| <= j < |r| ==> r[j] == NewNode(r[j].ip) && r[j].ip in ips)
      && (forall ip :: Registered(r, ip) <==> Registered(nodes, ip) || ip in ips)
      && (DistinctIps(nodes) ==> DistinctIps(r))
  {
    AddPeersKeeps(nodes, ips);
    AddPeersRegisters(nodes, ips);
    if DistinctIps(nodes) {
      AddPeersDistinct(nodes, ips);
    }
  }

  /** The registry once the bootstrap listing has seeded it: the listing is only
      consulted when the registry is empty. */
  function Bootstrap(nodes: seq<Node>, listing: seq<string>): seq<Node> {
    if |nodes| == 0 then AddPeers(nodes, listing) else nodes
  }

  /** The registry at the end of the polling part of monitoring_score. */
  function PolledRegistry(nodes: seq<Node>, listing: seq<string>, rs: seq<(string, Status)>): seq<Node> {
    AddPeers(ApplyResponses(Bootstrap(nodes, listing), rs), PeerHosts(rs))
  }

  /** After polling, the host of every advertised peer is registered. */
  lemma AdvertisedHostsRegistered(nodes: seq<Node>, listing: seq<string>, rs: seq<(string, Status)>, a: string)
    requires Advertised(rs, a)
    ensures Registered(PolledRegistry(nodes, listing, rs), HostOf(a))
  {
    PeerHostsMeaning(rs);
    AddPeersRegisters(ApplyResponses(Bootstrap(nodes, listing), rs), PeerHosts(rs));
  }

  /** Polling never removes a node or changes its address, and a node that had a
      key still has one afterwards. */
  lemma PollingKeepsNodes(nodes: seq<Node>, listing: seq<string>, rs: seq<(string, Status)>, j: int)
    requires 0 <= j < |nodes|
    ensures var r := PolledRegistry(nodes, listing, rs);
      j < |r| && r[j].ip == nodes[j].ip && (Resolved(nodes[j]) ==> Resolved(r[j]))
  {
    var applied := ApplyResponses(nodes, rs);
    if Resolved(nodes[j]) {
      ResolvedStaysResolved(nodes, rs, j);
    }
    var r := AddPeers(applied, PeerHosts(rs));
    AddPeersKeeps(applied, PeerHosts(rs));
    assert r[j] == r[..|applied|][j];
  }
}
