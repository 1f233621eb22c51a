/** Why a pass relays a peer and through whom, spelled out against the observation (pkg/daemon/daemon.go:
    shouldRelayPeerWithSubnets, selectRelayForPeer and the loops around them). */
module RelayReasons {
  import opened Strings
  import opened Relay
  import opened RelayPlan
  import opened Reconcile
  import Sorting

  /** The pass leaves this key alone: it is empty, the node's own, or marked offline. */
  ghost predicate Ignored(c: Pass, key: string) {
    key == "" || key == c.node.pubKey || (key in c.mem.offline && c.obs.now <= c.mem.offline[key])
  }

  /** A peer a pass could relay through: an introducer with an endpoint, seen within 90 seconds. */
  ghost predicate Live(c: Pass, q: Peer) {
    !Ignored(c, q.pubKey) && q.introducer && q.endpoint != "" && c.obs.now - q.lastSeen <= 90_000_000_000
  }

  /** Peers that always stay direct. */
  ghost predicate Exempt(c: Pass, p: Peer) {
    c.node.introducer || p.introducer || "lan" in p.discoveredVia || c.obs.onLocalSubnet(p.endpoint)
  }

  /** The Unix time of the last handshake, 0 for none. */
  function HandshakeOf(c: Pass, p: Peer): int {
    match c.obs.handshakes
    case Some(table) => if p.pubKey in table then table[p.pubKey] else 0
    case None => 0
  }

  /** There never was a handshake and there is a reason not to wait for one: both ends are behind symmetric NATs, or the
      peer is known only through others. An IPv6 endpoint is tried directly first. */
  ghost predicate Unpunchable(c: Pass, p: Peer) {
    && !(c.node.isIPv6(p.endpoint) && !c.node.disableIPv6)
    && ((c.node.natType == "symmetric" && p.natType == "symmetric")
        || (c.obs.handshakes.Some? && HandshakeOf(c, p) == 0 && "dht-transitive" in p.discoveredVia))
  }

  ghost predicate Silent(c: Pass, p: Peer) {
    c.obs.now - HandshakeOf(c, p) * 1_000_000_000 >= 150_000_000_000
  }

  ghost predicate HasReason(c: Pass, p: Peer) {
    !Exempt(c, p) && (c.node.forceRelay || if HandshakeOf(c, p) > 0 then Silent(c, p) else Unpunchable(c, p))
  }

  /** Fewer than three quiet passes have been counted for a relayed peer. */
  ghost predicate StillHeld(c: Pass, p: Peer) {
    p.pubKey in c.mem.relayRoutes && (if p.pubKey in c.mem.directStable then c.mem.directStable[p.pubKey] else 0) < 2
  }

  lemma CandidatesAreLive(c: Pass)
    ensures |c.Candidates()| > 0 <==> exists q :: q in c.obs.peers && Live(c, q)
  {
    assert forall q :: c.IsCandidate(q) <==> Live(c, q);
    if |c.Candidates()| > 0 {
      var q := c.Candidates()[0];
      assert q in c.Candidates() && q in c.obs.peers && Live(c, q);
    }
    forall q | q in c.obs.peers && Live(c, q) ensures |c.Candidates()| > 0 {
      assert q in c.Candidates();
    }
  }

  lemma RawIff(c: Pass, p: Peer)
    ensures c.Raw(p) <==> |c.Candidates()| > 0 && HasReason(c, p)
  {
  }

  /** A pass relays a peer exactly when it considers it, has someone to relay through, and has a reason, or holds a
      relay from before. */
  lemma RelayedExactly(c: Pass, p: Peer)
    requires DistinctKeys(c.obs.peers) && p in c.obs.peers
    ensures p.pubKey in c.Outcome().relayRoutes <==>
      && !Ignored(c, p.pubKey) && p.meshIP != "" && (exists q :: q in c.obs.peers && Live(c, q))
      && (HasReason(c, p) || StillHeld(c, p))
  {
    FindOwn(c.obs.peers, p);
    PassVerdict(c, p.pubKey);
    CandidatesAreLive(c);
    RawIff(c, p);
  }

  /** For a direct peer that could be relayed and is neither exempt nor forced, a handshake decides: it is relayed
      exactly when the handshake is 150 seconds old. */
  lemma HandshakeDecides(c: Pass, p: Peer, q: Peer)
    requires DistinctKeys(c.obs.peers) && p in c.obs.peers && !Ignored(c, p.pubKey) && p.meshIP != ""
    requires q in c.obs.peers && Live(c, q) && p.pubKey !in c.mem.relayRoutes
    requires !c.node.introducer && !p.introducer && "lan" !in p.discoveredVia && !c.obs.onLocalSubnet(p.endpoint)
    requires !c.node.forceRelay && c.obs.handshakes.Some? && p.pubKey in c.obs.handshakes.value
    requires c.obs.handshakes.value[p.pubKey] > 0
    ensures p.pubKey in c.Outcome().relayRoutes <==>
      c.obs.now - c.obs.handshakes.value[p.pubKey] * 1_000_000_000 >= 150_000_000_000
  {
    RelayedExactly(c, p);
  }

  /** An exempt peer is relayed only while hysteresis holds it. */
  lemma ExemptStaysDirect(c: Pass, p: Peer)
    requires DistinctKeys(c.obs.peers) && p in c.obs.peers && !StillHeld(c, p)
    requires c.node.introducer || p.introducer || "lan" in p.discoveredVia || c.obs.onLocalSubnet(p.endpoint)
    ensures p.pubKey !in c.Outcome().relayRoutes
  {
    RelayedExactly(c, p);
  }

  ghost function LiveIn(c: Pass): set<Peer> {
    set q | q in c.obs.peers && Live(c, q)
  }

  /** Those of some peers with a lower key. */
  ghost function Lower(peers: set<Peer>, key: string): set<Peer> {
    set q | q in peers && Less(q.pubKey, key)
  }

  /** The relay of a peer is the live introducer whose rank by key is the hash of the pair modulo their number. */
  lemma RelayByRank(c: Pass, p: Peer) returns (r: Peer)
    requires DistinctKeys(c.obs.peers) && p in c.obs.peers && p.pubKey in c.Outcome().relayRoutes
    ensures r in LiveIn(c) && c.Outcome().relayRoutes[p.pubKey] == r.pubKey
    ensures |LiveIn(c)| > 0
    ensures |Lower(LiveIn(c), r.pubKey)| == c.node.fnv(c.node.pubKey + [0 as char] + p.pubKey) % |LiveIn(c)|
  {
    CandidatesDistinct(c, c.obs.peers);
    CandidatesLive(c);
    r := RelaySelected(c, p);
    RankOfSelected(c.node, p.pubKey, c.Candidates(), r);
  }

  lemma CandidatesLive(c: Pass)
    ensures Sorting.Elements(c.Candidates()) == LiveIn(c) && Reachable(c.Candidates()) == c.Candidates()
  {
    assert forall q :: c.IsCandidate(q) <==> Live(c, q);
    ReachableAll(c.Candidates());
  }

  lemma RelaySelected(c: Pass, p: Peer) returns (r: Peer)
    requires DistinctKeys(c.obs.peers) && p in c.obs.peers && p.pubKey in c.Outcome().relayRoutes
    ensures SelectRelay(c.node, p.pubKey, c.Candidates()) == Some(r) && c.Outcome().relayRoutes[p.pubKey] == r.pubKey
  {
    RelayedKey(c, p);
    FindOwn(c.obs.peers, p);
    r := c.RelayFor(p).value;
  }

  lemma RankOfSelected(n: Node, key: string, cands: seq<Peer>, r: Peer)
    requires DistinctKeys(cands) && Reachable(cands) == cands && SelectRelay(n, key, cands) == Some(r)
    ensures |Sorting.Elements(cands)| > 0 && r in Sorting.Elements(cands)
    ensures |Lower(Sorting.Elements(cands), r.pubKey)| ==
            n.fnv(n.pubKey + [0 as char] + key) % |Sorting.Elements(cands)|
  {
    assert Sorting.Distinct(cands);
    Sorting.DistinctSize(cands);
    KeyLessLinear(cands);
    RankInSorted(cands, n.fnv(n.pubKey + [0 as char] + key) % |cands|);
  }

  lemma RankInSorted(cands: seq<Peer>, i: nat)
    requires Sorting.Distinct(cands) && Sorting.Linear(KeyLess, Sorting.Elements(cands)) && i < |cands|
    ensures |Lower(Sorting.Elements(cands), Sorting.Sort(KeyLess, cands)[i].pubKey)| == i
  {
    Sorting.SortAscending(KeyLess, cands);
    RankInAscending(Sorting.Sort(KeyLess, cands), i);
  }

  lemma RankInAscending(sorted: seq<Peer>, i: nat)
    requires Sorting.Linear(KeyLess, Sorting.Elements(sorted)) && Sorting.Ascending(KeyLess, sorted) && i < |sorted|
    ensures |Lower(Sorting.Elements(sorted), sorted[i].pubKey)| == i
  {
    Sorting.RankIs(KeyLess, sorted, i);
    LowerIs(Sorting.Elements(sorted), sorted[i]);
  }

  lemma LowerIs(peers: set<Peer>, p: Peer)
    ensures Lower(peers, p.pubKey) == Sorting.Below(KeyLess, peers, p)
  {
  }

  // ---- What is carried ----

  /** x is a network of the list with the space around it cut off. */
  ghost predicate Announces(routable: seq<string>, x: string) {
    x != "" && exists r, pre, post :: r in routable && TrimmedTo(r, pre, x, post)
  }

  lemma NetworksSpelled(routable: seq<string>, x: string)
    ensures x in Networks(routable) <==> Announces(routable, x)
  {
    if x in Networks(routable) {
      var r :| r in routable && TrimSpace(r) == x != "";
      var pre, post := TrimSpaceIs(r);
      assert TrimmedTo(r, pre, x, post);
    }
    if Announces(routable, x) {
      var r, pre, post :| r in routable && TrimmedTo(r, pre, x, post);
      var pre', post' := TrimSpaceIs(r);
      TrimmedUnique(r, pre, x, post, pre', TrimSpace(r), post');
    }
  }

  /** A peer answers for its mesh address, its IPv6 mesh address if it has one, and the networks it announces. */
  ghost predicate AnswersFor(p: Peer, x: string) {
    || x == p.meshIP + "/32"
    || (p.meshIPv6 != "" && x == p.meshIPv6 + "/128")
    || Announces(p.routable, x)
  }

  /** A CIDR is in some entry of the plan exactly when a peer the pass considers answers for it. */
  lemma CarriedSpelled(c: Pass, x: string)
    requires DistinctKeys(c.obs.peers)
    ensures x in CarriedBy(c.Outcome().desired) <==>
      exists p :: p in c.obs.peers && !Ignored(c, p.pubKey) && p.meshIP != "" && AnswersFor(p, x)
  {
    AllowedConserved(c);
    forall p | p in c.obs.peers ensures x in Cidrs(p) <==> AnswersFor(p, x) {
      NetworksSpelled(p.routable, x);
    }
    assert forall p :: c.Eligible(p) <==> !Ignored(c, p.pubKey) && p.meshIP != "";
  }
}
