/** The relay decision and the peer configuration one reconcile pass asks for (pkg/daemon/daemon.go:
    buildDesiredPeerConfigsWithHandshakes and its helpers). Times are nanoseconds; the hash and the address predicates
    are arbitrary functions. */
module Relay {
  import opened Strings
  import Sorting

  const SECOND := 1_000_000_000
  const RELAY_CANDIDATE_MAX_AGE := 90 * SECOND
  const HANDSHAKE_STALE_AFTER := 150 * SECOND
  const RELAY_HYSTERESIS_THRESHOLD := 3

  datatype Peer = Peer(
    pubKey: string, meshIP: string, meshIPv6: string, endpoint: string, introducer: bool,
    routable: seq<string>, lastSeen: int, discoveredVia: seq<string>, natType: string)

  datatype Node = Node(
    pubKey: string, natType: string, introducer: bool, forceRelay: bool, disableIPv6: bool,
    isIPv6: string -> bool, fnv: string -> nat)

  /** What one pass reads: the active peers, the handshake table (None when it cannot be read), the clock. */
  datatype Observation = Observation(
    peers: seq<Peer>, handshakes: Option<map<string, int>>, onLocalSubnet: string -> bool, now: int)

  /** What one pass remembers from the passes and evictions before it. */
  datatype Memory = Memory(
    relayRoutes: map<string, string>, directStable: map<string, int>, offline: map<string, int>)

  datatype Config = Config(peer: Peer, allowed: set<string>)

  datatype Plan = Plan(
    desired: map<string, Config>, relayRoutes: map<string, string>, directStable: map<string, int>)

  predicate Offline(offline: map<string, int>, key: string, now: int) {
    key != "" && key in offline && now <= offline[key]
  }

  predicate KeyLess(a: Peer, b: Peer) {
    Less(a.pubKey, b.pubKey)
  }

  function PeerKeys(peers: seq<Peer>): set<string> {
    set p | p in peers :: p.pubKey
  }

  ghost predicate DistinctKeys(peers: seq<Peer>) {
    forall i, j | 0 <= i < j < |peers| :: peers[i].pubKey != peers[j].pubKey
  }

  function Find(peers: seq<Peer>, key: string): (p: Peer)
    requires key in PeerKeys(peers)
    ensures p in peers && p.pubKey == key
  {
    if peers[0].pubKey == key then peers[0]
    else
      assert peers == [peers[0]] + peers[1..];
      Find(peers[1..], key)
  }

  function Networks(routable: seq<string>): set<string> {
    set r | r in routable && TrimSpace(r) != "" :: TrimSpace(r)
  }

  /** Every CIDR a peer answers for. */
  function Cidrs(p: Peer): set<string> {
    {p.meshIP + "/32"} + (if p.meshIPv6 != "" then {p.meshIPv6 + "/128"} else {}) + Networks(p.routable)
  }

  predicate FreshHandshake(ts: int, now: int) {
    now - ts * SECOND < HANDSHAKE_STALE_AFTER
  }

  /** shouldRelayPeerWithSubnets. */
  predicate ShouldRelay(n: Node, p: Peer, candidates: seq<Peer>, obs: Observation) {
    if n.introducer || p.introducer || "lan" in p.discoveredVia || obs.onLocalSubnet(p.endpoint) then false
    else if n.forceRelay then |candidates| > 0
    else if |candidates| == 0 then false
    else
      var ts := if obs.handshakes.Some? && p.pubKey in obs.handshakes.value then obs.handshakes.value[p.pubKey] else 0;
      if ts > 0 then !FreshHandshake(ts, obs.now)
      else if !n.disableIPv6 && n.isIPv6(p.endpoint) then false
      else if n.natType == "symmetric" && p.natType == "symmetric" then true
      else obs.handshakes.Some? && ts == 0 && "dht-transitive" in p.discoveredVia
  }

  /** The filter inside selectRelayForPeer. */
  function Reachable(candidates: seq<Peer>): (r: seq<Peer>)
    ensures forall p :: p in r <==> p in candidates && p.pubKey != "" && p.endpoint != ""
  {
    if |candidates| == 0 then []
    else
      var last := candidates[|candidates| - 1];
      assert candidates == candidates[..|candidates| - 1] + [last];
      Reachable(candidates[..|candidates| - 1]) + (if last.pubKey == "" || last.endpoint == "" then [] else [last])
  }

  /** selectRelayForPeer: hash the pair into the candidates sorted by key. */
  function SelectRelay(n: Node, key: string, candidates: seq<Peer>): (r: Option<Peer>)
    ensures r.Some? ==> r.value in candidates && r.value.pubKey != "" && r.value.endpoint != ""
  {
    var sorted := Sorting.Sort(KeyLess, Reachable(candidates));
    if |sorted| == 0 then None
    else
      var r := sorted[n.fnv(n.pubKey + [0 as char] + key) % |sorted|];
      assert r in Sorting.Elements(sorted);
      Some(r)
  }

  /** One pass: the node, what it remembers and what it sees. */
  datatype Pass = Pass(node: Node, mem: Memory, obs: Observation) {

    predicate Skipped(p: Peer) {
      p.pubKey == node.pubKey || p.pubKey == "" || Offline(mem.offline, p.pubKey, obs.now)
    }

    predicate IsCandidate(p: Peer) {
      !Skipped(p) && p.introducer && p.endpoint != "" && obs.now - p.lastSeen <= RELAY_CANDIDATE_MAX_AGE
    }

    predicate Eligible(p: Peer) {
      !Skipped(p) && p.meshIP != ""
    }

    function CandidatesIn(peers: seq<Peer>): (r: seq<Peer>)
      ensures forall p :: p in r <==> p in peers && IsCandidate(p)
    {
      if |peers| == 0 then []
      else
        var last := peers[|peers| - 1];
        assert peers == peers[..|peers| - 1] + [last];
        CandidatesIn(peers[..|peers| - 1]) + (if IsCandidate(last) then [last] else [])
    }

    function Candidates(): seq<Peer> {
      CandidatesIn(obs.peers)
    }

    /** The relay decision before hysteresis. */
    predicate Raw(p: Peer) {
      ShouldRelay(node, p, Candidates(), obs)
    }

    function DirectCycles(key: string): int {
      (if key in mem.directStable then mem.directStable[key] else 0) + 1
    }

    /** Hysteresis keeps a relayed peer on its relay although the decision is "direct". */
    predicate Held(p: Peer) {
      !Raw(p) && p.pubKey in mem.relayRoutes && DirectCycles(p.pubKey) < RELAY_HYSTERESIS_THRESHOLD
    }

    function RelayFor(p: Peer): (r: Option<Peer>)
      ensures r.Some? ==> r.value in obs.peers && IsCandidate(r.value)
    {
      if Raw(p) || Held(p) then SelectRelay(node, p.pubKey, Candidates()) else None
    }

    /** The peer whose tunnel carries p's traffic. */
    function Host(p: Peer): (h: Peer)
      ensures h == p || (h in obs.peers && IsCandidate(h))
    {
      var r := RelayFor(p);
      if r.Some? then r.value else p
    }

    function AllowedIn(peers: seq<Peer>, key: string): set<string> {
      set p, c | p in peers && Eligible(p) && Host(p).pubKey == key && c in Cidrs(p) :: c
    }

    function HostKeysIn(peers: seq<Peer>): set<string> {
      set p | p in peers && Eligible(p) :: Host(p).pubKey
    }

    function RelayedKeysIn(peers: seq<Peer>): set<string> {
      set p | p in peers && Eligible(p) && RelayFor(p).Some? :: p.pubKey
    }

    function HeldKeysIn(peers: seq<Peer>): set<string> {
      set p | p in peers && Eligible(p) && Held(p) :: p.pubKey
    }

    /** What the pass asks for, peer by peer and free of any list order. */
    function Outcome(): Plan {
      assert HostKeysIn(obs.peers) <= PeerKeys(obs.peers);
      assert RelayedKeysIn(obs.peers) <= PeerKeys(obs.peers);
      Plan(
        map k | k in HostKeysIn(obs.peers) :: Config(Find(obs.peers, k), AllowedIn(obs.peers, k)),
        map k | k in RelayedKeysIn(obs.peers) :: Host(Find(obs.peers, k)).pubKey,
        map k | k in HeldKeysIn(obs.peers) :: DirectCycles(k))
    }
  }

  lemma FindOwn(peers: seq<Peer>, p: Peer)
    requires DistinctKeys(peers) && p in peers
    ensures Find(peers, p.pubKey) == p
  {
  }

  /** Candidates always carry a key and an endpoint, so a relay is found exactly when there is a candidate. */
  lemma RelayExists(c: Pass, p: Peer)
    ensures SelectRelay(c.node, p.pubKey, c.Candidates()).Some? <==> |c.Candidates()| > 0
  {
    var cands := c.Candidates();
    if |cands| > 0 {
      var q := cands[0];
      assert q in cands && q in Reachable(cands);
    } else {
      assert forall q | q in Reachable(cands) :: q in cands;
    }
  }
}
