/** The daemon object: the fields reconcile and evictPeerFromPool update, and their loops, proved against the
    state machine (pkg/daemon/daemon.go, pkg/daemon/routes.go). The device and the route table, which the daemon
    reaches by running `wg` and `ip`, are fields too. */
module Daemon {
  import opened Strings
  import opened Sorting
  import opened Relay
  import opened RelayPlan
  import opened Device
  import opened Reconcile
  import opened DaemonPlan
  import Why = RelayReasons
  import R = Routes
  import Store = PeerStore

  // ---- Desired kernel routes ----

  predicate Routed(n: Node, p: Peer, offline: map<string, int>, now: int) {
    p.pubKey != n.pubKey && p.meshIP != "" && !Offline(offline, p.pubKey, now)
  }

  ghost predicate AreMeshIPs(peers: seq<Peer>, ips: map<string, string>) {
    && (forall p | p in peers && p.pubKey != "" && p.meshIP != "" :: p.pubKey in ips && ips[p.pubKey] == p.meshIP)
    && (forall k | k in ips :: exists p :: p in peers && p.pubKey == k != "" && p.meshIP != "")
  }

  function Gateway(relays: map<string, string>, ips: map<string, string>, p: Peer): string {
    if p.pubKey in relays && relays[p.pubKey] in ips then ips[relays[p.pubKey]] else p.meshIP
  }

  function RoutesFor(p: Peer, gateway: string): set<R.Entry> {
    set net | net in Networks(p.routable) :: R.Entry(net, gateway)
  }

  function WantedRoutes(n: Node, obs: Observation, offline: map<string, int>, relays: map<string, string>,
                        ips: map<string, string>, peers: seq<Peer>): set<R.Entry> {
    set p, e | p in peers && Routed(n, p, offline, obs.now) && e in RoutesFor(p, Gateway(relays, ips, p)) :: e
  }

  /** A desired route is carried by the tunnel of its peer's carrier exactly when the peer has a key. Then its gateway
      is the carrier's mesh IP, or the peer's own where the carrier has none. */
  lemma RouteFollowsTunnel(c: Pass, ips: map<string, string>, p: Peer, net: string)
    requires DistinctKeys(c.obs.peers) && AreMeshIPs(c.obs.peers, ips)
    requires p in c.obs.peers && Routed(c.node, p, c.mem.offline, c.obs.now) && net in Networks(p.routable)
    ensures var k := Carrier(c.Outcome(), p.pubKey);
      k in c.Outcome().desired && net in c.Outcome().desired[k].allowed <==> p.pubKey != ""
    ensures p.pubKey != "" ==>
      var carrier := c.Outcome().desired[Carrier(c.Outcome(), p.pubKey)].peer;
      Gateway(c.Outcome().relayRoutes, ips, p) == if carrier.meshIP != "" then carrier.meshIP else p.meshIP
    ensures R.Entry(net, Gateway(c.Outcome().relayRoutes, ips, p)) in
            WantedRoutes(c.node, c.obs, c.mem.offline, c.Outcome().relayRoutes, ips, c.obs.peers)
  {
    var g := Gateway(c.Outcome().relayRoutes, ips, p);
    assert R.Entry(net, g) in RoutesFor(p, g);
    if p.pubKey == "" {
      NoEntryWithoutKey(c);
    } else {
      GatewayIsCarrier(c, ips, p);
      CidrsPlaced(c, p);
    }
  }

  /** The desired routes are exactly those to the networks that peers other than this node announce, for peers with a
      mesh IP and not marked offline. */
  lemma WantedIff(c: Pass, ips: map<string, string>, e: R.Entry)
    ensures e in WantedRoutes(c.node, c.obs, c.mem.offline, c.Outcome().relayRoutes, ips, c.obs.peers) <==>
      exists p | p in c.obs.peers ::
        && p.pubKey != c.node.pubKey && p.meshIP != "" && (p.pubKey == "" || !Why.Ignored(c, p.pubKey))
        && Why.Announces(p.routable, e.network) && e.gateway == Gateway(c.Outcome().relayRoutes, ips, p)
  {
    forall p | p in c.obs.peers
      ensures e in RoutesFor(p, Gateway(c.Outcome().relayRoutes, ips, p)) <==>
        Why.Announces(p.routable, e.network) && e.gateway == Gateway(c.Outcome().relayRoutes, ips, p)
    {
      Why.NetworksSpelled(p.routable, e.network);
      assert e == R.Entry(e.network, e.gateway);
    }
  }

  lemma NoEntryWithoutKey(c: Pass)
    requires DistinctKeys(c.obs.peers)
    ensures "" !in c.Outcome().desired && "" !in c.Outcome().relayRoutes
  {
  }

  lemma GatewayIsCarrier(c: Pass, ips: map<string, string>, p: Peer)
    requires DistinctKeys(c.obs.peers) && AreMeshIPs(c.obs.peers, ips)
    requires p in c.obs.peers && Routed(c.node, p, c.mem.offline, c.obs.now) && p.pubKey != ""
    ensures Carrier(c.Outcome(), p.pubKey) in c.Outcome().desired
    ensures var carrier := c.Outcome().desired[Carrier(c.Outcome(), p.pubKey)].peer;
      Gateway(c.Outcome().relayRoutes, ips, p) == if carrier.meshIP != "" then carrier.meshIP else p.meshIP
  {
    CarrierIsHost(c, p);
    CidrsPlaced(c, p);
    var h := c.Host(p);
    FindOwn(c.obs.peers, h);
    if h.pubKey in ips {
      var q :| q in c.obs.peers && q.pubKey == h.pubKey != "" && q.meshIP != "";
      FindOwn(c.obs.peers, q);
    }
  }

  /** The one exception: a peer without a key gets kernel routes although no tunnel carries them. */
  lemma KeylessPeerStillRouted(c: Pass, ips: map<string, string>, p: Peer, net: string)
    requires c.obs.peers == [p] && p.pubKey == "" && c.node.pubKey != "" && p.meshIP != ""
    requires net in Networks(p.routable)
    ensures WantedRoutes(c.node, c.obs, c.mem.offline, c.Outcome().relayRoutes, ips, c.obs.peers) != {}
    ensures c.Outcome().desired == map[]
  {
    var relays := c.Outcome().relayRoutes;
    var e := R.Entry(net, Gateway(relays, ips, p));
    assert p in c.obs.peers && Routed(c.node, p, c.mem.offline, c.obs.now) &&
      e in RoutesFor(p, Gateway(relays, ips, p));
    assert e in WantedRoutes(c.node, c.obs, c.mem.offline, relays, ips, c.obs.peers);
    assert c.HostKeysIn(c.obs.peers) == {};
  }

  lemma WantedStep(n: Node, obs: Observation, offline: map<string, int>, relays: map<string, string>,
                   ips: map<string, string>, s: seq<Peer>, p: Peer)
    ensures WantedRoutes(n, obs, offline, relays, ips, s + [p]) ==
      WantedRoutes(n, obs, offline, relays, ips, s) +
      if Routed(n, p, offline, obs.now) then RoutesFor(p, Gateway(relays, ips, p)) else {}
  {
  }

  lemma WantedSameVerdicts(n: Node, obs: Observation, offline: map<string, int>, offline': map<string, int>,
                           relays: map<string, string>, ips: map<string, string>)
    requires forall k :: Offline(offline, k, obs.now) == Offline(offline', k, obs.now)
    ensures WantedRoutes(n, obs, offline, relays, ips, obs.peers) ==
      WantedRoutes(n, obs, offline', relays, ips, obs.peers)
  {
    forall p ensures Routed(n, p, offline, obs.now) == Routed(n, p, offline', obs.now) {
    }
  }

  lemma ExpireKeepsVerdict(offline: map<string, int>, keys: set<string>, key: string, now: int)
    ensures Offline(Expire(offline, keys, now), key, now) == Offline(offline, key, now)
  {
  }

  /** Asking once more about a peer already asked about changes nothing. */
  lemma ExpireSettled(offline: map<string, int>, keys: set<string>, key: string, now: int)
    requires key in keys || key == ""
    ensures Expire(Expire(offline, keys, now), {key}, now) == Expire(offline, keys, now)
  {
  }

  lemma ExpireOneMore(offline: map<string, int>, keys: set<string>, key: string, now: int)
    ensures Expire(Expire(offline, keys, now), {key}, now) == Expire(offline, keys + {key}, now)
  {
  }

  lemma AddAllowedTwice(desired: map<string, Config>, host: Peer, xs: set<string>, ys: set<string>)
    ensures AddAllowed(AddAllowed(desired, host, xs), host, ys) == AddAllowed(desired, host, xs + ys)
  {
    var was := if host.pubKey in desired then desired[host.pubKey] else Config(host, {});
    assert was.allowed + xs + ys == was.allowed + (xs + ys);
  }

  // ---- The object ----

  /** What the health and probe loops count and hold per peer. */
  datatype Vitals = Vitals(
    healthFailures: map<string, int>, transferTotals: map<string, int>, probeFailures: map<string, int>,
    probing: set<string>)

  function Without(v: Vitals, key: string): Vitals {
    Vitals(v.healthFailures - {key}, v.transferTotals - {key}, v.probeFailures - {key}, v.probing - {key})
  }

  /** A count kept for a peer, if any. */
  function CountOf(m: map<string, int>, key: string): Option<int> {
    if key in m then Some(m[key]) else None
  }

  /** Forgetting a peer leaves nothing of it and everything of the others. */
  lemma ForgetsOnly(v: Vitals, key: string, other: string)
    ensures var w := Without(v, key);
      && (CountOf(w.healthFailures, other) == if other == key then None else CountOf(v.healthFailures, other))
      && (CountOf(w.transferTotals, other) == if other == key then None else CountOf(v.transferTotals, other))
      && (CountOf(w.probeFailures, other) == if other == key then None else CountOf(v.probeFailures, other))
      && (other in w.probing <==> other != key && other in v.probing)
  {
  }

  class Health {
    var healthFailures: map<string, int>
    var transferTotals: map<string, int>
    var probeFailures: map<string, int>
    var probing: set<string>

    function Abstract(): Vitals
      reads this
    {
      Vitals(healthFailures, transferTotals, probeFailures, probing)
    }

    constructor ()
      ensures Abstract() == Vitals(map[], map[], map[], {})
    {
      healthFailures, transferTotals, probeFailures, probing := map[], map[], map[], {};
    }

    method Forget(key: string)
      modifies this
      ensures Abstract() == Without(old(Abstract()), key)
    {
      healthFailures, transferTotals := healthFailures - {key}, transferTotals - {key};
      probing := probing - {key};
      probeFailures := probeFailures - {key};
    }
  }

  class Daemon {
    const node: Node
    var relayRoutes: map<string, string>
    var directStable: map<string, int>
    var offline: map<string, int>
    var device: map<string, WgPeer>
    var cache: map<string, string>
    var table: map<string, string>
    const health: Health
    const store: Store.PeerStore

    ghost function Mem(): Memory
      reads this
    {
      Memory(relayRoutes, directStable, offline)
    }

    ghost function Abstract(): State
      reads this
    {
      State(Mem(), Wg(device, cache))
    }

    constructor (n: Node)
      ensures node == n && Abstract() == INITIAL && table == map[]
      ensures store.isIPv6 == n.isIPv6 && store.peers == map[]
    {
      node := n;
      store := new Store.PeerStore(n.isIPv6);
      relayRoutes, directStable, offline, device, cache, table := map[], map[], map[], map[], map[], map[];
      health := new Health();
    }

    method IsTemporarilyOffline(key: string, now: int) returns (yes: bool)
      modifies this`offline
      ensures yes == Offline(old(offline), key, now)
      ensures offline == Expire(old(offline), {key}, now)
    {
      if key == "" || key !in offline {
        yes := false;
      } else if now > offline[key] {
        offline := offline - {key};
        yes := false;
      } else {
        yes := true;
      }
    }

    /** First loop of buildDesiredPeerConfigsWithHandshakes. */
    method RelayCandidates(obs: Observation) returns (candidates: seq<Peer>)
      modifies this`offline
      ensures candidates == old(Pass(node, Mem(), obs)).Candidates()
      ensures offline == Expire(old(offline), Asked(node, obs.peers), obs.now)
    {
      ghost var c := Pass(node, Mem(), obs);
      candidates := [];
      for i := 0 to |obs.peers|
        invariant candidates == c.CandidatesIn(obs.peers[..i])
        invariant offline == Expire(old(offline), Asked(node, obs.peers[..i]), obs.now)
      {
        var p := obs.peers[i];
        CandidateStep(c, i);
        if p.pubKey == node.pubKey || p.pubKey == "" {
          continue;
        }
        ExpireKeepsVerdict(old(offline), Asked(node, obs.peers[..i]), p.pubKey, obs.now);
        ExpireOneMore(old(offline), Asked(node, obs.peers[..i]), p.pubKey, obs.now);
        var off := IsTemporarilyOffline(p.pubKey, obs.now);
        if off {
          continue;
        }
        if p.introducer && p.endpoint != "" && obs.now - p.lastSeen <= RELAY_CANDIDATE_MAX_AGE {
          candidates := candidates + [p];
        }
      }
      assert obs.peers[..|obs.peers|] == obs.peers;
    }

    static lemma CandidateStep(c: Pass, i: nat)
      requires i < |c.obs.peers|
      ensures var p, peers := c.obs.peers[i], c.obs.peers;
        && c.CandidatesIn(peers[..i + 1]) == c.CandidatesIn(peers[..i]) + (if c.IsCandidate(p) then [p] else [])
        && Asked(c.node, peers[..i + 1]) ==
             if p.pubKey == c.node.pubKey || p.pubKey == "" then Asked(c.node, peers[..i])
             else Asked(c.node, peers[..i]) + {p.pubKey}
    {
      var p, peers := c.obs.peers[i], c.obs.peers;
      assert peers[..i + 1] == peers[..i] + [p] && peers[..i + 1][..i] == peers[..i];
    }

    /** The addAllowedIP calls for one peer. */
    static method AddCidrs(desired: map<string, Config>, host: Peer, p: Peer) returns (d: map<string, Config>)
      ensures d == AddAllowed(desired, host, Cidrs(p))
    {
      ghost var own := {p.meshIP + "/32"};
      d := AddAllowed(desired, host, {p.meshIP + "/32"});
      if p.meshIPv6 != "" {
        AddAllowedTwice(desired, host, own, {p.meshIPv6 + "/128"});
        d := AddAllowed(d, host, {p.meshIPv6 + "/128"});
        own := own + {p.meshIPv6 + "/128"};
      }
      AddAllowedTwice(desired, host, own, Networks(p.routable));
      d := AddNetworks(d, host, p.routable);
      assert own + Networks(p.routable) == Cidrs(p);
    }

    static method AddNetworks(desired: map<string, Config>, host: Peer, routable: seq<string>)
      returns (d: map<string, Config>)
      requires host.pubKey in desired
      ensures d == AddAllowed(desired, host, Networks(routable))
    {
      d := desired;
      AddNothing(desired, host);
      assert Networks(routable[..0]) == {};
      for i := 0 to |routable|
        invariant d == AddAllowed(desired, host, Networks(routable[..i]))
      {
        var network := TrimSpace(routable[i]);
        NetworksStep(routable, i);
        if network != "" {
          AddAllowedTwice(desired, host, Networks(routable[..i]), {network});
          d := AddAllowed(d, host, {network});
        }
        assert Networks(routable[..i + 1]) == Networks(routable[..i]) + if network != "" then {network} else {};
        assert Networks(routable[..i]) + {} == Networks(routable[..i]);
      }
      assert routable[..|routable|] == routable;
    }

    static lemma AddNothing(desired: map<string, Config>, host: Peer)
      requires host.pubKey in desired
      ensures AddAllowed(desired, host, {}) == desired
    {
      var was := desired[host.pubKey];
      assert was.allowed + {} == was.allowed;
    }

    /** The body of the second loop up to the AllowedIPs: offline check, relay decision, hysteresis, relay choice. */
    method Decide(p: Peer, candidates: seq<Peer>, obs: Observation, ghost c: Pass) returns (v: Verdict)
      requires c.node == node && c.obs == obs && c.mem.relayRoutes == relayRoutes && c.mem.directStable == directStable
      requires offline == Expire(c.mem.offline, Asked(node, obs.peers), obs.now) && p in obs.peers
      requires candidates == c.Candidates()
      modifies this`offline
      ensures offline == old(offline)
      ensures v == VerdictOf(c, p)
    {
      if p.pubKey == node.pubKey || p.pubKey == "" || p.meshIP == "" {
        return Skip;
      }
      ExpireKeepsVerdict(c.mem.offline, Asked(node, obs.peers), p.pubKey, obs.now);
      assert p.pubKey in Asked(node, obs.peers);
      ExpireSettled(c.mem.offline, Asked(node, obs.peers), p.pubKey, obs.now);
      var off := IsTemporarilyOffline(p.pubKey, obs.now);
      if off {
        return Skip;
      }
      var relayIt := ShouldRelay(node, p, candidates, obs);
      var held := false;
      if p.pubKey in relayRoutes && !relayIt {
        var cycles := (if p.pubKey in directStable then directStable[p.pubKey] else 0) + 1;
        if cycles < RELAY_HYSTERESIS_THRESHOLD {
          relayIt, held := true, true;
        }
      }
      if relayIt {
        var relay := SelectRelay(node, p.pubKey, candidates);
        if relay.Some? {
          return Place(relay.value, true, held);
        }
      }
      return Place(p, false, held);
    }

    /** The end of the second loop's body: write the verdict to the three maps. */
    static method Record(desired: map<string, Config>, routes: map<string, string>, stable: map<string, int>,
                         p: Peer, v: Verdict, cycles: int)
      returns (desired': map<string, Config>, routes': map<string, string>, stable': map<string, int>)
      ensures Plan(desired', routes', stable') == Put(Plan(desired, routes, stable), p, v, cycles)
    {
      desired', routes', stable' := desired, routes, stable;
      if v.Place? {
        if v.held {
          stable' := stable'[p.pubKey := cycles];
        }
        if v.relayed {
          routes' := routes'[p.pubKey := v.host.pubKey];
        }
        desired' := AddCidrs(desired', v.host, p);
      }
    }

    /** Second loop of buildDesiredPeerConfigsWithHandshakes. */
    method PlacePeers(obs: Observation, candidates: seq<Peer>, ghost c: Pass)
      returns (desired: map<string, Config>, routes: map<string, string>, stable: map<string, int>)
      requires c.node == node && c.obs == obs && c.mem.relayRoutes == relayRoutes && c.mem.directStable == directStable
      requires offline == Expire(c.mem.offline, Asked(node, obs.peers), obs.now)
      requires candidates == c.Candidates()
      modifies this`offline
      ensures offline == old(offline)
      ensures Plan(desired, routes, stable) == Fold(obs.peers, Verdicts(c), CyclesOf(c))
    {
      desired, routes, stable := map[], map[], map[];
      ghost var vs, cycles := Verdicts(c), CyclesOf(c);
      for i := 0 to |obs.peers|
        invariant PeerKeys(obs.peers[..i]) <= cycles.Keys
        invariant Plan(desired, routes, stable) == Fold(obs.peers[..i], vs[..i], cycles)
        invariant offline == old(offline)
      {
        var p := obs.peers[i];
        FoldStep(obs.peers, vs, cycles, i);
        var v := Decide(p, candidates, obs, c);
        var n := (if p.pubKey in directStable then directStable[p.pubKey] else 0) + 1;
        assert v == vs[i] && n == cycles[p.pubKey];
        desired, routes, stable := Record(desired, routes, stable, p, v, n);
      }
      assert obs.peers[..|obs.peers|] == obs.peers && vs[..|obs.peers|] == vs;
    }

    /** buildDesiredPeerConfigsWithHandshakes. */
    method BuildDesired(obs: Observation)
      returns (desired: map<string, Config>, routes: map<string, string>, stable: map<string, int>)
      requires DistinctKeys(obs.peers)
      modifies this`offline
      ensures Plan(desired, routes, stable) == old(Pass(node, Mem(), obs)).Outcome()
      ensures offline == Expire(old(offline), Asked(node, obs.peers), obs.now)
    {
      ghost var c := Pass(node, Mem(), obs);
      var candidates := RelayCandidates(obs);
      desired, routes, stable := PlacePeers(obs, candidates, c);
      FoldIsOutcome(c);
    }

    /** First loop of applyDesiredPeerConfigs. */
    method PruneDevice(desired: set<string>)
      modifies this`device, this`cache
      ensures Wg(device, cache) == Prune(old(Wg(device, cache)), desired)
    {
      var existing := device.Keys;
      var todo := existing;
      ghost var gone := {};
      while todo != {}
        invariant todo <= existing && gone == (existing - todo) - desired
        invariant device == old(device) - gone && cache == old(cache) - gone
        decreases |todo|
      {
        var key :| key in todo;
        if key !in desired {
          RemoveOneMore(old(device), gone, key);
          RemoveOneMore(old(cache), gone, key);
          device := device - {key};
          cache := cache - {key};
          gone := gone + {key};
        }
        todo := todo - {key};
      }
      assert gone == existing - desired;
    }

    /** Body of the second loop of applyDesiredPeerConfigs. */
    method PushPeer(key: string, cfg: Config)
      modifies this`device, this`cache
      ensures Wg(device, cache) == PushOne(node, old(Wg(device, cache)), key, cfg)
    {
      if cfg.peer.endpoint == "" || (node.disableIPv6 && node.isIPv6(cfg.peer.endpoint)) {
        return;
      }
      var allowed := MapKeysSorted(cfg.allowed);
      if |allowed| == 0 {
        assert cfg.allowed == Elements(allowed) == {};
        return;
      }
      assert allowed[0] in Elements(allowed);
      var allowedCSV := Join(allowed, ',');
      var signature := cfg.peer.endpoint + ['|'] + allowedCSV;
      if key in cache && cache[key] == signature {
        return;
      }
      cache := cache[key := signature];
      device := SetPeer(device, key, cfg.peer.endpoint, allowedCSV);
    }

    /** applyDesiredPeerConfigs, the device calls all succeeding; walk is the order Go happened to pick. */
    method ApplyDesired(desired: map<string, Config>) returns (ghost walk: seq<string>)
      modifies this`device, this`cache
      ensures WalkOf(walk, desired.Keys)
      ensures Wg(device, cache) == Apply(node, old(Wg(device, cache)), desired, walk)
    {
      PruneDevice(desired.Keys);
      ghost var pruned := Wg(device, cache);
      var todo := desired.Keys;
      walk := [];
      while todo != {}
        invariant todo <= desired.Keys && WalkOf(walk, desired.Keys - todo)
        invariant forall k | k in walk :: k in desired
        invariant Wg(device, cache) == Push(node, pruned, desired, walk)
        decreases |todo|
      {
        var key :| key in todo;
        assert key !in Elements(walk);
        PushPeer(key, desired[key]);
        ghost var before := walk;
        walk := walk + [key];
        assert walk[..|walk| - 1] == before;
        assert Elements(walk) == Elements(before) + {key};
        todo := todo - {key};
      }
    }

    /** meshIPByPubKey of syncPeerRoutes. */
    static method MeshIPs(peers: seq<Peer>) returns (ips: map<string, string>)
      requires DistinctKeys(peers)
      ensures AreMeshIPs(peers, ips)
    {
      ips := map[];
      for i := 0 to |peers|
        invariant AreMeshIPs(peers[..i], ips)
      {
        var p := peers[i];
        assert peers[..i + 1] == peers[..i] + [p];
        assert forall q | q in peers[..i] :: q.pubKey != p.pubKey;
        if p.pubKey != "" && p.meshIP != "" {
          ips := ips[p.pubKey := p.meshIP];
        }
      }
      assert peers[..|peers|] == peers;
    }

    static method NetworkRoutes(p: Peer, gateway: string) returns (out: seq<R.Entry>)
      ensures Elements(out) == RoutesFor(p, gateway)
    {
      out := [];
      for i := 0 to |p.routable|
        invariant Elements(out) == set net | net in Networks(p.routable[..i]) :: R.Entry(net, gateway)
      {
        var network := TrimSpace(p.routable[i]);
        NetworksStep(p.routable, i);
        if network == "" {
          continue;
        }
        R.Appended(out, R.Entry(network, gateway));
        out := out + [R.Entry(network, gateway)];
      }
      assert p.routable[..|p.routable|] == p.routable;
    }

    /** The body of the loop of syncPeerRoutes: one peer's routes. */
    method RoutesOf(p: Peer, obs: Observation, meshIPs: map<string, string>) returns (more: seq<R.Entry>)
      requires p in obs.peers && offline == Expire(offline, Asked(node, obs.peers), obs.now)
      modifies this`offline
      ensures offline == old(offline)
      ensures Elements(more) ==
        if Routed(node, p, offline, obs.now) then RoutesFor(p, Gateway(relayRoutes, meshIPs, p)) else {}
    {
      if p.pubKey == node.pubKey || p.meshIP == "" {
        return [];
      }
      assert p.pubKey in Asked(node, obs.peers) || p.pubKey == "";
      ExpireSettled(offline, Asked(node, obs.peers), p.pubKey, obs.now);
      var off := IsTemporarilyOffline(p.pubKey, obs.now);
      if off {
        return [];
      }
      var gateway := p.meshIP;
      if p.pubKey in relayRoutes && relayRoutes[p.pubKey] in meshIPs {
        gateway := meshIPs[relayRoutes[p.pubKey]];
      }
      more := NetworkRoutes(p, gateway);
    }

    /** The desired-route part of syncPeerRoutes, at the clock reading of the pass: the marks are already swept. */
    method DesiredRoutes(obs: Observation) returns (desired: seq<R.Entry>, ghost ips: map<string, string>)
      requires DistinctKeys(obs.peers) && offline == Expire(offline, Asked(node, obs.peers), obs.now)
      modifies this`offline
      ensures offline == old(offline) && AreMeshIPs(obs.peers, ips)
      ensures Elements(desired) == WantedRoutes(node, obs, offline, relayRoutes, ips, obs.peers)
    {
      var meshIPs := MeshIPs(obs.peers);
      ips := meshIPs;
      desired := [];
      for i := 0 to |obs.peers|
        invariant Elements(desired) == WantedRoutes(node, obs, offline, relayRoutes, ips, obs.peers[..i])
        invariant offline == old(offline)
      {
        var p := obs.peers[i];
        assert obs.peers[..i + 1] == obs.peers[..i] + [p];
        WantedStep(node, obs, offline, relayRoutes, ips, obs.peers[..i], p);
        var more := RoutesOf(p, obs, meshIPs);
        assert Elements(desired + more) == Elements(desired) + Elements(more);
        desired := desired + more;
      }
      assert obs.peers[..|obs.peers|] == obs.peers;
    }

    /** The kernel half of syncPeerRoutes. `current` is what `ip route show` printed. */
    method SyncTable(current: seq<R.Entry>, wanted: seq<R.Entry>)
      modifies this`table
      ensures R.Synced(table, old(table), current, wanted)
      ensures R.Lists(current, old(table), wanted) && R.OneGateway(wanted) && R.Unambiguous(current + wanted) ==>
        R.IsTarget(table, old(table), wanted)
    {
      var toAdd, toRemove := R.CalculateDiff(current, wanted);
      ghost var was := table;
      table := R.ApplyRouteDiff(table, toAdd, toRemove);
      assert table == R.Applied(was, toAdd, toRemove);
      if R.Lists(current, was, wanted) && R.OneGateway(wanted) && R.Unambiguous(current + wanted) {
        R.DiffReachesTarget(was, current, wanted, toAdd, toRemove);
      }
    }

    /** reconcile: plan, then device, then kernel routes, each brought to what the pass asks for. */
    method Reconcile(obs: Observation, current: seq<R.Entry>)
      returns (ghost walk: seq<string>, ghost wanted: seq<R.Entry>, ghost ips: map<string, string>)
      requires DistinctKeys(obs.peers)
      modifies this
      ensures Enabled(node, old(Abstract()), Reconciled(obs, walk))
      ensures Abstract() == Next(node, old(Abstract()), Reconciled(obs, walk))
      ensures AreMeshIPs(obs.peers, ips)
      ensures Elements(wanted) == WantedRoutes(node, obs, old(offline), relayRoutes, ips, obs.peers)
      ensures R.Synced(table, old(table), current, wanted)
      ensures R.Lists(current, old(table), wanted) && R.OneGateway(wanted) && R.Unambiguous(current + wanted) ==>
        R.IsTarget(table, old(table), wanted)
    {
      ghost var marks := offline;
      var desired, routes, stable := BuildDesired(obs);
      relayRoutes, directStable := routes, stable;
      walk := ApplyDesired(desired);
      ExpireTwice(marks, Asked(node, obs.peers), obs.now);
      var want;
      want, ips := DesiredRoutes(obs);
      wanted := want;
      SyncTable(current, want);
      WantedSameVerdicts(node, obs, offline, marks, relayRoutes, ips);
    }

    /** evictPeerFromPool. */
    method Evict(key: string, now: int)
      modifies this, health, store
      ensures Abstract() == Next(node, old(Abstract()), Event.Evict(key, now)) && table == old(table)
      ensures health.Abstract() == if key == "" then old(health.Abstract()) else Without(old(health.Abstract()), key)
      ensures store.peers ==
        if key == "" then old(store.peers) else Store.Next(store.isIPv6, old(store.peers), Store.Event.Remove(key))
    {
      if key != "" {
        MarkAndDrop(key, now);
        store.Remove(key);
        health.Forget(key);
      }
    }

    method MarkAndDrop(key: string, now: int)
      modifies this
      ensures Mem() == Memory(old(relayRoutes) - {key}, old(directStable) - {key},
                              old(offline)[key := now + TEMPORARY_OFFLINE_TTL])
      ensures Wg(device, cache) == Evicted(old(Wg(device, cache)), key) && table == old(table)
    {
      offline := offline[key := now + TEMPORARY_OFFLINE_TTL];
      device := device - {key};
      cache := cache - {key};
      relayRoutes := relayRoutes - {key};
      directStable := directStable - {key};
    }
  }

  lemma NetworksStep(routable: seq<string>, i: nat)
    requires i < |routable|
    ensures var net := TrimSpace(routable[i]);
      Networks(routable[..i + 1]) == Networks(routable[..i]) + if net != "" then {net} else {}
  {
    assert routable[..i + 1] == routable[..i] + [routable[i]];
  }

  lemma FoldStep(peers: seq<Peer>, vs: seq<Verdict>, cycles: map<string, int>, i: nat)
    requires i < |peers| == |vs| && PeerKeys(peers) <= cycles.Keys
    ensures peers[i].pubKey in cycles && PeerKeys(peers[..i]) <= cycles.Keys && PeerKeys(peers[..i + 1]) <= cycles.Keys
    ensures Fold(peers[..i + 1], vs[..i + 1], cycles) ==
            Put(Fold(peers[..i], vs[..i], cycles), peers[i], vs[i], cycles[peers[i].pubKey])
  {
    assert peers[..i + 1][..i] == peers[..i] && vs[..i + 1][..i] == vs[..i];
    assert peers[i].pubKey in PeerKeys(peers);
    assert PeerKeys(peers[..i]) <= PeerKeys(peers) && PeerKeys(peers[..i + 1]) <= PeerKeys(peers);
  }

  lemma RemoveOneMore<T>(m: map<string, T>, gone: set<string>, key: string)
    ensures m - gone - {key} == m - (gone + {key})
  {
  }

  lemma ExpireTwice(offline: map<string, int>, keys: set<string>, now: int)
    ensures Expire(Expire(offline, keys, now), keys, now) == Expire(offline, keys, now)
    ensures forall k :: Offline(Expire(offline, keys, now), k, now) == Offline(offline, k, now)
  {
  }
}
