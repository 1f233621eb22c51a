/** The reconcile loop as a state machine: runs of passes, evictions and recoveries
    (pkg/daemon/daemon.go: reconcile, evictPeerFromPool, clearTemporarilyOffline, isTemporarilyOffline). */
module Reconcile {
  import Strings
  import opened Sorting
  import opened Relay
  import opened RelayPlan
  import opened Device

  const TEMPORARY_OFFLINE_TTL := 30 * SECOND

  datatype State = State(mem: Memory, wg: Wg)

  datatype Event =
    | Reconciled(obs: Observation, walk: seq<string>)
    | Evict(key: string, now: int)
    | Recover(key: string)

  const INITIAL := State(Memory(map[], map[], map[]), Wg(map[], map[]))

  /** isTemporarilyOffline deletes the expired marks it comes across. */
  function Expire(offline: map<string, int>, keys: set<string>, now: int): map<string, int> {
    map k | k in offline && !(k in keys && k != "" && now > offline[k]) :: offline[k]
  }

  function Asked(n: Node, peers: seq<Peer>): set<string> {
    PeerKeys(peers) - {n.pubKey, ""}
  }

  ghost predicate Enabled(n: Node, s: State, e: Event) {
    e.Reconciled? ==> DistinctKeys(e.obs.peers) && WalkOf(e.walk, Pass(n, s.mem, e.obs).Outcome().desired.Keys)
  }

  ghost function Next(n: Node, s: State, e: Event): State
    requires Enabled(n, s, e)
  {
    match e
    case Reconciled(obs, walk) =>
      var plan := Pass(n, s.mem, obs).Outcome();
      State(Memory(plan.relayRoutes, plan.directStable, Expire(s.mem.offline, Asked(n, obs.peers), obs.now)),
            Apply(n, s.wg, plan.desired, walk))
    case Evict(key, now) =>
      if key == "" then s
      else State(Memory(s.mem.relayRoutes - {key}, s.mem.directStable - {key},
                        s.mem.offline[key := now + TEMPORARY_OFFLINE_TTL]), Evicted(s.wg, key))
    case Recover(key) =>
      if key == "" then s else s.(mem := s.mem.(offline := s.mem.offline - {key}))
  }

  /** A run of the daemon whose `wg` calls all succeed. */
  datatype Trace = Trace(states: seq<State>, events: seq<Event>)

  ghost predicate IsRun(n: Node, tr: Trace) {
    && |tr.states| == |tr.events| + 1
    && tr.states[0] == INITIAL
    && forall i | 0 <= i < |tr.events| ::
         Enabled(n, tr.states[i], tr.events[i]) && tr.states[i + 1] == Next(n, tr.states[i], tr.events[i])
  }

  ghost predicate PassAt(tr: Trace, i: nat) {
    i < |tr.events| && tr.events[i].Reconciled?
  }

  ghost function PassOf(n: Node, tr: Trace, i: nat): Pass
    requires IsRun(n, tr) && PassAt(tr, i)
  {
    Pass(n, tr.states[i].mem, tr.events[i].obs)
  }

  // ---- The device over a run ----

  /** Endpoints and CIDRs without the separators of the signature. */
  ghost predicate Tidy(peers: seq<Peer>) {
    forall p | p in peers :: '|' !in p.endpoint && forall x | x in Cidrs(p) :: ',' !in x
  }

  /** No CIDR is asked for through two carriers, and every carrier can be dialled. */
  ghost predicate Fit(c: Pass) {
    && SharedTogether(c)
    && (forall p | p in c.obs.peers && c.Eligible(p) ::
          c.Host(p).endpoint != "" && !(c.node.disableIPv6 && c.node.isIPv6(c.Host(p).endpoint)))
  }

  lemma UsableIff(c: Pass)
    requires DistinctKeys(c.obs.peers)
    ensures AllUsable(c.node, c.Outcome().desired) <==>
            forall p | p in c.obs.peers && c.Eligible(p) :: Usable(c.node, c.Host(p).endpoint)
  {
    var d := c.Outcome().desired;
    forall p | p in c.obs.peers && c.Eligible(p)
      ensures c.Host(p).pubKey in d && d[c.Host(p).pubKey].peer == c.Host(p)
    {
      assert c.Host(p).pubKey in c.HostKeysIn(c.obs.peers);
      FindOwn(c.obs.peers, c.Host(p));
    }
    forall k | k in d ensures exists p :: p in c.obs.peers && c.Eligible(p) && c.Host(p).pubKey == k {
      assert k in c.HostKeysIn(c.obs.peers);
    }
  }

  lemma FitIff(c: Pass)
    requires DistinctKeys(c.obs.peers)
    ensures Fit(c) <==> Disjoint(c.Outcome().desired) && AllUsable(c.node, c.Outcome().desired)
  {
    DisjointIff(c);
    UsableIff(c);
  }

  lemma TidyClean(c: Pass)
    requires DistinctKeys(c.obs.peers) && Tidy(c.obs.peers)
    ensures AllClean(c.Outcome().desired)
  {
    var d := c.Outcome().desired;
    forall k | k in d ensures Clean(Target(d[k])) {
      EntriesMeaningful(c, k);
      forall x | x in d[k].allowed ensures ',' !in x {
        var p := CidrOwner(c, k, x);
      }
    }
  }

  ghost predicate AllTidy(tr: Trace) {
    forall i: nat | PassAt(tr, i) :: Tidy(tr.events[i].obs.peers)
  }

  ghost predicate Met(n: Node, tr: Trace, i: nat)
    requires IsRun(n, tr) && PassAt(tr, i)
  {
    tr.states[i + 1].wg.device == Targets(PassOf(n, tr, i).Outcome().desired)
  }

  lemma EvictedKeeps(n: Node, s: Wg, key: string)
    requires Faithful(s) && Sane(n, s.device)
    ensures Faithful(Evicted(s, key)) && Sane(n, Evicted(s, key).device)
  {
  }

  /** One pass from a faithful device: met exactly when fit, and then faithful again. */
  lemma PassExact(n: Node, s: State, obs: Observation, walk: seq<string>)
    requires Enabled(n, s, Reconciled(obs, walk)) && Tidy(obs.peers)
    requires Faithful(s.wg) && Sane(n, s.wg.device)
    ensures var c := Pass(n, s.mem, obs); var s' := Next(n, s, Reconciled(obs, walk));
      && (s'.wg.device == Targets(c.Outcome().desired) <==> Fit(c))
      && (Fit(c) ==> Faithful(s'.wg) && Sane(n, s'.wg.device))
  {
    var c := Pass(n, s.mem, obs);
    var desired := c.Outcome().desired;
    FitIff(c);
    TidyClean(c);
    ApplyExact(n, s.wg, desired, walk);
    if Fit(c) {
      ApplyReachesDesired(n, s.wg, desired, walk);
      assert forall k | k in walk :: k in Elements(walk);
      PushSane(n, Prune(s.wg, desired.Keys), desired, walk);
    }
  }

  /** While every pass so far was fit, the cache describes the device. */
  lemma {:induction false} FaithfulUpTo(n: Node, tr: Trace, m: nat)
    requires IsRun(n, tr) && AllTidy(tr) && m <= |tr.events|
    requires forall i: nat | i < m && PassAt(tr, i) :: Fit(PassOf(n, tr, i))
    ensures Faithful(tr.states[m].wg) && Sane(n, tr.states[m].wg.device)
  {
    if m > 0 {
      FaithfulUpTo(n, tr, m - 1);
      FaithfulStep(n, tr, m - 1);
    }
  }

  lemma FaithfulStep(n: Node, tr: Trace, i: nat)
    requires IsRun(n, tr) && AllTidy(tr) && i < |tr.events| && (PassAt(tr, i) ==> Fit(PassOf(n, tr, i)))
    requires Faithful(tr.states[i].wg) && Sane(n, tr.states[i].wg.device)
    ensures Faithful(tr.states[i + 1].wg) && Sane(n, tr.states[i + 1].wg.device)
  {
    var s, e := tr.states[i], tr.events[i];
    match e
    case Reconciled(obs, walk) =>
      assert PassAt(tr, i);
      PassExact(n, s, obs, walk);
    case Evict(key, _) => EvictedKeeps(n, s.wg, key);
    case Recover(_) =>
  }

  lemma {:induction false} MetMeansFit(n: Node, tr: Trace, i: nat)
    requires IsRun(n, tr) && AllTidy(tr) && PassAt(tr, i)
    requires forall i: nat | PassAt(tr, i) :: Met(n, tr, i)
    ensures Fit(PassOf(n, tr, i))
  {
    forall j: nat | j < i && PassAt(tr, j) ensures Fit(PassOf(n, tr, j)) {
      MetMeansFit(n, tr, j);
    }
    FaithfulUpTo(n, tr, i);
    MetFits(n, tr, i);
  }

  lemma MetFits(n: Node, tr: Trace, i: nat)
    requires IsRun(n, tr) && AllTidy(tr) && PassAt(tr, i) && Met(n, tr, i)
    requires Faithful(tr.states[i].wg) && Sane(n, tr.states[i].wg.device)
    ensures Fit(PassOf(n, tr, i))
  {
    PassExact(n, tr.states[i], tr.events[i].obs, tr.events[i].walk);
  }

  /** Over every run and every walk order: the device equals the desired configuration after every pass exactly when
      no pass asks for a CIDR through two carriers or for a carrier it cannot dial; and then every cached signature,
      at every point of the run, describes what the device holds. */
  lemma DeviceFollowsPlans(n: Node, tr: Trace)
    requires IsRun(n, tr) && AllTidy(tr)
    ensures (forall i: nat | PassAt(tr, i) :: Met(n, tr, i)) <==>
      (forall i: nat | PassAt(tr, i) :: Fit(PassOf(n, tr, i)))
    ensures (forall i: nat | PassAt(tr, i) :: Fit(PassOf(n, tr, i))) ==>
            forall m | 0 <= m <= |tr.events| :: Faithful(tr.states[m].wg)
  {
    if forall i: nat | PassAt(tr, i) :: Met(n, tr, i) {
      forall i: nat | PassAt(tr, i) ensures Fit(PassOf(n, tr, i)) {
        MetMeansFit(n, tr, i);
      }
    }
    if forall i: nat | PassAt(tr, i) :: Fit(PassOf(n, tr, i)) {
      forall i: nat | PassAt(tr, i) ensures Met(n, tr, i) {
        FaithfulUpTo(n, tr, i);
        PassExact(n, tr.states[i], tr.events[i].obs, tr.events[i].walk);
      }
      forall m | 0 <= m <= |tr.events| ensures Faithful(tr.states[m].wg) {
        FaithfulUpTo(n, tr, m);
      }
    }
  }

  // ---- What an overlapping pass leaves behind ----

  /** Event j does not evict key, and if it is a pass it asks w of key. */
  ghost predicate AsksSame(n: Node, tr: Trace, key: string, w: WgPeer, j: nat)
    requires IsRun(n, tr) && j < |tr.events|
  {
    if PassAt(tr, j) then
      var d := PassOf(n, tr, j).Outcome().desired;
      key in d && Target(d[key]) == w
    else tr.events[j].Evict? ==> tr.events[j].key != key
  }

  lemma {:induction false} StarvedSince(n: Node, tr: Trace, key: string, cfg: Config, x: string, i: nat, m: nat)
    requires IsRun(n, tr) && i < m <= |tr.events| && Starved(tr.states[i + 1].wg, key, cfg, x)
    requires forall j | i < j < m :: AsksSame(n, tr, key, Target(cfg), j)
    ensures Starved(tr.states[m].wg, key, cfg, x)
    decreases m
  {
    if m > i + 1 {
      StarvedSince(n, tr, key, cfg, x, i, m - 1);
      StarvedStep(n, tr, key, cfg, x, m - 1);
    }
  }

  lemma StarvedStep(n: Node, tr: Trace, key: string, cfg: Config, x: string, j: nat)
    requires IsRun(n, tr) && j < |tr.events| && Starved(tr.states[j].wg, key, cfg, x)
    requires AsksSame(n, tr, key, Target(cfg), j)
    ensures Starved(tr.states[j + 1].wg, key, cfg, x)
  {
    if PassAt(tr, j) {
      StarvedStays(n, tr.states[j].wg, PassOf(n, tr, j).Outcome().desired, tr.events[j].walk, key, cfg, x);
    }
  }

  /** What every run keeps, fit or not: cached keys are on the device, no CIDR is held twice, every endpoint is
      usable. */
  lemma {:induction false} SoundUpTo(n: Node, tr: Trace, m: nat)
    requires IsRun(n, tr) && m <= |tr.events|
    ensures tr.states[m].wg.cache.Keys <= tr.states[m].wg.device.Keys && Sane(n, tr.states[m].wg.device)
  {
    if m > 0 {
      SoundUpTo(n, tr, m - 1);
      SoundStep(n, tr.states[m - 1], tr.events[m - 1]);
    }
  }

  lemma SoundStep(n: Node, s: State, e: Event)
    requires Enabled(n, s, e) && s.wg.cache.Keys <= s.wg.device.Keys && Sane(n, s.wg.device)
    ensures var wg := Next(n, s, e).wg; wg.cache.Keys <= wg.device.Keys && Sane(n, wg.device)
  {
    if e.Reconciled? {
      ApplySound(n, s.wg, Pass(n, s.mem, e.obs).Outcome().desired, e.walk);
    }
  }

  lemma ApplySound(n: Node, s: Wg, desired: map<string, Config>, walk: seq<string>)
    requires WalkOf(walk, desired.Keys) && s.cache.Keys <= s.device.Keys && Sane(n, s.device)
    ensures var s' := Apply(n, s, desired, walk); s'.cache.Keys <= s'.device.Keys && Sane(n, s'.device)
  {
    assert forall k | k in walk :: k in Elements(walk);
    CacheWithinDevice(n, Prune(s, desired.Keys), desired, walk);
    PushSane(n, Prune(s, desired.Keys), desired, walk);
  }

  /** Over every run: a pass whose plan asks for x through both k and l, and can dial them, leaves one of them without
      x; and that peer lacks x in every later state, however many clean passes there are in between, until a pass asks
      something else of that peer or it is evicted. */
  lemma OverlapOutlivesItself(n: Node, tr: Trace, i: nat, k: string, l: string, x: string) returns (victim: string)
    requires IsRun(n, tr) && PassAt(tr, i)
    requires var d := PassOf(n, tr, i).Outcome().desired;
      && k in d && l in d && k != l && x in d[k].allowed && x in d[l].allowed
      && Usable(n, d[k].peer.endpoint) && Usable(n, d[l].peer.endpoint)
    ensures victim in {k, l} && victim in PassOf(n, tr, i).Outcome().desired
    ensures var w := Target(PassOf(n, tr, i).Outcome().desired[victim]);
      forall m: nat | i < m <= |tr.events| && (forall j | i < j < m :: AsksSame(n, tr, victim, w, j)) ::
        victim in tr.states[m].wg.device && x !in tr.states[m].wg.device[victim].allowed
  {
    var c := PassOf(n, tr, i);
    SoundUpTo(n, tr, i);
    victim := OverlapStarves(n, tr.states[i].wg, c.Outcome().desired, tr.events[i].walk, k, l, x);
    var cfg := c.Outcome().desired[victim];
    forall m: nat | i < m <= |tr.events| && (forall j | i < j < m :: AsksSame(n, tr, victim, Target(cfg), j))
      ensures victim in tr.states[m].wg.device && x !in tr.states[m].wg.device[victim].allowed
    {
      StarvedSince(n, tr, victim, cfg, x, i, m);
    }
  }

  lemma {:induction false} ShrunkUpTo(n: Node, tr: Trace, m: nat)
    requires IsRun(n, tr) && AllTidy(tr) && m <= |tr.events|
    ensures AllShrunk(tr.states[m].wg)
  {
    if m > 0 {
      ShrunkUpTo(n, tr, m - 1);
      ShrunkStep(n, tr, m - 1);
    }
  }

  lemma ShrunkStep(n: Node, tr: Trace, i: nat)
    requires IsRun(n, tr) && AllTidy(tr) && i < |tr.events| && AllShrunk(tr.states[i].wg)
    ensures AllShrunk(tr.states[i + 1].wg)
  {
    match tr.events[i]
    case Reconciled(obs, walk) =>
      assert PassAt(tr, i);
      TidyClean(PassOf(n, tr, i));
      ApplyShrunk(n, tr.states[i].wg, PassOf(n, tr, i).Outcome().desired, walk);
    case Evict(key, _) => EvictShrunk(tr.states[i].wg, key);
    case Recover(_) =>
  }

  lemma EvictShrunk(s: Wg, key: string)
    requires AllShrunk(s)
    ensures AllShrunk(Evicted(s, key))
  {
    var e := Evicted(s, key);
    forall k | k in e.cache ensures k in e.device && exists signed :: Shrunk(e.device[k], e.cache[k], signed) {
      var signed :| Shrunk(s.device[k], s.cache[k], signed);
      assert Shrunk(e.device[k], e.cache[k], signed);
    }
  }

  /** Over every run, whatever the passes before it were like: a pass is met exactly when it is fit and asks for nothing
      that an earlier pass took from a peer the cache still vouches for. */
  lemma MetIff(n: Node, tr: Trace, i: nat)
    requires IsRun(n, tr) && AllTidy(tr) && PassAt(tr, i)
    ensures Met(n, tr, i) <==>
      Fit(PassOf(n, tr, i)) && Unstarved(tr.states[i].wg, PassOf(n, tr, i).Outcome().desired)
  {
    var c := PassOf(n, tr, i);
    ShrunkUpTo(n, tr, i);
    SoundUpTo(n, tr, i);
    TidyClean(c);
    FitIff(c);
    ApplyMetIff(n, tr.states[i].wg, c.Outcome().desired, tr.events[i].walk);
  }

  /** A pass without introducers gives every eligible peer its own entry. */
  lemma DirectEntry(c: Pass, p: Peer)
    requires DistinctKeys(c.obs.peers) && (forall q | q in c.obs.peers :: !q.introducer)
    requires p in c.obs.peers && c.Eligible(p)
    ensures p.pubKey in c.Outcome().desired && c.Outcome().desired[p.pubKey] == Config(p, Cidrs(p))
  {
    assert forall q | q in c.obs.peers && c.Eligible(q) :: c.Host(q) == q;
    FindOwn(c.obs.peers, p);
    OwnCidrs(c, p);
  }

  lemma OwnCidrs(c: Pass, p: Peer)
    requires DistinctKeys(c.obs.peers) && p in c.obs.peers && c.Eligible(p)
    requires forall q | q in c.obs.peers && c.Eligible(q) :: c.Host(q) == q
    ensures c.AllowedIn(c.obs.peers, p.pubKey) == Cidrs(p)
  {
    forall x | x in c.AllowedIn(c.obs.peers, p.pubKey) ensures x in Cidrs(p) {
      var q :| q in c.obs.peers && c.Eligible(q) && c.Host(q).pubKey == p.pubKey && x in Cidrs(q);
      FindOwn(c.obs.peers, q);
      FindOwn(c.obs.peers, p);
    }
  }

  /** A plain pass over two peers. */
  ghost predicate PlainPair(n: Node, p: Peer, q: Peer) {
    && p.pubKey != q.pubKey && n.pubKey !in {p.pubKey, q.pubKey} && !p.introducer && !q.introducer
    && "" !in {p.pubKey, q.pubKey, p.meshIP, q.meshIP} && Usable(n, p.endpoint) && Usable(n, q.endpoint)
  }

  /** The winner of a shared network without it. */
  function Stripped(p: Peer): Peer {
    p.(routable := [])
  }

  lemma PairPass(c: Pass, p: Peer, q: Peer)
    requires PlainPair(c.node, p, q) && c.obs.peers == [p, q] && c.mem.offline == map[]
    ensures DistinctKeys(c.obs.peers) && PairPlan(c.Outcome().desired, p, q)
    ensures Fit(c) <==> Cidrs(p) !! Cidrs(q)
  {
    PairDesired(c, p, q);
    FitIff(c);
    PairFits(c.node, c.Outcome().desired, p, q);
  }

  lemma PairDesired(c: Pass, p: Peer, q: Peer)
    requires PlainPair(c.node, p, q) && c.obs.peers == [p, q] && c.mem.offline == map[]
    ensures DistinctKeys(c.obs.peers) && PairPlan(c.Outcome().desired, p, q)
  {
    PairPeers(c.obs.peers, p, q);
    DirectEntry(c, p);
    DirectEntry(c, q);
    forall k | k in c.Outcome().desired ensures k == p.pubKey || k == q.pubKey {
      EntriesMeaningful(c, k);
    }
    PairKeys(c.Outcome().desired, p, q);
  }

  lemma PairKeys(d: map<string, Config>, p: Peer, q: Peer)
    requires p.pubKey in d && q.pubKey in d && forall k | k in d :: k == p.pubKey || k == q.pubKey
    ensures d.Keys == {p.pubKey, q.pubKey}
  {
  }

  lemma PairPeers(peers: seq<Peer>, p: Peer, q: Peer)
    requires peers == [p, q] && p.pubKey != q.pubKey
    ensures DistinctKeys(peers) && forall r :: r in peers <==> r == p || r == q
  {
    assert peers[0] == p && peers[1] == q;
  }

  /** The plan that gives each of two peers its own CIDRs. */
  ghost predicate PairPlan(d: map<string, Config>, p: Peer, q: Peer) {
    && d.Keys == {p.pubKey, q.pubKey}
    && d[p.pubKey] == Config(p, Cidrs(p)) && d[q.pubKey] == Config(q, Cidrs(q))
  }

  lemma PairFits(n: Node, d: map<string, Config>, p: Peer, q: Peer)
    requires PlainPair(n, p, q) && PairPlan(d, p, q)
    ensures Disjoint(d) && AllUsable(n, d) <==> Cidrs(p) !! Cidrs(q)
  {
    assert p.pubKey in d && q.pubKey in d;
  }

  /** Two passes from the start: p and q both announce a network, then the one that got it drops it. The second plan is
      fit, and yet it is not met. */
  lemma OverlapRun(n: Node, p: Peer, q: Peer, obs: Observation, net: string) returns (tr: Trace)
    requires PlainPair(n, p, q) && obs.peers == [p, q] && net in Networks(p.routable) && net in Networks(q.routable)
    requires Cidrs(p) !! Cidrs(Stripped(q)) && Cidrs(Stripped(p)) !! Cidrs(q)
    ensures IsRun(n, tr) && |tr.events| == 2 && PassAt(tr, 0) && PassAt(tr, 1) && tr.events[0].obs == obs
    ensures tr.events[1].obs.peers in {[p, Stripped(q)], [q, Stripped(p)]}
    ensures Fit(PassOf(n, tr, 1)) && !Met(n, tr, 1)
  {
    var e1, loser, winner := SharingPass(n, p, q, obs, net);
    var s1 := Next(n, INITIAL, e1);
    var e2 := StarvedPass(n, s1, loser, Stripped(winner), obs, net);
    tr := TwoSteps(n, e1, e2);
    assert PassOf(n, tr, 1) == Pass(n, s1.mem, e2.obs);
  }

  lemma SharingPass(n: Node, p: Peer, q: Peer, obs: Observation, net: string)
    returns (e: Event, loser: Peer, winner: Peer)
    requires PlainPair(n, p, q) && obs.peers == [p, q] && net in Networks(p.routable) && net in Networks(q.routable)
    ensures e.Reconciled? && e.obs == obs && Enabled(n, INITIAL, e) && Next(n, INITIAL, e).mem.offline == map[]
    ensures (loser, winner) == (p, q) || (loser, winner) == (q, p)
    ensures Starved(Next(n, INITIAL, e).wg, loser.pubKey, Config(loser, Cidrs(loser)), net)
  {
    var c := Pass(n, INITIAL.mem, obs);
    PairPass(c, p, q);
    var walk := WalkExists(c.Outcome().desired.Keys);
    var victim := OverlapStarves(n, INITIAL.wg, c.Outcome().desired, walk, p.pubKey, q.pubKey, net);
    e := Reconciled(obs, walk);
    loser, winner := if victim == p.pubKey then p else q, if victim == p.pubKey then q else p;
    NextWg(n, INITIAL, e);
  }

  lemma NextWg(n: Node, s: State, e: Event)
    requires e.Reconciled? && Enabled(n, s, e)
    ensures Next(n, s, e).wg == Apply(n, s.wg, Pass(n, s.mem, e.obs).Outcome().desired, e.walk)
    ensures s.mem.offline == map[] ==> Next(n, s, e).mem.offline == map[]
  {
  }

  lemma StarvedPass(n: Node, s: State, loser: Peer, other: Peer, was: Observation, net: string) returns (e: Event)
    requires PlainPair(n, loser, other) && s.mem.offline == map[] && net in Cidrs(loser) && Cidrs(loser) !! Cidrs(other)
    requires Starved(s.wg, loser.pubKey, Config(loser, Cidrs(loser)), net)
    ensures e.Reconciled? && e.obs.peers == [loser, other] && Enabled(n, s, e)
    ensures var c := Pass(n, s.mem, e.obs); Fit(c) && Next(n, s, e).wg.device != Targets(c.Outcome().desired)
  {
    var obs := was.(peers := [loser, other]);
    var c := Pass(n, s.mem, obs);
    PairPass(c, loser, other);
    var d := c.Outcome().desired;
    var walk := WalkExists(d.Keys);
    e := Reconciled(obs, walk);
    StarvedStays(n, s.wg, d, walk, loser.pubKey, d[loser.pubKey], net);
    NextWg(n, s, e);
    var device := Apply(n, s.wg, d, walk).device;
    assert loser.pubKey in device && net !in device[loser.pubKey].allowed && net in Targets(d)[loser.pubKey].allowed;
  }

  // ---- Hysteresis over a run ----

  /** The pass considers this peer and has a relay to offer. */
  ghost predicate Ready(c: Pass, key: string) {
    key in PeerKeys(c.obs.peers) && c.Eligible(Find(c.obs.peers, key)) && |c.Candidates()| > 0
  }

  ghost predicate AsksRelay(c: Pass, key: string) {
    Ready(c, key) && c.Raw(Find(c.obs.peers, key))
  }

  /** What an event means for one peer: a pass asks to relay it, or finds it ready but content with the direct path,
      or the peer is lost to the pass or evicted; other events do not concern it. */
  datatype Signal = Ask | Quiet | Lost | Idle

  ghost function SignalOf(n: Node, s: State, e: Event, key: string): Signal {
    match e
    case Reconciled(obs, _) =>
      var c := Pass(n, s.mem, obs);
      if AsksRelay(c, key) then Ask else if Ready(c, key) then Quiet else Lost
    case Evict(k, _) => if k == key && key != "" then Lost else Idle
    case Recover(_) => Idle
  }

  ghost function Signals(n: Node, tr: Trace, key: string): seq<Signal>
    requires IsRun(n, tr)
  {
    seq(|tr.events|, i requires 0 <= i < |tr.events| => SignalOf(n, tr.states[i], tr.events[i], key))
  }

  function Counter(mem: Memory, key: string): int {
    if key in mem.directStable then mem.directStable[key] else 0
  }

  lemma HeldKey(c: Pass, p: Peer)
    requires DistinctKeys(c.obs.peers) && p in c.obs.peers
    ensures p.pubKey in c.Outcome().directStable <==> c.Eligible(p) && c.Held(p)
  {
    if p.pubKey in c.Outcome().directStable {
      var q :| q in c.obs.peers && c.Eligible(q) && c.Held(q) && q.pubKey == p.pubKey;
      FindOwn(c.obs.peers, q);
      FindOwn(c.obs.peers, p);
    }
  }

  lemma RelayedKey(c: Pass, p: Peer)
    requires DistinctKeys(c.obs.peers) && p in c.obs.peers
    ensures p.pubKey in c.Outcome().relayRoutes <==> c.Eligible(p) && c.RelayFor(p).Some?
  {
    if p.pubKey in c.Outcome().relayRoutes {
      var q :| q in c.obs.peers && c.Eligible(q) && c.RelayFor(q).Some? && q.pubKey == p.pubKey;
      FindOwn(c.obs.peers, q);
      FindOwn(c.obs.peers, p);
    }
  }

  /** What one pass decides for one peer, before it is written to the plan. */
  lemma RelayForIff(c: Pass, p: Peer)
    ensures c.RelayFor(p).Some? <==>
            (|c.Candidates()| > 0 &&
             (c.Raw(p) || (p.pubKey in c.mem.relayRoutes && Counter(c.mem, p.pubKey) + 1 < RELAY_HYSTERESIS_THRESHOLD)))
  {
    RelayExists(c, p);
  }

  /** What one pass does to one peer. */
  lemma PassVerdict(c: Pass, key: string)
    requires DistinctKeys(c.obs.peers)
    ensures key in c.Outcome().relayRoutes <==>
      Ready(c, key) && (AsksRelay(c, key) ||
                        (key in c.mem.relayRoutes && Counter(c.mem, key) + 1 < RELAY_HYSTERESIS_THRESHOLD))
  {
    if key in PeerKeys(c.obs.peers) {
      var p := Find(c.obs.peers, key);
      RelayedKey(c, p);
      RelayForIff(c, p);
    } else {
      assert key !in c.RelayedKeysIn(c.obs.peers);
    }
  }

  lemma CounterVerdict(c: Pass, key: string)
    requires DistinctKeys(c.obs.peers) && key in c.Outcome().relayRoutes
    ensures (if key in c.Outcome().directStable then c.Outcome().directStable[key] else 0) ==
            if AsksRelay(c, key) then 0 else Counter(c.mem, key) + 1
  {
    PassVerdict(c, key);
    HeldKey(c, Find(c.obs.peers, key));
  }

  /** Relayed or not, and for how many quiet passes: all that hysteresis remembers of a peer. */
  datatype View = View(relayed: bool, quiet: int)

  function ViewOf(mem: Memory, key: string): View {
    if key in mem.relayRoutes then View(true, Counter(mem, key)) else View(false, 0)
  }

  function Hear(v: View, x: Signal): View {
    match x
    case Ask => View(true, 0)
    case Quiet =>
      if v.relayed && v.quiet + 1 < RELAY_HYSTERESIS_THRESHOLD then View(true, v.quiet + 1) else View(false, 0)
    case Lost => View(false, 0)
    case Idle => v
  }

  function HearAll(xs: seq<Signal>): View {
    if |xs| == 0 then View(false, 0) else Hear(HearAll(xs[..|xs| - 1]), xs[|xs| - 1])
  }

  lemma StepHears(n: Node, s: State, e: Event, key: string)
    requires Enabled(n, s, e)
    ensures ViewOf(Next(n, s, e).mem, key) == Hear(ViewOf(s.mem, key), SignalOf(n, s, e, key))
  {
    if e.Reconciled? {
      var c := Pass(n, s.mem, e.obs);
      PassVerdict(c, key);
      if key in c.Outcome().relayRoutes {
        CounterVerdict(c, key);
      }
    }
  }

  lemma {:induction false} RunHears(n: Node, tr: Trace, m: nat, key: string)
    requires IsRun(n, tr) && m <= |tr.events|
    ensures ViewOf(tr.states[m].mem, key) == HearAll(Signals(n, tr, key)[..m])
  {
    if m > 0 {
      RunHears(n, tr, m - 1, key);
      StepHears(n, tr.states[m - 1], tr.events[m - 1], key);
      var xs := Signals(n, tr, key);
      assert xs[..m][..m - 1] == xs[..m - 1];
    }
  }

  /** The passes among some signals. */
  function Heard(xs: seq<Signal>): nat {
    if |xs| == 0 then 0 else Heard(xs[..|xs| - 1]) + if xs[|xs| - 1].Idle? then 0 else 1
  }

  lemma {:induction false} HearAllWhy(xs: seq<Signal>) returns (j: nat)
    requires HearAll(xs).relayed
    ensures j < |xs| && xs[j] == Ask && Lost !in xs[j..]
    ensures Heard(xs[j + 1..]) == HearAll(xs).quiet < RELAY_HYSTERESIS_THRESHOLD
  {
    var init, x := xs[..|xs| - 1], xs[|xs| - 1];
    if x == Ask {
      j := |xs| - 1;
    } else {
      j := HearAllWhy(init);
      assert xs[j..] == init[j..] + [x];
      assert xs[j + 1..][..|xs[j + 1..]| - 1] == init[j + 1..];
    }
  }

  lemma {:induction false} AskHolds(xs: seq<Signal>, j: nat)
    requires j < |xs| && xs[j] == Ask && Lost !in xs[j..] && Heard(xs[j + 1..]) < RELAY_HYSTERESIS_THRESHOLD
    ensures HearAll(xs).relayed && HearAll(xs).quiet <= Heard(xs[j + 1..])
  {
    if j < |xs| - 1 {
      var init, x := xs[..|xs| - 1], xs[|xs| - 1];
      assert xs[j..] == init[j..] + [x];
      assert xs[j + 1..][..|xs[j + 1..]| - 1] == init[j + 1..];
      AskHolds(init, j);
    }
  }

  /** Over every run: a peer is relayed exactly when one of the last three passes asked for it and, since then, every
      pass found it eligible with a relay to offer and nothing evicted it. */
  lemma RelayedIff(n: Node, tr: Trace, m: nat, key: string)
    requires IsRun(n, tr) && m <= |tr.events|
    ensures key in tr.states[m].mem.relayRoutes <==>
      var xs := Signals(n, tr, key)[..m];
      exists j | 0 <= j < m :: xs[j] == Ask && Lost !in xs[j..] && Heard(xs[j + 1..]) < 3
  {
    RunHears(n, tr, m, key);
    var xs := Signals(n, tr, key)[..m];
    if HearAll(xs).relayed {
      var j := HearAllWhy(xs);
    }
    forall j | 0 <= j < m && xs[j] == Ask && Lost !in xs[j..] && Heard(xs[j + 1..]) < 3
      ensures HearAll(xs).relayed
    {
      AskHolds(xs, j);
    }
  }

  // ---- Relay chains ----

  ghost predicate Chained(plan: Plan, key: string)
    requires key in plan.relayRoutes
  {
    plan.relayRoutes[key] in plan.relayRoutes
  }

  /** A relay is itself relayed exactly when hysteresis still holds it from a time it was no introducer. */
  lemma ChainIff(c: Pass, key: string)
    requires DistinctKeys(c.obs.peers) && key in c.Outcome().relayRoutes
    ensures var relay := c.Outcome().relayRoutes[key];
      && relay in c.Outcome().desired
      && (Chained(c.Outcome(), key) <==>
            relay in c.mem.relayRoutes && Counter(c.mem, relay) + 1 < RELAY_HYSTERESIS_THRESHOLD
            && c.Outcome().desired[relay].peer.meshIP != "")
  {
    RelaysAreLive(c, key);
    var r := c.Outcome().desired[c.Outcome().relayRoutes[key]].peer;
    CandidatesThere(c, key);
    IntroducerVerdict(c, r);
  }

  lemma CandidatesThere(c: Pass, key: string)
    requires DistinctKeys(c.obs.peers) && key in c.Outcome().relayRoutes
    ensures |c.Candidates()| > 0
  {
    PassVerdict(c, key);
  }

  /** A live introducer is relayed exactly when hysteresis holds it. */
  lemma IntroducerVerdict(c: Pass, r: Peer)
    requires DistinctKeys(c.obs.peers) && r in c.obs.peers && c.IsCandidate(r)
    ensures |c.Candidates()| > 0
    ensures r.pubKey in c.Outcome().relayRoutes <==>
            r.meshIP != "" && r.pubKey in c.mem.relayRoutes && Counter(c.mem, r.pubKey) + 1 < RELAY_HYSTERESIS_THRESHOLD
  {
    assert r in c.Candidates();
    FindOwn(c.obs.peers, r);
    PassVerdict(c, r.pubKey);
  }

  /** A peer that turns introducer while relayed, and is the only one the pass could relay through, is made its own
      relay for the passes hysteresis holds it. */
  lemma HeldIntroducerRelaysItself(c: Pass, p: Peer)
    requires DistinctKeys(c.obs.peers) && p in c.obs.peers && c.IsCandidate(p) && p.meshIP != ""
    requires forall q | q in c.obs.peers && c.IsCandidate(q) :: q == p
    requires p.pubKey in c.mem.relayRoutes && Counter(c.mem, p.pubKey) + 1 < RELAY_HYSTERESIS_THRESHOLD
    ensures p.pubKey in c.Outcome().relayRoutes && c.Outcome().relayRoutes[p.pubKey] == p.pubKey
  {
    IntroducerVerdict(c, p);
    RelaysAreLive(c, p.pubKey);
  }

  lemma WalkExists(keys: set<string>) returns (walk: seq<string>)
    ensures WalkOf(walk, keys)
  {
    SortedExists(keys);
    walk :| IsSortedSeq(keys, walk);
    forall i, j | 0 <= i < j < |walk| ensures walk[i] != walk[j] {
      Strings.LessTotal(walk[i], walk[j]);
    }
  }

  /** A pass of a forced-relay node that sees p and an introducer r relays p through r. */
  lemma ForcedPass(n: Node, p: Peer, r: Peer, obs: Observation) returns (e: Event)
    requires !n.introducer && n.forceRelay && n.pubKey !in {p.pubKey, r.pubKey} && p.pubKey != r.pubKey
    requires "" !in {p.pubKey, r.pubKey, p.meshIP, r.endpoint} && !p.introducer && r.introducer
    requires obs.peers == [p, r] && "lan" !in p.discoveredVia && !obs.onLocalSubnet(p.endpoint)
    requires obs.now - r.lastSeen <= RELAY_CANDIDATE_MAX_AGE
    ensures e.Reconciled? && e.obs == obs && Enabled(n, INITIAL, e)
    ensures var mem := Next(n, INITIAL, e).mem;
      && p.pubKey in mem.relayRoutes && mem.relayRoutes[p.pubKey] == r.pubKey
      && Counter(mem, p.pubKey) == 0 && mem.offline == map[]
  {
    var c := Pass(n, INITIAL.mem, obs);
    var walk := WalkExists(c.Outcome().desired.Keys);
    e := Reconciled(obs, walk);
    ForcedRelay(c, p, r);
    assert Next(n, INITIAL, e).mem.relayRoutes == c.Outcome().relayRoutes;
    assert Next(n, INITIAL, e).mem.directStable == c.Outcome().directStable;
  }

  lemma ForcedRelay(c: Pass, p: Peer, r: Peer)
    requires !c.node.introducer && c.node.forceRelay && c.node.pubKey !in {p.pubKey, r.pubKey} && p.pubKey != r.pubKey
    requires "" !in {p.pubKey, r.pubKey, p.meshIP, r.endpoint} && !p.introducer && r.introducer
    requires c.obs.peers == [p, r] && c.mem == INITIAL.mem
    requires "lan" !in p.discoveredVia && !c.obs.onLocalSubnet(p.endpoint)
    requires c.obs.now - r.lastSeen <= RELAY_CANDIDATE_MAX_AGE
    ensures DistinctKeys(c.obs.peers)
    ensures p.pubKey in c.Outcome().relayRoutes && c.Outcome().relayRoutes[p.pubKey] == r.pubKey
    ensures p.pubKey in c.Outcome().directStable ==> c.Outcome().directStable[p.pubKey] == 0
  {
    assert c.obs.peers[0] == p && c.obs.peers[1] == r;
    assert c.IsCandidate(r) && r in c.Candidates();
    FindOwn(c.obs.peers, p);
    PassVerdict(c, p.pubKey);
    CounterVerdict(c, p.pubKey);
    RelaysAreLive(c, p.pubKey);
  }

  /** A pass that holds a lone introducer relays it through itself. */
  lemma SelfPass(n: Node, s: State, p: Peer, obs: Observation) returns (e: Event)
    requires obs.peers == [p] && Pass(n, s.mem, obs).IsCandidate(p) && p.meshIP != ""
    requires p.pubKey in s.mem.relayRoutes && Counter(s.mem, p.pubKey) == 0
    ensures e.Reconciled? && e.obs == obs && Enabled(n, s, e)
    ensures var mem := Next(n, s, e).mem; p.pubKey in mem.relayRoutes && mem.relayRoutes[p.pubKey] == p.pubKey
  {
    var walk := WalkExists(Pass(n, s.mem, obs).Outcome().desired.Keys);
    e := Reconciled(obs, walk);
    LonePeers(obs.peers, p);
    HeldIntroducerRelaysItself(Pass(n, s.mem, obs), p);
    NextMemory(n, s, e);
  }

  lemma LonePeers(peers: seq<Peer>, p: Peer)
    requires peers == [p]
    ensures DistinctKeys(peers) && p in peers && forall q | q in peers :: q == p
  {
    assert peers[0] == p;
  }

  lemma NextMemory(n: Node, s: State, e: Event)
    requires e.Reconciled? && Enabled(n, s, e)
    ensures Next(n, s, e).mem.relayRoutes == Pass(n, s.mem, e.obs).Outcome().relayRoutes
    ensures Next(n, s, e).mem.directStable == Pass(n, s.mem, e.obs).Outcome().directStable
  {
  }

  /** A run from the start to such a state: a pass relays p through r, then p turns introducer, r is gone, and the next
      pass relays p through p. */
  lemma SelfRelayRun(n: Node, p: Peer, r: Peer, first: Observation, second: Observation) returns (tr: Trace)
    requires !n.introducer && n.forceRelay && n.pubKey !in {p.pubKey, r.pubKey} && p.pubKey != r.pubKey
    requires "" !in {p.pubKey, r.pubKey, p.meshIP, p.endpoint, r.endpoint} && !p.introducer && r.introducer
    requires first.peers == [p, r] && second.peers == [p.(introducer := true)]
    requires "lan" !in p.discoveredVia && !first.onLocalSubnet(p.endpoint)
    requires first.now - r.lastSeen <= RELAY_CANDIDATE_MAX_AGE && second.now - p.lastSeen <= RELAY_CANDIDATE_MAX_AGE
    ensures IsRun(n, tr) && |tr.events| == 2 && PassAt(tr, 0) && PassAt(tr, 1)
    ensures tr.events[0].obs == first && tr.events[1].obs == second
    ensures p.pubKey in tr.states[1].mem.relayRoutes && tr.states[1].mem.relayRoutes[p.pubKey] == r.pubKey
    ensures p.pubKey in tr.states[2].mem.relayRoutes && tr.states[2].mem.relayRoutes[p.pubKey] == p.pubKey
  {
    var e1 := ForcedPass(n, p, r, first);
    var s1 := Next(n, INITIAL, e1);
    var e2 := SelfPass(n, s1, p.(introducer := true), second);
    tr := TwoSteps(n, e1, e2);
  }

  lemma TwoSteps(n: Node, e1: Event, e2: Event) returns (tr: Trace)
    requires Enabled(n, INITIAL, e1) && Enabled(n, Next(n, INITIAL, e1), e2)
    ensures IsRun(n, tr) && tr.events == [e1, e2]
    ensures tr.states[1] == Next(n, INITIAL, e1) && tr.states[2] == Next(n, tr.states[1], e2)
  {
    var s1 := Next(n, INITIAL, e1);
    tr := Trace([INITIAL, s1, Next(n, s1, e2)], [e1, e2]);
  }

  /** Introducer flags do not change during the run. */
  ghost predicate FixedFlags(tr: Trace, introducers: set<string>) {
    forall i: nat | PassAt(tr, i) :: forall p | p in tr.events[i].obs.peers :: p.introducer <==> p.pubKey in introducers
  }

  lemma {:induction false} IntroducersNeverRelayed(n: Node, tr: Trace, introducers: set<string>, m: nat)
    requires IsRun(n, tr) && FixedFlags(tr, introducers) && m <= |tr.events|
    ensures tr.states[m].mem.relayRoutes.Keys !! introducers
  {
    forall key | key in tr.states[m].mem.relayRoutes ensures key !in introducers {
      RunHears(n, tr, m, key);
      var j := HearAllWhy(Signals(n, tr, key)[..m]);
      assert PassAt(tr, j) && AsksRelay(PassOf(n, tr, j), key);
      var p := Find(tr.events[j].obs.peers, key);
      assert p in tr.events[j].obs.peers && !p.introducer;
    }
  }

  /** With fixed introducer flags no relay is ever itself relayed. */
  lemma NoRelayChains(n: Node, tr: Trace, introducers: set<string>, m: nat, key: string)
    requires IsRun(n, tr) && FixedFlags(tr, introducers) && m <= |tr.events|
    requires key in tr.states[m].mem.relayRoutes
    ensures tr.states[m].mem.relayRoutes[key] !in tr.states[m].mem.relayRoutes
  {
    IntroducersNeverRelayed(n, tr, introducers, m);
    RelayIsIntroducer(n, tr, introducers, m, key);
  }

  lemma {:induction false} RelayIsIntroducer(n: Node, tr: Trace, introducers: set<string>, m: nat, key: string)
    requires IsRun(n, tr) && FixedFlags(tr, introducers) && m <= |tr.events|
    requires key in tr.states[m].mem.relayRoutes
    ensures tr.states[m].mem.relayRoutes[key] in introducers
  {
    if PassAt(tr, m - 1) {
      ReconciledRelay(n, tr.states[m - 1], tr.events[m - 1], key, introducers);
    } else {
      OldRelay(n, tr.states[m - 1], tr.events[m - 1], key);
      RelayIsIntroducer(n, tr, introducers, m - 1, key);
    }
  }

  lemma ReconciledRelay(n: Node, s: State, e: Event, key: string, introducers: set<string>)
    requires e.Reconciled? && Enabled(n, s, e) && key in Next(n, s, e).mem.relayRoutes
    requires forall p | p in e.obs.peers :: p.introducer <==> p.pubKey in introducers
    ensures Next(n, s, e).mem.relayRoutes[key] in introducers
  {
    RelaysAreLive(Pass(n, s.mem, e.obs), key);
  }

  lemma OldRelay(n: Node, s: State, e: Event, key: string)
    requires !e.Reconciled? && key in Next(n, s, e).mem.relayRoutes
    ensures key in s.mem.relayRoutes && Next(n, s, e).mem.relayRoutes[key] == s.mem.relayRoutes[key]
  {
  }
}
