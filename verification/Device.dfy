/** The WireGuard device and the signature cache in front of it (pkg/daemon/daemon.go: applyDesiredPeerConfigs,
    evictPeerFromPool; pkg/wireguard/apply.go: SetPeer, RemovePeer). */
module Device {
  import opened Strings
  import opened Sorting
  import opened Relay
  import opened RelayPlan

  datatype WgPeer = WgPeer(endpoint: string, allowed: set<string>)

  /** The device as the kernel holds it, and lastAppliedPeerConfigs. */
  datatype Wg = Wg(device: map<string, WgPeer>, cache: map<string, string>)

  /** `wg set peer K endpoint E allowed-ips CSV`: K's list is replaced, and each CIDR moves to K. */
  function SetPeer(device: map<string, WgPeer>, key: string, endpoint: string, csv: string): map<string, WgPeer> {
    var cidrs := Elements(Split(csv, ','));
    (map k | k in device :: device[k].(allowed := device[k].allowed - cidrs))[key := WgPeer(endpoint, cidrs)]
  }

  ghost function AllowedCSV(allowed: set<string>): string {
    Join(SortedSeq(allowed), ',')
  }

  ghost function Signature(endpoint: string, allowed: set<string>): string {
    endpoint + ['|'] + AllowedCSV(allowed)
  }

  /** Endpoints and CIDRs free of the separators the signature uses. */
  ghost predicate Clean(w: WgPeer) {
    '|' !in w.endpoint && w.allowed != {} && forall x | x in w.allowed :: ',' !in x
  }

  lemma CsvRoundTrip(allowed: set<string>)
    requires allowed != {} && forall x | x in allowed :: ',' !in x
    ensures Elements(Split(AllowedCSV(allowed), ',')) == allowed
  {
    var s := SortedSeq(allowed);
    forall i | 0 <= i < |s| ensures ',' !in s[i] {
      assert s[i] in Elements(s);
    }
    SplitJoin(s, ',');
  }

  /** Equal signatures mean equal configurations. */
  lemma SignatureInjective(v: WgPeer, w: WgPeer)
    requires Clean(v) && Clean(w)
    requires Signature(v.endpoint, v.allowed) == Signature(w.endpoint, w.allowed)
    ensures v == w
  {
    CutUnique(v.endpoint, AllowedCSV(v.allowed), w.endpoint, AllowedCSV(w.allowed), '|');
    CsvRoundTrip(v.allowed);
    CsvRoundTrip(w.allowed);
  }

  predicate Usable(n: Node, endpoint: string) {
    endpoint != "" && !(n.disableIPv6 && n.isIPv6(endpoint))
  }

  function Target(cfg: Config): WgPeer {
    WgPeer(cfg.peer.endpoint, cfg.allowed)
  }

  function Targets(desired: map<string, Config>): map<string, WgPeer> {
    map k | k in desired :: Target(desired[k])
  }

  // ---- One application of a desired configuration, as a function of the order the map is walked in ----

  /** Peers the device has and the plan lacks are removed, from the device and from the cache. */
  function Prune(s: Wg, desired: set<string>): Wg {
    Wg(s.device - (s.device.Keys - desired), s.cache - (s.device.Keys - desired))
  }

  ghost function PushOne(n: Node, s: Wg, key: string, cfg: Config): Wg {
    var sig := Signature(cfg.peer.endpoint, cfg.allowed);
    if !Usable(n, cfg.peer.endpoint) || cfg.allowed == {} then s
    else if key in s.cache && s.cache[key] == sig then s
    else Wg(SetPeer(s.device, key, cfg.peer.endpoint, AllowedCSV(cfg.allowed)), s.cache[key := sig])
  }

  ghost function Push(n: Node, s: Wg, desired: map<string, Config>, order: seq<string>): Wg
    requires forall k | k in order :: k in desired
  {
    if |order| == 0 then s
    else
      var k := order[|order| - 1];
      PushOne(n, Push(n, s, desired, order[..|order| - 1]), k, desired[k])
  }

  ghost predicate WalkOf(order: seq<string>, keys: set<string>) {
    Distinct(order) && Elements(order) == keys
  }

  ghost function Apply(n: Node, s: Wg, desired: map<string, Config>, order: seq<string>): Wg
    requires WalkOf(order, desired.Keys)
  {
    assert forall k | k in order :: k in Elements(order);
    Push(n, Prune(s, desired.Keys), desired, order)
  }

  /** Every cached signature describes what the device really holds. */
  ghost predicate Faithful(s: Wg) {
    forall k | k in s.cache ::
      k in s.device && Clean(s.device[k]) && s.cache[k] == Signature(s.device[k].endpoint, s.device[k].allowed)
  }

  ghost predicate AllClean(desired: map<string, Config>) {
    forall k | k in desired :: Clean(Target(desired[k]))
  }

  ghost predicate AllUsable(n: Node, desired: map<string, Config>) {
    forall k | k in desired :: Usable(n, desired[k].peer.endpoint)
  }

  /** The device command on sets, without the CSV in between. */
  function Assign(device: map<string, WgPeer>, key: string, w: WgPeer): map<string, WgPeer> {
    (map k | k in device :: device[k].(allowed := device[k].allowed - w.allowed))[key := w]
  }

  function WalkOne(s: Wg, key: string, w: WgPeer, sig: string): Wg {
    if key in s.cache && s.cache[key] == sig then s
    else Wg(Assign(s.device, key, w), s.cache[key := sig])
  }

  function Walk(s: Wg, targets: map<string, WgPeer>, sigs: map<string, string>, order: seq<string>): Wg
    requires targets.Keys == sigs.Keys && forall k | k in order :: k in targets
  {
    if |order| == 0 then s
    else
      var k := order[|order| - 1];
      WalkOne(Walk(s, targets, sigs, order[..|order| - 1]), k, targets[k], sigs[k])
  }

  ghost predicate Done(s: Wg, key: string, w: WgPeer, sig: string) {
    key in s.device && s.device[key] == w && key in s.cache && s.cache[key] == sig
  }

  /** A key not pushed yet: at most CIDRs that now belong to others were taken from it. */
  ghost predicate Pending(s0: Wg, s: Wg, key: string, w: WgPeer) {
    && (key in s.device <==> key in s0.device)
    && (key in s.cache <==> key in s0.cache)
    && (key in s.cache ==> s.cache[key] == s0.cache[key])
    && (key in s.device ==>
          && s.device[key].endpoint == s0.device[key].endpoint
          && s.device[key].allowed <= s0.device[key].allowed
          && s0.device[key].allowed * w.allowed <= s.device[key].allowed)
  }

  ghost predicate Progress(s0: Wg, s: Wg, targets: map<string, WgPeer>, sigs: map<string, string>, walked: set<string>)
    requires targets.Keys == sigs.Keys
  {
    && s.device.Keys <= targets.Keys && s.cache.Keys <= targets.Keys
    && (forall k | k in targets && k in walked :: Done(s, k, targets[k], sigs[k]))
    && (forall k | k in targets && k !in walked :: Pending(s0, s, k, targets[k]))
  }

  ghost predicate Apart(targets: map<string, WgPeer>) {
    forall k, l | k in targets && l in targets && k != l :: targets[k].allowed !! targets[l].allowed
  }

  /** A cached signature that matches the target vouches for the device. */
  ghost predicate Trusted(s: Wg, targets: map<string, WgPeer>, sigs: map<string, string>)
    requires targets.Keys == sigs.Keys
  {
    forall k | k in targets && k in s.cache && s.cache[k] == sigs[k] :: k in s.device && s.device[k] == targets[k]
  }

  lemma WalkOneProgress(s0: Wg, s: Wg, targets: map<string, WgPeer>, sigs: map<string, string>, walked: set<string>,
                        key: string)
    requires targets.Keys == sigs.Keys && Apart(targets) && Trusted(s0, targets, sigs)
    requires Progress(s0, s, targets, sigs, walked) && key in targets && key !in walked
    ensures Progress(s0, WalkOne(s, key, targets[key], sigs[key]), targets, sigs, walked + {key})
  {
    var w := targets[key];
    var s' := WalkOne(s, key, w, sigs[key]);
    assert Pending(s0, s, key, w);
    if key in s.cache && s.cache[key] == sigs[key] {
      assert s0.device[key] == w;
      assert s.device[key].allowed == w.allowed;
    } else {
      forall k | k in targets && k in walked ensures Done(s', k, targets[k], sigs[k]) {
        AssignKeepsDone(s, key, w, sigs[key], k, targets[k], sigs[k]);
      }
      forall k | k in targets && k !in walked + {key} ensures Pending(s0, s', k, targets[k]) {
        AssignKeepsPending(s0, s, key, w, sigs[key], k, targets[k]);
      }
    }
    assert Done(s', key, w, sigs[key]);
  }

  lemma AssignKeepsDone(s: Wg, key: string, w: WgPeer, sig: string, k: string, wk: WgPeer, sigk: string)
    requires k != key && Done(s, k, wk, sigk) && wk.allowed !! w.allowed
    ensures Done(Wg(Assign(s.device, key, w), s.cache[key := sig]), k, wk, sigk)
  {
    assert wk.allowed - w.allowed == wk.allowed;
  }

  lemma AssignKeepsPending(s0: Wg, s: Wg, key: string, w: WgPeer, sig: string, k: string, wk: WgPeer)
    requires k != key && Pending(s0, s, k, wk) && wk.allowed !! w.allowed
    ensures Pending(s0, Wg(Assign(s.device, key, w), s.cache[key := sig]), k, wk)
  {
  }

  lemma {:induction false} WalkProgress(s0: Wg, targets: map<string, WgPeer>, sigs: map<string, string>,
                                        order: seq<string>)
    requires targets.Keys == sigs.Keys && Apart(targets) && Trusted(s0, targets, sigs)
    requires s0.device.Keys <= targets.Keys && s0.cache.Keys <= targets.Keys
    requires Distinct(order) && forall k | k in order :: k in targets
    ensures Progress(s0, Walk(s0, targets, sigs, order), targets, sigs, Elements(order))
  {
    if |order| == 0 {
      assert Elements(order) == {};
    } else {
      var init, k := order[..|order| - 1], order[|order| - 1];
      WalkProgress(s0, targets, sigs, init);
      LastElement(order);
      WalkOneProgress(s0, Walk(s0, targets, sigs, init), targets, sigs, Elements(init), k);
    }
  }

  lemma LastElement<T>(s: seq<T>)
    requires |s| > 0 && Distinct(s)
    ensures var init, x := s[..|s| - 1], s[|s| - 1];
      x !in Elements(init) && Elements(s) == Elements(init) + {x}
  {
    assert s == s[..|s| - 1] + [s[|s| - 1]];
  }

  ghost function Signatures(desired: map<string, Config>): map<string, string> {
    map k | k in desired :: Signature(desired[k].peer.endpoint, desired[k].allowed)
  }

  /** For clean and usable plans the CSV disappears from the picture. */
  lemma PushOneIsWalkOne(n: Node, s: Wg, key: string, cfg: Config)
    requires Clean(Target(cfg)) && Usable(n, cfg.peer.endpoint)
    ensures PushOne(n, s, key, cfg) == WalkOne(s, key, Target(cfg), Signature(cfg.peer.endpoint, cfg.allowed))
  {
    CsvRoundTrip(cfg.allowed);
  }

  lemma {:induction false} PushIsWalk(n: Node, s: Wg, desired: map<string, Config>, order: seq<string>)
    requires AllClean(desired) && AllUsable(n, desired) && forall k | k in order :: k in desired
    ensures Push(n, s, desired, order) == Walk(s, Targets(desired), Signatures(desired), order)
  {
    if |order| > 0 {
      var init, k := order[..|order| - 1], order[|order| - 1];
      PushIsWalk(n, s, desired, init);
      PushOneIsWalkOne(n, Push(n, s, desired, init), k, desired[k]);
    }
  }

  lemma ApplyIsWalk(n: Node, s: Wg, desired: map<string, Config>, order: seq<string>)
    requires AllClean(desired) && AllUsable(n, desired) && WalkOf(order, desired.Keys)
    ensures forall k | k in order :: k in Targets(desired)
    ensures Apply(n, s, desired, order) == Walk(Prune(s, desired.Keys), Targets(desired), Signatures(desired), order)
  {
    assert forall k | k in order :: k in Elements(order);
    PushIsWalk(n, Prune(s, desired.Keys), desired, order);
  }

  lemma FaithfulTrusted(s: Wg, desired: map<string, Config>)
    requires Faithful(s) && AllClean(desired)
    ensures Trusted(s, Targets(desired), Signatures(desired))
  {
    forall k | k in desired && k in s.cache && s.cache[k] == Signature(desired[k].peer.endpoint, desired[k].allowed)
      ensures s.device[k] == Target(desired[k])
    {
      SignatureInjective(s.device[k], Target(desired[k]));
    }
  }

  lemma PruneFaithful(s: Wg, keys: set<string>)
    requires Faithful(s)
    ensures var p := Prune(s, keys); Faithful(p) && p.device.Keys <= keys && p.cache.Keys <= keys
  {
  }

  /** Whatever order the map is walked in, a disjoint and usable plan becomes the device's exact contents,
      and the cache again describes the device. */
  lemma ApplyReachesDesired(n: Node, s: Wg, desired: map<string, Config>, order: seq<string>)
    requires Faithful(s) && WalkOf(order, desired.Keys)
    requires Disjoint(desired) && AllClean(desired) && AllUsable(n, desired)
    ensures var s' := Apply(n, s, desired, order);
      s' == Wg(Targets(desired), Signatures(desired)) && Faithful(s')
  {
    var p, targets, sigs := Prune(s, desired.Keys), Targets(desired), Signatures(desired);
    PruneFaithful(s, desired.Keys);
    FaithfulTrusted(p, desired);
    ApplyIsWalk(n, s, desired, order);
    WalkProgress(p, targets, sigs, order);
    AllWalked(p, Walk(p, targets, sigs, order), targets, sigs);
    SignedFaithful(desired);
  }

  lemma SignedFaithful(desired: map<string, Config>)
    requires AllClean(desired)
    ensures Faithful(Wg(Targets(desired), Signatures(desired)))
  {
  }

  lemma AllWalked(s0: Wg, s: Wg, targets: map<string, WgPeer>, sigs: map<string, string>)
    requires targets.Keys == sigs.Keys && Progress(s0, s, targets, sigs, targets.Keys)
    ensures s == Wg(targets, sigs)
  {
    forall k | k in targets
      ensures k in s.device && s.device[k] == targets[k] && k in s.cache && s.cache[k] == sigs[k]
    {
      assert Done(s, k, targets[k], sigs[k]);
    }
    assert s.device == targets;
    assert s.cache == sigs;
  }

  /** RemovePeer plus the cache deletion of evictPeerFromPool. */
  function Evicted(s: Wg, key: string): Wg {
    Wg(s.device - {key}, s.cache - {key})
  }

  // ---- When the device can equal the plan at all ----

  /** What any device is: no CIDR is held twice. Endpoints were all set by this daemon, so all are usable. */
  ghost predicate Sane(n: Node, device: map<string, WgPeer>) {
    && (forall k | k in device :: Usable(n, device[k].endpoint))
    && (forall k, l | k in device && l in device && k != l :: device[k].allowed !! device[l].allowed)
  }

  lemma {:induction false} PushSane(n: Node, s: Wg, desired: map<string, Config>, order: seq<string>)
    requires Sane(n, s.device) && forall k | k in order :: k in desired
    ensures Sane(n, Push(n, s, desired, order).device)
  {
    if |order| > 0 {
      PushSane(n, s, desired, order[..|order| - 1]);
    }
  }

  /** From a faithful state, the pass meets its target exactly when the plan is disjoint and every endpoint usable. */
  lemma ApplyExact(n: Node, s: Wg, desired: map<string, Config>, order: seq<string>)
    requires Faithful(s) && Sane(n, s.device) && WalkOf(order, desired.Keys) && AllClean(desired)
    ensures Apply(n, s, desired, order).device == Targets(desired) <==> Disjoint(desired) && AllUsable(n, desired)
  {
    if Disjoint(desired) && AllUsable(n, desired) {
      ApplyReachesDesired(n, s, desired, order);
    } else {
      assert forall k | k in order :: k in Elements(order);
      PushSane(n, Prune(s, desired.Keys), desired, order);
      var device := Apply(n, s, desired, order).device;
      if device == Targets(desired) {
        assert forall k | k in desired :: device[k] == Target(desired[k]);
        assert false;
      }
    }
  }

  // ---- What one overlapping plan leaves behind ----

  /** The cache vouches for key under this configuration. */
  ghost predicate Vouched(s: Wg, key: string, cfg: Config) {
    key in s.device && key in s.cache && s.cache[key] == Signature(cfg.peer.endpoint, cfg.allowed)
  }

  /** After the walk the cache vouches for every peer walked that could be pushed. */
  lemma {:induction false} PushVouches(n: Node, s: Wg, desired: map<string, Config>, order: seq<string>, key: string)
    requires s.cache.Keys <= s.device.Keys && key in order && forall k | k in order :: k in desired
    requires Usable(n, desired[key].peer.endpoint) && desired[key].allowed != {}
    ensures Vouched(Push(n, s, desired, order), key, desired[key])
  {
    var init, last := order[..|order| - 1], order[|order| - 1];
    assert order == init + [last];
    CacheWithinDevice(n, s, desired, init);
    if key in init {
      PushVouches(n, s, desired, init, key);
    }
  }

  lemma {:induction false} CacheWithinDevice(n: Node, s: Wg, desired: map<string, Config>, order: seq<string>)
    requires s.cache.Keys <= s.device.Keys && forall k | k in order :: k in desired
    ensures Push(n, s, desired, order).cache.Keys <= Push(n, s, desired, order).device.Keys
  {
    if |order| > 0 {
      CacheWithinDevice(n, s, desired, order[..|order| - 1]);
    }
  }

  /** A peer the cache vouches for is never pushed, so its AllowedIPs can only shrink. */
  lemma {:induction false} VouchedNeverGrows(n: Node, s: Wg, desired: map<string, Config>, order: seq<string>,
                                             key: string)
    requires key in desired && Vouched(s, key, desired[key]) && forall k | k in order :: k in desired
    ensures var s' := Push(n, s, desired, order);
      Vouched(s', key, desired[key]) && s'.device[key].allowed <= s.device[key].allowed
  {
    if |order| > 0 {
      VouchedNeverGrows(n, s, desired, order[..|order| - 1], key);
    }
  }

  /** The device lacks x for a peer although the cache vouches for a configuration of it. */
  ghost predicate Starved(s: Wg, key: string, cfg: Config, x: string) {
    Vouched(s, key, cfg) && x !in s.device[key].allowed
  }

  /** One plan in which k and l both ask for x leaves one of them without x, and vouched for. */
  lemma OverlapStarves(n: Node, s: Wg, desired: map<string, Config>, order: seq<string>, k: string, l: string,
                       x: string)
    returns (victim: string)
    requires s.cache.Keys <= s.device.Keys && Sane(n, s.device) && WalkOf(order, desired.Keys)
    requires k in desired && l in desired && k != l && x in desired[k].allowed && x in desired[l].allowed
    requires Usable(n, desired[k].peer.endpoint) && Usable(n, desired[l].peer.endpoint)
    ensures victim in {k, l} && Starved(Apply(n, s, desired, order), victim, desired[victim], x)
  {
    var p := Prune(s, desired.Keys);
    assert forall i | i in order :: i in Elements(order);
    assert k in Elements(order) && l in Elements(order);
    PushVouches(n, p, desired, order, k);
    PushVouches(n, p, desired, order, l);
    PushSane(n, p, desired, order);
    var s1 := Apply(n, s, desired, order);
    victim := if x in s1.device[k].allowed then l else k;
  }

  /** A starved peer stays starved through every plan that asks the same of it, whatever else that plan asks and in
      whatever order it is walked. */
  lemma StarvedStays(n: Node, s: Wg, desired: map<string, Config>, order: seq<string>, key: string, cfg: Config,
                     x: string)
    requires Starved(s, key, cfg, x) && WalkOf(order, desired.Keys)
    requires key in desired && Target(desired[key]) == Target(cfg)
    ensures Starved(Apply(n, s, desired, order), key, cfg, x)
  {
    assert forall i | i in order :: i in Elements(order);
    VouchedNeverGrows(n, Prune(s, desired.Keys), desired, order, key);
  }

  // ---- When one plan is met, whatever came before it ----

  /** A cached signature is that of a configuration with the device's endpoint, of which the device may have lost CIDRs
      to others. */
  ghost predicate Shrunk(w: WgPeer, sig: string, signed: WgPeer) {
    && Clean(signed) && sig == Signature(signed.endpoint, signed.allowed)
    && signed.endpoint == w.endpoint && w.allowed <= signed.allowed
  }

  ghost predicate AllShrunk(s: Wg) {
    forall k | k in s.cache :: k in s.device && exists signed :: Shrunk(s.device[k], s.cache[k], signed)
  }

  lemma AssignKeepsShrunk(s: Wg, key: string, w: WgPeer)
    requires AllShrunk(s) && Clean(w)
    ensures AllShrunk(Wg(Assign(s.device, key, w), s.cache[key := Signature(w.endpoint, w.allowed)]))
  {
    var s' := Wg(Assign(s.device, key, w), s.cache[key := Signature(w.endpoint, w.allowed)]);
    forall k | k in s'.cache ensures k in s'.device && exists signed :: Shrunk(s'.device[k], s'.cache[k], signed) {
      if k == key {
        assert Shrunk(s'.device[k], s'.cache[k], w);
      } else {
        var signed :| Shrunk(s.device[k], s.cache[k], signed);
        assert Shrunk(s'.device[k], s'.cache[k], signed);
      }
    }
  }

  lemma {:induction false} PushShrunk(n: Node, s: Wg, desired: map<string, Config>, order: seq<string>)
    requires AllShrunk(s) && AllClean(desired) && forall k | k in order :: k in desired
    ensures AllShrunk(Push(n, s, desired, order))
  {
    if |order| > 0 {
      var init, k := order[..|order| - 1], order[|order| - 1];
      PushShrunk(n, s, desired, init);
      if Usable(n, desired[k].peer.endpoint) {
        PushOneIsWalkOne(n, Push(n, s, desired, init), k, desired[k]);
        AssignKeepsShrunk(Push(n, s, desired, init), k, Target(desired[k]));
      }
    }
  }

  lemma ApplyShrunk(n: Node, s: Wg, desired: map<string, Config>, order: seq<string>)
    requires AllShrunk(s) && AllClean(desired) && WalkOf(order, desired.Keys)
    ensures AllShrunk(Apply(n, s, desired, order))
  {
    assert forall k | k in order :: k in Elements(order);
    PruneShrunk(s, desired.Keys);
    PushShrunk(n, Prune(s, desired.Keys), desired, order);
  }

  lemma PruneShrunk(s: Wg, keys: set<string>)
    requires AllShrunk(s)
    ensures var p := Prune(s, keys); AllShrunk(p) && p.device.Keys <= keys && p.cache.Keys <= keys
  {
    var p := Prune(s, keys);
    forall k | k in p.cache ensures k in p.device && exists signed :: Shrunk(p.device[k], p.cache[k], signed) {
      assert k in s.cache && k in s.device;
      var signed :| Shrunk(s.device[k], s.cache[k], signed);
      assert Shrunk(p.device[k], p.cache[k], signed);
    }
  }

  /** Nothing the plan asks for is starved. */
  ghost predicate Unstarved(s: Wg, desired: map<string, Config>) {
    forall k, x | k in desired && x in desired[k].allowed :: !Starved(s, k, desired[k], x)
  }

  /** Where nothing is starved a matching signature vouches truly. */
  lemma UnstarvedTrusted(s: Wg, desired: map<string, Config>)
    requires AllShrunk(s) && AllClean(desired) && Unstarved(s, desired)
    ensures Trusted(s, Targets(desired), Signatures(desired))
  {
    forall k | k in desired && k in s.cache && s.cache[k] == Signature(desired[k].peer.endpoint, desired[k].allowed)
      ensures s.device[k] == Target(desired[k])
    {
      var signed :| Shrunk(s.device[k], s.cache[k], signed);
      SignatureInjective(signed, Target(desired[k]));
      forall x | x in desired[k].allowed ensures x in s.device[k].allowed {
        assert !Starved(s, k, desired[k], x);
      }
      assert s.device[k].allowed == desired[k].allowed;
    }
  }

  lemma PruneUnstarved(s: Wg, desired: map<string, Config>)
    requires Unstarved(s, desired)
    ensures Unstarved(Prune(s, desired.Keys), desired)
  {
    forall k, x | k in desired && x in desired[k].allowed
      ensures !Starved(Prune(s, desired.Keys), k, desired[k], x)
    {
      assert !Starved(s, k, desired[k], x);
    }
  }

  /** From any state a run can reach, the plan is met exactly when it is disjoint, every endpoint is usable, and it asks
      for nothing the device has lost behind the cache's back. */
  lemma ApplyMetIff(n: Node, s: Wg, desired: map<string, Config>, order: seq<string>)
    requires AllShrunk(s) && Sane(n, s.device) && WalkOf(order, desired.Keys) && AllClean(desired)
    ensures Apply(n, s, desired, order).device == Targets(desired) <==>
      Disjoint(desired) && AllUsable(n, desired) && Unstarved(s, desired)
  {
    if Disjoint(desired) && AllUsable(n, desired) && Unstarved(s, desired) {
      UnstarvedMet(n, s, desired, order);
    } else if Apply(n, s, desired, order).device == Targets(desired) {
      MetSane(n, s, desired, order);
      forall k, x | k in desired && x in desired[k].allowed ensures !Starved(s, k, desired[k], x) {
        if Starved(s, k, desired[k], x) {
          StarvedStays(n, s, desired, order, k, desired[k], x);
        }
      }
    }
  }

  lemma UnstarvedMet(n: Node, s: Wg, desired: map<string, Config>, order: seq<string>)
    requires AllShrunk(s) && WalkOf(order, desired.Keys) && AllClean(desired)
    requires Disjoint(desired) && AllUsable(n, desired) && Unstarved(s, desired)
    ensures Apply(n, s, desired, order).device == Targets(desired)
  {
    var p, targets, sigs := Prune(s, desired.Keys), Targets(desired), Signatures(desired);
    PruneShrunk(s, desired.Keys);
    PruneUnstarved(s, desired);
    UnstarvedTrusted(p, desired);
    ApplyIsWalk(n, s, desired, order);
    WalkProgress(p, targets, sigs, order);
    AllWalked(p, Walk(p, targets, sigs, order), targets, sigs);
  }

  lemma MetSane(n: Node, s: Wg, desired: map<string, Config>, order: seq<string>)
    requires Sane(n, s.device) && WalkOf(order, desired.Keys)
    requires Apply(n, s, desired, order).device == Targets(desired)
    ensures Disjoint(desired) && AllUsable(n, desired)
  {
    assert forall k | k in order :: k in Elements(order);
    PushSane(n, Prune(s, desired.Keys), desired, order);
    var device := Apply(n, s, desired, order).device;
    assert forall k | k in desired :: device[k] == Target(desired[k]);
  }
}
