/** Mesh IP collisions: which are detected, who loses, and what the loser does (pkg/daemon/collision.go). */
module Collisions {
  import opened Numbers
  import opened Sorting
  import opened Strings
  import D = Derive

  /** A stored peer, as far as collisions go. */
  datatype Holder = Holder(pubKey: string, meshIP: string)

  datatype Collision = Collision(meshIP: string, first: Holder, second: Holder)

  ghost predicate DistinctKeys(peers: seq<Holder>) {
    forall i, j | 0 <= i < j < |peers| :: peers[i].pubKey != peers[j].pubKey
  }

  ghost predicate Holds(peers: seq<Holder>, ip: string, i: int) {
    0 <= i < |peers| && peers[i].meshIP == ip
  }

  /** Peer i is the first of the list to hold its mesh IP. */
  ghost predicate FirstAt(peers: seq<Holder>, ip: string, i: int) {
    Holds(peers, ip, i) && forall j | 0 <= j < i :: peers[j].meshIP != ip
  }

  /** The collision is between the first holder, at i, and the holder at j. */
  ghost predicate Between(peers: seq<Holder>, c: Collision, i: int, j: int) {
    && FirstAt(peers, c.meshIP, i) && Holds(peers, c.meshIP, j)
    && c.first == peers[i] && c.second == peers[j]
  }

  /** The collisions of a walk: the first holder of each mesh IP against every later one. */
  ghost predicate Detected(peers: seq<Holder>, c: Collision) {
    c.meshIP != "" && c.first.pubKey != c.second.pubKey &&
    exists i, j :: Between(peers, c, i, j)
  }

  /** These are the collisions among some peers. */
  ghost predicate Lists(peers: seq<Holder>, cs: seq<Collision>) {
    forall c :: c in cs <==> Detected(peers, c)
  }

  /** The map of first holders with one more peer. */
  function Noted(ipMap: map<string, Holder>, peer: Holder): map<string, Holder> {
    if peer.meshIP == "" || peer.meshIP in ipMap then ipMap else ipMap[peer.meshIP := peer]
  }

  /** The collisions with one more peer. */
  function Collided(ipMap: map<string, Holder>, cs: seq<Collision>, peer: Holder): seq<Collision> {
    if peer.meshIP != "" && peer.meshIP in ipMap && ipMap[peer.meshIP].pubKey != peer.pubKey
      then cs + [Collision(peer.meshIP, ipMap[peer.meshIP], peer)]
    else cs
  }

  /** DetectCollisions; peers is the store's map in the order Go happened to walk it. */
  method DetectCollisions(peers: seq<Holder>) returns (cs: seq<Collision>)
    ensures forall c :: c in cs <==> Detected(peers, c)
  {
    var ipMap: map<string, Holder> := map[];
    cs := [];
    for n := 0 to |peers|
      invariant Mapped(peers[..n], ipMap) && Lists(peers[..n], cs)
    {
      var peer := peers[n];
      ListsMore(peers, n, ipMap, cs);
      if peer.meshIP == "" {
        continue;
      }
      if peer.meshIP in ipMap {
        if ipMap[peer.meshIP].pubKey != peer.pubKey {
          cs := cs + [Collision(peer.meshIP, ipMap[peer.meshIP], peer)];
        }
      } else {
        ipMap := ipMap[peer.meshIP := peer];
      }
    }
    assert peers[..|peers|] == peers;
  }

  lemma ListsMore(peers: seq<Holder>, n: nat, ipMap: map<string, Holder>, cs: seq<Collision>)
    requires n < |peers| && Mapped(peers[..n], ipMap) && Lists(peers[..n], cs)
    ensures Mapped(peers[..n + 1], Noted(ipMap, peers[n])) && Lists(peers[..n + 1], Collided(ipMap, cs, peers[n]))
  {
    assert peers[..n + 1] == peers[..n] + [peers[n]];
    DetectedMore(peers[..n], ipMap, peers[n]);
  }

  /** The map of first holders. */
  ghost predicate Mapped(peers: seq<Holder>, ipMap: map<string, Holder>) {
    && (forall ip :: ip in ipMap <==> ip != "" && exists i :: Holds(peers, ip, i))
    && (forall ip | ip in ipMap :: exists i :: FirstAt(peers, ip, i) && peers[i] == ipMap[ip])
  }

  lemma FirstUnique(peers: seq<Holder>, ip: string, i: int, j: int)
    requires FirstAt(peers, ip, i) && FirstAt(peers, ip, j)
    ensures i == j
  {
  }

  lemma HoldsMore(peers: seq<Holder>, peer: Holder, ip: string)
    ensures forall i :: Holds(peers + [peer], ip, i) <==> Holds(peers, ip, i) || (i == |peers| && peer.meshIP == ip)
    ensures forall i :: FirstAt(peers, ip, i) ==> FirstAt(peers + [peer], ip, i)
    ensures (forall i :: !Holds(peers, ip, i)) && peer.meshIP == ip ==> FirstAt(peers + [peer], ip, |peers|)
  {
    var more := peers + [peer];
    assert more[|peers|] == peer && forall i | 0 <= i < |peers| :: more[i] == peers[i];
    forall j | (forall i :: !Holds(peers, ip, i)) && 0 <= j < |peers| ensures more[j].meshIP != ip {
      assert !Holds(peers, ip, j);
    }
  }

  lemma DetectedMore(peers: seq<Holder>, ipMap: map<string, Holder>, peer: Holder)
    requires Mapped(peers, ipMap)
    ensures var ip := peer.meshIP;
      && Mapped(peers + [peer], if ip == "" || ip in ipMap then ipMap else ipMap[ip := peer])
      && forall c :: Detected(peers + [peer], c) <==>
           Detected(peers, c) || (&& ip != "" && ip in ipMap && ipMap[ip].pubKey != peer.pubKey
                                  && c == Collision(ip, ipMap[ip], peer))
  {
    MappedMore(peers, ipMap, peer);
    forall c
      ensures Detected(peers + [peer], c) <==>
        Detected(peers, c) || (&& peer.meshIP != "" && peer.meshIP in ipMap && ipMap[peer.meshIP].pubKey != peer.pubKey
                               && c == Collision(peer.meshIP, ipMap[peer.meshIP], peer))
    {
      OneDetectedMore(peers, ipMap, peer, c);
    }
  }

  lemma MappedMore(peers: seq<Holder>, ipMap: map<string, Holder>, peer: Holder)
    requires Mapped(peers, ipMap)
    ensures Mapped(peers + [peer],
                   if peer.meshIP == "" || peer.meshIP in ipMap then ipMap else ipMap[peer.meshIP := peer])
  {
    var more := peers + [peer];
    var ipMap' := if peer.meshIP == "" || peer.meshIP in ipMap then ipMap else ipMap[peer.meshIP := peer];
    forall ip ensures ip in ipMap' <==> ip != "" && exists i :: Holds(more, ip, i) {
      HoldsMore(peers, peer, ip);
      if ip in ipMap {
        var i :| Holds(peers, ip, i);
        assert Holds(more, ip, i);
      }
      if ip == peer.meshIP {
        assert Holds(more, ip, |peers|);
      }
    }
    forall ip | ip in ipMap' ensures exists i :: FirstAt(more, ip, i) && more[i] == ipMap'[ip] {
      HoldsMore(peers, peer, ip);
      if ip in ipMap {
        var i :| FirstAt(peers, ip, i) && peers[i] == ipMap[ip];
        assert FirstAt(more, ip, i) && more[i] == ipMap'[ip];
      } else {
        assert FirstAt(more, ip, |peers|) && more[|peers|] == peer;
      }
    }
  }

  lemma OneDetectedMore(peers: seq<Holder>, ipMap: map<string, Holder>, peer: Holder, c: Collision)
    requires Mapped(peers, ipMap)
    ensures Detected(peers + [peer], c) <==>
      Detected(peers, c) || (&& peer.meshIP != "" && peer.meshIP in ipMap && ipMap[peer.meshIP].pubKey != peer.pubKey
                             && c == Collision(peer.meshIP, ipMap[peer.meshIP], peer))
  {
    var more := peers + [peer];
    assert more[|peers|] == peer && forall i | 0 <= i < |peers| :: more[i] == peers[i];
    HoldsMore(peers, peer, c.meshIP);
    if Detected(peers, c) {
      var i, j :| Between(peers, c, i, j);
      assert Between(more, c, i, j);
    }
    if c.meshIP in ipMap {
      var f :| FirstAt(peers, c.meshIP, f) && peers[f] == ipMap[c.meshIP];
      assert FirstAt(more, c.meshIP, f) && more[f] == ipMap[c.meshIP];
      if c == Collision(peer.meshIP, ipMap[c.meshIP], peer) && c.first.pubKey != peer.pubKey {
        assert Between(more, c, f, |peers|);
      }
      if Detected(more, c) {
        var i, j :| Between(more, c, i, j);
        FirstUnique(more, c.meshIP, i, f);
        assert j < |peers| ==> Between(peers, c, f, j);
      }
    }
  }

  // ---- Who loses ----

  /** DeterministicWinner: the lower key first. */
  function WinnerLoser(a: Holder, b: Holder): (Holder, Holder) {
    if Less(a.pubKey, b.pubKey) then (a, b) else (b, a)
  }

  /** Both ends name the same winner. */
  lemma WinnerAgreed(a: Holder, b: Holder)
    requires a.pubKey != b.pubKey
    ensures WinnerLoser(a, b) == WinnerLoser(b, a)
  {
    LessTotal(a.pubKey, b.pubKey);
  }

  ghost predicate Loses(peers: seq<Holder>, key: string) {
    exists c :: Detected(peers, c) && WinnerLoser(c.first, c.second).1.pubKey == key
  }

  /** Some other holder of p's mesh IP has a lower, or a higher, key. */
  ghost predicate LowerHolder(peers: seq<Holder>, p: Holder) {
    exists q :: q in peers && q.meshIP == p.meshIP && Less(q.pubKey, p.pubKey)
  }

  ghost predicate HigherHolder(peers: seq<Holder>, p: Holder) {
    exists q :: q in peers && q.meshIP == p.meshIP && Less(p.pubKey, q.pubKey)
  }

  /** In one walk, a peer loses exactly when the first holder of its mesh IP has a lower key, or it is itself the first
      and some other holder has a lower key. */
  lemma LosesIff(peers: seq<Holder>, i: nat, f: nat)
    requires DistinctKeys(peers) && i < |peers| && peers[i].meshIP != "" && FirstAt(peers, peers[i].meshIP, f)
    ensures Loses(peers, peers[i].pubKey) <==>
      if f == i then LowerHolder(peers, peers[i]) else Less(peers[f].pubKey, peers[i].pubKey)
  {
    var p, ip := peers[i], peers[i].meshIP;
    LessTotal(peers[f].pubKey, p.pubKey);
    if f == i && LowerHolder(peers, p) {
      var q :| q in peers && q.meshIP == ip && Less(q.pubKey, p.pubKey);
      var j :| 0 <= j < |peers| && peers[j] == q;
      LessTotal(q.pubKey, p.pubKey);
      assert Between(peers, Collision(ip, p, q), i, j);
      assert WinnerLoser(p, q).1 == p;
    }
    if f != i && Less(peers[f].pubKey, p.pubKey) {
      assert Between(peers, Collision(ip, peers[f], p), f, i);
      assert WinnerLoser(peers[f], p).1 == p;
    }
    forall c | Detected(peers, c) && WinnerLoser(c.first, c.second).1.pubKey == p.pubKey
      ensures if f == i then LowerHolder(peers, p) else Less(peers[f].pubKey, p.pubKey)
    {
      LostTo(peers, i, f, c);
    }
  }

  lemma LostTo(peers: seq<Holder>, i: nat, f: nat, c: Collision)
    requires DistinctKeys(peers) && i < |peers| && peers[i].meshIP != "" && FirstAt(peers, peers[i].meshIP, f)
    requires Detected(peers, c) && WinnerLoser(c.first, c.second).1.pubKey == peers[i].pubKey
    ensures if f == i then LowerHolder(peers, peers[i]) else Less(peers[f].pubKey, peers[i].pubKey)
  {
    var a, b :| Between(peers, c, a, b);
    LessTotal(c.first.pubKey, c.second.pubKey);
    assert i == a || i == b;
    FirstUnique(peers, peers[i].meshIP, f, a);
    assert peers[a] in peers && peers[b] in peers;
  }

  // ---- What the order of the walk decides ----

  ghost predicate SamePeers(peers: seq<Holder>, order: seq<Holder>) {
    DistinctKeys(order) && Elements(order) == Elements(peers)
  }

  lemma FirstExists(peers: seq<Holder>, ip: string, i: nat) returns (f: nat)
    requires Holds(peers, ip, i)
    ensures FirstAt(peers, ip, f)
  {
    f := 0;
    while peers[f].meshIP != ip
      invariant f <= i && forall j | 0 <= j < f :: peers[j].meshIP != ip
      decreases i - f
    {
      f := f + 1;
    }
  }

  /** A walk that begins with one of the peers. */
  lemma BeginWith(peers: seq<Holder>, q: Holder) returns (order: seq<Holder>)
    requires DistinctKeys(peers) && q in peers
    ensures SamePeers(peers, order) && |order| > 0 && order[0] == q
  {
    var i :| 0 <= i < |peers| && peers[i] == q;
    order := [q] + peers[..i] + peers[i + 1..];
    assert peers == peers[..i] + [q] + peers[i + 1..];
    forall a, b | 0 <= a < b < |order| ensures order[a].pubKey != order[b].pubKey {
      var x := if a == 0 then i else if a <= i then a - 1 else a;
      var y := if b <= i then b - 1 else b;
      assert order[a] == peers[x] && order[b] == peers[y] && x != y;
    }
  }

  lemma SameHolders(peers: seq<Holder>, order: seq<Holder>, p: Holder)
    requires SamePeers(peers, order)
    ensures LowerHolder(order, p) == LowerHolder(peers, p) && HigherHolder(order, p) == HigherHolder(peers, p)
  {
    assert forall q :: q in order <==> q in Elements(order);
    assert forall q :: q in peers <==> q in Elements(peers);
  }

  /** Some walk makes p lose exactly when another holder has a lower key. */
  lemma MayLoseIff(peers: seq<Holder>, p: Holder)
    requires DistinctKeys(peers) && p in peers && p.meshIP != ""
    ensures (exists order | SamePeers(peers, order) :: Loses(order, p.pubKey)) <==> LowerHolder(peers, p)
  {
    if LowerHolder(peers, p) {
      var order := BeginWith(peers, p);
      SameHolders(peers, order, p);
      assert FirstAt(order, p.meshIP, 0);
      LosesIff(order, 0, 0);
    }
    forall order | SamePeers(peers, order) && Loses(order, p.pubKey) ensures LowerHolder(peers, p) {
      SameHolders(peers, order, p);
      LoserHasLower(order, p);
    }
  }

  lemma LoserHasLower(peers: seq<Holder>, p: Holder)
    requires DistinctKeys(peers) && p in Elements(peers) && p.meshIP != "" && Loses(peers, p.pubKey)
    ensures LowerHolder(peers, p)
  {
    var i :| 0 <= i < |peers| && peers[i] == p;
    var f := FirstExists(peers, p.meshIP, i);
    LosesIff(peers, i, f);
    assert peers[f] in peers;
  }

  /** Every walk makes p lose exactly when another holder has a lower key and none a higher one: with three or more
      holders, all but the lowest and the highest keep or lose the address by the luck of the walk. */
  lemma MustLoseIff(peers: seq<Holder>, p: Holder)
    requires DistinctKeys(peers) && p in peers && p.meshIP != ""
    ensures (forall order | SamePeers(peers, order) :: Loses(order, p.pubKey)) <==>
      LowerHolder(peers, p) && !HigherHolder(peers, p)
  {
    if LowerHolder(peers, p) && !HigherHolder(peers, p) {
      forall order | SamePeers(peers, order) ensures Loses(order, p.pubKey) {
        SameHolders(peers, order, p);
        HighestLoses(order, p);
      }
    } else {
      var order := Spared(peers, p);
    }
  }

  lemma HighestLoses(peers: seq<Holder>, p: Holder)
    requires DistinctKeys(peers) && p in Elements(peers) && p.meshIP != ""
    requires LowerHolder(peers, p) && !HigherHolder(peers, p)
    ensures Loses(peers, p.pubKey)
  {
    var i :| 0 <= i < |peers| && peers[i] == p;
    var f := FirstExists(peers, p.meshIP, i);
    LosesIff(peers, i, f);
    LessTotal(peers[f].pubKey, p.pubKey);
    assert peers[f] in peers && (f != i ==> !Less(p.pubKey, peers[f].pubKey));
  }

  lemma Spared(peers: seq<Holder>, p: Holder) returns (order: seq<Holder>)
    requires DistinctKeys(peers) && p in peers && p.meshIP != ""
    requires !LowerHolder(peers, p) || HigherHolder(peers, p)
    ensures SamePeers(peers, order) && !Loses(order, p.pubKey)
  {
    if HigherHolder(peers, p) {
      var q :| q in peers && q.meshIP == p.meshIP && Less(p.pubKey, q.pubKey);
      order := BeginWith(peers, q);
      assert p in Elements(order);
      var i :| 0 <= i < |order| && order[i] == p;
      LessTotal(p.pubKey, q.pubKey);
      assert FirstAt(order, p.meshIP, 0);
      LosesIff(order, i, 0);
    } else {
      order := peers;
      if Loses(order, p.pubKey) {
        LoserHasLower(order, p);
      }
    }
  }

  /** Of two holders exactly the one with the higher key loses, in every walk. */
  lemma TwoHolders(peers: seq<Holder>, p: Holder, q: Holder)
    requires DistinctKeys(peers) && p in peers && q in peers && p.meshIP == q.meshIP != "" && Less(p.pubKey, q.pubKey)
    requires forall r | r in peers && r.meshIP == p.meshIP :: r == p || r == q
    ensures Loses(peers, q.pubKey) && !Loses(peers, p.pubKey)
  {
    LessTotal(p.pubKey, q.pubKey);
    LessTotal(q.pubKey, q.pubKey);
    LessTotal(p.pubKey, p.pubKey);
    HighestLoses(peers, q);
    if Loses(peers, p.pubKey) {
      LoserHasLower(peers, p);
    }
  }

  /** Three holders of one address: the middle one loses in one walk and not in another. */
  lemma ThreeHolders(a: Holder, b: Holder, c: Holder)
    requires a.meshIP == b.meshIP == c.meshIP != "" && Less(a.pubKey, b.pubKey) && Less(b.pubKey, c.pubKey)
    ensures Loses([a, b, c], b.pubKey) && !Loses([c, a, b], b.pubKey)
  {
    LessTotal(a.pubKey, b.pubKey);
    LessTotal(b.pubKey, c.pubKey);
    LessTransitive(a.pubKey, b.pubKey, c.pubKey);
    LessTotal(a.pubKey, c.pubKey);
    var x, y := [a, b, c], [c, a, b];
    assert FirstAt(x, b.meshIP, 0) && FirstAt(y, b.meshIP, 0);
    LosesIff(x, 1, 0);
    LosesIff(y, 2, 0);
  }

  // ---- What the loser does ----

  /** The node's own key and address. */
  class LocalNode {
    const pubKey: string
    const config: D.Config
    var meshIP: seq<byte>

    constructor (pubKey: string, config: D.Config, meshIP: seq<byte>)
      ensures this.pubKey == pubKey && this.config == config && this.meshIP == meshIP
    {
      this.pubKey, this.config, this.meshIP := pubKey, config, meshIP;
    }

    /** CheckAndResolveCollisions: the node gives up its address for the one with nonce 1 exactly when it loses a
        collision and that address can be derived; it then lies in the mesh's subnet. */
    method CheckAndResolve(peers: seq<Holder>)
      requires D.Wellformed(config)
      modifies this
      ensures if Loses(peers, pubKey) && D.AttemptValue(config, 1).Some? then Rederived(config, meshIP)
              else meshIP == old(meshIP)
    {
      var cs := DetectCollisions(peers);
      ghost var lost := false;
      for i := 0 to |cs|
        invariant lost <==> exists j | 0 <= j < i :: WinnerLoser(cs[j].first, cs[j].second).1.pubKey == pubKey
        invariant if lost && D.AttemptValue(config, 1).Some? then Rederived(config, meshIP) else meshIP == old(meshIP)
      {
        if WinnerLoser(cs[i].first, cs[i].second).1.pubKey == pubKey {
          lost := true;
          var derived := D.Attempt(config, 1);
          if derived.Err? {
            continue;
          }
          meshIP := derived.value;
        }
      }
      LostIff(cs, peers, pubKey);
    }
  }

  /** The address derived with nonce 1. */
  ghost predicate Rederived(c: D.Config, ip: seq<byte>)
    requires D.Wellformed(c)
  {
    |ip| == 4 && D.AttemptValue(c, 1) == Some(D.Value(ip)) && D.MeshIPInSubnet(c, ip)
  }

  lemma LostIff(cs: seq<Collision>, peers: seq<Holder>, key: string)
    requires forall c :: c in cs <==> Detected(peers, c)
    ensures Loses(peers, key) <==> exists j | 0 <= j < |cs| :: WinnerLoser(cs[j].first, cs[j].second).1.pubKey == key
  {
    if Loses(peers, key) {
      var c :| Detected(peers, c) && WinnerLoser(c.first, c.second).1.pubKey == key;
      var j :| 0 <= j < |cs| && cs[j] == c;
    }
    forall j | 0 <= j < |cs| && WinnerLoser(cs[j].first, cs[j].second).1.pubKey == key ensures Loses(peers, key) {
      assert cs[j] in cs && Detected(peers, cs[j]);
    }
  }
}
