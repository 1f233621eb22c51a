/** What holds of every plan a pass produces: AllowedIPs are conserved, list order is irrelevant,
    relays are live introducers. */
module RelayPlan {
  import opened Relay
  import Strings
  import Sorting

  /** The key whose tunnel the plan assigns to a peer. */
  function Carrier(plan: Plan, key: string): string {
    if key in plan.relayRoutes then plan.relayRoutes[key] else key
  }

  ghost predicate Disjoint(desired: map<string, Config>) {
    forall k, l | k in desired && l in desired && k != l :: desired[k].allowed !! desired[l].allowed
  }

  lemma CarrierIsHost(c: Pass, p: Peer)
    requires DistinctKeys(c.obs.peers) && p in c.obs.peers && c.Eligible(p)
    ensures Carrier(c.Outcome(), p.pubKey) == c.Host(p).pubKey
    ensures p.pubKey in c.Outcome().relayRoutes <==> c.RelayFor(p).Some?
  {
    FindOwn(c.obs.peers, p);
    if p.pubKey in c.RelayedKeysIn(c.obs.peers) {
      var q :| q in c.obs.peers && c.Eligible(q) && c.RelayFor(q).Some? && q.pubKey == p.pubKey;
      FindOwn(c.obs.peers, q);
    }
  }

  /** Each eligible peer's CIDRs sit together in the entry of its carrier. */
  lemma CidrsPlaced(c: Pass, p: Peer)
    requires DistinctKeys(c.obs.peers) && p in c.obs.peers && c.Eligible(p)
    ensures var plan := c.Outcome(); var k := Carrier(plan, p.pubKey);
      k in plan.desired && Cidrs(p) <= plan.desired[k].allowed
  {
    CarrierIsHost(c, p);
    assert c.Host(p).pubKey in c.HostKeysIn(c.obs.peers);
  }

  /** Nothing else is in an entry. */
  lemma CidrOwner(c: Pass, k: string, x: string) returns (p: Peer)
    requires DistinctKeys(c.obs.peers)
    requires k in c.Outcome().desired && x in c.Outcome().desired[k].allowed
    ensures p in c.obs.peers && c.Eligible(p) && x in Cidrs(p) && Carrier(c.Outcome(), p.pubKey) == k
  {
    assert x in c.AllowedIn(c.obs.peers, k);
    p :| p in c.obs.peers && c.Eligible(p) && c.Host(p).pubKey == k && x in Cidrs(p);
    CarrierIsHost(c, p);
  }

  function CarriedBy(desired: map<string, Config>): set<string> {
    set k, x | k in desired && x in desired[k].allowed :: x
  }

  function AnsweredFor(c: Pass): set<string> {
    set p, x | p in c.obs.peers && c.Eligible(p) && x in Cidrs(p) :: x
  }

  /** The union of all entries is exactly what the eligible peers answer for. */
  lemma AllowedConserved(c: Pass)
    requires DistinctKeys(c.obs.peers)
    ensures CarriedBy(c.Outcome().desired) == AnsweredFor(c)
  {
    var plan := c.Outcome();
    forall x | x in AnsweredFor(c) ensures x in CarriedBy(plan.desired) {
      var p :| p in c.obs.peers && c.Eligible(p) && x in Cidrs(p);
      CidrsPlaced(c, p);
      assert x in plan.desired[Carrier(plan, p.pubKey)].allowed;
    }
    forall x | x in CarriedBy(plan.desired) ensures x in AnsweredFor(c) {
      var k :| k in plan.desired && x in plan.desired[k].allowed;
      var p := CidrOwner(c, k, x);
    }
  }

  /** No entry is empty, and each is headed by the peer it is keyed by. */
  lemma EntriesMeaningful(c: Pass, k: string)
    requires DistinctKeys(c.obs.peers) && k in c.Outcome().desired
    ensures c.Outcome().desired[k].allowed != {}
    ensures c.Outcome().desired[k].peer in c.obs.peers && c.Outcome().desired[k].peer.pubKey == k
  {
    var p :| p in c.obs.peers && c.Eligible(p) && c.Host(p).pubKey == k;
    CidrsPlaced(c, p);
    CarrierIsHost(c, p);
    assert p.meshIP + "/32" in Cidrs(p);
  }

  ghost predicate Overlap(c: Pass, p: Peer, q: Peer) {
    p in c.obs.peers && q in c.obs.peers && c.Eligible(p) && c.Eligible(q) && Cidrs(p) * Cidrs(q) != {}
  }

  /** Peers that share a CIDR but not a carrier make two entries overlap. */
  lemma OverlapSpreads(c: Pass, p: Peer, q: Peer)
    requires DistinctKeys(c.obs.peers) && Overlap(c, p, q)
    requires Carrier(c.Outcome(), p.pubKey) != Carrier(c.Outcome(), q.pubKey)
    ensures !Disjoint(c.Outcome().desired)
  {
    CidrsPlaced(c, p);
    CidrsPlaced(c, q);
    var x :| x in Cidrs(p) * Cidrs(q);
    EntriesMeet(c.Outcome().desired, Carrier(c.Outcome(), p.pubKey), Carrier(c.Outcome(), q.pubKey), x);
  }

  lemma EntriesMeet(d: map<string, Config>, k: string, l: string, x: string)
    requires k in d && l in d && k != l && x in d[k].allowed && x in d[l].allowed
    ensures !Disjoint(d)
  {
  }

  /** Two entries that share x come from two peers that share x. */
  lemma OverlapCause(c: Pass, k: string, l: string, x: string) returns (p: Peer, q: Peer)
    requires DistinctKeys(c.obs.peers) && k in c.Outcome().desired && l in c.Outcome().desired && k != l
    requires x in c.Outcome().desired[k].allowed && x in c.Outcome().desired[l].allowed
    ensures Overlap(c, p, q) && Carrier(c.Outcome(), p.pubKey) == k && Carrier(c.Outcome(), q.pubKey) == l
  {
    p := CidrOwner(c, k, x);
    q := CidrOwner(c, l, x);
    assert x in Cidrs(p) * Cidrs(q);
  }

  /** Peers that share a CIDR share a carrier. */
  ghost predicate SharedTogether(c: Pass) {
    forall p, q | Overlap(c, p, q) :: Carrier(c.Outcome(), p.pubKey) == Carrier(c.Outcome(), q.pubKey)
  }

  /** Entries are disjoint exactly when peers that share a CIDR share a carrier. */
  lemma DisjointIff(c: Pass)
    requires DistinctKeys(c.obs.peers)
    ensures Disjoint(c.Outcome().desired) <==> SharedTogether(c)
  {
    if !SharedTogether(c) {
      var p, q :| Overlap(c, p, q) && Carrier(c.Outcome(), p.pubKey) != Carrier(c.Outcome(), q.pubKey);
      OverlapSpreads(c, p, q);
    }
    if !Disjoint(c.Outcome().desired) {
      NotShared(c);
    }
  }

  lemma NotShared(c: Pass)
    requires DistinctKeys(c.obs.peers) && !Disjoint(c.Outcome().desired)
    ensures !SharedTogether(c)
  {
    var k, l, x := MeetingEntries(c.Outcome().desired);
    var p, q := OverlapCause(c, k, l, x);
  }

  lemma MeetingEntries(d: map<string, Config>) returns (k: string, l: string, x: string)
    requires !Disjoint(d)
    ensures k in d && l in d && k != l && x in d[k].allowed && x in d[l].allowed
  {
    k, l :| k in d && l in d && k != l && !(d[k].allowed !! d[l].allowed);
    x :| x in d[k].allowed && x in d[l].allowed;
  }

  /** Every relay is a live introducer other than this node, and holds an entry. */
  lemma RelaysAreLive(c: Pass, key: string)
    requires DistinctKeys(c.obs.peers) && key in c.Outcome().relayRoutes
    ensures var relay := c.Outcome().relayRoutes[key];
      relay in c.Outcome().desired && c.Outcome().desired[relay].peer.pubKey == relay &&
      var r := c.Outcome().desired[relay].peer;
      r in c.obs.peers && r.introducer && r.endpoint != "" && r.pubKey != c.node.pubKey
      && c.obs.now - r.lastSeen <= 90_000_000_000 && !Offline(c.mem.offline, r.pubKey, c.obs.now)
  {
    var p :| p in c.obs.peers && c.Eligible(p) && c.RelayFor(p).Some? && p.pubKey == key;
    CarrierIsHost(c, p);
    CidrsPlaced(c, p);
    FindOwn(c.obs.peers, c.Host(p));
  }

  // ---- The order of the peer list ----

  ghost predicate SamePeers(s: seq<Peer>, t: seq<Peer>) {
    DistinctKeys(s) && DistinctKeys(t) && Sorting.Elements(s) == Sorting.Elements(t)
  }

  lemma KeyLessLinear(s: seq<Peer>)
    requires DistinctKeys(s)
    ensures Sorting.Linear(KeyLess, Sorting.Elements(s))
  {
    Sorting.StringsLinear(PeerKeys(s));
    forall x, y | x in Sorting.Elements(s) && y in Sorting.Elements(s)
      ensures x == y || KeyLess(x, y) || KeyLess(y, x)
    {
      assert x.pubKey in PeerKeys(s) && y.pubKey in PeerKeys(s);
    }
    forall x | x in Sorting.Elements(s) ensures !KeyLess(x, x) {
      assert x.pubKey in PeerKeys(s);
    }
    forall x, y, z | x in Sorting.Elements(s) && y in Sorting.Elements(s) && z in Sorting.Elements(s)
      && KeyLess(x, y) && KeyLess(y, z)
      ensures KeyLess(x, z)
    {
      Strings.LessTransitive(x.pubKey, y.pubKey, z.pubKey);
    }
  }

  lemma {:induction false} CandidatesDistinct(c: Pass, peers: seq<Peer>)
    requires DistinctKeys(peers)
    ensures DistinctKeys(c.CandidatesIn(peers))
  {
    if |peers| > 0 {
      var init, last := peers[..|peers| - 1], peers[|peers| - 1];
      CandidatesDistinct(c, init);
      forall q | q in c.CandidatesIn(init) ensures q.pubKey != last.pubKey {
        assert q in init;
      }
    }
  }

  lemma {:induction false} ReachableAll(candidates: seq<Peer>)
    requires forall p | p in candidates :: p.pubKey != "" && p.endpoint != ""
    ensures Reachable(candidates) == candidates
  {
    if |candidates| > 0 {
      var init := candidates[..|candidates| - 1];
      ReachableAll(init);
      assert candidates == init + [candidates[|candidates| - 1]];
    }
  }

  lemma SelectRelayUnordered(n: Node, key: string, s: seq<Peer>, t: seq<Peer>)
    requires SamePeers(s, t)
    requires forall p | p in s :: p.pubKey != "" && p.endpoint != ""
    ensures SelectRelay(n, key, s) == SelectRelay(n, key, t) && |s| == |t|
  {
    forall p | p in t ensures p in s { assert p in Sorting.Elements(t); }
    ReachableAll(s);
    ReachableAll(t);
    KeyLessLinear(s);
    Sorting.SortUnique(KeyLess, s, t);
  }

  lemma CandidatesUnordered(c: Pass, c': Pass)
    requires c' == c.(obs := c.obs.(peers := c'.obs.peers)) && SamePeers(c.obs.peers, c'.obs.peers)
    ensures SamePeers(c.Candidates(), c'.Candidates())
  {
    CandidatesDistinct(c, c.obs.peers);
    CandidatesDistinct(c', c'.obs.peers);
    forall q ensures q in Sorting.Elements(c.Candidates()) <==> q in Sorting.Elements(c'.Candidates()) {
      assert q in c.obs.peers <==> q in Sorting.Elements(c.obs.peers);
      assert q in c'.obs.peers <==> q in Sorting.Elements(c'.obs.peers);
      assert c.IsCandidate(q) == c'.IsCandidate(q);
    }
  }

  lemma HostUnordered(c: Pass, c': Pass, p: Peer)
    requires c' == c.(obs := c.obs.(peers := c'.obs.peers)) && SamePeers(c.obs.peers, c'.obs.peers)
    ensures c.Raw(p) == c'.Raw(p) && c.RelayFor(p) == c'.RelayFor(p)
  {
    CandidatesUnordered(c, c');
    SelectRelayUnordered(c.node, p.pubKey, c.Candidates(), c'.Candidates());
    SameVerdict(c, c', p);
  }

  /** A verdict needs only how many candidates there are and which of them is selected. */
  lemma SameVerdict(c: Pass, c': Pass, p: Peer)
    requires c' == c.(obs := c.obs.(peers := c'.obs.peers)) && |c.Candidates()| == |c'.Candidates()|
    requires SelectRelay(c.node, p.pubKey, c.Candidates()) == SelectRelay(c.node, p.pubKey, c'.Candidates())
    ensures c.Raw(p) == c'.Raw(p) && c.RelayFor(p) == c'.RelayFor(p)
  {
  }

  /** Two passes that judge every peer alike. */
  ghost predicate Alike(c: Pass, c': Pass) {
    && SamePeers(c.obs.peers, c'.obs.peers)
    && (forall p :: p in c.obs.peers <==> p in c'.obs.peers)
    && (forall p :: c.Eligible(p) == c'.Eligible(p) && c.RelayFor(p) == c'.RelayFor(p) && c.Held(p) == c'.Held(p))
    && (forall k :: c.DirectCycles(k) == c'.DirectCycles(k))
  }

  lemma FindUnordered(s: seq<Peer>, t: seq<Peer>, k: string)
    requires SamePeers(s, t) && k in PeerKeys(s)
    ensures k in PeerKeys(t) && Find(s, k) == Find(t, k)
  {
    var p := Find(s, k);
    assert p in Sorting.Elements(s) && p in Sorting.Elements(t);
    FindOwn(t, p);
  }

  lemma KeysUnordered(c: Pass, c': Pass)
    requires Alike(c, c')
    ensures c.HostKeysIn(c.obs.peers) == c'.HostKeysIn(c'.obs.peers)
    ensures c.RelayedKeysIn(c.obs.peers) == c'.RelayedKeysIn(c'.obs.peers)
    ensures c.HeldKeysIn(c.obs.peers) == c'.HeldKeysIn(c'.obs.peers)
  {
  }

  lemma AllowedUnordered(c: Pass, c': Pass, k: string)
    requires Alike(c, c')
    ensures c.AllowedIn(c.obs.peers, k) == c'.AllowedIn(c'.obs.peers, k)
  {
  }

  lemma DesiredUnordered(c: Pass, c': Pass)
    requires Alike(c, c')
    ensures c.Outcome().desired == c'.Outcome().desired
  {
    KeysUnordered(c, c');
    forall k | k in c.HostKeysIn(c.obs.peers)
      ensures Sorting.SameAt(c.Outcome().desired, c'.Outcome().desired, k)
    {
      EntryUnordered(c, c', k);
    }
    Sorting.SameMap(c.Outcome().desired, c'.Outcome().desired, c.HostKeysIn(c.obs.peers));
  }

  lemma EntryUnordered(c: Pass, c': Pass, k: string)
    requires Alike(c, c') && k in c.Outcome().desired && k in c'.Outcome().desired
    ensures c.Outcome().desired[k] == c'.Outcome().desired[k]
  {
    FindUnordered(c.obs.peers, c'.obs.peers, k);
    AllowedUnordered(c, c', k);
  }

  lemma RelayRoutesUnordered(c: Pass, c': Pass)
    requires Alike(c, c')
    ensures c.Outcome().relayRoutes == c'.Outcome().relayRoutes
  {
    KeysUnordered(c, c');
    var m, m' := c.Outcome().relayRoutes, c'.Outcome().relayRoutes;
    assert m.Keys == m'.Keys;
    forall k | k in m ensures m[k] == m'[k] {
      RelayRouteUnordered(c, c', k);
    }
  }

  lemma RelayRouteUnordered(c: Pass, c': Pass, k: string)
    requires Alike(c, c') && k in c.RelayedKeysIn(c.obs.peers)
    ensures k in PeerKeys(c.obs.peers) && k in PeerKeys(c'.obs.peers)
    ensures c.Host(Find(c.obs.peers, k)) == c'.Host(Find(c'.obs.peers, k))
  {
    FindUnordered(c.obs.peers, c'.obs.peers, k);
  }

  lemma DirectStableUnordered(c: Pass, c': Pass)
    requires Alike(c, c')
    ensures c.Outcome().directStable == c'.Outcome().directStable
  {
    KeysUnordered(c, c');
  }

  /** The plan depends on which peers were seen, not on the order they were listed in. */
  lemma OrderIrrelevant(c: Pass, peers: seq<Peer>)
    requires SamePeers(c.obs.peers, peers)
    ensures c.(obs := c.obs.(peers := peers)).Outcome() == c.Outcome()
  {
    var c' := c.(obs := c.obs.(peers := peers));
    forall p ensures p in c.obs.peers <==> p in peers {
      assert p in c.obs.peers <==> p in Sorting.Elements(c.obs.peers);
      assert p in peers <==> p in Sorting.Elements(peers);
    }
    forall p ensures c.Raw(p) == c'.Raw(p) && c.RelayFor(p) == c'.RelayFor(p) {
      HostUnordered(c, c', p);
    }
    assert Alike(c, c');
    DesiredUnordered(c, c');
    RelayRoutesUnordered(c, c');
    DirectStableUnordered(c, c');
  }
}
