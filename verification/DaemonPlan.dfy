/** The loop of buildDesiredPeerConfigsWithHandshakes as a fold over per-peer verdicts, and its agreement with the
    order-free outcome of a pass. */
module DaemonPlan {
  import opened Relay
  import opened Sorting
  import opened Reconcile

  // ---- The plan as a fold over per-peer verdicts ----

  /** What a pass does with one peer: nothing, or place its CIDRs with a host. */
  datatype Verdict = Skip | Place(host: Peer, relayed: bool, held: bool)

  function VerdictOf(c: Pass, p: Peer): Verdict {
    if !c.Eligible(p) then Skip else Place(c.Host(p), c.RelayFor(p).Some?, c.Held(p))
  }

  /** addAllowedIP, for a set of CIDRs. */
  function AddAllowed(desired: map<string, Config>, host: Peer, cidrs: set<string>): map<string, Config> {
    var was := if host.pubKey in desired then desired[host.pubKey] else Config(host, {});
    desired[host.pubKey := was.(allowed := was.allowed + cidrs)]
  }

  function Put(plan: Plan, p: Peer, v: Verdict, cycles: int): Plan {
    match v
    case Skip => plan
    case Place(host, relayed, held) =>
      Plan(AddAllowed(plan.desired, host, Cidrs(p)),
           if relayed then plan.relayRoutes[p.pubKey := host.pubKey] else plan.relayRoutes,
           if held then plan.directStable[p.pubKey := cycles] else plan.directStable)
  }

  function Fold(peers: seq<Peer>, vs: seq<Verdict>, cycles: map<string, int>): Plan
    requires |peers| == |vs| && PeerKeys(peers) <= cycles.Keys
  {
    if |peers| == 0 then Plan(map[], map[], map[])
    else
      var i := |peers| - 1;
      assert peers[i].pubKey in PeerKeys(peers) && PeerKeys(peers[..i]) <= PeerKeys(peers);
      Put(Fold(peers[..i], vs[..i], cycles), peers[i], vs[i], cycles[peers[i].pubKey])
  }

  /** The verdicts on each peer that the plan puts under key k. */
  function PlacedAt(peers: seq<Peer>, vs: seq<Verdict>, k: string): set<string>
    requires |peers| == |vs|
  {
    set i, x | 0 <= i < |vs| && vs[i].Place? && vs[i].host.pubKey == k && x in Cidrs(peers[i]) :: x
  }

  lemma PlacedAtStep(peers: seq<Peer>, vs: seq<Verdict>, k: string)
    requires |peers| == |vs| > 0
    ensures var i := |vs| - 1;
      PlacedAt(peers, vs, k) == PlacedAt(peers[..i], vs[..i], k) +
        if vs[i].Place? && vs[i].host.pubKey == k then Cidrs(peers[i]) else {}
  {
    var i := |vs| - 1;
    forall x | x in PlacedAt(peers, vs, k)
      ensures x in PlacedAt(peers[..i], vs[..i], k) || (vs[i].Place? && vs[i].host.pubKey == k && x in Cidrs(peers[i]))
    {
      var j :| 0 <= j < |vs| && vs[j].Place? && vs[j].host.pubKey == k && x in Cidrs(peers[j]);
      assert j < i ==> vs[..i][j] == vs[j] && peers[..i][j] == peers[j];
    }
    forall x | x in PlacedAt(peers[..i], vs[..i], k) ensures x in PlacedAt(peers, vs, k) {
      var j :| 0 <= j < i && vs[..i][j].Place? && vs[..i][j].host.pubKey == k && x in Cidrs(peers[..i][j]);
      assert vs[j].Place? && x in Cidrs(peers[j]);
    }
  }

  ghost predicate HostedAt(vs: seq<Verdict>, k: string, i: int) {
    0 <= i < |vs| && vs[i].Place? && vs[i].host.pubKey == k
  }

  /** Which entries a fold has, and who heads them. */
  lemma {:induction false} FoldHosts(peers: seq<Peer>, vs: seq<Verdict>, cycles: map<string, int>, k: string)
    requires |peers| == |vs| && PeerKeys(peers) <= cycles.Keys
    ensures var d := Fold(peers, vs, cycles).desired;
      && (k in d <==> exists i :: HostedAt(vs, k, i))
      && (k in d ==> exists i :: HostedAt(vs, k, i) && vs[i].host == d[k].peer)
  {
    if |peers| > 0 {
      var i := |peers| - 1;
      assert PeerKeys(peers[..i]) <= PeerKeys(peers);
      FoldHosts(peers[..i], vs[..i], cycles, k);
      var was, d := Fold(peers[..i], vs[..i], cycles).desired, Fold(peers, vs, cycles).desired;
      assert d == if vs[i].Skip? then was else AddAllowed(was, vs[i].host, Cidrs(peers[i]));
      HostsStep(was, d, vs[..i], vs, Cidrs(peers[i]), k);
    }
  }

  lemma HostsStep(was: map<string, Config>, d: map<string, Config>, init: seq<Verdict>, vs: seq<Verdict>,
                  cidrs: set<string>, k: string)
    requires |vs| > 0 && init == vs[..|vs| - 1]
    requires d == if vs[|vs| - 1].Skip? then was else AddAllowed(was, vs[|vs| - 1].host, cidrs)
    requires k in was <==> exists i :: HostedAt(init, k, i)
    requires k in was ==> exists i :: HostedAt(init, k, i) && init[i].host == was[k].peer
    ensures k in d <==> exists i :: HostedAt(vs, k, i)
    ensures k in d ==> exists i :: HostedAt(vs, k, i) && vs[i].host == d[k].peer
  {
    var n := |vs| - 1;
    if k in was {
      var i :| HostedAt(init, k, i) && init[i].host == was[k].peer;
      assert HostedAt(vs, k, i);
    } else if k in d {
      assert HostedAt(vs, k, n);
    }
    forall i | HostedAt(vs, k, i) ensures k in d {
      assert i < n ==> HostedAt(init, k, i);
    }
  }

  /** What an entry of a fold holds. */
  lemma {:induction false} FoldAllowed(peers: seq<Peer>, vs: seq<Verdict>, cycles: map<string, int>, k: string)
    requires |peers| == |vs| && PeerKeys(peers) <= cycles.Keys
    ensures var d := Fold(peers, vs, cycles).desired; k in d ==> d[k].allowed == PlacedAt(peers, vs, k)
  {
    if |peers| > 0 {
      var i := |peers| - 1;
      assert PeerKeys(peers[..i]) <= PeerKeys(peers);
      FoldAllowed(peers[..i], vs[..i], cycles, k);
      PlacedAtStep(peers, vs, k);
      FoldHosts(peers[..i], vs[..i], cycles, k);
      if k !in Fold(peers[..i], vs[..i], cycles).desired {
        NothingPlaced(peers[..i], vs[..i], k);
      }
    }
  }

  /** Entry k of a fold. */
  lemma FoldDesiredAt(peers: seq<Peer>, vs: seq<Verdict>, cycles: map<string, int>, k: string)
    requires |peers| == |vs| && PeerKeys(peers) <= cycles.Keys
    ensures var d := Fold(peers, vs, cycles).desired;
      && (k in d <==> exists i :: HostedAt(vs, k, i))
      && (k in d ==> d[k].allowed == PlacedAt(peers, vs, k))
      && (k in d ==> exists i :: HostedAt(vs, k, i) && vs[i].host == d[k].peer)
  {
    FoldHosts(peers, vs, cycles, k);
    FoldAllowed(peers, vs, cycles, k);
  }

  lemma NothingPlaced(peers: seq<Peer>, vs: seq<Verdict>, k: string)
    requires |peers| == |vs| && forall i :: !HostedAt(vs, k, i)
    ensures PlacedAt(peers, vs, k) == {}
  {
    forall i | 0 <= i < |vs| ensures !(vs[i].Place? && vs[i].host.pubKey == k) {
      assert !HostedAt(vs, k, i);
    }
  }

  /** Relay routes and stability counters of a fold over distinct peers. */
  lemma {:induction false} FoldRoutesAt(peers: seq<Peer>, vs: seq<Verdict>, cycles: map<string, int>, j: nat)
    requires |peers| == |vs| && PeerKeys(peers) <= cycles.Keys && DistinctKeys(peers) && j < |peers|
    ensures var plan, k := Fold(peers, vs, cycles), peers[j].pubKey;
      && (k in plan.relayRoutes <==> vs[j].Place? && vs[j].relayed)
      && (k in plan.relayRoutes ==> plan.relayRoutes[k] == vs[j].host.pubKey)
      && (k in plan.directStable <==> vs[j].Place? && vs[j].held)
      && (k in plan.directStable ==> plan.directStable[k] == cycles[k])
  {
    var i := |peers| - 1;
    assert PeerKeys(peers[..i]) <= PeerKeys(peers);
    if j < i {
      FoldRoutesAt(peers[..i], vs[..i], cycles, j);
    } else {
      FoldKeys(peers[..i], vs[..i], cycles);
      assert peers[i].pubKey !in PeerKeys(peers[..i]);
    }
  }

  lemma {:induction false} FoldKeys(peers: seq<Peer>, vs: seq<Verdict>, cycles: map<string, int>)
    requires |peers| == |vs| && PeerKeys(peers) <= cycles.Keys
    ensures Fold(peers, vs, cycles).relayRoutes.Keys <= PeerKeys(peers)
    ensures Fold(peers, vs, cycles).directStable.Keys <= PeerKeys(peers)
  {
    if |peers| > 0 {
      var i := |peers| - 1;
      assert peers[i].pubKey in PeerKeys(peers) && PeerKeys(peers[..i]) <= PeerKeys(peers);
      FoldKeys(peers[..i], vs[..i], cycles);
    }
  }

  // ---- The fold of a pass's own verdicts is its outcome ----

  function Verdicts(c: Pass): seq<Verdict> {
    seq(|c.obs.peers|, i requires 0 <= i < |c.obs.peers| => VerdictOf(c, c.obs.peers[i]))
  }

  function CyclesOf(c: Pass): map<string, int> {
    map k | k in PeerKeys(c.obs.peers) :: c.DirectCycles(k)
  }

  lemma PlacedIsAllowed(c: Pass, k: string)
    ensures PlacedAt(c.obs.peers, Verdicts(c), k) == c.AllowedIn(c.obs.peers, k)
  {
    var vs := Verdicts(c);
    forall p, x | p in c.obs.peers && c.Eligible(p) && c.Host(p).pubKey == k && x in Cidrs(p)
      ensures x in PlacedAt(c.obs.peers, vs, k)
    {
      var i :| 0 <= i < |c.obs.peers| && c.obs.peers[i] == p;
      assert vs[i] == VerdictOf(c, p);
    }
    forall x | x in PlacedAt(c.obs.peers, vs, k) ensures x in c.AllowedIn(c.obs.peers, k) {
      var i :| 0 <= i < |vs| && vs[i].Place? && vs[i].host.pubKey == k && x in Cidrs(c.obs.peers[i]);
      assert vs[i] == VerdictOf(c, c.obs.peers[i]) && c.obs.peers[i] in c.obs.peers;
    }
  }

  lemma FoldDesiredKey(c: Pass, k: string)
    requires DistinctKeys(c.obs.peers)
    ensures var d := Fold(c.obs.peers, Verdicts(c), CyclesOf(c)).desired;
      && (k in d <==> k in c.HostKeysIn(c.obs.peers))
      && (k in d ==> d[k] == Config(Find(c.obs.peers, k), c.AllowedIn(c.obs.peers, k)))
  {
    FoldDesiredAt(c.obs.peers, Verdicts(c), CyclesOf(c), k);
    PlacedIsAllowed(c, k);
    HostsAre(c, k);
    var d := Fold(c.obs.peers, Verdicts(c), CyclesOf(c)).desired;
    if k in d {
      var i :| HostedAt(Verdicts(c), k, i) && Verdicts(c)[i].host == d[k].peer;
      HostAt(c, k, i);
    }
  }

  lemma HostAt(c: Pass, k: string, i: int)
    requires DistinctKeys(c.obs.peers) && HostedAt(Verdicts(c), k, i)
    ensures k in c.HostKeysIn(c.obs.peers) && Find(c.obs.peers, k) == Verdicts(c)[i].host
  {
    var p := c.obs.peers[i];
    assert p in c.obs.peers && Verdicts(c)[i] == VerdictOf(c, p);
    FindOwn(c.obs.peers, c.Host(p));
  }

  lemma HostsAre(c: Pass, k: string)
    requires DistinctKeys(c.obs.peers)
    ensures k in c.HostKeysIn(c.obs.peers) <==> exists i :: HostedAt(Verdicts(c), k, i)
  {
    if k in c.HostKeysIn(c.obs.peers) {
      var p :| p in c.obs.peers && c.Eligible(p) && c.Host(p).pubKey == k;
      var i :| 0 <= i < |c.obs.peers| && c.obs.peers[i] == p;
      assert HostedAt(Verdicts(c), k, i);
    }
    forall i | HostedAt(Verdicts(c), k, i) ensures k in c.HostKeysIn(c.obs.peers) {
      HostAt(c, k, i);
    }
  }

  lemma FoldRoutesKey(c: Pass, p: Peer)
    requires DistinctKeys(c.obs.peers) && p in c.obs.peers
    ensures var plan, k := Fold(c.obs.peers, Verdicts(c), CyclesOf(c)), p.pubKey;
      && (k in plan.relayRoutes <==> k in c.Outcome().relayRoutes)
      && (k in plan.relayRoutes ==> plan.relayRoutes[k] == c.Outcome().relayRoutes[k])
      && (k in plan.directStable <==> k in c.Outcome().directStable)
      && (k in plan.directStable ==> plan.directStable[k] == c.Outcome().directStable[k])
  {
    var j :| 0 <= j < |c.obs.peers| && c.obs.peers[j] == p;
    FoldRoutesAt(c.obs.peers, Verdicts(c), CyclesOf(c), j);
    assert Verdicts(c)[j] == VerdictOf(c, p);
    RelayedKey(c, p);
    HeldKey(c, p);
    FindOwn(c.obs.peers, p);
  }

  lemma FoldIsDesired(c: Pass)
    requires DistinctKeys(c.obs.peers)
    ensures Fold(c.obs.peers, Verdicts(c), CyclesOf(c)).desired == c.Outcome().desired
  {
    forall k ensures var d := Fold(c.obs.peers, Verdicts(c), CyclesOf(c)).desired;
      && (k in d <==> k in c.HostKeysIn(c.obs.peers))
      && (k in d ==> d[k] == Config(Find(c.obs.peers, k), c.AllowedIn(c.obs.peers, k)))
    {
      FoldDesiredKey(c, k);
    }
  }

  lemma FoldIsRoutes(c: Pass)
    requires DistinctKeys(c.obs.peers)
    ensures Fold(c.obs.peers, Verdicts(c), CyclesOf(c)).relayRoutes == c.Outcome().relayRoutes
    ensures Fold(c.obs.peers, Verdicts(c), CyclesOf(c)).directStable == c.Outcome().directStable
  {
    FoldKeys(c.obs.peers, Verdicts(c), CyclesOf(c));
    OutcomeKeys(c);
    forall k | k in PeerKeys(c.obs.peers)
      ensures SameAt(Fold(c.obs.peers, Verdicts(c), CyclesOf(c)).relayRoutes, c.Outcome().relayRoutes, k)
      ensures SameAt(Fold(c.obs.peers, Verdicts(c), CyclesOf(c)).directStable, c.Outcome().directStable, k)
    {
      FoldRoutesKey(c, Find(c.obs.peers, k));
    }
    SameMap(Fold(c.obs.peers, Verdicts(c), CyclesOf(c)).relayRoutes, c.Outcome().relayRoutes, PeerKeys(c.obs.peers));
    SameMap(Fold(c.obs.peers, Verdicts(c), CyclesOf(c)).directStable, c.Outcome().directStable, PeerKeys(c.obs.peers));
  }

  lemma OutcomeKeys(c: Pass)
    ensures c.Outcome().relayRoutes.Keys <= PeerKeys(c.obs.peers)
    ensures c.Outcome().directStable.Keys <= PeerKeys(c.obs.peers)
  {
  }

  lemma FoldIsOutcome(c: Pass)
    requires DistinctKeys(c.obs.peers)
    ensures Fold(c.obs.peers, Verdicts(c), CyclesOf(c)) == c.Outcome()
  {
    FoldIsDesired(c);
    FoldIsRoutes(c);
  }

}
