/** Access policies and the peer configuration and routes generated from them (pkg/mesh/policy.go,
    pkg/mesh/deploy.go). */
module Policy {
  import opened Sorting
  import opened Strings

  datatype Node = Node(hostname: string, meshIP: string, publicKey: string, endpoint: string, routable: seq<string>)
  datatype AccessPolicy = AccessPolicy(name: string, from: seq<string>, to: seq<string>, allowMeshIPs: bool,
                                       allowRoutable: bool)
  datatype Access = Access(meshIP: bool, routable: bool)

  /** groups maps a group to its members' hostnames. */
  datatype Mesh = Mesh(nodes: map<string, Node>, groups: map<string, seq<string>>, policies: seq<AccessPolicy>)

  datatype WGPeer = WGPeer(publicKey: string, endpoint: string, allowedIPs: seq<string>, keepalive: int)
  datatype Route = Route(network: string, gateway: string)

  // ---- The relation the policies define ----

  predicate InAny(m: Mesh, names: seq<string>, host: string) {
    exists g | g in names :: g in m.groups && host in m.groups[g]
  }

  /** The policy relates host to peer: each is on one side, and they are on opposite sides. */
  predicate Relates(m: Mesh, p: AccessPolicy, host: string, peer: string) {
    (InAny(m, p.from, host) && InAny(m, p.to, peer)) || (InAny(m, p.to, host) && InAny(m, p.from, peer))
  }

  predicate MayPeer(m: Mesh, p: AccessPolicy, host: string, peer: string) {
    peer != host && peer in m.nodes && Relates(m, p, host, peer)
  }

  function PolicyPeers(m: Mesh, p: AccessPolicy, host: string): set<string> {
    set peer | peer in m.nodes && MayPeer(m, p, host, peer)
  }

  function AllowedBy(m: Mesh, ps: seq<AccessPolicy>, host: string): map<string, Access> {
    map peer | peer in m.nodes && exists p | p in ps :: MayPeer(m, p, host, peer) ::
      Access(exists p | p in ps :: MayPeer(m, p, host, peer) && InAny(m, p.from, host) && p.allowMeshIPs,
             exists p | p in ps :: MayPeer(m, p, host, peer) && InAny(m, p.from, host) && p.allowRoutable)
  }

  /** What ValidatePolicies guarantees of group names. */
  ghost predicate GroupsExist(m: Mesh) {
    forall p | p in m.policies :: forall g | g in p.from + p.to :: g in m.groups
  }

  /** The allowed-peer relation is symmetric between nodes, so each configured tunnel has its other end. */
  lemma AllowedSymmetric(m: Mesh, a: string, b: string)
    requires a in m.nodes && b in m.nodes
    ensures b in AllowedBy(m, m.policies, a) <==> a in AllowedBy(m, m.policies, b)
  {
    if b in AllowedBy(m, m.policies, a) {
      var p :| p in m.policies && MayPeer(m, p, a, b);
      assert MayPeer(m, p, b, a);
    }
    if a in AllowedBy(m, m.policies, b) {
      var p :| p in m.policies && MayPeer(m, p, b, a);
      assert MayPeer(m, p, a, b);
    }
  }

  /** Some allowing policy has host on its from side and peer on its to side. */
  ghost predicate Permits(m: Mesh, host: string, peer: string) {
    exists p | p in m.policies :: p.allowRoutable && InAny(m, p.from, host) && InAny(m, p.to, peer)
  }

  /** A policy that lets host, itself on both sides, into the networks of a peer that is on the from side only. */
  ghost predicate Leaks(m: Mesh, host: string, peer: string) {
    exists p | p in m.policies ::
      p.allowRoutable && InAny(m, p.from, host) && InAny(m, p.to, host) && InAny(m, p.from, peer)
  }

  ghost predicate RoutableGranted(m: Mesh, host: string, peer: string) {
    peer in AllowedBy(m, m.policies, host) && AllowedBy(m, m.policies, host)[peer].routable
  }

  /** Routable access is granted exactly when a policy permits it, or leaks it to a host on both its sides. */
  lemma RoutableIff(m: Mesh, host: string, peer: string)
    requires peer in m.nodes && peer != host
    ensures RoutableGranted(m, host, peer) <==> Permits(m, host, peer) || Leaks(m, host, peer)
  {
    if Permits(m, host, peer) {
      var p :| p in m.policies && p.allowRoutable && InAny(m, p.from, host) && InAny(m, p.to, peer);
      assert MayPeer(m, p, host, peer);
    }
    if Leaks(m, host, peer) {
      var p :| p in m.policies && p.allowRoutable && InAny(m, p.from, host) && InAny(m, p.to, host) &&
        InAny(m, p.from, peer);
      assert MayPeer(m, p, host, peer);
    }
    if RoutableGranted(m, host, peer) {
      var p :| p in m.policies && MayPeer(m, p, host, peer) && InAny(m, p.from, host) && p.allowRoutable;
    }
  }

  /** For a host on both sides of no policy the grant is exactly the permission. */
  lemma RoutableExactOneSided(m: Mesh, host: string, peer: string)
    requires peer in m.nodes && peer != host
    requires forall p | p in m.policies :: !(InAny(m, p.from, host) && InAny(m, p.to, host))
    ensures RoutableGranted(m, host, peer) <==> Permits(m, host, peer)
  {
    RoutableIff(m, host, peer);
  }

  /** The mesh-IP flag, which the generated configuration does not look at, follows the same rule. */
  lemma MeshIPIff(m: Mesh, host: string, peer: string)
    requires peer in m.nodes && peer != host
    ensures (peer in AllowedBy(m, m.policies, host) && AllowedBy(m, m.policies, host)[peer].meshIP) <==>
      exists p | p in m.policies :: p.allowMeshIPs && InAny(m, p.from, host) &&
        (InAny(m, p.to, peer) || (InAny(m, p.to, host) && InAny(m, p.from, peer)))
  {
    forall p | p in m.policies
      ensures InAny(m, p.from, host) ==>
        (MayPeer(m, p, host, peer) <==>
         InAny(m, p.to, peer) || (InAny(m, p.to, host) && InAny(m, p.from, peer)))
    {
    }
  }

  // ---- GetAllowedPeers ----

  /** GetNodeGroups. */
  method GetNodeGroups(m: Mesh, host: string) returns (groups: seq<string>)
    ensures Distinct(groups) && Elements(groups) == set g | g in m.groups && host in m.groups[g]
  {
    groups := [];
    var todo := m.groups.Keys;
    while todo != {}
      invariant todo <= m.groups.Keys && Distinct(groups)
      invariant Elements(groups) == set g | g in m.groups && g !in todo && host in m.groups[g]
      decreases |todo|
    {
      var g :| g in todo;
      assert g !in Elements(groups);
      todo := todo - {g};
      if host in m.groups[g] {
        ghost var before := groups;
        groups := groups + [g];
        assert Elements(groups) == Elements(before) + {g};
      }
    }
  }

  /** One policy's effect on one peer's entry. */
  function Raise(was: Access, p: AccessPolicy, outbound: bool): Access {
    Access(was.meshIP || (outbound && p.allowMeshIPs), was.routable || (outbound && p.allowRoutable))
  }

  /** The entries after a policy has reached a set of peers. */
  function Reach(was: map<string, Access>, peers: set<string>, p: AccessPolicy, outbound: bool): map<string, Access> {
    map x | x in was.Keys + peers ::
      var a := if x in was then was[x] else Access(false, false);
      if x in peers then Raise(a, p, outbound) else a
  }

  lemma ReachMore(was: map<string, Access>, xs: set<string>, ys: set<string>, p: AccessPolicy, outbound: bool)
    ensures Reach(Reach(was, xs, p, outbound), ys, p, outbound) == Reach(was, xs + ys, p, outbound)
  {
  }

  /** The peers among some members. */
  function PeersOf(m: Mesh, members: seq<string>, host: string): set<string> {
    set x | x in members && x != host && x in m.nodes
  }

  /** The innermost loop of GetAllowedPeers: one group of the other side. */
  method ReachGroup(m: Mesh, members: seq<string>, host: string, p: AccessPolicy, outbound: bool,
                    was: map<string, Access>)
    returns (allowed: map<string, Access>)
    ensures allowed == Reach(was, PeersOf(m, members, host), p, outbound)
  {
    allowed := was;
    assert PeersOf(m, members[..0], host) == {};
    for i := 0 to |members|
      invariant allowed == Reach(was, PeersOf(m, members[..i], host), p, outbound)
    {
      var member := members[i];
      assert members[..i + 1] == members[..i] + [member];
      if member == host || member !in m.nodes {
        assert PeersOf(m, members[..i + 1], host) == PeersOf(m, members[..i], host);
        continue;
      }
      ReachMore(was, PeersOf(m, members[..i], host), {member}, p, outbound);
      assert PeersOf(m, members[..i + 1], host) == PeersOf(m, members[..i], host) + {member};
      allowed := Reach(allowed, {member}, p, outbound);
    }
    assert members[..|members|] == members;
  }

  function PeersIn(m: Mesh, groups: seq<string>, host: string): set<string>
    requires forall g | g in groups :: g in m.groups
  {
    set g, x | g in groups && x in PeersOf(m, m.groups[g], host) :: x
  }

  /** The loop over the groups of the other side: None is the nil dereference on a group that does not exist. */
  method ReachGroups(m: Mesh, groups: seq<string>, host: string, p: AccessPolicy, outbound: bool,
                     was: map<string, Access>)
    returns (allowed: Option<map<string, Access>>)
    ensures allowed.Some? <==> forall g | g in groups :: g in m.groups
    ensures allowed.Some? ==> allowed.value == Reach(was, PeersIn(m, groups, host), p, outbound)
  {
    var reached := was;
    assert PeersIn(m, groups[..0], host) == {};
    for i := 0 to |groups|
      invariant forall g | g in groups[..i] :: g in m.groups
      invariant reached == Reach(was, PeersIn(m, groups[..i], host), p, outbound)
    {
      assert groups[..i + 1] == groups[..i] + [groups[i]];
      if groups[i] !in m.groups {
        return None;
      }
      var members := m.groups[groups[i]];
      assert PeersIn(m, groups[..i + 1], host) == PeersIn(m, groups[..i], host) + PeersOf(m, members, host);
      ReachMore(was, PeersIn(m, groups[..i], host), PeersOf(m, members, host), p, outbound);
      reached := ReachGroup(m, members, host, p, outbound, reached);
    }
    assert groups[..|groups|] == groups;
    return Some(reached);
  }

  /** Whether one of the names is among the node's groups: the two flag loops of GetAllowedPeers. */
  method MentionsAny(names: seq<string>, nodeGroups: set<string>) returns (yes: bool)
    ensures yes <==> exists g | g in names :: g in nodeGroups
  {
    for i := 0 to |names|
      invariant forall g | g in names[..i] :: g !in nodeGroups
    {
      if names[i] in nodeGroups {
        return true;
      }
    }
    assert names[..|names|] == names;
    return false;
  }

  /** The groups across the policy from a host. */
  function OtherGroups(p: AccessPolicy, outbound: bool, inbound: bool): seq<string> {
    (if outbound then p.to else []) + (if inbound then p.from else [])
  }

  /** The groups across the policy from host all exist. */
  ghost predicate Resolves(m: Mesh, p: AccessPolicy, host: string) {
    forall g | g in OtherGroups(p, InAny(m, p.from, host), InAny(m, p.to, host)) :: g in m.groups
  }

  lemma OtherGroupsRelate(m: Mesh, p: AccessPolicy, host: string)
    requires Resolves(m, p, host)
    ensures PeersIn(m, OtherGroups(p, InAny(m, p.from, host), InAny(m, p.to, host)), host) == PolicyPeers(m, p, host)
  {
    var gs := OtherGroups(p, InAny(m, p.from, host), InAny(m, p.to, host));
    forall peer | peer in m.nodes && MayPeer(m, p, host, peer) ensures peer in PeersIn(m, gs, host) {
      if InAny(m, p.from, host) && InAny(m, p.to, peer) {
        var g :| g in p.to && g in m.groups && peer in m.groups[g];
        assert g in gs && peer in PeersOf(m, m.groups[g], host);
      } else {
        var g :| g in p.from && g in m.groups && peer in m.groups[g];
        assert g in gs && peer in PeersOf(m, m.groups[g], host);
      }
    }
    forall peer | peer in PeersIn(m, gs, host) ensures peer in m.nodes && MayPeer(m, p, host, peer) {
      var g :| g in gs && peer in PeersOf(m, m.groups[g], host);
    }
  }

  /** Adding a policy to the relation is reaching its peers. */
  lemma AllowedByMore(m: Mesh, ps: seq<AccessPolicy>, p: AccessPolicy, host: string)
    ensures AllowedBy(m, ps + [p], host) ==
            Reach(AllowedBy(m, ps, host), PolicyPeers(m, p, host), p, InAny(m, p.from, host))
  {
    var more := ps + [p];
    var peers := PolicyPeers(m, p, host);
    var a, b := AllowedBy(m, more, host), Reach(AllowedBy(m, ps, host), peers, p, InAny(m, p.from, host));
    assert forall q :: q in more <==> q in ps || q == p;
    forall x ensures x in a <==> x in b {
      if x in a {
        var q :| q in more && MayPeer(m, q, host, x);
        assert q in ps || q == p;
      }
      if x in b && x !in peers {
        var q :| q in ps && MayPeer(m, q, host, x);
        assert q in more;
      }
      if x in peers { assert p in more && MayPeer(m, p, host, x); }
    }
    forall x | x in a ensures a[x] == b[x] {
      EntryMore(m, ps, p, host, x);
    }
  }

  /** The flags of one entry. */
  ghost predicate Flag(m: Mesh, ps: seq<AccessPolicy>, host: string, peer: string, routable: bool) {
    exists p | p in ps ::
      MayPeer(m, p, host, peer) && InAny(m, p.from, host) && (if routable then p.allowRoutable else p.allowMeshIPs)
  }

  lemma EntryMore(m: Mesh, ps: seq<AccessPolicy>, p: AccessPolicy, host: string, x: string)
    requires x in AllowedBy(m, ps + [p], host)
    ensures var peers := PolicyPeers(m, p, host);
      var b := Reach(AllowedBy(m, ps, host), peers, p, InAny(m, p.from, host));
      x in b && AllowedBy(m, ps + [p], host)[x] == b[x]
  {
    var more := ps + [p];
    FlagMore(m, ps, p, host, x, true);
    FlagMore(m, ps, p, host, x, false);
    assert forall q :: q in more <==> q in ps || q == p;
    FlagsAre(m, more, host, x);
    if x in AllowedBy(m, ps, host) {
      FlagsAre(m, ps, host, x);
    }
  }

  lemma FlagsAre(m: Mesh, ps: seq<AccessPolicy>, host: string, x: string)
    requires x in AllowedBy(m, ps, host)
    ensures AllowedBy(m, ps, host)[x] == Access(Flag(m, ps, host, x, false), Flag(m, ps, host, x, true))
  {
  }

  lemma FlagMore(m: Mesh, ps: seq<AccessPolicy>, p: AccessPolicy, host: string, x: string, routable: bool)
    ensures Flag(m, ps + [p], host, x, routable) <==>
      Flag(m, ps, host, x, routable) ||
      (MayPeer(m, p, host, x) && InAny(m, p.from, host) && (if routable then p.allowRoutable else p.allowMeshIPs))
  {
    var more := ps + [p];
    assert forall q :: q in more <==> q in ps || q == p;
    if Flag(m, ps, host, x, routable) {
      var q :| q in ps && MayPeer(m, q, host, x) && InAny(m, q.from, host) &&
        (if routable then q.allowRoutable else q.allowMeshIPs);
      assert q in more;
    }
  }

  /** GetAllowedPeers: the nested loops compute the relation, unless they come to a group that does not exist. */
  method GetAllowedPeers(m: Mesh, host: string) returns (r: Option<map<string, Access>>)
    ensures r.Some? <==> forall p | p in m.policies :: Resolves(m, p, host)
    ensures r.Some? ==> r.value == AllowedBy(m, m.policies, host)
  {
    var allowed: map<string, Access> := map[];
    var nodeGroups := GetNodeGroups(m, host);
    var nodeGroupSet := set g | g in nodeGroups;
    assert nodeGroupSet == Elements(nodeGroups);
    if |nodeGroups| == 0 {
      assert forall g | g in m.groups && host in m.groups[g] :: g in Elements(nodeGroups);
      GrouplessAlone(m, host);
      return Some(allowed);
    }
    for i := 0 to |m.policies|
      invariant forall p | p in m.policies[..i] :: Resolves(m, p, host)
      invariant allowed == AllowedBy(m, m.policies[..i], host)
    {
      var p := m.policies[i];
      assert m.policies[..i + 1] == m.policies[..i] + [p] && p in m.policies;
      var isOutbound := MentionsAny(p.from, nodeGroupSet);
      var isInbound := MentionsAny(p.to, nodeGroupSet);
      assert isOutbound == InAny(m, p.from, host) && isInbound == InAny(m, p.to, host);
      var otherGroups := OtherGroups(p, isOutbound, isInbound);
      var reached := ReachGroups(m, otherGroups, host, p, isOutbound, allowed);
      if reached.None? {
        assert !Resolves(m, p, host);
        return None;
      }
      AllowedByMore(m, m.policies[..i], p, host);
      OtherGroupsRelate(m, p, host);
      allowed := reached.value;
    }
    assert m.policies[..|m.policies|] == m.policies;
    return Some(allowed);
  }

  lemma GrouplessAlone(m: Mesh, host: string)
    requires forall g | g in m.groups :: host !in m.groups[g]
    ensures AllowedBy(m, m.policies, host) == map[]
    ensures forall p | p in m.policies :: Resolves(m, p, host)
  {
    forall p, peer | p in m.policies && peer in m.nodes ensures !MayPeer(m, p, host, peer) {
    }
  }

  // ---- Validation ----

  ghost predicate Valid(m: Mesh) {
    && (forall i, j | 0 <= i < j < |m.policies| :: m.policies[i].name != m.policies[j].name)
    && GroupsExist(m)
    && (forall p | p in m.policies :: Populated(m, p.from) && Populated(m, p.to))
  }

  /** Some named group has members. */
  predicate Populated(m: Mesh, names: seq<string>) {
    exists g | g in names :: g in m.groups && m.groups[g] != []
  }

  /** A side of a policy is populated exactly when some host is on it, so a valid policy has hosts on both sides. */
  lemma PopulatedIff(m: Mesh, names: seq<string>)
    ensures Populated(m, names) <==> exists host :: InAny(m, names, host)
  {
    if Populated(m, names) {
      var g :| g in names && g in m.groups && m.groups[g] != [];
      assert m.groups[g][0] in m.groups[g];
      assert InAny(m, names, m.groups[g][0]);
    }
  }

  /** The mesh of two nodes with a policy from {h, x} to {h}. */
  function LeakyMesh(h: Node, x: Node): Mesh {
    Mesh(map[h.hostname := h, x.hostname := x], map["src" := [h.hostname, x.hostname], "dst" := [h.hostname]],
         [AccessPolicy("p", ["src"], ["dst"], true, true)])
  }

  /** It is valid, and gives h the networks of x, although nothing permits h to reach x. */
  lemma LeakExample(h: Node, x: Node)
    requires h.hostname != x.hostname
    ensures var m := LeakyMesh(h, x);
      Valid(m) && RoutableGranted(m, h.hostname, x.hostname) && !Permits(m, h.hostname, x.hostname)
  {
    var m := LeakyMesh(h, x);
    var p := m.policies[0];
    assert "src" in p.from && "dst" in p.to;
    assert InAny(m, p.from, h.hostname) && InAny(m, p.to, h.hostname) && InAny(m, p.from, x.hostname);
    assert !InAny(m, p.to, x.hostname);
    assert p in m.policies && Leaks(m, h.hostname, x.hostname);
    RoutableIff(m, h.hostname, x.hostname);
    LeakyValid(h, x);
  }

  lemma LeakyValid(h: Node, x: Node)
    ensures Valid(LeakyMesh(h, x))
  {
    var m := LeakyMesh(h, x);
    var p := m.policies[0];
    assert "src" in p.from && "dst" in p.to;
    assert Populated(m, p.from) && Populated(m, p.to);
  }

  method AllExist(m: Mesh, names: seq<string>) returns (ok: bool)
    ensures ok <==> forall g | g in names :: g in m.groups
  {
    for i := 0 to |names|
      invariant forall g | g in names[..i] :: g in m.groups
    {
      if names[i] !in m.groups {
        return false;
      }
    }
    assert names[..|names|] == names;
    return true;
  }

  /** The two nested loops that look for a pair of non-empty groups. */
  method MatchesNode(m: Mesh, from: seq<string>, to: seq<string>) returns (yes: bool)
    requires forall g | g in from + to :: g in m.groups
    ensures yes <==> Populated(m, from) && Populated(m, to)
  {
    for i := 0 to |from|
      invariant forall f, t | f in from[..i] && t in to :: m.groups[f] == [] || m.groups[t] == []
    {
      var f := from[i];
      assert f in from + to;
      for j := 0 to |to|
        invariant forall t | t in to[..j] :: m.groups[f] == [] || m.groups[t] == []
      {
        assert to[j] in from + to;
        if |m.groups[f]| > 0 && |m.groups[to[j]]| > 0 {
          return true;
        }
      }
      assert to[..|to|] == to;
      assert from[..i + 1] == from[..i] + [f];
    }
    assert from[..|from|] == from;
    return false;
  }

  method DistinctNames(m: Mesh) returns (ok: bool)
    ensures ok <==> forall i, j | 0 <= i < j < |m.policies| :: m.policies[i].name != m.policies[j].name
  {
    var names := {};
    for i := 0 to |m.policies|
      invariant forall k | 0 <= k < i :: m.policies[k].name in names
      invariant forall name | name in names :: exists k :: 0 <= k < i && m.policies[k].name == name
      invariant forall k, j | 0 <= k < j < i :: m.policies[k].name != m.policies[j].name
    {
      var name := m.policies[i].name;
      if name in names {
        return false;
      }
      names := names + {name};
    }
    return true;
  }

  /** ValidatePolicies accepts exactly the meshes with distinct policy names, existing groups and members on both
      sides. */
  method ValidatePolicies(m: Mesh) returns (ok: bool)
    ensures ok <==> Valid(m)
  {
    var distinct := DistinctNames(m);
    if !distinct {
      return false;
    }
    for i := 0 to |m.policies|
      invariant forall p | p in m.policies[..i] :: forall g | g in p.from + p.to :: g in m.groups
      invariant forall p | p in m.policies[..i] :: Populated(m, p.from) && Populated(m, p.to)
    {
      var p := m.policies[i];
      assert m.policies[..i + 1] == m.policies[..i] + [p] && p in m.policies;
      if |p.from| == 0 || |p.to| == 0 {
        return false;
      }
      var fromOk := AllExist(m, p.from);
      var toOk := AllExist(m, p.to);
      if !fromOk || !toOk {
        return false;
      }
      var matches := MatchesNode(m, p.from, p.to);
      if !matches {
        return false;
      }
    }
    assert m.policies[..|m.policies|] == m.policies;
    return true;
  }

  // ---- Generated configuration and routes ----

  predicate AccessControlled(m: Mesh) {
    |m.groups| > 0 || |m.policies| > 0
  }

  /** The peers a node is configured with, and whether their networks are included. */
  function Peering(m: Mesh, host: string): map<string, bool> {
    if AccessControlled(m) then
      map x | x in AllowedBy(m, m.policies, host) :: AllowedBy(m, m.policies, host)[x].routable
    else map x | x in m.nodes && x != host :: true
  }

  /** buildPeerConfig and buildPeerConfigFullAccess. */
  function PeerConfig(n: Node, routable: bool): WGPeer {
    WGPeer(n.publicKey, n.endpoint, [n.meshIP + "/32"] + (if routable then n.routable else []), 5)
  }

  /** Looking up the peers of host comes to no group that does not exist. */
  ghost predicate Safe(m: Mesh, host: string) {
    forall p | p in m.policies :: Resolves(m, p, host)
  }

  /** What ValidatePolicies accepts is safe for every host. */
  lemma ValidSafe(m: Mesh, host: string)
    requires Valid(m)
    ensures Safe(m, host)
  {
    assert forall p | p in m.policies :: forall g | g in p.from + p.to :: g in m.groups;
  }

  /** A host in "src" under a policy from "src" to a group that does not exist: looking up its peers panics. */
  lemma PanicExample(h: Node)
    ensures var m := Mesh(map[h.hostname := h], map["src" := [h.hostname]],
                          [AccessPolicy("p", ["src"], ["gone"], true, true)]);
      !Safe(m, h.hostname)
  {
    var m := Mesh(map[h.hostname := h], map["src" := [h.hostname]], [AccessPolicy("p", ["src"], ["gone"], true, true)]);
    var p := m.policies[0];
    assert p in m.policies && "src" in p.from && h.hostname in m.groups["src"] && InAny(m, p.from, h.hostname);
    var others := OtherGroups(p, true, InAny(m, p.to, h.hostname));
    assert others[0] == "gone" && "gone" in others && "gone" !in m.groups;
    assert !Resolves(m, p, h.hostname);
  }

  method PeeringOf(m: Mesh, host: string) returns (peering: Option<map<string, bool>>)
    ensures peering.Some? <==> Safe(m, host)
    ensures peering.Some? ==> peering.value == Peering(m, host)
  {
    if AccessControlled(m) {
      var allowed := GetAllowedPeers(m, host);
      match allowed
      case None => return None;
      case Some(a) => return Some(map x | x in a :: a[x].routable);
    } else {
      return Some(map x | x in m.nodes && x != host :: true);
    }
  }

  lemma PeeringNodes(m: Mesh, host: string)
    ensures Peering(m, host).Keys <= m.nodes.Keys - {host}
  {
  }

  function ConfigsFor(nodes: map<string, Node>, peering: map<string, bool>, keys: set<string>): set<WGPeer>
    requires keys <= peering.Keys <= nodes.Keys
  {
    set x | x in keys :: PeerConfig(nodes[x], peering[x])
  }

  /** The loop of generateConfigForNode, in whatever order the map is walked. */
  method BuildPeers(nodes: map<string, Node>, peering: map<string, bool>) returns (peers: seq<WGPeer>)
    requires peering.Keys <= nodes.Keys
    ensures Elements(peers) == ConfigsFor(nodes, peering, peering.Keys) && |peers| == |peering|
  {
    peers := [];
    var todo := peering.Keys;
    while todo != {}
      invariant todo <= peering.Keys && |peers| == |peering.Keys| - |todo|
      invariant Elements(peers) == ConfigsFor(nodes, peering, peering.Keys - todo)
      decreases |todo|
    {
      var x :| x in todo;
      ghost var before := peers;
      peers := peers + [PeerConfig(nodes[x], peering[x])];
      assert Elements(peers) == Elements(before) + {PeerConfig(nodes[x], peering[x])};
      assert peering.Keys - (todo - {x}) == (peering.Keys - todo) + {x};
      todo := todo - {x};
    }
    assert peering.Keys - {} == peering.Keys;
  }

  /** generateConfigForNode: one entry per peer; None is the panic on a group that does not exist. */
  method GenerateConfig(m: Mesh, host: string) returns (r: Option<seq<WGPeer>>)
    ensures r.Some? <==> Safe(m, host)
    ensures Peering(m, host).Keys <= m.nodes.Keys - {host}
    ensures r.Some? ==> Elements(r.value) == Configs(m, host)
    ensures r.Some? ==> |r.value| == |Peering(m, host)|
  {
    PeeringNodes(m, host);
    var peering := PeeringOf(m, host);
    if peering.None? {
      return None;
    }
    var peers := BuildPeers(m.nodes, peering.value);
    return Some(peers);
  }

  function RoutesVia(n: Node): set<Route> {
    set net | net in n.routable :: Route(net, n.meshIP)
  }

  function OwnRoutes(n: Node): set<Route> {
    set net | net in n.routable :: Route(net, "")
  }

  function RoutesFor(nodes: map<string, Node>, peering: map<string, bool>, keys: set<string>): set<Route>
    requires keys <= peering.Keys <= nodes.Keys
  {
    set x, r | x in keys && peering[x] && r in RoutesVia(nodes[x]) :: r
  }

  function PeerRoutes(m: Mesh, host: string): set<Route> {
    PeeringNodes(m, host);
    RoutesFor(m.nodes, Peering(m, host), Peering(m, host).Keys)
  }

  method AppendRoutes(was: seq<Route>, n: Node, gateway: string) returns (routes: seq<Route>)
    ensures Elements(routes) == Elements(was) + set net | net in n.routable :: Route(net, gateway)
  {
    routes := was;
    for i := 0 to |n.routable|
      invariant Elements(routes) == Elements(was) + set net | net in n.routable[..i] :: Route(net, gateway)
    {
      ghost var before := routes;
      assert n.routable[..i + 1] == n.routable[..i] + [n.routable[i]];
      routes := routes + [Route(n.routable[i], gateway)];
      assert Elements(routes) == Elements(before) + {Route(n.routable[i], gateway)};
    }
    assert n.routable[..|n.routable|] == n.routable;
  }

  /** The loop of collectAllRoutesForNode over the peers. */
  method AppendPeerRoutes(was: seq<Route>, nodes: map<string, Node>, peering: map<string, bool>)
    returns (routes: seq<Route>)
    requires peering.Keys <= nodes.Keys
    ensures Elements(routes) == Elements(was) + RoutesFor(nodes, peering, peering.Keys)
  {
    routes := was;
    var todo := peering.Keys;
    while todo != {}
      invariant todo <= peering.Keys
      invariant Elements(routes) == Elements(was) + RoutesFor(nodes, peering, peering.Keys - todo)
      decreases |todo|
    {
      var x :| x in todo;
      RoutesForMore(nodes, peering, peering.Keys - todo, x);
      assert peering.Keys - (todo - {x}) == (peering.Keys - todo) + {x};
      todo := todo - {x};
      if peering[x] {
        routes := AppendRoutes(routes, nodes[x], nodes[x].meshIP);
      }
    }
    assert peering.Keys - {} == peering.Keys;
  }

  lemma RoutesForMore(nodes: map<string, Node>, peering: map<string, bool>, keys: set<string>, x: string)
    requires keys + {x} <= peering.Keys <= nodes.Keys
    ensures RoutesFor(nodes, peering, keys + {x}) ==
      RoutesFor(nodes, peering, keys) + if peering[x] then RoutesVia(nodes[x]) else {}
  {
  }

  /** collectAllRoutesForNode. */
  method CollectRoutes(m: Mesh, node: Node) returns (r: Option<seq<Route>>)
    ensures r.Some? <==> Safe(m, node.hostname)
    ensures r.Some? ==> Elements(r.value) == OwnRoutes(node) + PeerRoutes(m, node.hostname)
  {
    var routes := AppendRoutes([], node, "");
    PeeringNodes(m, node.hostname);
    var peering := PeeringOf(m, node.hostname);
    if peering.None? {
      return None;
    }
    routes := AppendPeerRoutes(routes, m.nodes, peering.value);
    return Some(routes);
  }

  /** A peer route exists exactly for the networks in the AllowedIPs of the configured peer it goes through. */
  lemma RoutesMatchAllowedIPs(m: Mesh, host: string, net: string, x: string)
    requires x in m.nodes
    ensures x in Peering(m, host) && Peering(m, host)[x] && net in m.nodes[x].routable ==>
      Route(net, m.nodes[x].meshIP) in PeerRoutes(m, host) &&
      net in PeerConfig(m.nodes[x], Peering(m, host)[x]).allowedIPs
    ensures forall r | r in PeerRoutes(m, host) :: exists y ::
      y in Peering(m, host) && y in m.nodes && r.gateway == m.nodes[y].meshIP &&
      r.network in PeerConfig(m.nodes[y], Peering(m, host)[y]).allowedIPs
  {
    if x in Peering(m, host) && Peering(m, host)[x] && net in m.nodes[x].routable {
      assert Route(net, m.nodes[x].meshIP) in RoutesVia(m.nodes[x]);
    }
    forall r | r in PeerRoutes(m, host)
      ensures exists y :: (y in Peering(m, host) && y in m.nodes && r.gateway == m.nodes[y].meshIP &&
                           r.network in PeerConfig(m.nodes[y], Peering(m, host)[y]).allowedIPs)
    {
      var y :| y in Peering(m, host) && Peering(m, host)[y] && y in m.nodes && r in RoutesVia(m.nodes[y]);
    }
  }

  function Configs(m: Mesh, host: string): set<WGPeer> {
    PeeringNodes(m, host);
    ConfigsFor(m.nodes, Peering(m, host), Peering(m, host).Keys)
  }

  /** A group on one side of the policy has host and a group on the other has x. */
  ghost predicate Opposite(m: Mesh, p: AccessPolicy, host: string, x: string) {
    exists g, h | g in p.from && h in p.to ::
      && g in m.groups && h in m.groups
      && ((host in m.groups[g] && x in m.groups[h]) || (x in m.groups[g] && host in m.groups[h]))
  }

  /** A mesh with no groups and no policies. */
  ghost predicate Open(m: Mesh) {
    m.groups.Keys == {} && m.policies == []
  }

  ghost predicate Tunnelled(m: Mesh, host: string, x: string) {
    Open(m) || exists p | p in m.policies :: Opposite(m, p, host, x)
  }

  ghost predicate Networked(m: Mesh, host: string, x: string) {
    Open(m) || Permits(m, host, x) || Leaks(m, host, x)
  }

  lemma OppositeIs(m: Mesh, p: AccessPolicy, host: string, x: string)
    ensures Opposite(m, p, host, x) <==> Relates(m, p, host, x)
  {
    if InAny(m, p.from, host) && InAny(m, p.to, x) {
      var g, h :| g in p.from && g in m.groups && host in m.groups[g] && h in p.to && h in m.groups && x in m.groups[h];
    }
    if InAny(m, p.to, host) && InAny(m, p.from, x) {
      var g, h :| g in p.from && g in m.groups && x in m.groups[g] && h in p.to && h in m.groups && host in m.groups[h];
    }
  }

  lemma PeeringIs(m: Mesh, host: string, x: string)
    ensures x in Peering(m, host) <==> x in m.nodes && x != host && Tunnelled(m, host, x)
    ensures x in Peering(m, host) ==> (Peering(m, host)[x] <==> Networked(m, host, x))
  {
    assert AccessControlled(m) <==> !Open(m) by {
      if m.groups.Keys != {} {
        var g :| g in m.groups.Keys;
      }
      assert m.groups.Keys == {} ==> |m.groups| == 0;
    }
    forall p | p in m.policies ensures Opposite(m, p, host, x) <==> Relates(m, p, host, x) {
      OppositeIs(m, p, host, x);
    }
    if x in m.nodes && x != host {
      RoutableIff(m, host, x);
      assert (exists p | p in m.policies :: MayPeer(m, p, host, x)) <==>
             (exists p | p in m.policies :: Opposite(m, p, host, x));
    }
  }

  /** A node's configuration has exactly one kind of entry for each other node a policy puts across from it, or for
      every other node of an open mesh: its /32, and its networks only where a policy reaches them. */
  lemma ConfiguredIff(m: Mesh, host: string, c: WGPeer)
    ensures c in Configs(m, host) <==> exists x | x in m.nodes && x != host ::
      Tunnelled(m, host, x) && c == WGPeer(m.nodes[x].publicKey, m.nodes[x].endpoint,
        [m.nodes[x].meshIP + "/32"] + (if Networked(m, host, x) then m.nodes[x].routable else []), 5)
  {
    PeeringNodes(m, host);
    forall x | x in m.nodes ensures x in Peering(m, host) <==> x != host && Tunnelled(m, host, x)
      ensures x in Peering(m, host) ==> (Peering(m, host)[x] <==> Networked(m, host, x))
    {
      PeeringIs(m, host, x);
    }
  }

  /** A node's routes are its own networks, directly, and by way of each peer the networks reached there. */
  lemma RoutedIff(m: Mesh, node: Node, r: Route)
    ensures r in OwnRoutes(node) + PeerRoutes(m, node.hostname) <==>
      || (r.gateway == "" && r.network in node.routable)
      || exists x | x in m.nodes && x != node.hostname ::
           && Tunnelled(m, node.hostname, x) && Networked(m, node.hostname, x)
           && r.network in m.nodes[x].routable && r.gateway == m.nodes[x].meshIP
  {
    var host := node.hostname;
    PeeringNodes(m, host);
    forall x | x in m.nodes
      ensures x in Peering(m, host) && Peering(m, host)[x] && r in RoutesVia(m.nodes[x]) <==>
        (&& x != host && Tunnelled(m, host, x) && Networked(m, host, x)
         && r.network in m.nodes[x].routable && r.gateway == m.nodes[x].meshIP)
    {
      PeeringIs(m, host, x);
    }
    if r in PeerRoutes(m, host) {
      var x :| x in Peering(m, host) && Peering(m, host)[x] && r in RoutesVia(m.nodes[x]);
    }
  }

  /** Two nodes are configured with each other or not at all, with access control on or off. */
  lemma PeeringMutual(m: Mesh, a: string, b: string)
    requires a in m.nodes && b in m.nodes
    ensures b in Peering(m, a) <==> a in Peering(m, b)
  {
    AllowedSymmetric(m, a, b);
  }
}
