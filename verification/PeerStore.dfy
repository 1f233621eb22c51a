/** The peer store: incremental merge of discovery reports (pkg/node/store.go). Times are nanoseconds. */
module PeerStore {
  import opened Strings
  import opened Sorting

  const SECOND := 1_000_000_000
  const PEER_DEAD_TIMEOUT := 5 * 60 * SECOND
  const PEER_REMOVE_TIMEOUT := 10 * 60 * SECOND
  const DEFAULT_MAX_PEERS := 1000

  datatype Info = Info(
    pubKey: string, hostname: string, meshIP: string, meshIPv6: string, endpoint: string, introducer: bool,
    routable: seq<string>, natType: string)

  /** A report as it arrives; lastSeen is None for Go's zero time. */
  datatype Report = Report(info: Info, lastSeen: Option<int>, endpointMethod: string, via: string)

  /** A peer as it is stored. */
  datatype Peer = Peer(info: Info, lastSeen: int, endpointMethod: string, discoveredVia: seq<string>)

  /** endpointMethodRank. */
  function Rank(via: string): nat {
    if via == "" then 0
    else if via == "lan" then 100
    else if Contains(via, "dht-rendezvous") then 90
    else if via == "dht" then 70
    else if Contains(via, "dht-transitive") then 40
    else if HasPrefix(via, "gossip") then (if Contains(via, "transitive") then 35 else 65)
    else if via == "cache" then 20
    else 30
  }

  predicate ShouldRefreshLastSeen(via: string) {
    via != "cache" && !Contains(via, "transitive")
  }

  /** shouldUpdateEndpoint. */
  predicate ShouldUpdateEndpoint(isIPv6: string -> bool, was: Peer, endpoint: string, via: string) {
    if was.info.endpoint == "" then true
    else if Rank(via) > Rank(was.endpointMethod) then true
    else if Rank(via) < Rank(was.endpointMethod) then false
    else if isIPv6(endpoint) && !isIPv6(was.info.endpoint) then true
    else if isIPv6(was.info.endpoint) && !isIPv6(endpoint) then false
    else if Rank(was.endpointMethod) == Rank("lan") then via == "lan"
    else true
  }

  function Fresh(r: Report, now: int): Peer {
    Peer(r.info, if r.lastSeen.None? then now else r.lastSeen.value,
         if r.info.endpoint != "" then r.via else r.endpointMethod, [r.via])
  }

  /** The new word, or the old one where the new is empty. */
  function Or<T>(word: seq<T>, was: seq<T>): seq<T> {
    if |word| > 0 then word else was
  }

  function MergeInfo(was: Info, said: Info, take: bool): Info {
    Info(was.pubKey, Or(said.hostname, was.hostname), Or(said.meshIP, was.meshIP), Or(said.meshIPv6, was.meshIPv6),
         if take then said.endpoint else was.endpoint, said.introducer,
         Or(said.routable, was.routable), Or(said.natType, was.natType))
  }

  function SeenAt(was: int, r: Report, now: int): int {
    if ShouldRefreshLastSeen(r.via) then now
    else if r.lastSeen.Some? && r.lastSeen.value > was then r.lastSeen.value else was
  }

  function AddVia(was: seq<string>, via: string): seq<string> {
    if via in was then was else was + [via]
  }

  predicate Takes(isIPv6: string -> bool, was: Peer, r: Report) {
    r.info.endpoint != "" && ShouldUpdateEndpoint(isIPv6, was, r.info.endpoint, r.via)
  }

  function Merge(isIPv6: string -> bool, was: Peer, r: Report, now: int): Peer {
    var take := Takes(isIPv6, was, r);
    Peer(MergeInfo(was.info, r.info, take), SeenAt(was.lastSeen, r, now),
         if take then r.via else was.endpointMethod, AddVia(was.discoveredVia, r.via))
  }

  datatype Event = Update(report: Report, now: int) | Remove(key: string) | CleanupStale(now: int)

  function Next(isIPv6: string -> bool, peers: map<string, Peer>, e: Event): map<string, Peer> {
    match e
    case Update(r, now) =>
      var k := r.info.pubKey;
      if k in peers then peers[k := Merge(isIPv6, peers[k], r, now)]
      else if |peers| >= DEFAULT_MAX_PEERS then peers
      else peers[k := Fresh(r, now)]
    case Remove(key) => peers - {key}
    case CleanupStale(now) => map k | k in peers && now - peers[k].lastSeen <= PEER_REMOVE_TIMEOUT :: peers[k]
  }

  function Run(isIPv6: string -> bool, events: seq<Event>): map<string, Peer> {
    if |events| == 0 then map[] else Next(isIPv6, Run(isIPv6, events[..|events| - 1]), events[|events| - 1])
  }

  /** The reports about a peer since it was last inserted; none while it is not stored. */
  function Since(isIPv6: string -> bool, events: seq<Event>, key: string): seq<Report> {
    if |events| == 0 then []
    else
      var init := events[..|events| - 1];
      var was := Run(isIPv6, init);
      if key !in Run(isIPv6, events) then []
      else if events[|events| - 1].Update? && events[|events| - 1].report.info.pubKey == key
      then (if key in was then Since(isIPv6, init, key) else []) + [events[|events| - 1].report]
      else Since(isIPv6, init, key)
  }

  // ---- Which endpoint wins ----

  /** a is strictly preferred to b: by method rank, then IPv6 over the rest. */
  predicate Preferred(isIPv6: string -> bool, a: Report, b: Report) {
    Rank(a.via) > Rank(b.via) || (Rank(a.via) == Rank(b.via) && isIPv6(a.info.endpoint) && !isIPv6(b.info.endpoint))
  }

  function Preference(isIPv6: string -> bool): (Report, Report) -> bool {
    (a: Report, b: Report) => Preferred(isIPv6, a, b)
  }

  /** Report i is the last of the best: nothing with an endpoint is preferred to it, and it is preferred to all later
      ones. */
  ghost predicate LastOfBest(prefer: (Report, Report) -> bool, rs: seq<Report>, i: int) {
    && 0 <= i < |rs| && rs[i].info.endpoint != ""
    && (forall j | 0 <= j < |rs| && rs[j].info.endpoint != "" :: !prefer(rs[j], rs[i]))
    && (forall j | i < j < |rs| && rs[j].info.endpoint != "" :: prefer(rs[i], rs[j]))
  }

  /** There is only one such report, so the statement below pins the stored endpoint down. */
  lemma LastOfBestUnique(prefer: (Report, Report) -> bool, rs: seq<Report>, i: int, j: int)
    requires LastOfBest(prefer, rs, i) && LastOfBest(prefer, rs, j)
    ensures i == j
  {
  }

  /** The stored endpoint and its method are those of the last of the best reports; none if no report had one. */
  ghost predicate EndpointIsBest(prefer: (Report, Report) -> bool, rs: seq<Report>, endpoint: string, via: string) {
    if forall j | 0 <= j < |rs| :: rs[j].info.endpoint == "" then endpoint == ""
    else exists i :: LastOfBest(prefer, rs, i) && endpoint == rs[i].info.endpoint && via == rs[i].via
  }

  /** One more report, taken exactly when there was no endpoint or the best so far is not preferred to it. */
  lemma TakeKeepsBest(prefer: (Report, Report) -> bool, rs: seq<Report>, endpoint: string, via: string, r: Report,
                      take: bool)
    requires forall a, b, c :: prefer(a, c) ==> prefer(a, b) || prefer(b, c)
    requires forall a, b :: !(prefer(a, b) && prefer(b, a))
    requires EndpointIsBest(prefer, rs, endpoint, via)
    requires r.info.endpoint == "" ==> !take
    requires r.info.endpoint != "" && endpoint == "" ==> take
    requires forall b: Report | r.info.endpoint != "" && endpoint == b.info.endpoint != "" && via == b.via ::
      take <==> !prefer(b, r)
    ensures EndpointIsBest(prefer, rs + [r], if take then r.info.endpoint else endpoint, if take then r.via else via)
  {
    var all := rs + [r];
    assert all[|rs|] == r && forall j | 0 <= j < |rs| :: all[j] == rs[j];
    if forall j | 0 <= j < |rs| :: rs[j].info.endpoint == "" {
      if r.info.endpoint != "" {
        assert LastOfBest(prefer, all, |rs|);
      }
    } else {
      var i :| LastOfBest(prefer, rs, i) && endpoint == rs[i].info.endpoint && via == rs[i].via;
      assert all[i] == rs[i];
      if take {
        forall j | 0 <= j < |all| && all[j].info.endpoint != "" ensures !prefer(all[j], r) {
          assert !prefer(rs[i], r);
          if j < |rs| { assert !prefer(rs[j], rs[i]); }
        }
        assert LastOfBest(prefer, all, |rs|);
      } else {
        assert LastOfBest(prefer, all, i);
      }
    }
  }

  lemma RankOfLan(via: string)
    ensures Rank(via) == 100 <==> via == "lan"
  {
  }

  /** shouldUpdateEndpoint says: unless what we have is preferred. */
  lemma TakesUnlessPreferred(isIPv6: string -> bool, was: Peer, r: Report, best: Report)
    requires was.info.endpoint == best.info.endpoint != "" && was.endpointMethod == best.via && r.info.endpoint != ""
    ensures Takes(isIPv6, was, r) <==> !Preferred(isIPv6, best, r)
  {
    RankOfLan(r.via);
    RankOfLan(best.via);
    RankOfLan("lan");
  }

  lemma MergeKeepsBest(isIPv6: string -> bool, rs: seq<Report>, p: Peer, r: Report)
    requires EndpointIsBest(Preference(isIPv6), rs, p.info.endpoint, p.endpointMethod)
    ensures var take := Takes(isIPv6, p, r);
      EndpointIsBest(Preference(isIPv6), rs + [r], if take then r.info.endpoint else p.info.endpoint,
                     if take then r.via else p.endpointMethod)
  {
    var take := Takes(isIPv6, p, r);
    forall b: Report | r.info.endpoint != "" && p.info.endpoint == b.info.endpoint != "" && p.endpointMethod == b.via
      ensures take <==> !Preference(isIPv6)(b, r)
    {
      TakesUnlessPreferred(isIPv6, p, r, b);
    }
    PreferenceIsOrder(isIPv6);
    TakeKeepsBest(Preference(isIPv6), rs, p.info.endpoint, p.endpointMethod, r, take);
  }

  lemma PreferenceIsOrder(isIPv6: string -> bool)
    ensures forall a, b, c :: Preference(isIPv6)(a, c) ==> Preference(isIPv6)(a, b) || Preference(isIPv6)(b, c)
    ensures forall a, b :: !(Preference(isIPv6)(a, b) && Preference(isIPv6)(b, a))
  {
  }

  // ---- The order of the methods ----

  /** The method is among the k best ways to learn an endpoint: on the LAN, by rendezvous, from the DHT, by gossip,
      through others over the DHT, through others by gossip, any other way, from the cache. */
  predicate InTop(via: string, k: nat) {
    || (k >= 1 && via == "lan")
    || (k >= 2 && Contains(via, "dht-rendezvous"))
    || (k >= 3 && via == "dht")
    || (k >= 4 && HasPrefix(via, "gossip") && !Contains(via, "transitive"))
    || (k >= 5 && Contains(via, "dht-transitive"))
    || (k >= 6 && HasPrefix(via, "gossip"))
    || (k >= 7 && via != "" && via != "cache")
    || (k >= 8 && via == "cache")
  }

  /** One method is better than another. */
  ghost predicate Better(a: string, b: string) {
    exists k | 1 <= k <= 8 :: InTop(a, k) && !InTop(b, k)
  }

  lemma RankOfTop(via: string)
    ensures InTop(via, 1) <==> Rank(via) >= 100
    ensures InTop(via, 2) <==> Rank(via) >= 90
    ensures InTop(via, 3) <==> Rank(via) >= 70
    ensures InTop(via, 4) <==> Rank(via) >= 65
    ensures InTop(via, 5) <==> Rank(via) >= 40
    ensures InTop(via, 6) <==> Rank(via) >= 35
    ensures InTop(via, 7) <==> Rank(via) >= 30
    ensures InTop(via, 8) <==> Rank(via) >= 20
    ensures Rank(via) in {0, 20, 30, 35, 40, 65, 70, 90, 100}
  {
    if Contains(via, "dht-transitive") {
      assert "dht-transitive"[4..] == "transitive";
      assert HoldsAt("dht-transitive", "dht-", "transitive", "");
      ContainsIff("dht-transitive", "transitive");
      ContainsThrough(via, "dht-transitive", "transitive");
    }
    PlainNames();
  }

  lemma PlainNames()
    ensures !HasPrefix("dht", "gossip") && !HasPrefix("cache", "gossip") && !HasPrefix("", "gossip")
    ensures forall via | via in {"", "dht", "cache"} ::
      !Contains(via, "dht-rendezvous") && !Contains(via, "dht-transitive")
  {
    forall via, sub | via in {"", "dht", "cache"} && |sub| > 5 ensures !Contains(via, sub) {
      ContainsIff(via, sub);
      assert forall pre, post | HoldsAt(via, pre, sub, post) :: |via| == |pre| + |sub| + |post|;
    }
  }

  lemma BetterIsRank(a: string, b: string)
    ensures Better(a, b) <==> Rank(a) > Rank(b)
  {
    RankOfTop(a);
    RankOfTop(b);
    if Rank(a) > Rank(b) {
      var k := if Rank(a) == 100 then 1 else if Rank(a) == 90 then 2 else if Rank(a) == 70 then 3
               else if Rank(a) == 65 then 4 else if Rank(a) == 40 then 5 else if Rank(a) == 35 then 6
               else if Rank(a) == 30 then 7 else 8;
      assert InTop(a, k) && !InTop(b, k);
    }
    forall k | 1 <= k <= 8 && InTop(a, k) && !InTop(b, k) ensures Rank(a) > Rank(b) {
      assert k == 1 || k == 2 || k == 3 || k == 4 || k == 5 || k == 6 || k == 7 || k == 8;
    }
  }

  /** A merge takes a reported endpoint exactly when there is none, or its method is better, or neither method is better
      and it does not trade IPv6 for IPv4. */
  lemma MergeTakesIff(isIPv6: string -> bool, was: Peer, r: Report, now: int)
    requires r.info.endpoint != ""
    ensures var p := Merge(isIPv6, was, r, now);
      if was.info.endpoint == "" || Better(r.via, was.endpointMethod)
         || (!Better(was.endpointMethod, r.via) && !(isIPv6(was.info.endpoint) && !isIPv6(r.info.endpoint)))
      then p.info.endpoint == r.info.endpoint && p.endpointMethod == r.via
      else p.info.endpoint == was.info.endpoint && p.endpointMethod == was.endpointMethod
  {
    BetterIsRank(r.via, was.endpointMethod);
    BetterIsRank(was.endpointMethod, r.via);
    RankOfLan(r.via);
    RankOfLan(was.endpointMethod);
  }

  /** A cached endpoint never displaces one from the DHT; one from the DHT displaces a cached one. */
  lemma CacheYieldsToDht(isIPv6: string -> bool, was: Peer, r: Report, now: int)
    requires was.info.endpoint != "" && r.info.endpoint != ""
    ensures was.endpointMethod == "dht" && r.via == "cache" ==>
      Merge(isIPv6, was, r, now).info.endpoint == was.info.endpoint
    ensures was.endpointMethod == "cache" && r.via == "dht" ==>
      Merge(isIPv6, was, r, now).info.endpoint == r.info.endpoint
  {
    RankOfTop("dht");
    RankOfTop("cache");
    BetterIsRank(r.via, was.endpointMethod);
    BetterIsRank(was.endpointMethod, r.via);
    MergeTakesIff(isIPv6, was, r, now);
  }

  /** A report from the cache, or through others, only ever raises the last-seen time, to what it says; any other report
      sets it to the clock. */
  lemma MergeClock(isIPv6: string -> bool, was: Peer, r: Report, now: int)
    ensures Merge(isIPv6, was, r, now).lastSeen ==
      if r.via != "cache" && !Contains(r.via, "transitive") then now
      else if r.lastSeen.Some? && r.lastSeen.value > was.lastSeen then r.lastSeen.value
      else was.lastSeen
  {
  }

  // ---- Who is stored ----

  /** A report stores its peer unless the store holds 1000 others; a removal removes its key and nothing else; a
      clean-up keeps exactly the peers seen within ten minutes. */
  lemma StoredIff(isIPv6: string -> bool, peers: map<string, Peer>, r: Report, now: int, gone: string, key: string)
    ensures key in Next(isIPv6, peers, Update(r, now)) <==>
      key in peers || (key == r.info.pubKey && |peers| < 1000)
    ensures key in Next(isIPv6, peers, Remove(gone)) <==> key in peers && key != gone
    ensures key in Next(isIPv6, peers, CleanupStale(now)) <==>
      key in peers && now - peers[key].lastSeen <= 600_000_000_000
    ensures key in peers && key != r.info.pubKey ==> Next(isIPv6, peers, Update(r, now))[key] == peers[key]
    ensures key in peers && key != gone ==> Next(isIPv6, peers, Remove(gone))[key] == peers[key]
  {
  }

  // ---- The other fields ----

  /** The last report that says something, under a projection. */
  ghost predicate LastWord<T>(rs: seq<Report>, get: Report -> seq<T>, value: seq<T>) {
    if forall j | 0 <= j < |rs| :: get(rs[j]) == [] then value == []
    else exists i :: 0 <= i < |rs| && get(rs[i]) == value != [] && forall j | i < j < |rs| :: get(rs[j]) == []
  }

  lemma OrKeepsLastWord<T>(rs: seq<Report>, get: Report -> seq<T>, value: seq<T>, r: Report)
    requires LastWord(rs, get, value)
    ensures LastWord(rs + [r], get, Or(get(r), value))
  {
    var all := rs + [r];
    assert all[|rs|] == r && forall j | 0 <= j < |rs| :: all[j] == rs[j];
    if get(r) == [] && exists j | 0 <= j < |rs| :: get(rs[j]) != [] {
      var i :| 0 <= i < |rs| && get(rs[i]) == value != [] && forall j | i < j < |rs| :: get(rs[j]) == [];
      assert get(all[i]) == value;
    }
  }

  ghost predicate SameMethods(rs: seq<Report>, via: seq<string>) {
    Distinct(via) && Elements(via) == set r | r in rs :: r.via
  }

  /** All that a stored peer says about the reports it was merged from. */
  ghost predicate Reflects(isIPv6: string -> bool, rs: seq<Report>, p: Peer) {
    && |rs| > 0 && EndpointIsBest(Preference(isIPv6), rs, p.info.endpoint, p.endpointMethod)
    && p.info.introducer == rs[|rs| - 1].info.introducer && LastWords(rs, p.info)
    && SameMethods(rs, p.discoveredVia)
  }

  ghost predicate LastWords(rs: seq<Report>, i: Info) {
    && LastWord(rs, (r: Report) => r.info.meshIP, i.meshIP)
    && LastWord(rs, (r: Report) => r.info.meshIPv6, i.meshIPv6)
    && LastWord(rs, (r: Report) => r.info.hostname, i.hostname)
    && LastWord(rs, (r: Report) => r.info.natType, i.natType)
    && LastWord(rs, (r: Report) => r.info.routable, i.routable)
  }

  lemma MergeKeepsWords(rs: seq<Report>, i: Info, r: Report, take: bool)
    requires LastWords(rs, i)
    ensures LastWords(rs + [r], MergeInfo(i, r.info, take))
  {
    OrKeepsLastWord(rs, (x: Report) => x.info.meshIP, i.meshIP, r);
    OrKeepsLastWord(rs, (x: Report) => x.info.meshIPv6, i.meshIPv6, r);
    OrKeepsLastWord(rs, (x: Report) => x.info.hostname, i.hostname, r);
    OrKeepsLastWord(rs, (x: Report) => x.info.natType, i.natType, r);
    OrKeepsLastWord(rs, (x: Report) => x.info.routable, i.routable, r);
  }

  lemma FreshReflects(isIPv6: string -> bool, r: Report, now: int)
    ensures Reflects(isIPv6, [r], Fresh(r, now))
  {
    var rs, p := [r], Fresh(r, now);
    assert rs[0] == r;
    if r.info.endpoint != "" {
      assert LastOfBest(Preference(isIPv6), rs, 0);
    }
    assert Elements([r.via]) == set x | x in rs :: x.via;
    FirstWord(r, (x: Report) => x.info.meshIP);
    FirstWord(r, (x: Report) => x.info.meshIPv6);
    FirstWord(r, (x: Report) => x.info.hostname);
    FirstWord(r, (x: Report) => x.info.natType);
    FirstWord(r, (x: Report) => x.info.routable);
  }

  lemma FirstWord<T>(r: Report, get: Report -> seq<T>)
    ensures LastWord([r], get, get(r))
  {
    var rs := [r];
    assert rs[0] == r;
    if get(r) != [] {
      assert get(rs[0]) == get(r);
    }
  }

  lemma MergeReflects(isIPv6: string -> bool, rs: seq<Report>, p: Peer, r: Report, now: int)
    requires Reflects(isIPv6, rs, p)
    ensures Reflects(isIPv6, rs + [r], Merge(isIPv6, p, r, now))
  {
    MergeKeepsBest(isIPv6, rs, p, r);
    MergeKeepsWords(rs, p.info, r, Takes(isIPv6, p, r));
    AddViaKeepsMethods(rs, p.discoveredVia, r);
  }

  lemma AddViaKeepsMethods(rs: seq<Report>, via: seq<string>, r: Report)
    requires SameMethods(rs, via)
    ensures SameMethods(rs + [r], AddVia(via, r.via))
  {
    assert r.via in via <==> r.via in Elements(via);
    assert Elements(AddVia(via, r.via)) == Elements(via) + {r.via};
    assert (set x | x in rs + [r] :: x.via) == (set x | x in rs :: x.via) + {r.via};
  }

  /** Over every run of updates, removals and clean-ups, a stored peer is what its reports since insertion say:
      the endpoint of the last of the best, the last non-empty word on each name, address and network list, the last
      introducer flag, and exactly the methods that reported it. */
  lemma {:induction false} StoredPeerReflectsReports(isIPv6: string -> bool, events: seq<Event>, key: string)
    ensures var peers := Run(isIPv6, events);
      && |peers| <= DEFAULT_MAX_PEERS
      && (key in peers ==> peers[key].info.pubKey == key && Reflects(isIPv6, Since(isIPv6, events, key), peers[key]))
      && (key !in peers ==> Since(isIPv6, events, key) == [])
  {
    if |events| > 0 {
      var init, e := events[..|events| - 1], events[|events| - 1];
      StoredPeerReflectsReports(isIPv6, init, key);
      var was := Run(isIPv6, init);
      SizeKept(isIPv6, was, e);
      if e.Update? && e.report.info.pubKey == key && key in Run(isIPv6, events) {
        if key in was {
          MergeReflects(isIPv6, Since(isIPv6, init, key), was[key], e.report, e.now);
        } else {
          FreshReflects(isIPv6, e.report, e.now);
          assert [] + [e.report] == [e.report];
        }
      }
    }
  }

  // ---- When a peer was last seen ----

  /** The clock at each of the reports Since lists. */
  function Clocks(isIPv6: string -> bool, events: seq<Event>, key: string): seq<int> {
    if |events| == 0 then []
    else
      var init := events[..|events| - 1];
      var was := Run(isIPv6, init);
      if key !in Run(isIPv6, events) then []
      else if events[|events| - 1].Update? && events[|events| - 1].report.info.pubKey == key
      then (if key in was then Clocks(isIPv6, init, key) else []) + [events[|events| - 1].now]
      else Clocks(isIPv6, init, key)
  }

  /** The time report i sets: the insertion sets what it says, or the clock; a direct report sets the clock. */
  function SetBy(rs: seq<Report>, clocks: seq<int>, i: nat): int
    requires i < |rs| == |clocks|
  {
    if i == 0 && rs[0].lastSeen.Some? then rs[0].lastSeen.value else clocks[i]
  }

  /** Report i, the insertion or a direct one, is the last to set the time. */
  ghost predicate LastToSet(rs: seq<Report>, i: nat) {
    && i < |rs| && (i == 0 || ShouldRefreshLastSeen(rs[i].via))
    && forall j | i < j < |rs| :: !ShouldRefreshLastSeen(rs[j].via)
  }

  /** t is the latest of what report i set and what the indirect reports after it say. */
  ghost predicate LatestSince(rs: seq<Report>, clocks: seq<int>, i: nat, t: int)
    requires i < |rs| == |clocks|
  {
    && t >= SetBy(rs, clocks, i) && (forall j | i < j < |rs| && rs[j].lastSeen.Some? :: t >= rs[j].lastSeen.value)
    && (t == SetBy(rs, clocks, i) || exists j | i < j < |rs| :: rs[j].lastSeen == Some(t))
  }

  ghost predicate SeenRight(rs: seq<Report>, clocks: seq<int>, t: int) {
    |rs| == |clocks| && exists i :: LastToSet(rs, i) && LatestSince(rs, clocks, i, t)
  }

  lemma SeenRightMore(rs: seq<Report>, clocks: seq<int>, t: int, r: Report, now: int)
    requires SeenRight(rs, clocks, t)
    ensures SeenRight(rs + [r], clocks + [now], SeenAt(t, r, now))
  {
    var rs', clocks' := rs + [r], clocks + [now];
    assert rs'[|rs|] == r && forall j | 0 <= j < |rs| :: rs'[j] == rs[j] && clocks'[j] == clocks[j];
    if ShouldRefreshLastSeen(r.via) {
      assert LastToSet(rs', |rs|) && LatestSince(rs', clocks', |rs|, now);
    } else {
      var i :| LastToSet(rs, i) && LatestSince(rs, clocks, i, t);
      assert LastToSet(rs', i) && SetBy(rs', clocks', i) == SetBy(rs, clocks, i);
      LatestMore(rs, clocks, i, t, r, now);
    }
  }

  lemma LatestMore(rs: seq<Report>, clocks: seq<int>, i: nat, t: int, r: Report, now: int)
    requires i < |rs| == |clocks| && LatestSince(rs, clocks, i, t) && !ShouldRefreshLastSeen(r.via)
    ensures LatestSince(rs + [r], clocks + [now], i, SeenAt(t, r, now))
  {
    var rs', clocks' := rs + [r], clocks + [now];
    assert rs'[|rs|] == r && forall j | 0 <= j < |rs| :: rs'[j] == rs[j] && clocks'[j] == clocks[j];
    assert SetBy(rs', clocks', i) == SetBy(rs, clocks, i);
    if t != SetBy(rs, clocks, i) {
      var j :| i < j < |rs| && rs[j].lastSeen == Some(t);
      assert rs'[j].lastSeen == Some(t);
    }
  }

  /** Over every run a stored peer was last seen at the latest time named since the last direct report, that report's
      clock included. */
  lemma {:induction false} LastSeenReflectsReports(isIPv6: string -> bool, events: seq<Event>, key: string)
    requires key in Run(isIPv6, events)
    ensures SeenRight(Since(isIPv6, events, key), Clocks(isIPv6, events, key), Run(isIPv6, events)[key].lastSeen)
  {
    var init, e := events[..|events| - 1], events[|events| - 1];
    if e.Update? && e.report.info.pubKey == key {
      if key in Run(isIPv6, init) {
        LastSeenReflectsReports(isIPv6, init, key);
        SeenRightMore(Since(isIPv6, init, key), Clocks(isIPv6, init, key), Run(isIPv6, init)[key].lastSeen, e.report,
                      e.now);
      } else {
        SeenFirst(e.report, e.now);
        assert [] + [e.report] == [e.report] && [] + [e.now] == [e.now];
      }
    } else {
      LastSeenReflectsReports(isIPv6, init, key);
    }
  }

  lemma SeenFirst(r: Report, now: int)
    ensures SeenRight([r], [now], Fresh(r, now).lastSeen)
  {
    var rs, clocks := [r], [now];
    assert LastToSet(rs, 0) && LatestSince(rs, clocks, 0, Fresh(r, now).lastSeen);
  }

  lemma SizeKept(isIPv6: string -> bool, peers: map<string, Peer>, e: Event)
    requires |peers| <= DEFAULT_MAX_PEERS
    ensures |Next(isIPv6, peers, e)| <= DEFAULT_MAX_PEERS
  {
    match e
    case Update(r, now) => UpdateSize(isIPv6, peers, r, now);
    case Remove(key) => SubsetSize((peers - {key}).Keys, peers.Keys);
    case CleanupStale(_) => SubsetSize(Next(isIPv6, peers, e).Keys, peers.Keys);
  }

  lemma UpdateSize(isIPv6: string -> bool, peers: map<string, Peer>, r: Report, now: int)
    requires |peers| <= DEFAULT_MAX_PEERS
    ensures |Next(isIPv6, peers, Update(r, now))| <= DEFAULT_MAX_PEERS
  {
    var k := r.info.pubKey;
    if k in peers {
      PutSize(peers, k, Merge(isIPv6, peers[k], r, now));
    } else {
      PutSize(peers, k, Fresh(r, now));
    }
  }

  lemma PutSize(peers: map<string, Peer>, k: string, p: Peer)
    ensures |peers[k := p]| == |peers| + if k in peers then 0 else 1
  {
    var m := peers[k := p];
    assert m.Keys == peers.Keys + {k};
    if k in peers {
      assert m.Keys == peers.Keys;
    }
  }

  /** What a clean-up leaves while some keys are still to be looked at. */
  function Kept(all: map<string, Peer>, todo: set<string>, now: int): map<string, Peer> {
    map k | k in all && (k in todo || now - all[k].lastSeen <= PEER_REMOVE_TIMEOUT) :: all[k]
  }

  lemma KeptStep(all: map<string, Peer>, todo: set<string>, key: string, now: int)
    requires todo <= all.Keys && key in todo
    ensures key in Kept(all, todo, now) && Kept(all, todo, now)[key] == all[key]
    ensures Kept(all, todo - {key}, now) ==
            if now - all[key].lastSeen > PEER_REMOVE_TIMEOUT then Kept(all, todo, now) - {key} else Kept(all, todo, now)
  {
  }

  lemma DistinctAppend(s: seq<string>, x: string)
    requires Distinct(s) && x !in Elements(s)
    ensures Distinct(s + [x]) && Elements(s + [x]) == Elements(s) + {x}
  {
  }

  // ---- The object ----

  class PeerStore {
    const isIPv6: string -> bool
    var peers: map<string, Peer>

    constructor (isIPv6: string -> bool)
      ensures this.isIPv6 == isIPv6 && peers == Run(isIPv6, [])
    {
      this.isIPv6 := isIPv6;
      peers := map[];
    }

    method Update(r: Report, now: int)
      modifies this
      ensures peers == Next(isIPv6, old(peers), Event.Update(r, now))
    {
      var k := r.info.pubKey;
      if k !in peers {
        if |peers| >= DEFAULT_MAX_PEERS {
          return;
        }
        var lastSeen := if r.lastSeen.None? then now else r.lastSeen.value;
        var endpointMethod := r.endpointMethod;
        if r.info.endpoint != "" {
          endpointMethod := r.via;
        }
        peers := peers[k := Peer(r.info, lastSeen, endpointMethod, [r.via])];
        return;
      }
      var p := peers[k];
      var endpointMethod := p.endpointMethod;
      var take := r.info.endpoint != "" && ShouldUpdateEndpoint(isIPv6, p, r.info.endpoint, r.via);
      if take {
        endpointMethod := r.via;
      }
      var info := Overlay(p.info, r.info, take);
      var lastSeen := p.lastSeen;
      if ShouldRefreshLastSeen(r.via) {
        lastSeen := now;
      } else if r.lastSeen.Some? && r.lastSeen.value > p.lastSeen {
        lastSeen := r.lastSeen.value;
      }
      var via := RecordMethod(p.discoveredVia, r.via);
      peers := peers[k := Peer(info, lastSeen, endpointMethod, via)];
    }

    /** The field-by-field part of Update. */
    static method Overlay(was: Info, said: Info, take: bool) returns (i: Info)
      ensures i == MergeInfo(was, said, take)
    {
      i := was;
      if take {
        i := i.(endpoint := said.endpoint);
      }
      if |said.routable| > 0 {
        i := i.(routable := said.routable);
      }
      if said.meshIP != "" {
        i := i.(meshIP := said.meshIP);
      }
      if said.meshIPv6 != "" {
        i := i.(meshIPv6 := said.meshIPv6);
      }
      if said.hostname != "" {
        i := i.(hostname := said.hostname);
      }
      i := i.(introducer := said.introducer);
      if said.natType != "" {
        i := i.(natType := said.natType);
      }
    }

    static method RecordMethod(was: seq<string>, method': string) returns (via: seq<string>)
      ensures via == AddVia(was, method')
    {
      var found := false;
      for i := 0 to |was|
        invariant !found && method' !in was[..i]
      {
        if was[i] == method' {
          found := true;
          break;
        }
      }
      via := if found then was else was + [method'];
    }

    method Remove(key: string)
      modifies this
      ensures peers == Next(isIPv6, old(peers), Event.Remove(key))
    {
      peers := peers - {key};
    }

    method CleanupStale(now: int) returns (removed: seq<string>)
      modifies this
      ensures peers == Next(isIPv6, old(peers), Event.CleanupStale(now))
      ensures Distinct(removed) && Elements(removed) == old(peers).Keys - peers.Keys
    {
      removed := [];
      var todo := peers.Keys;
      ghost var all := peers;
      while todo != {}
        invariant todo <= all.Keys && peers == Kept(all, todo, now)
        invariant Distinct(removed) && Elements(removed) == all.Keys - peers.Keys
        decreases |todo|
      {
        var key :| key in todo;
        KeptStep(all, todo, key, now);
        if now - peers[key].lastSeen > PEER_REMOVE_TIMEOUT {
          DistinctAppend(removed, key);
          peers := peers - {key};
          removed := removed + [key];
        }
        todo := todo - {key};
      }
    }

    /** The peers seen within the dead timeout, in whatever order the map is walked, each once. */
    method GetActive(now: int) returns (active: seq<Peer>)
      requires forall k | k in peers :: peers[k].info.pubKey == k
      ensures forall p :: p in active <==>
        p.info.pubKey in peers && peers[p.info.pubKey] == p && now - p.lastSeen < 300_000_000_000
      ensures forall i, j | 0 <= i < j < |active| :: active[i].info.pubKey != active[j].info.pubKey
    {
      active := [];
      var todo := peers.Keys;
      while todo != {}
        invariant todo <= peers.Keys
        invariant forall p :: p in active <==>
                              p.info.pubKey in peers && p.info.pubKey !in todo &&
                              peers[p.info.pubKey] == p && now - p.lastSeen < PEER_DEAD_TIMEOUT
        invariant forall i, j | 0 <= i < j < |active| :: active[i].info.pubKey != active[j].info.pubKey
        decreases |todo|
      {
        var key :| key in todo;
        assert forall i | 0 <= i < |active| :: active[i] in active && active[i].info.pubKey != key;
        todo := todo - {key};
        if now - peers[key].lastSeen < PEER_DEAD_TIMEOUT {
          active := active + [peers[key]];
        }
      }
    }
  }
}
