/** What an eviction does over a run (pkg/daemon/daemon.go: evictPeerFromPool, isTemporarilyOffline). */
module Evictions {
  import opened Sorting
  import opened Relay
  import opened RelayPlan
  import opened Device
  import opened Reconcile

  /** The peer is nowhere: not on the device, not in the cache, not relayed, not counted. */
  ghost predicate Absent(s: State, key: string) {
    && key !in s.wg.device && key !in s.wg.cache
    && key !in s.mem.relayRoutes && key !in s.mem.directStable
  }

  /** Between events i and m the clock stays within 30 seconds of t, key does not recover and is not evicted at an
      earlier clock reading. */
  ghost predicate Within(tr: Trace, key: string, t: int, i: nat, m: nat)
    requires m <= |tr.events|
  {
    forall j | i < j < m ::
      match tr.events[j]
      case Reconciled(obs, _) => obs.now <= t + 30_000_000_000
      case Evict(k, now) => k != key || now >= t
      case Recover(k) => k != key
  }

  /** A marked key is in no part of the plan. */
  lemma MarkedUnplanned(c: Pass, key: string)
    requires DistinctKeys(c.obs.peers) && Offline(c.mem.offline, key, c.obs.now)
    ensures key !in c.Outcome().desired && key !in c.Outcome().relayRoutes && key !in c.Outcome().directStable
  {
    forall p | p in c.obs.peers && c.Eligible(p) ensures p.pubKey != key && c.Host(p).pubKey != key {
    }
  }

  /** For 30 seconds after an eviction the peer is nowhere, whatever the passes in between see, unless it recovers. */
  lemma {:induction false} EvictedStaysOut(n: Node, tr: Trace, key: string, t: int, i: nat, m: nat)
    requires IsRun(n, tr) && i < m <= |tr.events| && tr.events[i] == Evict(key, t) && key != ""
    requires Within(tr, key, t, i, m)
    ensures Absent(tr.states[m], key)
    ensures key in tr.states[m].mem.offline && tr.states[m].mem.offline[key] >= t + 30_000_000_000
    decreases m
  {
    if m > i + 1 {
      EvictedStaysOut(n, tr, key, t, i, m - 1);
      StaysOutStep(n, tr, key, t, m - 1);
    }
  }

  lemma StaysOutStep(n: Node, tr: Trace, key: string, t: int, j: nat)
    requires IsRun(n, tr) && j < |tr.events| && key != "" && Absent(tr.states[j], key)
    requires key in tr.states[j].mem.offline && tr.states[j].mem.offline[key] >= t + 30_000_000_000
    requires match tr.events[j]
      case Reconciled(obs, _) => obs.now <= t + 30_000_000_000
      case Evict(k, now) => k != key || now >= t
      case Recover(k) => k != key
    ensures Absent(tr.states[j + 1], key)
    ensures key in tr.states[j + 1].mem.offline && tr.states[j + 1].mem.offline[key] >= t + 30_000_000_000
  {
    if tr.events[j].Reconciled? {
      var c := Pass(n, tr.states[j].mem, tr.events[j].obs);
      MarkedUnplanned(c, key);
      NextMemory(n, tr.states[j], tr.events[j]);
      NextWg(n, tr.states[j], tr.events[j]);
      Unplanned(n, tr.states[j].wg, c.Outcome().desired, tr.events[j].walk, key);
    }
  }

  lemma Unplanned(n: Node, s: Wg, desired: map<string, Config>, walk: seq<string>, key: string)
    requires WalkOf(walk, desired.Keys) && key !in desired && key !in s.device && key !in s.cache
    ensures key !in Apply(n, s, desired, walk).device && key !in Apply(n, s, desired, walk).cache
  {
    assert forall k | k in walk :: k in Elements(walk);
    PushLeaves(n, Prune(s, desired.Keys), desired, walk, key);
  }

  lemma {:induction false} PushLeaves(n: Node, s: Wg, desired: map<string, Config>, walk: seq<string>, key: string)
    requires key !in walk && key !in s.device && key !in s.cache && forall k | k in walk :: k in desired
    ensures key !in Push(n, s, desired, walk).device && key !in Push(n, s, desired, walk).cache
  {
    if |walk| > 0 {
      PushLeaves(n, s, desired, walk[..|walk| - 1], key);
    }
  }

  /** A mark keeps a peer out of a pass exactly until its time: 30 seconds after the eviction, that second included. */
  lemma MarkEnds(n: Node, s: State, key: string, t: int, now: int)
    requires key != ""
    ensures var offline := Next(n, s, Evict(key, t)).mem.offline;
      Offline(offline, key, now) <==> now - t <= 30_000_000_000
    ensures !Offline(Next(n, s, Recover(key)).mem.offline, key, now)
  {
  }

  /** Event i evicted the key within 30 seconds of now, and nothing before m evicted it again or recovered it. */
  ghost predicate LastEvicted(tr: Trace, key: string, now: int, i: nat, m: nat) {
    && i < m <= |tr.events| && tr.events[i].Evict? && tr.events[i].key == key
    && now - tr.events[i].now <= 30_000_000_000
    && forall j | i < j < m :: tr.events[j].Reconciled? || tr.events[j].key != key
  }

  /** Over every run whose passes lie in the past, a peer is marked offline exactly when it was evicted within the last
      30 seconds and has not recovered since. */
  lemma {:induction false} MarkedIff(n: Node, tr: Trace, key: string, m: nat, now: int)
    requires IsRun(n, tr) && m <= |tr.events| && key != ""
    requires forall i | 0 <= i < m && tr.events[i].Reconciled? :: tr.events[i].obs.now <= now
    ensures Offline(tr.states[m].mem.offline, key, now) <==> exists i: nat :: LastEvicted(tr, key, now, i, m)
  {
    if m > 0 {
      var k := m - 1;
      MarkedIff(n, tr, key, k, now);
      var e := tr.events[k];
      MarkStep(n, tr, key, k, now);
      if e.Reconciled? || e.key != key {
        if i: nat :| LastEvicted(tr, key, now, i, k) {
          assert LastEvicted(tr, key, now, i, m);
        }
        if i: nat :| LastEvicted(tr, key, now, i, m) {
          assert LastEvicted(tr, key, now, i, k);
        }
      } else if e.Evict? && now - e.now <= 30_000_000_000 {
        assert LastEvicted(tr, key, now, k, m);
      } else {
        assert forall i: nat | i < k :: !LastEvicted(tr, key, now, i, m);
      }
    }
  }

  lemma MarkStep(n: Node, tr: Trace, key: string, k: nat, now: int)
    requires IsRun(n, tr) && k < |tr.events| && key != ""
    requires tr.events[k].Reconciled? ==> tr.events[k].obs.now <= now
    ensures Offline(tr.states[k + 1].mem.offline, key, now) ==
      match tr.events[k]
      case Reconciled(_, _) => Offline(tr.states[k].mem.offline, key, now)
      case Evict(x, t) => if x == key then now - t <= 30_000_000_000 else Offline(tr.states[k].mem.offline, key, now)
      case Recover(x) => x != key && Offline(tr.states[k].mem.offline, key, now)
  {
    var s, e := tr.states[k], tr.events[k];
    if e.Reconciled? {
      MarksLeft(n, s, e);
      ExpiredKept(s.mem.offline, Asked(n, e.obs.peers), e.obs.now, key, now);
    }
  }

  lemma MarksLeft(n: Node, s: State, e: Event)
    requires e.Reconciled? && Enabled(n, s, e)
    ensures Next(n, s, e).mem.offline == Expire(s.mem.offline, Asked(n, e.obs.peers), e.obs.now)
  {
  }

  lemma ExpiredKept(offline: map<string, int>, keys: set<string>, at: int, key: string, now: int)
    requires at <= now
    ensures Offline(Expire(offline, keys, at), key, now) == Offline(offline, key, now)
  {
  }
}
