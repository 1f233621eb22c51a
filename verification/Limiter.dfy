/** The per-IP rate limiter: token buckets in an LRU cache (pkg/ratelimit/limiter.go).
    Clock readings are whole nanoseconds, tokens are reals. */
module Limiter {
  import opened Strings
  import opened Sorting

  const SECOND := 1_000_000_000.0
  const DEFAULT_RATE := 10.0
  const DEFAULT_BURST := 20.0
  const DEFAULT_MAX_IPS := 4096

  datatype Limits = Limits(rate: real, burst: real, maxIPs: int)

  ghost predicate Sensible(l: Limits) {
    l.rate > 0.0 && l.burst >= 1.0 && l.maxIPs >= 1
  }

  /** New: out-of-range settings fall back to the defaults, and a bucket always fits one token. */
  function NewLimits(rate: real, burst: real, maxIPs: int): (l: Limits)
    ensures Sensible(l)
    ensures l.rate == if rate > 0.0 then rate else 10.0
    ensures l.burst == if burst >= 1.0 then burst else if burst > 0.0 then 1.0 else 20.0
    ensures l.maxIPs == if maxIPs > 0 then maxIPs else 4096
  {
    Limits(if rate <= 0.0 then DEFAULT_RATE else rate,
           if burst <= 0.0 then DEFAULT_BURST else if burst < 1.0 then 1.0 else burst,
           if maxIPs <= 0 then DEFAULT_MAX_IPS else maxIPs)
  }

  datatype Bucket = Bucket(tokens: real, lastFill: int)
  datatype Answer = Answer(allowed: bool, remaining: real, retryAfter: int)
  datatype Slot = Slot(ip: string, bucket: Bucket)
  datatype Request = Request(key: string, now: int)

  function Earned(l: Limits, from: int, to: int): real {
    (to - from) as real / SECOND * l.rate
  }

  function Refilled(l: Limits, b: Bucket, now: int): real {
    var t := b.tokens + Earned(l, b.lastFill, now);
    if t > l.burst then l.burst else t
  }

  /** Seconds until one token is there, as the code computes it before truncating to nanoseconds. */
  function Wait(l: Limits, tokens: real): real
    requires l.rate > 0.0
  {
    (1.0 - tokens) / l.rate
  }

  /** One request against one bucket, or against none yet. */
  function Hit(l: Limits, b: Option<Bucket>, now: int): (Bucket, Answer)
    requires l.rate > 0.0
  {
    match b
    case None => (Bucket(l.burst - 1.0, now), Answer(true, l.burst - 1.0, 0))
    case Some(b) =>
      var t := Refilled(l, b, now);
      if t < 1.0 then (Bucket(t, now), Answer(false, 0.0, (Wait(l, t) * SECOND).Floor))
      else (Bucket(t - 1.0, now), Answer(true, t - 1.0, 0))
  }

  function Keys(slots: seq<Slot>): seq<string> {
    seq(|slots|, i requires 0 <= i < |slots| => slots[i].ip)
  }

  function IndexOf(slots: seq<Slot>, key: string): (r: Option<nat>)
    ensures r.Some? ==> r.value < |slots| && slots[r.value].ip == key
    ensures r.None? ==> forall i | 0 <= i < |slots| :: slots[i].ip != key
  {
    if |slots| == 0 then None
    else if slots[|slots| - 1].ip == key then Some(|slots| - 1)
    else IndexOf(slots[..|slots| - 1], key)
  }

  function Lookup(slots: seq<Slot>, key: string): Option<Bucket> {
    var i := IndexOf(slots, key);
    if i.Some? then Some(slots[i.value].bucket) else None
  }

  /** consume: refill or create the bucket, move it to the front, evict the last when there is no room. */
  function Consumed(l: Limits, slots: seq<Slot>, key: string, now: int): seq<Slot>
    requires Sensible(l)
  {
    var slot := Slot(key, Hit(l, Lookup(slots, key), now).0);
    match IndexOf(slots, key)
    case Some(i) => [slot] + slots[..i] + slots[i + 1..]
    case None => [slot] + if |slots| >= l.maxIPs then slots[..|slots| - 1] else slots
  }

  lemma ConsumedFound(l: Limits, slots: seq<Slot>, key: string, now: int, i: nat)
    requires Sensible(l) && i < |slots| && IndexOf(slots, key) == Some(i)
    ensures Lookup(slots, key) == Some(slots[i].bucket)
    ensures Consumed(l, slots, key, now) ==
      [Slot(key, Hit(l, Some(slots[i].bucket), now).0)] + slots[..i] + slots[i + 1..]
  {
  }

  lemma ConsumedAbsent(l: Limits, slots: seq<Slot>, key: string, now: int)
    requires Sensible(l) && IndexOf(slots, key).None?
    ensures Hit(l, Lookup(slots, key), now) == (Bucket(l.burst - 1.0, now), Answer(true, l.burst - 1.0, 0))
    ensures Consumed(l, slots, key, now) ==
      [Slot(key, Bucket(l.burst - 1.0, now))] + if |slots| >= l.maxIPs then slots[..|slots| - 1] else slots
  {
  }

  function Run(l: Limits, reqs: seq<Request>): seq<Slot>
    requires Sensible(l)
  {
    if |reqs| == 0 then []
    else Consumed(l, Run(l, reqs[..|reqs| - 1]), reqs[|reqs| - 1].key, reqs[|reqs| - 1].now)
  }

  /** What the i-th request of a run is answered. */
  function AnswerAt(l: Limits, reqs: seq<Request>, i: nat): Answer
    requires Sensible(l) && i < |reqs|
  {
    Hit(l, Lookup(Run(l, reqs[..i]), reqs[i].key), reqs[i].now).1
  }

  ghost predicate DistinctIPs(slots: seq<Slot>) {
    Distinct(Keys(slots))
  }

  lemma LookupAt(slots: seq<Slot>, i: nat)
    requires DistinctIPs(slots) && i < |slots|
    ensures IndexOf(slots, slots[i].ip) == Some(i)
  {
    assert forall j | 0 <= j < |slots| :: Keys(slots)[j] == slots[j].ip;
  }

  // ---- What is tracked ----

  /** A list without one key. */
  function Without(ks: seq<string>, k: string): seq<string> {
    if |ks| == 0 then []
    else Without(ks[..|ks| - 1], k) + if ks[|ks| - 1] == k then [] else [ks[|ks| - 1]]
  }

  /** The distinct keys of a history, most recently used first. */
  function Recent(reqs: seq<Request>): seq<string> {
    if |reqs| == 0 then []
    else [reqs[|reqs| - 1].key] + Without(Recent(reqs[..|reqs| - 1]), reqs[|reqs| - 1].key)
  }

  ghost predicate LastUsed(reqs: seq<Request>, k: string, i: int) {
    0 <= i < |reqs| && reqs[i].key == k && forall j | i < j < |reqs| :: reqs[j].key != k
  }

  lemma {:induction false} WithoutIs(ks: seq<string>, k: string)
    ensures Elements(Without(ks, k)) == Elements(ks) - {k}
    ensures Distinct(ks) ==> Distinct(Without(ks, k))
  {
    if |ks| > 0 {
      var init, last := ks[..|ks| - 1], ks[|ks| - 1];
      WithoutIs(init, k);
      assert ks == init + [last];
      assert Elements(ks) == Elements(init) + {last};
      assert Elements(Without(ks, k)) == Elements(Without(init, k)) + (if last == k then {} else {last});
      if Distinct(ks) {
        assert Distinct(init);
        assert last !in Elements(init);
        assert last !in Elements(Without(init, k));
      }
    }
  }

  lemma {:induction false} WithoutAbsent(ks: seq<string>, k: string)
    requires k !in ks
    ensures Without(ks, k) == ks
  {
    if |ks| > 0 {
      var init, last := ks[..|ks| - 1], ks[|ks| - 1];
      assert last in ks && forall x | x in init :: x in ks;
      WithoutAbsent(init, k);
      assert ks == init + [last];
    }
  }

  lemma {:induction false} WithoutCut(ks: seq<string>, i: nat)
    requires Distinct(ks) && i < |ks|
    ensures Without(ks, ks[i]) == ks[..i] + ks[i + 1..]
  {
    var n := |ks| - 1;
    if i == n {
      WithoutAbsent(ks[..n], ks[i]);
    } else {
      assert ks[..n][i] == ks[i] && Distinct(ks[..n]);
      WithoutCut(ks[..n], i);
      assert ks[..n][..i] == ks[..i] && ks[..n][i + 1..] + [ks[n]] == ks[i + 1..];
    }
  }

  lemma {:induction false} RecentIs(reqs: seq<Request>)
    ensures Distinct(Recent(reqs))
    ensures Elements(Recent(reqs)) == set r | r in reqs :: r.key
  {
    if |reqs| > 0 {
      var init, last := reqs[..|reqs| - 1], reqs[|reqs| - 1];
      RecentIs(init);
      WithoutIs(Recent(init), last.key);
      assert reqs == init + [last];
      var rest := Without(Recent(init), last.key);
      assert forall k :: k in rest <==> k in Elements(rest);
      assert Elements([last.key] + rest) == {last.key} + Elements(rest);
    }
  }

  /** Recent really is ordered by last use. */
  lemma {:induction false} RecentByLastUse(reqs: seq<Request>, a: nat, b: nat, i: int, j: int)
    requires a < b < |Recent(reqs)|
    requires LastUsed(reqs, Recent(reqs)[a], i) && LastUsed(reqs, Recent(reqs)[b], j)
    ensures i > j
  {
    var n := |reqs| - 1;
    var init, last := reqs[..n], reqs[n].key;
    RecentIs(reqs);
    RecentIs(init);
    if a > 0 {
      assert Recent(reqs)[0] == last && Recent(reqs)[a] != last && Recent(reqs)[b] != last;
      assert i < n && j < n;
      var c, d := WithoutPlace(Recent(init), last, a - 1, b - 1);
      assert forall m | 0 <= m < n :: init[m] == reqs[m];
      RecentByLastUse(init, c, d, i, j);
    } else {
      assert i == n;
    }
  }

  /** Dropping a key keeps the order of the rest. */
  lemma {:induction false} WithoutPlace(ks: seq<string>, k: string, a: nat, b: nat) returns (c: nat, d: nat)
    requires a < b < |Without(ks, k)|
    ensures c < d < |ks| && ks[c] == Without(ks, k)[a] && ks[d] == Without(ks, k)[b]
  {
    var n := |ks| - 1;
    var rest := Without(ks[..n], k);
    if b < |rest| {
      c, d := WithoutPlace(ks[..n], k, a, b);
    } else {
      d := n;
      assert rest[a] in Elements(rest);
      WithoutIs(ks[..n], k);
      assert rest[a] in ks[..n];
      c :| 0 <= c < n && ks[c] == rest[a];
    }
  }

  /** A list cut to its first m keys. */
  function Cut(ks: seq<string>, m: nat): seq<string> {
    if |ks| <= m then ks else ks[..m]
  }

  /** Moving a key to the front of a list commutes with cutting the list. */
  lemma FrontMoves(ks: seq<string>, m: nat, k: string)
    requires Distinct(ks) && m >= 1
    ensures var front := Cut(ks, m);
      Cut([k] + Without(ks, k), m) ==
        if k in front then [k] + Without(front, k) else [k] + if |front| >= m then front[..|front| - 1] else front
  {
    if k in ks {
      var i :| 0 <= i < |ks| && ks[i] == k;
      WithoutCut(ks, i);
      if i < m {
        FrontMovesInside(ks, m, i);
      } else {
        FrontMovesOutside(ks, m, i);
      }
    } else {
      WithoutAbsent(ks, k);
      assert |ks| >= m ==> ([k] + ks)[..m] == [k] + ks[..m - 1] && ks[..m][..m - 1] == ks[..m - 1];
    }
  }

  lemma FrontMovesInside(ks: seq<string>, m: nat, i: nat)
    requires Distinct(ks) && i < m && i < |ks| && Without(ks, ks[i]) == ks[..i] + ks[i + 1..]
    ensures ks[i] in Cut(ks, m) && Cut([ks[i]] + Without(ks, ks[i]), m) == [ks[i]] + Without(Cut(ks, m), ks[i])
  {
    var front := Cut(ks, m);
    assert front[i] == ks[i];
    WithoutCut(front, i);
    if |ks| > m {
      CutMoved(ks, m, i);
    }
  }

  lemma CutMoved<T>(s: seq<T>, m: nat, i: nat)
    requires i < m < |s|
    ensures ([s[i]] + (s[..i] + s[i + 1..]))[..m] == [s[i]] + (s[..m][..i] + s[..m][i + 1..])
  {
  }

  lemma FrontMovesOutside(ks: seq<string>, m: nat, i: nat)
    requires Distinct(ks) && 1 <= m <= i < |ks| && Without(ks, ks[i]) == ks[..i] + ks[i + 1..]
    ensures ks[i] !in Cut(ks, m) && Cut([ks[i]] + Without(ks, ks[i]), m) == [ks[i]] + ks[..m - 1]
    ensures Cut(ks, m) == ks[..m] && ks[..m][..m - 1] == ks[..m - 1]
  {
    CutMovedOutside(ks, m, i);
    assert ks[i] !in ks[..m];
  }

  lemma CutMovedOutside<T>(s: seq<T>, m: nat, i: nat)
    requires 1 <= m <= i < |s|
    ensures ([s[i]] + (s[..i] + s[i + 1..]))[..m] == [s[i]] + s[..m - 1] && s[..m][..m - 1] == s[..m - 1]
  {
  }

  lemma ConsumedKeys(l: Limits, slots: seq<Slot>, key: string, now: int)
    requires Sensible(l) && DistinctIPs(slots) && |slots| <= l.maxIPs
    ensures var ks := Keys(slots);
      Keys(Consumed(l, slots, key, now)) ==
        if key in ks then [key] + Without(ks, key) else [key] + if |ks| >= l.maxIPs then ks[..|ks| - 1] else ks
  {
    match IndexOf(slots, key)
    case Some(i) => MovedKeys(slots, Slot(key, Hit(l, Lookup(slots, key), now).0), i);
    case None =>
      assert forall i | 0 <= i < |slots| :: Keys(slots)[i] != key;
  }

  lemma MovedKeys(slots: seq<Slot>, slot: Slot, i: nat)
    requires DistinctIPs(slots) && i < |slots| && slots[i].ip == slot.ip
    ensures slot.ip in Keys(slots)
    ensures Keys([slot] + slots[..i] + slots[i + 1..]) == [slot.ip] + Without(Keys(slots), slot.ip)
  {
    var ks := Keys(slots);
    assert ks[i] == slot.ip;
    WithoutCut(ks, i);
    assert Keys([slot] + slots[..i] + slots[i + 1..]) == [slot.ip] + (ks[..i] + ks[i + 1..]);
  }

  /** Over every run the tracked keys are exactly the maxIPs most recently used distinct ones, most recent first. */
  lemma {:induction false} TrackedAreMostRecent(l: Limits, reqs: seq<Request>)
    requires Sensible(l)
    ensures Keys(Run(l, reqs)) == Cut(Recent(reqs), l.maxIPs)
    ensures DistinctIPs(Run(l, reqs)) && |Run(l, reqs)| <= l.maxIPs
  {
    RecentIs(reqs);
    if |reqs| > 0 {
      var init, r := reqs[..|reqs| - 1], reqs[|reqs| - 1];
      TrackedAreMostRecent(l, init);
      RecentIs(init);
      TrackedStep(l, Run(l, init), Recent(init), r.key, r.now);
    }
  }

  lemma TrackedStep(l: Limits, slots: seq<Slot>, recent: seq<string>, key: string, now: int)
    requires Sensible(l) && Distinct(recent) && Distinct([key] + Without(recent, key))
    requires Keys(slots) == Cut(recent, l.maxIPs) && DistinctIPs(slots) && |slots| <= l.maxIPs
    ensures var after := Consumed(l, slots, key, now);
      && Keys(after) == Cut([key] + Without(recent, key), l.maxIPs)
      && DistinctIPs(after) && |after| <= l.maxIPs
  {
    ConsumedKeys(l, slots, key, now);
    FrontMoves(recent, l.maxIPs, key);
    CutDistinct([key] + Without(recent, key), l.maxIPs);
    assert |Keys(Consumed(l, slots, key, now))| == |Consumed(l, slots, key, now)|;
  }

  lemma CutDistinct(ks: seq<string>, m: nat)
    requires Distinct(ks)
    ensures Distinct(Cut(ks, m)) && |Cut(ks, m)| <= m
  {
  }

  // ---- How one key's bucket evolves ----

  /** A request of another key leaves a bucket alone or evicts it. */
  lemma OtherKey(l: Limits, slots: seq<Slot>, key: string, now: int, other: string)
    requires Sensible(l) && DistinctIPs(slots) && |slots| <= l.maxIPs && other != key
    requires DistinctIPs(Consumed(l, slots, key, now))
    ensures var b := Lookup(Consumed(l, slots, key, now), other);
      b.None? || b == Lookup(slots, other)
    ensures (key in Keys(slots) || |slots| < l.maxIPs) ==>
      Lookup(Consumed(l, slots, key, now), other) == Lookup(slots, other)
  {
    var after := Consumed(l, slots, key, now);
    match IndexOf(after, other)
    case Some(j) =>
      var i: nat := OldPlace(l, slots, key, now, j);
      LookupAt(slots, i);
    case None =>
      var b := IndexOf(slots, other);
      if b.Some? && (key in Keys(slots) || |slots| < l.maxIPs) {
        var j := NewPlace(l, slots, key, now, b.value);
        assert false;
      }
  }

  lemma OldPlace(l: Limits, slots: seq<Slot>, key: string, now: int, j: nat) returns (i: nat)
    requires Sensible(l) && j < |Consumed(l, slots, key, now)| && Consumed(l, slots, key, now)[j].ip != key
    ensures i < |slots| && slots[i] == Consumed(l, slots, key, now)[j]
  {
    match IndexOf(slots, key)
    case Some(m) => i := if j <= m then j - 1 else j;
    case None => i := j - 1;
  }

  lemma NewPlace(l: Limits, slots: seq<Slot>, key: string, now: int, i: nat) returns (j: nat)
    requires Sensible(l) && i < |slots| && slots[i].ip != key
    requires key in Keys(slots) || |slots| < l.maxIPs
    ensures j < |Consumed(l, slots, key, now)| && Consumed(l, slots, key, now)[j] == slots[i]
  {
    match IndexOf(slots, key)
    case Some(m) => j := if i < m then i + 1 else i;
    case None =>
      j := i + 1;
      assert forall n | 0 <= n < |Keys(slots)| :: Keys(slots)[n] != key;
  }

  lemma OwnKey(l: Limits, slots: seq<Slot>, key: string, now: int)
    requires Sensible(l) && DistinctIPs(Consumed(l, slots, key, now))
    ensures Lookup(Consumed(l, slots, key, now), key) == Some(Hit(l, Lookup(slots, key), now).0)
  {
    LookupAt(Consumed(l, slots, key, now), 0);
  }

  // ---- Enough room: independent buckets ----

  /** The bucket a key would have if it were alone and never evicted. */
  function Alone(l: Limits, reqs: seq<Request>, key: string): Option<Bucket>
    requires l.rate > 0.0
  {
    if |reqs| == 0 then None
    else
      var before := Alone(l, reqs[..|reqs| - 1], key);
      if reqs[|reqs| - 1].key == key then Some(Hit(l, before, reqs[|reqs| - 1].now).0) else before
  }

  lemma {:induction false} RoomForAll(l: Limits, reqs: seq<Request>, all: set<string>, key: string)
    requires Sensible(l) && |all| <= l.maxIPs && forall r | r in reqs :: r.key in all
    ensures Lookup(Run(l, reqs), key) == Alone(l, reqs, key)
  {
    if |reqs| > 0 {
      var init, r := reqs[..|reqs| - 1], reqs[|reqs| - 1];
      RoomForAll(l, init, all, key);
      TrackedAreMostRecent(l, init);
      TrackedAreMostRecent(l, reqs);
      var slots := Run(l, init);
      if r.key == key {
        OwnKey(l, slots, key, r.now);
      } else {
        if r.key !in Keys(slots) {
          KeysWithin(l, init, all, r.key);
        }
        OtherKey(l, slots, r.key, r.now, key);
      }
    }
  }

  /** A key of the universe that is not tracked leaves room for itself. */
  lemma KeysWithin(l: Limits, reqs: seq<Request>, all: set<string>, absent: string)
    requires Sensible(l) && |all| <= l.maxIPs && forall r | r in reqs :: r.key in all
    requires absent in all && absent !in Keys(Run(l, reqs))
    ensures |Run(l, reqs)| < l.maxIPs
  {
    TrackedAreMostRecent(l, reqs);
    RecentIs(reqs);
    var ks, recent := Keys(Run(l, reqs)), Recent(reqs);
    forall k | k in Elements(ks) ensures k in all - {absent} {
      assert k in recent;
      assert k in Elements(recent);
    }
    DistinctSize(ks);
    SubsetSize(Elements(ks), all - {absent});
  }

  /** With at most maxIPs distinct keys every answer is that of unbounded, independent buckets. */
  lemma AsIndependentBuckets(l: Limits, reqs: seq<Request>, all: set<string>, i: nat)
    requires Sensible(l) && |all| <= l.maxIPs && (forall r | r in reqs :: r.key in all) && i < |reqs|
    ensures AnswerAt(l, reqs, i) == Hit(l, Alone(l, reqs[..i], reqs[i].key), reqs[i].now).1
  {
    RoomForAll(l, reqs[..i], all, reqs[i].key);
  }

  // ---- The rate ----

  ghost predicate Ordered(reqs: seq<Request>) {
    forall i, j | 0 <= i < j < |reqs| :: reqs[i].now <= reqs[j].now
  }

  ghost predicate Level(l: Limits, b: Bucket) {
    0.0 <= b.tokens <= l.burst
  }

  lemma EarnedPositive(l: Limits, from: int, to: int)
    requires l.rate > 0.0 && from <= to
    ensures Earned(l, from, to) >= 0.0
  {
    var d := (to - from) as real / SECOND;
    assert d >= 0.0 && d * l.rate >= 0.0;
  }

  lemma EarnedAdds(l: Limits, a: int, b: int, c: int)
    ensures Earned(l, a, b) + Earned(l, b, c) == Earned(l, a, c)
  {
    var x, y := (b - a) as real / SECOND, (c - b) as real / SECOND;
    assert x + y == (c - a) as real / SECOND;
    assert x * l.rate + y * l.rate == (x + y) * l.rate;
  }

  lemma HitLevel(l: Limits, b: Option<Bucket>, now: int)
    requires Sensible(l) && (b.Some? ==> Level(l, b.value) && b.value.lastFill <= now)
    ensures Level(l, Hit(l, b, now).0)
  {
    if b.Some? {
      EarnedPositive(l, b.value.lastFill, now);
    }
  }

  /** Tokens stay between 0 and burst, and no bucket was filled after the last request. */
  lemma {:induction false} TokensBounded(l: Limits, reqs: seq<Request>, key: string)
    requires Sensible(l) && Ordered(reqs)
    ensures var b := Lookup(Run(l, reqs), key);
      b.Some? ==> Level(l, b.value) && |reqs| > 0 && b.value.lastFill <= reqs[|reqs| - 1].now
  {
    if |reqs| > 0 {
      var init, r := reqs[..|reqs| - 1], reqs[|reqs| - 1];
      TokensBounded(l, init, key);
      TrackedAreMostRecent(l, init);
      TrackedAreMostRecent(l, reqs);
      if r.key == key {
        HitLevel(l, Lookup(Run(l, init), key), r.now);
        OwnKey(l, Run(l, init), key, r.now);
      } else {
        OtherKey(l, Run(l, init), r.key, r.now, key);
      }
    }
  }

  /** How many of a key's requests among reqs[i..j] were allowed. */
  function Allowed(l: Limits, reqs: seq<Request>, key: string, i: nat, j: nat): nat
    requires Sensible(l) && i <= j <= |reqs|
    decreases j
  {
    if i == j then 0
    else Allowed(l, reqs, key, i, j - 1) + if reqs[j - 1].key == key && AnswerAt(l, reqs, j - 1).allowed then 1 else 0
  }

  /** The key is not evicted by any of reqs[i..j]. */
  ghost predicate NotEvicted(l: Limits, reqs: seq<Request>, key: string, i: nat, j: nat)
    requires Sensible(l) && i <= j <= |reqs|
  {
    forall m | i <= m < j :: Lookup(Run(l, reqs[..m]), key).Some? ==> Lookup(Run(l, reqs[..m + 1]), key).Some?
  }

  /** The tokens left in the bucket pay for what was allowed since i. */
  lemma {:induction false} Paid(l: Limits, reqs: seq<Request>, key: string, i: nat, j: nat)
    requires Sensible(l) && Ordered(reqs) && i <= j <= |reqs| && i < |reqs| && NotEvicted(l, reqs, key, i, j)
    ensures var n, b := Allowed(l, reqs, key, i, j), Lookup(Run(l, reqs[..j]), key);
      n == 0 || (b.Some? && n as real + b.value.tokens <= l.burst + Earned(l, reqs[i].now, b.value.lastFill))
    decreases j
  {
    if i < j {
      Paid(l, reqs, key, i, j - 1);
      var before, r := Run(l, reqs[..j - 1]), reqs[j - 1];
      assert reqs[..j][..j - 1] == reqs[..j - 1];
      TrackedAreMostRecent(l, reqs[..j - 1]);
      TrackedAreMostRecent(l, reqs[..j]);
      if r.key == key {
        OwnKey(l, before, key, r.now);
        PaidOwn(l, Lookup(before, key), Allowed(l, reqs, key, i, j - 1), reqs[i].now, r.now);
      } else {
        OtherKey(l, before, r.key, r.now, key);
      }
    }
  }

  lemma PaidOwn(l: Limits, b: Option<Bucket>, n: nat, from: int, now: int)
    requires Sensible(l) && from <= now
    requires n == 0 || (b.Some? && n as real + b.value.tokens <= l.burst + Earned(l, from, b.value.lastFill))
    ensures var (b', answer) := Hit(l, b, now);
      var n' := n + if answer.allowed then 1 else 0;
      n' == 0 || n' as real + b'.tokens <= l.burst + Earned(l, from, b'.lastFill)
  {
    EarnedPositive(l, from, now);
    if b.Some? {
      EarnedAdds(l, from, b.value.lastFill, now);
    }
  }

  lemma EarnedIs(l: Limits, from: int, to: int)
    ensures Earned(l, from, to) == (to - from) as real / 1_000_000_000.0 * l.rate
  {
  }

  /** Over every run, any stretch of requests that does not evict the key allows at most burst + rate * T of its
      requests, T being the time the stretch spans. */
  lemma RateBound(l: Limits, reqs: seq<Request>, key: string, i: nat, j: nat)
    requires Sensible(l) && Ordered(reqs) && i < j <= |reqs| && NotEvicted(l, reqs, key, i, j)
    ensures Allowed(l, reqs, key, i, j) as real <=
      l.burst + (reqs[j - 1].now - reqs[i].now) as real / 1_000_000_000.0 * l.rate
  {
    EarnedBound(l, reqs, key, i, j);
    EarnedIs(l, reqs[i].now, reqs[j - 1].now);
  }

  lemma EarnedBound(l: Limits, reqs: seq<Request>, key: string, i: nat, j: nat)
    requires Sensible(l) && Ordered(reqs) && i < j <= |reqs| && NotEvicted(l, reqs, key, i, j)
    ensures Allowed(l, reqs, key, i, j) as real <= l.burst + Earned(l, reqs[i].now, reqs[j - 1].now)
  {
    Paid(l, reqs, key, i, j);
    TokensBounded(l, reqs[..j], key);
    var b := Lookup(Run(l, reqs[..j]), key);
    EarnedPositive(l, reqs[i].now, reqs[j - 1].now);
    if b.Some? {
      EarnedAdds(l, reqs[i].now, b.value.lastFill, reqs[j - 1].now);
      EarnedPositive(l, b.value.lastFill, reqs[j - 1].now);
    }
  }

  /** A tracked bucket holds exactly burst, plus what was earned, less what was allowed, since the last time it was
      full: a request i of the key. */
  lemma {:induction false} TokensExact(l: Limits, reqs: seq<Request>, key: string, j: nat) returns (i: nat)
    requires Sensible(l) && j <= |reqs| && Lookup(Run(l, reqs[..j]), key).Some?
    ensures i < j && reqs[i].key == key
    ensures var b := Lookup(Run(l, reqs[..j]), key).value;
      b.tokens == l.burst + Earned(l, reqs[i].now, b.lastFill) - Allowed(l, reqs, key, i, j) as real
    decreases j
  {
    var before, r := Run(l, reqs[..j - 1]), reqs[j - 1];
    assert reqs[..j][..j - 1] == reqs[..j - 1];
    TrackedAreMostRecent(l, reqs[..j - 1]);
    TrackedAreMostRecent(l, reqs[..j]);
    if r.key != key {
      OtherKey(l, before, r.key, r.now, key);
      i := TokensExact(l, reqs, key, j - 1);
    } else {
      OwnKey(l, before, key, r.now);
      var b := Lookup(before, key);
      if b.None? || b.value.tokens + Earned(l, b.value.lastFill, r.now) > l.burst {
        i := j - 1;
        FullAgain(l, b, r.now);
        assert Allowed(l, reqs, key, i, j - 1) == 0;
      } else {
        i := TokensExact(l, reqs, key, j - 1);
        EarnedAdds(l, reqs[i].now, b.value.lastFill, r.now);
      }
    }
  }

  lemma FullAgain(l: Limits, b: Option<Bucket>, now: int)
    requires Sensible(l) && (b.None? || b.value.tokens + Earned(l, b.value.lastFill, now) > l.burst)
    ensures Hit(l, b, now) == (Bucket(l.burst - 1.0, now), Answer(true, l.burst - 1.0, 0))
    ensures Earned(l, now, now) == 0.0
  {
  }

  /** n requests are more than burst + rate * T, T being the seconds between two times. */
  ghost predicate Exceeds(l: Limits, n: nat, from: int, to: int) {
    n as real > l.burst + (to - from) as real / 1_000_000_000.0 * l.rate
  }

  /** A refusal means the allowance is spent: since some request i of the key, one more would have exceeded
      burst + rate * T. */
  lemma RefusalMeansSpent(l: Limits, reqs: seq<Request>, j: nat) returns (i: nat)
    requires Sensible(l) && j < |reqs| && !AnswerAt(l, reqs, j).allowed
    ensures i < j && reqs[i].key == reqs[j].key
    ensures Exceeds(l, Allowed(l, reqs, reqs[j].key, i, j) + 1, reqs[i].now, reqs[j].now)
  {
    i := SpentEarned(l, reqs, j);
    OverIs(l, Allowed(l, reqs, reqs[j].key, i, j) + 1, reqs[i].now, reqs[j].now);
  }

  lemma OverIs(l: Limits, n: nat, from: int, to: int)
    requires n as real > l.burst + Earned(l, from, to)
    ensures Exceeds(l, n, from, to)
  {
    EarnedIs(l, from, to);
  }

  lemma SpentEarned(l: Limits, reqs: seq<Request>, j: nat) returns (i: nat)
    requires Sensible(l) && j < |reqs| && !AnswerAt(l, reqs, j).allowed
    ensures i < j && reqs[i].key == reqs[j].key
    ensures (Allowed(l, reqs, reqs[j].key, i, j) + 1) as real > l.burst + Earned(l, reqs[i].now, reqs[j].now)
  {
    var b := Lookup(Run(l, reqs[..j]), reqs[j].key);
    i := TokensExact(l, reqs, reqs[j].key, j);
    RefusedLow(l, b.value, reqs[j].now);
    EarnedAdds(l, reqs[i].now, b.value.lastFill, reqs[j].now);
  }

  lemma RefusedLow(l: Limits, b: Bucket, now: int)
    requires Sensible(l) && !Hit(l, Some(b), now).1.allowed
    ensures b.tokens + Earned(l, b.lastFill, now) < 1.0
  {
  }

  /** What an answer says is left is what the bucket holds: burst, plus what was earned, less what was allowed, this
      request included, since the last time it was full. */
  lemma RemainingExact(l: Limits, reqs: seq<Request>, j: nat) returns (i: nat)
    requires Sensible(l) && j < |reqs| && AnswerAt(l, reqs, j).allowed
    ensures i <= j && reqs[i].key == reqs[j].key
    ensures AnswerAt(l, reqs, j).remaining ==
      l.burst + (reqs[j].now - reqs[i].now) as real / 1_000_000_000.0 * l.rate
      - Allowed(l, reqs, reqs[j].key, i, j + 1) as real
  {
    i := RemainingEarned(l, reqs, j);
    EarnedIs(l, reqs[i].now, reqs[j].now);
  }

  lemma RemainingEarned(l: Limits, reqs: seq<Request>, j: nat) returns (i: nat)
    requires Sensible(l) && j < |reqs| && AnswerAt(l, reqs, j).allowed
    ensures i <= j && reqs[i].key == reqs[j].key
    ensures AnswerAt(l, reqs, j).remaining ==
      l.burst + Earned(l, reqs[i].now, reqs[j].now) - Allowed(l, reqs, reqs[j].key, i, j + 1) as real
  {
    LeftInBucket(l, reqs, j);
    i := TokensExact(l, reqs, reqs[j].key, j + 1);
  }

  lemma LeftInBucket(l: Limits, reqs: seq<Request>, j: nat)
    requires Sensible(l) && j < |reqs| && AnswerAt(l, reqs, j).allowed
    ensures Lookup(Run(l, reqs[..j + 1]), reqs[j].key) == Some(Bucket(AnswerAt(l, reqs, j).remaining, reqs[j].now))
  {
    assert reqs[..j + 1][..j] == reqs[..j];
    TrackedAreMostRecent(l, reqs[..j + 1]);
    OwnKey(l, Run(l, reqs[..j]), reqs[j].key, reqs[j].now);
  }

  // ---- Retrying ----

  /** The key makes no request among reqs[i..j]. */
  ghost predicate Silent(reqs: seq<Request>, key: string, i: nat, j: nat)
    requires j <= |reqs|
  {
    forall m | i <= m < j :: reqs[m].key != key
  }

  lemma {:induction false} SilentKeeps(l: Limits, reqs: seq<Request>, key: string, i: nat, j: nat)
    requires Sensible(l) && i <= j <= |reqs| && Silent(reqs, key, i, j)
    ensures var b := Lookup(Run(l, reqs[..j]), key);
      b.None? || b == Lookup(Run(l, reqs[..i]), key)
    decreases j
  {
    if i < j {
      SilentKeeps(l, reqs, key, i, j - 1);
      assert reqs[..j][..j - 1] == reqs[..j - 1];
      TrackedAreMostRecent(l, reqs[..j - 1]);
      TrackedAreMostRecent(l, reqs[..j]);
      OtherKey(l, Run(l, reqs[..j - 1]), reqs[j - 1].key, reqs[j - 1].now, key);
    }
  }

  /** A refused bucket answers a later request exactly by whether the untruncated wait has passed. */
  lemma RefusedThenHit(l: Limits, b: Bucket, now: int, later: int)
    requires Sensible(l) && Level(l, b) && b.lastFill <= now <= later && !Hit(l, Some(b), now).1.allowed
    ensures var refused := Hit(l, Some(b), now);
      Hit(l, Some(refused.0), later).1.allowed <==> (later - now) as real >= Wait(l, refused.0.tokens) * SECOND
  {
    var t := Refilled(l, b, now);
    EarnedPositive(l, now, later);
    WaitIsOver((later - now) as real, t, l.rate);
  }

  /** d nanoseconds earn what is missing to one token exactly when the wait is over. */
  lemma WaitIsOver(d: real, t: real, rate: real)
    requires rate > 0.0
    ensures t + d / SECOND * rate >= 1.0 <==> d >= (1.0 - t) / rate * SECOND
  {
    var w, e := (1.0 - t) / rate, d / SECOND;
    Divide(1.0 - t, rate);
    Divide(d, SECOND);
    Scale(e, w, rate);
    Scale(e, w, SECOND);
  }

  lemma Divide(x: real, y: real)
    requires y > 0.0
    ensures x / y * y == x
  {
  }

  lemma Scale(x: real, y: real, r: real)
    requires r > 0.0
    ensures x >= y <==> x * r >= y * r
  {
    assert (x - y) * r == x * r - y * r;
    if x >= y {
      assert (x - y) * r >= 0.0;
    } else {
      assert (y - x) * r > 0.0;
    }
  }

  /** After a refusal at i, the key's next request, at j: allowed at the latest one nanosecond after retryAfter, evicted
      meanwhile or not; and if still tracked, allowed exactly when the wait before truncation is over. */
  lemma RetryExact(l: Limits, reqs: seq<Request>, i: nat, j: nat)
    requires Sensible(l) && Ordered(reqs) && i < j < |reqs|
    requires !AnswerAt(l, reqs, i).allowed && reqs[j].key == reqs[i].key && Silent(reqs, reqs[i].key, i + 1, j)
    ensures reqs[j].now - reqs[i].now > AnswerAt(l, reqs, i).retryAfter ==> AnswerAt(l, reqs, j).allowed
    ensures Lookup(Run(l, reqs[..j]), reqs[i].key).Some? ==>
      reqs[j].now - reqs[i].now < AnswerAt(l, reqs, i).retryAfter ==> !AnswerAt(l, reqs, j).allowed
    ensures var b := Lookup(Run(l, reqs[..j]), reqs[i].key);
      AnswerAt(l, reqs, j).allowed <==>
        b.None? || (reqs[j].now - reqs[i].now) as real >= Wait(l, b.value.tokens) * SECOND
  {
    var key, now := reqs[i].key, reqs[i].now;
    var before := Run(l, reqs[..i]);
    assert reqs[..i + 1][..i] == reqs[..i];
    TrackedAreMostRecent(l, reqs[..i]);
    TrackedAreMostRecent(l, reqs[..i + 1]);
    OwnKey(l, before, key, now);
    SilentKeeps(l, reqs, key, i + 1, j);
    TokensBounded(l, reqs[..i], key);
    RefusedThenHit(l, Lookup(before, key).value, now, reqs[j].now);
  }

  /** retryAfter itself can be a nanosecond short: at 3 tokens a second with a burst of 1, of three requests the first
      is allowed, the second refused, and the third, made exactly retryAfter later, refused again. */
  lemma RetryAfterTooShort(key: string)
    ensures var l, reqs := Limits(3.0, 1.0, 1), [Request(key, 0), Request(key, 0), Request(key, 333_333_333)];
      && AnswerAt(l, reqs, 0).allowed
      && !AnswerAt(l, reqs, 1).allowed && AnswerAt(l, reqs, 1).retryAfter == reqs[2].now - reqs[1].now
      && !AnswerAt(l, reqs, 2).allowed
  {
    var l, reqs := Limits(3.0, 1.0, 1), [Request(key, 0), Request(key, 0), Request(key, 333_333_333)];
    OneKeyStep(l, [], key, 0);
    OneKeyStep(l, [Slot(key, Bucket(0.0, 0))], key, 0);
    assert reqs[..1] == [reqs[0]] && reqs[..2] == [reqs[0], reqs[1]];
    assert reqs[..2][..1] == reqs[..1] && reqs[..1][..0] == [];
    assert Run(l, reqs[..0]) == [];
    assert Run(l, reqs[..1]) == [Slot(key, Bucket(0.0, 0))];
    assert Run(l, reqs[..2]) == [Slot(key, Bucket(0.0, 0))];
    assert Lookup([Slot(key, Bucket(0.0, 0))], key) == Some(Bucket(0.0, 0));
    ThirdOfASecond(l);
  }

  lemma OneKeyStep(l: Limits, slots: seq<Slot>, key: string, now: int)
    requires Sensible(l) && (slots == [] || exists b :: slots == [Slot(key, b)])
    ensures Consumed(l, slots, key, now) == [Slot(key, Hit(l, Lookup(slots, key), now).0)]
  {
  }

  lemma ThirdOfASecond(l: Limits)
    requires l == Limits(3.0, 1.0, 1)
    ensures Hit(l, Some(Bucket(0.0, 0)), 0) == (Bucket(0.0, 0), Answer(false, 0.0, 333_333_333))
    ensures !Hit(l, Some(Bucket(0.0, 0)), 333_333_333).1.allowed
  {
    assert Refilled(l, Bucket(0.0, 0), 0) == 0.0;
    assert (Wait(l, 0.0) * SECOND).Floor == 333_333_333;
  }

  // ---- The object ----

  class Entry {
    const ip: string
    var tokens: real
    var lastFill: int

    constructor (ip: string, tokens: real, lastFill: int)
      ensures this.ip == ip && this.tokens == tokens && this.lastFill == lastFill
    {
      this.ip := ip;
      this.tokens := tokens;
      this.lastFill := lastFill;
    }

    /** Refill and take a token, or say how long to wait. */
    method Take(limits: Limits, now: int) returns (allowed: bool, remaining: real, retryAfter: int)
      requires Sensible(limits)
      modifies this
      ensures (AsSlot().bucket, Answer(allowed, remaining, retryAfter)) == Hit(limits, Some(old(AsSlot()).bucket), now)
    {
      var elapsed := (now - lastFill) as real / SECOND;
      tokens := tokens + elapsed * limits.rate;
      if tokens > limits.burst {
        tokens := limits.burst;
      }
      lastFill := now;
      if tokens < 1.0 {
        var wait := (1.0 - tokens) / limits.rate;
        return false, 0.0, (wait * SECOND).Floor;
      }
      tokens := tokens - 1.0;
      return true, tokens, 0;
    }

    function AsSlot(): Slot
      reads this
    {
      Slot(ip, Bucket(tokens, lastFill))
    }
  }

  /** The map and the list hold the same entries. */
  class IPRateLimiter {
    const limits: Limits
    var buckets: map<string, Entry>
    var lru: seq<Entry>

    ghost predicate Valid()
      reads this
    {
      Sensible(limits) && Tied(lru, buckets)
    }

    static ghost predicate Tied(list: seq<Entry>, entries: map<string, Entry>) {
      && (forall i, j | 0 <= i < j < |list| :: list[i].ip != list[j].ip)
      && (forall e | e in list :: e.ip in entries && entries[e.ip] == e)
      && (forall k | k in entries :: entries[k] in list && entries[k].ip == k)
    }

    function Slots(): seq<Slot>
      reads this, lru
    {
      seq(|lru|, i requires 0 <= i < |lru| reads this, lru => lru[i].AsSlot())
    }

    constructor (rate: real, burst: real, maxIPs: int)
      ensures Valid() && limits == NewLimits(rate, burst, maxIPs) && Slots() == []
    {
      limits := NewLimits(rate, burst, maxIPs);
      buckets, lru := map[], [];
    }

    /** Where an entry sits in the list. */
    ghost method Place(e: Entry) returns (i: nat)
      requires Valid() && e in lru
      ensures i < |lru| && lru[i] == e && IndexOf(Slots(), e.ip) == Some(i)
    {
      i :| 0 <= i < |lru| && lru[i] == e;
      var slots := Slots();
      assert Distinct(Keys(slots)) by {
        assert forall j | 0 <= j < |lru| :: Keys(slots)[j] == lru[j].ip;
      }
      assert slots[i].ip == e.ip;
      LookupAt(slots, i);
    }

    method Consume(key: string, now: int) returns (allowed: bool, remaining: real, retryAfter: int)
      requires Valid()
      modifies this, lru
      ensures Valid()
      ensures Answer(allowed, remaining, retryAfter) == Hit(limits, Lookup(old(Slots()), key), now).1
      ensures Slots() == Consumed(limits, old(Slots()), key, now)
    {
      if key in buckets {
        var e := buckets[key];
        ghost var i := Place(e);
        assert Slots()[i] == e.AsSlot();
        ConsumedFound(limits, Slots(), key, now, i);
        allowed, remaining, retryAfter := Touch(e, i, now);
      } else {
        NotListed(key);
        ConsumedAbsent(limits, Slots(), key, now);
        allowed, remaining, retryAfter := Insert(key, now);
      }
    }

    lemma NotListed(key: string)
      requires Valid() && key !in buckets
      ensures IndexOf(Slots(), key).None?
    {
      var slots := Slots();
      assert forall i | 0 <= i < |slots| :: slots[i].ip == lru[i].ip && lru[i] in lru;
    }

    method Touch(e: Entry, ghost i: nat, now: int) returns (allowed: bool, remaining: real, retryAfter: int)
      requires Valid() && i < |lru| && lru[i] == e
      modifies this`lru, e
      ensures Valid()
      ensures var (b, a) := Hit(limits, Some(old(e.AsSlot()).bucket), now);
        && Answer(allowed, remaining, retryAfter) == a
        && Slots() == [Slot(e.ip, b)] + old(Slots())[..i] + old(Slots())[i + 1..]
    {
      ghost var slots, list := Slots(), lru;
      allowed, remaining, retryAfter := TakeFrom(e, i, now);
      MoveToFront(e, i);
      SlotsAfterMove(slots, list, i);
    }

    /** Only the entry itself changes. */
    method TakeFrom(e: Entry, ghost i: nat, now: int) returns (allowed: bool, remaining: real, retryAfter: int)
      requires Valid() && i < |lru| && lru[i] == e
      modifies e
      ensures (e.AsSlot().bucket, Answer(allowed, remaining, retryAfter)) ==
        Hit(limits, Some(old(e.AsSlot()).bucket), now)
      ensures forall j | 0 <= j < |lru| && j != i :: lru[j].AsSlot() == old(lru[j].AsSlot())
    {
      assert forall j | 0 <= j < |lru| && j != i :: lru[j].ip != e.ip;
      allowed, remaining, retryAfter := e.Take(limits, now);
    }

    /** The slots of a list whose entry i moved to the front, the others keeping their buckets. */
    lemma SlotsAfterMove(slots: seq<Slot>, list: seq<Entry>, i: nat)
      requires |slots| == |list| && i < |list| && lru == [list[i]] + list[..i] + list[i + 1..]
      requires forall j | 0 <= j < |list| && j != i :: list[j].AsSlot() == slots[j]
      ensures Slots() == [list[i].AsSlot()] + slots[..i] + slots[i + 1..]
    {
    }

    /** list.MoveToFront; the entry is at place at. */
    method MoveToFront(e: Entry, ghost at: nat)
      requires Valid() && at < |lru| && lru[at] == e
      modifies this`lru
      ensures Valid() && lru == [e] + old(lru)[..at] + old(lru)[at + 1..]
    {
      var i := 0;
      while lru[i] != e
        invariant 0 <= i <= at
        decreases at - i
      {
        i := i + 1;
      }
      assert i == at;
      MovedTied(lru, buckets, i);
      lru := [e] + lru[..i] + lru[i + 1..];
    }

    static lemma MovedTied(list: seq<Entry>, entries: map<string, Entry>, i: nat)
      requires Tied(list, entries) && i < |list|
      ensures Tied([list[i]] + list[..i] + list[i + 1..], entries)
    {
      var moved := [list[i]] + list[..i] + list[i + 1..];
      MovedSame(list, i);
      forall a, b | 0 <= a < b < |moved| ensures moved[a].ip != moved[b].ip {
        var x, y := Origin(i, a), Origin(i, b);
        assert x != y && moved[a] == list[x] && moved[b] == list[y];
      }
    }

    static lemma MovedSame<T>(list: seq<T>, i: nat)
      requires i < |list|
      ensures var moved := [list[i]] + list[..i] + list[i + 1..];
        && |moved| == |list| && (forall a | 0 <= a < |list| :: Origin(i, a) < |list| && moved[a] == list[Origin(i, a)])
        && (forall x :: x in moved <==> x in list)
    {
      assert list == list[..i] + [list[i]] + list[i + 1..];
    }

    /** Where the entry at place a was before the one at place i moved to the front. */
    static function Origin(i: nat, a: nat): nat {
      if a == 0 then i else if a <= i then a - 1 else a
    }

    method Insert(key: string, now: int) returns (allowed: bool, remaining: real, retryAfter: int)
      requires Valid() && key !in buckets
      modifies this
      ensures Valid()
      ensures Answer(allowed, remaining, retryAfter) == Answer(true, limits.burst - 1.0, 0)
      ensures Slots() == [Slot(key, Bucket(limits.burst - 1.0, now))] +
        if |old(Slots())| >= limits.maxIPs then old(Slots())[..|old(Slots())| - 1] else old(Slots())
    {
      EvictIfFull();
      PushFront(key, limits.burst - 1.0, now);
      allowed, remaining, retryAfter := true, limits.burst - 1.0, 0;
    }

    method PushFront(key: string, tokens: real, now: int)
      requires Valid() && key !in buckets
      modifies this
      ensures Valid()
      ensures Slots() == [Slot(key, Bucket(tokens, now))] + old(Slots())
    {
      ghost var slots := Slots();
      var e := new Entry(key, tokens, now);
      assert Slots() == slots;
      Link(e);
    }

    method Link(e: Entry)
      requires Valid() && e.ip !in buckets
      modifies this
      ensures Valid()
      ensures Slots() == [e.AsSlot()] + old(Slots())
    {
      ghost var slots, list := Slots(), lru;
      LinkTied(lru, buckets, e);
      lru := [e] + lru;
      buckets := buckets[e.ip := e];
      SlotsAfterLink(slots, list, e);
    }

    static lemma LinkTied(list: seq<Entry>, entries: map<string, Entry>, e: Entry)
      requires Tied(list, entries) && e.ip !in entries
      ensures Tied([e] + list, entries[e.ip := e])
    {
      var list', entries' := [e] + list, entries[e.ip := e];
      assert forall x | x in list :: x.ip != e.ip;
      assert forall x | x in list' :: x == e || x in list;
      assert forall k | k in entries' && k != e.ip :: entries'[k] == entries[k];
      assert list'[0] == e;
    }

    lemma SlotsAfterLink(slots: seq<Slot>, list: seq<Entry>, e: Entry)
      requires |slots| == |list| && lru == [e] + list
      requires forall j | 0 <= j < |list| :: list[j].AsSlot() == slots[j]
      ensures Slots() == [e.AsSlot()] + slots
    {
    }

    method EvictIfFull()
      requires Valid()
      modifies this
      ensures Valid() && buckets.Keys <= old(buckets).Keys
      ensures Slots() == if |old(Slots())| >= limits.maxIPs then old(Slots())[..|old(Slots())| - 1] else old(Slots())
    {
      if |lru| >= limits.maxIPs {
        var oldest := lru[|lru| - 1];
        assert forall k | k in buckets && k != oldest.ip :: buckets[k] in lru[..|lru| - 1];
        lru := lru[..|lru| - 1];
        buckets := buckets - {oldest.ip};
      }
    }
  }
}
