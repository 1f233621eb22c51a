/** What two peers compute separately and must agree on: punching windows and introducers (pkg/discovery/dht.go). */
module Windows {
  import opened Numbers
  import opened Strings
  import opened Sorting

  const RENDEZVOUS_WINDOW := 20
  const RENDEZVOUS_PHASE := 4
  const IPV6_SYNC_WINDOW := 8
  const IPV6_SYNC_PHASE := 2

  /** pairSeed, for any hash. */
  function PairSeed(fnv: string -> nat, a: string, b: string): nat {
    if Less(b, a) then fnv(b + [0 as char] + a) else fnv(a + [0 as char] + b)
  }

  lemma PairSeedSymmetric(fnv: string -> nat, a: string, b: string)
    ensures PairSeed(fnv, a, b) == PairSeed(fnv, b, a)
  {
    LessTotal(a, b);
  }

  ghost predicate Injective(fnv: string -> nat) {
    forall x, y :: fnv(x) == fnv(y) ==> x == y
  }

  /** With a hash that tells strings apart, and keys without NUL, a seed tells pairs apart. */
  lemma PairSeedInjective(fnv: string -> nat, a: string, b: string, c: string, d: string)
    requires Injective(fnv) && 0 as char !in a + b + c + d
    requires PairSeed(fnv, a, b) == PairSeed(fnv, c, d)
    ensures {a, b} == {c, d}
  {
    var x, y := if Less(b, a) then b else a, if Less(b, a) then a else b;
    var u, v := if Less(d, c) then d else c, if Less(d, c) then c else d;
    assert PairSeed(fnv, a, b) == fnv(x + [0 as char] + y) && PairSeed(fnv, c, d) == fnv(u + [0 as char] + v);
    CutUnique(x, y, u, v, 0 as char);
  }

  /** The arithmetic of shouldAttemptRendezvous and shouldAttemptIPv6Sync; unix is the clock in seconds. */
  predicate InPhase(seed: nat, window: nat, phase: nat, unix: nat)
    requires window > 0
  {
    var delta := unix % window - seed % window;
    (if delta < 0 then delta + window else delta) < phase
  }

  predicate ShouldAttemptRendezvous(fnv: string -> nat, local: string, remote: string, unix: nat) {
    remote != "" && InPhase(PairSeed(fnv, local, remote), RENDEZVOUS_WINDOW, RENDEZVOUS_PHASE, unix)
  }

  predicate ShouldAttemptIPv6Sync(fnv: string -> nat, local: string, remote: string, unix: nat) {
    remote != "" && InPhase(PairSeed(fnv, local, remote), IPV6_SYNC_WINDOW, IPV6_SYNC_PHASE, unix)
  }

  /** Permitted seconds among the n seconds from t. */
  function Permitted(seed: nat, window: nat, phase: nat, t: nat, n: nat): nat
    requires window > 0
  {
    if n == 0 then 0
    else Permitted(seed, window, phase, t, n - 1) + if InPhase(seed, window, phase, t + n - 1) then 1 else 0
  }

  lemma ModShift(t: nat, window: nat)
    requires window > 0
    ensures (t + window) % window == t % window
  {
    var q, r := t / window, t % window;
    assert t + window == (q + 1) * window + r;
    ModUnique(t + window, window, q + 1, r);
  }

  lemma {:induction false} FirstOut(seed: nat, window: nat, phase: nat, t: nat, n: nat)
    requires window > 0 && n > 0
    ensures Permitted(seed, window, phase, t, n) ==
            (if InPhase(seed, window, phase, t) then 1 else 0) + Permitted(seed, window, phase, t + 1, n - 1)
    decreases n
  {
    if n > 1 {
      FirstOut(seed, window, phase, t, n - 1);
    } else {
      assert Permitted(seed, window, phase, t, 0) == 0;
    }
  }

  /** A window slides by one second without changing its count. */
  lemma Slide(seed: nat, window: nat, phase: nat, t: nat)
    requires window > 0
    ensures Permitted(seed, window, phase, t + 1, window) == Permitted(seed, window, phase, t, window)
  {
    FirstOut(seed, window, phase, t, window);
    ModShift(t, window);
  }

  lemma {:induction false} SlideTo(seed: nat, window: nat, phase: nat, t: nat)
    requires window > 0
    ensures Permitted(seed, window, phase, t, window) == Permitted(seed, window, phase, 0, window)
  {
    if t > 0 {
      SlideTo(seed, window, phase, t - 1);
      Slide(seed, window, phase, t - 1);
    }
  }

  /** From the offset on, the first `phase` seconds are permitted and the rest of the window is not. */
  lemma {:induction false} FromOffset(seed: nat, window: nat, phase: nat, n: nat)
    requires 0 < phase <= window && n <= window
    ensures Permitted(seed, window, phase, seed % window, n) == if n < phase then n else phase
  {
    if n > 0 {
      FromOffset(seed, window, phase, n - 1);
      var o, x := seed % window, n - 1;
      var q := if o + x < window then 0 else 1;
      ModUnique(o + x, window, q, o + x - q * window);
    }
  }

  lemma WindowCount(seed: nat, window: nat, phase: nat, t: nat)
    requires 0 < phase <= window
    ensures Permitted(seed, window, phase, t, window) == phase
  {
    SlideTo(seed, window, phase, t);
    SlideTo(seed, window, phase, seed % window);
    FromOffset(seed, window, phase, window);
  }

  /** Both ends of a pair permit the same seconds: 4 in any 20 consecutive for punching, 2 in any 8 for IPv6 sync. */
  lemma WindowsAgree(fnv: string -> nat, a: string, b: string, t: nat)
    requires a != "" && b != ""
    ensures ShouldAttemptRendezvous(fnv, a, b, t) == ShouldAttemptRendezvous(fnv, b, a, t)
    ensures ShouldAttemptIPv6Sync(fnv, a, b, t) == ShouldAttemptIPv6Sync(fnv, b, a, t)
    ensures Permitted(PairSeed(fnv, a, b), RENDEZVOUS_WINDOW, RENDEZVOUS_PHASE, t, 20) == 4
    ensures Permitted(PairSeed(fnv, a, b), IPV6_SYNC_WINDOW, IPV6_SYNC_PHASE, t, 8) == 2
  {
    PairSeedSymmetric(fnv, a, b);
    WindowCount(PairSeed(fnv, a, b), RENDEZVOUS_WINDOW, RENDEZVOUS_PHASE, t);
    WindowCount(PairSeed(fnv, a, b), IPV6_SYNC_WINDOW, IPV6_SYNC_PHASE, t);
  }

  /** How many of the n seconds from t a predicate permits. */
  ghost function Count(permits: nat -> bool, t: nat, n: nat): nat {
    if n == 0 then 0 else Count(permits, t, n - 1) + if permits(t + n - 1) then 1 else 0
  }

  lemma {:induction false} CountIsPermitted(permits: nat -> bool, seed: nat, window: nat, phase: nat, t: nat, n: nat)
    requires window > 0 && forall u: nat :: permits(u) <==> InPhase(seed, window, phase, u)
    ensures Count(permits, t, n) == Permitted(seed, window, phase, t, n)
  {
    if n > 0 {
      CountIsPermitted(permits, seed, window, phase, t, n - 1);
    }
  }

  /** Punching is permitted in 4 of any 20 consecutive seconds and IPv6 sync in 2 of any 8, for every named peer. */
  lemma AttemptsCount(fnv: string -> nat, local: string, remote: string, t: nat)
    requires remote != ""
    ensures Count((u: nat) => ShouldAttemptRendezvous(fnv, local, remote, u), t, 20) == 4
    ensures Count((u: nat) => ShouldAttemptIPv6Sync(fnv, local, remote, u), t, 8) == 2
  {
    var seed := PairSeed(fnv, local, remote);
    CountIsPermitted((u: nat) => ShouldAttemptRendezvous(fnv, local, remote, u), seed, 20, 4, t, 20);
    CountIsPermitted((u: nat) => ShouldAttemptIPv6Sync(fnv, local, remote, u), seed, 8, 2, t, 8);
    WindowCount(seed, 20, 4, t);
    WindowCount(seed, 8, 2, t);
  }

  /** The permitted seconds follow in a row on each second congruent to the pair's seed. */
  lemma AttemptsFollowSeed(fnv: string -> nat, local: string, remote: string, t: nat)
    ensures ShouldAttemptRendezvous(fnv, local, remote, t) <==>
      (remote != "" && exists d | 0 <= d < 4 :: Earlier(t, d, 20) == PairSeed(fnv, local, remote) % 20)
    ensures ShouldAttemptIPv6Sync(fnv, local, remote, t) <==>
      (remote != "" && exists d | 0 <= d < 2 :: Earlier(t, d, 8) == PairSeed(fnv, local, remote) % 8)
  {
    PhaseIff(PairSeed(fnv, local, remote), 20, 4, t);
    PhaseIff(PairSeed(fnv, local, remote), 8, 2, t);
  }

  /** The place in its window of the second d before t. */
  function Earlier(t: nat, d: nat, window: nat): nat
    requires d <= window && window > 0
  {
    (t + window - d) % window
  }

  lemma PhaseIff(seed: nat, window: nat, phase: nat, t: nat)
    requires 0 < phase <= window
    ensures InPhase(seed, window, phase, t) <==> exists d | 0 <= d < phase :: Earlier(t, d, window) == seed % window
  {
    var offset, position := seed % window, t % window;
    forall d | 0 <= d < phase
      ensures Earlier(t, d, window) == if position >= d then position - d else position + window - d
    {
      EarlierIs(t, d, window);
    }
    var delta := if position < offset then position - offset + window else position - offset;
    if delta < phase {
      assert Earlier(t, delta, window) == offset;
    }
  }

  lemma EarlierIs(t: nat, d: nat, window: nat)
    requires window > 0 && d < window
    ensures Earlier(t, d, window) == if t % window >= d then t % window - d else t % window + window - d
  {
    var position, q := t % window, t / window;
    assert t == q * window + position;
    assert (q + 1) * window == q * window + window;
    if position >= d {
      ModUnique(t + window - d, window, q + 1, position - d);
    } else {
      ModUnique(t + window - d, window, q, position + window - d);
    }
  }

  // ---- Introducers ----

  datatype Candidate = Candidate(pubKey: string, endpoint: string, control: string, isExplicit: bool)

  /** The order of selectRendezvousIntroducers: explicit ones first, then by key, then by endpoint. */
  predicate Before(a: Candidate, b: Candidate) {
    if a.isExplicit != b.isExplicit then a.isExplicit
    else if a.pubKey == b.pubKey then Less(a.endpoint, b.endpoint)
    else Less(a.pubKey, b.pubKey)
  }

  ghost predicate KeysDiffer(cs: seq<Candidate>) {
    forall i, j | 0 <= i < j < |cs| :: cs[i].pubKey != cs[j].pubKey
  }

  lemma BeforeLinear(cs: seq<Candidate>)
    requires KeysDiffer(cs)
    ensures Linear(Before, Elements(cs)) && Distinct(cs)
  {
    forall x, y | x in Elements(cs) && y in Elements(cs)
      ensures !Before(x, x) && (x == y || Before(x, y) || Before(y, x))
    {
      LessTotal(x.pubKey, y.pubKey);
      LessTotal(x.endpoint, x.endpoint);
    }
    forall x, y, z | x in Elements(cs) && y in Elements(cs) && z in Elements(cs) && Before(x, y) && Before(y, z)
      ensures Before(x, z)
    {
      BeforeTransitive(x, y, z);
    }
  }

  lemma BeforeTransitive(x: Candidate, y: Candidate, z: Candidate)
    requires Before(x, y) && Before(y, z)
    ensures Before(x, z)
  {
    if x.isExplicit == y.isExplicit == z.isExplicit {
      if x.pubKey == y.pubKey == z.pubKey {
        LessTransitive(x.endpoint, y.endpoint, z.endpoint);
      } else if x.pubKey != y.pubKey && y.pubKey != z.pubKey {
        LessTransitive(x.pubKey, y.pubKey, z.pubKey);
        LessTotal(x.pubKey, z.pubKey);
      }
    }
  }

  function Min(a: int, b: int): int { if a < b then a else b }

  /** i places after start, going round. */
  function Wrapped(sorted: seq<Candidate>, start: nat, i: nat): Candidate
    requires |sorted| > 0
  {
    sorted[(start + i) % |sorted|]
  }

  /** What is picked: from the sorted candidates, maxCount in a row from the pair's own starting point. */
  function Picked(sorted: seq<Candidate>, seed: nat, maxCount: int): (r: seq<Candidate>)
    ensures |r| == if maxCount <= 0 then 0 else Min(maxCount, |sorted|)
  {
    if |sorted| == 0 || maxCount <= 0 then []
    else seq(Min(maxCount, |sorted|), i requires 0 <= i => Wrapped(sorted, seed % |sorted|, i))
  }

  /** The loop that rotates through the sorted candidates. */
  method Rotate(sorted: seq<Candidate>, seed: nat, maxCount: int) returns (out: seq<Candidate>)
    ensures out == Picked(sorted, seed, maxCount)
  {
    if |sorted| == 0 || maxCount <= 0 {
      return [];
    }
    var start := seed % |sorted|;
    var count := if maxCount > |sorted| then |sorted| else maxCount;
    out := [];
    for i := 0 to count
      invariant |out| == i
      invariant forall j | 0 <= j < i :: out[j] == Wrapped(sorted, start, j)
    {
      out := out + [Wrapped(sorted, start, i)];
    }
  }

  /** The sort-and-rotate part of selectRendezvousIntroducers. */
  method SelectIntroducers(fnv: string -> nat, local: string, remote: string, candidates: seq<Candidate>, maxCount: int)
    returns (out: seq<Candidate>)
    ensures out == Picked(Sort(Before, candidates), PairSeed(fnv, local, remote), maxCount)
  {
    var sorted := Sort(Before, candidates);
    out := Rotate(sorted, PairSeed(fnv, local, remote), maxCount);
  }

  lemma RotationDistinct(start: nat, n: nat, i: nat, j: nat)
    requires start < n && i < j < n
    ensures (start + i) % n != (start + j) % n
  {
    var p, q := if start + i < n then 0 else 1, if start + j < n then 0 else 1;
    ModUnique(start + i, n, p, start + i - p * n);
    ModUnique(start + j, n, q, start + j - q * n);
  }

  /** Seeing the same candidates, in any order, the two ends pick the same min(maxCount, n) distinct introducers, in
      the same order. */
  lemma IntroducersAgree(fnv: string -> nat, a: string, b: string, seenByA: seq<Candidate>, seenByB: seq<Candidate>,
                         maxCount: int)
    requires KeysDiffer(seenByA) && KeysDiffer(seenByB) && Elements(seenByA) == Elements(seenByB)
    ensures var pa := Picked(Sort(Before, seenByA), PairSeed(fnv, a, b), maxCount);
      && pa == Picked(Sort(Before, seenByB), PairSeed(fnv, b, a), maxCount)
      && |pa| == (if maxCount <= 0 then 0 else Min(maxCount, |seenByA|))
      && Distinct(pa) && Elements(pa) <= Elements(seenByA)
  {
    BeforeLinear(seenByA);
    BeforeLinear(seenByB);
    SortUnique(Before, seenByA, seenByB);
    PairSeedSymmetric(fnv, a, b);
    var sorted, seed := Sort(Before, seenByA), PairSeed(fnv, a, b);
    SortAscending(Before, seenByA);
    PickedDistinct(sorted, seed, maxCount);
  }

  /** The i-th introducer picked is the candidate with exactly (seed + i) modulo n candidates before it: explicit ones
      come first, then lower keys. */
  lemma PickedByRank(cs: seq<Candidate>, seed: nat, maxCount: int, i: nat)
    requires KeysDiffer(cs) && i < |Picked(Sort(Before, cs), seed, maxCount)|
    ensures |cs| > 0
    ensures |Ahead(Elements(cs), Picked(Sort(Before, cs), seed, maxCount)[i])| == (seed % |cs| + i) % |cs|
  {
    var sorted := Sort(Before, cs);
    BeforeLinear(cs);
    SortAscending(Before, cs);
    var k := (seed % |cs| + i) % |cs|;
    RankIs(Before, sorted, k);
    AheadIs(cs, sorted[k]);
  }

  /** The candidates that come before another. */
  ghost function Ahead(cs: set<Candidate>, c: Candidate): set<Candidate> {
    set d | d in cs && ((d.isExplicit && !c.isExplicit) || (d.isExplicit == c.isExplicit && Less(d.pubKey, c.pubKey)))
  }

  lemma AheadIs(cs: seq<Candidate>, c: Candidate)
    requires KeysDiffer(cs) && c in Elements(cs)
    ensures Ahead(Elements(cs), c) == Below(Before, Elements(cs), c)
  {
    forall d | d in Elements(cs)
      ensures d in Ahead(Elements(cs), c) <==> Before(d, c)
    {
      LessTotal(d.pubKey, c.pubKey);
      LessTotal(d.endpoint, c.endpoint);
      assert d.pubKey == c.pubKey ==> d == c;
    }
  }

  lemma PickedDistinct(sorted: seq<Candidate>, seed: nat, maxCount: int)
    requires Linear(Before, Elements(sorted)) && Ascending(Before, sorted)
    ensures Distinct(Picked(sorted, seed, maxCount)) && Elements(Picked(sorted, seed, maxCount)) <= Elements(sorted)
  {
    var out, n := Picked(sorted, seed, maxCount), |sorted|;
    if |out| > 0 {
      forall i, j | 0 <= i < j < |out| ensures out[i] != out[j] {
        RotationDistinct(seed % n, n, i, j);
        AscendingDistinct(sorted, (seed % n + i) % n, (seed % n + j) % n);
      }
      forall x | x in Elements(out) ensures x in Elements(sorted) {
        var i :| 0 <= i < |out| && out[i] == x;
      }
    }
  }

  lemma AscendingDistinct(sorted: seq<Candidate>, i: nat, j: nat)
    requires Linear(Before, Elements(sorted)) && Ascending(Before, sorted)
    requires i < |sorted| && j < |sorted| && i != j
    ensures sorted[i] != sorted[j]
  {
    assert sorted[i] in Elements(sorted);
    assert Before(sorted[i], sorted[j]) || Before(sorted[j], sorted[i]);
  }
}
