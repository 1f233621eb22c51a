/** When an introducer sends a START round and what it then says, told from the events alone, over every run: the
    session a pair shares, whose word each entry of it is, and both cooldowns (pkg/discovery/exchange.go). */
module Rounds {
  import opened Strings
  import opened Windows
  import opened Rendezvous

  /** An offer the introducer takes up, for the pair with this id. */
  ghost predicate Takes(n: Node, e: Event, id: nat) {
    e.Offered? && Accepted(n, e.offer) && IdOf(n, e.offer) == id
  }

  /** The event that opened the pair's session: the first taken up since the last round, or since the one opened
      before grew older than 20 seconds. */
  ghost function Opened(n: Node, events: seq<Event>, m: nat, id: nat): (r: Option<nat>)
    requires m <= |events|
    ensures r.Some? ==> r.value < m && Takes(n, events[r.value], id)
  {
    if m == 0 then None
    else
      var was := Opened(n, events, m - 1, id);
      if !Takes(n, events[m - 1], id) then was
      else if RoundAt(n, events, m - 1).Some? then None
      else if was.Some? && events[m - 1].now - events[was.value].now <= 20_000_000_000 then was
      else Some(m - 1)
  }

  /** The event from i on that speaks for a key: its own latest offer or, with none, the first offer to it that came
      with an address the peer store knew. */
  ghost function Speaks(n: Node, events: seq<Event>, i: nat, m: nat, id: nat, key: string): (r: Option<nat>)
    requires m <= |events|
    ensures r.Some? ==> i <= r.value < m && Takes(n, events[r.value], id)
    decreases m
  {
    if m <= i then None
    else
      var was, e := Speaks(n, events, i, m - 1, id, key), events[m - 1];
      if !Takes(n, e, id) then was
      else if e.offer.from == key || (was.None? && e.offer.target == key && e.known != "") then Some(m - 1)
      else was
  }

  /** What an event says about a key: where it was seen, or where it is known to be. */
  ghost function Word(n: Node, e: Event, key: string): Entry
    requires e.Offered?
  {
    if e.offer.from == key then Entry(key, n.prepare(e.offer.candidates, e.observed), e.observed)
    else Entry(key, n.prepareKnown(e.known), e.known)
  }

  /** A session opened at event i holds, for every key, the word of the event that speaks for it. */
  ghost predicate Holds(n: Node, events: seq<Event>, i: nat, m: nat, id: nat, st: Session)
    requires i <= m <= |events|
  {
    forall key ::
      && (key in st.offers <==> Speaks(n, events, i, m, id, key).Some?)
      && (key in st.offers ==> st.offers[key] == Word(n, events[Speaks(n, events, i, m, id, key).value], key))
  }

  /** A pair has a session exactly since the event that opened it, until 20 seconds have passed. */
  ghost predicate SessionIs(n: Node, events: seq<Event>, m: nat, id: nat, sessions: map<nat, Session>)
    requires m <= |events|
  {
    var first := Opened(n, events, m, id);
    && (id in sessions ==> first.Some? && sessions[id].createdAt == events[first.value].now
                           && Holds(n, events, first.value, m, id, sessions[id]))
    && (id !in sessions && first.Some? ==> events[m - 1].now - events[first.value].now > 20_000_000_000)
  }

  lemma HoldsRecorded(n: Node, events: seq<Event>, i: nat, m: nat, id: nat, st: Session)
    requires i <= m < |events| && Takes(n, events[m], id) && Holds(n, events, i, m, id, st)
    ensures var e := events[m]; Holds(n, events, i, m + 1, id, Recorded(n, st, e.offer, e.observed, e.known))
  {
  }

  lemma HoldsOther(n: Node, events: seq<Event>, i: nat, m: nat, id: nat, st: Session)
    requires i <= m < |events| && !Takes(n, events[m], id) && Holds(n, events, i, m, id, st)
    ensures Holds(n, events, i, m + 1, id, st)
  {
  }

  lemma HoldsNothing(n: Node, events: seq<Event>, m: nat, id: nat, now: int)
    requires m <= |events|
    ensures Holds(n, events, m, m, id, Session(map[], now))
  {
  }

  /** The session an accepted offer works on. */
  ghost function Since(n: Node, events: seq<Event>, j: nat, id: nat): (i: nat)
    requires j < |events|
    ensures i <= j
  {
    var was := Opened(n, events, j, id);
    if was.Some? && events[j].now - events[was.value].now <= 20_000_000_000 then was.value else j
  }

  lemma WorksOn(n: Node, events: seq<Event>, j: nat, id: nat)
    requires Ordered(events) && j < |events| && Takes(n, events[j], id)
    requires SessionIs(n, events, j, id, Run(n, events[..j]).sessions)
    ensures var e := events[j];
      var st := SessionFor(n, Purge(Run(n, events[..j]), e.now), e.offer, e.observed, e.known, e.now);
      && st.createdAt == events[Since(n, events, j, id)].now
      && Holds(n, events, Since(n, events, j, id), j + 1, id, st)
  {
    var e, p := events[j], Purge(Run(n, events[..j]), events[j].now);
    var st := if id in p.sessions then p.sessions[id] else Session(map[], e.now);
    HoldsNothing(n, events, j, id, e.now);
    HoldsRecorded(n, events, Since(n, events, j, id), j, id, st);
  }

  lemma {:induction false} SessionsAre(n: Node, events: seq<Event>, m: nat, id: nat)
    requires Ordered(events) && m <= |events|
    ensures SessionIs(n, events, m, id, Run(n, events[..m]).sessions)
  {
    if m > 0 {
      SessionsAre(n, events, m - 1, id);
      assert events[..m][..m - 1] == events[..m - 1];
      if Takes(n, events[m - 1], id) {
        TakenStays(n, events, m - 1, id);
      } else {
        OtherStays(n, events, m - 1, id);
      }
    }
  }

  /** What an accepted offer leaves of the pair's session. */
  lemma Leaves(n: Node, s: State, e: Event)
    requires e.Offered? && Accepted(n, e.offer)
    ensures var id, ss := IdOf(n, e.offer), Next(n, s, e).sessions;
      if RoundOf(n, s, e).Some? then id !in ss
      else id in ss && ss[id] == SessionFor(n, Purge(s, e.now), e.offer, e.observed, e.known, e.now)
  {
  }

  lemma TakenStays(n: Node, events: seq<Event>, m: nat, id: nat)
    requires Ordered(events) && m < |events| && Takes(n, events[m], id)
    requires SessionIs(n, events, m, id, Run(n, events[..m]).sessions)
    ensures SessionIs(n, events, m + 1, id, Next(n, Run(n, events[..m]), events[m]).sessions)
  {
    WorksOn(n, events, m, id);
    Leaves(n, Run(n, events[..m]), events[m]);
    assert RoundAt(n, events, m).None? ==> Opened(n, events, m + 1, id) == Some(Since(n, events, m, id));
  }

  lemma OtherStays(n: Node, events: seq<Event>, m: nat, id: nat)
    requires Ordered(events) && m < |events| && !Takes(n, events[m], id)
    requires SessionIs(n, events, m, id, Run(n, events[..m]).sessions)
    ensures SessionIs(n, events, m + 1, id, Next(n, Run(n, events[..m]), events[m]).sessions)
  {
    var s, first := Run(n, events[..m]).sessions, Opened(n, events, m, id);
    if id in s {
      HoldsOther(n, events, first.value, m, id, s[id]);
    }
  }

  // ---- Cooldowns ----

  /** Every START round this pair had before is at least 8 seconds old. */
  ghost predicate Rested(n: Node, events: seq<Event>, j: nat, id: nat)
    requires j < |events|
  {
    forall i | 0 <= i < j && RoundAt(n, events, i).Some? && RoundAt(n, events, i).value.pairId == id ::
      events[j].now - events[i].now >= 8_000_000_000
  }

  ghost predicate Began(n: Node, events: seq<Event>, i: nat, id: nat, t: int)
    requires i < |events|
  {
    RoundAt(n, events, i).Some? && RoundAt(n, events, i).value.pairId == id && events[i].now == t
  }

  lemma {:induction false} StartsFromRounds(n: Node, events: seq<Event>, m: nat, id: nat)
    requires m <= |events| && id in Run(n, events[..m]).starts
    ensures exists i | 0 <= i < m :: Began(n, events, i, id, Run(n, events[..m]).starts[id])
  {
    if m > 0 {
      assert events[..m][..m - 1] == events[..m - 1];
      var s, t := Run(n, events[..m - 1]), Run(n, events[..m]).starts[id];
      if Began(n, events, m - 1, id, t) {
        assert 0 <= m - 1 < m;
      } else {
        assert id in s.starts && s.starts[id] == t;
        StartsFromRounds(n, events, m - 1, id);
        var i :| 0 <= i < m - 1 && Began(n, events, i, id, t);
      }
    }
  }

  lemma RestedIff(n: Node, events: seq<Event>, j: nat, id: nat)
    requires Ordered(events) && j < |events|
    ensures Rested(n, events, j, id) <==>
      !CoolingDown(Purge(Run(n, events[..j]), events[j].now).starts, id, events[j].now, START_COOLDOWN)
  {
    var s, now := Run(n, events[..j]).starts, events[j].now;
    if id in s {
      StartsFromRounds(n, events, j, id);
    }
    forall i | 0 <= i < j && RoundAt(n, events, i).Some? && RoundAt(n, events, i).value.pairId == id
      ensures (id in s && s[id] >= events[i].now) || now - events[i].now > 16_000_000_000
    {
      StartsRemembered(n, events, i, j);
    }
  }

  /** Every mark of this pair's punch job before, a beginning or an end, is at least 6 seconds old. */
  ghost predicate Idle(n: Node, events: seq<Event>, j: nat, id: nat)
    requires j < |events|
  {
    forall i | 0 <= i < j && PunchMark(n, events, i, id) :: events[j].now - events[i].now >= 6_000_000_000
  }

  lemma {:induction false} PunchesFromMarks(n: Node, events: seq<Event>, m: nat, id: nat)
    requires m <= |events| && id in Run(n, events[..m]).punches
    ensures exists i | 0 <= i < m :: PunchMark(n, events, i, id) && events[i].now == Run(n, events[..m]).punches[id]
  {
    if m > 0 {
      assert events[..m][..m - 1] == events[..m - 1];
      if PunchMark(n, events, m - 1, id) {
        assert 0 <= m - 1 < m;
      } else {
        PunchesFromMarks(n, events, m - 1, id);
        var i :| 0 <= i < m - 1 && PunchMark(n, events, i, id)
          && events[i].now == Run(n, events[..m - 1]).punches[id];
      }
    }
  }

  /** Over every run, a punch job begins exactly when each earlier mark of its pair is at least 6 seconds old. */
  lemma PunchBeginsIff(n: Node, events: seq<Event>, j: nat)
    requires Ordered(events) && j < |events| && events[j].BeginPunch?
    ensures Begins(Run(n, events[..j]), events[j]) <==> Idle(n, events, j, events[j].id)
  {
    var s, id := Run(n, events[..j]).punches, events[j].id;
    if id in s {
      PunchesFromMarks(n, events, j, id);
    }
    forall i | 0 <= i < j && PunchMark(n, events, i, id)
      ensures (id in s && s[id] >= events[i].now) || events[j].now - events[i].now > 12_000_000_000
    {
      PunchesRemembered(n, events, i, j, id);
    }
  }

  // ---- The round ----

  /** The guards of handleRendezvousOffer. */
  ghost predicate Relayable(n: Node, o: Offer) {
    && n.introducer && !n.disablePunching && o.from != "" && o.target != "" && n.pubKey !in {o.from, o.target}
    && o.pairId in {None, Some(PairSeed(n.fnv, o.from, o.target))}
  }

  /** The event that speaks for the other end of the offer at j, if the introducer has its word. */
  ghost function OtherEnd(n: Node, events: seq<Event>, j: nat): Option<nat>
    requires j < |events| && events[j].Offered?
  {
    var o := events[j].offer;
    var id := PairSeed(n.fnv, o.from, o.target);
    Speaks(n, events, Since(n, events, j, id), j + 1, id, o.target)
  }

  /** Over every run, an offer sets off a round exactly when it may be relayed, the introducer has the other end's word
      in the pair's session, and the pair's earlier rounds are at least 8 seconds old; the round then tells each end,
      at the address it spoke from, what the other offered, with one start time 1.8 seconds ahead. */
  lemma RoundExactly(n: Node, events: seq<Event>, j: nat)
    requires Ordered(events) && j < |events| && events[j].Offered?
    ensures var e, o := events[j], events[j].offer;
      var id, other := PairSeed(n.fnv, o.from, o.target), OtherEnd(n, events, j);
      && (RoundAt(n, events, j).Some? <==> Relayable(n, o) && other.Some? && Rested(n, events, j, id))
      && (RoundAt(n, events, j).Some? ==>
            var a, b, at := Word(n, e, o.from), Word(n, events[other.value], o.target), e.now + 1_800_000_000;
            RoundAt(n, events, j).value ==
            Round(id, Start(o.from, a.endpoint, id, o.target, n.announce(b.candidates), at),
                  Start(o.target, b.endpoint, id, o.from, n.announce(a.candidates), at)))
  {
    var o := events[j].offer;
    assert Accepted(n, o) <==> Relayable(n, o);
    if Accepted(n, o) {
      TakenExactly(n, events, j, IdOf(n, o));
    }
  }

  lemma TakenExactly(n: Node, events: seq<Event>, j: nat, id: nat)
    requires Ordered(events) && j < |events| && Takes(n, events[j], id)
    ensures var e, o, other := events[j], events[j].offer, OtherEnd(n, events, j);
      && (RoundAt(n, events, j).Some? <==> other.Some? && Rested(n, events, j, id))
      && (RoundAt(n, events, j).Some? ==>
            var a, b, at := Word(n, e, o.from), Word(n, events[other.value], o.target), e.now + 1_800_000_000;
            RoundAt(n, events, j).value ==
            Round(id, Start(o.from, a.endpoint, id, o.target, n.announce(b.candidates), at),
                  Start(o.target, b.endpoint, id, o.from, n.announce(a.candidates), at)))
  {
    var e, p := events[j], Purge(Run(n, events[..j]), events[j].now);
    var st := SessionFor(n, p, e.offer, e.observed, e.known, e.now);
    SessionsAre(n, events, j, id);
    WorksOn(n, events, j, id);
    RestedIff(n, events, j, id);
    assert Speaks(n, events, Since(n, events, j, id), j + 1, id, e.offer.from) == Some(j);
    RoundSays(n, p, e, st);
  }

  lemma RoundSays(n: Node, p: State, e: Event, st: Session)
    requires e.Offered? && st == SessionFor(n, p, e.offer, e.observed, e.known, e.now)
    ensures var r, o, id := RoundNow(n, p, e.offer, e.observed, e.known, e.now), e.offer, IdOf(n, e.offer);
      && o.from in st.offers
      && (r.Some? <==> o.target in st.offers && !CoolingDown(p.starts, id, e.now, START_COOLDOWN))
      && (r.Some? ==>
            var a, b, at := st.offers[o.from], st.offers[o.target], e.now + 1_800_000_000;
            r.value == Round(id, Start(a.from, a.endpoint, id, b.from, n.announce(b.candidates), at),
                             Start(b.from, b.endpoint, id, a.from, n.announce(a.candidates), at)))
  {
  }

  /** With a hash that tells strings apart, and keys without NUL, each message of a round is accepted by the end it is
      for and by nobody else. */
  lemma StartsReachTheirEnds(n: Node, events: seq<Event>, j: nat, local: string)
    requires Ordered(events) && j < |events| && RoundAt(n, events, j).Some? && Injective(n.fnv)
    requires 0 as char !in events[j].offer.from + events[j].offer.target + local
    ensures var r, o := RoundAt(n, events, j).value, events[j].offer;
      && (ReceiverAccepts(n.fnv, local, r.first) <==> local == o.from)
      && (ReceiverAccepts(n.fnv, local, r.second) <==> local == o.target)
  {
    RoundExactly(n, events, j);
    var o := events[j].offer;
    OnlyThatEnd(n.fnv, local, o.from, o.target);
    OnlyThatEnd(n.fnv, local, o.target, o.from);
    PairSeedSymmetric(n.fnv, o.from, o.target);
  }

  lemma OnlyThatEnd(fnv: string -> nat, local: string, a: string, b: string)
    requires Injective(fnv) && 0 as char !in local + a + b
    ensures PairSeed(fnv, local, b) == PairSeed(fnv, a, b) <==> local == a
  {
    if PairSeed(fnv, local, b) == PairSeed(fnv, a, b) {
      PairSeedInjective(fnv, local, b, a, b);
      assert local in {a, b} && a in {local, b};
    }
  }

  /** An offer to a peer whose address the store knows, or to its own sender, waits for nothing but the cooldown. */
  lemma KnownTargetStarts(n: Node, events: seq<Event>, j: nat)
    requires Ordered(events) && j < |events| && events[j].Offered? && Relayable(n, events[j].offer)
    requires events[j].known != "" || events[j].offer.from == events[j].offer.target
    ensures RoundAt(n, events, j).Some? <==> Rested(n, events, j, IdOf(n, events[j].offer))
  {
    RoundExactly(n, events, j);
  }

  /** Two peers that offer each other, the second within 20 seconds of the first and with no offer of the pair between
      or in the 20 seconds before, start then unless the pair is resting; a third peer's offers change nothing. */
  lemma TwoOffersStart(n: Node, events: seq<Event>, i: nat, j: nat)
    requires Ordered(events) && i < j < |events| && events[i].Offered? && events[j].Offered?
    requires Relayable(n, events[i].offer) && Relayable(n, events[j].offer)
    requires events[i].offer.from == events[j].offer.target && events[i].offer.target == events[j].offer.from
    requires events[j].now - events[i].now <= 20_000_000_000
    requires forall k | 0 <= k < j && k != i && Takes(n, events[k], IdOf(n, events[j].offer)) ::
      k < i && events[i].now - events[k].now > 20_000_000_000
    requires RoundAt(n, events, i).None?
    ensures RoundAt(n, events, j).Some? <==> Rested(n, events, j, IdOf(n, events[j].offer))
  {
    var id := IdOf(n, events[j].offer);
    PairSeedSymmetric(n.fnv, events[i].offer.from, events[i].offer.target);
    assert Takes(n, events[i], id);
    assert Opened(n, events, i + 1, id) == Some(i);
    StaysOpen(n, events, i, j, id);
    StillSpeaks(n, events, i, j, id, events[j].offer.target);
    assert Since(n, events, j, id) == i;
    RoundExactly(n, events, j);
  }

  lemma {:induction false} StaysOpen(n: Node, events: seq<Event>, i: nat, m: nat, id: nat)
    requires i < m <= |events| && forall k | i < k < m :: !Takes(n, events[k], id)
    ensures Opened(n, events, m, id) == Opened(n, events, i + 1, id)
    decreases m
  {
    if m > i + 1 {
      assert !Takes(n, events[m - 1], id);
      StaysOpen(n, events, i, m - 1, id);
    }
  }

  lemma {:induction false} StillSpeaks(n: Node, events: seq<Event>, i: nat, m: nat, id: nat, key: string)
    requires i < m <= |events| && forall k | i < k < m :: !Takes(n, events[k], id)
    ensures Speaks(n, events, i, m, id, key) == Speaks(n, events, i, i + 1, id, key)
    decreases m
  {
    if m > i + 1 {
      assert !Takes(n, events[m - 1], id);
      StillSpeaks(n, events, i, m - 1, id, key);
    }
  }
}
