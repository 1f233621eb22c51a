/** The introducer's side of NAT punching: offers, sessions, cooldowns and START rounds, and the receiver's check
    (pkg/discovery/exchange.go). Times are nanoseconds. A pair id is the pair's seed; the source prints it in hex. */
module Rendezvous {
  import opened Strings
  import opened Windows

  const MILLISECOND := 1_000_000
  const SESSION_TTL := 20_000 * MILLISECOND
  const START_LEAD_TIME := 1_800 * MILLISECOND
  const PUNCH_COOLDOWN := 6_000 * MILLISECOND
  const START_COOLDOWN := 8_000 * MILLISECOND

  datatype Offer = Offer(from: string, target: string, pairId: Option<nat>, candidates: seq<string>)

  /** The node, with the hash and the candidate filters as arbitrary functions: prepare for what an offer lists and the
      address it came from, prepareKnown for an endpoint from the peer store, announce for what a START carries. */
  datatype Node = Node(
    pubKey: string, introducer: bool, disablePunching: bool, fnv: string -> nat,
    prepare: (seq<string>, string) -> seq<string>, prepareKnown: string -> seq<string>,
    announce: seq<string> -> seq<string>)

  datatype Entry = Entry(from: string, candidates: seq<string>, endpoint: string)
  datatype Session = Session(offers: map<string, Entry>, createdAt: int)
  datatype State = State(sessions: map<nat, Session>, starts: map<nat, int>, punches: map<nat, int>)

  datatype Start = Start(to: string, endpoint: string, pairId: nat, peer: string, candidates: seq<string>, startAt: int)
  datatype Round = Round(pairId: nat, first: Start, second: Start)

  /** known is the control endpoint the peer store gives for the target, "" for none. */
  datatype Event =
    | Offered(offer: Offer, observed: string, known: string, now: int)
    | BeginPunch(id: nat, now: int)
    | EndPunch(id: nat, now: int)

  function IdOf(n: Node, o: Offer): nat {
    PairSeed(n.fnv, o.from, o.target)
  }

  /** The guards of handleRendezvousOffer. */
  predicate Accepted(n: Node, o: Offer) {
    && !n.disablePunching && o.from != "" && o.target != "" && o.from != n.pubKey && o.target != n.pubKey
    && n.introducer && (o.pairId.None? || o.pairId.value == IdOf(n, o))
  }

  function Purge(s: State, now: int): State {
    State(map id | id in s.sessions && now - s.sessions[id].createdAt <= SESSION_TTL :: s.sessions[id],
          map id | id in s.starts && now - s.starts[id] <= START_COOLDOWN * 2 :: s.starts[id],
          map id | id in s.punches && now - s.punches[id] <= PUNCH_COOLDOWN * 2 :: s.punches[id])
  }

  /** The session with the offer recorded and, where the target has none, one made up from the peer store. */
  function Recorded(n: Node, st: Session, o: Offer, observed: string, known: string): Session {
    var offers := st.offers[o.from := Entry(o.from, n.prepare(o.candidates, observed), observed)];
    if o.target !in offers && known != ""
      then st.(offers := offers[o.target := Entry(o.target, n.prepareKnown(known), known)])
    else st.(offers := offers)
  }

  function SessionFor(n: Node, s: State, o: Offer, observed: string, known: string, now: int): Session {
    var id := IdOf(n, o);
    Recorded(n, if id in s.sessions then s.sessions[id] else Session(map[], now), o, observed, known)
  }

  predicate CoolingDown(times: map<nat, int>, id: nat, now: int, cooldown: int) {
    id in times && now - times[id] < cooldown
  }

  /** sendRendezvousStart. */
  function StartFor(n: Node, id: nat, to: Entry, peer: Entry, startAt: int): Start {
    Start(to.from, to.endpoint, id, peer.from, n.announce(peer.candidates), startAt)
  }

  /** The round an accepted offer sets off on purged state, if any. */
  function RoundNow(n: Node, p: State, o: Offer, observed: string, known: string, now: int): Option<Round> {
    var id, st := IdOf(n, o), SessionFor(n, p, o, observed, known, now);
    if o.target !in st.offers || CoolingDown(p.starts, id, now, START_COOLDOWN) then None
    else
      assert o.from in st.offers;
      var a, b, startAt := st.offers[o.from], st.offers[o.target], now + START_LEAD_TIME;
      Some(Round(id, StartFor(n, id, a, b, startAt), StartFor(n, id, b, a, startAt)))
  }

  function AfterOffer(n: Node, p: State, o: Offer, observed: string, known: string, now: int): State {
    var id := IdOf(n, o);
    if RoundNow(n, p, o, observed, known, now).Some?
      then p.(sessions := p.sessions - {id}, starts := p.starts[id := now])
    else p.(sessions := p.sessions[id := SessionFor(n, p, o, observed, known, now)])
  }

  /** The round an event sets off, if any. */
  function RoundOf(n: Node, s: State, e: Event): Option<Round> {
    if !e.Offered? || !Accepted(n, e.offer) then None
    else RoundNow(n, Purge(s, e.now), e.offer, e.observed, e.known, e.now)
  }

  predicate Begins(s: State, e: Event) {
    e.BeginPunch? && !CoolingDown(s.punches, e.id, e.now, PUNCH_COOLDOWN)
  }

  function Next(n: Node, s: State, e: Event): State {
    match e
    case Offered(o, observed, known, now) =>
      if !Accepted(n, o) then s else AfterOffer(n, Purge(s, now), o, observed, known, now)
    case BeginPunch(id, now) => if Begins(s, e) then s.(punches := s.punches[id := now]) else s
    case EndPunch(id, now) => s.(punches := s.punches[id := now])
  }

  function Run(n: Node, events: seq<Event>): State {
    if |events| == 0 then State(map[], map[], map[]) else Next(n, Run(n, events[..|events| - 1]), events[|events| - 1])
  }

  function RoundAt(n: Node, events: seq<Event>, i: nat): Option<Round>
    requires i < |events|
  {
    RoundOf(n, Run(n, events[..i]), events[i])
  }

  ghost predicate Ordered(events: seq<Event>) {
    forall i, j | 0 <= i < j < |events| :: events[i].now <= events[j].now
  }

  // ---- Cooldowns survive purging ----

  /** A mark made at time t is still there, or superseded, or purged because it is older than the limit. */
  ghost predicate Remembered(times: map<nat, int>, id: nat, t: int, now: int, limit: int) {
    (id in times && times[id] >= t) || now - t > limit
  }

  lemma {:induction false} StartsRemembered(n: Node, events: seq<Event>, i: nat, m: nat)
    requires Ordered(events) && i < m <= |events| && RoundAt(n, events, i).Some?
    ensures Remembered(Run(n, events[..m]).starts, RoundAt(n, events, i).value.pairId, events[i].now,
                       events[m - 1].now, START_COOLDOWN * 2)
    decreases m
  {
    var e, s := events[m - 1], Run(n, events[..m - 1]);
    assert events[..m][..m - 1] == events[..m - 1];
    if i < m - 1 {
      StartsRemembered(n, events, i, m - 1);
    }
  }

  /** Over every run of offers, two START rounds of one pair are at least 8 seconds apart. */
  lemma RoundsSpaced(n: Node, events: seq<Event>, i: nat, j: nat)
    requires Ordered(events) && i < j < |events| && RoundAt(n, events, i).Some? && RoundAt(n, events, j).Some?
    requires RoundAt(n, events, i).value.pairId == RoundAt(n, events, j).value.pairId
    ensures events[j].now - events[i].now >= 8_000_000_000
  {
    StartsRemembered(n, events, i, j);
  }

  /** An event that marks the pair's punch job: one that began, or any end. */
  ghost predicate PunchMark(n: Node, events: seq<Event>, i: nat, id: nat) {
    && i < |events| && !events[i].Offered? && events[i].id == id
    && (events[i].EndPunch? || Begins(Run(n, events[..i]), events[i]))
  }

  lemma {:induction false} PunchesRemembered(n: Node, events: seq<Event>, i: nat, m: nat, id: nat)
    requires Ordered(events) && i < m <= |events| && PunchMark(n, events, i, id)
    ensures Remembered(Run(n, events[..m]).punches, id, events[i].now, events[m - 1].now, PUNCH_COOLDOWN * 2)
    decreases m
  {
    assert events[..m][..m - 1] == events[..m - 1];
    if i < m - 1 {
      PunchesRemembered(n, events, i, m - 1, id);
    }
  }

  /** A punch job begins no sooner than 6 seconds after the pair's last job began or ended. */
  lemma PunchesSpaced(n: Node, events: seq<Event>, i: nat, j: nat, id: nat)
    requires Ordered(events) && i < j < |events| && PunchMark(n, events, i, id)
    requires PunchMark(n, events, j, id) && events[j].BeginPunch?
    ensures events[j].now - events[i].now >= 6_000_000_000
  {
    PunchesRemembered(n, events, i, j, id);
  }

  // ---- What a round says ----

  /** An event that supplies these candidates and this address for a key under a pair id. */
  predicate Supplies(n: Node, e: Event, id: nat, entry: Entry) {
    && e.Offered? && Accepted(n, e.offer) && IdOf(n, e.offer) == id
    && ((&& e.offer.from == entry.from && entry.endpoint == e.observed
         && entry.candidates == n.prepare(e.offer.candidates, e.observed))
        || (&& e.offer.target == entry.from && entry.endpoint == e.known != ""
            && entry.candidates == n.prepareKnown(e.known)))
  }

  /** Each entry of a session is under its own key and came with an event no older than the session. */
  ghost predicate Sourced(n: Node, events: seq<Event>, m: nat, id: nat, st: Session)
    requires m <= |events|
  {
    forall k | k in st.offers ::
      && st.offers[k].from == k
      && exists i | 0 <= i < m :: Supplies(n, events[i], id, st.offers[k]) && events[i].now >= st.createdAt
  }

  ghost predicate WellSourced(n: Node, events: seq<Event>, m: nat, id: nat, st: Session)
    requires m <= |events|
  {
    Sourced(n, events, m, id, st) && m > 0 && st.createdAt <= events[m - 1].now
  }

  ghost predicate AllSourced(n: Node, events: seq<Event>, m: nat, sessions: map<nat, Session>)
    requires m <= |events|
  {
    forall id | id in sessions :: WellSourced(n, events, m, id, sessions[id])
  }

  lemma SourcedLonger(n: Node, events: seq<Event>, m: nat, id: nat, st: Session)
    requires m < |events| && Sourced(n, events, m, id, st)
    ensures Sourced(n, events, m + 1, id, st)
  {
    forall k | k in st.offers
      ensures exists i | 0 <= i < m + 1 :: Supplies(n, events[i], id, st.offers[k]) && events[i].now >= st.createdAt
    {
      var i :| 0 <= i < m && Supplies(n, events[i], id, st.offers[k]) && events[i].now >= st.createdAt;
    }
  }

  lemma RecordedSourced(n: Node, events: seq<Event>, m: nat, st: Session)
    requires m < |events| && events[m].Offered? && Accepted(n, events[m].offer) && events[m].now >= st.createdAt
    requires Sourced(n, events, m, IdOf(n, events[m].offer), st)
    ensures Sourced(n, events, m + 1, IdOf(n, events[m].offer),
                    Recorded(n, st, events[m].offer, events[m].observed, events[m].known))
  {
    var e := events[m];
    var id, st' := IdOf(n, e.offer), Recorded(n, st, e.offer, e.observed, e.known);
    SourcedLonger(n, events, m, id, st);
    forall k | k in st'.offers
      ensures st'.offers[k].from == k
      ensures exists i | 0 <= i < m + 1 :: Supplies(n, events[i], id, st'.offers[k]) && events[i].now >= st'.createdAt
    {
      if k == e.offer.from || k !in st.offers {
        assert Supplies(n, events[m], id, st'.offers[k]);
      } else {
        assert st'.offers[k] == st.offers[k];
      }
    }
  }

  lemma {:induction false} SessionsSourced(n: Node, events: seq<Event>, m: nat)
    requires Ordered(events) && m <= |events|
    ensures AllSourced(n, events, m, Run(n, events[..m]).sessions)
  {
    if m > 0 {
      SessionsSourced(n, events, m - 1);
      assert events[..m][..m - 1] == events[..m - 1];
      var e, s := events[m - 1], Run(n, events[..m - 1]);
      var ss := Run(n, events[..m]).sessions;
      forall id | id in ss ensures WellSourced(n, events, m, id, ss[id]) {
        if e.Offered? && Accepted(n, e.offer) && id == IdOf(n, e.offer) {
          LiveSession(n, events, m - 1);
        } else {
          OtherSession(n, s, e, id);
          assert WellSourced(n, events, m - 1, id, s.sessions[id]);
          SourcedLonger(n, events, m - 1, id, ss[id]);
        }
      }
    }
  }

  lemma OtherSession(n: Node, s: State, e: Event, id: nat)
    requires id in Next(n, s, e).sessions && (e.Offered? && Accepted(n, e.offer) ==> id != IdOf(n, e.offer))
    ensures id in s.sessions && Next(n, s, e).sessions[id] == s.sessions[id]
  {
  }

  /** The session an accepted offer works on, after purging. */
  lemma LiveSession(n: Node, events: seq<Event>, m: nat)
    requires Ordered(events) && m < |events| && events[m].Offered? && Accepted(n, events[m].offer)
    requires AllSourced(n, events, m, Run(n, events[..m]).sessions)
    ensures var e := events[m];
      var st := SessionFor(n, Purge(Run(n, events[..m]), e.now), e.offer, e.observed, e.known, e.now);
      Sourced(n, events, m + 1, IdOf(n, e.offer), st) && e.now - SESSION_TTL <= st.createdAt <= e.now
  {
    var e := events[m];
    var p, id := Purge(Run(n, events[..m]), e.now), IdOf(n, e.offer);
    var st := if id in p.sessions then p.sessions[id] else Session(map[], e.now);
    if id in p.sessions {
      assert WellSourced(n, events, m, id, st);
    }
    RecordedSourced(n, events, m, st);
  }

  /** handleRendezvousStart's check at the receiving end. */
  predicate ReceiverAccepts(fnv: string -> nat, local: string, msg: Start) {
    msg.peer != "" && PairSeed(fnv, local, msg.peer) == msg.pairId
  }

  /** This message tells `to` about `peer`, with candidates that peer supplied at most 20 seconds ago. */
  ghost predicate Introduces(n: Node, events: seq<Event>, j: nat, msg: Start, to: string, peer: string)
    requires j < |events|
  {
    && msg.to == to && msg.peer == peer && ReceiverAccepts(n.fnv, to, msg)
    && (exists i, entry | 0 <= i <= j ::
          && Supplies(n, events[i], msg.pairId, entry) && entry.from == peer
          && msg.candidates == n.announce(entry.candidates)
          && events[j].now - events[i].now <= 20_000_000_000)
    && (exists i, entry | 0 <= i <= j ::
          Supplies(n, events[i], msg.pairId, entry) && entry.from == to && msg.endpoint == entry.endpoint
          && events[j].now - events[i].now <= 20_000_000_000)
  }

  /** Every round introduces the offer's two ends to each other, each at its own address, with the other's recent
      candidates, one start time 1.8 s ahead, and a pair id that passes the receiver's own check. */
  lemma RoundIntroduces(n: Node, events: seq<Event>, j: nat)
    requires Ordered(events) && j < |events| && RoundAt(n, events, j).Some?
    ensures var r, o := RoundAt(n, events, j).value, events[j].offer;
      && r.first.startAt == r.second.startAt == events[j].now + 1_800_000_000
      && r.first.pairId == r.second.pairId == r.pairId == IdOf(n, o)
      && Introduces(n, events, j, r.first, o.from, o.target)
      && Introduces(n, events, j, r.second, o.target, o.from)
  {
    var e := events[j];
    var o := e.offer;
    SessionsSourced(n, events, j);
    LiveSession(n, events, j);
    var st := SessionFor(n, Purge(Run(n, events[..j]), e.now), o, e.observed, e.known, e.now);
    PairSeedSymmetric(n.fnv, o.from, o.target);
    var r := RoundAt(n, events, j).value;
    EntryIntroduces(n, events, j, IdOf(n, o), st, o.from, o.target, r.first);
    EntryIntroduces(n, events, j, IdOf(n, o), st, o.target, o.from, r.second);
  }

  lemma EntryIntroduces(n: Node, events: seq<Event>, j: nat, id: nat, st: Session, to: string, peer: string, msg: Start)
    requires j < |events| && Sourced(n, events, j + 1, id, st) && events[j].now - SESSION_TTL <= st.createdAt
    requires to in st.offers && peer in st.offers && peer != "" && id == PairSeed(n.fnv, to, peer)
    requires msg == StartFor(n, id, st.offers[to], st.offers[peer], events[j].now + START_LEAD_TIME)
    ensures Introduces(n, events, j, msg, to, peer)
  {
    var i :| 0 <= i < j + 1 && Supplies(n, events[i], id, st.offers[peer]) && events[i].now >= st.createdAt;
    var i' :| 0 <= i' < j + 1 && Supplies(n, events[i'], id, st.offers[to]) && events[i'].now >= st.createdAt;
  }

  /** The two ends are distinct exactly when the offer names two: one that targets its own sender is not refused, and
      the sender is then told, twice, to punch to itself. */
  lemma SelfOfferRound(n: Node, o: Offer, observed: string, known: string, now: int)
    requires Accepted(n, o)
    ensures var r := RoundOf(n, State(map[], map[], map[]), Offered(o, observed, known, now));
      o.from == o.target ==>
        r.Some? && r.value.first == r.value.second && r.value.first.to == r.value.first.peer == o.from
    ensures forall s :: var r := RoundOf(n, s, Offered(o, observed, known, now));
      r.Some? && (forall id, k | id in s.sessions && k in s.sessions[id].offers ::
                    s.sessions[id].offers[k].from == k) ==>
      (r.value.first.to != r.value.second.to <==> o.from != o.target)
  {
  }

  // ---- The object ----

  class Introducer {
    const node: Node
    var sessions: map<nat, Session>
    var starts: map<nat, int>
    var punches: map<nat, int>

    ghost function Abstract(): State
      reads this
    {
      State(sessions, starts, punches)
    }

    constructor (n: Node)
      ensures node == n && Abstract() == Run(n, [])
    {
      node := n;
      sessions, starts, punches := map[], map[], map[];
    }

    /** A purging loop over one of the time maps. */
    static method PurgeTimes(times: map<nat, int>, now: int, limit: int) returns (out: map<nat, int>)
      ensures out == map id | id in times && now - times[id] <= limit :: times[id]
    {
      out := times;
      var todo := times.Keys;
      while todo != {}
        invariant todo <= times.Keys
        invariant out == map id | id in times && (id in todo || now - times[id] <= limit) :: times[id]
        decreases |todo|
      {
        var id :| id in todo;
        todo := todo - {id};
        if now - times[id] > limit {
          out := out - {id};
        }
      }
    }

    method PurgeSessions(now: int)
      modifies this`sessions
      ensures sessions ==
        map id | id in old(sessions) && now - old(sessions)[id].createdAt <= SESSION_TTL :: old(sessions)[id]
    {
      var all := sessions;
      var todo := sessions.Keys;
      while todo != {}
        invariant todo <= all.Keys
        invariant sessions == map id | id in all && (id in todo || now - all[id].createdAt <= SESSION_TTL) :: all[id]
        decreases |todo|
      {
        var id :| id in todo;
        todo := todo - {id};
        if now - all[id].createdAt > SESSION_TTL {
          sessions := sessions - {id};
        }
      }
    }

    method PurgeAll(now: int)
      modifies this
      ensures Abstract() == Purge(old(Abstract()), now)
    {
      PurgeSessions(now);
      starts := PurgeTimes(starts, now, START_COOLDOWN * 2);
      punches := PurgeTimes(punches, now, PUNCH_COOLDOWN * 2);
    }

    /** handleRendezvousOffer. */
    method HandleOffer(o: Offer, observed: string, known: string, now: int) returns (round: Option<Round>)
      modifies this
      ensures round == RoundOf(node, old(Abstract()), Offered(o, observed, known, now))
      ensures Abstract() == Next(node, old(Abstract()), Offered(o, observed, known, now))
    {
      round := None;
      if !Accepted(node, o) {
        return;
      }
      PurgeAll(now);
      round := Advance(o, observed, known, now);
    }

    /** The part of handleRendezvousOffer after purging. */
    method Advance(o: Offer, observed: string, known: string, now: int) returns (round: Option<Round>)
      modifies this
      ensures round == RoundNow(node, old(Abstract()), o, observed, known, now)
      ensures Abstract() == AfterOffer(node, old(Abstract()), o, observed, known, now)
    {
      round := None;
      var id := IdOf(node, o);
      var st := if id in sessions then sessions[id] else Session(map[], now);
      st := Record(st, o, observed, known);
      ghost var was := sessions;
      sessions := sessions[id := st];
      if o.target !in st.offers || (id in starts && now - starts[id] < START_COOLDOWN) {
        return;
      }
      starts := starts[id := now];
      var startAt := now + START_LEAD_TIME;
      var a, b := st.offers[o.from], st.offers[o.target];
      round := Some(Round(id, StartFor(node, id, a, b, startAt), StartFor(node, id, b, a, startAt)));
      sessions := sessions - {id};
      assert sessions == was - {id};
    }

    method Record(was: Session, o: Offer, observed: string, known: string) returns (st: Session)
      ensures st == Recorded(node, was, o, observed, known)
    {
      st := was.(offers := was.offers[o.from := Entry(o.from, node.prepare(o.candidates, observed), observed)]);
      if o.target !in st.offers {
        if known != "" {
          st := st.(offers := st.offers[o.target := Entry(o.target, node.prepareKnown(known), known)]);
        }
      }
    }

    method BeginPunchJob(id: nat, now: int) returns (ok: bool)
      modifies this`punches
      ensures ok == Begins(old(Abstract()), BeginPunch(id, now))
      ensures Abstract() == Next(node, old(Abstract()), BeginPunch(id, now))
    {
      if id in punches && now - punches[id] < PUNCH_COOLDOWN {
        return false;
      }
      punches := punches[id := now];
      return true;
    }

    method EndPunchJob(id: nat, now: int)
      modifies this`punches
      ensures Abstract() == Next(node, old(Abstract()), EndPunch(id, now))
    {
      punches := punches[id := now];
    }
  }
}
