/** The promo store: campaigns, promos and redemptions in memory with a file behind them, every change saved or rolled
    back (pkg/promo/store.go). A save either replaces the file or leaves it as it was. */
module PromoStore {
  import opened Strings
  import opened Sorting
  import opened PromoCode
  import opened Numbers

  type Code = seq<byte>

  datatype Campaign = Campaign(
    id: string, name: string, source: string, createdAt: int, expiresAt: Option<int>, trialDays: int, nodeLimit: int)
  datatype Promo = Promo(code: Code, campaign: string, redeemed: bool, redeemedAt: Option<int>, createdAt: int)
  datatype Redemption = Redemption(code: Code, campaign: string, account: string, redeemedAt: int, trialEndsAt: int)

  datatype Data = Data(campaigns: map<string, Campaign>, promos: map<Code, Promo>, redemptions: map<Code, Redemption>)
  datatype State = State(mem: Data, disk: Data)

  /** saved says whether the save at the end of the operation succeeds; code is what GenerateCode came up with. */
  datatype Event =
    | Create(id: string, name: string, source: string, trialDays: int, nodeLimit: int, expiresAt: Option<int>,
             now: int, saved: bool)
    | Generate(campaign: string, seed: string, code: Code, now: int, saved: bool)
    | Redeem(code: Code, account: string, now: int, saved: bool)
    | Restart

  /** What a call to RedeemCode comes to. */
  datatype RedeemResult = Refused | Redeemed(campaign: Campaign, trialEndsAt: int) | Panicked

  const EMPTY := Data(map[], map[], map[])

  predicate Expired(c: Campaign, now: int) {
    c.expiresAt.Some? && now > c.expiresAt.value
  }

  predicate CanCreate(d: Data, e: Event)
    requires e.Create?
  {
    e.id !in d.campaigns && e.name != "" && e.trialDays > 0 && e.nodeLimit > 0
  }

  predicate CanGenerate(d: Data, e: Event)
    requires e.Generate?
  {
    && e.campaign in d.campaigns && !Expired(d.campaigns[e.campaign], e.now)
    && e.campaign != "" && e.seed != "" && e.code !in d.promos
  }

  predicate CanRedeem(d: Data, e: Event)
    requires e.Redeem?
  {
    && Judged(e.code).Accepted? && e.code in d.promos && !d.promos[e.code].redeemed
    && d.promos[e.code].campaign in d.campaigns && !Expired(d.campaigns[d.promos[e.code].campaign], e.now)
  }

  /** The operation passes its tests and goes on to change memory. */
  predicate Attempts(d: Data, e: Event) {
    match e
    case Create(_, _, _, _, _, _, _, _) => CanCreate(d, e)
    case Generate(_, _, _, _, _) => CanGenerate(d, e)
    case Redeem(_, _, _, _) => CanRedeem(d, e)
    case Restart => false
  }

  function NewCampaign(e: Event): Campaign
    requires e.Create?
  {
    Campaign(e.id, e.name, e.source, e.now, e.expiresAt, e.trialDays, e.nodeLimit)
  }

  function TrialEnd(addDays: (int, int) -> int, d: Data, e: Event): int
    requires e.Redeem? && CanRedeem(d, e)
  {
    addDays(e.now, d.campaigns[d.promos[e.code].campaign].trialDays)
  }

  /** Memory after the change and before the save. */
  function Changed(addDays: (int, int) -> int, d: Data, e: Event): Data
    requires Attempts(d, e)
  {
    match e
    case Create(id, _, _, _, _, _, _, _) => d.(campaigns := d.campaigns[id := NewCampaign(e)])
    case Generate(campaign, _, code, now, _) => d.(promos := d.promos[code := Promo(code, campaign, false, None, now)])
    case Redeem(code, account, now, _) =>
      var p := d.promos[code];
      d.(promos := d.promos[code := p.(redeemed := true, redeemedAt := Some(now))],
         redemptions := d.redemptions[code := Redemption(code, p.campaign, account, now, TrialEnd(addDays, d, e))])
  }

  /** The rollback each operation performs on changed memory when its save fails. */
  function RolledBack(d: Data, e: Event): Data
    requires e.Redeem? ==> e.code in d.promos
  {
    match e
    case Create(id, _, _, _, _, _, _, _) => d.(campaigns := d.campaigns - {id})
    case Generate(_, _, code, _, _) => d.(promos := d.promos - {code})
    case Redeem(code, _, _, _) =>
      d.(promos := d.promos[code := d.promos[code].(redeemed := false, redeemedAt := None)],
         redemptions := d.redemptions - {code})
    case Restart => d
  }

  /** The operation reports success. */
  predicate Succeeds(d: Data, e: Event) {
    Attempts(d, e) && !e.Restart? && e.saved
  }

  function Next(addDays: (int, int) -> int, s: State, e: Event): State {
    if e.Restart? then State(s.disk, s.disk)
    else if !Attempts(s.mem, e) then s
    else
      var changed := Changed(addDays, s.mem, e);
      if e.saved then State(changed, changed) else State(RolledBack(changed, e), s.disk)
  }

  function Run(addDays: (int, int) -> int, events: seq<Event>): State {
    if |events| == 0 then State(EMPTY, EMPTY)
    else Next(addDays, Run(addDays, events[..|events| - 1]), events[|events| - 1])
  }

  // ---- What every run keeps ----

  ghost predicate Consistent(d: Data) {
    && (forall k | k in d.campaigns :: d.campaigns[k].id == k)
    && (forall c | c in d.promos :: d.promos[c].code == c && d.promos[c].campaign in d.campaigns)
    && (forall c | c in d.promos :: d.promos[c].redeemed <==> c in d.redemptions)
    && (forall c | c in d.promos :: d.promos[c].redeemed <==> d.promos[c].redeemedAt.Some?)
    && (forall c | c in d.redemptions :: c in d.promos && d.redemptions[c].code == c
          && d.redemptions[c].campaign == d.promos[c].campaign
          && d.promos[c].redeemedAt == Some(d.redemptions[c].redeemedAt))
  }

  /** A rollback undoes its change exactly. */
  lemma RollbackUndoes(addDays: (int, int) -> int, d: Data, e: Event)
    requires Consistent(d) && Attempts(d, e)
    ensures RolledBack(Changed(addDays, d, e), e) == d
  {
    var r := RolledBack(Changed(addDays, d, e), e);
    match e
    case Create(id, _, _, _, _, _, _, _) => assert r.campaigns == d.campaigns;
    case Generate(_, _, code, _, _) => assert r.promos == d.promos;
    case Redeem(code, _, _, _) =>
      assert r.promos[code] == d.promos[code];
      assert r.promos == d.promos;
      assert r.redemptions == d.redemptions;
    case Restart =>
  }

  lemma ChangedConsistent(addDays: (int, int) -> int, d: Data, e: Event)
    requires Consistent(d) && Attempts(d, e)
    ensures Consistent(Changed(addDays, d, e))
  {
    match e
    case Create(id, _, _, _, _, _, _, _) => CreatedConsistent(d, NewCampaign(e));
    case Generate(campaign, _, code, now, _) => GeneratedConsistent(d, code, campaign, now);
    case Redeem(code, account, now, _) => RedeemedConsistent(d, code, account, now, TrialEnd(addDays, d, e));
  }

  lemma CreatedConsistent(d: Data, c: Campaign)
    requires Consistent(d)
    ensures Consistent(d.(campaigns := d.campaigns[c.id := c]))
  {
  }

  lemma GeneratedConsistent(d: Data, code: Code, campaign: string, now: int)
    requires Consistent(d) && code !in d.promos && campaign in d.campaigns
    ensures Consistent(d.(promos := d.promos[code := Promo(code, campaign, false, None, now)]))
  {
    assert code !in d.redemptions;
  }

  lemma RedeemedConsistent(d: Data, code: Code, account: string, now: int, end: int)
    requires Consistent(d) && code in d.promos
    ensures var p := d.promos[code];
      Consistent(d.(promos := d.promos[code := p.(redeemed := true, redeemedAt := Some(now))],
                    redemptions := d.redemptions[code := Redemption(code, p.campaign, account, now, end)]))
  {
  }

  /** Over every run, with saves that fail and restarts at any point: memory is exactly the last successful save, and a
      promo is marked redeemed exactly when it has a redemption record. */
  lemma {:induction false} MemoryIsLastSave(addDays: (int, int) -> int, events: seq<Event>)
    ensures var s := Run(addDays, events); s.mem == s.disk && Consistent(s.mem)
  {
    if |events| > 0 {
      var init, e := events[..|events| - 1], events[|events| - 1];
      MemoryIsLastSave(addDays, init);
      var d := Run(addDays, init).mem;
      if Attempts(d, e) {
        RollbackUndoes(addDays, d, e);
        ChangedConsistent(addDays, d, e);
      }
    }
  }

  // ---- At most one redemption per code ----

  ghost predicate RedeemedAt(addDays: (int, int) -> int, events: seq<Event>, i: nat, code: Code) {
    i < |events| && events[i].Redeem? && events[i].code == code && Succeeds(Run(addDays, events[..i]).mem, events[i])
  }

  /** A redeemed code stays redeemed, with the same record. */
  lemma {:induction false} RedeemedForGood(addDays: (int, int) -> int, events: seq<Event>, i: nat, m: nat, code: Code)
    requires RedeemedAt(addDays, events, i, code) && i < m <= |events|
    ensures var d := Run(addDays, events[..m]).mem;
      && code in d.promos && d.promos[code].redeemed && code in d.redemptions
      && d.redemptions[code].account == events[i].account && d.redemptions[code].redeemedAt == events[i].now
    decreases m
  {
    assert events[..m][..m - 1] == events[..m - 1];
    var e, d := events[m - 1], Run(addDays, events[..m - 1]).mem;
    MemoryIsLastSave(addDays, events[..m - 1]);
    if i < m - 1 {
      RedeemedForGood(addDays, events, i, m - 1, code);
      if Attempts(d, e) {
        RollbackUndoes(addDays, d, e);
      }
    }
  }

  /** Each code is redeemed successfully at most once over every run. */
  lemma RedeemedOnce(addDays: (int, int) -> int, events: seq<Event>, i: nat, j: nat, code: Code)
    requires RedeemedAt(addDays, events, i, code) && RedeemedAt(addDays, events, j, code)
    ensures i == j
  {
    if i < j {
      RedeemedForGood(addDays, events, i, j, code);
    } else if j < i {
      RedeemedForGood(addDays, events, j, i, code);
    }
  }

  /** A redemption record is always the record of a successful redemption. */
  lemma {:induction false} RecordHasCause(addDays: (int, int) -> int, events: seq<Event>, code: Code) returns (i: nat)
    requires code in Run(addDays, events).mem.redemptions
    ensures RedeemedAt(addDays, events, i, code)
  {
    var n := |events| - 1;
    var init, e := events[..n], events[n];
    MemoryIsLastSave(addDays, init);
    var d := Run(addDays, init).mem;
    if Attempts(d, e) {
      RollbackUndoes(addDays, d, e);
    }
    if code in d.redemptions {
      i := RecordHasCause(addDays, init, code);
      assert events[..i] == init[..i];
    } else {
      i := n;
    }
  }

  // ---- Statistics ----

  function GeneratedFor(d: Data, campaign: string): set<Code> {
    set c | c in d.promos && d.promos[c].campaign == campaign
  }

  function RedeemedFor(d: Data, campaign: string): set<Code> {
    set c | c in d.promos && d.promos[c].campaign == campaign && d.promos[c].redeemed
  }

  /** Of some codes those of a campaign, or only its redeemed ones. */
  function Among(promos: map<Code, Promo>, codes: set<Code>, campaign: string, redeemed: bool): set<Code>
    requires codes <= promos.Keys
  {
    set c | c in codes && promos[c].campaign == campaign && (redeemed ==> promos[c].redeemed)
  }

  lemma OneMore(promos: map<Code, Promo>, codes: set<Code>, c: Code, campaign: string, redeemed: bool)
    requires codes <= promos.Keys && c in promos && c !in codes
    ensures |Among(promos, codes + {c}, campaign, redeemed)| == |Among(promos, codes, campaign, redeemed)| +
            if promos[c].campaign == campaign && (redeemed ==> promos[c].redeemed) then 1 else 0
  {
    assert Among(promos, codes + {c}, campaign, redeemed) == Among(promos, codes, campaign, redeemed) +
           if promos[c].campaign == campaign && (redeemed ==> promos[c].redeemed) then {c} else {};
  }

  function RecordsFor(d: Data, campaign: string): set<Code> {
    set c | c in d.redemptions && d.redemptions[c].campaign == campaign
  }

  /** After every run a campaign's redeemed count is its number of redemption records, and at most its generated
      count. */
  lemma StatsAgree(addDays: (int, int) -> int, events: seq<Event>, campaign: string)
    ensures var d := Run(addDays, events).mem;
      |RedeemedFor(d, campaign)| == |RecordsFor(d, campaign)| <= |GeneratedFor(d, campaign)|
  {
    MemoryIsLastSave(addDays, events);
    var d := Run(addDays, events).mem;
    assert RedeemedFor(d, campaign) == RecordsFor(d, campaign);
    SubsetSize(RedeemedFor(d, campaign), GeneratedFor(d, campaign));
  }

  // ---- The object ----

  class Store {
    const addDays: (int, int) -> int
    var campaigns: map<string, Campaign>
    var promos: map<Code, Promo>
    var redemptions: map<Code, Redemption>
    var disk: Data

    function Mem(): Data
      reads this
    {
      Data(campaigns, promos, redemptions)
    }

    ghost function Abstract(): State
      reads this
    {
      State(Mem(), disk)
    }

    /** NewStore and load: memory is what the file holds. */
    constructor (addDays: (int, int) -> int, file: Data)
      ensures this.addDays == addDays && Abstract() == State(file, file)
    {
      this.addDays := addDays;
      disk := file;
      campaigns, promos, redemptions := file.campaigns, file.promos, file.redemptions;
    }

    /** save. */
    method Save(works: bool) returns (ok: bool)
      modifies this`disk
      ensures ok == works && disk == if works then Mem() else old(disk)
    {
      if works {
        disk := Mem();
      }
      ok := works;
    }

    method CreateCampaign(id: string, name: string, source: string, trialDays: int, nodeLimit: int,
                          expiresAt: Option<int>, now: int, saved: bool)
      returns (ok: bool)
      modifies this
      ensures var e := Create(id, name, source, trialDays, nodeLimit, expiresAt, now, saved);
        ok == Succeeds(old(Mem()), e) && Abstract() == Next(addDays, old(Abstract()), e)
    {
      if id in campaigns || name == "" || trialDays <= 0 || nodeLimit <= 0 {
        return false;
      }
      campaigns := campaigns[id := Campaign(id, name, source, now, expiresAt, trialDays, nodeLimit)];
      ok := Save(saved);
      if !ok {
        campaigns := campaigns - {id};
      }
    }

    method GeneratePromo(campaign: string, seed: string, code: Code, now: int, saved: bool) returns (ok: bool)
      modifies this
      ensures var e := Generate(campaign, seed, code, now, saved);
        ok == Succeeds(old(Mem()), e) && Abstract() == Next(addDays, old(Abstract()), e)
    {
      if campaign !in campaigns {
        return false;
      }
      if Expired(campaigns[campaign], now) {
        return false;
      }
      if campaign == "" || seed == "" {
        return false;
      }
      if code in promos {
        return false;
      }
      promos := promos[code := Promo(code, campaign, false, None, now)];
      ok := Save(saved);
      if !ok {
        promos := promos - {code};
      }
    }

    /** RedeemCode: on success the campaign and the end of the trial. A code on which validation panics leaves the store
        as it was. */
    method RedeemCode(code: Code, account: string, now: int, saved: bool) returns (r: RedeemResult)
      modifies this
      ensures var e := Redeem(code, account, now, saved);
        && (r.Redeemed? <==> Succeeds(old(Mem()), e))
        && (r.Panicked? <==> Judged(code).OutOfBounds?)
        && (r.Redeemed? ==> code in redemptions && redemptions[code].campaign in campaigns &&
                            r == Redeemed(campaigns[redemptions[code].campaign], redemptions[code].trialEndsAt))
        && Abstract() == Next(addDays, old(Abstract()), e)
    {
      var verdict := ValidateCode(code);
      if verdict.OutOfBounds? {
        return Panicked;
      }
      if !verdict.Accepted? || code !in promos {
        return Refused;
      }
      var promo := promos[code];
      if promo.redeemed || promo.campaign !in campaigns {
        return Refused;
      }
      var campaign := campaigns[promo.campaign];
      if Expired(campaign, now) {
        return Refused;
      }
      promos := promos[code := promo.(redeemed := true, redeemedAt := Some(now))];
      var trialEndsAt := addDays(now, campaign.trialDays);
      redemptions := redemptions[code := Redemption(code, promo.campaign, account, now, trialEndsAt)];
      var ok := Save(saved);
      if !ok {
        promos := promos[code := promos[code].(redeemed := false, redeemedAt := None)];
        redemptions := redemptions - {code};
        return Refused;
      }
      return Redeemed(campaign, trialEndsAt);
    }

    method GetCampaignStats(campaign: string) returns (generated: nat, redeemed: nat)
      ensures generated == |GeneratedFor(Mem(), campaign)| && redeemed == |RedeemedFor(Mem(), campaign)|
    {
      generated, redeemed := 0, 0;
      var todo := promos.Keys;
      ghost var done: set<Code> := {};
      while todo != {}
        invariant todo !! done && todo + done == promos.Keys
        invariant generated == |Among(promos, done, campaign, false)|
        invariant redeemed == |Among(promos, done, campaign, true)|
        decreases |todo|
      {
        var c :| c in todo;
        OneMore(promos, done, c, campaign, false);
        OneMore(promos, done, c, campaign, true);
        todo, done := todo - {c}, done + {c};
        if promos[c].campaign == campaign {
          generated := generated + 1;
          if promos[c].redeemed {
            redeemed := redeemed + 1;
          }
        }
      }
      assert Among(promos, done, campaign, false) == GeneratedFor(Mem(), campaign);
      assert Among(promos, done, campaign, true) == RedeemedFor(Mem(), campaign);
    }

    method GetRedemptions(campaign: string) returns (out: seq<Redemption>)
      ensures |out| == |RecordsFor(Mem(), campaign)|
      ensures Elements(out) == set c | c in RecordsFor(Mem(), campaign) :: redemptions[c]
    {
      out := [];
      var todo := redemptions.Keys;
      ghost var seen: set<Code> := {};
      while todo != {}
        invariant todo <= redemptions.Keys
        invariant seen == (set c | c in redemptions && c !in todo && redemptions[c].campaign == campaign)
        invariant |out| == |seen|
        invariant Elements(out) == set c | c in seen :: redemptions[c]
        decreases |todo|
      {
        var c :| c in todo;
        todo := todo - {c};
        if redemptions[c].campaign == campaign {
          ghost var before := out;
          out := out + [redemptions[c]];
          seen := seen + {c};
          assert Elements(out) == Elements(before) + {redemptions[c]};
        }
      }
      assert seen == RecordsFor(Mem(), campaign);
    }
  }
}
