/** What a promo store accepts over whole runs, told from the calls that succeeded before (pkg/promo/store.go). */
module PromoRuns {
  import opened Strings
  import opened PromoCode
  import opened PromoStore

  type Days = (int, int) -> int

  /** The call at i reported success. */
  ghost predicate Done(addDays: Days, events: seq<Event>, i: nat) {
    i < |events| && Succeeds(Run(addDays, events[..i]).mem, events[i])
  }

  ghost predicate Created(addDays: Days, events: seq<Event>, i: nat, id: string) {
    Done(addDays, events, i) && events[i].Create? && events[i].id == id
  }

  ghost predicate Generated(addDays: Days, events: seq<Event>, i: nat, code: Code) {
    Done(addDays, events, i) && events[i].Generate? && events[i].code == code
  }

  /** A call changes memory exactly when it reports success. */
  lemma StepIs(addDays: Days, events: seq<Event>, m: nat)
    requires m < |events|
    ensures Run(addDays, events[..m + 1]).mem ==
      if Done(addDays, events, m) then Changed(addDays, Run(addDays, events[..m]).mem, events[m])
      else Run(addDays, events[..m]).mem
  {
    assert events[..m + 1][..m] == events[..m];
    MemoryIsLastSave(addDays, events[..m]);
    var d := Run(addDays, events[..m]).mem;
    if Attempts(d, events[m]) {
      RollbackUndoes(addDays, d, events[m]);
    }
  }

  // ---- What memory holds ----

  lemma {:induction false} CampaignKept(addDays: Days, events: seq<Event>, i: nat, m: nat, id: string)
    requires Created(addDays, events, i, id) && i < m <= |events|
    ensures var e, d := events[i], Run(addDays, events[..m]).mem;
      id in d.campaigns && d.campaigns[id] ==
        Campaign(id, e.name, e.source, e.now, e.expiresAt, e.trialDays, e.nodeLimit)
    decreases m
  {
    StepIs(addDays, events, m - 1);
    if i < m - 1 {
      CampaignKept(addDays, events, i, m - 1, id);
    }
  }

  lemma {:induction false} CampaignHasCause(addDays: Days, events: seq<Event>, m: nat, id: string)
    requires m <= |events| && id in Run(addDays, events[..m]).mem.campaigns
    ensures exists i | 0 <= i < m :: Created(addDays, events, i, id)
  {
    if m > 0 {
      StepIs(addDays, events, m - 1);
      if Created(addDays, events, m - 1, id) {
        assert 0 <= m - 1 < m;
      } else {
        CampaignHasCause(addDays, events, m - 1, id);
        var i :| 0 <= i < m - 1 && Created(addDays, events, i, id);
      }
    }
  }

  lemma {:induction false} PromoKept(addDays: Days, events: seq<Event>, i: nat, m: nat, code: Code)
    requires Generated(addDays, events, i, code) && i < m <= |events|
    ensures var d := Run(addDays, events[..m]).mem;
      code in d.promos && d.promos[code].campaign == events[i].campaign && d.promos[code].createdAt == events[i].now
    decreases m
  {
    StepIs(addDays, events, m - 1);
    if i < m - 1 {
      PromoKept(addDays, events, i, m - 1, code);
    }
  }

  lemma {:induction false} PromoHasCause(addDays: Days, events: seq<Event>, m: nat, code: Code)
    requires m <= |events| && code in Run(addDays, events[..m]).mem.promos
    ensures exists i | 0 <= i < m :: Generated(addDays, events, i, code)
  {
    if m > 0 {
      StepIs(addDays, events, m - 1);
      if Generated(addDays, events, m - 1, code) {
        assert 0 <= m - 1 < m;
      } else {
        PromoHasCause(addDays, events, m - 1, code);
        var i :| 0 <= i < m - 1 && Generated(addDays, events, i, code);
      }
    }
  }

  // ---- What succeeds ----

  /** A campaign created by event i still runs at this time. */
  ghost predicate Running(e: Event, now: int) {
    e.Create? && (e.expiresAt.None? || now <= e.expiresAt.value)
  }

  /** Some event before j created the campaign, and it still runs at that point. */
  ghost predicate RunsAt(addDays: Days, events: seq<Event>, j: nat, campaign: string)
    requires j < |events| && !events[j].Restart?
  {
    exists i | 0 <= i < j :: Created(addDays, events, i, campaign) && Running(events[i], events[j].now)
  }

  lemma RunsAtIff(addDays: Days, events: seq<Event>, j: nat, campaign: string)
    requires j < |events| && !events[j].Restart?
    ensures var d := Run(addDays, events[..j]).mem;
      RunsAt(addDays, events, j, campaign) <==>
      campaign in d.campaigns && !Expired(d.campaigns[campaign], events[j].now)
  {
    var d := Run(addDays, events[..j]).mem;
    if campaign in d.campaigns {
      CampaignHasCause(addDays, events, j, campaign);
    }
    forall i | 0 <= i < j && Created(addDays, events, i, campaign)
      ensures campaign in d.campaigns && (Expired(d.campaigns[campaign], events[j].now) <==>
                                          !Running(events[i], events[j].now))
    {
      CampaignKept(addDays, events, i, j, campaign);
    }
  }

  /** Over every run, creating a campaign succeeds exactly when its name and limits are given, the save works, and no
      campaign of that id was created before. */
  lemma CreateIff(addDays: Days, events: seq<Event>, j: nat)
    requires j < |events| && events[j].Create?
    ensures var e := events[j];
      Done(addDays, events, j) <==>
      (&& e.saved && e.name != "" && e.trialDays >= 1 && e.nodeLimit >= 1
       && forall i | 0 <= i < j :: !Created(addDays, events, i, e.id))
  {
    var id := events[j].id;
    if id in Run(addDays, events[..j]).mem.campaigns {
      CampaignHasCause(addDays, events, j, id);
    }
    forall i | 0 <= i < j && Created(addDays, events, i, id) ensures id in Run(addDays, events[..j]).mem.campaigns {
      CampaignKept(addDays, events, i, j, id);
    }
  }

  /** Over every run, generating a promo succeeds exactly when a seed is given, its campaign was created and still runs,
      the save works, and the code is new. */
  lemma GenerateIff(addDays: Days, events: seq<Event>, j: nat)
    requires j < |events| && events[j].Generate?
    ensures var e := events[j];
      Done(addDays, events, j) <==>
      (&& e.saved && e.campaign != "" && e.seed != "" && RunsAt(addDays, events, j, e.campaign)
       && forall i | 0 <= i < j :: !Generated(addDays, events, i, e.code))
  {
    var code := events[j].code;
    RunsAtIff(addDays, events, j, events[j].campaign);
    if code in Run(addDays, events[..j]).mem.promos {
      PromoHasCause(addDays, events, j, code);
    }
    forall i | 0 <= i < j && Generated(addDays, events, i, code) ensures code in Run(addDays, events[..j]).mem.promos {
      PromoKept(addDays, events, i, j, code);
    }
  }

  /** Over every run, redeeming a code succeeds exactly when the code is valid, was generated for a campaign that still
      runs, was not redeemed before, and the save works. */
  lemma RedeemIff(addDays: Days, events: seq<Event>, j: nat)
    requires j < |events| && events[j].Redeem?
    ensures var e := events[j];
      Done(addDays, events, j) <==>
      (&& e.saved && Judged(e.code).Accepted?
       && (exists g | 0 <= g < j :: Generated(addDays, events, g, e.code)
                                    && RunsAt(addDays, events, j, events[g].campaign))
       && forall i | 0 <= i < j :: !RedeemedAt(addDays, events, i, e.code))
  {
    var code, d := events[j].code, Run(addDays, events[..j]).mem;
    MemoryIsLastSave(addDays, events[..j]);
    if code in d.promos {
      PromoHasCause(addDays, events, j, code);
      RunsAtIff(addDays, events, j, d.promos[code].campaign);
    }
    forall g | 0 <= g < j && Generated(addDays, events, g, code)
      ensures code in d.promos && d.promos[code].campaign == events[g].campaign
    {
      PromoKept(addDays, events, g, j, code);
    }
    RedeemedIff(addDays, events, j, code);
  }

  /** A code is marked redeemed exactly when an earlier call redeemed it. */
  lemma RedeemedIff(addDays: Days, events: seq<Event>, m: nat, code: Code)
    requires m <= |events|
    ensures var d := Run(addDays, events[..m]).mem;
      (code in d.promos && d.promos[code].redeemed) <==>
      exists i | 0 <= i < m :: RedeemedAt(addDays, events, i, code)
  {
    var d := Run(addDays, events[..m]).mem;
    MemoryIsLastSave(addDays, events[..m]);
    if code in d.promos && d.promos[code].redeemed {
      var i := RecordHasCause(addDays, events[..m], code);
      assert events[..m][..i] == events[..i];
      assert RedeemedAt(addDays, events, i, code);
    }
    forall i | 0 <= i < m && RedeemedAt(addDays, events, i, code) ensures code in d.promos && d.promos[code].redeemed {
      RedeemedForGood(addDays, events, i, m, code);
    }
  }

  /** The trial a redemption grants ends the days after it that the campaign was created with. */
  lemma TrialGranted(addDays: Days, events: seq<Event>, i: nat, g: nat, j: nat, m: nat)
    requires j < m <= |events| && events[j].Redeem? && Done(addDays, events, j)
    requires g < j && Generated(addDays, events, g, events[j].code)
    requires i < j && Created(addDays, events, i, events[g].campaign)
    ensures var d := Run(addDays, events[..m]).mem;
      events[j].code in d.redemptions && d.redemptions[events[j].code] ==
        Redemption(events[j].code, events[g].campaign, events[j].account, events[j].now,
                   addDays(events[j].now, events[i].trialDays))
    decreases m
  {
    StepIs(addDays, events, m - 1);
    if j == m - 1 {
      PromoKept(addDays, events, g, j, events[j].code);
      CampaignKept(addDays, events, i, j, events[g].campaign);
    } else {
      TrialGranted(addDays, events, i, g, j, m - 1);
      assert RedeemedAt(addDays, events, j, events[j].code);
      RedeemedIff(addDays, events, m - 1, events[j].code);
    }
  }
}
