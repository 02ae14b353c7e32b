/**
  The campaign scheduler: once a minute it asks the campaign table for the
  SCHEDULED campaigns whose time has come and hands each, in the order the
  query returns them, to the asynchronous executeCampaign.  A hand-off that
  throws (the executor refusing the hand-off) is logged and the loop goes on.
  The hand-offs are recorded in order; the executions themselves happen
  elsewhere (EmailCampaignService.CampaignEngine.ExecuteCampaign).
 */
module EmailCampaignScheduler {
  import opened Common
  import opened Entities
  import opened Repositories

  /** The ids the loop hands off, in order: those of the due campaigns the executor accepts. */
  function TriggeredIds(due: seq<EmailCampaign>, accepted: Uuid -> bool): (r: seq<Uuid>)
    ensures |r| <= |due|
    ensures forall k :: 0 <= k < |r| ==> accepted(r[k]) && exists i :: 0 <= i < |due| && due[i].id == r[k]
    ensures forall i :: 0 <= i < |due| && accepted(due[i].id) ==> due[i].id in r
    decreases |due|
  {
    if due == [] then []
    else
      var front := due[..|due| - 1];
      var last := due[|due| - 1];
      assert forall i :: 0 <= i < |due| - 1 ==> front[i] == due[i];
      TriggeredIds(front, accepted) + (if accepted(last.id) then [last.id] else [])
  }

  /** Distinct due campaigns are handed off at most once each. */
  lemma {:induction false} TriggeredOnce(due: seq<EmailCampaign>, accepted: Uuid -> bool)
    requires UniqueBy(due, CampaignKey)
    ensures forall j, k :: 0 <= j < k < |TriggeredIds(due, accepted)| ==>
              TriggeredIds(due, accepted)[j] != TriggeredIds(due, accepted)[k]
    decreases |due|
  {
    if due != [] {
      var front := due[..|due| - 1];
      var last := due[|due| - 1];
      assert UniqueBy(front, CampaignKey) by {
        forall a, b | 0 <= a < |front| && 0 <= b < |front| && a != b
          ensures CampaignKey(front[a]) != CampaignKey(front[b])
        {
          assert front[a] == due[a] && front[b] == due[b];
        }
      }
      TriggeredOnce(front, accepted);
      var ids := TriggeredIds(front, accepted);
      forall k | 0 <= k < |ids|
        ensures ids[k] != last.id
      {
        var i :| 0 <= i < |front| && front[i].id == ids[k];
        assert front[i] == due[i];
        assert CampaignKey(due[i]) != CampaignKey(due[|due| - 1]);
      }
    }
  }

  /**
    One run over the whole table: the ids handed off are exactly those of
    the stored campaigns that are due and whose hand-off is accepted, each
    handed off once.
   */
  lemma DueTriggeredOnce(repo: EmailCampaignRepository, now: Time, scan: seq<Uuid>, accepted: Uuid -> bool)
    requires repo.Valid() && repo.ScanOrder(scan)
    ensures forall id :: id in TriggeredIds(repo.FindScheduledCampaigns(now, scan), accepted) <==>
              id in repo.campaigns && IsDue(repo.campaigns[id], now) && accepted(id)
    ensures forall j, k :: 0 <= j < k < |TriggeredIds(repo.FindScheduledCampaigns(now, scan), accepted)| ==>
              TriggeredIds(repo.FindScheduledCampaigns(now, scan), accepted)[j] !=
              TriggeredIds(repo.FindScheduledCampaigns(now, scan), accepted)[k]
  {
    var due := repo.FindScheduledCampaigns(now, scan);
    var ids := TriggeredIds(due, accepted);
    TriggeredOnce(due, accepted);
    forall id | id in repo.campaigns && IsDue(repo.campaigns[id], now) && accepted(id)
      ensures id in ids
    {
      var i :| 0 <= i < |due| && due[i] == repo.campaigns[id];
      assert due[i].id == id;
    }
  }

  /** One more due campaign adds its id exactly when the executor accepts it. */
  lemma TriggeredStep(due: seq<EmailCampaign>, i: int, accepted: Uuid -> bool)
    requires 0 <= i < |due|
    ensures accepted(due[i].id) ==> TriggeredIds(due[..i + 1], accepted) == TriggeredIds(due[..i], accepted) + [due[i].id]
    ensures !accepted(due[i].id) ==> TriggeredIds(due[..i + 1], accepted) == TriggeredIds(due[..i], accepted)
  {
    assert due[..i + 1][..i] == due[..i];
  }

  /** The loop over the due campaigns: the ids of those whose hand-off is accepted, in order. */
  method HandOff(due: seq<EmailCampaign>, accepted: Uuid -> bool) returns (handedOff: seq<Uuid>)
    ensures handedOff == TriggeredIds(due, accepted)
  {
    handedOff := [];
    var i := 0;
    while i < |due|
      invariant 0 <= i <= |due|
      invariant handedOff == TriggeredIds(due[..i], accepted)
    {
      TriggeredStep(due, i, accepted);
      if accepted(due[i].id) {
        handedOff := handedOff + [due[i].id];
      }
      i := i + 1;
    }
    assert due[..i] == due;
  }

  class CampaignScheduler {
    const campaigns: EmailCampaignRepository
    /** The executeCampaign hand-offs made so far, oldest first. */
    var triggered: seq<Uuid>

    constructor (campaigns: EmailCampaignRepository)
      ensures this.campaigns == campaigns && triggered == []
    {
      this.campaigns := campaigns;
      triggered := [];
    }

    /**
      processScheduledCampaigns at clock reading now: every due campaign,
      in query order, is handed off; a refused hand-off is skipped.
     */
    method ProcessScheduledCampaigns(now: Time, scan: seq<Uuid>, accepted: Uuid -> bool)
      requires campaigns.Valid() && campaigns.ScanOrder(scan)
      modifies this
      ensures triggered == old(triggered) + TriggeredIds(campaigns.FindScheduledCampaigns(now, scan), accepted)
      ensures forall id :: id in triggered[|old(triggered)|..] <==>
                id in campaigns.campaigns && IsDue(campaigns.campaigns[id], now) && accepted(id)
      ensures forall j, k :: |old(triggered)| <= j < k < |triggered| ==> triggered[j] != triggered[k]
    {
      var due := campaigns.FindScheduledCampaigns(now, scan);
      var handedOff := HandOff(due, accepted);
      DueTriggeredOnce(campaigns, now, scan, accepted);
      triggered := triggered + handedOff;
      assert triggered[|old(triggered)|..] == handedOff;
    }
  }
}
