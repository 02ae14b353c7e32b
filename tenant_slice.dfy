/**
  The front end's tenant store: the user's tenants, the selected tenant and
  its dashboard, the loading flags and the last error.  Each reducer case is
  a method that edits the store in place; the HTTP calls that produce the
  payloads are not modelled.
 */
module TenantSlice {
  import opened Common
  import opened SliceLists

  datatype TenantResponse = TenantResponse(id: string, name: string, email: string, status: string)

  datatype TenantDashboard = TenantDashboard(totalCvs: int, totalMatches: int, totalCampaigns: int,
                                             totalEmailsSent: int, totalEmailsFailed: int, smtpConfigured: bool,
                                             campaignStatusCounts: map<string, int>)

  function TenantKey(t: TenantResponse): string
  {
    t.id
  }

  /** Every field of the store at one moment. */
  datatype TenantState = TenantState(
    tenants: seq<TenantResponse>,
    currentTenant: Option<TenantResponse>,
    dashboard: Option<TenantDashboard>,
    loading: bool,
    dashboardLoading: bool,
    error: Option<string>)

  const InitialState := TenantState([], None, None, false, false, None)

  /** fetchTenants.fulfilled's selection: the first fetched tenant, but only when none is selected. */
  function SelectAfterFetch(current: Option<TenantResponse>, fetched: seq<TenantResponse>): (r: Option<TenantResponse>)
    ensures current.Some? ==> r == current
    ensures current.None? ==> (r.Some? <==> |fetched| > 0)
    ensures current.None? && r.Some? ==> r.value == fetched[0]
  {
    if current.None? && |fetched| > 0 then Some(fetched[0]) else current
  }

  /**
    deleteTenant.fulfilled's selection, given the tenants that remain: the
    deleted tenant, if selected, gives way to the first remaining one, or to
    nothing.
   */
  function SelectAfterDelete(current: Option<TenantResponse>, id: string, remaining: seq<TenantResponse>): (r: Option<TenantResponse>)
    ensures r != current ==> current.Some? && current.value.id == id
    ensures r.Some? && r != current ==> r.value in remaining
    ensures current.Some? && current.value.id == id && |remaining| == 0 ==> r.None?
  {
    if current.Some? && current.value.id == id then
      (if |remaining| > 0 then Some(remaining[0]) else None)
    else current
  }

  class TenantStore {
    var tenants: seq<TenantResponse>
    var currentTenant: Option<TenantResponse>
    var dashboard: Option<TenantDashboard>
    var loading: bool
    var dashboardLoading: bool
    var error: Option<string>

    function State(): TenantState
      reads this
    {
      TenantState(tenants, currentTenant, dashboard, loading, dashboardLoading, error)
    }

    constructor ()
      ensures State() == InitialState
    {
      tenants := [];
      currentTenant := None;
      dashboard := None;
      loading := false;
      dashboardLoading := false;
      error := None;
    }

    /** setCurrentTenant: the selection changes and the old tenant's dashboard is dropped. */
    method SetCurrentTenant(t: Option<TenantResponse>)
      modifies this
      ensures State() == old(State()).(currentTenant := t, dashboard := None)
    {
      currentTenant := t;
      dashboard := None;
    }

    method ClearTenantError()
      modifies this
      ensures State() == old(State()).(error := None)
    {
      error := None;
    }

    method ClearTenantState()
      modifies this
      ensures State() == old(State()).(tenants := [], currentTenant := None, dashboard := None, error := None)
    {
      tenants := [];
      currentTenant := None;
      dashboard := None;
      error := None;
    }

    method FetchTenantsPending()
      modifies this
      ensures State() == old(State()).(loading := true, error := None)
    {
      loading := true;
      error := None;
    }

    /** fetchTenants.fulfilled: the list is replaced and the first tenant selected if none was. */
    method FetchTenantsFulfilled(fetched: seq<TenantResponse>)
      modifies this
      ensures State() == old(State()).(loading := false, tenants := fetched,
                                      currentTenant := SelectAfterFetch(old(currentTenant), fetched))
    {
      loading := false;
      tenants := fetched;
      if currentTenant.None? && |fetched| > 0 {
        currentTenant := Some(fetched[0]);
      }
    }

    method FetchTenantsRejected(message: string)
      modifies this
      ensures State() == old(State()).(loading := false, error := Some(message))
    {
      loading := false;
      error := Some(message);
    }

    method CreateTenantPending()
      modifies this
      ensures State() == old(State()).(loading := true, error := None)
    {
      loading := true;
      error := None;
    }

    /** createTenant.fulfilled: the new tenant is appended and selected (the dashboard is kept). */
    method CreateTenantFulfilled(t: TenantResponse)
      modifies this
      ensures State() == old(State()).(loading := false, tenants := old(tenants) + [t], currentTenant := Some(t))
    {
      loading := false;
      tenants := tenants + [t];
      currentTenant := Some(t);
    }

    method CreateTenantRejected(message: string)
      modifies this
      ensures State() == old(State()).(loading := false, error := Some(message))
    {
      loading := false;
      error := Some(message);
    }

    /** deleteTenant.fulfilled: the tenant leaves the list and, if selected, the selection. */
    method DeleteTenantFulfilled(id: string)
      modifies this
      ensures State() == old(State()).(tenants := RemoveAll(old(tenants), TenantKey, id),
                                      currentTenant := SelectAfterDelete(old(currentTenant), id, RemoveAll(old(tenants), TenantKey, id)))
    {
      tenants := RemoveAll(tenants, TenantKey, id);
      if currentTenant.Some? && currentTenant.value.id == id {
        currentTenant := if |tenants| > 0 then Some(tenants[0]) else None;
      }
    }

    method FetchDashboardPending()
      modifies this
      ensures State() == old(State()).(dashboardLoading := true)
    {
      dashboardLoading := true;
    }

    method FetchDashboardFulfilled(d: TenantDashboard)
      modifies this
      ensures State() == old(State()).(dashboardLoading := false, dashboard := Some(d))
    {
      dashboardLoading := false;
      dashboard := Some(d);
    }

    method FetchDashboardRejected(message: string)
      modifies this
      ensures State() == old(State()).(dashboardLoading := false, error := Some(message))
    {
      dashboardLoading := false;
      error := Some(message);
    }
  }

  // ---------------------------------------------------------------------
  // Properties of the selection

  /** The selection after a fetch is one of the fetched tenants, unless it was already made. */
  lemma FetchSelectsListed(current: Option<TenantResponse>, fetched: seq<TenantResponse>)
    ensures current.None? && SelectAfterFetch(current, fetched).Some? ==> SelectAfterFetch(current, fetched).value in fetched
  {
  }

  /**
    After a delete the selection never has the deleted id, and a selection
    that was a listed tenant (or nothing) is a remaining tenant (or nothing).
   */
  lemma DeleteKeepsSelectionListed(tenants: seq<TenantResponse>, current: Option<TenantResponse>, id: string)
    ensures var r := SelectAfterDelete(current, id, RemoveAll(tenants, TenantKey, id));
            r.Some? ==> r.value.id != id
    ensures var r := SelectAfterDelete(current, id, RemoveAll(tenants, TenantKey, id));
            (current.Some? ==> current.value in tenants) ==> (r.Some? ==> r.value in RemoveAll(tenants, TenantKey, id))
    ensures current.Some? && current.value.id != id ==> SelectAfterDelete(current, id, RemoveAll(tenants, TenantKey, id)) == current
  {
    var remaining := RemoveAll(tenants, TenantKey, id);
    if current.Some? && current.value.id != id && current.value in tenants {
      var j :| 0 <= j < |tenants| && tenants[j] == current.value;
    }
  }

  /**
    Creating a tenant with a new id and deleting it again gives back the
    list, with the first of the earlier tenants (or nothing) selected.
   */
  lemma DeleteUndoesCreate(tenants: seq<TenantResponse>, t: TenantResponse)
    requires forall j :: 0 <= j < |tenants| ==> tenants[j].id != t.id
    ensures RemoveAll(tenants + [t], TenantKey, t.id) == tenants
    ensures SelectAfterDelete(Some(t), t.id, tenants) == (if |tenants| > 0 then Some(tenants[0]) else None)
  {
    RemoveAfterAppend(tenants, t, TenantKey);
  }
}
