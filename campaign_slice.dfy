/**
  The front end's campaign store: the listed campaigns with their
  pagination, the campaign on screen, its email logs with theirs, and the
  loading flags and last error.  Each reducer case is a method that edits
  the store in place; the HTTP calls that produce the payloads are not
  modelled, their outcomes arrive as arguments.
 */
module CampaignSlice {
  import opened Common
  import opened SliceLists

  datatype CampaignResponse = CampaignResponse(id: string, name: string, subject: string, minMatchScore: int,
                                               status: string, totalRecipients: int, sentCount: int, failedCount: int)

  datatype EmailLogResponse = EmailLogResponse(id: string, recipientEmail: string, subject: string, status: string,
                                               errorMessage: Option<string>, retryCount: int)

  function CampaignKey(c: CampaignResponse): string
  {
    c.id
  }

  /** Every field of the store at one moment. */
  datatype CampaignState = CampaignState(
    campaigns: seq<CampaignResponse>,
    currentCampaign: Option<CampaignResponse>,
    logs: seq<EmailLogResponse>,
    pagination: Pagination,
    logsPagination: Pagination,
    loading: bool,
    creating: bool,
    executing: bool,
    logsLoading: bool,
    error: Option<string>)

  /** initialState: empty lists, pages of 10 campaigns and of 20 logs, nothing loading. */
  const InitialState := CampaignState([], None, [], Pagination(0, 10, 0, 0), Pagination(0, 20, 0, 0),
                                      false, false, false, false, None)

  class CampaignStore {
    var campaigns: seq<CampaignResponse>
    var currentCampaign: Option<CampaignResponse>
    var logs: seq<EmailLogResponse>
    var pagination: Pagination
    var logsPagination: Pagination
    var loading: bool
    var creating: bool
    var executing: bool
    var logsLoading: bool
    var error: Option<string>

    function State(): CampaignState
      reads this
    {
      CampaignState(campaigns, currentCampaign, logs, pagination, logsPagination,
                    loading, creating, executing, logsLoading, error)
    }

    constructor ()
      ensures State() == InitialState
    {
      campaigns := [];
      currentCampaign := None;
      logs := [];
      pagination := Pagination(0, 10, 0, 0);
      logsPagination := Pagination(0, 20, 0, 0);
      loading := false;
      creating := false;
      executing := false;
      logsLoading := false;
      error := None;
    }

    method SetCurrentCampaign(c: Option<CampaignResponse>)
      modifies this
      ensures State() == old(State()).(currentCampaign := c)
    {
      currentCampaign := c;
    }

    method ClearCampaignError()
      modifies this
      ensures State() == old(State()).(error := None)
    {
      error := None;
    }

    /** clearCampaignState: lists, selection and error emptied; pagination and flags kept. */
    method ClearCampaignState()
      modifies this
      ensures State() == old(State()).(campaigns := [], currentCampaign := None, logs := [], error := None)
    {
      campaigns := [];
      currentCampaign := None;
      logs := [];
      error := None;
    }

    method FetchCampaignsPending()
      modifies this
      ensures State() == old(State()).(loading := true, error := None)
    {
      loading := true;
      error := None;
    }

    /** fetchCampaigns.fulfilled: the page's content and position replace list and pagination. */
    method FetchCampaignsFulfilled(page: Page<CampaignResponse>)
      modifies this
      ensures State() == old(State()).(loading := false, campaigns := page.content, pagination := PaginationOf(page))
    {
      loading := false;
      campaigns := page.content;
      pagination := Pagination(page.number, page.size, page.totalElements, page.totalPages);
    }

    method FetchCampaignsRejected(message: string)
      modifies this
      ensures State() == old(State()).(loading := false, error := Some(message))
    {
      loading := false;
      error := Some(message);
    }

    /** fetchCampaign.fulfilled: the campaign is shown and refreshes its first listed copy, if any. */
    method FetchCampaignFulfilled(c: CampaignResponse)
      modifies this
      ensures State() == old(State()).(currentCampaign := Some(c), campaigns := ReplaceFirst(old(campaigns), c, CampaignKey))
    {
      currentCampaign := Some(c);
      var index := FindIndex(campaigns, CampaignKey, c.id);
      if index != -1 {
        campaigns := campaigns[index := c];
      }
    }

    method CreateCampaignPending()
      modifies this
      ensures State() == old(State()).(creating := true, error := None)
    {
      creating := true;
      error := None;
    }

    /** createCampaign.fulfilled: the new campaign goes first in the list and is shown. */
    method CreateCampaignFulfilled(c: CampaignResponse)
      modifies this
      ensures State() == old(State()).(creating := false, campaigns := [c] + old(campaigns), currentCampaign := Some(c))
    {
      creating := false;
      campaigns := [c] + campaigns;
      currentCampaign := Some(c);
    }

    method CreateCampaignRejected(message: string)
      modifies this
      ensures State() == old(State()).(creating := false, error := Some(message))
    {
      creating := false;
      error := Some(message);
    }

    /** The executeCampaign cases touch the executing flag (and the error on rejection) only. */
    method ExecuteCampaignPending()
      modifies this
      ensures State() == old(State()).(executing := true)
    {
      executing := true;
    }

    method ExecuteCampaignFulfilled()
      modifies this
      ensures State() == old(State()).(executing := false)
    {
      executing := false;
    }

    method ExecuteCampaignRejected(message: string)
      modifies this
      ensures State() == old(State()).(executing := false, error := Some(message))
    {
      executing := false;
      error := Some(message);
    }

    method FetchCampaignLogsPending()
      modifies this
      ensures State() == old(State()).(logsLoading := true)
    {
      logsLoading := true;
    }

    /** fetchCampaignLogs.fulfilled: the page's logs and position replace the log list and its pagination. */
    method FetchCampaignLogsFulfilled(page: Page<EmailLogResponse>)
      modifies this
      ensures State() == old(State()).(logsLoading := false, logs := page.content, logsPagination := PaginationOf(page))
    {
      logsLoading := false;
      logs := page.content;
      logsPagination := Pagination(page.number, page.size, page.totalElements, page.totalPages);
    }

    method FetchCampaignLogsRejected(message: string)
      modifies this
      ensures State() == old(State()).(logsLoading := false, error := Some(message))
    {
      logsLoading := false;
      error := Some(message);
    }
  }

  // ---------------------------------------------------------------------
  // Properties of the list edits

  /**
    A campaign fetched right after it was created refreshes the front of the
    list, whatever the list held with that id further down.
   */
  lemma FetchAfterCreate(created: CampaignResponse, fetched: CampaignResponse, s: seq<CampaignResponse>)
    requires fetched.id == created.id
    ensures ReplaceFirst([created] + s, fetched, CampaignKey) == [fetched] + s
  {
    assert FindIndex([created] + s, CampaignKey, fetched.id) == 0;
    assert ([created] + s)[0 := fetched] == [fetched] + s;
  }

  /** With unique ids in the list, a fetched campaign replaces its one listed copy and leaves the others. */
  lemma FetchRefreshesListedCopy(s: seq<CampaignResponse>, c: CampaignResponse)
    requires UniqueBy(s, CampaignKey)
    ensures |ReplaceFirst(s, c, CampaignKey)| == |s|
    ensures UniqueBy(ReplaceFirst(s, c, CampaignKey), CampaignKey)
    ensures forall j :: 0 <= j < |s| ==>
              ReplaceFirst(s, c, CampaignKey)[j] == (if s[j].id == c.id then c else s[j])
  {
    ReplaceFirstKeepsIds(s, c, CampaignKey);
    ReplaceFirstInUnique(s, c, CampaignKey);
  }
}
