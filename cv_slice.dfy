/**
  The front end's CV store: the listed CVs with their pagination, the CV on
  screen, the id of the CV being parsed, and the loading flags and last
  error.  Each reducer case is a method that edits the store in place; the
  HTTP calls that produce the payloads are not modelled.
 */
module CvSlice {
  import opened Common
  import opened SliceLists

  datatype CvResponse = CvResponse(id: string, originalFilename: string, fileSizeBytes: int, mimeType: string,
                                   parsingStatus: string, keywordCount: Option<int>)

  function CvKey(cv: CvResponse): string
  {
    cv.id
  }

  /** Every field of the store at one moment. */
  datatype CvState = CvState(
    cvs: seq<CvResponse>,
    currentCv: Option<CvResponse>,
    parsingCvId: Option<string>,
    pagination: Pagination,
    loading: bool,
    uploading: bool,
    error: Option<string>)

  const InitialState := CvState([], None, None, Pagination(0, 10, 0, 0), false, false, None)

  /** `state.currentCV?.id === id`: a CV is on screen and has that id. */
  predicate Shows(current: Option<CvResponse>, id: string)
  {
    current.Some? && current.value.id == id
  }

  class CvStore {
    var cvs: seq<CvResponse>
    var currentCv: Option<CvResponse>
    var parsingCvId: Option<string>
    var pagination: Pagination
    var loading: bool
    var uploading: bool
    var error: Option<string>

    function State(): CvState
      reads this
    {
      CvState(cvs, currentCv, parsingCvId, pagination, loading, uploading, error)
    }

    constructor ()
      ensures State() == InitialState
    {
      cvs := [];
      currentCv := None;
      parsingCvId := None;
      pagination := Pagination(0, 10, 0, 0);
      loading := false;
      uploading := false;
      error := None;
    }

    method SetCurrentCv(cv: Option<CvResponse>)
      modifies this
      ensures State() == old(State()).(currentCv := cv)
    {
      currentCv := cv;
    }

    method ClearCvError()
      modifies this
      ensures State() == old(State()).(error := None)
    {
      error := None;
    }

    /** clearCVState: list, selection and error emptied; parsingCVId and pagination kept. */
    method ClearCvState()
      modifies this
      ensures State() == old(State()).(cvs := [], currentCv := None, error := None)
    {
      cvs := [];
      currentCv := None;
      error := None;
    }

    /** updateCVInList: the first listed copy is replaced, and the shown CV when it has that id. */
    method UpdateCvInList(cv: CvResponse)
      modifies this
      ensures State() == old(State()).(cvs := ReplaceFirst(old(cvs), cv, CvKey),
                                      currentCv := if Shows(old(currentCv), cv.id) then Some(cv) else old(currentCv))
    {
      var index := FindIndex(cvs, CvKey, cv.id);
      if index != -1 {
        cvs := cvs[index := cv];
      }
      if currentCv.Some? && currentCv.value.id == cv.id {
        currentCv := Some(cv);
      }
    }

    method ClearParsingCvId()
      modifies this
      ensures State() == old(State()).(parsingCvId := None)
    {
      parsingCvId := None;
    }

    method FetchCvsPending()
      modifies this
      ensures State() == old(State()).(loading := true, error := None)
    {
      loading := true;
      error := None;
    }

    method FetchCvsFulfilled(page: Page<CvResponse>)
      modifies this
      ensures State() == old(State()).(loading := false, cvs := page.content, pagination := PaginationOf(page))
    {
      loading := false;
      cvs := page.content;
      pagination := Pagination(page.number, page.size, page.totalElements, page.totalPages);
    }

    method FetchCvsRejected(message: string)
      modifies this
      ensures State() == old(State()).(loading := false, error := Some(message))
    {
      loading := false;
      error := Some(message);
    }

    method FetchCvFulfilled(cv: CvResponse)
      modifies this
      ensures State() == old(State()).(currentCv := Some(cv))
    {
      currentCv := Some(cv);
    }

    method UploadCvPending()
      modifies this
      ensures State() == old(State()).(uploading := true, error := None)
    {
      uploading := true;
      error := None;
    }

    /** uploadCV.fulfilled: the new CV goes first in the list and is the one being parsed. */
    method UploadCvFulfilled(cv: CvResponse)
      modifies this
      ensures State() == old(State()).(uploading := false, cvs := [cv] + old(cvs), parsingCvId := Some(cv.id))
    {
      uploading := false;
      cvs := [cv] + cvs;
      parsingCvId := Some(cv.id);
    }

    method UploadCvRejected(message: string)
      modifies this
      ensures State() == old(State()).(uploading := false, error := Some(message))
    {
      uploading := false;
      error := Some(message);
    }

    /** deleteCV.fulfilled: every listed CV with the id goes, and the shown one if it has it. */
    method DeleteCvFulfilled(id: string)
      modifies this
      ensures State() == old(State()).(cvs := RemoveAll(old(cvs), CvKey, id),
                                      currentCv := if Shows(old(currentCv), id) then None else old(currentCv))
    {
      cvs := RemoveAll(cvs, CvKey, id);
      if currentCv.Some? && currentCv.value.id == id {
        currentCv := None;
      }
    }

    /** parseCV.pending: the argument is the CV being parsed. */
    method ParseCvPending(id: string)
      modifies this
      ensures State() == old(State()).(parsingCvId := Some(id))
    {
      parsingCvId := Some(id);
    }

    method ParseCvRejected()
      modifies this
      ensures State() == old(State()).(parsingCvId := None)
    {
      parsingCvId := None;
    }
  }

  // ---------------------------------------------------------------------
  // Properties of the list edits

  /** Deleting a freshly uploaded CV whose id was not listed gives back the list from before the upload. */
  lemma DeleteUndoesUpload(cv: CvResponse, s: seq<CvResponse>)
    requires forall j :: 0 <= j < |s| ==> s[j].id != cv.id
    ensures RemoveAll([cv] + s, CvKey, cv.id) == s
  {
    RemoveAfterPrepend(cv, s, CvKey);
  }

  /** After a delete no listed CV has the id, and every other CV is still listed. */
  lemma DeleteRemovesExactly(s: seq<CvResponse>, id: string)
    ensures forall j :: 0 <= j < |RemoveAll(s, CvKey, id)| ==> RemoveAll(s, CvKey, id)[j].id != id
    ensures forall cv :: cv in s ==> (cv in RemoveAll(s, CvKey, id) <==> cv.id != id)
  {
    var r := RemoveAll(s, CvKey, id);
    forall cv | cv in s
      ensures cv in r <==> cv.id != id
    {
      var j :| 0 <= j < |s| && s[j] == cv;
      if cv in r {
        var k :| 0 <= k < |r| && r[k] == cv;
      }
    }
  }

  /** An update for a CV that is not listed leaves the list as it is. */
  lemma UpdateOfUnlistedCv(s: seq<CvResponse>, cv: CvResponse)
    requires forall j :: 0 <= j < |s| ==> s[j].id != cv.id
    ensures ReplaceFirst(s, cv, CvKey) == s
  {
    ReplaceFirstChangesOne(s, cv, CvKey);
  }
}
