/**
  CVService: upload validation, the parsing pipeline of a stored CV (text,
  AI keywords, de-duplication, rank weights, keyword rows, status) and the
  deletion of a CV with its data.
 */
module CvService {
  import opened Common
  import opened Entities
  import opened Repositories
  import FS = FileStorageService
  import DTE = DocumentTextExtractor
  import ORS = OpenRouterService
  import MS = MatchingService

  // ---------------------------------------------------------------------
  // validateFile

  function DigitChar(d: int): char
    requires 0 <= d < 10
  {
    "0123456789"[d]
  }

  /** The decimal digits of a natural number. */
  function Digits(n: nat): string
    decreases n
  {
    if n < 10 then [DigitChar(n)] else Digits(n / 10) + [DigitChar(n % 10)]
  }

  /** Long.toString. */
  function DecimalString(n: int): string
  {
    if n < 0 then "-" + Digits(-n) else Digits(n)
  }

  /** String concatenation of a possibly null String. */
  function Shown(s: Option<string>): string
  {
    if s.Some? then s.value else "null"
  }

  const MegaByte: int := 1024 * 1024

  /**
    validateFile: the message of the IllegalArgumentException it throws, or
    None when the file is accepted.
   */
  function ValidationError(file: Option<FS.UploadedFile>, allowedTypes: Option<string>, maxSizeMb: int): (r: Option<string>)
    ensures (file.None? || file.value.content == []) <==> r == Some("File cannot be empty")
    ensures file.Some? && file.value.content != [] && !FS.IsValidFileType(file, allowedTypes) ==>
              r == Some("Invalid file type. Allowed types: " + Shown(allowedTypes))
    ensures r.None? <==>
              file.Some? && file.value.content != [] && FS.IsValidFileType(file, allowedTypes) &&
              |file.value.content| <= maxSizeMb * MegaByte
    ensures file.Some? && file.value.content != [] && FS.IsValidFileType(file, allowedTypes) &&
            |file.value.content| > maxSizeMb * MegaByte ==>
              r == Some("File size exceeds maximum allowed: " + DecimalString(maxSizeMb) + "MB")
  {
    if file.None? || |file.value.content| == 0 then Some("File cannot be empty")
    else if !FS.IsValidFileType(file, allowedTypes) then Some("Invalid file type. Allowed types: " + Shown(allowedTypes))
    else
      var maxSizeBytes := maxSizeMb * MegaByte;
      if |file.value.content| > maxSizeBytes then
        Some("File size exceeds maximum allowed: " + DecimalString(maxSizeMb) + "MB")
      else None
  }

  /** filePath.substring(filePath.lastIndexOf('/') + 1). */
  function StoredFilename(filePath: string): string
  {
    filePath[LastIndexOf(filePath, '/') + 1..]
  }

  // ---------------------------------------------------------------------
  // De-duplication and rank weights

  /** new ArrayList<>(new LinkedHashSet<>(s)): each element once, at its first occurrence. */
  function Dedup(s: seq<string>): (r: seq<string>)
    ensures UniqueBy(r, MS.KeyOf)
    ensures forall x :: x in r <==> x in s
    ensures |r| <= |s|
  {
    if s == [] then []
    else
      var front := s[..|s| - 1];
      var last := s[|s| - 1];
      var f := Dedup(front);
      assert s == front + [last];
      if last in front then f else f + [last]
  }

  /** The position of the first occurrence of x in s. */
  function FirstIndex(s: seq<string>, x: string): (k: nat)
    requires x in s
    ensures k < |s| && s[k] == x && forall j :: 0 <= j < k ==> s[j] != x
  {
    if s[0] == x then 0 else 1 + FirstIndex(s[1..], x)
  }

  lemma FirstIndexInFront(s: seq<string>, x: string)
    requires |s| > 0 && x in s[..|s| - 1]
    ensures FirstIndex(s, x) == FirstIndex(s[..|s| - 1], x)
  {
    var k := FirstIndex(s[..|s| - 1], x);
    var j := FirstIndex(s, x);
    assert s[k] == x;
  }

  /** The kept elements appear in the order of their first occurrences. */
  lemma {:induction false} DedupKeepsFirstOrder(s: seq<string>)
    ensures forall i, j :: 0 <= i < j < |Dedup(s)| ==> FirstIndex(s, Dedup(s)[i]) < FirstIndex(s, Dedup(s)[j])
    decreases |s|
  {
    if s != [] {
      var front := s[..|s| - 1];
      var last := s[|s| - 1];
      DedupKeepsFirstOrder(front);
      var f := Dedup(front);
      var r := Dedup(s);
      forall y | y in f
        ensures FirstIndex(s, y) == FirstIndex(front, y)
      {
        FirstIndexInFront(s, y);
      }
      if last !in front {
        assert FirstIndex(s, last) == |s| - 1;
        forall i, j | 0 <= i < j < |r|
          ensures FirstIndex(s, r[i]) < FirstIndex(s, r[j])
        {
          assert r[i] == f[i] && r[i] in f;
          if j < |f| {
            assert r[j] == f[j] && r[j] in f;
          }
        }
      } else {
        forall i, j | 0 <= i < j < |r|
          ensures FirstIndex(s, r[i]) < FirstIndex(s, r[j])
        {
          assert r[i] in f && r[j] in f;
        }
      }
    }
  }

  /** A list without repetitions is left as it is. */
  lemma {:induction false} DedupOfDistinct(s: seq<string>)
    requires UniqueBy(s, MS.KeyOf)
    ensures Dedup(s) == s
    decreases |s|
  {
    if s != [] {
      var front := s[..|s| - 1];
      assert UniqueBy(front, MS.KeyOf) by {
        assert forall i :: 0 <= i < |front| ==> front[i] == s[i];
      }
      DedupOfDistinct(front);
      assert s[|s| - 1] !in front by {
        assert forall i :: 0 <= i < |front| ==> front[i] == s[i] && MS.KeyOf(s[i]) != MS.KeyOf(s[|s| - 1]);
      }
      assert s == front + [s[|s| - 1]];
    }
  }

  /**
    The weight of rank i among n keywords in ten-thousandths:
    1.0 - 0.9 * i / max(1, n - 1), computed exactly, rounded HALF_UP to
    four decimals.
   */
  function RankWeight(i: int, n: int): (r: int)
    requires 0 <= i < n
    ensures 1000 <= r <= WeightScale
  {
    var d := if n - 1 > 1 then n - 1 else 1;
    RoundHalfUpUnique(d * 1000, d, 1000);
    RoundHalfUpUnique(10 * d * 1000, d, WeightScale);
    RoundHalfUpMonotone(d * 1000, (10 * d - 9 * i) * 1000, d);
    RoundHalfUpMonotone((10 * d - 9 * i) * 1000, 10 * d * 1000, d);
    RoundHalfUp((10 * d - 9 * i) * 1000, d)
  }

  /** The first keyword weighs 1.0000. */
  lemma RankWeightFirst(n: int)
    requires n >= 1
    ensures RankWeight(0, n) == WeightScale
  {
    var d := if n - 1 > 1 then n - 1 else 1;
    RoundHalfUpUnique(10 * d * 1000, d, WeightScale);
  }

  /** Of two or more keywords the last weighs 0.1000. */
  lemma RankWeightLast(n: int)
    requires n >= 2
    ensures RankWeight(n - 1, n) == 1000
  {
    var d := if n - 1 > 1 then n - 1 else 1;
    assert (10 * d - 9 * (n - 1)) * 1000 == d * 1000;
    RoundHalfUpUnique(d * 1000, d, 1000);
  }

  /** Weights never increase with the rank, and stay between 0.1000 and 1.0000. */
  lemma RankWeightNonIncreasing(i: int, j: int, n: int)
    requires 0 <= i <= j < n
    ensures RankWeight(j, n) <= RankWeight(i, n)
    ensures 1000 <= RankWeight(j, n) <= WeightScale
  {
    var d := if n - 1 > 1 then n - 1 else 1;
    RoundHalfUpMonotone((10 * d - 9 * j) * 1000, (10 * d - 9 * i) * 1000, d);
    RankWeightFirst(n);
    RoundHalfUpMonotone((10 * d - 9 * j) * 1000, (10 * d - 9 * 0) * 1000, d);
    if n >= 2 {
      RankWeightLast(n);
      RoundHalfUpMonotone((10 * d - 9 * (n - 1)) * 1000, (10 * d - 9 * j) * 1000, d);
    } else {
      assert j == 0;
    }
  }

  /** The row built for keyword i: normalised as kw.toLowerCase().trim(), ranked, frequency 1. */
  function KeywordRow(tenantId: Uuid, cvId: Uuid, kws: seq<string>, i: int, newKeywordId: int -> Uuid): (r: CvKeyword)
    requires 0 <= i < |kws|
    ensures r.cvId == cvId && r.tenantId == tenantId && r.keyword == kws[i]
    ensures IsTrimmed(r.normalizedKeyword) && |r.normalizedKeyword| <= |kws[i]|
    ensures 1000 <= r.weight <= WeightScale && r.frequency == 1
  {
    TrimIsTrimmed(ToLower(kws[i]));
    CvKeyword(newKeywordId(i), tenantId, cvId, kws[i], Trim(ToLower(kws[i])), RankWeight(i, |kws|), 1)
  }

  /** The indexed loop of parseAndExtractKeywords that builds the keyword rows. */
  method BuildKeywordRows(tenantId: Uuid, cvId: Uuid, kws: seq<string>, newKeywordId: int -> Uuid)
    returns (rows: seq<CvKeyword>)
    ensures |rows| == |kws|
    ensures forall i :: 0 <= i < |kws| ==> rows[i] == KeywordRow(tenantId, cvId, kws, i, newKeywordId)
  {
    rows := [];
    var i := 0;
    while i < |kws|
      invariant 0 <= i <= |kws|
      invariant |rows| == i
      invariant forall k :: 0 <= k < i ==> rows[k] == KeywordRow(tenantId, cvId, kws, k, newKeywordId)
    {
      var kw := kws[i];
      var normalized := Trim(ToLower(kw));
      var d := if |kws| - 1 > 1 then |kws| - 1 else 1;
      var weightValue := RoundHalfUp((10 * d - 9 * i) * 1000, d);
      assert weightValue == RankWeight(i, |kws|);
      var row := CvKeyword(newKeywordId(i), tenantId, cvId, kw, normalized, weightValue, 1);
      assert row == KeywordRow(tenantId, cvId, kws, i, newKeywordId);
      rows := rows + [row];
      i := i + 1;
    }
  }

  /** The rows of one CV built from distinct, already normalised keywords have distinct keys. */
  lemma RowsOfNormalizedUnique(tenantId: Uuid, cvId: Uuid, kws: seq<string>, newKeywordId: int -> Uuid,
                               rows: seq<CvKeyword>)
    requires UniqueBy(kws, MS.KeyOf)
    requires forall i :: 0 <= i < |kws| ==> ORS.IsWellFormedKeyword(kws[i])
    requires |rows| == |kws| && forall i :: 0 <= i < |kws| ==> rows[i] == KeywordRow(tenantId, cvId, kws, i, newKeywordId)
    ensures UniqueBy(rows, KeywordKey)
    ensures forall i :: 0 <= i < |rows| ==> rows[i].cvId == cvId && rows[i].normalizedKeyword == rows[i].keyword
  {
    forall i | 0 <= i < |kws|
      ensures Trim(ToLower(kws[i])) == kws[i]
    {
      TrimOfTrimmed(kws[i]);
    }
  }

  /** Keyword rows of other CVs followed by rows of this CV: the CV's rows are exactly the new ones. */
  lemma ReplacedKeywordsOfCv(oldRows: seq<CvKeyword>, cvId: Uuid, added: seq<CvKeyword>)
    requires forall i :: 0 <= i < |added| ==> added[i].cvId == cvId
    ensures KeywordsOfCv(KeywordsWithoutCv(oldRows, cvId) + added, cvId) == added
    ensures KeywordsWithoutCv(KeywordsWithoutCv(oldRows, cvId) + added, cvId) == KeywordsWithoutCv(oldRows, cvId)
  {
    var kept := KeywordsWithoutCv(oldRows, cvId);
    var p := (k: CvKeyword) => k.cvId == cvId;
    var q := (k: CvKeyword) => k.cvId != cvId;
    FilterConcat(kept, added, p);
    FilterConcat(kept, added, q);
    FilterKeepsAll(added, p);
    FilterKeepsAll(kept, q);
    FilterNone(kept, p);
    FilterNone(added, q);
  }

  /**
    Replacing a CV's keyword rows by rows of distinct normalised keywords
    keeps the table's unique constraint.
   */
  lemma ReplacementKeepsUnique(oldRows: seq<CvKeyword>, cvId: Uuid, added: seq<CvKeyword>)
    requires UniqueBy(oldRows, KeywordKey) && UniqueBy(added, KeywordKey)
    requires forall i :: 0 <= i < |added| ==> added[i].cvId == cvId
    ensures UniqueBy(KeywordsWithoutCv(oldRows, cvId) + added, KeywordKey)
  {
    var kept := KeywordsWithoutCv(oldRows, cvId);
    UniqueBySubMultiset(kept, oldRows, KeywordKey);
    var all := kept + added;
    forall i, j | 0 <= i < |all| && 0 <= j < |all| && i != j
      ensures KeywordKey(all[i]) != KeywordKey(all[j])
    {
      if i < |kept| && j >= |kept| {
        assert all[i].cvId != cvId && all[j] == added[j - |kept|];
      } else if i >= |kept| && j < |kept| {
        assert all[j].cvId != cvId && all[i] == added[i - |kept|];
      } else if i >= |kept| {
        assert all[i] == added[i - |kept|] && all[j] == added[j - |kept|];
      }
    }
  }

  // ---------------------------------------------------------------------
  // The service

  /**
    The keywords of a stored CV, or the message of the exception that ends
    the parse: a refused or missing file, or a failed text extraction.
    The AI call is a function of the text (None when it fails).
   */
  function ParsedKeywords(files: FS.FileStorage, cv: Cv, extractFromPdf: Bytes -> Result<string>,
                          extractFromDocx: Bytes -> Result<string>, callAi: string -> Option<string>): (r: Result<seq<string>>)
    requires files.Valid()
    reads files
  {
    match files.RetrieveFile(cv.filePath)
    case Err(e) => Err(e)
    case Ok(fileBytes) =>
      match DTE.ExtractText(fileBytes, cv.mimeType, extractFromPdf, extractFromDocx)
      case Err(e) => Err(e)
      case Ok(extractedText) => Ok(Dedup(ORS.Keywords(callAi(extractedText))))
  }

  /**
    The parse fails exactly when the file cannot be read or its text cannot
    be extracted, with that step's message; the AI call itself never fails
    it, and a successful parse yields the deduplicated keywords of the AI's
    answer for the extracted text.
   */
  lemma ParsedKeywordsOutcome(files: FS.FileStorage, cv: Cv, extractFromPdf: Bytes -> Result<string>,
                              extractFromDocx: Bytes -> Result<string>, callAi: string -> Option<string>)
    requires files.Valid()
    ensures var r := ParsedKeywords(files, cv, extractFromPdf, extractFromDocx, callAi);
            var fileBytes := files.RetrieveFile(cv.filePath);
            && (fileBytes.Err? ==> r == Err(fileBytes.message))
            && (fileBytes.Ok? ==>
                  var text := DTE.ExtractText(fileBytes.value, cv.mimeType, extractFromPdf, extractFromDocx);
                  && (text.Err? ==> r == Err(text.message))
                  && (text.Ok? ==> r == Ok(Dedup(ORS.Keywords(callAi(text.value))))))
  {
  }

  lemma DedupKeepsWellFormed(kws: seq<string>)
    requires forall i :: 0 <= i < |kws| ==> ORS.IsWellFormedKeyword(kws[i])
    ensures forall i :: 0 <= i < |Dedup(kws)| ==> ORS.IsWellFormedKeyword(Dedup(kws)[i])
  {
    forall i | 0 <= i < |Dedup(kws)|
      ensures ORS.IsWellFormedKeyword(Dedup(kws)[i])
    {
      var x := Dedup(kws)[i];
      assert x in kws;
      var j :| 0 <= j < |kws| && kws[j] == x;
    }
  }

  /** The keywords handed to the rows are distinct and normalised. */
  lemma ParsedKeywordsNormalized(files: FS.FileStorage, cv: Cv, extractFromPdf: Bytes -> Result<string>,
                                 extractFromDocx: Bytes -> Result<string>, callAi: string -> Option<string>)
    requires files.Valid()
    ensures var r := ParsedKeywords(files, cv, extractFromPdf, extractFromDocx, callAi);
            r.Ok? ==> UniqueBy(r.value, MS.KeyOf) && forall i :: 0 <= i < |r.value| ==> ORS.IsWellFormedKeyword(r.value[i])
  {
    var fileBytes := files.RetrieveFile(cv.filePath);
    if fileBytes.Ok? {
      var text := DTE.ExtractText(fileBytes.value, cv.mimeType, extractFromPdf, extractFromDocx);
      if text.Ok? {
        var kws := ORS.Keywords(callAi(text.value));
        ORS.KeywordsWellFormed(callAi(text.value));
        DedupKeepsWellFormed(kws);
      }
    }
  }

  /**
    What parseAndExtractKeywords leaves behind for the CV cv, given the
    outcome of reading, extracting and asking the AI: on an error the CV is
    FAILED and the keyword and match tables are as they were; on success the
    CV is COMPLETED at now, its keyword rows are exactly one rank-weighted
    row per keyword in order, and other CVs' keyword rows are kept.
   */
  ghost predicate ParseApplied(cv: Cv, outcome: Result<seq<string>>, now: Time, newKeywordId: int -> Uuid,
                               cvsBefore: map<Uuid, Cv>, cvsAfter: map<Uuid, Cv>,
                               kwBefore: seq<CvKeyword>, kwAfter: seq<CvKeyword>,
                               matchesBefore: seq<MatchResult>, matchesAfter: seq<MatchResult>)
    ensures ParseApplied(cv, outcome, now, newKeywordId, cvsBefore, cvsAfter, kwBefore, kwAfter, matchesBefore, matchesAfter) ==>
              && cv.id in cvsAfter
              && cvsAfter[cv.id].parsingStatus == (if outcome.Ok? then ParsingStatus.Completed else ParsingStatus.Failed)
              && (outcome.Ok? ==> cvsAfter[cv.id].parsedAt == Some(now))
  {
    && (outcome.Err? ==>
          && cvsAfter == cvsBefore[cv.id := cv.(parsingStatus := ParsingStatus.Failed)]
          && kwAfter == kwBefore && matchesAfter == matchesBefore)
    && (outcome.Ok? ==>
          && cvsAfter == cvsBefore[cv.id := cv.(parsingStatus := ParsingStatus.Completed, parsedAt := Some(now))]
          && |KeywordsOfCv(kwAfter, cv.id)| == |outcome.value|
          && (forall i :: 0 <= i < |outcome.value| ==>
                KeywordsOfCv(kwAfter, cv.id)[i] == KeywordRow(cv.tenantId, cv.id, outcome.value, i, newKeywordId))
          && KeywordsWithoutCv(kwAfter, cv.id) == KeywordsWithoutCv(kwBefore, cv.id))
  }

  /** Marking the CV IN_PROGRESS first does not show in the end state: the final save overwrites it. */
  lemma ParseAppliedOverMark(cv: Cv, outcome: Result<seq<string>>, now: Time, newKeywordId: int -> Uuid,
                             before: map<Uuid, Cv>, marked: map<Uuid, Cv>, after: map<Uuid, Cv>,
                             kwBefore: seq<CvKeyword>, kwAfter: seq<CvKeyword>,
                             matchesBefore: seq<MatchResult>, matchesAfter: seq<MatchResult>)
    requires marked == before[cv.id := cv.(parsingStatus := ParsingStatus.InProgress)]
    requires ParseApplied(cv, outcome, now, newKeywordId, marked, after, kwBefore, kwAfter, matchesBefore, matchesAfter)
    ensures ParseApplied(cv, outcome, now, newKeywordId, before, after, kwBefore, kwAfter, matchesBefore, matchesAfter)
  {
    if outcome.Err? {
      assert marked[cv.id := cv.(parsingStatus := ParsingStatus.Failed)] == before[cv.id := cv.(parsingStatus := ParsingStatus.Failed)];
    } else {
      assert marked[cv.id := cv.(parsingStatus := ParsingStatus.Completed, parsedAt := Some(now))] ==
             before[cv.id := cv.(parsingStatus := ParsingStatus.Completed, parsedAt := Some(now))];
    }
  }

  class CvServiceState {
    const cvs: CvRepository
    const keywords: CvKeywordRepository
    const matches: MatchResultRepository
    const storage: FS.FileStorage
    const matching: MS.Matching
    /** The configured allow-list (cv.allowed-types) and size limit (cv.max-size-mb). */
    const allowedTypes: Option<string>
    const maxSizeMb: int

    constructor (cvs: CvRepository, keywords: CvKeywordRepository, matches: MatchResultRepository,
                 storage: FS.FileStorage, matching: MS.Matching, allowedTypes: Option<string>, maxSizeMb: int)
      requires matching.cvs == cvs && matching.keywords == keywords && matching.matches == matches
      ensures this.cvs == cvs && this.keywords == keywords && this.matches == matches
      ensures this.storage == storage && this.matching == matching
      ensures this.allowedTypes == allowedTypes && this.maxSizeMb == maxSizeMb
      ensures Wired()
    {
      this.cvs := cvs;
      this.keywords := keywords;
      this.matches := matches;
      this.storage := storage;
      this.matching := matching;
      this.allowedTypes := allowedTypes;
      this.maxSizeMb := maxSizeMb;
    }

    /** The matching service works on the same repositories. */
    predicate Wired()
    {
      matching.cvs == cvs && matching.keywords == keywords && matching.matches == matches
    }

    /** The unique constraints of the tables, and a usable storage root. */
    predicate Valid()
      reads cvs, keywords, matches, matching.professors
    {
      cvs.Valid() && keywords.Valid() && matches.Valid() && matching.professors.Valid() && storage.Valid()
    }

    /**
      uploadCV: the file is validated, stored as "<tenant>/<uuid><ext>" and
      recorded as a PENDING CV whose storedFilename is the text after the
      path's last '/'.  A failure after validation (the write, or a null
      name or content type the table refuses) becomes "CV upload failed";
      the stored file then stays on disk.
     */
    method UploadCv(file: Option<FS.UploadedFile>, tenantId: Uuid, userProfileId: Uuid,
                    randomUuid: string, writeSucceeds: bool, newCvId: Uuid) returns (r: Result<Cv>)
      requires storage.Valid()
      modifies cvs, storage
      ensures ValidationError(file, allowedTypes, maxSizeMb).Some? ==>
                r == Err(ValidationError(file, allowedTypes, maxSizeMb).value) &&
                cvs.cvs == old(cvs.cvs) && storage.files == old(storage.files)
      ensures ValidationError(file, allowedTypes, maxSizeMb).None? && !writeSucceeds ==>
                r == Err("CV upload failed") && cvs.cvs == old(cvs.cvs)
      ensures r.Ok? ==>
                && ValidationError(file, allowedTypes, maxSizeMb).None? && writeSucceeds
                && var f := file.value;
                   var path := tenantId + "/" + randomUuid + FS.GetFileExtension(f.originalFilename);
                   && f.originalFilename.Some? && f.contentType.Some?
                   && r.value == Cv(newCvId, tenantId, userProfileId, f.originalFilename.value, StoredFilename(path),
                                    path, |f.content|, f.contentType.value, ParsingStatus.Pending, None)
                   && cvs.cvs == old(cvs.cvs)[newCvId := r.value]
      ensures r.Err? ==> cvs.cvs == old(cvs.cvs)
      ensures storage.Valid()
      ensures ValidationError(file, allowedTypes, maxSizeMb).None? && writeSucceeds ==>
                storage.files == old(storage.files)[storage.Target(tenantId + "/" + randomUuid +
                                   FS.GetFileExtension(file.value.originalFilename)).names := file.value.content]
      ensures !writeSucceeds ==> storage.files == old(storage.files)
    {
      var invalid := ValidationError(file, allowedTypes, maxSizeMb);
      if invalid.Some? {
        return Err(invalid.value);
      }
      r := StoreAndRecord(file.value, tenantId, userProfileId, randomUuid, writeSucceeds, newCvId);
    }

    /**
      The part of uploadCV after validation: the write, then the PENDING row.
      The write comes first, so a file whose row is refused (a null name or
      content type) stays on disk.
     */
    method StoreAndRecord(f: FS.UploadedFile, tenantId: Uuid, userProfileId: Uuid,
                          randomUuid: string, writeSucceeds: bool, newCvId: Uuid) returns (r: Result<Cv>)
      requires storage.Valid()
      modifies cvs, storage
      ensures !writeSucceeds ==> r == Err("CV upload failed")
      ensures r.Ok? ==>
                && writeSucceeds
                && var path := tenantId + "/" + randomUuid + FS.GetFileExtension(f.originalFilename);
                   && f.originalFilename.Some? && f.contentType.Some?
                   && r.value == Cv(newCvId, tenantId, userProfileId, f.originalFilename.value, StoredFilename(path),
                                    path, |f.content|, f.contentType.value, ParsingStatus.Pending, None)
                   && cvs.cvs == old(cvs.cvs)[newCvId := r.value]
      ensures r.Err? ==> cvs.cvs == old(cvs.cvs)
      ensures storage.Valid()
      ensures writeSucceeds ==>
                storage.files == old(storage.files)[storage.Target(tenantId + "/" + randomUuid +
                                   FS.GetFileExtension(f.originalFilename)).names := f.content]
      ensures !writeSucceeds ==> storage.files == old(storage.files)
    {
      var stored := storage.StoreFile(f, tenantId, randomUuid, writeSucceeds);
      if stored.Err? || f.originalFilename.None? || f.contentType.None? {
        return Err("CV upload failed");
      }
      var filePath := stored.value;
      var cv := Cv(newCvId, tenantId, userProfileId, f.originalFilename.value, StoredFilename(filePath),
                   filePath, |f.content|, f.contentType.value, ParsingStatus.Pending, None);
      cvs.Save(cv);
      r := Ok(cv);
    }

    /**
      parseAndExtractKeywords: the CV is marked IN_PROGRESS; its file is read
      and its text sent to the AI; the keywords, de-duplicated, replace the
      CV's keyword rows with rank weights; the CV is marked COMPLETED with
      parsedAt and its matches are computed.  Any exception on the way marks
      it FAILED.  written lists the statuses saved, in order.
     */
    method ParseAndExtractKeywords(cvId: Uuid, extractFromPdf: Bytes -> Result<string>,
                                   extractFromDocx: Bytes -> Result<string>, callAi: string -> Option<string>,
                                   now: Time, newKeywordId: int -> Uuid, newMatchId: Uuid -> Uuid)
      returns (written: seq<ParsingStatus>)
      requires Valid() && Wired()
      requires MS.FreshIds(newMatchId, matches.rows)
      modifies cvs, keywords, matches
      ensures Valid()
      ensures cvId !in old(cvs.cvs) ==>
                written == [] && cvs.cvs == old(cvs.cvs) && keywords.rows == old(keywords.rows) && matches.rows == old(matches.rows)
      ensures cvId in old(cvs.cvs) ==>
                var cv := old(cvs.cvs)[cvId];
                var outcome := ParsedKeywords(storage, cv, extractFromPdf, extractFromDocx, callAi);
                && written == [ParsingStatus.InProgress, if outcome.Ok? then ParsingStatus.Completed else ParsingStatus.Failed]
                && ParseApplied(cv, outcome, now, newKeywordId, old(cvs.cvs), cvs.cvs, old(keywords.rows), keywords.rows,
                                old(matches.rows), matches.rows)
      ensures forall i :: 0 <= i < |old(matches.rows)| && old(matches.rows)[i].cvId != cvId ==>
                |matches.rows| >= |old(matches.rows)| && matches.rows[i] == old(matches.rows)[i]
      ensures cvId in old(cvs.cvs) && written == [ParsingStatus.InProgress, ParsingStatus.Completed] ==>
                matches.rows == matching.AfterCompute(old(matches.rows), cvId, old(cvs.cvs)[cvId].tenantId, newMatchId)
    {
      written := [];
      if cvId !in cvs.cvs {
        return;
      }
      var cv := cvs.cvs[cvId];
      ghost var before := cvs.cvs;
      cvs.Save(cv.(parsingStatus := ParsingStatus.InProgress));
      ghost var marked := cvs.cvs;
      var completed := RunParse(cv, extractFromPdf, extractFromDocx, callAi, now, newKeywordId, newMatchId);
      written := [ParsingStatus.InProgress, if completed then ParsingStatus.Completed else ParsingStatus.Failed];
      ParseAppliedOverMark(cv, ParsedKeywords(storage, cv, extractFromPdf, extractFromDocx, callAi), now, newKeywordId,
                           before, marked, cvs.cvs, old(keywords.rows), keywords.rows, old(matches.rows), matches.rows);
    }

    /**
      The steps of parseAndExtractKeywords after the CV is marked
      IN_PROGRESS, with the catch block; the result tells whether the parse
      completed.
     */
    method RunParse(cv: Cv, extractFromPdf: Bytes -> Result<string>,
                    extractFromDocx: Bytes -> Result<string>, callAi: string -> Option<string>,
                    now: Time, newKeywordId: int -> Uuid, newMatchId: Uuid -> Uuid)
      returns (completed: bool)
      requires Valid() && Wired() && cv.id in cvs.cvs
      requires MS.FreshIds(newMatchId, matches.rows)
      modifies cvs, keywords, matches
      ensures Valid()
      ensures var outcome := ParsedKeywords(storage, cv, extractFromPdf, extractFromDocx, callAi);
              && completed == outcome.Ok?
              && ParseApplied(cv, outcome, now, newKeywordId, old(cvs.cvs), cvs.cvs, old(keywords.rows), keywords.rows,
                              old(matches.rows), matches.rows)
      ensures forall i :: 0 <= i < |old(matches.rows)| && old(matches.rows)[i].cvId != cv.id ==>
                |matches.rows| >= |old(matches.rows)| && matches.rows[i] == old(matches.rows)[i]
      ensures completed ==> matches.rows == matching.AfterCompute(old(matches.rows), cv.id, cv.tenantId, newMatchId)
    {
      var aiKeywords := ReadKeywords(cv, extractFromPdf, extractFromDocx, callAi);
      if aiKeywords.Err? {
        FailParse(cv, aiKeywords, now, newKeywordId);
        return false;
      }
      ParsedKeywordsNormalized(storage, cv, extractFromPdf, extractFromDocx, callAi);
      CompleteParse(cv, aiKeywords.value, now, newKeywordId, newMatchId);
      completed := true;
    }

    /**
      The reading steps of parseAndExtractKeywords: the file is retrieved,
      its text extracted, the AI's answer cleaned into keywords and those
      deduplicated; the first exception ends the chain.
     */
    method ReadKeywords(cv: Cv, extractFromPdf: Bytes -> Result<string>,
                        extractFromDocx: Bytes -> Result<string>, callAi: string -> Option<string>)
      returns (r: Result<seq<string>>)
      requires storage.Valid()
      ensures r == ParsedKeywords(storage, cv, extractFromPdf, extractFromDocx, callAi)
    {
      var fileBytes := storage.RetrieveFile(cv.filePath);
      if fileBytes.Err? {
        return Err(fileBytes.message);
      }
      var extractedText := DTE.ExtractText(fileBytes.value, cv.mimeType, extractFromPdf, extractFromDocx);
      if extractedText.Err? {
        return Err(extractedText.message);
      }
      var aiKeywordsRaw := ORS.ExtractKeywords(callAi(extractedText.value));
      r := Ok(Dedup(aiKeywordsRaw));
    }

    /** The catch block as a whole: only the CV table changes. */
    method FailParse(cv: Cv, outcome: Result<seq<string>>, now: Time, newKeywordId: int -> Uuid)
      requires Valid() && cv.id in cvs.cvs && outcome.Err?
      modifies cvs
      ensures Valid()
      ensures ParseApplied(cv, outcome, now, newKeywordId, old(cvs.cvs), cvs.cvs, keywords.rows, keywords.rows,
                           matches.rows, matches.rows)
    {
      MarkFailed(cv);
    }

    /** The catch block: the CV, found again, is saved as FAILED; parsedAt stays. */
    method MarkFailed(cv: Cv)
      requires cvs.Valid() && cv.id in cvs.cvs
      modifies cvs
      ensures cvs.Valid()
      ensures cvs.cvs == old(cvs.cvs)[cv.id := cv.(parsingStatus := ParsingStatus.Failed)]
    {
      cvs.Save(cv.(parsingStatus := ParsingStatus.Failed));
    }

    /**
      The successful end of parseAndExtractKeywords: the keyword rows are
      replaced, the CV saved as COMPLETED with parsedAt, and the matches of
      the CV computed.
     */
    method CompleteParse(cv: Cv, kws: seq<string>, now: Time, newKeywordId: int -> Uuid, newMatchId: Uuid -> Uuid)
      requires Valid() && Wired() && cv.id in cvs.cvs
      requires MS.FreshIds(newMatchId, matches.rows)
      requires UniqueBy(kws, MS.KeyOf) && forall i :: 0 <= i < |kws| ==> ORS.IsWellFormedKeyword(kws[i])
      modifies cvs, keywords, matches
      ensures Valid()
      ensures cvs.cvs == old(cvs.cvs)[cv.id := cv.(parsingStatus := ParsingStatus.Completed, parsedAt := Some(now))]
      ensures |KeywordsOfCv(keywords.rows, cv.id)| == |kws|
      ensures forall i :: 0 <= i < |kws| ==> KeywordsOfCv(keywords.rows, cv.id)[i] == KeywordRow(cv.tenantId, cv.id, kws, i, newKeywordId)
      ensures KeywordsWithoutCv(keywords.rows, cv.id) == KeywordsWithoutCv(old(keywords.rows), cv.id)
      ensures forall i :: 0 <= i < |old(matches.rows)| && old(matches.rows)[i].cvId != cv.id ==>
                |matches.rows| >= |old(matches.rows)| && matches.rows[i] == old(matches.rows)[i]
      ensures ParseApplied(cv, Ok(kws), now, newKeywordId, old(cvs.cvs), cvs.cvs, old(keywords.rows), keywords.rows,
                           old(matches.rows), matches.rows)
      ensures matches.rows == matching.AfterCompute(old(matches.rows), cv.id, cv.tenantId, newMatchId)
    {
      ReplaceKeywords(cv.id, cv.tenantId, kws, newKeywordId);
      var completed := cv.(parsingStatus := ParsingStatus.Completed, parsedAt := Some(now));
      cvs.Save(completed);
      MatchParsed(cv, newMatchId);
    }

    /** computeMatches for the CV just parsed: the rows of other CVs stay where they were. */
    method MatchParsed(cv: Cv, newMatchId: Uuid -> Uuid)
      requires Valid() && Wired()
      requires MS.FreshIds(newMatchId, matches.rows)
      modifies matches
      ensures Valid()
      ensures matches.rows == matching.AfterCompute(old(matches.rows), cv.id, cv.tenantId, newMatchId)
      ensures forall i :: 0 <= i < |old(matches.rows)| && old(matches.rows)[i].cvId != cv.id ==>
                |matches.rows| >= |old(matches.rows)| && matches.rows[i] == old(matches.rows)[i]
    {
      matching.ComputeKeepsUnmatched(matches.rows, cv.id, cv.tenantId, newMatchId);
      matching.ComputeMatches(cv.id, cv.tenantId, newMatchId);
    }

    /**
      The keyword part of parseAndExtractKeywords: the CV's rows are deleted,
      then one row per keyword is inserted; rows of other CVs stay.
     */
    method ReplaceKeywords(cvId: Uuid, tenantId: Uuid, kws: seq<string>, newKeywordId: int -> Uuid)
      requires keywords.Valid()
      requires UniqueBy(kws, MS.KeyOf) && forall i :: 0 <= i < |kws| ==> ORS.IsWellFormedKeyword(kws[i])
      modifies keywords
      ensures keywords.Valid()
      ensures keywords.rows == KeywordsWithoutCv(old(keywords.rows), cvId) + KeywordsOfCv(keywords.rows, cvId)
      ensures |KeywordsOfCv(keywords.rows, cvId)| == |kws|
      ensures forall i :: 0 <= i < |kws| ==> KeywordsOfCv(keywords.rows, cvId)[i] == KeywordRow(tenantId, cvId, kws, i, newKeywordId)
      ensures KeywordsWithoutCv(keywords.rows, cvId) == KeywordsWithoutCv(old(keywords.rows), cvId)
    {
      ghost var before := keywords.rows;
      keywords.DeleteByCvId(cvId);
      var rows := BuildKeywordRows(tenantId, cvId, kws, newKeywordId);
      RowsOfNormalizedUnique(tenantId, cvId, kws, newKeywordId, rows);
      ReplacementKeepsUnique(before, cvId, rows);
      ReplacedKeywordsOfCv(before, cvId, rows);
      keywords.SaveAll(rows);
    }

    /**
      deleteCV: a CV not found for the tenant is refused; otherwise its file
      is deleted (any failure there is ignored), then its keyword rows, its
      match results and the CV itself.  The tables of the other services are
      parameters: when an email log points at one of the CV's results, or a
      campaign at the CV, the database refuses the delete and the whole
      transaction rolls back, leaving every table as it was and the file
      deleted.
     */
    method DeleteCv(cvId: Uuid, tenantId: Uuid, campaignTable: EmailCampaignRepository, logTable: EmailLogRepository)
      returns (r: Result<()>)
      requires Valid()
      modifies cvs, keywords, matches, storage
      ensures Valid()
      ensures old(cvs.FindByIdAndTenantId(cvId, tenantId)).None? ==>
                && r == Err("CV not found or access denied")
                && cvs.cvs == old(cvs.cvs) && keywords.rows == old(keywords.rows)
                && matches.rows == old(matches.rows) && storage.files == old(storage.files)
      ensures old(cvs.FindByIdAndTenantId(cvId, tenantId)).Some? ==>
                var path := old(cvs.cvs)[cvId].filePath;
                && (storage.IsUnderRoot(path) ==> storage.files == old(storage.files) - {storage.Target(path).names})
                && (!storage.IsUnderRoot(path) ==> storage.files == old(storage.files))
                && (r.Ok? <==> !LogsReferenceResults(logTable.logs, old(matches.rows), cvId)
                                && !CampaignsReferenceCv(campaignTable.campaigns, cvId))
      ensures old(cvs.FindByIdAndTenantId(cvId, tenantId)).Some? && r.Ok? ==>
                && r == Ok(())
                && cvs.cvs == old(cvs.cvs) - {cvId}
                && keywords.rows == KeywordsWithoutCv(old(keywords.rows), cvId)
                && matches.rows == MatchesWithoutCv(old(matches.rows), cvId)
      ensures old(cvs.FindByIdAndTenantId(cvId, tenantId)).Some? && r.Err? ==>
                && r == Err(ForeignKeyViolation)
                && cvs.cvs == old(cvs.cvs) && keywords.rows == old(keywords.rows) && matches.rows == old(matches.rows)
    {
      var found := cvs.FindByIdAndTenantId(cvId, tenantId);
      if found.None? {
        return Err("CV not found or access denied");
      }
      var cv := found.value;
      var deleted := storage.DeleteFile(cv.filePath);
      if LogsReferenceResults(logTable.logs, matches.rows, cvId) || CampaignsReferenceCv(campaignTable.campaigns, cvId) {
        // the bulk delete of the results, or the delete of the CV row at
        // commit, is refused; the transaction rolls back but the file is gone
        return Err(ForeignKeyViolation);
      }
      DeleteRowsOfCv(cvId);
      cvs.Delete(cvId);
      r := Ok(());
    }

    /** The CV's keyword rows and match results are deleted; both tables stay valid. */
    method DeleteRowsOfCv(cvId: Uuid)
      requires keywords.Valid() && matches.Valid()
      modifies keywords, matches
      ensures keywords.Valid() && matches.Valid()
      ensures keywords.rows == KeywordsWithoutCv(old(keywords.rows), cvId)
      ensures matches.rows == MatchesWithoutCv(old(matches.rows), cvId)
    {
      ghost var keywordsBefore := keywords.rows;
      ghost var matchesBefore := matches.rows;
      keywords.DeleteByCvId(cvId);
      matches.DeleteByCvId(cvId);
      UniqueBySubMultiset(keywords.rows, keywordsBefore, KeywordKey);
      UniqueBySubMultiset(matches.rows, matchesBefore, MatchId);
      UniqueBySubMultiset(matches.rows, matchesBefore, MatchKey);
    }
  }

  /** An accepted upload's stored name is "<uuid><ext>" when neither part holds a '/'. */
  lemma UploadedStoredFilename(tenantId: Uuid, randomUuid: string, f: FS.UploadedFile)
    requires '/' !in randomUuid && '/' !in FS.GetFileExtension(f.originalFilename)
    ensures StoredFilename(tenantId + "/" + randomUuid + FS.GetFileExtension(f.originalFilename)) ==
              randomUuid + FS.GetFileExtension(f.originalFilename)
  {
    FS.StoredNameAfterLastSlash(tenantId, randomUuid, FS.GetFileExtension(f.originalFilename));
  }
}
