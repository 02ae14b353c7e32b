/**
  The Spring Data repositories the services use, as in-memory tables.
  Each repository is an object whose table the services change through
  it; the JPQL queries the services rely on are functions over the table,
  and each table's unique constraints are its Valid() predicate.
 */
module Repositories {
  import opened Common
  import opened Entities

  // ---------------------------------------------------------------------
  // cv

  class CvRepository {
    var cvs: map<Uuid, Cv>

    /** Every row is stored under its own primary key. */
    predicate Valid()
      reads this
    {
      forall id | id in cvs :: cvs[id].id == id
    }

    /** findByIdAndTenantId: the row with that id, only if it belongs to the tenant. */
    function FindByIdAndTenantId(id: Uuid, tenantId: Uuid): (r: Option<Cv>)
      reads this
      ensures r.Some? <==> id in cvs && cvs[id].tenantId == tenantId
      ensures r.Some? ==> r.value == cvs[id]
    {
      if id in cvs && cvs[id].tenantId == tenantId then Some(cvs[id]) else None
    }

    method Save(cv: Cv)
      modifies this
      ensures cvs == old(cvs)[cv.id := cv]
    {
      cvs := cvs[cv.id := cv];
    }

    method Delete(id: Uuid)
      modifies this
      ensures cvs == old(cvs) - {id}
    {
      cvs := cvs - {id};
    }
  }

  // ---------------------------------------------------------------------
  // cv_keyword

  function KeywordKey(k: CvKeyword): (Uuid, string)
  {
    (k.cvId, k.normalizedKeyword)
  }

  /** The rows of one CV, in table order (findByCvId). */
  function KeywordsOfCv(rows: seq<CvKeyword>, cvId: Uuid): seq<CvKeyword>
  {
    Filter(rows, (k: CvKeyword) => k.cvId == cvId)
  }

  /** The table after deleteByCvId. */
  function KeywordsWithoutCv(rows: seq<CvKeyword>, cvId: Uuid): seq<CvKeyword>
  {
    Filter(rows, (k: CvKeyword) => k.cvId != cvId)
  }

  class CvKeywordRepository {
    var rows: seq<CvKeyword>

    /** The unique constraint on (cv_id, normalized_keyword). */
    predicate Valid()
      reads this
    {
      UniqueBy(rows, KeywordKey)
    }

    method DeleteByCvId(cvId: Uuid)
      modifies this
      ensures rows == KeywordsWithoutCv(old(rows), cvId)
    {
      rows := KeywordsWithoutCv(rows, cvId);
    }

    method SaveAll(keywords: seq<CvKeyword>)
      modifies this
      ensures rows == old(rows) + keywords
    {
      rows := rows + keywords;
    }
  }

  // ---------------------------------------------------------------------
  // professor

  function ProfessorId(p: Professor): Uuid
  {
    p.id
  }

  class ProfessorRepository {
    /** The rows in the order findAll returns them. */
    var rows: seq<Professor>

    predicate Valid()
      reads this
    {
      UniqueBy(rows, ProfessorId)
    }
  }

  // ---------------------------------------------------------------------
  // match_result

  function MatchKey(m: MatchResult): (Uuid, Uuid)
  {
    (m.cvId, m.professor.id)
  }

  function MatchId(m: MatchResult): Uuid
  {
    m.id
  }

  function MatchProfessorId(m: MatchResult): Uuid
  {
    m.professor.id
  }

  /** The rows of one CV, in table order (findByCvId). */
  function MatchesOfCv(rows: seq<MatchResult>, cvId: Uuid): seq<MatchResult>
  {
    Filter(rows, (m: MatchResult) => m.cvId == cvId)
  }

  /** The table after deleteByCvId. */
  function MatchesWithoutCv(rows: seq<MatchResult>, cvId: Uuid): seq<MatchResult>
  {
    Filter(rows, (m: MatchResult) => m.cvId != cvId)
  }

  predicate SortedByScoreDesc(s: seq<MatchResult>)
  {
    forall i, j :: 0 <= i < j < |s| ==> s[i].matchScore >= s[j].matchScore
  }

  /** Inserts m into a descending list after every element scoring at least as much. */
  function InsertByScore(m: MatchResult, s: seq<MatchResult>): (r: seq<MatchResult>)
    requires SortedByScoreDesc(s)
    ensures SortedByScoreDesc(r)
    ensures |r| == |s| + 1
    ensures forall k :: 0 <= k < |r| ==> r[k] == m || r[k] in s
    ensures multiset(r) == multiset(s) + multiset{m}
  {
    if s == [] then [m]
    else if s[0].matchScore >= m.matchScore then
      var rest := InsertByScore(m, s[1..]);
      InsertBehind(m, s, rest);
      [s[0]] + rest
    else
      assert forall k :: 0 <= k < |s| ==> s[k].matchScore <= s[0].matchScore;
      SortedCons(m, s);
      [m] + s
  }

  /** The recursive case of InsertByScore: the head stays in front of the insertion into the tail. */
  lemma InsertBehind(m: MatchResult, s: seq<MatchResult>, rest: seq<MatchResult>)
    requires s != [] && SortedByScoreDesc(s) && s[0].matchScore >= m.matchScore
    requires SortedByScoreDesc(rest)
    requires forall k :: 0 <= k < |rest| ==> rest[k] == m || rest[k] in s[1..]
    requires multiset(rest) == multiset(s[1..]) + multiset{m}
    ensures SortedByScoreDesc([s[0]] + rest)
    ensures forall k :: 0 <= k < |rest| + 1 ==> ([s[0]] + rest)[k] == m || ([s[0]] + rest)[k] in s
    ensures multiset([s[0]] + rest) == multiset(s) + multiset{m}
  {
    assert s == [s[0]] + s[1..];
    var r := [s[0]] + rest;
    forall k | 0 <= k < |rest|
      ensures rest[k].matchScore <= s[0].matchScore
    {
      if rest[k] != m {
        var j :| 0 <= j < |s[1..]| && s[1..][j] == rest[k];
        assert s[j + 1] == rest[k];
      }
    }
    SortedCons(s[0], rest);
    forall k | 1 <= k < |r|
      ensures r[k] == m || r[k] in s
    {
      assert r[k] == rest[k - 1];
    }
    assert multiset(r) == multiset([s[0]]) + multiset(rest);
  }

  /** A row scoring at least every row of a sorted list can go in front of it. */
  lemma SortedCons(x: MatchResult, t: seq<MatchResult>)
    requires SortedByScoreDesc(t)
    requires forall k :: 0 <= k < |t| ==> t[k].matchScore <= x.matchScore
    ensures SortedByScoreDesc([x] + t)
  {
    var r := [x] + t;
    forall i, j | 0 <= i < j < |r|
      ensures r[i].matchScore >= r[j].matchScore
    {
      assert r[j] == t[j - 1];
      if i > 0 {
        assert r[i] == t[i - 1];
      }
    }
  }

  /** ORDER BY match_score DESC (ties in no particular order). */
  function SortByScoreDesc(s: seq<MatchResult>): (r: seq<MatchResult>)
    ensures SortedByScoreDesc(r)
    ensures multiset(r) == multiset(s)
  {
    if s == [] then []
    else
      assert s == [s[0]] + s[1..];
      InsertByScore(s[0], SortByScoreDesc(s[1..]))
  }

  /** The filter of findByCvIdAndTenantIdAndMinScore. */
  predicate QualifiesAtLeast(m: MatchResult, cvId: Uuid, tenantId: Uuid, minScore: int)
  {
    m.cvId == cvId && m.tenantId == tenantId && m.matchScore >= minScore
  }

  /** The rows the WHERE clause of the minimum-score query selects, in table order. */
  function QualifyingRows(rows: seq<MatchResult>, cvId: Uuid, tenantId: Uuid, minScore: int): (r: seq<MatchResult>)
    ensures forall i :: 0 <= i < |r| ==> r[i] in rows && QualifiesAtLeast(r[i], cvId, tenantId, minScore)
    ensures forall i :: 0 <= i < |rows| && QualifiesAtLeast(rows[i], cvId, tenantId, minScore) ==> rows[i] in r
    ensures multiset(r) <= multiset(rows)
  {
    Filter(rows, (m: MatchResult) => QualifiesAtLeast(m, cvId, tenantId, minScore))
  }

  /**
    findByCvIdAndTenantIdAndMinScore: the CV's results for the tenant whose
    score is at least minScore, best first.
   */
  function MatchesAtLeast(rows: seq<MatchResult>, cvId: Uuid, tenantId: Uuid, minScore: int): (r: seq<MatchResult>)
    ensures SortedByScoreDesc(r)
    ensures forall i :: 0 <= i < |r| ==> r[i] in rows && QualifiesAtLeast(r[i], cvId, tenantId, minScore)
    ensures forall i :: 0 <= i < |rows| && QualifiesAtLeast(rows[i], cvId, tenantId, minScore) ==> rows[i] in r
    ensures multiset(r) <= multiset(rows)
    ensures |r| == |QualifyingRows(rows, cvId, tenantId, minScore)|
  {
    var f := QualifyingRows(rows, cvId, tenantId, minScore);
    var r := SortByScoreDesc(f);
    assert |r| == |multiset(r)| == |multiset(f)| == |f|;
    forall i | 0 <= i < |r|
      ensures r[i] in rows && QualifiesAtLeast(r[i], cvId, tenantId, minScore)
    {
      assert r[i] in multiset(f);
      var j :| 0 <= j < |f| && f[j] == r[i];
    }
    assert forall i :: 0 <= i < |rows| && QualifiesAtLeast(rows[i], cvId, tenantId, minScore) ==> rows[i] in multiset(r);
    r
  }

  /** Results of one CV drawn from a table unique per (cv, professor) are unique per professor. */
  lemma {:induction false} MinScoreQueryUniqueProfessors(rows: seq<MatchResult>, cvId: Uuid, tenantId: Uuid, minScore: int)
    requires UniqueBy(rows, MatchKey)
    ensures UniqueBy(MatchesAtLeast(rows, cvId, tenantId, minScore), MatchProfessorId)
  {
    var r := MatchesAtLeast(rows, cvId, tenantId, minScore);
    UniqueBySubMultiset(r, rows, MatchKey);
    forall i, j | 0 <= i < |r| && 0 <= j < |r| && i != j
      ensures MatchProfessorId(r[i]) != MatchProfessorId(r[j])
    {
      assert MatchKey(r[i]) != MatchKey(r[j]);
    }
  }

  /** The position of the row with that primary key, or -1. */
  function IndexOfId(rows: seq<MatchResult>, id: Uuid): (r: int)
    ensures -1 <= r < |rows|
    ensures r >= 0 ==> rows[r].id == id && forall k :: 0 <= k < r ==> rows[k].id != id
    ensures r == -1 ==> forall k :: 0 <= k < |rows| ==> rows[k].id != id
  {
    if rows == [] then -1
    else if rows[0].id == id then 0
    else
      var r := IndexOfId(rows[1..], id);
      if r == -1 then -1 else r + 1
  }

  /** save(m): the row with m's primary key is overwritten, or m is inserted. */
  function Upsert(rows: seq<MatchResult>, m: MatchResult): (r: seq<MatchResult>)
    ensures |r| == |rows| || |r| == |rows| + 1
    ensures m in r
    ensures IndexOfId(rows, m.id) >= 0 ==> r == rows[IndexOfId(rows, m.id) := m]
    ensures IndexOfId(rows, m.id) < 0 ==> r == rows + [m]
    ensures forall k :: 0 <= k < |rows| && rows[k].id != m.id ==> r[k] == rows[k]
  {
    var i := IndexOfId(rows, m.id);
    if i >= 0 then assert rows[i := m][i] == m; rows[i := m]
    else assert (rows + [m])[|rows|] == m; rows + [m]
  }

  /** saveAll(ms): each element saved in turn. */
  function UpsertAll(rows: seq<MatchResult>, ms: seq<MatchResult>): (r: seq<MatchResult>)
    ensures |rows| <= |r| <= |rows| + |ms|
  {
    if ms == [] then rows else Upsert(UpsertAll(rows, ms[..|ms| - 1]), ms[|ms| - 1])
  }

  /**
    A result to save either carries the primary key of the stored row with
    its (cv, professor) pair, or carries a new key and a new pair.
   */
  predicate FitsTable(rows: seq<MatchResult>, m: MatchResult)
  {
    || (exists i :: 0 <= i < |rows| && rows[i].id == m.id && MatchKey(rows[i]) == MatchKey(m))
    || (forall i :: 0 <= i < |rows| ==> rows[i].id != m.id && MatchKey(rows[i]) != MatchKey(m))
  }

  predicate MatchTableValid(rows: seq<MatchResult>)
  {
    UniqueBy(rows, MatchId) && UniqueBy(rows, MatchKey)
  }

  lemma UpsertKeepsValid(rows: seq<MatchResult>, m: MatchResult)
    requires MatchTableValid(rows) && FitsTable(rows, m)
    ensures MatchTableValid(Upsert(rows, m))
  {
    var i := IndexOfId(rows, m.id);
    var r := Upsert(rows, m);
    if i >= 0 {
      assert MatchKey(rows[i]) == MatchKey(m);
      assert forall k :: 0 <= k < |r| ==> MatchId(r[k]) == MatchId(rows[k]) && MatchKey(r[k]) == MatchKey(rows[k]);
    } else {
      assert forall k :: 0 <= k < |rows| ==> r[k] == rows[k];
    }
  }

  /**
    Saving keeps every row whose key none of the saved results carries at
    its place, and every row afterwards is an old row or a saved result.
   */
  lemma {:induction false} UpsertAllFrame(rows: seq<MatchResult>, ms: seq<MatchResult>)
    ensures |UpsertAll(rows, ms)| >= |rows|
    ensures forall i :: 0 <= i < |rows| && (forall j :: 0 <= j < |ms| ==> ms[j].id != rows[i].id) ==>
              UpsertAll(rows, ms)[i] == rows[i]
    ensures forall k :: 0 <= k < |UpsertAll(rows, ms)| ==> UpsertAll(rows, ms)[k] in rows || UpsertAll(rows, ms)[k] in ms
    decreases |ms|
  {
    if ms != [] {
      var front := ms[..|ms| - 1];
      UpsertAllFrame(rows, front);
      forall i | 0 <= i < |rows| && (forall j :: 0 <= j < |ms| ==> ms[j].id != rows[i].id)
        ensures UpsertAll(rows, ms)[i] == rows[i]
      {
        assert forall j :: 0 <= j < |front| ==> front[j] == ms[j];
      }
      assert forall x :: x in front ==> x in ms;
    }
  }

  /** A result that fits the table still fits it after saving results with other keys and pairs. */
  lemma FitsAfterSaving(rows: seq<MatchResult>, front: seq<MatchResult>, m: MatchResult)
    requires FitsTable(rows, m)
    requires forall j :: 0 <= j < |front| ==> front[j].id != m.id && MatchKey(front[j]) != MatchKey(m)
    ensures FitsTable(UpsertAll(rows, front), m)
  {
    var mid := UpsertAll(rows, front);
    UpsertAllFrame(rows, front);
    if i :| 0 <= i < |rows| && rows[i].id == m.id && MatchKey(rows[i]) == MatchKey(m) {
      assert mid[i] == rows[i];
    } else {
      forall k | 0 <= k < |mid|
        ensures mid[k].id != m.id && MatchKey(mid[k]) != MatchKey(m)
      {
        if mid[k] in front {
          var j :| 0 <= j < |front| && front[j] == mid[k];
        } else {
          var i :| 0 <= i < |rows| && rows[i] == mid[k];
        }
      }
    }
  }

  /**
    Saving results whose keys and pairs are distinct, and each of which fits
    the table, keeps both unique constraints.
   */
  lemma {:induction false} UpsertAllKeepsValid(rows: seq<MatchResult>, ms: seq<MatchResult>)
    requires MatchTableValid(rows)
    requires UniqueBy(ms, MatchId) && UniqueBy(ms, MatchKey)
    requires forall j :: 0 <= j < |ms| ==> FitsTable(rows, ms[j])
    ensures MatchTableValid(UpsertAll(rows, ms))
    decreases |ms|
  {
    if |ms| > 0 {
      var n := |ms| - 1;
      var front := ms[..n];
      assert forall j :: 0 <= j < |front| ==> front[j] == ms[j];
      UniqueByPrefix(ms, n, MatchId);
      UniqueByPrefix(ms, n, MatchKey);
      UpsertAllKeepsValid(rows, front);
      forall j | 0 <= j < |front|
        ensures front[j].id != ms[n].id && MatchKey(front[j]) != MatchKey(ms[n])
      {
        assert MatchId(ms[j]) != MatchId(ms[n]) && MatchKey(ms[j]) != MatchKey(ms[n]);
      }
      FitsAfterSaving(rows, front, ms[n]);
      UpsertKeepsValid(UpsertAll(rows, front), ms[n]);
    }
  }

  class MatchResultRepository {
    var rows: seq<MatchResult>

    /** The primary key and the unique constraint on (cv_id, professor_id). */
    predicate Valid()
      reads this
    {
      MatchTableValid(rows)
    }

    method DeleteByCvId(cvId: Uuid)
      modifies this
      ensures rows == MatchesWithoutCv(old(rows), cvId)
    {
      rows := MatchesWithoutCv(rows, cvId);
    }

    method SaveAll(ms: seq<MatchResult>)
      modifies this
      ensures rows == UpsertAll(old(rows), ms)
    {
      var i := 0;
      while i < |ms|
        invariant 0 <= i <= |ms|
        invariant rows == UpsertAll(old(rows), ms[..i])
      {
        assert ms[..i + 1][..i] == ms[..i];
        rows := Upsert(rows, ms[i]);
        i := i + 1;
      }
      assert ms[..i] == ms;
    }
  }

  // ---------------------------------------------------------------------
  // email_campaign

  /** The filter of findScheduledCampaigns(SCHEDULED, now); a NULL scheduled_at never qualifies. */
  predicate IsDue(c: EmailCampaign, now: Time)
  {
    c.status == CampaignStatus.Scheduled && c.scheduledAt.Some? && c.scheduledAt.value <= now
  }

  class EmailCampaignRepository {
    var campaigns: map<Uuid, EmailCampaign>

    predicate Valid()
      reads this
    {
      forall id | id in campaigns :: campaigns[id].id == id
    }

    /** findByIdAndTenantId. */
    function FindByIdAndTenantId(id: Uuid, tenantId: Uuid): (r: Option<EmailCampaign>)
      reads this
      ensures r.Some? <==> id in campaigns && campaigns[id].tenantId == tenantId
      ensures r.Some? ==> r.value == campaigns[id]
    {
      if id in campaigns && campaigns[id].tenantId == tenantId then Some(campaigns[id]) else None
    }

    /**
      An order in which the database visits the table: every stored
      campaign id, each exactly once.
     */
    predicate ScanOrder(scan: seq<Uuid>)
      reads this
    {
      (forall i | 0 <= i < |scan| :: scan[i] in campaigns)
      && (forall id | id in campaigns :: id in scan)
      && (forall i, j | 0 <= i < j < |scan| :: scan[i] != scan[j])
    }

    /** The due campaigns among the scanned ids, in scan order. */
    function DueIn(now: Time, scan: seq<Uuid>): (r: seq<EmailCampaign>)
      requires forall i :: 0 <= i < |scan| ==> scan[i] in campaigns
      reads this
      ensures |r| <= |scan|
      ensures forall k :: 0 <= k < |r| ==> IsDue(r[k], now) && exists i :: 0 <= i < |scan| && r[k] == campaigns[scan[i]]
      ensures forall i :: 0 <= i < |scan| && IsDue(campaigns[scan[i]], now) ==> campaigns[scan[i]] in r
      decreases |scan|
    {
      if scan == [] then []
      else
        var rest := DueIn(now, scan[1..]);
        assert forall i :: 1 <= i < |scan| ==> scan[i] == scan[1..][i - 1];
        if IsDue(campaigns[scan[0]], now) then [campaigns[scan[0]]] + rest else rest
    }

    /**
      findScheduledCampaigns(SCHEDULED, now): every stored campaign that is
      due, each exactly once, in the order the database scans the table.
     */
    function FindScheduledCampaigns(now: Time, scan: seq<Uuid>): (r: seq<EmailCampaign>)
      requires Valid() && ScanOrder(scan)
      reads this
      ensures forall k :: 0 <= k < |r| ==> r[k].id in campaigns && campaigns[r[k].id] == r[k] && IsDue(r[k], now)
      ensures forall id | id in campaigns && IsDue(campaigns[id], now) :: campaigns[id] in r
      ensures UniqueBy(r, CampaignKey)
    {
      DueInDistinct(this, now, scan);
      var r := DueIn(now, scan);
      forall id | id in campaigns && IsDue(campaigns[id], now)
        ensures campaigns[id] in r
      {
        var i :| 0 <= i < |scan| && scan[i] == id;
      }
      r
    }

    method Save(c: EmailCampaign)
      modifies this
      ensures campaigns == old(campaigns)[c.id := c]
    {
      campaigns := campaigns[c.id := c];
    }
  }

  /** The primary key of email_campaign. */
  function CampaignKey(c: EmailCampaign): Uuid
  {
    c.id
  }

  /** A scan that visits each stored id once finds each due campaign once. */
  lemma {:induction false} DueInDistinct(repo: EmailCampaignRepository, now: Time, scan: seq<Uuid>)
    requires repo.Valid()
    requires forall i :: 0 <= i < |scan| ==> scan[i] in repo.campaigns
    requires forall i, j :: 0 <= i < j < |scan| ==> scan[i] != scan[j]
    ensures UniqueBy(repo.DueIn(now, scan), CampaignKey)
    decreases |scan|
  {
    if scan != [] {
      var tail := scan[1..];
      assert forall i :: 0 <= i < |tail| ==> tail[i] == scan[i + 1];
      DueInDistinct(repo, now, tail);
      var rest := repo.DueIn(now, tail);
      if IsDue(repo.campaigns[scan[0]], now) {
        RestAvoidsHead(repo, now, scan);
        UniqueUnderNewHead(repo.campaigns[scan[0]], rest);
      }
    }
  }

  /** The due campaigns found after the first scanned id do not carry that id. */
  lemma RestAvoidsHead(repo: EmailCampaignRepository, now: Time, scan: seq<Uuid>)
    requires repo.Valid()
    requires |scan| > 0
    requires forall i :: 0 <= i < |scan| ==> scan[i] in repo.campaigns
    requires forall i, j :: 0 <= i < j < |scan| ==> scan[i] != scan[j]
    ensures forall k :: 0 <= k < |repo.DueIn(now, scan[1..])| ==>
              repo.DueIn(now, scan[1..])[k].id != scan[0]
  {
    var tail := scan[1..];
    var rest := repo.DueIn(now, tail);
    forall k | 0 <= k < |rest|
      ensures rest[k].id != scan[0]
    {
      var i :| 0 <= i < |tail| && rest[k] == repo.campaigns[tail[i]];
      assert rest[k].id == tail[i] == scan[i + 1];
    }
  }

  /** A campaign whose id none of a uniquely keyed list carries can go in front of it. */
  lemma UniqueUnderNewHead(c: EmailCampaign, rest: seq<EmailCampaign>)
    requires UniqueBy(rest, CampaignKey)
    requires forall k :: 0 <= k < |rest| ==> rest[k].id != c.id
    ensures UniqueBy([c] + rest, CampaignKey)
  {
    var r := [c] + rest;
    forall a, b | 0 <= a < |r| && 0 <= b < |r| && a != b
      ensures CampaignKey(r[a]) != CampaignKey(r[b])
    {
      if a > 0 && b > 0 {
        assert r[a] == rest[a - 1] && r[b] == rest[b - 1];
      } else if a == 0 {
        assert r[b] == rest[b - 1];
      } else {
        assert r[a] == rest[a - 1];
      }
    }
  }

  // ---------------------------------------------------------------------
  // email_log

  /** The columns of the unique constraint on email_log. */
  function LogPair(l: EmailLog): (Uuid, Uuid)
  {
    (l.campaignId, l.professorId)
  }

  function LogId(l: EmailLog): Uuid
  {
    l.id
  }

  /** The rows saveAll(ls) writes, each under its primary key; a later row wins a shared key. */
  function LogMap(ls: seq<EmailLog>): (r: map<Uuid, EmailLog>)
    ensures forall id :: id in r <==> exists i :: 0 <= i < |ls| && ls[i].id == id
    decreases |ls|
  {
    if ls == [] then map[]
    else
      var front := LogMap(ls[..|ls| - 1]);
      assert forall i :: 0 <= i < |ls| - 1 ==> ls[..|ls| - 1][i] == ls[i];
      front[ls[|ls| - 1].id := ls[|ls| - 1]]
  }

  /** With distinct primary keys every row is found under its own key. */
  lemma {:induction false} LogMapAt(ls: seq<EmailLog>, i: int)
    requires UniqueBy(ls, LogId) && 0 <= i < |ls|
    ensures ls[i].id in LogMap(ls) && LogMap(ls)[ls[i].id] == ls[i]
    decreases |ls|
  {
    var n := |ls| - 1;
    LogMapStep(ls);
    if i < n {
      var front := ls[..n];
      assert front[i] == ls[i];
      UniqueByPrefix(ls, n, LogId);
      LogMapAt(front, i);
      assert LogId(ls[i]) != LogId(ls[n]);
    }
  }

  lemma LogMapStep(ls: seq<EmailLog>)
    requires ls != []
    ensures LogMap(ls) == LogMap(ls[..|ls| - 1])[ls[|ls| - 1].id := ls[|ls| - 1]]
  {
  }

  /** The primary key and the unique constraint on (email_campaign_id, professor_id). */
  predicate LogTableValid(logs: map<Uuid, EmailLog>)
  {
    && (forall id | id in logs :: logs[id].id == id)
    && (forall a, b | a in logs && b in logs && a != b :: LogPair(logs[a]) != LogPair(logs[b]))
  }

  class EmailLogRepository {
    var logs: map<Uuid, EmailLog>

    predicate Valid()
      reads this
    {
      LogTableValid(logs)
    }

    method Save(l: EmailLog)
      modifies this
      ensures logs == old(logs)[l.id := l]
    {
      logs := logs[l.id := l];
    }

    method SaveAll(ls: seq<EmailLog>)
      modifies this
      ensures logs == old(logs) + LogMap(ls)
    {
      logs := logs + LogMap(ls);
    }
  }

  // ---------------------------------------------------------------------
  // Foreign keys without cascade

  /**
    The message of the exception the database raises when a delete would
    leave a row pointing at nothing; the text stands for the driver's.
   */
  const ForeignKeyViolation := "could not execute statement: foreign key violation"

  /** A stored log points at one of the CV's results (email_logs.match_result_id is a non-null key). */
  predicate LogsReferenceResults(logs: map<Uuid, EmailLog>, rows: seq<MatchResult>, cvId: Uuid)
  {
    exists id, i | id in logs && 0 <= i < |rows| :: rows[i].cvId == cvId && logs[id].matchResultId == rows[i].id
  }

  /** A stored campaign points at the CV (email_campaigns.cv_id is a non-null key). */
  predicate CampaignsReferenceCv(campaigns: map<Uuid, EmailCampaign>, cvId: Uuid)
  {
    exists id | id in campaigns :: campaigns[id].cvId == cvId
  }

  // ---------------------------------------------------------------------
  // email_blacklist

  /** isBlacklisted: an entry with exactly that address, for the tenant or for every tenant. */
  predicate IsBlacklisted(rows: seq<BlacklistEntry>, email: string, tenantId: Uuid)
  {
    exists i :: 0 <= i < |rows| && rows[i].email == email && (rows[i].tenantId == Some(tenantId) || rows[i].tenantId.None?)
  }

  class EmailBlacklistRepository {
    var rows: seq<BlacklistEntry>
  }

  // ---------------------------------------------------------------------
  // smtp_account

  class SmtpAccountRepository {
    /** The accounts keyed by tenant: the unique constraint on tenant_id. */
    var byTenant: map<Uuid, SmtpAccount>

    predicate Valid()
      reads this
    {
      && (forall t | t in byTenant :: byTenant[t].tenantId == t)
      && (forall t, u | t in byTenant && u in byTenant && t != u :: byTenant[t].id != byTenant[u].id)
    }

    /** findByTenantId. */
    function FindByTenantId(tenantId: Uuid): (r: Option<SmtpAccount>)
      reads this
      ensures r.Some? <==> tenantId in byTenant
      ensures r.Some? ==> r.value == byTenant[tenantId]
    {
      if tenantId in byTenant then Some(byTenant[tenantId]) else None
    }

    /** findActiveByTenantId: the tenant's account, only while it is ACTIVE. */
    function FindActiveByTenantId(tenantId: Uuid): (r: Option<SmtpAccount>)
      reads this
      ensures r.Some? <==> tenantId in byTenant && byTenant[tenantId].status == SmtpAccountStatus.Active
      ensures r.Some? ==> r.value == byTenant[tenantId]
    {
      if tenantId in byTenant && byTenant[tenantId].status == SmtpAccountStatus.Active then Some(byTenant[tenantId]) else None
    }

    /** findById: the stored account carrying that primary key, if any. */
    method FindById(id: Uuid) returns (r: Option<SmtpAccount>)
      requires Valid()
      ensures r.Some? ==> r.value.id == id && r.value.tenantId in byTenant && byTenant[r.value.tenantId] == r.value
      ensures r.None? ==> forall t | t in byTenant :: byTenant[t].id != id
    {
      var left := byTenant.Keys;
      while left != {}
        invariant left <= byTenant.Keys
        invariant forall t | t in byTenant.Keys - left :: byTenant[t].id != id
        decreases |left|
      {
        var t :| t in left;
        if byTenant[t].id == id {
          return Some(byTenant[t]);
        }
        left := left - {t};
      }
      return None;
    }

    method Save(a: SmtpAccount)
      modifies this
      ensures byTenant == old(byTenant)[a.tenantId := a]
    {
      byTenant := byTenant[a.tenantId := a];
    }
  }

  // ---------------------------------------------------------------------
  // tenant

  class TenantRepository {
    var ids: set<Uuid>
  }
}
