/**
  The campaign engine: a DRAFT campaign is created for a CV's matches at or
  above a minimum score; it may be scheduled and a scheduled one cancelled;
  executing it seeds one PENDING log per match whose professor is not
  blacklisted, then sends them one by one under a per-minute rate limit,
  writing the sent and failed counts every batchSize emails and at the end,
  and finishes COMPLETED, or FAILED when anything on the way throws.
  The clock, the AI-written bodies and the SMTP outcome of each send are
  inputs (an Attempt per loop iteration); sleeping is recorded, not done.
 */
module EmailCampaignService {
  import opened Common
  import opened Entities
  import opened Repositories
  import FS = FileStorageService
  import MSF = MailSenderFactory
  import SAS = SmtpAccountService

  /** The outcome of building and submitting one message: sent, or the exception's message (possibly null). */
  datatype Delivery = Delivered | Refused(message: Option<string>)

  /**
    What the world does in one iteration of the send loop: the clock read
    for the rate check, the clock read after the pause, the clock read as
    sentAt, the AI-written body (null when generation failed) and the outcome
    of the submission.
   */
  datatype Attempt = Attempt(checkedAt: Time, resumedAt: Time, sentAt: Time, aiBody: Option<string>, delivery: Delivery)

  /** A reset of the rate window: the loop iteration and the computed wait (slept only when positive). */
  datatype WindowReset = WindowReset(iteration: int, waitMillis: int)

  /** The length of a rate window, in milliseconds. */
  const WindowMillis := 60000

  // ---------------------------------------------------------------------
  // Templates and logs

  const ProfessorNamePlaceholder := "{{professor_name}}"
  const UniversityPlaceholder := "{{university}}"
  const MatchedKeywordsPlaceholder := "{{matched_keywords}}"
  const MatchScorePlaceholder := "{{match_score}}"

  function ProfessorName(p: Professor): string
  {
    p.firstName + " " + p.lastName
  }

  /**
    substituteTemplate: three literal replace-all passes, in order, for the
    professor's name, the university and the matched keywords.
   */
  function SubstituteTemplate(t: string, p: Professor, m: MatchResult): string
  {
    var named := ReplaceAll(t, ProfessorNamePlaceholder, ProfessorName(p));
    var placed := ReplaceAll(named, UniversityPlaceholder, p.universityName);
    ReplaceAll(placed, MatchedKeywordsPlaceholder, m.matchedKeywords)
  }

  /** A string lacking a character of t does not contain t. */
  lemma {:induction false} NotContainsWithout(s: string, t: string, c: char)
    requires c in t && c !in s
    ensures !Contains(s, t)
    decreases |s|
  {
    if |t| <= |s| {
      var k :| 0 <= k < |t| && t[k] == c;
      assert s[..|t|][k] == s[k];
    }
    if |s| > 0 {
      NotContainsWithout(s[1..], t, c);
    }
  }

  /** Replacing in a string that is exactly the target gives the replacement. */
  lemma ReplaceWhole(t: string, replacement: string)
    requires |t| > 0
    ensures ReplaceAll(t, t, replacement) == replacement
  {
    assert t[..|t|] == t && t[|t|..] == [];
    assert ReplaceAll([], t, replacement) == [];
  }

  /** Text without any of the three placeholders comes through unchanged. */
  lemma SubstituteLeavesPlainText(t: string, p: Professor, m: MatchResult)
    requires !Contains(t, ProfessorNamePlaceholder) && !Contains(t, UniversityPlaceholder)
    requires !Contains(t, MatchedKeywordsPlaceholder)
    ensures SubstituteTemplate(t, p, m) == t
  {
    ReplaceAbsent(t, ProfessorNamePlaceholder, ProfessorName(p));
    ReplaceAbsent(t, UniversityPlaceholder, p.universityName);
    ReplaceAbsent(t, MatchedKeywordsPlaceholder, m.matchedKeywords);
  }

  /** Text without a 'p' or a 'u' can only hold the keywords placeholder. */
  lemma SubstituteSkipsNameAndUniversity(t: string, p: Professor, m: MatchResult)
    requires 'p' !in t && 'u' !in t
    ensures SubstituteTemplate(t, p, m) == ReplaceAll(t, MatchedKeywordsPlaceholder, m.matchedKeywords)
  {
    NotContainsWithout(t, ProfessorNamePlaceholder, 'p');
    ReplaceAbsent(t, ProfessorNamePlaceholder, ProfessorName(p));
    NotContainsWithout(t, UniversityPlaceholder, 'u');
    ReplaceAbsent(t, UniversityPlaceholder, p.universityName);
  }

  /** Which letters the keywords and score placeholders hold. */
  lemma PlaceholderLetters()
    ensures 'k' in MatchedKeywordsPlaceholder
    ensures 'p' !in MatchScorePlaceholder && 'u' !in MatchScorePlaceholder && 'k' !in MatchScorePlaceholder
  {
    assert MatchedKeywordsPlaceholder[10] == 'k';
  }

  /** Text without a 'p', a 'u' or a 'k' holds no placeholder and comes through unchanged. */
  lemma SubstituteSkipsAll(t: string, p: Professor, m: MatchResult)
    requires 'p' !in t && 'u' !in t && 'k' !in t
    ensures SubstituteTemplate(t, p, m) == t
  {
    PlaceholderLetters();
    SubstituteSkipsNameAndUniversity(t, p, m);
    NotContainsWithout(t, MatchedKeywordsPlaceholder, 'k');
    ReplaceAbsent(t, MatchedKeywordsPlaceholder, m.matchedKeywords);
  }

  /** {{match_score}} is not one of the placeholders: it stays in the body as written. */
  lemma MatchScoreNotSubstituted(p: Professor, m: MatchResult)
    ensures SubstituteTemplate(MatchScorePlaceholder, p, m) == MatchScorePlaceholder
  {
    PlaceholderLetters();
    SubstituteSkipsAll(MatchScorePlaceholder, p, m);
  }

  /** {{professor_name}} becomes "first last" (when the name holds no brace to be substituted again). */
  lemma SubstituteProfessorName(p: Professor, m: MatchResult)
    requires '{' !in ProfessorName(p)
    ensures SubstituteTemplate(ProfessorNamePlaceholder, p, m) == ProfessorName(p)
  {
    ReplaceWhole(ProfessorNamePlaceholder, ProfessorName(p));
    NotContainsWithout(ProfessorName(p), UniversityPlaceholder, '{');
    ReplaceAbsent(ProfessorName(p), UniversityPlaceholder, p.universityName);
    NotContainsWithout(ProfessorName(p), MatchedKeywordsPlaceholder, '{');
    ReplaceAbsent(ProfessorName(p), MatchedKeywordsPlaceholder, m.matchedKeywords);
  }

  /** {{university}} becomes the university's name. */
  lemma SubstituteUniversity(p: Professor, m: MatchResult)
    requires '{' !in p.universityName
    ensures SubstituteTemplate(UniversityPlaceholder, p, m) == p.universityName
  {
    NotContainsWithout(UniversityPlaceholder, ProfessorNamePlaceholder, 'p');
    ReplaceAbsent(UniversityPlaceholder, ProfessorNamePlaceholder, ProfessorName(p));
    ReplaceWhole(UniversityPlaceholder, p.universityName);
    NotContainsWithout(p.universityName, MatchedKeywordsPlaceholder, '{');
    ReplaceAbsent(p.universityName, MatchedKeywordsPlaceholder, m.matchedKeywords);
  }

  /** {{matched_keywords}} becomes the match's keyword string. */
  lemma SubstituteMatchedKeywords(p: Professor, m: MatchResult)
    ensures SubstituteTemplate(MatchedKeywordsPlaceholder, p, m) == m.matchedKeywords
  {
    SubstituteSkipsNameAndUniversity(MatchedKeywordsPlaceholder, p, m);
    ReplaceWhole(MatchedKeywordsPlaceholder, m.matchedKeywords);
  }

  /** createEmailLog: a PENDING log addressed to the match's professor with the campaign's subject. */
  function CreateEmailLog(campaign: EmailCampaign, m: MatchResult, id: Uuid): (r: EmailLog)
    ensures r.id == id && r.status == EmailStatus.Pending && r.sentAt.None? && r.retryCount == 0
    ensures r.tenantId == campaign.tenantId && r.campaignId == campaign.id && r.subject == campaign.subject
    ensures r.professorId == m.professor.id && r.matchResultId == m.id && r.recipientEmail == m.professor.email
  {
    EmailLog(id, campaign.tenantId, campaign.id, m.professor.id, m.id, m.professor.email, campaign.subject,
             SubstituteTemplate(campaign.bodyTemplate, m.professor, m), EmailStatus.Pending, None, 0, None)
  }

  /** The logs initializeEmailLogs builds, one per match in order, with the ids the database assigns. */
  function SeedLogs(campaign: EmailCampaign, ms: seq<MatchResult>, newLogId: int -> Uuid): (r: seq<EmailLog>)
    ensures |r| == |ms|
    ensures forall i :: 0 <= i < |ms| ==> r[i] == CreateEmailLog(campaign, ms[i], newLogId(i))
  {
    seq(|ms|, i requires 0 <= i < |ms| => CreateEmailLog(campaign, ms[i], newLogId(i)))
  }

  /** The matches whose professor's address is not blacklisted for the tenant or globally. */
  function ValidMatches(ms: seq<MatchResult>, blacklist: seq<BlacklistEntry>, tenantId: Uuid): (r: seq<MatchResult>)
    ensures forall i :: 0 <= i < |r| ==> r[i] in ms && !IsBlacklisted(blacklist, r[i].professor.email, tenantId)
    ensures forall i :: 0 <= i < |ms| && !IsBlacklisted(blacklist, ms[i].professor.email, tenantId) ==> ms[i] in r
  {
    Filter(ms, (m: MatchResult) => !IsBlacklisted(blacklist, m.professor.email, tenantId))
  }

  /** The matches a campaign sends to: its CV's results at or above its minimum score, blacklist removed. */
  function CampaignRecipients(rows: seq<MatchResult>, blacklist: seq<BlacklistEntry>, c: EmailCampaign): (r: seq<MatchResult>)
    ensures forall i :: 0 <= i < |r| ==>
              && r[i] in rows && QualifiesAtLeast(r[i], c.cvId, c.tenantId, c.minMatchScore)
              && !IsBlacklisted(blacklist, r[i].professor.email, c.tenantId)
    ensures forall i :: 0 <= i < |rows| ==>
              (QualifiesAtLeast(rows[i], c.cvId, c.tenantId, c.minMatchScore) &&
               !IsBlacklisted(blacklist, rows[i].professor.email, c.tenantId)) ==> rows[i] in r
  {
    ValidMatches(MatchesAtLeast(rows, c.cvId, c.tenantId, c.minMatchScore), blacklist, c.tenantId)
  }

  /**
    Because the match table holds one result per (CV, professor), the logs
    seeded for a campaign name each professor once, as the unique constraint
    on (campaign, professor) demands.
   */
  lemma SeededLogsUniquePerProfessor(rows: seq<MatchResult>, blacklist: seq<BlacklistEntry>, c: EmailCampaign,
                                     newLogId: int -> Uuid)
    requires UniqueBy(rows, MatchKey)
    ensures UniqueBy(SeedLogs(c, CampaignRecipients(rows, blacklist, c), newLogId), LogPair)
  {
    var q := MatchesAtLeast(rows, c.cvId, c.tenantId, c.minMatchScore);
    var ms := CampaignRecipients(rows, blacklist, c);
    var logs := SeedLogs(c, ms, newLogId);
    MinScoreQueryUniqueProfessors(rows, c.cvId, c.tenantId, c.minMatchScore);
    UniqueBySubMultiset(ms, q, MatchProfessorId);
    forall i, j | 0 <= i < |logs| && 0 <= j < |logs| && i != j
      ensures LogPair(logs[i]) != LogPair(logs[j])
    {
      assert MatchProfessorId(ms[i]) != MatchProfessorId(ms[j]);
    }
  }

  /** A qualifying result whose professor is not blacklisted for the tenant. */
  predicate Reachable(m: MatchResult, blacklist: seq<BlacklistEntry>, c: EmailCampaign)
  {
    QualifiesAtLeast(m, c.cvId, c.tenantId, c.minMatchScore) && !IsBlacklisted(blacklist, m.professor.email, c.tenantId)
  }

  /**
    The logs seeded for a campaign: each is PENDING, never retried, for the
    campaign, addressed to a professor who is not blacklisted, with the
    campaign's subject and the substituted template; and every qualifying
    result whose professor is not blacklisted has one.
   */
  lemma SeededLogsCoverRecipients(rows: seq<MatchResult>, blacklist: seq<BlacklistEntry>, c: EmailCampaign,
                                  newLogId: int -> Uuid)
    ensures var ms := CampaignRecipients(rows, blacklist, c);
            var logs := SeedLogs(c, ms, newLogId);
            && (forall i :: 0 <= i < |logs| ==>
                  && logs[i].status == EmailStatus.Pending && logs[i].retryCount == 0
                  && logs[i].campaignId == c.id && logs[i].subject == c.subject
                  && logs[i].recipientEmail == ms[i].professor.email
                  && Reachable(ms[i], blacklist, c)
                  && logs[i].body == SubstituteTemplate(c.bodyTemplate, ms[i].professor, ms[i]))
            && (forall j :: 0 <= j < |rows| && Reachable(rows[j], blacklist, c) ==>
                  exists i :: 0 <= i < |logs| && logs[i].matchResultId == rows[j].id && logs[i].professorId == rows[j].professor.id)
  {
    var ms := CampaignRecipients(rows, blacklist, c);
    var logs := SeedLogs(c, ms, newLogId);
    forall i | 0 <= i < |logs|
      ensures && logs[i].status == EmailStatus.Pending && logs[i].retryCount == 0
              && logs[i].campaignId == c.id && logs[i].subject == c.subject
              && logs[i].recipientEmail == ms[i].professor.email
              && Reachable(ms[i], blacklist, c)
              && logs[i].body == SubstituteTemplate(c.bodyTemplate, ms[i].professor, ms[i])
    {
      assert logs[i] == CreateEmailLog(c, ms[i], newLogId(i));
    }
    forall j | 0 <= j < |rows| && Reachable(rows[j], blacklist, c)
      ensures exists i :: 0 <= i < |logs| && logs[i].matchResultId == rows[j].id && logs[i].professorId == rows[j].professor.id
    {
      assert rows[j] in ms;
      var i :| 0 <= i < |ms| && ms[i] == rows[j];
      assert logs[i] == CreateEmailLog(c, ms[i], newLogId(i));
    }
  }

  // ---------------------------------------------------------------------
  // Campaign states

  /** The builder of createCampaign: a DRAFT for the CV's tenant, counting the qualifying matches. */
  function NewCampaign(id: Uuid, cv: Cv, account: SmtpAccount, name: string, subject: string, bodyTemplate: string,
                       minMatchScore: int, recipients: seq<MatchResult>): (r: EmailCampaign)
    ensures r.id == id && r.tenantId == cv.tenantId && r.cvId == cv.id && r.smtpAccountId == account.id
    ensures r.status == CampaignStatus.Draft && r.totalRecipients == |recipients|
    ensures r.sentCount == 0 && r.failedCount == 0 && r.scheduledAt.None?
  {
    EmailCampaign(id, cv.tenantId, cv.id, account.id, name, subject, bodyTemplate, minMatchScore,
                  CampaignStatus.Draft, |recipients|, 0, 0, None, None, None)
  }

  /** scheduleCampaign on the loaded campaign: only a DRAFT becomes SCHEDULED, at the given time. */
  function Schedule(c: EmailCampaign, scheduledAt: Option<Time>): (r: Result<EmailCampaign>)
    ensures r.Ok? <==> c.status == CampaignStatus.Draft
    ensures r.Ok? ==> r.value.status == CampaignStatus.Scheduled && r.value.scheduledAt == scheduledAt
    ensures r.Ok? ==> r.value.(status := c.status, scheduledAt := c.scheduledAt) == c
    ensures r.Err? ==> r.message == "Only draft campaigns can be scheduled"
  {
    if c.status != CampaignStatus.Draft then Err("Only draft campaigns can be scheduled")
    else Ok(c.(scheduledAt := scheduledAt, status := CampaignStatus.Scheduled))
  }

  /** cancelCampaign on the loaded campaign: only a SCHEDULED one becomes CANCELLED. */
  function Cancel(c: EmailCampaign): (r: Result<EmailCampaign>)
    ensures r.Ok? <==> c.status == CampaignStatus.Scheduled
    ensures r.Ok? ==> r.value == c.(status := CampaignStatus.Cancelled)
    ensures r.Err? ==> r.message == "Only scheduled campaigns can be cancelled"
  {
    if c.status != CampaignStatus.Scheduled then Err("Only scheduled campaigns can be cancelled")
    else Ok(c.(status := CampaignStatus.Cancelled))
  }

  /** executeCampaign goes on past its status check only for these two states. */
  predicate Executable(status: CampaignStatus)
  {
    status == CampaignStatus.Scheduled || status == CampaignStatus.Draft
  }

  /**
    The campaign at the end of executeCampaign's run: COMPLETED with
    completedAt and the counts of the run when it finished, FAILED with no
    completion time when it threw; startedAt is set when one is given.
   */
  function Concluded(c: EmailCampaign, finished: bool, startedAt: Option<Time>, completedAt: Time,
                     sent: int, total: int): (r: EmailCampaign)
    ensures r.status == (if finished then CampaignStatus.Completed else CampaignStatus.Failed)
    ensures r.startedAt == (if startedAt.Some? then startedAt else c.startedAt)
    ensures r.completedAt == (if finished then Some(completedAt) else c.completedAt)
    ensures finished ==> r.sentCount == sent && r.failedCount == total - sent
  {
    if finished then WithStatus(c, CampaignStatus.Completed, startedAt, Some(completedAt)).(
                       sentCount := sent, failedCount := total - sent)
    else WithStatus(c, CampaignStatus.Failed, startedAt, None)
  }

  /**
    updateCampaignStatus on the loaded campaign: the status is set, and each
    timestamp only when one is given.
   */
  function WithStatus(c: EmailCampaign, status: CampaignStatus, startedAt: Option<Time>, completedAt: Option<Time>): (r: EmailCampaign)
    ensures r.status == status
    ensures r.startedAt == (if startedAt.Some? then startedAt else c.startedAt)
    ensures r.completedAt == (if completedAt.Some? then completedAt else c.completedAt)
    // every other column is left as it was
    ensures && r.id == c.id && r.tenantId == c.tenantId && r.cvId == c.cvId && r.smtpAccountId == c.smtpAccountId
            && r.name == c.name && r.subject == c.subject && r.bodyTemplate == c.bodyTemplate
            && r.minMatchScore == c.minMatchScore && r.totalRecipients == c.totalRecipients
            && r.sentCount == c.sentCount && r.failedCount == c.failedCount && r.scheduledAt == c.scheduledAt
  {
    var started := if startedAt.Some? then c.(startedAt := startedAt) else c;
    var completed := if completedAt.Some? then started.(completedAt := completedAt) else started;
    completed.(status := status)
  }

  /**
    A scheduled campaign cancelled can neither be scheduled, cancelled nor
    executed again; a cancelled draft was never possible.
   */
  lemma {:induction false} CancelledIsFinal(c: EmailCampaign, at: Option<Time>)
    requires c.status == CampaignStatus.Scheduled
    ensures Cancel(c).Ok? && Schedule(Cancel(c).value, at).Err? && Cancel(Cancel(c).value).Err?
    ensures !Executable(Cancel(c).value.status)
  {
    var d := Cancel(c).value;
    assert d.status == CampaignStatus.Cancelled;
  }

  // ---------------------------------------------------------------------
  // Sending

  /** A usable AI body: present and not empty once trimmed. */
  predicate UsableBody(aiBody: Option<string>)
  {
    aiBody.Some? && Trim(aiBody.value) != ""
  }

  /**
    sendAndUpdateLog on the loaded log: a usable AI body replaces the body;
    a delivered message makes the log SENT at the attempt's time, an
    exception makes it FAILED with the exception's message.  The retry
    count, the addressing and the keys never change.
   */
  function SentLog(l: EmailLog, att: Attempt): (r: EmailLog)
    ensures r.id == l.id && r.campaignId == l.campaignId && r.professorId == l.professorId
    ensures r.retryCount == l.retryCount && r.recipientEmail == l.recipientEmail && r.subject == l.subject
    ensures UsableBody(att.aiBody) ==> r.body == att.aiBody.value
    ensures !UsableBody(att.aiBody) ==> r.body == l.body
    ensures r.status == EmailStatus.Sent <==> att.delivery.Delivered?
    ensures att.delivery.Delivered? ==> r.sentAt == Some(att.sentAt) && r.errorMessage == l.errorMessage
    ensures att.delivery.Refused? ==> r.status == EmailStatus.Failed && r.errorMessage == att.delivery.message && r.sentAt == l.sentAt
  {
    var body := if UsableBody(att.aiBody) then att.aiBody.value else l.body;
    match att.delivery
    case Delivered => l.(body := body, status := EmailStatus.Sent, sentAt := Some(att.sentAt))
    case Refused(message) => l.(body := body, status := EmailStatus.Failed, errorMessage := message)
  }

  /** An iteration of the send loop succeeds when its log exists and its message is delivered. */
  predicate Succeeds(logs: map<Uuid, EmailLog>, logId: Uuid, att: Attempt)
  {
    logId in logs && att.delivery.Delivered?
  }

  /** The number of successful iterations among the first n. */
  function SentCount(logs: map<Uuid, EmailLog>, logIds: seq<Uuid>, attempt: int -> Attempt, n: int): (r: int)
    requires 0 <= n <= |logIds|
    ensures 0 <= r <= n
    decreases n
  {
    if n == 0 then 0
    else SentCount(logs, logIds, attempt, n - 1) + (if Succeeds(logs, logIds[n - 1], attempt(n - 1)) then 1 else 0)
  }

  /** When every message is delivered to an existing log, every iteration counts as sent. */
  lemma {:induction false} AllDeliveredAllSent(logs: map<Uuid, EmailLog>, logIds: seq<Uuid>, attempt: int -> Attempt, n: int)
    requires 0 <= n <= |logIds|
    requires forall i :: 0 <= i < n ==> Succeeds(logs, logIds[i], attempt(i))
    ensures SentCount(logs, logIds, attempt, n) == n
    decreases n
  {
    if n > 0 {
      AllDeliveredAllSent(logs, logIds, attempt, n - 1);
    }
  }

  /** Sent counts only grow as the loop goes on. */
  lemma {:induction false} SentCountMonotone(logs: map<Uuid, EmailLog>, logIds: seq<Uuid>, attempt: int -> Attempt, m: int, n: int)
    requires 0 <= m <= n <= |logIds|
    ensures SentCount(logs, logIds, attempt, m) <= SentCount(logs, logIds, attempt, n)
    ensures n - SentCount(logs, logIds, attempt, n) >= m - SentCount(logs, logIds, attempt, m)
    decreases n - m
  {
    if m < n {
      SentCountMonotone(logs, logIds, attempt, m, n - 1);
    }
  }

  /** One updateCampaignProgress call of the send loop: after how many iterations, and the counts it writes. */
  datatype ProgressWrite = ProgressWrite(processed: int, sent: int, failed: int)

  /** The campaign table after these progress writes: the last one's counts stand (none, or no campaign: unchanged). */
  function AfterProgress(campaigns: map<Uuid, EmailCampaign>, campaignId: Uuid, writes: seq<ProgressWrite>): map<Uuid, EmailCampaign>
  {
    if writes == [] || campaignId !in campaigns then campaigns
    else
      var last := writes[|writes| - 1];
      campaigns[campaignId := campaigns[campaignId].(sentCount := last.sent, failedCount := last.failed)]
  }

  /** The properties createMailSender of the send loop sets: authentication and the flags, no timeouts. */
  function CampaignSenderProperties(useTls: bool, useSsl: bool): (p: map<string, MSF.PropertyValue>)
    ensures p.Keys <= {MSF.Auth, MSF.StartTlsEnable, MSF.StartTlsRequired, MSF.SslEnable}
    ensures MSF.Auth in p && p[MSF.Auth] == MSF.Text("true")
    ensures MSF.StartTlsEnable in p <==> useTls
    ensures MSF.StartTlsRequired in p <==> useTls
    ensures MSF.SslEnable in p <==> useSsl
  {
    var auth := map[MSF.Auth := MSF.Text("true")];
    var tls := if useTls then auth[MSF.StartTlsEnable := MSF.Text("true")][MSF.StartTlsRequired := MSF.Text("true")] else auth;
    if useSsl then tls[MSF.SslEnable := MSF.Text("true")] else tls
  }

  /**
    The uncached sender of the send loop: a failing decryption throws, and
    so does a null TLS or SSL flag, which the code unboxes.
   */
  method CreateCampaignSender(a: SmtpAccount, decrypt: string -> Result<string>) returns (r: Result<MSF.MailSender>)
    ensures r.Ok? <==> SAS.DecryptPassword(a, decrypt).Ok? && a.useTls.Some? && a.useSsl.Some?
    ensures r.Ok? ==> fresh(r.value) && r.value.password == SAS.DecryptPassword(a, decrypt).value
    ensures r.Ok? ==> r.value.properties == CampaignSenderProperties(a.useTls.value, a.useSsl.value)
  {
    var password := SAS.DecryptPassword(a, decrypt);
    if password.Err? {
      return Err(password.message);
    }
    if a.useTls.None? || a.useSsl.None? {
      return Err("null");
    }
    var sender := new MSF.MailSender(a.smtpHost, a.smtpPort, a.username, password.value,
                                     CampaignSenderProperties(a.useTls.value, a.useSsl.value));
    r := Ok(sender);
  }

  // ---------------------------------------------------------------------
  // Saving seeded logs

  /** Ids the database hands out for n new rows: pairwise distinct and not yet in the table. */
  predicate FreshLogIds(n: int, newLogId: int -> Uuid, existing: map<Uuid, EmailLog>)
  {
    && (forall i, j :: 0 <= i < j < n ==> newLogId(i) != newLogId(j))
    && (forall i :: 0 <= i < n ==> newLogId(i) !in existing)
  }

  /** saveAll of these rows breaks the unique constraint on (campaign, professor). */
  predicate ViolatesUniquePair(existing: map<Uuid, EmailLog>, rows: seq<EmailLog>)
  {
    || (exists i, j :: 0 <= i < j < |rows| && LogPair(rows[i]) == LogPair(rows[j]))
    || (exists i, id :: 0 <= i < |rows| && id in existing && LogPair(existing[id]) == LogPair(rows[i]))
  }

  /** The ids saveAll returns, in the order of the rows. */
  function LogIds(rows: seq<EmailLog>): (r: seq<Uuid>)
    ensures |r| == |rows| && forall i :: 0 <= i < |rows| ==> r[i] == rows[i].id
  {
    seq(|rows|, i requires 0 <= i < |rows| => rows[i].id)
  }

  /**
    Rows with fresh, distinct ids that break neither the unique constraint
    among themselves nor against the table leave the table valid.
   */
  lemma SaveAllKeepsLogTableValid(existing: map<Uuid, EmailLog>, rows: seq<EmailLog>)
    requires LogTableValid(existing)
    requires UniqueBy(rows, LogId)
    requires forall i :: 0 <= i < |rows| ==> rows[i].id !in existing
    requires !ViolatesUniquePair(existing, rows)
    ensures LogTableValid(existing + LogMap(rows))
  {
    var added := LogMap(rows);
    var all := existing + added;
    forall id | id in all
      ensures all[id].id == id
    {
      if id in added {
        var i := LogMapRow(rows, id);
      }
    }
    forall a, b | a in all && b in all && a != b
      ensures LogPair(all[a]) != LogPair(all[b])
    {
      if a in added && b in added {
        var i := LogMapRow(rows, a);
        var j := LogMapRow(rows, b);
        if i < j {
          assert LogPair(rows[i]) != LogPair(rows[j]);
        } else {
          assert LogPair(rows[j]) != LogPair(rows[i]);
        }
      } else if a in added {
        var i := LogMapRow(rows, a);
        assert LogPair(existing[b]) != LogPair(rows[i]);
      } else if b in added {
        var j := LogMapRow(rows, b);
        assert LogPair(existing[a]) != LogPair(rows[j]);
      }
    }
  }

  /** A key of LogMap(rows) is the id of the row stored under it. */
  lemma LogMapRow(rows: seq<EmailLog>, k: Uuid) returns (i: nat)
    requires UniqueBy(rows, LogId) && k in LogMap(rows)
    ensures i < |rows| && rows[i].id == k && LogMap(rows)[k] == rows[i]
  {
    i :| 0 <= i < |rows| && rows[i].id == k;
    LogMapAt(rows, i);
  }

  lemma RecipientsWithinRows(rows: seq<MatchResult>, blacklist: seq<BlacklistEntry>, c: EmailCampaign,
                             newLogId: int -> Uuid, existing: map<Uuid, EmailLog>)
    requires FreshLogIds(|rows|, newLogId, existing)
    ensures FreshLogIds(|CampaignRecipients(rows, blacklist, c)|, newLogId, existing)
  {
    var qualifying := MatchesAtLeast(rows, c.cvId, c.tenantId, c.minMatchScore);
    var recipients := CampaignRecipients(rows, blacklist, c);
    assert |multiset(qualifying)| <= |multiset(rows)|;
    assert |multiset(recipients)| <= |multiset(qualifying)|;
  }

  /** Fresh distinct ids make the seeded rows distinct by primary key. */
  lemma SeededIdsUnique(campaign: EmailCampaign, ms: seq<MatchResult>, newLogId: int -> Uuid, existing: map<Uuid, EmailLog>)
    requires FreshLogIds(|ms|, newLogId, existing)
    ensures UniqueBy(SeedLogs(campaign, ms, newLogId), LogId)
    ensures forall i :: 0 <= i < |ms| ==> SeedLogs(campaign, ms, newLogId)[i].id !in existing
  {
    var rows := SeedLogs(campaign, ms, newLogId);
    forall i, j | 0 <= i < |rows| && 0 <= j < |rows| && i != j
      ensures LogId(rows[i]) != LogId(rows[j])
    {
      if i < j {
        assert newLogId(i) != newLogId(j);
      } else {
        assert newLogId(j) != newLogId(i);
      }
    }
  }

  // ---------------------------------------------------------------------
  // The send loop, specified

  /** The log table after the first n iterations of the send loop: each existing log run through SentLog. */
  function AfterSends(logs: map<Uuid, EmailLog>, logIds: seq<Uuid>, attempt: int -> Attempt, n: int): (r: map<Uuid, EmailLog>)
    requires 0 <= n <= |logIds|
    ensures r.Keys == logs.Keys
    decreases n
  {
    if n == 0 then logs
    else
      var prev := AfterSends(logs, logIds, attempt, n - 1);
      var id := logIds[n - 1];
      if id in prev then prev[id := SentLog(prev[id], attempt(n - 1))] else prev
  }

  /**
    With distinct log ids (as saveAll returns them) the loop sends each log
    once: a listed log ends as SentLog of its seeded state under its own
    iteration's attempt, and every other log is left alone.
   */
  lemma {:induction false} SendsEachLogOnce(logs: map<Uuid, EmailLog>, logIds: seq<Uuid>, attempt: int -> Attempt, n: int)
    requires 0 <= n <= |logIds|
    requires forall i, j :: 0 <= i < j < n ==> logIds[i] != logIds[j]
    ensures forall i :: 0 <= i < n && logIds[i] in logs ==>
              AfterSends(logs, logIds, attempt, n)[logIds[i]] == SentLog(logs[logIds[i]], attempt(i))
    ensures forall id :: id in logs && (forall i :: 0 <= i < n ==> logIds[i] != id) ==>
              AfterSends(logs, logIds, attempt, n)[id] == logs[id]
    decreases n
  {
    if n > 0 {
      SendsEachLogOnce(logs, logIds, attempt, n - 1);
      var prev := AfterSends(logs, logIds, attempt, n - 1);
      var last := logIds[n - 1];
      var now := AfterSends(logs, logIds, attempt, n);
      forall i | 0 <= i < n && logIds[i] in logs
        ensures now[logIds[i]] == SentLog(logs[logIds[i]], attempt(i))
      {
        if i < n - 1 {
          assert logIds[i] != last;
        } else {
          assert prev[last] == logs[last];
        }
      }
    }
  }

  /** Sending keeps each log's id, campaign and professor, so the log table stays valid. */
  lemma {:induction false} AfterSendsKeepsValid(logs: map<Uuid, EmailLog>, logIds: seq<Uuid>, attempt: int -> Attempt, n: int)
    requires 0 <= n <= |logIds|
    requires LogTableValid(logs)
    ensures LogTableValid(AfterSends(logs, logIds, attempt, n))
    ensures forall id :: id in logs ==> LogPair(AfterSends(logs, logIds, attempt, n)[id]) == LogPair(logs[id])
    decreases n
  {
    if n > 0 {
      AfterSendsKeepsValid(logs, logIds, attempt, n - 1);
      var prev := AfterSends(logs, logIds, attempt, n - 1);
      var id := logIds[n - 1];
      if id in prev {
        SentKeepsValid(prev, id, attempt(n - 1));
      }
    }
  }

  // ---------------------------------------------------------------------
  // Seeding and sending, specified

  /**
    Seeding the recipients' logs and sending them gets through: the new rows
    keep the (campaign, professor) constraint, a sender can be built for the
    campaign's account, and the batch size is not zero unless nothing is sent.
   */
  predicate SendsThrough(existing: map<Uuid, EmailLog>, c: EmailCampaign, recipients: seq<MatchResult>,
                         newLogId: int -> Uuid, byTenant: map<Uuid, SmtpAccount>,
                         decrypt: string -> Result<string>, batchSize: int)
  {
    && !ViolatesUniquePair(existing, SeedLogs(c, recipients, newLogId))
    && AccountWorks(byTenant, c.smtpAccountId, decrypt)
    && (batchSize != 0 || |recipients| == 0)
  }

  /**
    The log table seeding and sending leave behind: nothing when the save of
    the seeded rows fails, the PENDING rows when no sender can be built, and
    otherwise the rows after the loop (one iteration when a zero batch size
    throws).
   */
  function LogsAfterRun(existing: map<Uuid, EmailLog>, c: EmailCampaign, recipients: seq<MatchResult>,
                        newLogId: int -> Uuid, byTenant: map<Uuid, SmtpAccount>,
                        decrypt: string -> Result<string>, batchSize: int, attempt: int -> Attempt): map<Uuid, EmailLog>
  {
    var rows := SeedLogs(c, recipients, newLogId);
    if ViolatesUniquePair(existing, rows) then existing
    else if !AccountWorks(byTenant, c.smtpAccountId, decrypt) then existing + LogMap(rows)
    else AfterSends(existing + LogMap(rows), LogIds(rows), attempt,
                    if batchSize != 0 || |recipients| == 0 then |recipients| else 1)
  }

  /** The sent count of a run that gets through. */
  function RunSentCount(existing: map<Uuid, EmailLog>, c: EmailCampaign, recipients: seq<MatchResult>,
                        newLogId: int -> Uuid, attempt: int -> Attempt): int
  {
    var rows := SeedLogs(c, recipients, newLogId);
    SentCount(existing + LogMap(rows), LogIds(rows), attempt, |recipients|)
  }

  /**
    A run that gets through sends every recipient exactly one email: the log
    seeded for recipient i ends as SentLog of its PENDING state under
    iteration i's attempt, and every log already in the table stays as it
    was.
   */
  lemma RunSendsEachRecipient(existing: map<Uuid, EmailLog>, c: EmailCampaign, recipients: seq<MatchResult>,
                              newLogId: int -> Uuid, byTenant: map<Uuid, SmtpAccount>,
                              decrypt: string -> Result<string>, batchSize: int, attempt: int -> Attempt)
    requires FreshLogIds(|recipients|, newLogId, existing)
    requires SendsThrough(existing, c, recipients, newLogId, byTenant, decrypt, batchSize)
    ensures var after := LogsAfterRun(existing, c, recipients, newLogId, byTenant, decrypt, batchSize, attempt);
            && after.Keys == existing.Keys + (set i | 0 <= i < |recipients| :: newLogId(i))
            && (forall i :: 0 <= i < |recipients| ==>
                  after[newLogId(i)] == SentLog(CreateEmailLog(c, recipients[i], newLogId(i)), attempt(i)))
            && (forall id :: id in existing ==> after[id] == existing[id])
  {
    var rows := SeedLogs(c, recipients, newLogId);
    var after := LogsAfterRun(existing, c, recipients, newLogId, byTenant, decrypt, batchSize, attempt);
    assert after == AfterSends(existing + LogMap(rows), LogIds(rows), attempt, |recipients|);
    SeededTable(existing, c, recipients, newLogId);
    SeededLogsSent(existing, c, recipients, newLogId, attempt);
  }

  /** The loop over the seeded ids sends each seeded log once and leaves the earlier logs alone. */
  lemma SeededLogsSent(existing: map<Uuid, EmailLog>, c: EmailCampaign, recipients: seq<MatchResult>,
                       newLogId: int -> Uuid, attempt: int -> Attempt)
    requires FreshLogIds(|recipients|, newLogId, existing)
    ensures var rows := SeedLogs(c, recipients, newLogId);
            var after := AfterSends(existing + LogMap(rows), LogIds(rows), attempt, |recipients|);
            && (forall i :: 0 <= i < |recipients| ==>
                  newLogId(i) in after
                  && after[newLogId(i)] == SentLog(CreateEmailLog(c, recipients[i], newLogId(i)), attempt(i)))
            && (forall id :: id in existing ==> id in after && after[id] == existing[id])
  {
    forall i | 0 <= i < |recipients| {
      SeededLogSent(existing, c, recipients, newLogId, attempt, i);
    }
    EarlierLogsKept(existing, c, recipients, newLogId, attempt);
  }

  lemma SeededLogSent(existing: map<Uuid, EmailLog>, c: EmailCampaign, recipients: seq<MatchResult>,
                      newLogId: int -> Uuid, attempt: int -> Attempt, i: int)
    requires FreshLogIds(|recipients|, newLogId, existing) && 0 <= i < |recipients|
    ensures var rows := SeedLogs(c, recipients, newLogId);
            var after := AfterSends(existing + LogMap(rows), LogIds(rows), attempt, |recipients|);
            newLogId(i) in after && after[newLogId(i)] == SentLog(CreateEmailLog(c, recipients[i], newLogId(i)), attempt(i))
  {
    var rows := SeedLogs(c, recipients, newLogId);
    SeededRow(existing, c, recipients, newLogId, i);
    SendsEachLogOnce(existing + LogMap(rows), LogIds(rows), attempt, |recipients|);
  }

  /** Seeded row i is saved under newLogId(i), and the seeded ids are distinct. */
  lemma SeededRow(existing: map<Uuid, EmailLog>, c: EmailCampaign, recipients: seq<MatchResult>,
                  newLogId: int -> Uuid, i: int)
    requires FreshLogIds(|recipients|, newLogId, existing) && 0 <= i < |recipients|
    ensures var rows := SeedLogs(c, recipients, newLogId);
            && LogIds(rows)[i] == newLogId(i)
            && newLogId(i) in LogMap(rows) && LogMap(rows)[newLogId(i)] == CreateEmailLog(c, recipients[i], newLogId(i))
            && forall a, b :: 0 <= a < b < |rows| ==> LogIds(rows)[a] != LogIds(rows)[b]
  {
    var rows := SeedLogs(c, recipients, newLogId);
    SeededIdsUnique(c, recipients, newLogId, existing);
    LogMapAt(rows, i);
    SeededIdsDistinct(existing, c, recipients, newLogId);
  }

  /** The ids the seeded rows return are pairwise distinct. */
  lemma SeededIdsDistinct(existing: map<Uuid, EmailLog>, c: EmailCampaign, recipients: seq<MatchResult>,
                          newLogId: int -> Uuid)
    requires FreshLogIds(|recipients|, newLogId, existing)
    ensures var rows := SeedLogs(c, recipients, newLogId);
            forall a, b :: 0 <= a < b < |rows| ==> LogIds(rows)[a] != LogIds(rows)[b]
  {
    var rows := SeedLogs(c, recipients, newLogId);
    forall a, b | 0 <= a < b < |rows|
      ensures LogIds(rows)[a] != LogIds(rows)[b]
    {
      assert LogIds(rows)[a] == newLogId(a) && LogIds(rows)[b] == newLogId(b);
    }
  }

  /** The loop over the seeded ids leaves every log that was already stored as it was. */
  lemma EarlierLogsKept(existing: map<Uuid, EmailLog>, c: EmailCampaign, recipients: seq<MatchResult>,
                        newLogId: int -> Uuid, attempt: int -> Attempt)
    requires FreshLogIds(|recipients|, newLogId, existing)
    ensures var rows := SeedLogs(c, recipients, newLogId);
            var after := AfterSends(existing + LogMap(rows), LogIds(rows), attempt, |recipients|);
            forall id :: id in existing ==> id in after && after[id] == existing[id]
  {
    forall id | id in existing {
      EarlierLogKept(existing, c, recipients, newLogId, attempt, id);
    }
  }

  lemma EarlierLogKept(existing: map<Uuid, EmailLog>, c: EmailCampaign, recipients: seq<MatchResult>,
                       newLogId: int -> Uuid, attempt: int -> Attempt, id: Uuid)
    requires FreshLogIds(|recipients|, newLogId, existing) && id in existing
    ensures var rows := SeedLogs(c, recipients, newLogId);
            var after := AfterSends(existing + LogMap(rows), LogIds(rows), attempt, |recipients|);
            id in after && after[id] == existing[id]
  {
    var rows := SeedLogs(c, recipients, newLogId);
    NotSeeded(existing, c, recipients, newLogId, id);
    SendsEachLogOnce(existing + LogMap(rows), LogIds(rows), attempt, |recipients|);
  }

  /** A stored id is none of the seeded ids. */
  lemma NotSeeded(existing: map<Uuid, EmailLog>, c: EmailCampaign, recipients: seq<MatchResult>,
                  newLogId: int -> Uuid, id: Uuid)
    requires FreshLogIds(|recipients|, newLogId, existing) && id in existing
    ensures var rows := SeedLogs(c, recipients, newLogId);
            && id !in LogMap(rows)
            && forall i :: 0 <= i < |rows| ==> LogIds(rows)[i] != id
  {
    var rows := SeedLogs(c, recipients, newLogId);
    assert forall i :: 0 <= i < |rows| ==> rows[i].id == newLogId(i);
  }

  /**
    saveAll of the seeded rows: the table gains exactly the new ids, each
    holding its PENDING log, the old rows stay, and the returned ids are
    the new ids in order.
   */
  lemma SeededTable(existing: map<Uuid, EmailLog>, c: EmailCampaign, recipients: seq<MatchResult>, newLogId: int -> Uuid)
    requires FreshLogIds(|recipients|, newLogId, existing)
    ensures var rows := SeedLogs(c, recipients, newLogId);
            var seeded := existing + LogMap(rows);
            && seeded.Keys == existing.Keys + (set i | 0 <= i < |recipients| :: newLogId(i))
            && (forall i :: 0 <= i < |recipients| ==> seeded[newLogId(i)] == CreateEmailLog(c, recipients[i], newLogId(i)))
            && (forall id :: id in existing ==> seeded[id] == existing[id])
            && |LogIds(rows)| == |recipients|
            && (forall i :: 0 <= i < |recipients| ==> LogIds(rows)[i] == newLogId(i))
  {
    var rows := SeedLogs(c, recipients, newLogId);
    SeededIdsUnique(c, recipients, newLogId, existing);
    forall i | 0 <= i < |recipients|
      ensures newLogId(i) in LogMap(rows) && LogMap(rows)[newLogId(i)] == rows[i]
    {
      LogMapAt(rows, i);
    }
  }

  /** Saving one sent log keeps its id, campaign and professor, so the log table stays valid. */
  lemma SentKeepsValid(prev: map<Uuid, EmailLog>, id: Uuid, att: Attempt)
    requires LogTableValid(prev) && id in prev
    ensures LogPair(SentLog(prev[id], att)) == LogPair(prev[id]) && SentLog(prev[id], att).id == prev[id].id
    ensures LogTableValid(prev[id := SentLog(prev[id], att)])
  {
  }

  /**
    The number of iterations a rate window holds: the counter is bumped and
    compared with rateLimitPerMinute before each send, so a limit below 1
    resets the window on every iteration, as a limit of 1 does.
   */
  function Period(rateLimit: int): int
  {
    if rateLimit < 1 then 1 else rateLimit
  }

  /** When the k-th rate window (from 0) began: the loop's start, then the clock read after each reset. */
  function WindowStart(attempt: int -> Attempt, startTime: Time, period: int, k: int): Time
  {
    if k <= 0 then startTime else attempt(k * period - 1).resumedAt
  }

  /** The k-th reset (from 0): at the last iteration of the k-th window, waiting out what is left of its minute. */
  function ResetAt(attempt: int -> Attempt, startTime: Time, period: int, k: int): WindowReset
  {
    var iteration := (k + 1) * period - 1;
    WindowReset(iteration, WindowMillis - (attempt(iteration).checkedAt - WindowStart(attempt, startTime, period, k)))
  }

  /** The resets after n iterations: one per completed window, each at its window's last iteration. */
  predicate ResetsAfter(resets: seq<WindowReset>, n: int, rateLimit: int, attempt: int -> Attempt, startTime: Time)
  {
    && |resets| == n / Period(rateLimit)
    && forall k :: 0 <= k < |resets| ==> resets[k] == ResetAt(attempt, startTime, Period(rateLimit), k)
  }

  /** The magnitude of batchSize: Java's remainder by it is zero exactly at its multiples. */
  function BatchPeriod(batchSize: int): int
  {
    if batchSize < 0 then -batchSize else batchSize
  }

  /** The progress writes made inside the loop by iteration n: one at each multiple of the batch period, with the counts then. */
  predicate BatchWrites(writes: seq<ProgressWrite>, n: int, period: int, logs: map<Uuid, EmailLog>, logIds: seq<Uuid>,
                        attempt: int -> Attempt)
    requires 0 <= n <= |logIds| && period > 0
  {
    && |writes| == n / period
    && forall k :: 0 <= k < |writes| ==>
         && 0 < writes[k].processed <= n
         && writes[k].processed == (k + 1) * period
         && writes[k].sent == SentCount(logs, logIds, attempt, writes[k].processed)
         && writes[k].failed == writes[k].processed - writes[k].sent
  }

  /** createMailSender of the send loop succeeds for this account: the password decrypts and both flags are set. */
  predicate SenderBuilds(a: SmtpAccount, decrypt: string -> Result<string>)
  {
    SAS.DecryptPassword(a, decrypt).Ok? && a.useTls.Some? && a.useSsl.Some?
  }

  /** The campaign's SMTP account is stored and a sender can be built for it. */
  predicate AccountWorks(byTenant: map<Uuid, SmtpAccount>, accountId: Uuid, decrypt: string -> Result<string>)
  {
    exists t :: t in byTenant && byTenant[t].id == accountId && SenderBuilds(byTenant[t], decrypt)
  }

  /** executeCampaign gets past loading the CV's file. */
  predicate FileLoads(cvs: map<Uuid, Cv>, storage: FS.FileStorage, c: EmailCampaign)
    requires storage.Valid()
    reads storage
  {
    c.cvId in cvs && storage.RetrieveFile(cvs[c.cvId].filePath).Ok?
  }

  // ---------------------------------------------------------------------
  // The service

  /** How executeCampaign ended. */
  datatype Execution = NotRun | FailedBeforeStart | FailedAfterStart | Finished

  class CampaignEngine {
    const campaigns: EmailCampaignRepository
    const logs: EmailLogRepository
    const blacklist: EmailBlacklistRepository
    const matches: MatchResultRepository
    const cvs: CvRepository
    const accounts: SmtpAccountRepository
    const storage: FS.FileStorage
    /** scholar.email.batch-size */
    const batchSize: int
    /** scholar.email.rate-limit-per-minute */
    const rateLimitPerMinute: int

    constructor (campaigns: EmailCampaignRepository, logs: EmailLogRepository, blacklist: EmailBlacklistRepository,
                 matches: MatchResultRepository, cvs: CvRepository, accounts: SmtpAccountRepository,
                 storage: FS.FileStorage, batchSize: int, rateLimitPerMinute: int)
      ensures this.campaigns == campaigns && this.logs == logs && this.blacklist == blacklist
      ensures this.matches == matches && this.cvs == cvs && this.accounts == accounts && this.storage == storage
      ensures this.batchSize == batchSize && this.rateLimitPerMinute == rateLimitPerMinute
    {
      this.campaigns := campaigns;
      this.logs := logs;
      this.blacklist := blacklist;
      this.matches := matches;
      this.cvs := cvs;
      this.accounts := accounts;
      this.storage := storage;
      this.batchSize := batchSize;
      this.rateLimitPerMinute := rateLimitPerMinute;
    }

    /**
      createCampaign: the tenant needs an ACTIVE SMTP account and the CV must
      exist; the new campaign is a DRAFT of the CV's tenant whose recipient
      count is the number of the CV's results at or above the minimum score.
     */
    method CreateCampaign(tenantId: Uuid, cvId: Uuid, name: string, subject: string, bodyTemplate: string,
                          minMatchScore: int, newId: Uuid) returns (r: Result<EmailCampaign>)
      requires campaigns.Valid() && newId !in campaigns.campaigns
      modifies campaigns
      ensures campaigns.Valid()
      ensures accounts.FindActiveByTenantId(tenantId).None? ==>
                r == Err("Active SMTP account not found for tenant: " + tenantId)
      ensures accounts.FindActiveByTenantId(tenantId).Some? && cvId !in cvs.cvs ==> r == Err("No value present")
      ensures r.Err? ==> campaigns.campaigns == old(campaigns.campaigns)
      ensures r.Ok? <==> accounts.FindActiveByTenantId(tenantId).Some? && cvId in cvs.cvs
      ensures r.Ok? ==>
                var recipients := MatchesAtLeast(matches.rows, cvId, tenantId, minMatchScore);
                && r.value == NewCampaign(newId, cvs.cvs[cvId], accounts.byTenant[tenantId], name, subject,
                                          bodyTemplate, minMatchScore, recipients)
                && r.value.status == CampaignStatus.Draft
                && r.value.totalRecipients == |recipients|
                && campaigns.campaigns == old(campaigns.campaigns)[newId := r.value]
    {
      var account := accounts.FindActiveByTenantId(tenantId);
      if account.None? {
        return Err("Active SMTP account not found for tenant: " + tenantId);
      }
      if cvId !in cvs.cvs {
        return Err("No value present");
      }
      var recipients := MatchesAtLeast(matches.rows, cvId, tenantId, minMatchScore);
      var campaign := NewCampaign(newId, cvs.cvs[cvId], account.value, name, subject, bodyTemplate,
                                  minMatchScore, recipients);
      campaigns.Save(campaign);
      r := Ok(campaign);
    }

    /** scheduleCampaign: the tenant's campaign, and only from DRAFT. */
    method ScheduleCampaign(campaignId: Uuid, tenantId: Uuid, scheduledAt: Option<Time>) returns (r: Result<EmailCampaign>)
      requires campaigns.Valid()
      modifies campaigns
      ensures old(campaigns.FindByIdAndTenantId(campaignId, tenantId)).None? ==> r == Err("No value present")
      ensures old(campaigns.FindByIdAndTenantId(campaignId, tenantId)).Some? ==>
                r == Schedule(old(campaigns.campaigns[campaignId]), scheduledAt)
      ensures r.Err? ==> campaigns.campaigns == old(campaigns.campaigns)
      ensures r.Ok? ==> campaigns.campaigns == old(campaigns.campaigns)[campaignId := r.value]
      ensures campaigns.Valid()
    {
      var found := campaigns.FindByIdAndTenantId(campaignId, tenantId);
      if found.None? {
        return Err("No value present");
      }
      r := Schedule(found.value, scheduledAt);
      if r.Ok? {
        campaigns.Save(r.value);
      }
    }

    /** cancelCampaign: the tenant's campaign, and only from SCHEDULED. */
    method CancelCampaign(campaignId: Uuid, tenantId: Uuid) returns (r: Result<EmailCampaign>)
      requires campaigns.Valid()
      modifies campaigns
      ensures old(campaigns.FindByIdAndTenantId(campaignId, tenantId)).None? ==> r == Err("No value present")
      ensures old(campaigns.FindByIdAndTenantId(campaignId, tenantId)).Some? ==>
                r == Cancel(old(campaigns.campaigns[campaignId]))
      ensures r.Err? ==> campaigns.campaigns == old(campaigns.campaigns)
      ensures r.Ok? ==> campaigns.campaigns == old(campaigns.campaigns)[campaignId := r.value]
      ensures campaigns.Valid()
    {
      var found := campaigns.FindByIdAndTenantId(campaignId, tenantId);
      if found.None? {
        return Err("No value present");
      }
      r := Cancel(found.value);
      if r.Ok? {
        campaigns.Save(r.value);
      }
    }

    /** updateCampaignStatus: a missing campaign is silently skipped. */
    method UpdateCampaignStatus(campaignId: Uuid, status: CampaignStatus, startedAt: Option<Time>, completedAt: Option<Time>)
      requires campaigns.Valid()
      modifies campaigns
      ensures campaigns.Valid()
      ensures campaignId !in old(campaigns.campaigns) ==> campaigns.campaigns == old(campaigns.campaigns)
      ensures campaignId in old(campaigns.campaigns) ==>
                campaigns.campaigns == old(campaigns.campaigns)[campaignId := WithStatus(old(campaigns.campaigns[campaignId]), status, startedAt, completedAt)]
    ensures campaigns.campaigns - {campaignId} == old(campaigns.campaigns) - {campaignId}
    {
      if campaignId in campaigns.campaigns {
        campaigns.Save(WithStatus(campaigns.campaigns[campaignId], status, startedAt, completedAt));
      }
    }

    /** updateCampaignProgress: a missing campaign is silently skipped. */
    method UpdateCampaignProgress(campaignId: Uuid, sent: int, failed: int)
      requires campaigns.Valid()
      modifies campaigns
      ensures campaigns.Valid()
      ensures campaigns.campaigns == AfterProgress(old(campaigns.campaigns), campaignId, [ProgressWrite(0, sent, failed)])
    {
      if campaignId in campaigns.campaigns {
        campaigns.Save(campaigns.campaigns[campaignId].(sentCount := sent, failedCount := failed));
      }
    }

    /**
      sendAndUpdateLog: a missing log throws before the attempt; otherwise
      the log is saved as SentLog says and the result tells whether it was sent.
     */
    method SendAndUpdateLog(logId: Uuid, att: Attempt) returns (r: Result<bool>)
      requires logs.Valid()
      modifies logs
      ensures logs.Valid()
      ensures logId !in old(logs.logs) ==> r == Err("No value present") && logs.logs == old(logs.logs)
      ensures logId in old(logs.logs) ==>
                && r == Ok(att.delivery.Delivered?)
                && logs.logs == old(logs.logs)[logId := SentLog(old(logs.logs[logId]), att)]
    {
      if logId !in logs.logs {
        return Err("No value present");
      }
      var sent := SentLog(logs.logs[logId], att);
      assert LogPair(sent) == LogPair(logs.logs[logId]);
      logs.Save(sent);
      r := Ok(att.delivery.Delivered?);
    }

    /**
      initializeEmailLogs: one PENDING log per match, saved together; the ids
      are returned in match order.  The save fails as a whole when it would
      break the unique constraint on (campaign, professor).
     */
    method InitializeEmailLogs(campaignId: Uuid, ms: seq<MatchResult>, newLogId: int -> Uuid) returns (r: Result<seq<Uuid>>)
      requires logs.Valid() && FreshLogIds(|ms|, newLogId, logs.logs)
      modifies logs
      ensures campaignId !in campaigns.campaigns ==> r == Err("No value present")
      ensures campaignId in campaigns.campaigns ==>
                var rows := SeedLogs(campaigns.campaigns[campaignId], ms, newLogId);
                && (r.Err? <==> ViolatesUniquePair(old(logs.logs), rows))
                && (r.Ok? ==> r.value == LogIds(rows) && logs.logs == old(logs.logs) + LogMap(rows))
      ensures r.Err? ==> logs.logs == old(logs.logs)
      ensures logs.Valid()
    {
      if campaignId !in campaigns.campaigns {
        return Err("No value present");
      }
      var rows := SeedLogs(campaigns.campaigns[campaignId], ms, newLogId);
      if ViolatesUniquePair(logs.logs, rows) {
        return Err("uq_email_log_campaign_professor");
      }
      SeededIdsUnique(campaigns.campaigns[campaignId], ms, newLogId, logs.logs);
      SaveAllKeepsLogTableValid(logs.logs, rows);
      logs.SaveAll(rows);
      r := Ok(LogIds(rows));
    }

    /**
      The loop of processBatchedEmails over the seeded log ids.  Each
      iteration first counts itself into the rate window (a full window
      computes the wait left of its minute and opens a new one), then sends
      and counts the log as sent or failed, a missing log as failed; every
      batchSize iterations the counts are written.  A zero batchSize throws
      right after the first iteration.
     */
    method SendLoop(campaignId: Uuid, logIds: seq<Uuid>, attempt: int -> Attempt, startTime: Time)
      returns (completed: bool, sent: int, failed: int, resets: seq<WindowReset>, writes: seq<ProgressWrite>)
      requires campaigns.Valid() && logs.Valid()
      modifies campaigns, logs
      ensures campaigns.Valid() && logs.Valid()
      ensures completed <==> batchSize != 0 || |logIds| == 0
      ensures var n := if completed then |logIds| else 1;
              && logs.logs == AfterSends(old(logs.logs), logIds, attempt, n)
              && sent == SentCount(old(logs.logs), logIds, attempt, n)
              && failed == n - sent
              && ResetsAfter(resets, n, rateLimitPerMinute, attempt, startTime)
              && campaigns.campaigns == AfterProgress(old(campaigns.campaigns), campaignId, writes)
      ensures completed && batchSize != 0 ==> BatchWrites(writes, |logIds|, BatchPeriod(batchSize), old(logs.logs), logIds, attempt)
      ensures !completed || batchSize == 0 ==> writes == []
    {
      ghost var logs0 := logs.logs;
      ghost var campaigns0 := campaigns.campaigns;
      ghost var period := Period(rateLimitPerMinute);
      var processed, emailsInCurrentMinute, windowStart := 0, 0, startTime;
      sent, failed, resets, writes := 0, 0, [], [];
      while processed < |logIds|
        invariant 0 <= processed <= |logIds|
        invariant campaigns.Valid() && logs.Valid()
        invariant logs.logs == AfterSends(logs0, logIds, attempt, processed)
        invariant sent == SentCount(logs0, logIds, attempt, processed) && failed == processed - sent
        invariant emailsInCurrentMinute == processed % period
        invariant windowStart == WindowStart(attempt, startTime, period, processed / period)
        invariant ResetsAfter(resets, processed, rateLimitPerMinute, attempt, startTime)
        invariant processed > 0 ==> batchSize != 0
        invariant batchSize != 0 ==> BatchWrites(writes, processed, BatchPeriod(batchSize), logs0, logIds, attempt)
        invariant batchSize == 0 ==> writes == []
        invariant campaigns.campaigns == AfterProgress(campaigns0, campaignId, writes)
      {
        var att := attempt(processed);
        emailsInCurrentMinute, windowStart, resets :=
          CountIntoWindow(processed, emailsInCurrentMinute, windowStart, resets, att, attempt, startTime);
        sent, failed := SendCounted(logIds, processed, att, sent, failed, logs0, attempt);
        if batchSize == 0 {
          return false, sent, failed, resets, [];
        }
        processed := processed + 1;
        writes := RecordProgress(campaignId, processed, sent, failed, writes, campaigns0, logs0, logIds, attempt);
      }
      completed := true;
    }

    /** The send of iteration n: the log is updated and the iteration counted as sent or failed. */
    method SendCounted(logIds: seq<Uuid>, n: int, att: Attempt, sent: int, failed: int,
                       ghost logs0: map<Uuid, EmailLog>, ghost attempt: int -> Attempt)
      returns (nextSent: int, nextFailed: int)
      requires logs.Valid() && 0 <= n < |logIds| && att == attempt(n)
      requires logs.logs == AfterSends(logs0, logIds, attempt, n)
      requires sent == SentCount(logs0, logIds, attempt, n) && failed == n - sent
      modifies logs
      ensures logs.Valid()
      ensures logs.logs == AfterSends(logs0, logIds, attempt, n + 1)
      ensures nextSent == SentCount(logs0, logIds, attempt, n + 1) && nextFailed == n + 1 - nextSent
    {
      var outcome := SendAndUpdateLog(logIds[n], att);
      nextSent, nextFailed := sent, failed;
      if outcome == Ok(true) {
        nextSent := sent + 1;
      } else {
        nextFailed := failed + 1;
      }
    }

    /**
      The rate check at the head of iteration n: the counter is bumped, and a
      full window records its wait (slept only when positive), restarts the
      window at the clock read after the pause and clears the counter.
     */
    method CountIntoWindow(n: int, count: int, windowStart: Time, resets: seq<WindowReset>, att: Attempt,
                           ghost attempt: int -> Attempt, ghost startTime: Time)
      returns (nextCount: int, nextStart: Time, nextResets: seq<WindowReset>)
      requires n >= 0 && att == attempt(n) && count == n % Period(rateLimitPerMinute)
      requires windowStart == WindowStart(attempt, startTime, Period(rateLimitPerMinute), n / Period(rateLimitPerMinute))
      requires ResetsAfter(resets, n, rateLimitPerMinute, attempt, startTime)
      ensures nextCount == (n + 1) % Period(rateLimitPerMinute)
      ensures nextStart == WindowStart(attempt, startTime, Period(rateLimitPerMinute), (n + 1) / Period(rateLimitPerMinute))
      ensures ResetsAfter(nextResets, n + 1, rateLimitPerMinute, attempt, startTime)
    {
      WindowStep(n, count, windowStart, resets, rateLimitPerMinute, attempt, startTime);
      nextCount, nextStart, nextResets := count + 1, windowStart, resets;
      if nextCount >= rateLimitPerMinute {
        nextResets := resets + [WindowReset(n, WindowMillis - (att.checkedAt - windowStart))];
        nextStart := att.resumedAt;
        nextCount := 0;
      }
    }

    /** The batch check at the foot of an iteration: the counts are written when processed is a multiple of batchSize. */
    method RecordProgress(campaignId: Uuid, processed: int, sent: int, failed: int, writes: seq<ProgressWrite>,
                          ghost campaigns0: map<Uuid, EmailCampaign>, ghost logs0: map<Uuid, EmailLog>,
                          ghost logIds: seq<Uuid>, ghost attempt: int -> Attempt)
      returns (nextWrites: seq<ProgressWrite>)
      requires batchSize != 0 && 0 < processed <= |logIds|
      requires BatchWrites(writes, processed - 1, BatchPeriod(batchSize), logs0, logIds, attempt)
      requires sent == SentCount(logs0, logIds, attempt, processed) && failed == processed - sent
      requires campaigns.Valid() && campaigns.campaigns == AfterProgress(campaigns0, campaignId, writes)
      modifies campaigns
      ensures campaigns.Valid()
      ensures BatchWrites(nextWrites, processed, BatchPeriod(batchSize), logs0, logIds, attempt)
      ensures campaigns.campaigns == AfterProgress(campaigns0, campaignId, nextWrites)
    {
      WritesStep(writes, processed - 1, batchSize, logs0, logIds, attempt);
      nextWrites := writes;
      if processed % batchSize == 0 {
        UpdateCampaignProgress(campaignId, sent, failed);
        nextWrites := writes + [ProgressWrite(processed, sent, failed)];
      }
    }

    /**
      processBatchedEmails: the campaign is reloaded, a sender is built for
      its SMTP account, the loop runs, and the final counts are written.
      A failure before the loop changes nothing; a zero batchSize fails after
      the first log has been sent.
     */
    method ProcessBatchedEmails(campaignId: Uuid, logIds: seq<Uuid>, decrypt: string -> Result<string>,
                                attempt: int -> Attempt, startTime: Time) returns (r: Result<(int, int)>)
      requires campaigns.Valid() && logs.Valid() && accounts.Valid()
      modifies campaigns, logs
      ensures campaigns.Valid() && logs.Valid()
      ensures r.Ok? <==> && campaignId in old(campaigns.campaigns)
                         && AccountWorks(accounts.byTenant, old(campaigns.campaigns[campaignId]).smtpAccountId, decrypt)
                         && (batchSize != 0 || |logIds| == 0)
      ensures r.Ok? ==>
                && r.value.0 == SentCount(old(logs.logs), logIds, attempt, |logIds|)
                && r.value.1 == |logIds| - r.value.0
                && logs.logs == AfterSends(old(logs.logs), logIds, attempt, |logIds|)
                && campaigns.campaigns == old(campaigns.campaigns)[campaignId :=
                     old(campaigns.campaigns[campaignId]).(sentCount := r.value.0, failedCount := r.value.1)]
      ensures campaignId in old(campaigns.campaigns) ==>
                && campaignId in campaigns.campaigns
                && campaigns.campaigns[campaignId] == old(campaigns.campaigns[campaignId]).(
                     sentCount := campaigns.campaigns[campaignId].sentCount,
                     failedCount := campaigns.campaigns[campaignId].failedCount)
      ensures campaignId !in old(campaigns.campaigns)
              || !AccountWorks(accounts.byTenant, old(campaigns.campaigns[campaignId]).smtpAccountId, decrypt) ==>
                campaigns.campaigns == old(campaigns.campaigns) && logs.logs == old(logs.logs)
      ensures campaignId in old(campaigns.campaigns)
              && AccountWorks(accounts.byTenant, old(campaigns.campaigns[campaignId]).smtpAccountId, decrypt)
              && batchSize == 0 && |logIds| > 0 ==>
                logs.logs == AfterSends(old(logs.logs), logIds, attempt, 1)
      ensures r.Err? ==> campaigns.campaigns == old(campaigns.campaigns)
      ensures campaigns.campaigns - {campaignId} == old(campaigns.campaigns) - {campaignId}
    {
      if campaignId !in campaigns.campaigns {
        return Err("No value present");
      }
      var campaign := campaigns.campaigns[campaignId];
      var account := accounts.FindById(campaign.smtpAccountId);
      if account.None? {
        return Err("Unable to find SmtpAccount with id " + campaign.smtpAccountId);
      }
      var sender := CreateCampaignSender(account.value, decrypt);
      if sender.Err? {
        return Err(sender.message);
      }
      assert AccountWorks(accounts.byTenant, campaign.smtpAccountId, decrypt);
      var completed, sent, failed, resets, writes := SendLoop(campaignId, logIds, attempt, startTime);
      if !completed {
        return Err("/ by zero");
      }
      UpdateCampaignProgress(campaignId, sent, failed);
      r := Ok((sent, failed));
    }

    /**
      executeCampaign: only a DRAFT or SCHEDULED campaign runs.  Once its CV
      file is loaded it becomes IN_PROGRESS with startedAt, its recipients'
      logs are seeded and sent, and it ends COMPLETED with completedAt and
      counts that add up to the number of recipients.  Anything that throws
      on the way ends it FAILED with its timestamps left as they were.
     */
    method ExecuteCampaign(campaignId: Uuid, decrypt: string -> Result<string>, newLogId: int -> Uuid,
                           attempt: int -> Attempt, startedAt: Time, loopStart: Time, completedAt: Time)
      returns (e: Execution)
      requires campaigns.Valid() && logs.Valid() && accounts.Valid() && storage.Valid()
      requires FreshLogIds(|matches.rows|, newLogId, logs.logs)
      modifies campaigns, logs
      ensures campaigns.Valid() && logs.Valid()
      ensures e == NotRun <==> campaignId !in old(campaigns.campaigns) || !Executable(old(campaigns.campaigns[campaignId]).status)
      ensures e == NotRun ==> campaigns.campaigns == old(campaigns.campaigns) && logs.logs == old(logs.logs)
      ensures e != NotRun && e != FailedBeforeStart ==>
                var c := old(campaigns.campaigns[campaignId]);
                var started := WithStatus(c, CampaignStatus.InProgress, Some(startedAt), None);
                var recipients := CampaignRecipients(old(matches.rows), old(blacklist.rows), c);
                && campaignId in campaigns.campaigns
                && campaigns.campaigns[campaignId]
                   == Concluded(c, e == Finished, Some(startedAt), completedAt,
                                RunSentCount(old(logs.logs), started, recipients, newLogId, attempt), |recipients|)
      ensures e == FailedBeforeStart ==>
                && campaigns.campaigns == old(campaigns.campaigns)[campaignId := WithStatus(old(campaigns.campaigns[campaignId]), CampaignStatus.Failed, None, None)]
                && logs.logs == old(logs.logs)
      ensures e != NotRun ==>
                var c := old(campaigns.campaigns[campaignId]);
                && campaignId in campaigns.campaigns
                && (e == FailedBeforeStart <==> !old(FileLoads(cvs.cvs, storage, c)))
                && campaigns.campaigns[campaignId].status == (if e == Finished then CampaignStatus.Completed else CampaignStatus.Failed)
                && campaigns.campaigns[campaignId].startedAt == (if e == FailedBeforeStart then c.startedAt else Some(startedAt))
                && campaigns.campaigns[campaignId].completedAt == (if e == Finished then Some(completedAt) else c.completedAt)
      ensures e == Finished ==>
                var recipients := CampaignRecipients(old(matches.rows), old(blacklist.rows), old(campaigns.campaigns[campaignId]));
                campaigns.campaigns[campaignId].sentCount + campaigns.campaigns[campaignId].failedCount == |recipients|
      ensures e != NotRun && e != FailedBeforeStart ==>
                var c := old(campaigns.campaigns[campaignId]);
                var started := WithStatus(c, CampaignStatus.InProgress, Some(startedAt), None);
                var recipients := CampaignRecipients(old(matches.rows), old(blacklist.rows), c);
                && (e == Finished <==> SendsThrough(old(logs.logs), started, recipients, newLogId, accounts.byTenant, decrypt, batchSize))
                && logs.logs == LogsAfterRun(old(logs.logs), started, recipients, newLogId, accounts.byTenant, decrypt,
                                             batchSize, attempt)
                && (e == Finished ==> campaigns.campaigns[campaignId].sentCount ==
                                        RunSentCount(old(logs.logs), started, recipients, newLogId, attempt))
      ensures campaigns.campaigns - {campaignId} == old(campaigns.campaigns) - {campaignId}
    {
      if campaignId !in campaigns.campaigns {
        return NotRun;
      }
      var campaign := campaigns.campaigns[campaignId];
      if !Executable(campaign.status) {
        return NotRun;
      }
      if !FileLoads(cvs.cvs, storage, campaign) {
        UpdateCampaignStatus(campaignId, CampaignStatus.Failed, None, None);
        return FailedBeforeStart;
      }
      var finished, recipients := RunCampaign(campaignId, campaign, decrypt, newLogId, attempt, startedAt, loopStart, completedAt);
      e := if finished then Finished else FailedAfterStart;
    }

    /**
      The part of executeCampaign after the CV file is loaded: IN_PROGRESS
      with startedAt, logs seeded for the recipients and sent, then COMPLETED
      with completedAt; a failure of either step ends FAILED. The recipients
      are those read from the match table before the run.
     */
    method RunCampaign(campaignId: Uuid, campaign: EmailCampaign, decrypt: string -> Result<string>, newLogId: int -> Uuid,
                       attempt: int -> Attempt, startedAt: Time, loopStart: Time, completedAt: Time)
      returns (finished: bool, recipients: seq<MatchResult>)
      requires campaigns.Valid() && logs.Valid() && accounts.Valid()
      requires campaignId in campaigns.campaigns && campaigns.campaigns[campaignId] == campaign
      requires FreshLogIds(|matches.rows|, newLogId, logs.logs)
      modifies campaigns, logs
      ensures campaigns.Valid() && logs.Valid()
      ensures campaignId in campaigns.campaigns
      ensures recipients == CampaignRecipients(old(matches.rows), old(blacklist.rows), campaign)
      ensures var started := WithStatus(campaign, CampaignStatus.InProgress, Some(startedAt), None);
              && (finished <==> SendsThrough(old(logs.logs), started, recipients, newLogId, accounts.byTenant, decrypt, batchSize))
              && logs.logs == LogsAfterRun(old(logs.logs), started, recipients, newLogId, accounts.byTenant, decrypt,
                                           batchSize, attempt)
      ensures var started := WithStatus(campaign, CampaignStatus.InProgress, Some(startedAt), None);
              campaigns.campaigns[campaignId]
              == Concluded(campaign, finished, Some(startedAt), completedAt,
                           RunSentCount(old(logs.logs), started, recipients, newLogId, attempt), |recipients|)
      ensures campaigns.campaigns - {campaignId} == old(campaigns.campaigns) - {campaignId}
    {
      ghost var logs0 := logs.logs;
      recipients := StartRun(campaignId, campaign, newLogId, startedAt);
      ghost var started := WithStatus(campaign, CampaignStatus.InProgress, Some(startedAt), None);
      finished := SendAndConclude(campaignId, started, recipients, decrypt, newLogId, attempt, loopStart, completedAt);
      ConcludedOverStart(campaign, finished, startedAt, completedAt,
                         RunSentCount(logs0, started, recipients, newLogId, attempt), |recipients|);
    }

    /**
      The head of executeCampaign once the CV file is loaded: the campaign
      becomes IN_PROGRESS with startedAt, and its recipients are the
      matches at or above its threshold whose professor is not blacklisted.
     */
    method StartRun(campaignId: Uuid, campaign: EmailCampaign, newLogId: int -> Uuid, startedAt: Time)
      returns (recipients: seq<MatchResult>)
      requires campaigns.Valid()
      requires campaignId in campaigns.campaigns && campaigns.campaigns[campaignId] == campaign
      requires FreshLogIds(|matches.rows|, newLogId, logs.logs)
      modifies campaigns
      ensures campaigns.Valid()
      ensures campaigns.campaigns
              == old(campaigns.campaigns)[campaignId := WithStatus(campaign, CampaignStatus.InProgress, Some(startedAt), None)]
      ensures campaigns.campaigns - {campaignId} == old(campaigns.campaigns) - {campaignId}
      ensures recipients == CampaignRecipients(old(matches.rows), old(blacklist.rows), campaign)
      ensures FreshLogIds(|recipients|, newLogId, logs.logs)
    {
      recipients := CampaignRecipients(matches.rows, blacklist.rows, campaign);
      UpdateCampaignStatus(campaignId, CampaignStatus.InProgress, Some(startedAt), None);
      RecipientsWithinRows(matches.rows, blacklist.rows, campaign, newLogId, logs.logs);
    }

    /**
      The tail of executeCampaign once the campaign is IN_PROGRESS: the
      recipients' logs are seeded and sent, and the campaign ends COMPLETED
      with completedAt, or FAILED when either step throws; c names the
      campaign's row as the tail finds it.
     */
    method SendAndConclude(campaignId: Uuid, ghost c: EmailCampaign, recipients: seq<MatchResult>,
                           decrypt: string -> Result<string>, newLogId: int -> Uuid, attempt: int -> Attempt,
                           loopStart: Time, completedAt: Time)
      returns (finished: bool)
      requires campaigns.Valid() && logs.Valid() && accounts.Valid()
      requires campaignId in campaigns.campaigns && campaigns.campaigns[campaignId] == c
      requires FreshLogIds(|recipients|, newLogId, logs.logs)
      modifies campaigns, logs
      ensures campaigns.Valid() && logs.Valid()
      ensures campaignId in campaigns.campaigns
      ensures finished <==> SendsThrough(old(logs.logs), c, recipients, newLogId, accounts.byTenant, decrypt, batchSize)
      ensures logs.logs == LogsAfterRun(old(logs.logs), c, recipients, newLogId, accounts.byTenant, decrypt, batchSize, attempt)
      ensures campaigns.campaigns[campaignId]
              == Concluded(c, finished, None, completedAt, RunSentCount(old(logs.logs), c, recipients, newLogId, attempt),
                           |recipients|)
      ensures campaigns.campaigns - {campaignId} == old(campaigns.campaigns) - {campaignId}
    {
      var counts := SeedAndSend(campaignId, recipients, decrypt, newLogId, attempt, loopStart);
      if counts.Err? {
        UpdateCampaignStatus(campaignId, CampaignStatus.Failed, None, None);
        return false;
      }
      UpdateCampaignStatus(campaignId, CampaignStatus.Completed, None, Some(completedAt));
      finished := true;
    }

    /**
      The middle of executeCampaign: a log is seeded for each recipient and
      the logs are sent.  The campaign keeps everything but its counts, and
      on success the counts add up to the recipients.
     */
    method SeedAndSend(campaignId: Uuid, recipients: seq<MatchResult>, decrypt: string -> Result<string>,
                       newLogId: int -> Uuid, attempt: int -> Attempt, loopStart: Time)
      returns (r: Result<(int, int)>)
      requires campaigns.Valid() && logs.Valid() && accounts.Valid()
      requires campaignId in campaigns.campaigns
      requires FreshLogIds(|recipients|, newLogId, logs.logs)
      modifies campaigns, logs
      ensures campaigns.Valid() && logs.Valid()
      ensures campaignId in campaigns.campaigns
      ensures campaigns.campaigns[campaignId] == old(campaigns.campaigns[campaignId]).(
                sentCount := campaigns.campaigns[campaignId].sentCount,
                failedCount := campaigns.campaigns[campaignId].failedCount)
      ensures r.Ok? ==>
                && campaigns.campaigns[campaignId].sentCount == r.value.0
                && campaigns.campaigns[campaignId].failedCount == r.value.1
                && r.value.0 + r.value.1 == |recipients|
      ensures var c := old(campaigns.campaigns[campaignId]);
              && (r.Ok? <==> SendsThrough(old(logs.logs), c, recipients, newLogId, accounts.byTenant, decrypt, batchSize))
              && logs.logs == LogsAfterRun(old(logs.logs), c, recipients, newLogId, accounts.byTenant, decrypt,
                                           batchSize, attempt)
              && (r.Ok? ==> r.value.0 == RunSentCount(old(logs.logs), c, recipients, newLogId, attempt))
      ensures r.Err? ==> campaigns.campaigns == old(campaigns.campaigns)
      ensures campaigns.campaigns - {campaignId} == old(campaigns.campaigns) - {campaignId}
    {
      var logIds := InitializeEmailLogs(campaignId, recipients, newLogId);
      if logIds.Err? {
        return Err(logIds.message);
      }
      assert |logIds.value| == |recipients|;
      r := ProcessBatchedEmails(campaignId, logIds.value, decrypt, attempt, loopStart);
    }
  }

  /**
    Concluding a run without a start time, over the IN_PROGRESS mark, leaves
    the campaign as concluding it with that start time would.
   */
  lemma ConcludedOverStart(c: EmailCampaign, finished: bool, startedAt: Time, completedAt: Time, sent: int, total: int)
    ensures Concluded(WithStatus(c, CampaignStatus.InProgress, Some(startedAt), None), finished, None, completedAt, sent, total)
            == Concluded(c, finished, Some(startedAt), completedAt, sent, total)
  {
  }

  /** The iteration ending a window is the last one of the window the quotient counts. */
  lemma ResetStep(n: int, period: int)
    requires period > 0 && n >= 0 && n % period + 1 == period
    ensures (n / period + 1) * period - 1 == n
  {
    assert n == (n / period) * period + n % period;
    assert (n / period + 1) * period == (n / period) * period + period;
  }

  /**
    One iteration's rate check keeps the window bookkeeping: the counter is
    the iterations since the last reset, a reset is recorded exactly when a
    window fills, and the window start is the clock read after that reset.
   */
  lemma WindowStep(n: int, count: int, windowStart: Time, resets: seq<WindowReset>, rateLimit: int,
                   attempt: int -> Attempt, startTime: Time)
    requires n >= 0 && count == n % Period(rateLimit)
    requires windowStart == WindowStart(attempt, startTime, Period(rateLimit), n / Period(rateLimit))
    requires ResetsAfter(resets, n, rateLimit, attempt, startTime)
    ensures count + 1 >= rateLimit ==>
              && 0 == (n + 1) % Period(rateLimit)
              && attempt(n).resumedAt == WindowStart(attempt, startTime, Period(rateLimit), (n + 1) / Period(rateLimit))
              && ResetsAfter(resets + [WindowReset(n, WindowMillis - (attempt(n).checkedAt - windowStart))], n + 1, rateLimit, attempt, startTime)
    ensures count + 1 < rateLimit ==>
              && count + 1 == (n + 1) % Period(rateLimit)
              && windowStart == WindowStart(attempt, startTime, Period(rateLimit), (n + 1) / Period(rateLimit))
              && ResetsAfter(resets, n + 1, rateLimit, attempt, startTime)
  {
    var period := Period(rateLimit);
    DivStep(n, period);
    if count + 1 >= rateLimit {
      ResetStep(n, period);
      var k := n / period;
      assert ResetAt(attempt, startTime, period, k) == WindowReset(n, WindowMillis - (attempt(n).checkedAt - windowStart));
    }
  }

  /** One iteration's batch check keeps the list of in-loop progress writes. */
  lemma WritesStep(writes: seq<ProgressWrite>, n: int, batchSize: int, logs: map<Uuid, EmailLog>, logIds: seq<Uuid>,
                   attempt: int -> Attempt)
    requires 0 <= n < |logIds| && batchSize != 0
    requires BatchWrites(writes, n, BatchPeriod(batchSize), logs, logIds, attempt)
    ensures (n + 1) % batchSize == 0 ==>
              var sent := SentCount(logs, logIds, attempt, n + 1);
              BatchWrites(writes + [ProgressWrite(n + 1, sent, n + 1 - sent)], n + 1, BatchPeriod(batchSize), logs, logIds, attempt)
    ensures (n + 1) % batchSize != 0 ==> BatchWrites(writes, n + 1, BatchPeriod(batchSize), logs, logIds, attempt)
  {
    var period := BatchPeriod(batchSize);
    if batchSize < 0 {
      ModNegative(n + 1, batchSize);
    }
    DivStep(n, period);
    if (n + 1) % batchSize == 0 {
      assert n + 1 == ((n + 1) / period) * period + (n + 1) % period;
    }
  }
}
