/**
  The persistent entities of the backend, reduced to the fields the services
  read or write, with their status enumerations and the fixed-point decimal
  encodings used for weights and scores.

  Decimal columns are kept as integers counted in their column's unit:
  a keyword weight (scale 4) in ten-thousandths, a match score (scale 6)
  in millionths.  A campaign's minimum match score is also kept in
  millionths so that it compares directly with scores.
 */
module Entities {
  import opened Common

  /** UUID.toString of an entity identifier. */
  type Uuid = string

  /** A point in time, as epoch milliseconds. */
  type Time = int

  datatype ParsingStatus = Pending | InProgress | Completed | Failed

  datatype CampaignStatus = Draft | Scheduled | InProgress | Completed | Failed | Cancelled

  datatype EmailStatus = Pending | Sending | Sent | Failed | Blacklisted

  datatype SmtpAccountStatus = Active | Inactive | Deleted

  datatype ProfessorStatus = Active | Inactive | Deleted

  /** One unit of a decimal with four digits after the point. */
  const WeightScale: int := 10000

  /** One unit of a decimal with six digits after the point. */
  const ScoreScale: int := 1000000

  datatype Cv = Cv(
    id: Uuid,
    tenantId: Uuid,
    userProfileId: Uuid,
    originalFilename: string,
    storedFilename: string,
    filePath: string,
    fileSizeBytes: int,
    mimeType: string,
    parsingStatus: ParsingStatus,
    parsedAt: Option<Time>)

  /** A keyword extracted from a CV; weight is in ten-thousandths. */
  datatype CvKeyword = CvKeyword(
    id: Uuid,
    tenantId: Uuid,
    cvId: Uuid,
    keyword: string,
    normalizedKeyword: string,
    weight: int,
    frequency: int)

  datatype Professor = Professor(
    id: Uuid,
    email: string,
    firstName: string,
    lastName: string,
    universityName: string,
    department: Option<string>,
    researchArea: Option<string>,
    status: ProfessorStatus)

  /** The match of one CV against one professor; matchScore is in millionths. */
  datatype MatchResult = MatchResult(
    id: Uuid,
    tenantId: Uuid,
    cvId: Uuid,
    professor: Professor,
    matchScore: int,
    matchedKeywords: string,
    totalCvKeywords: int,
    totalProfessorKeywords: int,
    totalMatchedKeywords: int)

  /** An outreach campaign; minMatchScore is in millionths. */
  datatype EmailCampaign = EmailCampaign(
    id: Uuid,
    tenantId: Uuid,
    cvId: Uuid,
    smtpAccountId: Uuid,
    name: string,
    subject: string,
    bodyTemplate: string,
    minMatchScore: int,
    status: CampaignStatus,
    totalRecipients: int,
    sentCount: int,
    failedCount: int,
    scheduledAt: Option<Time>,
    startedAt: Option<Time>,
    completedAt: Option<Time>)

  datatype EmailLog = EmailLog(
    id: Uuid,
    tenantId: Uuid,
    campaignId: Uuid,
    professorId: Uuid,
    matchResultId: Uuid,
    recipientEmail: string,
    subject: string,
    body: string,
    status: EmailStatus,
    errorMessage: Option<string>,
    retryCount: int,
    sentAt: Option<Time>)

  datatype SmtpAccount = SmtpAccount(
    id: Uuid,
    tenantId: Uuid,
    email: string,
    smtpHost: string,
    smtpPort: int,
    username: string,
    encryptedPassword: string,
    useTls: Option<bool>,
    useSsl: Option<bool>,
    fromName: Option<string>,
    status: SmtpAccountStatus)

  /** A blacklisted address; no tenant means it is blocked for every tenant. */
  datatype BlacklistEntry = BlacklistEntry(tenantId: Option<Uuid>, email: string)

  // ---------------------------------------------------------------------
  // BigDecimal rounding

  /**
    n / d rounded to an integer with RoundingMode.HALF_UP: to the nearest
    integer, and away from zero when exactly half way.
   */
  function RoundHalfUp(n: int, d: int): (r: int)
    requires d > 0
    ensures n >= 0 ==> r >= 0 && 2 * d * r - d <= 2 * n < 2 * d * r + d
    ensures n < 0 ==> r <= 0 && 2 * d * r - d < 2 * n <= 2 * d * r + d
  {
    if n >= 0 then (2 * n + d) / (2 * d) else -((2 * -n + d) / (2 * d))
  }

  /** A positive factor keeps a difference of at least one at least that factor. */
  lemma MulStep(d: int, lo: int, hi: int)
    requires d > 0 && lo < hi
    ensures d * lo + d <= d * hi
  {
    var k := hi - lo - 1;
    assert d * k >= 0;
    assert d * (lo + 1 + k) == d * lo + d + d * k;
  }

  /** The result of RoundHalfUp is the only integer meeting its contract. */
  lemma RoundHalfUpUnique(n: int, d: int, r: int)
    requires d > 0
    requires n >= 0 ==> 2 * d * r - d <= 2 * n < 2 * d * r + d
    requires n < 0 ==> 2 * d * r - d < 2 * n <= 2 * d * r + d
    ensures r == RoundHalfUp(n, d)
  {
    var q := RoundHalfUp(n, d);
    if r < q {
      MulStep(d, r, q);
    } else if r > q {
      MulStep(d, q, r);
    }
  }

  /** Rounding a ratio that lies in [0, 1] gives a result in [0, scale]. */
  lemma RoundedRatioBounds(part: int, whole: int, scale: int)
    requires 0 <= part <= whole && whole > 0 && scale >= 0
    ensures 0 <= RoundHalfUp(part * scale, whole) <= scale
  {
    var r := RoundHalfUp(part * scale, whole);
    assert part * scale <= whole * scale by {
      if part < whole && scale > 0 {
        MulStep(scale, part, whole);
      }
    }
    if r > scale {
      MulStep(whole, scale, r);
    }
  }

  /** Rounding is monotone in the numerator. */
  lemma RoundHalfUpMonotone(a: int, b: int, d: int)
    requires d > 0 && 0 <= a <= b
    ensures RoundHalfUp(a, d) <= RoundHalfUp(b, d)
  {
    var ra, rb := RoundHalfUp(a, d), RoundHalfUp(b, d);
    if ra > rb {
      MulStep(d, rb, ra);
    }
  }
}
