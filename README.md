# Scholar core in Dafny

Scholar is a multi-tenant service for academic outreach. A student uploads a CV (PDF or DOCX). The
backend stores the file, extracts and cleans its text, and asks an AI model for a ranked list of
technical keywords. It stores them as rank-weighted keyword rows and scores every active professor
against them. The results are match rows, each with a score between 0 and 1. A tenant then builds an
email campaign from the matches at or above a minimum score. The campaign goes through its lifecycle
(DRAFT, SCHEDULED, IN_PROGRESS, COMPLETED, FAILED or CANCELLED), and executing it seeds one PENDING
email log per reachable professor and sends them in batches, paced by a per-minute rate limit, over
the tenant's SMTP account. A scheduler triggers due campaigns, and a JWT filter authenticates requests.
The React frontend keeps a response cache and Redux slices for campaigns, CVs and tenants.

This project models that core: the values as datatypes, the services and stores whose fields change
as classes, and the database tables as `map`/`seq` fields of repository classes. Every operation
is stated against a specification function, with lemmas for the properties the code promises.

- Decimal columns are integers at their scale. Keyword weights (precision 5, scale 4) are in
  ten-thousandths and match scores (precision 8, scale 6) in millionths. HALF_UP rounding is
  written out in `Entities.RoundHalfUp`.
- Java string operations are modelled as Java defines them:
  - `trim` strips code points up to U+0020;
  - `\s` is the six-character regex class;
  - `isBlank` uses `Character.isWhitespace`;
  - `replace` and `split` scan left to right, and `split` drops trailing empty strings.
- Collaborators the code cannot see are function parameters or per-call outcomes: the clock, random
  UUIDs, database-assigned ids, the file system, encryption, the AI call, the PDF/DOCX extractors and
  the SMTP send. Where such a call throws, its outcome is a `Result`.
- Module layout: `Common` holds the string and sequence helpers, `Entities` the rows,
  `Repositories` the tables and queries, and there is one module per service, per frontend slice
  and for the API client.

## Model

| member | source | states |
|---|---|---|
| Common.TrimIsSlice | src/main/java/com/scholar/service/cv/DocumentTextExtractor.java:80 | `trim` yields the slice of the input between the stripped ends: everything before and after is trimmable, and the slice's first and last characters are not |
| Common.TrimStart | src/main/java/com/scholar/service/cv/DocumentTextExtractor.java:80 | the number of leading characters `trim` strips: all of them are code points up to U+0020, and the next one is not |
| Common.TrimEnd | src/main/java/com/scholar/service/cv/DocumentTextExtractor.java:80 | the length left once the trailing characters `trim` strips are removed: everything after it is strippable, the last kept character is not |
| Common.Trim | src/main/java/com/scholar/service/cv/OpenRouterService.java:71 | `trim` never lengthens a string, and yields the empty string exactly when every character is strippable |
| Common.ToLower | src/main/java/com/scholar/service/cv/CVService.java:172 | `toLowerCase` keeps the length, leaves no upper-case ASCII letter, and keeps every other character in place |
| Common.TrimIsTrimmed | src/main/java/com/scholar/service/cv/OpenRouterService.java:71 | a trimmed string neither starts nor ends with a character `trim` would strip |
| Common.TrimOfTrimmed | src/main/java/com/scholar/service/cv/OpenRouterService.java:71 | `trim` is idempotent: a trimmed string is its own trim |
| Common.TrimmedLower | src/main/java/com/scholar/service/cv/CVService.java:172 | lower-casing a trimmed string keeps it trimmed, so `toLowerCase().trim()` of a normalised keyword changes nothing |
| Common.LastIndexOf | src/main/java/com/scholar/service/storage/FileStorageService.java:366 | `lastIndexOf(c)` is -1 or a position holding `c`, and no later position holds `c` |
| Common.Contains | src/main/java/com/scholar/service/matching/MatchingService.java:162 | `s.contains(t)` holds only when `t` is no longer than `s` |
| Common.ContainsAt | src/main/java/com/scholar/service/matching/MatchingService.java:162 | an occurrence of `t` at any position makes `s.contains(t)` true |
| Common.ReplaceAll | src/main/java/com/scholar/service/email/EmailCampaignService.java:233-237 | `replace` never lengthens the text when the replacement is no longer than the target, and never shortens it when it is no shorter |
| Common.JoinConsHead | src/main/java/com/scholar/service/email/EmailCampaignService.java:233-237 | text glued to the first part of a join comes out in front of the join |
| Common.JoinEmptyHead | src/main/java/com/scholar/service/email/EmailCampaignService.java:233-237 | an empty first part of a join contributes only its separator |
| Common.ReplaceIsSplitJoin | src/main/java/com/scholar/service/email/EmailCampaignService.java:233-237 | `replace(target, r)` is the same as splitting around the non-overlapping occurrences and joining with `r` |
| Common.PiecesRoundTrip | src/main/java/com/scholar/service/cv/OpenRouterService.java:68 | joining the split pieces back with the separator gives the original text |
| Common.Pieces | src/main/java/com/scholar/service/cv/OpenRouterService.java:68 | splitting around a separator always yields at least one piece |
| Common.ReplaceWithItself | src/main/java/com/scholar/service/email/EmailCampaignService.java:233-237 | replacing a target with itself changes nothing |
| Common.ReplaceAbsent | src/main/java/com/scholar/service/email/EmailCampaignService.java:233-237 | a text that does not contain the target is left unchanged by `replace` |
| Common.NotContainsWithoutFirst | src/main/java/com/scholar/service/email/EmailCampaignService.java:233-237 | a text lacking the target's first character does not contain the target |
| Common.ReplaceAllRemoves | src/main/java/com/scholar/service/cv/OpenRouterService.java:66 | replacing every `c` with a text free of `c` leaves no `c` (no line feed survives the `\n`-to-comma step) |
| Common.PiecesWithoutSeparator | src/main/java/com/scholar/service/cv/OpenRouterService.java:68 | a text without the separator splits into itself alone |
| Common.PiecesAfterFirst | src/main/java/com/scholar/service/cv/OpenRouterService.java:68 | the first piece ends at the first separator and the rest is split on its own |
| Common.JavaSplit | src/main/java/com/scholar/service/cv/OpenRouterService.java:68 | `String.split`: the empty string gives one empty piece; otherwise the pieces around the separator with only the trailing empty ones dropped, and the last kept piece is non-empty |
| Common.PiecesOfJoin | src/main/java/com/scholar/service/cv/OpenRouterService.java:68 | splitting a join of separator-free parts gives back exactly those parts |
| Common.DropTrailingEmpty | src/main/java/com/scholar/service/cv/OpenRouterService.java:68 | `split` keeps a prefix of the pieces that is empty or ends in a non-empty piece, and drops only empty pieces |
| Common.PiecesAvoidSeparator | src/main/java/com/scholar/service/storage/FileStorageService.java:333 | no piece of a split holds the separator character |
| Common.Filter | src/main/java/com/scholar/service/email/EmailCampaignService.java:122-124 | `stream().filter(p)` keeps exactly the elements satisfying `p`, each from the input, as a sub-multiset |
| Common.FilterKeepsAll | src/main/java/com/scholar/service/email/EmailCampaignService.java:122-124 | a filter every element passes returns the whole list |
| Common.FilterNone | src/main/java/com/scholar/service/email/EmailCampaignService.java:122-124 | a filter no element passes returns the empty list |
| Common.FilterConcat | src/main/java/com/scholar/service/email/EmailCampaignService.java:122-124 | filtering distributes over concatenation |
| Common.UniqueBySubMultiset | src/main/java/com/scholar/domain/entity/MatchResult.java:25 | any sub-multiset of rows with unique keys still has unique keys |
| Common.UniqueByMembers | src/main/java/com/scholar/domain/entity/CvKeyword.java:24 | under a unique constraint, two stored rows with the same key are the same row |
| Common.RepeatCounts | src/main/java/com/scholar/domain/entity/CvKeyword.java:24 | an element at two positions occurs at least twice in the multiset of the list |
| Common.UniqueCountsOne | src/main/java/com/scholar/domain/entity/MatchResult.java:25 | under a unique key each row occurs at most once |
| Common.UniqueByPrefix | src/main/java/com/scholar/domain/entity/MatchResult.java:25 | every prefix of a uniquely keyed list is uniquely keyed |
| Common.MulAtLeast | src/main/java/com/scholar/service/email/EmailCampaignService.java:147-152 | a positive multiple of a positive rate is at least that rate |
| Common.DivModUnique | src/main/java/com/scholar/service/email/EmailCampaignService.java:147-152 | quotient and remainder are the only pair writing a count as whole windows plus a remainder below the window size |
| Common.DivStep | src/main/java/com/scholar/service/email/EmailCampaignService.java:147-166 | counting one more email wraps the remainder to 0 exactly when a further whole window is reached |
| Common.ModNegative | src/main/java/com/scholar/service/email/EmailCampaignService.java:166 | the remainder by a negative batch size equals the remainder by its magnitude, as Java's `%` gives for a non-negative count |
| Entities.RoundHalfUp | src/main/java/com/scholar/service/cv/CVService.java:183 | `setScale(.., HALF_UP)`: the result is within half a unit of the exact quotient, ties going away from zero, for both signs |
| Entities.RoundHalfUpUnique | src/main/java/com/scholar/service/matching/MatchingService.java:174 | HALF_UP rounding has exactly one result: any integer meeting the rounding bounds is that result |
| Entities.RoundedRatioBounds | src/main/java/com/scholar/service/matching/MatchingService.java:172-175 | a ratio between 0 and 1 rounds to a value between 0 and the scale, so a match score stays in [0, 1] |
| Entities.RoundHalfUpMonotone | src/main/java/com/scholar/service/cv/CVService.java:176-183 | rounding is monotone in the numerator |
| Entities.MulStep | src/main/java/com/scholar/service/cv/CVService.java:176-183 | a positive factor turns a difference of at least one into a difference of at least that factor |
| Repositories.CvRepository.FindByIdAndTenantId | src/main/java/com/scholar/domain/repository/CVRepository.java:24-25 | finds the CV only when it exists and belongs to the tenant, and then it is the stored row |
| Repositories.CvRepository.Save | src/main/java/com/scholar/domain/repository/CVRepository.java:18 | saving stores the row under its id and changes no other row |
| Repositories.CvRepository.Delete | src/main/java/com/scholar/domain/repository/CVRepository.java:18 | deleting removes exactly that id |
| Repositories.CvKeywordRepository.DeleteByCvId | src/main/java/com/scholar/domain/repository/CvKeywordRepository.java:25-27 | afterwards the table holds exactly the other CVs' rows, in order |
| Repositories.CvKeywordRepository.SaveAll | src/main/java/com/scholar/domain/repository/CvKeywordRepository.java:31 | the rows are appended after the existing ones, in order |
| Repositories.InsertByScore | src/main/java/com/scholar/domain/repository/MatchResultRepository.java:32-39 | inserting into a list sorted by descending score keeps it sorted and adds exactly that row (multiset) |
| Repositories.InsertBehind | src/main/java/com/scholar/domain/repository/MatchResultRepository.java:32-39 | the head of a sorted list stays in front when the row goes deeper: still sorted, one more copy of the row, nothing else new |
| Repositories.SortedCons | src/main/java/com/scholar/domain/repository/MatchResultRepository.java:32-39 | a row scoring at least every row of a sorted list can lead it |
| Repositories.QualifyingRows | src/main/java/com/scholar/domain/repository/MatchResultRepository.java:32-39 | the WHERE clause: exactly the rows of the CV and tenant scoring at least the minimum, each drawn from the table no more often than it is there |
| Repositories.SortByScoreDesc | src/main/java/com/scholar/domain/repository/MatchResultRepository.java:32-39 | `ORDER BY match_score DESC` returns a permutation of the rows sorted by descending score |
| Repositories.MatchesAtLeast | src/main/java/com/scholar/domain/repository/MatchResultRepository.java:32-39 | the minimum-score query returns, sorted by descending score, exactly the rows of the CV and tenant scoring at least the minimum, each once |
| Repositories.MinScoreQueryUniqueProfessors | src/main/java/com/scholar/domain/entity/MatchResult.java:25 | with the (cv, professor) unique constraint, the minimum-score query names each professor at most once |
| Repositories.IndexOfId | src/main/java/com/scholar/domain/repository/MatchResultRepository.java:20 | the position of the first row with that primary key, or -1 exactly when there is none |
| Repositories.Upsert | src/main/java/com/scholar/domain/repository/MatchResultRepository.java:20 | `save` of one result leaves it in the table; what this means for the rest of the table is stated by `UpsertAllFrame` (rows with other keys stay in place) and `UpsertKeepsValid` (both unique constraints survive) |
| Repositories.UpsertAll | src/main/java/com/scholar/domain/repository/MatchResultRepository.java:20 | `saveAll` adds at most one row per saved result |
| Repositories.UpsertKeepsValid | src/main/java/com/scholar/domain/entity/MatchResult.java:25 | saving a result that fits the table keeps the primary key and the (cv, professor) constraint |
| Repositories.UpsertAllFrame | src/main/java/com/scholar/domain/repository/MatchResultRepository.java:20 | `saveAll` keeps every row whose key no saved result carries, in place, and every row afterwards is an old row or a saved result |
| Repositories.FitsAfterSaving | src/main/java/com/scholar/domain/entity/MatchResult.java:25 | a result that fits the table still fits it after results with other keys and pairs are saved |
| Repositories.UpsertAllKeepsValid | src/main/java/com/scholar/domain/entity/MatchResult.java:25 | saving fitting results with distinct keys and pairs keeps both unique constraints |
| Repositories.MatchResultRepository.DeleteByCvId | src/main/java/com/scholar/domain/repository/MatchResultRepository.java:47-49 | afterwards the table holds exactly the other CVs' results, in order |
| Repositories.MatchResultRepository.SaveAll | src/main/java/com/scholar/domain/repository/MatchResultRepository.java:20 | the table becomes the upsert of the results in turn |
| Repositories.EmailCampaignRepository.FindByIdAndTenantId | src/main/java/com/scholar/domain/repository/EmailCampaignRepository.java:26-27 | finds the campaign only when it exists and belongs to the tenant |
| Repositories.EmailCampaignRepository.FindScheduledCampaigns | src/main/java/com/scholar/domain/repository/EmailCampaignRepository.java:29-31 | over any scan that visits every stored id once, returns stored campaigns only, all SCHEDULED with `scheduledAt` at or before now (a null time never qualifies), every such campaign, and each once |
| Repositories.EmailCampaignRepository.DueIn | src/main/java/com/scholar/domain/repository/EmailCampaignRepository.java:29-31 | scanning ids yields due campaigns only, each stored under a scanned id, and every scanned due campaign |
| Repositories.DueInDistinct | src/main/java/com/scholar/domain/repository/EmailCampaignRepository.java:29-31 | a scan that visits each stored id once finds each due campaign once |
| Repositories.RestAvoidsHead | src/main/java/com/scholar/domain/repository/EmailCampaignRepository.java:29-31 | the campaigns found after the first scanned id never carry that id |
| Repositories.UniqueUnderNewHead | src/main/java/com/scholar/domain/repository/EmailCampaignRepository.java:29-31 | a campaign whose id a uniquely keyed list lacks can lead it, keeping ids unique |
| Repositories.EmailCampaignRepository.Save | src/main/java/com/scholar/domain/repository/EmailCampaignRepository.java:20 | saving stores the campaign under its id, nothing else changes |
| Repositories.LogMap | src/main/java/com/scholar/domain/repository/EmailLogRepository.java:17 | `saveAll` of logs writes a row under exactly the ids of the saved logs |
| Repositories.LogMapAt | src/main/java/com/scholar/domain/repository/EmailLogRepository.java:17 | with distinct ids every saved log is found under its own id |
| Repositories.LogMapStep | src/main/java/com/scholar/domain/repository/EmailLogRepository.java:17 | saving one more log writes exactly that log under its id over the earlier writes |
| Repositories.EmailLogRepository.Save | src/main/java/com/scholar/domain/repository/EmailLogRepository.java:17 | saving stores the log under its id, nothing else changes |
| Repositories.EmailLogRepository.SaveAll | src/main/java/com/scholar/domain/repository/EmailLogRepository.java:17 | the table gains exactly the saved logs |
| Repositories.SmtpAccountRepository.FindByTenantId | src/main/java/com/scholar/domain/repository/SmtpAccountRepository.java:18-19 | the tenant's one account (unique per tenant), whatever its status |
| Repositories.SmtpAccountRepository.FindActiveByTenantId | src/main/java/com/scholar/domain/repository/SmtpAccountRepository.java:21-22 | the tenant's account only when it is ACTIVE |
| Repositories.SmtpAccountRepository.FindById | src/main/java/com/scholar/domain/repository/SmtpAccountRepository.java:15 | finds the stored account with that primary key, or reports that none has it |
| Repositories.SmtpAccountRepository.Save | src/main/java/com/scholar/domain/entity/SmtpAccount.java:22 | saving replaces the tenant's account (one per tenant) |
| MatchingService.KeywordWeights | src/main/java/com/scholar/service/matching/MatchingService.java:86-91 | `toMap(normalizedKeyword, weight, max)`: every keyword is a key, and each key's weight is the largest weight of its rows |
| MatchingService.KeywordWeightsStep | src/main/java/com/scholar/service/matching/MatchingService.java:86-91 | one more row keeps both properties of the `toMap(.., max)` map: every keyword a key with at least its weight, every key a row's keyword with that row's weight |
| MatchingService.KeywordOrder | src/main/java/com/scholar/service/matching/MatchingService.java:157 | one iteration order of the keyword map: each keyword of the rows exactly once |
| MatchingService.KeywordOrderEnumerates | src/main/java/com/scholar/service/matching/MatchingService.java:157 | that order lists each key of the map exactly once |
| MatchingService.DistinctCardinality | src/main/java/com/scholar/service/matching/MatchingService.java:182 | a list of distinct keys is as long as their set |
| MatchingService.SetOfSnoc | src/main/java/com/scholar/service/matching/MatchingService.java:182 | the set of a list with one more element is the old set plus that element |
| MatchingService.EnumerationSize | src/main/java/com/scholar/service/matching/MatchingService.java:182 | any iteration of the map visits `cvKeywordMap.size()` keys |
| MatchingService.WeightSumConcat | src/main/java/com/scholar/service/matching/MatchingService.java:157-166 | the loop's sums split over consecutive parts of the iteration |
| MatchingService.WeightSumPermutation | src/main/java/com/scholar/service/matching/MatchingService.java:157-166 | the total and matched weights do not depend on the order the keys are visited |
| MatchingService.MultisetDropLast | src/main/java/com/scholar/service/matching/MatchingService.java:157-166 | dropping the last visited key removes one copy of it from the multiset |
| MatchingService.LastIndexIn | src/main/java/com/scholar/service/matching/MatchingService.java:157-166 | any other order of the same keys visits the last key somewhere |
| MatchingService.MultisetRemoveAt | src/main/java/com/scholar/service/matching/MatchingService.java:157-166 | removing the key at a position removes one copy of it from the multiset |
| MatchingService.WeightSumRemoveAt | src/main/java/com/scholar/service/matching/MatchingService.java:157-166 | the sums over an order are the sums without one key plus that key's contribution |
| MatchingService.WeightSumStep | src/main/java/com/scholar/service/matching/MatchingService.java:160-165 | one more loop iteration adds the key's weight to the total, and to the matched weight when the text contains it |
| MatchingService.MatchedWeightBounds | src/main/java/com/scholar/service/matching/MatchingService.java:157-166 | with non-negative weights the matched weight lies between 0 and the total |
| MatchingService.AllMatchedWeight | src/main/java/com/scholar/service/matching/MatchingService.java:157-166 | when the text contains every keyword, the matched weight equals the total |
| MatchingService.MatchedIn | src/main/java/com/scholar/service/matching/MatchingService.java:162-163 | the matched keywords are exactly the visited keys the text contains, each from the map |
| MatchingService.MatchedInStep | src/main/java/com/scholar/service/matching/MatchingService.java:162-163 | one more visited key joins the matched keywords exactly when the text contains it |
| MatchingService.CombinedText | src/main/java/com/scholar/service/matching/MatchingService.java:141-143 | the combined text contains the lower-cased research area and the lower-cased department (each empty when null) |
| MatchingService.Tokens | src/main/java/com/scholar/service/matching/MatchingService.java:154 | splitting the research area always gives at least one token |
| MatchingService.TokensAvoidSeparators | src/main/java/com/scholar/service/matching/MatchingService.java:154 | no token holds a comma, a semicolon or regex whitespace |
| MatchingService.SingleWordCountsOne | src/main/java/com/scholar/service/matching/MatchingService.java:154-155 | a research area that is one non-blank word counts as one professor keyword |
| MatchingService.ProfessorKeywordCount | src/main/java/com/scholar/service/matching/MatchingService.java:154-155 | the professor keyword count is 0 exactly when every token of the split research area is blank |
| MatchingService.NonBlankEmpty | src/main/java/com/scholar/service/matching/MatchingService.java:155 | the `!isBlank` filter empties a token list exactly when every token is blank |
| MatchingService.SeparatorFreeWord | src/main/java/com/scholar/service/matching/MatchingService.java:154 | a word without separators is a single token |
| MatchingService.ComputeSingleMatch | src/main/java/com/scholar/service/matching/MatchingService.java:140-198 | the loop over the map's entries computes exactly the specified result (none, the updated existing row, or a new row) |
| MatchingService.SingleMatch | src/main/java/com/scholar/service/matching/MatchingService.java:140-198 | an update of an existing row keeps its key, tenant, CV and professor; a new row is about this CV, its tenant and this professor under the new key; either counts the map's size and between 1 and the number of keys matched keywords |
| MatchingService.Score | src/main/java/com/scholar/service/matching/MatchingService.java:172-175 | no positive total gives score 0; a matched weight between 0 and the total gives a score in [0, 1], and the whole total gives exactly 1 |
| MatchingService.ScanKeywords | src/main/java/com/scholar/service/matching/MatchingService.java:157-166 | the loop over the entries yields the matched keys in visiting order, the matched weight and the total weight |
| MatchingService.MatchedInSubMultiset | src/main/java/com/scholar/service/matching/MatchingService.java:157-166 | the matched keys are drawn from the visited keys, none more often than it is visited |
| MatchingService.SingleMatchExists | src/main/java/com/scholar/service/matching/MatchingService.java:145-170 | a result exists if and only if the combined text is not blank and contains at least one keyword |
| MatchingService.SingleMatchStatistics | src/main/java/com/scholar/service/matching/MatchingService.java:172-195 | a result counts the map's size and the distinct matched keywords (at least one, at most the map's size), and its score is in [0, 1] |
| MatchingService.ScoreBounds | src/main/java/com/scholar/service/matching/MatchingService.java:172-176 | with non-negative weights the normalised score lies between 0 and 1 |
| MatchingService.FullMatchScoresOne | src/main/java/com/scholar/service/matching/MatchingService.java:172-175 | a professor whose text contains every keyword scores exactly 1 |
| MatchingService.MatchedCount | src/main/java/com/scholar/service/matching/MatchingService.java:184 | the matched count is the number of distinct keys the text contains, whatever the order |
| MatchingService.EnumerationsPermute | src/main/java/com/scholar/service/matching/MatchingService.java:157 | two iteration orders of the HashMap are permutations of each other |
| MatchingService.OrdersAgree | src/main/java/com/scholar/service/matching/MatchingService.java:157-166 | two iteration orders give the same matched count and the same total and matched weights |
| MatchingService.SingleMatchOrderIrrelevant | src/main/java/com/scholar/service/matching/MatchingService.java:157-198 | the HashMap's iteration order changes nothing in a result except the order of names in `matchedKeywords` |
| MatchingService.DistinctMultiset | src/main/java/com/scholar/service/matching/MatchingService.java:149 | two duplicate-free lists with the same elements are permutations |
| MatchingService.FindByProfessor | src/main/java/com/scholar/service/matching/MatchingService.java:103-110 | the existing result of that professor, or none when the CV has no result for them |
| MatchingService.ActiveProfessors | src/main/java/com/scholar/service/matching/MatchingService.java:95-97 | exactly the ACTIVE professors, each drawn from the table no more often than it is there |
| MatchingService.ResultsForStep | src/main/java/com/scholar/service/matching/MatchingService.java:108-115 | one more professor appends that professor's single match when it is not null |
| MatchingService.CollectResults | src/main/java/com/scholar/service/matching/MatchingService.java:108-115 | the loop over the active professors collects exactly the non-null single matches, in professor order |
| MatchingService.ResultFits | src/main/java/com/scholar/service/matching/MatchingService.java:179-196 | each result is about its professor and the CV, and carries either the stored row's key for that pair or a new key |
| MatchingService.DistinctResultIds | src/main/java/com/scholar/domain/entity/MatchResult.java:25 | results for different professors have different keys |
| MatchingService.ResultsFitStep | src/main/java/com/scholar/service/matching/MatchingService.java:112-114 | adding the result of a professor not seen before keeps the collected results fitting the table |
| MatchingService.ResultsFitTable | src/main/java/com/scholar/service/matching/MatchingService.java:108-115 | the collected results fit the table and have distinct keys and pairs |
| MatchingService.SaveFitting | src/main/java/com/scholar/service/matching/MatchingService.java:119 | saving the results keeps both unique constraints, keeps other CVs' rows in place, and keeps every row whose pair no result carries |
| MatchingService.Matching.ComputeKeepsUnmatched | src/main/java/com/scholar/service/matching/MatchingService.java:63-134 | after computeMatches the table is valid, other CVs' rows are unchanged, and a stale row of a professor who no longer matches stays |
| MatchingService.Matching.ComputeMatches | src/main/java/com/scholar/service/matching/MatchingService.java:63-134 | nothing changes unless the CV is found for the tenant, COMPLETED and has keywords; otherwise the table is the upsert of the specified results and stays valid |
| MatchingService.Matching.SavePlanned | src/main/java/com/scholar/service/matching/MatchingService.java:108-119 | the table becomes the upsert of the planned results and stays valid |
| MatchingService.Matching.RecomputeFacts | src/main/java/com/scholar/service/matching/MatchingService.java:278-293 | computing into a table without rows of the CV leaves only new-keyed rows for it |
| MatchingService.Matching.RecomputeMatches | src/main/java/com/scholar/service/matching/MatchingService.java:278-293 | refused with `ForeignKeyViolation` and nothing changed exactly when an email log points at one of the CV's results; otherwise the table becomes computeMatches applied to the table without the CV's results: other CVs' rows keep their places, an ineligible CV is left with none, every row of the CV carries a new key, and the table stays valid |
| MatchingService.DeletionKeepsTable | src/main/java/com/scholar/service/matching/MatchingService.java:280 | deleting a CV's results keeps both constraints and the freshness of new keys, and leaves no row of the CV |
| MatchingService.NewRowsOnly | src/main/java/com/scholar/service/matching/MatchingService.java:280 | after the deletion every saved result of the CV carries a fresh key |
| MatchingService.UntouchedRows | src/main/java/com/scholar/service/matching/MatchingService.java:119 | saving fitting results leaves every row whose pair no result carries |
| CvService.ValidationError | src/main/java/com/scholar/service/cv/CVService.java:310-323 | `validateFile` accepts if and only if the file is non-empty, of an allowed type and within the size limit, and gives the right message for each refusal |
| CvService.Dedup | src/main/java/com/scholar/service/cv/CVService.java:158 | the `LinkedHashSet` copy has no repeats, the same elements, and is no longer than the input |
| CvService.FirstIndex | src/main/java/com/scholar/service/cv/CVService.java:158 | the first position of a keyword: it holds the keyword and no earlier one does |
| CvService.FirstIndexInFront | src/main/java/com/scholar/service/cv/CVService.java:158 | appending to a list does not move the first occurrence of a keyword already in it |
| CvService.DedupKeepsFirstOrder | src/main/java/com/scholar/service/cv/CVService.java:158 | the kept keywords keep the order of their first occurrences (rank is preserved) |
| CvService.DedupOfDistinct | src/main/java/com/scholar/service/cv/CVService.java:158 | a list without repeats is left as it is |
| CvService.RankWeightFirst | src/main/java/com/scholar/service/cv/CVService.java:176 | the first keyword weighs 1.0000 |
| CvService.RankWeightLast | src/main/java/com/scholar/service/cv/CVService.java:176 | of two or more keywords the last weighs 0.1000 |
| CvService.RankWeightNonIncreasing | src/main/java/com/scholar/service/cv/CVService.java:176-183 | weights never increase with the rank and stay between 0.1000 and 1.0000 |
| CvService.RankWeight | src/main/java/com/scholar/service/cv/CVService.java:176 | every rank weight lies between 0.1000 and 1.0000 |
| CvService.KeywordRow | src/main/java/com/scholar/service/cv/CVService.java:171-185 | the row of keyword i belongs to the CV and tenant, keeps the keyword, holds a trimmed normalisation no longer than it, a weight in [0.1000, 1.0000] and frequency 1 |
| CvService.BuildKeywordRows | src/main/java/com/scholar/service/cv/CVService.java:169-186 | the loop builds exactly one row per keyword, in order, with its normalisation and rank weight |
| CvService.RowsOfNormalizedUnique | src/main/java/com/scholar/domain/entity/CvKeyword.java:24 | rows built from distinct normalised keywords satisfy the (cv, normalized_keyword) constraint |
| CvService.ReplacedKeywordsOfCv | src/main/java/com/scholar/service/cv/CVService.java:163-189 | after delete-then-insert the CV's rows are exactly the new ones, and the other CVs' rows are unchanged |
| CvService.ReplacementKeepsUnique | src/main/java/com/scholar/service/cv/CVService.java:161-163 | deleting the CV's rows before inserting the new ones keeps the unique constraint |
| CvService.DedupKeepsWellFormed | src/main/java/com/scholar/service/cv/CVService.java:158 | de-duplicating keeps every keyword trimmed, lower case and acceptable |
| CvService.ParsedKeywordsNormalized | src/main/java/com/scholar/service/cv/CVService.java:147-158 | the keywords handed to the rows are distinct and already normalised |
| CvService.ParsedKeywordsOutcome | src/main/java/com/scholar/service/cv/CVService.java:146-159 | a failed retrieval or extraction is the parse's error with its message; otherwise the keywords are the deduplicated AI keywords of the text |
| CvService.ParseApplied | src/main/java/com/scholar/service/cv/CVService.java:160-207 | in the end state the CV is stored COMPLETED with parsedAt now after a successful read, FAILED otherwise |
| CvService.ParseAppliedOverMark | src/main/java/com/scholar/service/cv/CVService.java:141-142 | the IN_PROGRESS mark does not show in the end state: the final save overwrites it |
| CvService.CvServiceState.UploadCv | src/main/java/com/scholar/service/cv/CVService.java:83-123 | a refused file changes neither the CV table nor the storage; a failed write is "CV upload failed" with the CV table unchanged; an accepted file becomes a PENDING CV stored at "tenant/uuid.ext" whose stored name follows the last '/', with the file written under that path |
| CvService.CvServiceState.StoreAndRecord | src/main/java/com/scholar/service/cv/CVService.java:87-123 | a failed write is "CV upload failed" with the CV table and the storage unchanged; otherwise the bytes are written under "tenant/uuid.ext" (nothing else in the storage changes) and a PENDING CV pointing at it is saved |
| CvService.CvServiceState.ParseAndExtractKeywords | src/main/java/com/scholar/service/cv/CVService.java:132-209 | a missing CV changes nothing; otherwise it is marked IN_PROGRESS, then either COMPLETED with parsedAt, its keyword rows replaced and the match table exactly `AfterCompute` of the old one for that CV and tenant, or FAILED with the tables unchanged; other CVs' matches are kept |
| CvService.CvServiceState.RunParse | src/main/java/com/scholar/service/cv/CVService.java:145-208 | the steps after the mark: completes exactly when reading, extraction and the AI call succeed, leaves the end state of ParseApplied for that outcome, and keeps other CVs' results in place; on completion the match table is exactly `AfterCompute` of the old one for the CV |
| CvService.CvServiceState.ReadKeywords | src/main/java/com/scholar/service/cv/CVService.java:146-159 | retrieval, text extraction, the AI keyword call and rank-preserving deduplication yield exactly the ParsedKeywords outcome, failing with the first step that fails |
| CvService.CvServiceState.MarkFailed | src/main/java/com/scholar/service/cv/CVService.java:201-207 | the catch block sets only the CV's status, to FAILED |
| CvService.CvServiceState.FailParse | src/main/java/com/scholar/service/cv/CVService.java:201-207 | after a failed read only the CV table changes, to the FAILED end state, and the state stays valid |
| CvService.CvServiceState.CompleteParse | src/main/java/com/scholar/service/cv/CVService.java:163-200 | the CV is COMPLETED at now, its keyword rows are exactly the ranked rows in order, other CVs' keywords stay and their results keep their places, the match table is exactly `AfterCompute` of the old one for the CV and tenant, and the end state is ParseApplied for the keywords |
| CvService.CvServiceState.MatchParsed | src/main/java/com/scholar/service/cv/CVService.java:200 | `computeMatches` for the parsed CV: the table becomes the computed one, stays valid, and other CVs' rows keep their places |
| CvService.CvServiceState.ReplaceKeywords | src/main/java/com/scholar/service/cv/CVService.java:163-189 | the CV's rows become one row per keyword, in order; other CVs' rows stay; the constraint holds |
| CvService.CvServiceState.DeleteCv | src/main/java/com/scholar/service/cv/CVService.java:287-305 | a CV not found for the tenant is refused with nothing changed; otherwise its file (if under the root) is deleted, and the keyword rows, results and CV row go exactly when no email log points at one of its results and no campaign at the CV; else the call fails with `ForeignKeyViolation`, every table as it was and the file still deleted |
| CvService.CvServiceState.DeleteRowsOfCv | src/main/java/com/scholar/service/cv/CVService.java:298-300 | exactly the CV's keyword rows and match results are removed, and both tables keep their keys unique |
| CvService.UploadedStoredFilename | src/main/java/com/scholar/service/cv/CVService.java:96 | the stored filename of an upload is "uuid.ext" |
| DocumentTextExtractor.LeadRun | src/main/java/com/scholar/service/cv/DocumentTextExtractor.java:77-79 | the length of the greedy run of class characters at the start |
| DocumentTextExtractor.CollapseRuns | src/main/java/com/scholar/service/cv/DocumentTextExtractor.java:77-79 | collapsing runs into a replacement no longer than the shortest collapsed run never lengthens the text |
| DocumentTextExtractor.LeadRunConcat | src/main/java/com/scholar/service/cv/DocumentTextExtractor.java:77-79 | the run at the start of a join is all of a one-run first part when the second does not continue it |
| DocumentTextExtractor.NoLongRunSuffix | src/main/java/com/scholar/service/cv/DocumentTextExtractor.java:77-79 | a suffix of a text without long runs has none |
| DocumentTextExtractor.CollapseHead | src/main/java/com/scholar/service/cv/DocumentTextExtractor.java:77-79 | `replaceAll` copies a character outside the class |
| DocumentTextExtractor.SegmentRuns | src/main/java/com/scholar/service/cv/DocumentTextExtractor.java:77-79 | a short run followed by text that does not continue it creates no long run |
| DocumentTextExtractor.CollapseStartsOutside | src/main/java/com/scholar/service/cv/DocumentTextExtractor.java:77-79 | a text starting outside the class still does so after the collapse |
| DocumentTextExtractor.CollapseLeavesNoLongRun | src/main/java/com/scholar/service/cv/DocumentTextExtractor.java:78-79 | collapsing runs of n or more into a shorter run leaves no run of n or more |
| DocumentTextExtractor.LeavesPlainStep | src/main/java/com/scholar/service/cv/DocumentTextExtractor.java:77-79 | a character outside the class in front keeps the collapsed text free of long runs |
| DocumentTextExtractor.CollapseRemovesClass | src/main/java/com/scholar/service/cv/DocumentTextExtractor.java:77 | replacing the `[\t\r]+` runs by a space leaves no tab or carriage return |
| DocumentTextExtractor.CollapseIdentity | src/main/java/com/scholar/service/cv/DocumentTextExtractor.java:77-79 | a text with no long run is unchanged by `replaceAll` |
| DocumentTextExtractor.IdentityStep | src/main/java/com/scholar/service/cv/DocumentTextExtractor.java:77-79 | a short run or plain character in front of an unchanged rest leaves the whole text unchanged |
| DocumentTextExtractor.CollapseKeepsOtherLeadRun | src/main/java/com/scholar/service/cv/DocumentTextExtractor.java:77-79 | collapsing one class does not change the leading run of a disjoint class |
| DocumentTextExtractor.CollapseKeepsOtherNoLongRun | src/main/java/com/scholar/service/cv/DocumentTextExtractor.java:77-79 | a later pass does not undo an earlier one: a disjoint class stays free of long runs |
| DocumentTextExtractor.KeepsOtherRunStep | src/main/java/com/scholar/service/cv/DocumentTextExtractor.java:77-79 | collapsing a run of one class in front does not create a long run of another class |
| DocumentTextExtractor.KeepsOtherPlainStep | src/main/java/com/scholar/service/cv/DocumentTextExtractor.java:77-79 | a character outside the collapsed class in front does not create a long run of another class |
| DocumentTextExtractor.NoLongRunSlice | src/main/java/com/scholar/service/cv/DocumentTextExtractor.java:80 | trimming keeps a text free of long runs |
| DocumentTextExtractor.NoLongRunAt | src/main/java/com/scholar/service/cv/DocumentTextExtractor.java:78-79 | no n consecutive class characters occur at any position |
| DocumentTextExtractor.LeadRunPrefix | src/main/java/com/scholar/service/cv/DocumentTextExtractor.java:77-80 | a run inside a prefix is no longer than the run at the same place of the whole |
| DocumentTextExtractor.SliceRunAt | src/main/java/com/scholar/service/cv/DocumentTextExtractor.java:77-80 | a run inside a slice is no longer than the run at the same place of the whole |
| DocumentTextExtractor.CleanText | src/main/java/com/scholar/service/cv/DocumentTextExtractor.java:73-81 | a null text cleans to the empty string, and cleaning never lengthens a text |
| DocumentTextExtractor.CleanTextIsClean | src/main/java/com/scholar/service/cv/DocumentTextExtractor.java:73-81 | a cleaned text meets all three run conditions and is trimmed |
| DocumentTextExtractor.CleanTextProperties | src/main/java/com/scholar/service/cv/DocumentTextExtractor.java:73-81 | a cleaned text has no tab or CR, no two spaces in a row, no three newlines in a row and no surrounding whitespace |
| DocumentTextExtractor.CleanTextIdempotent | src/main/java/com/scholar/service/cv/DocumentTextExtractor.java:73-81 | cleaning a cleaned text changes nothing |
| DocumentTextExtractor.ExtractText | src/main/java/com/scholar/service/cv/DocumentTextExtractor.java:62-71 | for PDF and DOCX the result is exactly `CleanText` of the text their extractor returns, or the extractor's error with its own message; legacy DOC and other types fail with their messages; any text returned is clean |
| OpenRouterService.LineEnd | src/main/java/com/scholar/service/cv/OpenRouterService.java:64 | `.` stops at the first line terminator |
| OpenRouterService.PreambleMatch | src/main/java/com/scholar/service/cv/OpenRouterService.java:64 | `(?i)here are.*:` matches, greedily, up to the last colon on the same line, and fails when that line has none |
| OpenRouterService.StripWithoutColon | src/main/java/com/scholar/service/cv/OpenRouterService.java:64 | a response without a colon is left unchanged |
| OpenRouterService.LeadingPreambleRemoved | src/main/java/com/scholar/service/cv/OpenRouterService.java:64 | a one-line "Here are ...:" preamble is removed whole |
| OpenRouterService.StripPreamble | src/main/java/com/scholar/service/cv/OpenRouterService.java:64 | removing every "here are ...:" match never lengthens the response |
| OpenRouterService.CleanResponse | src/main/java/com/scholar/service/cv/OpenRouterService.java:64-66 | the cleaned response has no line feed left and is no longer than the response |
| OpenRouterService.NormalizePart | src/main/java/com/scholar/service/cv/OpenRouterService.java:71 | a cleaned part is trimmed, already lower case, and no longer than the part |
| OpenRouterService.KeptKeywords | src/main/java/com/scholar/service/cv/OpenRouterService.java:70-76 | the loop keeps at most one keyword per part, each passing the length, digits-only and generic-term checks |
| OpenRouterService.Keywords | src/main/java/com/scholar/service/cv/OpenRouterService.java:59-83 | a null response gives no keywords, and every returned keyword passes the checks |
| OpenRouterService.KeptKeywordsStep | src/main/java/com/scholar/service/cv/OpenRouterService.java:70-76 | one more part appends its cleaned form exactly when that passes the checks |
| OpenRouterService.ExtractKeywords | src/main/java/com/scholar/service/cv/OpenRouterService.java:59-83 | the loop returns exactly the specified keyword list; a null response gives none |
| OpenRouterService.KeptKeywordsWellFormed | src/main/java/com/scholar/service/cv/OpenRouterService.java:70-76 | every kept part is trimmed, lower case, at least two characters, not all digits and not generic |
| OpenRouterService.KeywordsWellFormed | src/main/java/com/scholar/service/cv/OpenRouterService.java:70-76 | every keyword returned is well formed and free of commas and line feeds |
| OpenRouterService.PieceIsInfix | src/main/java/com/scholar/service/cv/OpenRouterService.java:68 | every character of a part is a character of the response |
| OpenRouterService.KeptKeywordsIgnoresEmptyTail | src/main/java/com/scholar/service/cv/OpenRouterService.java:73 | empty trailing parts contribute nothing |
| OpenRouterService.KeywordsOverPieces | src/main/java/com/scholar/service/cv/OpenRouterService.java:68 | the trailing-empty rule of `split` changes no keyword |
| OpenRouterService.CleanPlainList | src/main/java/com/scholar/service/cv/OpenRouterService.java:64-66 | a plain comma list comes through the clean-up unchanged |
| OpenRouterService.CommaListKeywords | src/main/java/com/scholar/service/cv/OpenRouterService.java:64-76 | a plain comma-separated answer yields its acceptable normalised items, in order |
| OpenRouterService.LineListKeywords | src/main/java/com/scholar/service/cv/OpenRouterService.java:66 | line feeds separate keywords exactly as commas do |
| OpenRouterService.LineListCleans | src/main/java/com/scholar/service/cv/OpenRouterService.java:64-66 | the clean-up of a line-per-keyword list is the same list separated by commas |
| OpenRouterService.JoinAvoids | src/main/java/com/scholar/service/cv/OpenRouterService.java:66-68 | a character absent from the parts and the separator is absent from their join |
| FileStorageService.ParsePath | src/main/java/com/scholar/service/storage/FileStorageService.java:278 | a path is absolute exactly when it starts with '/', and its names are the non-empty pieces between slashes |
| FileStorageService.Normalize | src/main/java/com/scholar/service/storage/FileStorageService.java:228 | `normalize` keeps at most the path's names, each one of them |
| FileStorageService.StartsWith | src/main/java/com/scholar/service/storage/FileStorageService.java:281 | `Path.startsWith` holds exactly when both paths are absolute or both relative and the root's names lead the path's names |
| FileStorageService.Resolve | src/main/java/com/scholar/service/storage/FileStorageService.java:278 | resolving against the absolute root gives an absolute path |
| FileStorageService.NormalizeIsPlain | src/main/java/com/scholar/service/storage/FileStorageService.java:228 | `normalize()` leaves no "." or ".." name |
| FileStorageService.NormalizeOfPlain | src/main/java/com/scholar/service/storage/FileStorageService.java:228 | normalising a path without "." or ".." changes nothing |
| FileStorageService.NoParentStaysUnder | src/main/java/com/scholar/service/storage/FileStorageService.java:278-281 | a relative path without ".." cannot leave its base after normalising |
| FileStorageService.GetFileExtension | src/main/java/com/scholar/service/storage/FileStorageService.java:362-368 | the suffix from the last '.', or "" for a null name or one without a dot |
| FileStorageService.IsValidFileType | src/main/java/com/scholar/service/storage/FileStorageService.java:328-354 | accepts if and only if the file and list are present and the list holds the MIME type, or the extension with or without its dot, ignoring case |
| FileStorageService.ToLowerIdempotent | src/main/java/com/scholar/service/storage/FileStorageService.java:335 | lower-casing twice is lower-casing once |
| FileStorageService.FileTypeCheckIgnoresCase | src/main/java/com/scholar/service/storage/FileStorageService.java:333-342 | changing the case of the content type or file name does not change the verdict |
| FileStorageService.ExtensionOfLower | src/main/java/com/scholar/service/storage/FileStorageService.java:350 | lower-casing a name lower-cases its extension and nothing more |
| FileStorageService.FileStorage.constructor | src/main/java/com/scholar/service/storage/FileStorageService.java:221-235 | the storage root is the base path made absolute against the working directory and normalised |
| FileStorageService.FileStorage.Target | src/main/java/com/scholar/service/storage/FileStorageService.java:278 | the resolved, normalised target is absolute and plain |
| FileStorageService.FileStorage.StoreFile | src/main/java/com/scholar/service/storage/FileStorageService.java:244-268 | returns "tenant/uuid.ext" and writes the bytes there exactly when the write succeeds; otherwise "Failed to store file" and nothing is written |
| FileStorageService.FileStorage.RetrieveFile | src/main/java/com/scholar/service/storage/FileStorageService.java:276-294 | returns the stored bytes exactly when the path stays under the root and a file is there; otherwise the security or not-found error |
| FileStorageService.FileStorage.DeleteFile | src/main/java/com/scholar/service/storage/FileStorageService.java:301-319 | a path outside the root is refused with nothing changed; otherwise the file is removed, reporting whether one was there |
| FileStorageService.FileStorage.RelativeWithoutParentIsUnderRoot | src/main/java/com/scholar/service/storage/FileStorageService.java:281 | a relative path without ".." always passes the security check |
| FileStorageService.FileStorage.StoredFileRetrievable | src/main/java/com/scholar/service/storage/FileStorageService.java:260-289 | a stored file reads back through the path `storeFile` returned |
| FileStorageService.ParseParentThenName | src/main/java/com/scholar/service/storage/FileStorageService.java:278 | "../n" parses as the two names ".." and n |
| FileStorageService.SiblingIsOutside | src/main/java/com/scholar/service/storage/FileStorageService.java:281 | `startsWith` compares names, not text: "../uploads2" beside root "uploads" is refused |
| FileStorageService.JoinParentThenName | src/main/java/com/scholar/service/storage/FileStorageService.java:278 | the relative path "../n" is the names "..", n joined by "/" |
| FileStorageService.NormalizeSibling | src/main/java/com/scholar/service/storage/FileStorageService.java:278 | normalising root/../n gives the sibling n of the root's last name |
| FileStorageService.StoredNameAfterLastSlash | src/main/java/com/scholar/service/storage/FileStorageService.java:260 | the text after the returned path's last '/' is the stored file name |
| SmtpAccountService.Configured | src/main/java/com/scholar/service/email/SmtpAccountService.java:67-75 | the saved account keeps its id and tenant, takes every setting given, defaults TLS on and SSL off, and is ACTIVE again |
| SmtpAccountService.NewAccount | src/main/java/com/scholar/service/email/SmtpAccountService.java:58-65 | the account built for a tenant without one has the column defaults: ACTIVE, TLS on, SSL off, no sender name |
| SmtpAccountService.SmtpAccounts.SaveSmtpAccount | src/main/java/com/scholar/service/email/SmtpAccountService.java:44-83 | an encryption failure or unknown tenant changes nothing; otherwise the tenant's account (or a new one) is configured, saved and announced |
| SmtpAccountService.SmtpAccounts.GetSmtpAccount | src/main/java/com/scholar/service/email/SmtpAccountService.java:92-95 | the tenant's account whatever its status, or the not-found message |
| SmtpAccountService.SmtpAccounts.GetActiveSmtpAccount | src/main/java/com/scholar/service/email/SmtpAccountService.java:104-107 | the tenant's account only while ACTIVE, or the not-found message |
| SmtpAccountService.SmtpAccounts.DeactivateSmtpAccount | src/main/java/com/scholar/service/email/SmtpAccountService.java:125-132 | only the status changes, to INACTIVE, and the change is announced; a tenant without an account is refused |
| MailSenderFactory.SenderProperties | src/main/java/com/scholar/service/email/MailSenderFactory.java:72-84 | auth and the three timeouts always; STARTTLS enabled and required exactly when TLS is TRUE; SSL exactly when SSL is TRUE; nothing else |
| MailSenderFactory.CreateMailSender | src/main/java/com/scholar/service/email/MailSenderFactory.java:64-87 | a new sender with the account's settings and decrypted password, or the decryption error |
| MailSenderFactory.SenderCache.GetMailSender | src/main/java/com/scholar/service/email/MailSenderFactory.java:34-41 | a cached sender is returned as the same object; otherwise a new one with the account's host, port, user, decrypted password and properties is built and cached, and a failed decryption returns its error and caches nothing |
| MailSenderFactory.SenderCache.ClearCache | src/main/java/com/scholar/service/email/MailSenderFactory.java:59-62 | only that account's sender is evicted |
| MailSenderFactory.SenderCache.HandleSmtpAccountChanged | src/main/java/com/scholar/service/email/MailSenderFactory.java:48-52 | a changed account's sender is evicted, nothing else |
| EmailCampaignService.NotContainsWithout | src/main/java/com/scholar/service/email/EmailCampaignService.java:233-237 | a text lacking a character of a placeholder does not contain it |
| EmailCampaignService.ReplaceWhole | src/main/java/com/scholar/service/email/EmailCampaignService.java:233-237 | replacing in a text that is exactly the target gives the replacement |
| EmailCampaignService.PlaceholderLetters | src/main/java/com/scholar/service/email/EmailCampaignService.java:233-237 | the score placeholder holds none of the letters that start the name, university and keywords placeholders, and the keywords placeholder holds a `k` |
| EmailCampaignService.SubstituteLeavesPlainText | src/main/java/com/scholar/service/email/EmailCampaignService.java:233-237 | a template without placeholders comes through unchanged |
| EmailCampaignService.SubstituteSkipsNameAndUniversity | src/main/java/com/scholar/service/email/EmailCampaignService.java:233-237 | a text without 'p' or 'u' can only have its keywords placeholder replaced |
| EmailCampaignService.MatchScoreNotSubstituted | src/main/java/com/scholar/service/email/EmailCampaignService.java:233-237 | `{{match_score}}` is not substituted and stays in the body |
| EmailCampaignService.SubstituteSkipsAll | src/main/java/com/scholar/service/email/EmailCampaignService.java:233-237 | text with no 'p', 'u' or 'k' holds none of the three placeholders and is left as it is |
| EmailCampaignService.SubstituteProfessorName | src/main/java/com/scholar/service/email/EmailCampaignService.java:234 | `{{professor_name}}` becomes "first last" |
| EmailCampaignService.SubstituteUniversity | src/main/java/com/scholar/service/email/EmailCampaignService.java:235 | `{{university}}` becomes the university's name |
| EmailCampaignService.SubstituteMatchedKeywords | src/main/java/com/scholar/service/email/EmailCampaignService.java:236 | `{{matched_keywords}}` becomes the match's keyword string |
| EmailCampaignService.CreateEmailLog | src/main/java/com/scholar/service/email/EmailCampaignService.java:225-231 | the log is PENDING, unsent, not retried, addressed to the match's professor for the campaign's tenant and subject, under its id |
| EmailCampaignService.ValidMatches | src/main/java/com/scholar/service/email/EmailCampaignService.java:122-124 | exactly the matches whose professor's address is not blacklisted for the tenant or globally |
| EmailCampaignService.CampaignRecipients | src/main/java/com/scholar/service/email/EmailCampaignService.java:121-124 | exactly the stored results of the campaign's CV and tenant at or above its minimum score whose address is not blacklisted |
| EmailCampaignService.NewCampaign | src/main/java/com/scholar/service/email/EmailCampaignService.java:83-93 | a DRAFT for the CV and its tenant over the SMTP account, counting the qualifying matches, with nothing sent and no schedule |
| EmailCampaignService.SeedLogs | src/main/java/com/scholar/service/email/EmailCampaignService.java:209-214 | one log per match, in order, each built by `createEmailLog` |
| EmailCampaignService.SeededLogsUniquePerProfessor | src/main/java/com/scholar/domain/entity/EmailLog.java:24-25 | the logs seeded for a campaign name each professor once, as the (campaign, professor) constraint demands |
| EmailCampaignService.SeededLogsCoverRecipients | src/main/java/com/scholar/service/email/EmailCampaignService.java:121-126 | every seeded log is PENDING, addressed to a non-blacklisted qualifying professor with the substituted body, and every such professor has one |
| EmailCampaignService.Schedule | src/main/java/com/scholar/service/email/EmailCampaignService.java:253-260 | only a DRAFT becomes SCHEDULED at the given time, nothing else changes; otherwise the error message |
| EmailCampaignService.Cancel | src/main/java/com/scholar/service/email/EmailCampaignService.java:265-271 | only a SCHEDULED campaign becomes CANCELLED; otherwise the error message |
| EmailCampaignService.WithStatus | src/main/java/com/scholar/service/email/EmailCampaignService.java:199-207 | the status is set, and each timestamp only when one is given; every other column keeps its value |
| EmailCampaignService.Concluded | src/main/java/com/scholar/service/email/EmailCampaignService.java:128-132 | the record a run ends with: COMPLETED with completedAt and the run's sent and failed counts, or FAILED with completedAt kept; startedAt is set when given |
| EmailCampaignService.ConcludedOverStart | src/main/java/com/scholar/service/email/EmailCampaignService.java:119-132 | concluding over the IN_PROGRESS mark gives the record that concluding with that start time gives, so the two status writes compose into one |
| EmailCampaignService.CancelledIsFinal | src/main/java/com/scholar/service/email/EmailCampaignService.java:253-271 | a cancelled campaign can neither be scheduled, cancelled nor executed again |
| EmailCampaignService.SentLog | src/main/java/com/scholar/service/email/EmailCampaignService.java:171-197 | a usable AI body replaces the body; delivery makes the log SENT with sentAt, an exception FAILED with its message; keys and addressing never change |
| EmailCampaignService.SentCount | src/main/java/com/scholar/service/email/EmailCampaignService.java:163 | the sent count after n iterations is between 0 and n |
| EmailCampaignService.AllDeliveredAllSent | src/main/java/com/scholar/service/email/EmailCampaignService.java:162-163 | when every message is delivered, every iteration counts as sent |
| EmailCampaignService.SentCountMonotone | src/main/java/com/scholar/service/email/EmailCampaignService.java:163-164 | sent and failed counts only grow as the loop goes on |
| EmailCampaignService.CampaignSenderProperties | src/main/java/com/scholar/service/email/EmailCampaignService.java:243-246 | the send loop's sender has auth, STARTTLS exactly when TLS is set, SSL exactly when SSL is set, and no timeouts |
| EmailCampaignService.CreateCampaignSender | src/main/java/com/scholar/service/email/EmailCampaignService.java:239-248 | builds exactly when the password decrypts and both flags are non-null (a null flag throws on unboxing) |
| EmailCampaignService.LogIds | src/main/java/com/scholar/service/email/EmailCampaignService.java:213 | `saveAll` returns the ids in the order of the rows |
| EmailCampaignService.SaveAllKeepsLogTableValid | src/main/java/com/scholar/domain/entity/EmailLog.java:24-25 | saving fresh rows that break no constraint keeps the log table valid |
| EmailCampaignService.LogMapRow | src/main/java/com/scholar/domain/repository/EmailLogRepository.java:17 | a key the saved logs write is the id of the log stored under it |
| EmailCampaignService.RecipientsWithinRows | src/main/java/com/scholar/service/email/EmailCampaignService.java:121-124 | ids fresh for every match row are fresh for the recipients, which are among them |
| EmailCampaignService.SeededIdsUnique | src/main/java/com/scholar/service/email/EmailCampaignService.java:212-213 | fresh distinct ids make the seeded rows distinct and new |
| EmailCampaignService.AfterSends | src/main/java/com/scholar/service/email/EmailCampaignService.java:145-167 | the loop never adds or removes a log |
| EmailCampaignService.SendsEachLogOnce | src/main/java/com/scholar/service/email/EmailCampaignService.java:145-167 | each listed log ends as `SentLog` of its seeded state under its own attempt, and every other log is unchanged |
| EmailCampaignService.AfterSendsKeepsValid | src/main/java/com/scholar/domain/entity/EmailLog.java:24-25 | sending keeps each log's keys, so the table stays valid |
| EmailCampaignService.SentKeepsValid | src/main/java/com/scholar/service/email/EmailCampaignService.java:172-196 | saving one sent log keeps its id, campaign and professor, so the log table stays valid |
| EmailCampaignService.CampaignEngine.CreateCampaign | src/main/java/com/scholar/service/email/EmailCampaignService.java:76-96 | needs an ACTIVE SMTP account and the CV; stores a DRAFT whose recipient count is the number of qualifying matches under the new id; a refusal stores nothing; the campaign table stays valid |
| EmailCampaignService.CampaignEngine.ScheduleCampaign | src/main/java/com/scholar/service/email/EmailCampaignService.java:253-260 | the tenant's campaign, stored as `Schedule` says; a refusal changes nothing |
| EmailCampaignService.CampaignEngine.CancelCampaign | src/main/java/com/scholar/service/email/EmailCampaignService.java:265-271 | the tenant's campaign, stored as `Cancel` says; a refusal changes nothing |
| EmailCampaignService.CampaignEngine.UpdateCampaignStatus | src/main/java/com/scholar/service/email/EmailCampaignService.java:199-207 | a missing campaign is skipped; otherwise only that campaign changes, as `WithStatus` says |
| EmailCampaignService.CampaignEngine.UpdateCampaignProgress | src/main/java/com/scholar/service/email/EmailCampaignService.java:216-223 | sets the campaign's sent and failed counts, skipping a missing campaign |
| EmailCampaignService.CampaignEngine.SendAndUpdateLog | src/main/java/com/scholar/service/email/EmailCampaignService.java:171-197 | a missing log throws with nothing changed; otherwise the log is saved as `SentLog` says and the result tells whether it was delivered |
| EmailCampaignService.CampaignEngine.InitializeEmailLogs | src/main/java/com/scholar/service/email/EmailCampaignService.java:209-214 | adds one PENDING log per match and returns their ids in order, or fails whole when the (campaign, professor) constraint would break |
| EmailCampaignService.CampaignEngine.SendLoop | src/main/java/com/scholar/service/email/EmailCampaignService.java:145-167 | every log is sent once; the counts add up to the iterations; a rate-window reset is recorded each time a window fills; progress is written every batchSize iterations; a zero batchSize stops after the first send |
| EmailCampaignService.CampaignEngine.SendCounted | src/main/java/com/scholar/service/email/EmailCampaignService.java:161-163 | one send updates its log as the attempt says and counts the iteration as sent exactly when the log exists and the message was delivered |
| EmailCampaignService.CampaignEngine.CountIntoWindow | src/main/java/com/scholar/service/email/EmailCampaignService.java:147-152 | the counter and window start follow the iteration count, and a reset is recorded exactly when a window fills |
| EmailCampaignService.CampaignEngine.RecordProgress | src/main/java/com/scholar/service/email/EmailCampaignService.java:166 | progress is written exactly at multiples of batchSize |
| EmailCampaignService.CampaignEngine.ProcessBatchedEmails | src/main/java/com/scholar/service/email/EmailCampaignService.java:136-169 | succeeds exactly when the campaign and a working sender exist and the batch size allows; the final counts are written and add up to the logs; on failure the campaign table is unchanged, and a zero batch size leaves the first log sent; other campaigns are untouched |
| EmailCampaignService.CampaignEngine.ExecuteCampaign | src/main/java/com/scholar/service/email/EmailCampaignService.java:110-134 | only DRAFT or SCHEDULED runs; a CV file that does not load leaves the record `WithStatus` FAILED; once it loads, the run ends COMPLETED exactly when the seeded logs keep the (campaign, professor) constraint, a sender can be built and the batch size allows, with the log table as `LogsAfterRun` says, and the whole record is `Concluded` of the original with startedAt, completedAt and the loop's counts, or FAILED with startedAt only; other campaigns are untouched |
| EmailCampaignService.CampaignEngine.RunCampaign | src/main/java/com/scholar/service/email/EmailCampaignService.java:119-133 | the recipients are the qualifying, non-blacklisted matches; the run completes exactly when `SendsThrough` holds for them, the log table ends as `LogsAfterRun` says, and the whole record is `Concluded` of the original: COMPLETED with startedAt, completedAt and the loop's counts, or FAILED with startedAt only; other campaigns are untouched |
| EmailCampaignService.CampaignEngine.SeedAndSend | src/main/java/com/scholar/service/email/EmailCampaignService.java:125-126 | succeeds exactly when `SendsThrough` holds; the log table ends as `LogsAfterRun` says; on failure the campaign table is unchanged; on success the campaign keeps all but its counts, which add up to the recipients with the sent count of the loop; other campaigns are untouched |
| EmailCampaignService.CampaignEngine.StartRun | src/main/java/com/scholar/service/email/EmailCampaignService.java:119-124 | the campaign becomes IN_PROGRESS with startedAt and nothing else changes; the recipients are the qualifying, non-blacklisted matches of the campaign's CV |
| EmailCampaignService.CampaignEngine.SendAndConclude | src/main/java/com/scholar/service/email/EmailCampaignService.java:125-133 | seeding and sending; completes exactly when `SendsThrough` holds; the log table as `LogsAfterRun` says; the whole record becomes `Concluded` of the IN_PROGRESS one: COMPLETED with completedAt and the loop's counts, or FAILED with every other column kept; other campaigns untouched |
| EmailCampaignService.RunSendsEachRecipient | src/main/java/com/scholar/service/email/EmailCampaignService.java:121-168 | in a run that gets through, the table gains exactly one log per recipient, each ending as `SentLog` of its PENDING row under its own attempt, and every earlier log stays as it was |
| EmailCampaignService.SeededTable | src/main/java/com/scholar/service/email/EmailCampaignService.java:209-214 | `saveAll` of the seeded rows adds exactly the new ids, each with its PENDING log, keeps the old rows, and returns the new ids in order |
| EmailCampaignService.SeededLogsSent | src/main/java/com/scholar/service/email/EmailCampaignService.java:145-167 | the send loop over the seeded ids turns each recipient's PENDING log into `SentLog` under its own attempt and leaves every earlier log as it was |
| EmailCampaignService.SeededLogSent | src/main/java/com/scholar/service/email/EmailCampaignService.java:145-167 | the log seeded for one recipient ends as `SentLog` of its PENDING row under that iteration's attempt |
| EmailCampaignService.SeededRow | src/main/java/com/scholar/service/email/EmailCampaignService.java:209-214 | the row seeded for one recipient is saved under its own new id, and the seeded ids are distinct |
| EmailCampaignService.EarlierLogsKept | src/main/java/com/scholar/service/email/EmailCampaignService.java:145-167 | the send loop over the seeded ids leaves every log stored before the run as it was |
| EmailCampaignService.EarlierLogKept | src/main/java/com/scholar/service/email/EmailCampaignService.java:145-167 | one log stored before the run is left as it was by the send loop |
| EmailCampaignService.NotSeeded | src/main/java/com/scholar/service/email/EmailCampaignService.java:209-214 | a log id already stored is none of the ids the seeded rows are saved under |
| EmailCampaignService.ResetStep | src/main/java/com/scholar/service/email/EmailCampaignService.java:147 | the iteration that fills a window is the last one of that window |
| EmailCampaignService.WindowStep | src/main/java/com/scholar/service/email/EmailCampaignService.java:147-152 | one rate check keeps the window bookkeeping |
| EmailCampaignService.WritesStep | src/main/java/com/scholar/service/email/EmailCampaignService.java:166 | one batch check keeps the list of progress writes |
| EmailCampaignScheduler.TriggeredIds | src/main/java/com/scholar/service/email/EmailCampaignScheduler.java:37-44 | exactly the accepted due campaigns are handed off |
| EmailCampaignScheduler.TriggeredOnce | src/main/java/com/scholar/service/email/EmailCampaignScheduler.java:35-45 | no campaign is handed off twice in one run |
| EmailCampaignScheduler.DueTriggeredOnce | src/main/java/com/scholar/service/email/EmailCampaignScheduler.java:35-45 | a run hands off exactly the stored due campaigns whose hand-off is accepted, each once |
| EmailCampaignScheduler.TriggeredStep | src/main/java/com/scholar/service/email/EmailCampaignScheduler.java:38-43 | one more due campaign adds its id exactly when the hand-off is accepted |
| EmailCampaignScheduler.CampaignScheduler.ProcessScheduledCampaigns | src/main/java/com/scholar/service/email/EmailCampaignScheduler.java:27-46 | the ids handed off are the accepted due campaigns in query order: an id is handed off exactly when it is stored, SCHEDULED, due and its hand-off accepted, and none twice; a throwing hand-off is skipped |
| EmailCampaignScheduler.HandOff | src/main/java/com/scholar/service/email/EmailCampaignScheduler.java:35-44 | the loop hands off the due campaigns in query order, keeping exactly those the executor accepts |
| JwtAuthenticationFilter.RemoveWhitespace | src/main/java/com/scholar/config/security/JwtAuthenticationFilter.java:52 | the result holds no regex whitespace and is no longer |
| JwtAuthenticationFilter.RemoveWhitespaceKeepsOthers | src/main/java/com/scholar/config/security/JwtAuthenticationFilter.java:52 | every other character is kept as often as it occurred |
| JwtAuthenticationFilter.RemoveWhitespaceNoop | src/main/java/com/scholar/config/security/JwtAuthenticationFilter.java:52 | a text without whitespace is unchanged |
| JwtAuthenticationFilter.ExtractToken | src/main/java/com/scholar/config/security/JwtAuthenticationFilter.java:33-57 | a header not starting with "bearer " (any case) is passed on; a lone quote is malformed; a token returned is non-empty and whitespace-free |
| JwtAuthenticationFilter.StripScheme | src/main/java/com/scholar/config/security/JwtAuthenticationFilter.java:44-47 | the token after one or two schemes is trimmed and shorter than the header by at least the scheme |
| JwtAuthenticationFilter.SchemeThen | src/main/java/com/scholar/config/security/JwtAuthenticationFilter.java:35 | a seven-character scheme that lower-cases to "bearer " is recognised, and `substring(7)` leaves what follows it |
| JwtAuthenticationFilter.PrintableNotBearer | src/main/java/com/scholar/config/security/JwtAuthenticationFilter.java:45 | a printable token has no space, so it is not taken for a second scheme |
| JwtAuthenticationFilter.SchemedTokenTrimmed | src/main/java/com/scholar/config/security/JwtAuthenticationFilter.java:44 | a scheme followed by a printable token has nothing to trim at either end |
| JwtAuthenticationFilter.StripSchemeOfToken | src/main/java/com/scholar/config/security/JwtAuthenticationFilter.java:44 | a printable token after one scheme comes out as it went in |
| JwtAuthenticationFilter.BearerRoundTrip | src/main/java/com/scholar/config/security/JwtAuthenticationFilter.java:35-52 | "Bearer &lt;token&gt;" (any case) yields exactly the token |
| JwtAuthenticationFilter.QuotedRoundTrip | src/main/java/com/scholar/config/security/JwtAuthenticationFilter.java:49-51 | a quoted token yields the token without its quotes |
| JwtAuthenticationFilter.DoubleBearerRoundTrip | src/main/java/com/scholar/config/security/JwtAuthenticationFilter.java:44-47 | a repeated scheme is stripped twice |
| JwtAuthenticationFilter.LoneQuoteThrows | src/main/java/com/scholar/config/security/JwtAuthenticationFilter.java:49-51 | a lone `"` after the scheme makes `substring(1, 0)` throw |
| JwtAuthenticationFilter.AuthenticationFor | src/main/java/com/scholar/config/security/JwtAuthenticationFilter.java:59-78 | a user is authenticated if and only if nobody is yet and the token names a user who loads and for whom it validates; the principal is that user with its authorities |
| JwtAuthenticationFilter.JwtFilter.DoFilterInternal | src/main/java/com/scholar/config/security/JwtAuthenticationFilter.java:27-80 | throws exactly on a lone quote; without a token the context is unchanged; otherwise it is set as `AuthenticationFor` decides |
| ApiClient.Stored | frontend/src/api/client.ts:59-65 | `set` stamps the entry with now and the ttl (30000 by default), overwriting only that key, and the stored entry keeps the given ttl |
| ApiClient.Lookup | frontend/src/api/client.ts:67-77 | `get` answers the data exactly while the entry exists and is not strictly older than its ttl |
| ApiClient.AfterLookup | frontend/src/api/client.ts:67-77 | `get` drops the key exactly when it has expired and touches no other key |
| ApiClient.Invalidated | frontend/src/api/client.ts:79-90 | no or empty pattern clears all; otherwise exactly the keys containing the pattern go |
| ApiClient.ApiCache.constructor | frontend/src/api/client.ts:57 | the cache starts empty |
| ApiClient.ApiCache.Set | frontend/src/api/client.ts:59-65 | the table becomes `Stored` of the old table |
| ApiClient.ApiCache.Get | frontend/src/api/client.ts:67-77 | the answer is `Lookup` and the table becomes `AfterLookup` |
| ApiClient.ApiCache.Invalidate | frontend/src/api/client.ts:79-90 | the key-by-key deletion loop leaves `Invalidated` of the old table |
| ApiClient.SetThenGet | frontend/src/api/client.ts:59-77 | a set entry reads back until its ttl has run out, the last millisecond included |
| ApiClient.SetThenExpire | frontend/src/api/client.ts:71-74 | one millisecond past its ttl the entry reads as absent and is dropped |
| ApiClient.GetIsStable | frontend/src/api/client.ts:67-77 | reading twice at the same time answers the same |
| ApiClient.InvalidateOwnKey | frontend/src/api/client.ts:85-88 | invalidating with a key removes that key |
| ApiClient.InvalidateIdempotent | frontend/src/api/client.ts:79-90 | invalidating twice with a pattern changes nothing the second time |
| ApiClient.CreateCacheKey | frontend/src/api/client.ts:96-98 | the key is the url, a colon and the parameters' JSON, "{}" when absent |
| ApiClient.CacheKeyInjective | frontend/src/api/client.ts:96-98 | for colon-free urls equal keys come from the same url and parameters |
| ApiClient.FirstColon | frontend/src/api/client.ts:96-98 | the position of the first colon, or the length: no earlier character is a colon |
| ApiClient.FirstColonAt | frontend/src/api/client.ts:96-98 | a colon after a colon-free prefix is the first colon |
| ApiClient.InvalidateByUrl | frontend/src/api/client.ts:79-98 | invalidating with a url drops every cached response for it, whatever its parameters |
| SliceLists.FindIndex | frontend/src/store/slices/cvSlice.ts:205 | `findIndex` is the first position with the id, or -1 exactly when none has it |
| SliceLists.ReplaceFirst | frontend/src/store/slices/campaignSlice.ts:276-279 | `state.list[findIndex(..)] = payload`: the length is kept, nothing changes when no element has the key, the payload is stored when one has, and elements with other keys stay in place |
| SliceLists.RemoveAll | frontend/src/store/slices/cvSlice.ts:258 | `filter(e => e.id !== id)` keeps exactly the entries with another id |
| SliceLists.ReplaceFirstChangesOne | frontend/src/store/slices/campaignSlice.ts:276-279 | only the first entry with the id can change, and only to the new record |
| SliceLists.ReplaceFirstFound | frontend/src/store/slices/campaignSlice.ts:276-279 | when some entry has the id, the new record is in the list afterwards |
| SliceLists.ReplaceFirstKeepsIds | frontend/src/store/slices/cvSlice.ts:204-208 | the ids position by position are unchanged, so unique ids stay unique |
| SliceLists.ReplaceFirstIdempotent | frontend/src/store/slices/cvSlice.ts:204-208 | replacing with the same record twice is replacing once |
| SliceLists.ReplaceFirstInUnique | frontend/src/store/slices/campaignSlice.ts:276-279 | with unique ids the replacement updates exactly the entry with that id |
| SliceLists.RemoveAllIdempotent | frontend/src/store/slices/tenantSlice.ts:140 | removing an id twice is removing it once |
| SliceLists.RemoveAbsent | frontend/src/store/slices/tenantSlice.ts:140 | removing an id none holds changes nothing |
| SliceLists.RemoveAfterPrepend | frontend/src/store/slices/cvSlice.ts:258 | removing the id of a prepended entry undoes the `unshift` |
| SliceLists.RemoveAfterAppend | frontend/src/store/slices/tenantSlice.ts:140 | removing the id of a pushed entry undoes the `push` |
| SliceLists.RemoveAllKeepsUnique | frontend/src/store/slices/tenantSlice.ts:140 | removing keeps ids unique |
| SliceLists.RemoveOneOfUnique | frontend/src/store/slices/cvSlice.ts:258 | removing an id held once shortens the list by exactly one |
| CampaignSlice.CampaignStore.constructor | frontend/src/store/slices/campaignSlice.ts:6-50 | the store starts in the initial state |
| CampaignSlice.CampaignStore.SetCurrentCampaign | frontend/src/store/slices/campaignSlice.ts:238-240 | only the shown campaign changes |
| CampaignSlice.CampaignStore.ClearCampaignError | frontend/src/store/slices/campaignSlice.ts:241-243 | only the error is cleared |
| CampaignSlice.CampaignStore.ClearCampaignState | frontend/src/store/slices/campaignSlice.ts:244-249 | lists, selection and error are emptied; pagination and flags are kept |
| CampaignSlice.CampaignStore.FetchCampaignsPending | frontend/src/store/slices/campaignSlice.ts:254-257 | loading is set and the error cleared |
| CampaignSlice.CampaignStore.FetchCampaignsFulfilled | frontend/src/store/slices/campaignSlice.ts:258-267 | the page's content and position replace the list and pagination |
| CampaignSlice.CampaignStore.FetchCampaignsRejected | frontend/src/store/slices/campaignSlice.ts:268-271 | loading ends with the error |
| CampaignSlice.CampaignStore.FetchCampaignFulfilled | frontend/src/store/slices/campaignSlice.ts:273-280 | the campaign is shown and refreshes its first listed copy |
| CampaignSlice.CampaignStore.CreateCampaignPending | frontend/src/store/slices/campaignSlice.ts:282-285 | creating is set and the error cleared |
| CampaignSlice.CampaignStore.CreateCampaignFulfilled | frontend/src/store/slices/campaignSlice.ts:286-290 | the new campaign goes first in the list and is shown |
| CampaignSlice.CampaignStore.CreateCampaignRejected | frontend/src/store/slices/campaignSlice.ts:291-294 | creating ends with the error |
| CampaignSlice.CampaignStore.ExecuteCampaignPending | frontend/src/store/slices/campaignSlice.ts:296-298 | only the executing flag is set |
| CampaignSlice.CampaignStore.ExecuteCampaignFulfilled | frontend/src/store/slices/campaignSlice.ts:299-301 | only the executing flag is cleared |
| CampaignSlice.CampaignStore.ExecuteCampaignRejected | frontend/src/store/slices/campaignSlice.ts:302-305 | executing ends with the error |
| CampaignSlice.CampaignStore.FetchCampaignLogsPending | frontend/src/store/slices/campaignSlice.ts:307-309 | only the logs-loading flag is set |
| CampaignSlice.CampaignStore.FetchCampaignLogsFulfilled | frontend/src/store/slices/campaignSlice.ts:310-319 | the page's logs and position replace the log list and its pagination |
| CampaignSlice.CampaignStore.FetchCampaignLogsRejected | frontend/src/store/slices/campaignSlice.ts:320-323 | logs loading ends with the error |
| CampaignSlice.FetchAfterCreate | frontend/src/store/slices/campaignSlice.ts:273-290 | a campaign fetched right after it was created refreshes the front of the list |
| CampaignSlice.FetchRefreshesListedCopy | frontend/src/store/slices/campaignSlice.ts:273-280 | with unique ids a fetched campaign replaces its one listed copy and leaves the others |
| CvSlice.CvStore.constructor | frontend/src/store/slices/cvSlice.ts:6-34 | the store starts in the initial state |
| CvSlice.CvStore.SetCurrentCv | frontend/src/store/slices/cvSlice.ts:193-195 | only the shown CV changes |
| CvSlice.CvStore.ClearCvError | frontend/src/store/slices/cvSlice.ts:196-198 | only the error is cleared |
| CvSlice.CvStore.ClearCvState | frontend/src/store/slices/cvSlice.ts:199-203 | list, selection and error are emptied; the parsing id and pagination are kept |
| CvSlice.CvStore.UpdateCvInList | frontend/src/store/slices/cvSlice.ts:204-212 | the first listed copy is replaced, and the shown CV when it has that id |
| CvSlice.CvStore.ClearParsingCvId | frontend/src/store/slices/cvSlice.ts:213-215 | only the parsing id is cleared |
| CvSlice.CvStore.FetchCvsPending | frontend/src/store/slices/cvSlice.ts:220-223 | loading is set and the error cleared |
| CvSlice.CvStore.FetchCvsFulfilled | frontend/src/store/slices/cvSlice.ts:224-233 | the page's content and position replace the list and pagination |
| CvSlice.CvStore.FetchCvsRejected | frontend/src/store/slices/cvSlice.ts:234-237 | loading ends with the error |
| CvSlice.CvStore.FetchCvFulfilled | frontend/src/store/slices/cvSlice.ts:239-241 | only the shown CV changes |
| CvSlice.CvStore.UploadCvPending | frontend/src/store/slices/cvSlice.ts:243-246 | uploading is set and the error cleared |
| CvSlice.CvStore.UploadCvFulfilled | frontend/src/store/slices/cvSlice.ts:247-251 | the new CV goes first in the list and is the one being parsed |
| CvSlice.CvStore.UploadCvRejected | frontend/src/store/slices/cvSlice.ts:252-255 | uploading ends with the error |
| CvSlice.CvStore.DeleteCvFulfilled | frontend/src/store/slices/cvSlice.ts:257-262 | every listed CV with the id goes, and so does the shown one if it has it |
| CvSlice.CvStore.ParseCvPending | frontend/src/store/slices/cvSlice.ts:264-266 | the argument becomes the CV being parsed |
| CvSlice.CvStore.ParseCvRejected | frontend/src/store/slices/cvSlice.ts:267-269 | the parsing id is cleared |
| CvSlice.DeleteUndoesUpload | frontend/src/store/slices/cvSlice.ts:247-262 | deleting a freshly uploaded, previously unlisted CV gives back the list from before the upload |
| CvSlice.DeleteRemovesExactly | frontend/src/store/slices/cvSlice.ts:257-262 | after a delete no listed CV has the id, and every other CV is still listed |
| CvSlice.UpdateOfUnlistedCv | frontend/src/store/slices/cvSlice.ts:204-212 | an update for an unlisted CV leaves the list as it is |
| TenantSlice.SelectAfterFetch | frontend/src/store/slices/tenantSlice.ts:116-118 | an existing selection is kept; otherwise the first fetched tenant, or none for an empty list |
| TenantSlice.SelectAfterDelete | frontend/src/store/slices/tenantSlice.ts:139-144 | the selection changes only when the deleted tenant was selected; it then becomes a remaining tenant, or null when none remains |
| TenantSlice.TenantStore.constructor | frontend/src/store/slices/tenantSlice.ts:5-21 | the store starts in the initial state |
| TenantSlice.TenantStore.SetCurrentTenant | frontend/src/store/slices/tenantSlice.ts:91-94 | the selection changes and the dashboard is dropped |
| TenantSlice.TenantStore.ClearTenantError | frontend/src/store/slices/tenantSlice.ts:95-97 | only the error is cleared |
| TenantSlice.TenantStore.ClearTenantState | frontend/src/store/slices/tenantSlice.ts:98-103 | list, selection, dashboard and error are emptied |
| TenantSlice.TenantStore.FetchTenantsPending | frontend/src/store/slices/tenantSlice.ts:108-111 | loading is set and the error cleared |
| TenantSlice.TenantStore.FetchTenantsFulfilled | frontend/src/store/slices/tenantSlice.ts:112-119 | the list is replaced and the first tenant selected if none was |
| TenantSlice.TenantStore.FetchTenantsRejected | frontend/src/store/slices/tenantSlice.ts:120-123 | loading ends with the error |
| TenantSlice.TenantStore.CreateTenantPending | frontend/src/store/slices/tenantSlice.ts:125-128 | loading is set and the error cleared |
| TenantSlice.TenantStore.CreateTenantFulfilled | frontend/src/store/slices/tenantSlice.ts:129-133 | the new tenant is appended and selected |
| TenantSlice.TenantStore.CreateTenantRejected | frontend/src/store/slices/tenantSlice.ts:134-137 | loading ends with the error |
| TenantSlice.TenantStore.DeleteTenantFulfilled | frontend/src/store/slices/tenantSlice.ts:139-144 | the tenant leaves the list and, if selected, gives way to the first remaining tenant or none |
| TenantSlice.TenantStore.FetchDashboardPending | frontend/src/store/slices/tenantSlice.ts:146-148 | only the dashboard-loading flag is set |
| TenantSlice.TenantStore.FetchDashboardFulfilled | frontend/src/store/slices/tenantSlice.ts:149-152 | the dashboard is stored |
| TenantSlice.TenantStore.FetchDashboardRejected | frontend/src/store/slices/tenantSlice.ts:153-156 | dashboard loading ends with the error |
| TenantSlice.FetchSelectsListed | frontend/src/store/slices/tenantSlice.ts:112-119 | a selection made by a fetch is one of the fetched tenants |
| TenantSlice.DeleteKeepsSelectionListed | frontend/src/store/slices/tenantSlice.ts:139-144 | after a delete the selection never has the deleted id, remains a listed tenant if it was one, and is untouched when another tenant was selected |
| TenantSlice.DeleteUndoesCreate | frontend/src/store/slices/tenantSlice.ts:129-144 | creating a tenant with a new id and deleting it gives back the list, with the first earlier tenant (or none) selected |

## Left out

- I/O and third-party calls are inputs, not modelled code:
  - the PDF and DOCX extractors (`extractFromPdf`, `extractFromDocx`);
  - the AI call (`callAi`, with its prompt text) and `generateOutreachEmail`;
  - encryption and decryption;
  - the SMTP send, whose outcome is an `Attempt`;
  - the file system, which is a map from normalised path names to bytes;
  - the clock, `UUID.randomUUID` and database-assigned ids.
- Transactions, `@Async` and after-commit hooks are modelled as direct sequential calls:
  - `uploadCV` and `recomputeMatches` schedule their follow-up work after commit; here that work is
    a separate call (`ParseAndExtractKeywords`, or `ComputeMatches` inside `RecomputeMatches`);
  - rollback of a failing transaction is modelled as "every table as it was" on the paths that
    fail; the foreign-key refusals of `deleteCV` and `recomputeMatches` take the email log and
    campaign tables as parameters, and the exception text is the constant `ForeignKeyViolation`.
- Concurrency is not modelled:
  - `executeCampaign` checks the status and then sets it, non-atomically; two triggers of one
    campaign could both run;
  - `updateStatusIfAllowed` in the campaign repository is never called by the code and is not
    modelled;
  - the thread-safety of the `ConcurrentHashMap` sender cache is not modelled.
- Send pacing: the rate-limit `Thread.sleep` is recorded as a `WindowReset` (the computed wait), not
  performed, and an `InterruptedException` from it is not modelled.
- The CV attachment of each email (`retrieveFile` bytes and file name) is only modelled as the
  condition that loading it succeeds (`FileLoads`); the MIME message itself is not built.
- `createAutoCampaign` is dead code (its only call is commented out) and is not modelled.
- The JWT service internals (`extractUsername`, `isTokenValid`) and user loading are function
  parameters; `authToken.setDetails(...)` request details are not modelled.
- Numbers and text:
  - `double` rank weights are computed as exact rationals before the HALF_UP rounding to four
    places, so binary floating-point error is not modelled;
  - `long` and `int` overflow of counters and sizes is not modelled;
  - `toLowerCase` is ASCII-only: full Unicode case mapping and UTF-16 surrogates are not modelled.
- Ordering:
  - HashMap and HashSet iteration order is an arbitrary enumeration. Every result except the order
    of names in `matchedKeywords` is proved independent of it.
  - JavaScript `Map` iteration order in `invalidate` is not modelled; the result does not depend
    on it.
- JSON.stringify is not modelled: `CreateCacheKey` receives the parameters as their JSON text.
- Other parts of the repository are not part of this model:
  - the controllers, DTOs and response mappers, including `getMatchResultsResponse` and
    `getMatchResultsAboveThresholdResponse`;
  - the paging and listing queries `getCV`, `getAllCVs`, `getCVsByUserProfile`, `getCVKeywords`
    and `getKeywordCount`;
  - `IncomingEmailService` (IMAP), `EncryptionService`, `AuthService` and the tenant services;
  - the `uiSlice`, `authSlice`, `smtpSlice` and `matchSlice` slices, and the React pages and
    components.
- EmailCampaignService.SubstituteTemplate: carries no ensures of its own; what each `replace` does
  to the template is stated by the `Substitute*` lemmas and `MatchScoreNotSubstituted`.
- Repositories.IsBlacklisted: carries no ensures; the predicate is the WHERE clause of the query
  itself (same address, and the tenant's own entry or a global one), and `ValidMatches` states how
  the campaign filter uses it.
- MatchingService.ProfessorKeywordCount: the research area is split at single separators rather
  than at runs of them; the extra pieces this makes are empty and so filtered out as blank, but the
  equality of the two counts is not proved.
- CvService.ParsedKeywords: carries no ensures of its own, so that the methods that call it stay
  small for the verifier; the lemma `ParsedKeywordsOutcome` states its outcome step by step.
- SmtpAccountService.DecryptPassword: the decryption is a parameter, so it states nothing beyond
  passing the stored ciphertext to it.
- EmailCampaignScheduler.CampaignScheduler.ProcessScheduledCampaigns: a hand-off that throws is
  modelled by the `accepted` predicate; what `executeCampaign` then does is modelled separately and
  is not chained in.
- File storage errors: an `IOException` while creating the storage directory, reading a file or
  deleting one (`Could not create storage directory`, `Failed to retrieve file`, `Failed to delete
  file`) is not modelled; only the missing file, the failed write and the refusals outside the root
  are.
- Campaign threshold precision: `minMatchScore` is held in millionths like the scores, while the column
  has scale 4; the rounding to four places when a campaign is stored is not modelled.
