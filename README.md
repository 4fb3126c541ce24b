# qyvorix-express, modelled in Dafny

qyvorix-express is an Express/MySQL back end for a daily debate. Each day
one question with two options, A and B, is active. Users and anonymous
visitors post a short answer on one side, like each other's answers, and
build a participation streak that earns XP. When the day rolls over, the
active question is closed and settled: participants on the majority side
earn "power" hits, and each user's likes give a daily influence rank. Login
goes through an e-mail lookup, a password check with an attempt counter and
an optional TOTP second factor. Administrators are recognised by their roles.

This project models that core as Dafny modules, one per source file:

- `Store.Db` holds the MySQL tables. Each table is a field: a `seq` for
  auto-increment tables (a row's id is its index plus one), a `set` for
  link tables with a composite key, and a `map` for `user_stats`, keyed by
  user.
- Model functions and middlewares that change tables become methods with
  `modifies db`table` frames. Each method's `ensures` ties the new table to a
  specification function.
- Lemmas about those functions state what the code promises: the rollover
  keeps at most one question active, ranks are the competition ranking of
  the likes, a streak grows by one a day, a locked account stays locked, a
  used code is never found again, and so on.
- Middlewares and controllers that only answer a request are functions from
  the request values (and the tables they read) to an `Outcome`: either
  `Next` or a `Respond(status, message)`.

The modules are:

- `SqlBuilder`: the allow-list query builder in `helpers/index.ts`.
- `Validators`: express-validator checks with validator.js semantics.
- `Calendar`, `Strings`: dates, ISO text and digits.
- `Questions`, `Answers`, `Power`, `Influence`, `Participations`,
  `UserStats`, `EmailVerification`, `RoleModel`, `Badges`: the models.
- `UserAnswers`: the anonymous-answer hand-over.
- `QuestionMw`, `AnswerMw`, `LikeMw`, `ParticipationMw`, `StreakMw`,
  `UserMw`, `UserSecurityMw`, `RolesMw`: the middlewares.
- `DebateController`: the debate controller.

Two facts about the code shape the model:

- The settlement majority is decided by summed likes alone
  (src/models/power.ts:22-37).
- `aggregateDailyInfluence` is modelled, but nothing in the rollover
  (src/models/questions.ts:89-112) calls it.

## Model

| member | source | states |
|---|---|---|
| SqlBuilder.EscapeId | src/helpers/index.ts:55-58 | accepted exactly when the identifier matches `^[a-zA-Z0-9_]+$`; the result is the identifier between two backticks, otherwise the invalid-identifier error |
| SqlBuilder.FirstFault | src/helpers/index.ts:98-123 | the builder stops at the first key, in entry order, that is not allowed for the table (reported as an invalid column of that table) or is not an identifier; no error exactly when every key is allowed and well-formed |
| SqlBuilder.InsertSpec | src/helpers/index.ts:98-123 | an insert succeeds exactly when the table is allow-listed and named by an identifier, at least one value is defined, and every defined key is an allowed identifier; an unknown table, no defined value and the first bad key give their own errors; the statement is `INSERT INTO` the quoted table with the quoted keys and one `?` per defined value, and its placeholders number exactly its parameters, the defined values in key order with no `undefined` among them |
| SqlBuilder.InsertRow | src/helpers/index.ts:98-105 | the table check and the reduction to the defined entries, followed by the entry loop, compute the insert of the specification, so a statement it returns has as many placeholders as parameters |
| SqlBuilder.InsertFields | src/helpers/index.ts:104-122 | the loop over the defined entries stops at the first key outside the allow-list or not an identifier, and otherwise yields the insert of the entries: a statement whose placeholders number exactly its parameters |
| SqlBuilder.PayloadObject | src/helpers/index.ts:60-96 | an update payload is a single object, or an array counting as one only when it holds exactly one object |
| SqlBuilder.InsertEntries | src/helpers/index.ts:104-122 | on the defined entries, an insert succeeds exactly when there is at least one, every key is an allowed identifier and the table name is an identifier; no entry gives the no-fields error and a bad key the error of the first one; the statement names the quoted keys with one `?` each, its parameters are the values in entry order, and it holds exactly as many placeholders as parameters |
| SqlBuilder.UpdateEntries | src/helpers/index.ts:80-95 | on the defined entries, an update succeeds exactly when there is at least one, every key is an allowed identifier and the table name is an identifier; no entry gives the no-fields error and a bad key the error of the first one; the statement sets each quoted key to `?` before the WHERE clause, its parameters are the values in entry order followed by the WHERE parameters, and each entry adds exactly one placeholder and one parameter |
| SqlBuilder.UpdateSpec | src/helpers/index.ts:60-96 | an update succeeds exactly when the table is allow-listed, the payload is one object with a defined, allowed, well-formed key; an unknown table, a payload that is not one object and no defined value give their own errors; the statement sets each key to `?` before the WHERE clause, its parameters are the values followed by the WHERE parameters, and the placeholders outside the WHERE clause number the parameters before the WHERE parameters |
| SqlBuilder.UpdateRow | src/helpers/index.ts:60-83 | the table check and the reduction of an array payload to its single object, followed by the entry loop, compute the update of the specification, whose SET clause holds one placeholder per value it binds |
| SqlBuilder.UpdateFields | src/helpers/index.ts:80-95 | the loop over the defined entries stops at the first key outside the allow-list or not an identifier, and otherwise yields the update of the entries: one `key = ?` and one value per entry, then the WHERE parameters |
| SqlBuilder.InsertAllRows | src/helpers/index.ts:125-146 | succeeds exactly when the table is allow-listed and named by an identifier, there is a row, and the first row has defined keys that are all allowed identifiers; an unknown table, no rows, no defined key and the first key outside the allow-list give their own errors; the statement holds one group of one `?` per column for each row, so rows times columns placeholders, as many as the parameters, which are the rows' values laid out row by row |
| SqlBuilder.InsertSqlMarks | src/helpers/index.ts:112-121 | a single-row INSERT over identifier columns holds exactly one placeholder per value mark |
| SqlBuilder.UpdateSqlMarks | src/helpers/index.ts:87-95 | an UPDATE over identifier columns holds one placeholder per assigned column plus those of the WHERE clause |
| SqlBuilder.InsertAllSqlMarks | src/helpers/index.ts:140-145 | a multi-row INSERT over identifier columns holds rows times columns placeholders |
| SqlBuilder.GroupMarks | src/helpers/index.ts:140-141 | one row's placeholder group holds one placeholder per column |
| SqlBuilder.QuoteHasNoMarks | src/helpers/index.ts:55-58 | a quoted identifier holds no placeholder, so column names never shift the parameters |
| SqlBuilder.RowMajorLayout | src/helpers/index.ts:125-147 | the multi-row parameter list has rows times columns entries, and entry `i * columns + j` is row i's value for column j |
| Calendar.NextDay | src/utils/date.ts:1-11 | the next day is a valid date strictly after the given one (month and year overflow included) |
| Calendar.NextDayIsOneDayLater | src/middlewares/streak.middleware.ts:16-20 | the day count between a date and the next day is exactly 1 |
| Calendar.DayNumberMonotone | src/middlewares/streak.middleware.ts:16-20 | the day number since 1970-01-01 strictly increases with calendar order |
| Calendar.GapMeaning | src/middlewares/streak.middleware.ts:16-20 | `daysBetween` is 0 exactly on the same day, 1 exactly on the next day, and positive exactly when the first date comes first |
| Calendar.EpochIsDayZero | src/middlewares/streak.middleware.ts:16-20 | 1970-01-01 is day 0 of the UTC day count |
| Calendar.TomorrowIso | src/utils/date.ts:1-11 | tomorrow's date text is ten characters long |
| Calendar.TomorrowIsNextDay | src/utils/date.ts:1-11 | tomorrow's date text is the ISO form of the next day, parses back to it, and is one day after today |
| Calendar.ParseIso | src/middlewares/streak.middleware.ts:16-20 | a parsed date text is a valid date with a four-digit year |
| Calendar.ParseFormat | src/middlewares/streak.middleware.ts:16-20 | parsing the ISO text of a valid date gives the date back |
| Calendar.DaysBetweenOfFormatted | src/middlewares/streak.middleware.ts:16-20 | `daysBetween` on two ISO texts is the day difference of the dates they name |
| Calendar.ToIsoDate | src/models/questions.ts:69-74 | a text is cut to its first ten characters and a shorter one is kept whole |
| Calendar.IsoTextOrder | src/models/questions.ts:120-122 | comparing two ISO date texts as strings is the same as comparing the dates |
| Validators.Failures | src/middlewares/answer.middleware.ts:9-14 | the messages are those of the failed checks, in declaration order; none exactly when every check held |
| Validators.Judge | src/middlewares/answer.middleware.ts:9-17 | the request goes on exactly when every check held; otherwise 400 with between one and as many messages as checks |
| Validators.TextChecks | src/middlewares/question.middleware.ts:6-8 | `exists().isString().isLength()` all hold exactly when the value is a string whose measured length is within the bounds |
| Validators.TextFailures | src/middlewares/question.middleware.ts:6-8 | such a chain reports "Invalid value" once for a missing value, once for a non-string, and once for a wrong length |
| Validators.IntText | src/middlewares/like.middleware.ts:7 | `isInt()` accepts exactly an optional sign followed by at least one digit |
| Validators.IntTextOfNumber | src/middlewares/like.middleware.ts:7 | the decimal text of any integer, with a plus sign, a minus sign or none, is accepted and denotes that integer |
| Validators.ParseIntPrefix | src/middlewares/question.middleware.ts:42 | `toInt()` is NaN exactly when no digit follows the leading white space and sign |
| Validators.ParseIntAgrees | src/middlewares/like.middleware.ts:7 | on text that `isInt()` accepts, `toInt()` gives the same integer |
| Validators.ParseIntStopsAtNonDigit | src/middlewares/question.middleware.ts:42 | `toInt()` reads a number's digits and ignores whatever non-digit text follows |
| Questions.CreateQuestion | src/models/questions.ts:17-21 | the new question is appended, scheduled unless a status is given, and its id finds it |
| Questions.SetStatus | src/models/questions.ts:23-27 | only the row with that id changes, and only its status |
| Questions.ActivateQuestion | src/models/questions.ts:23-24 | the table after the update is the table with that row made active |
| Questions.CloseQuestion | src/models/questions.ts:26-27 | the table after the update is the table with that row closed |
| Questions.LatestActive | src/models/questions.ts:29-36 | some row is returned exactly when a question is active; it is active, and no active question has a later date, or the same date and a higher id |
| Questions.GetById | src/models/questions.ts:38-39 | a row comes back exactly for ids 1 to the table size, and it is that row |
| Questions.NextDue | src/models/questions.ts:76-87 | a row comes back exactly when a scheduled question is due by today; it is the due one with the earliest date, lowest id among those |
| Questions.CloseLatestLeavesNone | src/models/questions.ts:89-103 | with at most one active question, closing the latest active leaves none active |
| Questions.CloseActiveAndSettle | src/models/questions.ts:89-103 | the latest active question is closed and the power settlement of that question is applied to user_stats |
| Questions.RolloverProperties | src/models/questions.ts:105-112 | the rollover keeps at most one question active; the new active question is the earliest due one after closing; every row is unchanged, closed from active, or activated from due |
| Questions.ActivateNextDue | src/models/questions.ts:105-112 | the questions table becomes the rollover and user_stats the settlement of the question that was active |
| Questions.StaleText | src/models/questions.ts:120-122 | the text test `published < today` is calendar order on the dates, and the published text is never empty |
| Questions.GetOrActivateActive | src/models/questions.ts:114-132 | the rollover happens exactly when needed, and the result is the latest active question of the table after it |
| Questions.GetOrActivateOutcome | src/models/questions.ts:114-132 | a rollover is needed exactly when no question is active or the active one is from before today; after it the active one is the earliest due; otherwise the active one is dated today or later |
| Questions.MaxFrom | src/models/questions.ts:44-54 | `MAX(published_date)` over the rows dated on or after a day: present exactly when such a row exists, and at least as late as each of them |
| Questions.NextPublishedDate | src/models/questions.ts:41-57 | the next publication date text is ten characters long |
| Questions.NextPublishedProperties | src/models/questions.ts:41-57 | the next publication date is tomorrow or later, strictly after every question dated tomorrow or later, and is returned as ISO text |
| Answers.LikeAnswer | src/models/answers.ts:29-33 | the like pair is added to the like set |
| Answers.UnlikeAnswer | src/models/answers.ts:35-39 | the like pair is removed from the like set |
| Answers.LikeSetLaws | src/models/answers.ts:29-39 | liking twice is liking once; unliking what is not liked changes nothing; a new like followed by an unlike restores the set; other pairs are untouched |
| Answers.Matching | src/models/answers.ts:24 | the rows of one question and side, in id order, each with its likes count, and all of them |
| Answers.MatchingFromSound | src/models/answers.ts:24 | every row found from a position on is a later answer of that question and side, carrying its likes count |
| Answers.MatchingFromComplete | src/models/answers.ts:24 | every answer of that question and side from a position on has its row among those found |
| Answers.MatchingFromIncreasing | src/models/answers.ts:24 | the rows found come in increasing id order |
| Answers.TopIsTop | src/models/answers.ts:22-27 | the top answers are ordered by likes descending then id ascending, number `min(limit, matching)` (none for a limit of 0 or less), come from the matching rows, and precede every matching row left out |
| Answers.OrderFor | src/models/answers.ts:64-71 | each of the sort keys `likes_desc`, `likes_asc` and `old` gets its own ORDER BY, and every other value gets `created_at DESC, id DESC` |
| Answers.ListByQuestion | src/models/answers.ts:50-82 | the query filters on the question and, for a non-empty side, on that side; its parameters are the question, the side if any, then the limit and offset; its order is the one for the sort key |
| Ordering.Sort | src/models/answers.ts:25 | the sorted rows are in the top-answer order and are a permutation of the input |
| Ordering.SortedUnique | src/models/answers.ts:25 | two orderings of the same rows in that order are equal (the order is total) |
| Ordering.Take | src/models/answers.ts:25 | `LIMIT n` keeps the first `n` rows (none for `n <= 0`) |
| Power.SideTotals | src/models/power.ts:22-30 | one row for each side that has answers, carrying that side's summed likes, in the order the grouping returns them |
| Power.Majority | src/models/power.ts:32-37 | the side is A with no answers; the only side with answers when just one side has them; the side with more likes when both have them and the likes differ; the first grouped side on a tie |
| Power.Participants | src/models/power.ts:39-46 | each (user, side) pair of an identified answer on the question, once |
| Power.PowerEffect | src/models/power.ts:48-64 | each user's participations grow by the number of their pairs and their majority hits by the number of their pairs on the majority side; no other field and no other user changes |
| Power.SettlementEffect | src/models/power.ts:17-74 | settling adds one participation per side the user answered and one hit when they answered the majority side |
| Power.SettleQuestionPower | src/models/power.ts:17-74 | returns the majority side, and user_stats becomes the settlement over the distinct participants |
| Influence.Rows | src/models/influence.ts:14-23 | one row per user with an identified answer on the question, holding the sum of that user's likes, ordered by likes descending then user id ascending |
| Influence.RankFirst | src/models/influence.ts:27-37 | the first row has rank 1 |
| Influence.RankMonotone | src/models/influence.ts:27-37 | ranks never decrease down the ordered rows |
| Influence.RankAtMostPosition | src/models/influence.ts:27-37 | a row's rank is at most its position |
| Influence.RankAfterGreater | src/models/influence.ts:27-37 | a row with fewer likes than an earlier row ranks below that row's position |
| Influence.NewRunRank | src/models/influence.ts:27-37 | a row that starts a new like count ranks at one more than the number of rows before it (competition ranking: ties share a rank, the next rank skips) |
| Influence.RankExample | src/models/influence.ts:27-37 | likes 10, 10, 7, 5 give ranks 1, 1, 3, 4 |
| Influence.ReplacementEffect | src/models/influence.ts:25 | after the delete and the inserts, the question's ranking rows are exactly the new ones and other questions' rows are unchanged |
| Influence.InfluenceEffect | src/models/influence.ts:45-48 | each user's influence total grows by their score and nothing else in user_stats changes |
| Influence.RecordRanks | src/models/influence.ts:27-49 | the loop appends one ranked row per input row and adds each score to its user's influence total |
| Influence.AggregateDailyInfluence | src/models/influence.ts:9-58 | the question's ranking rows are replaced by the ranks of the grouped likes, and influence totals grow by those likes |
| Influence.AggregateEffect | src/models/influence.ts:9-58 | a user's influence total grows by their summed likes on the question, or by nothing if they did not answer |
| Influence.RerunAddsAgain | src/models/influence.ts:45-48 | aggregating the same question twice adds the likes twice (the totals are not idempotent) |
| UserStats.WithStats | src/models/user-stats.ts:17-24 | a missing user gets the default row (grace tokens 1, everything else 0) and existing rows are untouched |
| UserStats.EnsureIdempotent | src/models/user-stats.ts:17-24 | ensuring a row twice is ensuring it once |
| UserStats.EnsureUserStats | src/models/user-stats.ts:17-24 | user_stats becomes the table with the user's row ensured |
| UserStats.GetUserStatsByUserId | src/models/user-stats.ts:26-31 | a row is returned exactly when the user has one, and it is that row |
| UserStats.LookupAfterEnsure | src/models/user-stats.ts:17-31 | after ensuring, the lookup finds the old row, or the default row for a new user |
| Participations.XpTodayTenths | src/models/participations.ts:24 | the daily XP is at most 3.5, is exactly 3.5 from a 7-day streak, and is never negative for a streak of 0 or more |
| Participations.XpGrowsToCap | src/models/participations.ts:24 | daily XP grows strictly with the streak up to 7 days and stays flat after that |
| Participations.RecordParticipation | src/models/participations.ts:12-13 | the participation row is appended |
| Participations.StreakAndXp | src/models/participations.ts:23-31 | only the user's row changes; all other rows are kept |
| Participations.ApplyStreakAndXp | src/models/participations.ts:23-31 | user_stats becomes the table with the streak update applied |
| Participations.StreakAndXpEffect | src/models/participations.ts:23-31 | the user's streak becomes the new streak, the last day becomes today, XP grows by between 0 and 3.5, and no other field changes |
| UserAnswers.Claim | src/helpers/userAnswers.ts:11-17 | exactly the anonymous answers from that IP get the user; every other answer is unchanged |
| UserAnswers.MissingQuestions | src/helpers/userAnswers.ts:21-32 | each question the user answered but has no participation in, once |
| UserAnswers.Backfill | src/helpers/userAnswers.ts:34-36 | one participation of the user per listed question, in order |
| UserAnswers.AttachAnonAnswersAndParticipations | src/helpers/userAnswers.ts:7-37 | without an IP nothing changes; otherwise answers are claimed, the stats row ensured, and the missing participations appended |
| UserAnswers.AttachComplete | src/helpers/userAnswers.ts:7-37 | afterwards the user has a participation for every question they own an answer on; claiming again changes nothing, and nothing is missing any more |
| UserAnswers.ClaimOnlyAnonymous | src/helpers/userAnswers.ts:11-17 | claiming changes only the user id of a row, and changes a row exactly when it was anonymous and from that IP |
| QuestionMw.ValidateCreateQuestion | src/middlewares/question.middleware.ts:5-18 | the request goes on exactly when the text has 5 to 500 characters and both options 1 to 150; otherwise the messages are those of the three chains in order |
| QuestionMw.MissingTextMessages | src/middlewares/question.middleware.ts:5-18 | a missing text is reported three times, a null text twice |
| QuestionMw.LoadActiveQuestion | src/middlewares/question.middleware.ts:20-39 | the rollover happens when needed; the request goes on exactly when a question is then active, with the latest active one, else 404 "No active question" |
| QuestionMw.RequireActiveQuestionById | src/middlewares/question.middleware.ts:41-69 | 400 exactly when the id parameter is missing; otherwise the answer for the integer prefix `toInt()` reads from it |
| QuestionMw.ActiveById | src/middlewares/question.middleware.ts:47-67 | 500 for a NaN id, 404 for an id with no row, 409 for a question that is not active; on success the question is active and has that id |
| QuestionMw.OnlyActivePass | src/middlewares/question.middleware.ts:41-69 | an id, even with trailing text, passes exactly when its question is active, and is refused with 409 otherwise |
| AnswerMw.ValidateCreateAnswer | src/middlewares/answer.middleware.ts:5-18 | the request goes on exactly when the side is "A" or "B", the body has 1 to 280 characters and a given anonymous key at most 64; otherwise the messages are the side's, the body's and the key's, in order |
| AnswerMw.SideFailures | src/middlewares/answer.middleware.ts:6 | the side has no message exactly when it is "A" or "B" |
| AnswerMw.KeyFailures | src/middlewares/answer.middleware.ts:8 | a missing or null key has no message; a string key has none exactly when it is at most 64 long |
| AnswerMw.SideMessages | src/middlewares/answer.middleware.ts:5-18 | a missing side is reported twice, a null or lowercase one once with the side message |
| AnswerMw.AnswerFields | src/middlewares/answer.middleware.ts:39-45 | the inserted object has the five keys in source order, all defined |
| AnswerMw.NewAnswer | src/middlewares/answer.middleware.ts:39-45 | a signed-in user's answer carries no anonymous key; the new row has no likes |
| AnswerMw.CreateAnswerMw | src/middlewares/answer.middleware.ts:20-57 | a refused insert answers 500 and stores nothing; otherwise the row is appended and its id is handed on |
| AnswerMw.CreateAnswerAlwaysRefused | src/middlewares/answer.middleware.ts:39-47 | with the allow-list as written, every answer insert fails on `anonymous_key` |
| AnswerMw.CreateAnswerCorrected | src/middlewares/answer.middleware.ts:39-47 | with `anonymous_key` allowed, every insert succeeds with the five values bound in order, and never both a user and a key |
| LikeMw.ValidateAnswerIdParam | src/middlewares/like.middleware.ts:6-17 | the id passes exactly when it is integer text of at least 1, and then has the value `toInt()` reads; otherwise 400 "Invalid answer id" |
| LikeMw.AnswerIdParamExamples | src/middlewares/like.middleware.ts:6-17 | "n" and "+n" pass for n of 1 or more; a negative id or 0 is refused |
| LikeMw.PreventSelfLike | src/middlewares/like.middleware.ts:19-49 | 404 exactly when the answer does not exist; 403 exactly when it belongs to the caller; otherwise on |
| LikeMw.SelfLikeOnly | src/middlewares/like.middleware.ts:19-49 | an anonymous answer can be liked by anyone; an owned answer by everyone except its owner |
| LikeMw.LikeAnswerMw | src/middlewares/like.middleware.ts:51-69 | the like is added and the request goes on |
| LikeMw.LikeAnswerMwReporting | src/middlewares/like.middleware.ts:51-69 | the like is added, and `liked` says whether it is new |
| LikeMw.UnlikeAnswerMw | src/middlewares/like.middleware.ts:71-89 | the like is removed and the request goes on |
| LikeMw.LikeReply | src/controllers/debate.controller.ts:48-58 | 201 "Liked" exactly when `liked` is set and true, else 200 "Already liked" |
| LikeMw.LikeRoute | src/controllers/debate.controller.ts:48-58 | a bad id is 400 and a refused like the guard's 403 or 404, both leaving the likes unchanged; a like that passes adds the (answer, caller) pair and is answered "Already liked" |
| LikeMw.LikeRouteNeverCreated | src/controllers/debate.controller.ts:48-58 | as written the route never answers 201, even for a first like |
| LikeMw.LikeRouteCorrectedReports | src/middlewares/like.middleware.ts:51-69 | with `liked` set, 201 exactly when the like set grows, and 200 exactly when the like existed; likes never shrink |
| LikeMw.UnlikeRoute | src/middlewares/like.middleware.ts:71-89 | "Unliked" exactly for a valid id, and then exactly the (answer, caller) pair leaves the like set; otherwise it is unchanged |
| LikeMw.UnlikeUndoesLike | src/controllers/debate.controller.ts:60-69 | unliking right after a new like restores the like set |
| ParticipationMw.PreventDuplicateParticipation | src/middlewares/participation.middleware.ts:21-44 | on exactly when the user has no participation in the question, else 409 |
| ParticipationMw.GuardAfterRecord | src/middlewares/participation.middleware.ts:21-44 | once recorded, the same question is refused and another one still passes |
| ParticipationMw.StreakStepCases | src/middlewares/participation.middleware.ts:65-86 | first day 1; next day +1; a gap spends a grace token for +1 or, without one, halves the streak (at least 1); a date before the last one keeps the streak |
| ParticipationMw.ParticipationStats | src/middlewares/participation.middleware.ts:46-104 | only the user's row is added or changed |
| ParticipationMw.RecordParticipationMw | src/middlewares/participation.middleware.ts:46-104 | the participation is appended and user_stats becomes the participation update |
| ParticipationMw.ParticipationEffect | src/middlewares/participation.middleware.ts:46-104 | on the same day nothing changes; otherwise streak and grace follow the step, the day is recorded and the day's XP is added; values stay non-negative |
| StreakMw.AnswerStepCases | src/middlewares/streak.middleware.ts:37-123 | same day: no change and no XP; first day: streak 1 and 5 XP; next day: +1 and 5 XP; a gap: a grace token for +1 and 5 XP, or a reset to 1 with 3 XP |
| StreakMw.AnswerStats | src/middlewares/streak.middleware.ts:37-123 | only the answering user's row is added or changed |
| StreakMw.ApplyStreakOnAnswerMw | src/middlewares/streak.middleware.ts:37-123 | without a created answer or a user nothing changes; otherwise user_stats becomes the answer update; the request always goes on |
| StreakMw.AnswerGain | src/middlewares/streak.middleware.ts:37-123 | an answer earns between 10 and 15 XP, records today, and never adds grace tokens |
| DebateController.RowId | src/controllers/debate.controller.ts:127-128 | an accepted id equals a row id only when it is integral |
| DebateController.GetActiveQuestion | src/controllers/debate.controller.ts:18-32 | 404 exactly when no question is active, else an active question |
| DebateController.AnswerReply | src/controllers/debate.controller.ts:34-46 | 201 exactly for a non-zero created id, else 400 "Answer not created" |
| DebateController.TopRows | src/controllers/debate.controller.ts:83 | every top row is an answer on the question and side; for an integral id the rows are the top answers of the side, in order, min(limit, matching) of them, each ahead of every matching answer left out; a fractional id has none |
| DebateController.GetTopAnswers | src/controllers/debate.controller.ts:71-100 | 400 exactly for a bad id; side "A" or "B" gives that side's top rows, anything else both sides' top rows, with the limit 10 when none is given |
| DebateController.MinFifty | src/controllers/debate.controller.ts:112 | the smaller of the limit and 50: at most both, and equal to one of them; NaN stays NaN |
| DebateController.ListAnswers | src/controllers/debate.controller.ts:102-123 | 400 exactly for a bad id; defaults sort "new", limit 20 and offset 0; a limit up to 50 is kept, a larger one becomes 50 and a NaN limit stays NaN |
| DebateController.SideCount | src/controllers/debate.controller.ts:143-152 | a side's answer count is at most the number of answers |
| DebateController.SidesPartition | src/controllers/debate.controller.ts:143-153 | the two side counts add up to the question's answer count |
| DebateController.Percent | src/controllers/debate.controller.ts:154-155 | the percentage in hundredths is the share rounded half up, and 0 with no answers |
| DebateController.PercentAtMostAll | src/controllers/debate.controller.ts:154-155 | a share is at most 100% |
| DebateController.PercentagesSum | src/controllers/debate.controller.ts:154-155 | the two percentages add up to 100.00 or 100.01 |
| DebateController.PercentExample | src/controllers/debate.controller.ts:154-155 | 1 of 3 and 2 of 3 give 33.33 and 66.67 |
| DebateController.GetResults | src/controllers/debate.controller.ts:125-170 | 400 exactly for a bad id, 404 for an unknown question; otherwise the question, its status, the side counts, and each side's share of the answers rounded half up to hundredths, the two adding up to 100.00 or 100.01 |
| DebateController.GetMyAnswer | src/controllers/debate.controller.ts:172-195 | 400 for a bad id, then 401 without a user; `answered` exactly when a row exists, and then the first row |
| DebateController.GetMyAnswerAsWritten | src/controllers/debate.controller.ts:172-195 | as written, 400 for a bad id, 401 without a user, and otherwise 500 from the call to the missing `getMyAnswer` |
| DebateController.GetMyAnswerAlwaysFails | src/controllers/debate.controller.ts:187-193 | as written the route never answers 200: exactly the requests the corrected handler answers become 500, and the refusals agree |
| UserMw.LoadUserByEmail | src/middlewares/user.middleware.ts:106-128 | 400 exactly for a missing or empty e-mail, 404 exactly when no user has it, otherwise the first user with it |
| UserMw.RequireEmailVerified | src/middlewares/user.middleware.ts:130-141 | on exactly for `true`, `1` or `'1'`, else 403 |
| UserMw.EmailVerifiedValues | src/middlewares/user.middleware.ts:130-141 | the number flag passes exactly when it is 1; "true", false and no value are refused |
| UserMw.Remaining | src/middlewares/user.middleware.ts:158 | one attempt fewer, never below 0 |
| UserMw.DrainFloor | src/middlewares/user.middleware.ts:158 | n failures leave `max(0, attempts - n)` |
| UserMw.PasswordStepRules | src/middlewares/user.middleware.ts:143-191 | a locked row is refused and kept; a wrong password costs one attempt and says "locked" exactly on the last one; a right one goes on and tops the counter up to 5; without a row nothing is counted |
| UserMw.LockedStaysLocked | src/middlewares/user.middleware.ts:149-152 | a locked row stays locked whatever passwords follow |
| UserMw.WrongPasswordsLock | src/middlewares/user.middleware.ts:156-180 | as many wrong passwords as attempts left lock the row |
| UserMw.ReplayBounds | src/middlewares/user.middleware.ts:143-191 | from a counter between 0 and 5, any run of logins keeps it between 0 and 5 |
| UserMw.IsPasswordCorrect | src/middlewares/user.middleware.ts:143-191 | the answer is the password step's, and only that security row's counter changes, as the step says |
| UserMw.CodeFailures | src/middlewares/user.middleware.ts:206-219 | no message exactly for a string whose trimmed text is six digits; a missing code gets "required" only; null gets "not a string" and "not 6 digits" |
| UserMw.CodeDigits | src/middlewares/user.middleware.ts:206-219 | digit text is accepted exactly when it is six long |
| UserMw.CodeWrongLength | src/middlewares/user.middleware.ts:206-219 | a string whose trimmed length is not six gets the one message |
| UserSecurityMw.TokenFailures | src/middlewares/user-security.middleware.ts:15-28 | at most one message; none exactly for six characters that `isNumeric` accepts; "required" exactly when missing |
| UserSecurityMw.TokenExamples | src/middlewares/user-security.middleware.ts:15-28 | "123456", "+12345" and "1.2345" are accepted; "12345a" is not numeric; null is not 6 digits |
| UserSecurityMw.TokenStepRules | src/middlewares/user-security.middleware.ts:30-62 | without a secret, 400 and nothing changes; a wrong token answers 401 and costs one attempt (floored at 0); a right token goes on and leaves the row alone |
| UserSecurityMw.WrongTokensDrain | src/middlewares/user-security.middleware.ts:46-61 | n wrong tokens leave `max(0, attempts - n)` |
| UserSecurityMw.Validate2FAToken | src/middlewares/user-security.middleware.ts:30-62 | the answer is the token step on the `res.locals.userSecurity` snapshot; only a wrong token writes, and then only the stored row's counter, set to the snapshot's count less one (floored at 0) |
| UserSecurityMw.GetUserSecurityByUserId | src/middlewares/user-security.middleware.ts:64-86 | 403 exactly when no id is set or no row has it; otherwise that user's first row |
| UserSecurityMw.LoginSecurityLookupRefuses | src/middlewares/user-security.middleware.ts:135-143 | as written, the login chain never finds a security row: every found user is refused with 403 |
| UserSecurityMw.LoginSecurityLookupFinds | src/middlewares/user-security.middleware.ts:64-73 | with the loaded user's id, the row is found exactly when the user has one, and it is theirs |
| UserSecurityMw.Check2FARules | src/middlewares/user-security.middleware.ts:88-126 | a stored secret is never replaced; the login goes on exactly with a secret and a token; after registering, the next login goes on exactly with a token |
| UserSecurityMw.Check2FA | src/middlewares/user-security.middleware.ts:88-126 | the answer and the row are the registration step's, and no other row changes |
| EmailVerification.CreateCode | src/models/email-verification.ts:13-18 | an unused code expiring 15 minutes from now is appended |
| EmailVerification.InvalidateAll | src/models/email-verification.ts:20-24 | the loop marks every unused code of the user used and leaves the rest |
| EmailVerification.InvalidateAllClears | src/models/email-verification.ts:20-37 | afterwards no code of the user is found; other users' lookups are unchanged |
| EmailVerification.FindValidCode | src/models/email-verification.ts:26-37 | none exactly when no row is valid; otherwise the valid row with the highest id |
| EmailVerification.MarkUsed | src/models/email-verification.ts:39-40 | the row with that id is marked used, and an unknown id changes nothing |
| EmailVerification.MarkedNeverFound | src/models/email-verification.ts:26-40 | a code marked used is never found again |
| EmailVerification.LastSentAt | src/models/email-verification.ts:42-50 | none exactly when the user has no code; otherwise the creation time of the user's newest code |
| EmailVerification.NewCodeFound | src/models/email-verification.ts:13-50 | a new code is found until it expires 15 minutes later, and not after; the last-sent time is its creation |
| RoleModel.GetRoleByName | src/models/role.ts:9-12 | none exactly when no role has the name; otherwise the first role with it |
| RoleModel.AssignRoleToUserByName | src/models/role.ts:14-24 | an unknown role is an error naming it and changes nothing; otherwise the link is added (`INSERT IGNORE`) |
| RoleModel.GetRolesByUserId | src/models/role.ts:26-34 | exactly the roles linked to the user |
| RoleModel.AssignThenListed | src/models/role.ts:14-34 | after assigning, the role is listed; assigning again is harmless; other users' roles are unchanged |
| RolesMw.LoadRoles | src/middlewares/roles.middleware.ts:4-24 | 401 exactly when no caller id (or id 0); otherwise exactly the names of the caller's roles |
| RolesMw.ZeroUserIdRefused | src/middlewares/roles.middleware.ts:10-14 | a user id of 0 is refused even when a security row id follows; a security row id alone is accepted |
| RolesMw.RequireRoles | src/middlewares/roles.middleware.ts:26-36 | on exactly when some allowed role is held; otherwise 403; an empty allow list always refuses |
| RolesMw.GuardedByLinks | src/middlewares/roles.middleware.ts:4-36 | for a signed-in user, the guard passes exactly when one of their linked roles is allowed |
| Badges.GetBadgeByCode | src/models/badges.ts:13-14 | none exactly when no badge has the code; otherwise the first with it |
| Badges.BadgeFields | src/models/badges.ts:19 | the inserted object has the badge's four keys, all defined |
| Badges.UpsertBadge | src/models/badges.ts:16-21 | the result and the table are those of the upsert specification |
| Badges.UpsertExisting | src/models/badges.ts:17-18 | an existing code returns its id and changes nothing |
| Badges.UpsertNewRefused | src/models/badges.ts:19-20 | as written, a new code fails with the invalid-table error and changes nothing |
| Badges.UpsertTwice | src/models/badges.ts:16-21 | with `badges` allowed, a new code is appended and gets the next id; a second upsert returns the same id and changes nothing |
| Badges.GrantBadge | src/models/badges.ts:23-27 | a grant row is appended |
| Badges.GrantTwiceCounts | src/models/badges.ts:23-27 | granting twice stores two grants (nothing makes grants unique) |

## Left out

- The clock is a parameter. "Today" in Europe/Madrid is a `Calendar.Date`,
  and `UTC_TIMESTAMP()` is a number of seconds.
- Time zones, `Intl.DateTimeFormat` and `CONVERT_TZ` are not modelled.
- DATE values are assumed to be read back as `YYYY-MM-DD` text, as the
  row types declare them (`string`). The pool (src/config/db.ts:9-15)
  sets `timezone: 'local'` and no `dateStrings`, so the driver may hand
  DATE columns over as `Date` objects at local midnight instead; the
  `instanceof Date` branch of `toIsoDate` (src/models/questions.ts:72) is
  not modelled. The table definitions are not part of this model, so
  which columns are DATE is not known here.
- ParticipationMw.StreakStepCases: holds only for a last-participation
  date read as text. With a `Date` value `last === today` never holds and
  `daysBetween` yields NaN, so no gap branch would run.
- StreakMw.AnswerStepCases: holds only for dates read as text, for the
  same reason (src/middlewares/streak.middleware.ts:16-20, 68).
- Questions.StaleText: holds only for a published date read as text; with
  a `Date` value the comparison with today would depend on the server's
  time zone.
- The database is in memory, and each transaction is atomic.
- Database and driver errors, with the 500 answers they cause, are not
  modelled. The exceptions are the builder's own errors and the NaN id of
  `requireActiveQuestionById`.
- `Number()` conversion of request text and infinities are not modelled. A
  number arrives as a `Num` (NaN or a finite real).
- MySQL's handling of a malformed `LIMIT` or `OFFSET` is not modelled.
- DebateController.GetTopAnswers: the limit is taken as an integer.
- DebateController.Percent: percentages are exact hundredths, rounded half
  up. Floating-point rounding of the division by 100 is not modelled.
- JSON body values other than strings and `null` are not modelled.
- Length is counted in code points, and a surrogate pair counts as one
  character. No Unicode normalisation is modelled.
- Question ids in `res.locals` and the request ids are numbers. Route wiring
  and the order of middlewares in `routes/*.ts` are stated only through the
  chains that the lemmas compose.
- The anonymous answer's IP address is a parameter. `getClientIp` is not
  part of this model, and new answers store no IP.
- `Answers.getMyAnswer`, which the debate controller calls, does not exist
  in `models/answers.ts` (see "## Findings"). In the corrected handler
  `DebateController.GetMyAnswer` its rows are a parameter.
- `ensureUserStats` appears in both `models/participations.ts` and
  `models/user-stats.ts`. It is modelled once, as `UserStats.WithStats`.
- `getUserStats` in `models/participations.ts` and in the streak middleware
  is modelled as `UserStats.GetUserStatsByUserId`.
- StreakMw.ApplyStreakOnAnswerMw: the branch for a missing stats row cannot
  be taken right after `ensureUserStats` and is not modelled.
- UserMw.IsPasswordCorrect: the bcrypt comparison is a boolean input.
- UserSecurityMw.Validate2FAToken: the TOTP check is a boolean input.
- UserSecurityMw.Check2FA: the generated TOTP secret is a parameter.
- AES encryption of the secret, the QR code and its 500 answer are not
  modelled.
- The users table is a parameter (`UserMw.User`). `normalizeEmail` and
  MySQL's case-insensitive collation are not modelled, so every `=`
  lookup compares exactly: e-mails (UserMw.LoadUserByEmail), role names
  (RoleModel.GetRoleByName, src/models/role.ts:10), badge codes
  (Badges.GetBadgeByCode, src/models/badges.ts:13-14) and token hashes
  (EmailVerification.FindValidCode, src/models/email-verification.ts:31).
- RoleModel.GetRolesByUserId: the rows follow table order. The order of
  MySQL's join is not modelled.
- Mail sending, JWT cookies and the controllers of `user.controller.ts`
  and `user-security.controller.ts` are outside this model.
- The validators `emailValid`, `passwordValid`, `credentialValid`,
  `validSensitiveData` and `resetTokenValid` are outside this model.
- The cron scheduler and the HTTP server are outside this model.
- `getAnswersByQuestion` and `getUserLikesForQuestion` are plain SELECTs
  that no modelled operation calls.

## Findings

| source | as written | input that shows it | evidently intended | confidence | as-written member | corrected member |
|---|---|---|---|---|---|---|
| src/middlewares/answer.middleware.ts:39-47 with src/helpers/index.ts:4-51 | the answers allow-list has no `anonymous_key` column, but `createAnswerMw` always sends that key, so `insertRow` throws and every answer is answered 500 | any answer, e.g. question 1, no user, side A, body "x" | the insert stores the answer with its anonymous key, or null | not executed | AnswerMw.CreateAnswerAlwaysRefused | AnswerMw.CreateAnswerCorrected |
| src/models/badges.ts:19-20 with src/helpers/index.ts:4-53 | `badges` is not an allow-listed table, so `upsertBadge` with a new code always throws | any badge whose code is not yet stored | a new badge is inserted and its id returned; a later upsert finds it | not executed | Badges.UpsertNewRefused | Badges.UpsertTwice |
| src/middlewares/like.middleware.ts:51-69 with src/controllers/debate.controller.ts:48-58 | `likeAnswerMw` never sets `res.locals.liked`, so the controller always answers 200 "Already liked" | a first like: answer 1 by an anonymous visitor, caller 7, no likes yet | 201 "Liked" when the like is new, 200 when it already existed | not executed | LikeMw.LikeRouteNeverCreated | LikeMw.LikeRouteCorrectedReports |
| src/middlewares/user-security.middleware.ts:64-73 with src/middlewares/user-security.middleware.ts:135-143 | `getUserSecurityByUserId` reads `res.locals.id`, which no handler in the 2FA login chain sets (the user lookup sets `res.locals.user`), so the lookup always answers 403 "Not an userSecurity" | user 1 with e-mail a@b.c and a security row of its own | the security row of the user just loaded is found | not executed | UserSecurityMw.LoginSecurityLookupRefuses | UserSecurityMw.LoginSecurityLookupFinds |
| src/controllers/debate.controller.ts:187 with src/models/answers.ts:84-92 | `getMyAnswer` calls `Answers.getMyAnswer`, which the answers model does not export, so the call throws and every request with a valid id and a signed-in user is answered 500 | question 1 asked by signed-in user 7 | 200 with `answered` and the user's answer, or null | not executed | DebateController.GetMyAnswerAlwaysFails | DebateController.GetMyAnswer |
