# A verified model of boki3-quiz

boki3-quiz is a Go web application for practising bookkeeping (Nissho Boki level 3): questions are served from
sets, answers are graded, and a spaced-repetition schedule decides what comes back when. This project models the
parts of it whose correctness is an argument over whole runs rather than over one function body, and proves what
they are for. `dafny verify dfyconfig.toml` checks everything.

| file | part of the program |
|---|---|
| `RateLog.dfy` | what a run of a rate limiter is, the reference limiter that keeps the complete list of accepted calls, and erasure for every limiter that refines it |
| `SlidingWindow.dfy`, `FixedWindow.dfy`, `TokenBucket.dfy` | the three limiters, their in-place state and their bounds over every interval of every run |
| `Srs.dfy` | the SM-2 step: closed form, dominance, growth |
| `QuizTables.dfy`, `QuizService.dfy` | the attempts and srs_states tables; `Submit` keeps the second an exact index over the first |
| `DueQueue.dfy`, `WeakTopics.dfy` | the queries behind the schedule: due reviews and weakest topics |
| `Sequential.dfy`, `PickSrs.dfy`, `NextQuestion.dfy` | which question is shown next |
| `Accounts.dfy`, `AccountTables.dfy`, `Grading.dfy` | account names, the alias table in use, and when an answer is correct |
| `SeedSync.dfy` | bringing the question tables to the bank compiled into the program |
| `Migrate.dfy` | schema migrations that may be stopped and restarted anywhere |
| `Revocation.dfy` | API tokens and the purged revocation table |
| `Wrappers.dfy`, `Decimal.dfy`, `Text.dfy`, `ScryptParams.dfy`, `FormatYen.dfy` | optional values and results, printing and parsing |

Code that updates state in the source is a class or a loop here, proved against a specification function; the
theorems are lemmas about that function over whole runs. A run of a limiter is any sequence of calls, resets and
sweeps by any keys under a clock that never goes back. A run of the quiz service is any interleaving of submits and
full deletes by any users. Storage failures are parameters: a named fault in a submit, a budget of statements or
steps for the transactional procedures.

## Where the code and its comments differ

The model follows the code.

- The sliding window does not record refused calls, although its comment says that a call is recorded. The two agree
  on every run exactly when max or the window is not positive (`SlidingWindow.CommentExact`).
- The fixed window and the token bucket accept the first call of a fresh key whatever max or capacity is. So the
  fixed window's bound of (k+1)*max needs a max of one, except for a window of no length
  (`FixedWindow.BoundExact`), and well-spaced callers are all served exactly when capacity >= 1
  (`TokenBucket.SpacedCallsExact`).
- The token bucket's bound, and the erasure of its sweeps, hold for every run exactly when capacity >= 1 and sweeps
  leave an idle bucket time to fill up, rate * ttl >= capacity (`TokenBucket.SweepTtlExact`,
  `TokenBucket.ErasureTtlExact`); a shorter ttl gives tokens away.
- Ledger and slip answers are compared by their entries, although the bank stores them as a choice and the form
  sends a choice. A question stored without entries accepts every answer without entries
  (`Grading.EveryChoicePasses`); the stored choice decides exactly for the kinds graded by choice
  (`Grading.ChoiceDecidesExact`).
- Grading by choice is not transitive through a choice that is written but blank
  (`Grading.ChoiceGradingChains` gives the exact condition).
- The SRS branch for due questions is not restricted to the chosen set. It stays inside it for all draws exactly when
  every due question that can be read belongs to it (`PickSrs.StaysInSetExact`).
- That branch redraws with replacement, although its comment says that it gives up only if no candidate can be read.
  Every sequence of draws finds a question exactly when every candidate can be read (`PickSrs.EveryDrawFinds`), some
  sequence exactly when some candidate can (`PickSrs.SomeDrawFinds`).
- Times are stored in whole seconds, so a question answered wrongly is not due again within some time, whenever it
  was answered, exactly up to one second short of 24 hours (`PickSrs.SafeDayExact`), and a token can live almost a
  second less than its ttl (`Revocation.Lifetime`).
- `Submit` and `DeleteAllForUser` write two tables without a transaction. After a submit that fails between the
  writes the tables agree exactly when the answer was wrong and the row already showed a wrong answer of the same
  second at the lowest E-factor (`QuizService.TornSubmit`); after a full delete, exactly when the user had no SRS row
  (`QuizService.TornDeleteAll`).
- `DeleteAttempt` does not touch srs_states; `QuizService.DeleteAttemptExact` and `QuizService.DeleteNewestExact` say
  when that is right.
- `Sync` never removes a membership of a question that is still in the bank, so the sets are the bank's exactly when
  there was no such membership outside it (`SeedSync.MembersAreBanksExact`).
- `Sync` takes the SRS rows of retired questions and keeps their attempts, so the two tables agree afterwards exactly
  when nobody had answered a retired question (`SeedSync.SyncAgreementExact`).
- Migrations run in the order of their names, not of their numbers. The two agree for numbers padded to one width;
  `Migrate.NameOrderExact` says when they agree for unpadded ones.
- A file whose number is already recorded is skipped silently. Of several pending files with one number the first
  runs, the run fails at the second, and from then on the others are skipped as if they had run
  (`Migrate.RestartsConverge`, `Migrate.RepeatedVersionIsLost`).
- The row a password change writes to the revocation table refuses no token but one whose id were that of the row
  itself (`Revocation.RevokeAllExact`, `Revocation.MarkerNotConsulted`).
- `VerifyToken` reports an expired token as expired only if it expires between the two readings of the clock
  (`Revocation.ExpiredBetweenReadings`); otherwise the parser has already refused it as invalid.

## Model

| member | source | states |
|---|---|---|
| `RateLog.LogErasure` | internal/auth/ratelimit/ratelimit.go:40-59 | on the reference limiter, deleting refused calls, other keys and sweeps from any run leaves every other answer as it was |
| `RateLog.FollowsLog` | internal/auth/ratelimit/ratelimit.go:40-75 | a limiter whose every step agrees with a rule on the accepted times of each key answers every run as the reference limiter does |
| `RateLog.Erasure` | internal/auth/ratelimit/ratelimit.go:40-75 | hence erasure for any such limiter |
| `RateLog.AcceptedObeysRule` | internal/auth/ratelimit/ratelimit.go:40-59 | what a key was granted obeys the rule call by call, whatever the other keys did |
| `RateLog.DeleteStale` | internal/auth/ratelimit/ratelimit.go:68-73 | the loop of every Sweep: deleting while ranging over the keys removes exactly the stale ones and counts them |
| `SlidingWindow.Limiter.Allow` | internal/auth/ratelimit/ratelimit.go:40-59 | the whole new table and the answer, pruning included |
| `SlidingWindow.Limiter.Sweep` | internal/auth/ratelimit/ratelimit.go:63-75 | exactly the keys without a call in the window go, and their number is returned |
| `SlidingWindow.PruneInPlace` | internal/auth/ratelimit/ratelimit.go:46-51 | pruning within one backing array leaves the filtered list in front and the rest of the array alone |
| `SlidingWindow.StepAgrees` | internal/auth/ratelimit/ratelimit.go:40-75 | each operation keeps the pruned, swept list indistinguishable from the complete one as far as the window reaches |
| `SlidingWindow.RefinesFullLog` | internal/auth/ratelimit/ratelimit.go:40-75 | every run is answered as by the complete, never pruned log |
| `SlidingWindow.AllowedIffFewerThanMax` | internal/auth/ratelimit/ratelimit.go:39-59 | a call is allowed exactly when fewer than max calls of its key were accepted in (now - window, now] |
| `SlidingWindow.WindowBound` | internal/auth/ratelimit/ratelimit.go:17-18 | any window (t - window, t] of any run holds at most max(0, max) acceptances of a key |
| `SlidingWindow.WindowErasure` | internal/auth/ratelimit/ratelimit.go:40-75 | refused calls, other keys and sweeps can be deleted from a run without changing any other answer |
| `SlidingWindow.CommentExact` | internal/auth/ratelimit/ratelimit.go:39-59 | the code answers every run as a limiter that also counts refused calls if and only if max <= 0 or window <= 0 |
| `FixedWindow.Limiter.Allow` | internal/auth/ratelimit/ratelimit.go:103-117 | the whole new table and the answer |
| `FixedWindow.Limiter.Reset` | internal/auth/ratelimit/ratelimit.go:120-124 | forgets the key and nothing else |
| `FixedWindow.Limiter.Sweep` | internal/auth/ratelimit/ratelimit.go:127-139 | exactly the keys whose window is over go, and their number is returned |
| `FixedWindow.RefinesHistory` | internal/auth/ratelimit/ratelimit.go:103-139 | every answer is a function of the calls of the key accepted since its last reset; sweeps never show |
| `FixedWindow.WindowErasure` | internal/auth/ratelimit/ratelimit.go:103-139 | refused calls, other keys and sweeps can be deleted from a run without changing any other answer |
| `FixedWindow.WindowsBefore` | internal/auth/ratelimit/ratelimit.go:103-117 | windows are packed: the calls counted before the open one fill at most one straddling window and the whole ones after it |
| `FixedWindow.IntervalBound` | internal/auth/ratelimit/ratelimit.go:77-117 | without a reset of the key, any [t, t + k*window) of any run holds at most (k+1)*max accepted calls, for every k >= 1 |
| `FixedWindow.BoundExact` | internal/auth/ratelimit/ratelimit.go:102-117 | the bound with max itself holds in every run if and only if max >= 1, or max is zero and the window has no length |
| `FixedWindow.RefusedOnlyWhenFull` | internal/auth/ratelimit/ratelimit.go:103-117 | in any run, with resets and sweeps, a call is refused only if at least max calls of its key were accepted in (now - window, now] |
| `FixedWindow.FullWindowAfterQuiet` | internal/auth/ratelimit/ratelimit.go:107-117 | a call accepted after a whole window without one opens a window of full length: from it on no more than max calls (one, if max is below one) are accepted before that length has passed |
| `TokenBucket.Limiter.Allow` | internal/auth/ratelimit/ratelimit.go:166-186 | the whole new table and the answer, refill and clamp included |
| `TokenBucket.Limiter.Sweep` | internal/auth/ratelimit/ratelimit.go:189-201 | exactly the buckets not filled for ttl go, and their number is returned |
| `TokenBucket.RefillCompose` | internal/auth/ratelimit/ratelimit.go:175-180 | refilling at an intermediate time, as a refused call does, neither loses nor adds tokens |
| `TokenBucket.RefinesHistory` | internal/auth/ratelimit/ratelimit.go:166-201 | with patient sweeps every answer is a function of the accepted calls of the key |
| `TokenBucket.BucketErasure` | internal/auth/ratelimit/ratelimit.go:166-201 | refused calls, other keys and patient sweeps can be deleted from a run without changing any other answer |
| `TokenBucket.IntervalBound` | internal/auth/ratelimit/ratelimit.go:141-186 | any [lo, hi] of any run with patient sweeps holds at most capacity + rate*(hi - lo) accepted calls of a key |
| `TokenBucket.AcceptedIffBoundAllows` | internal/auth/ratelimit/ratelimit.go:166-186 | with capacity >= 1 and patient sweeps, a call is accepted if and only if with it every interval ending now keeps the bound capacity + rate*length: the bucket refuses nothing that the bound allows |
| `TokenBucket.SpacedCallsNeverRefused` | internal/auth/ratelimit/ratelimit.go:166-186 | calls of a key at least 1/rate apart are never refused, whatever sweeps and other keys do |
| `TokenBucket.SpacedCallsExact` | internal/auth/ratelimit/ratelimit.go:166-186 | for rate > 0, they are never refused in any run if and only if capacity >= 1 |
| `TokenBucket.SweepTtlExact` | internal/auth/ratelimit/ratelimit.go:166-201 | the bound holds in every run that sweeps with a given ttl if and only if capacity >= 1 and rate*ttl >= capacity |
| `TokenBucket.ErasureTtlExact` | internal/auth/ratelimit/ratelimit.go:166-201 | refused calls, other keys and sweeps with a given ttl can be deleted from every run if and only if capacity >= 1 and rate*ttl >= capacity |
| `Srs.GradeFromResult` | internal/domain/srs/grade.go:21-37 | the grade is in 0..5 and passes exactly when the answer was correct |
| `Srs.GradeLimits` | internal/domain/srs/grade.go:21-37 | a slower correct answer never grades higher; the grade falls from 5 to 4 at 5000 ms and to 3 at 15000 ms and no further; a negative duration grades 4, a wrong answer 0 |
| `Srs.RoundHundredths` | internal/domain/srs/sm2.go:23 | the nearest integer, halves away from zero |
| `Srs.Increments` | internal/domain/srs/sm2.go:27 | the increments of the grades 5 to 0 are +0.10, 0, -0.14, -0.32, -0.54 and -0.80, the formula of SM-2 in hundredths |
| `Srs.NextExactly` | internal/domain/srs/sm2.go:12-37 | after any reviews, one more makes the interval one day after a failure or a first success, six after the second and else the nearest whole number to the old interval times the old E-factor; it is due that many days on |
| `Srs.PerfectRun` | internal/domain/srs/state.go:18-27 | a new state is due at once, and n perfect answers bring it to an E-factor of 2.5 + 0.1 n |
| `Srs.EFactorClosedForm` | internal/domain/srs/sm2.go:27-32 | the E-factor is a walk reflected at 1.3: the largest of the start plus all increments and of 1.3 plus the increments after each review |
| `Srs.EFactorRange` | internal/domain/srs/sm2.go:27-32 | never below 1.3, never more than 0.1 a review above the start |
| `Srs.NextSound` | internal/domain/srs/sm2.go:12-37 | every step keeps the reachable-state invariant and is due at least a day later |
| `Srs.ReplaySound` | internal/domain/srs/sm2.go:12-37 | hence every state reached from a sound one |
| `Srs.Dominance` | internal/domain/srs/sm2.go:12-37 | from one reachable state at the same times, a pointwise no-worse grade sequence keeps E-factor, streak, interval and due time at least as large at every point |
| `Srs.StreakGrowth` | internal/domain/srs/sm2.go:13-26 | after k >= 2 successes in a row the interval is at least (13/3)*1.3^(k-2) + 5/3 days |
| `Srs.StreakLengthens` | internal/domain/srs/sm2.go:13-26 | from the first success of a streak on, every further one lengthens the interval |
| `Srs.FailureResets` | internal/domain/srs/sm2.go:13-15 | a failed review leads to the start of a streak, due in one day, from every reachable state |
| `QuizTables.AttemptRepo.Create` | internal/repo/sqlite/attempt_repo.go:29-52 | the row gets an id above all in use and is added; nothing else changes |
| `QuizTables.AttemptRepo.DeleteById` | internal/repo/sqlite/attempt_repo.go:95-109 | only the user's own attempt goes, and whether there was one is reported |
| `QuizTables.Latest` | internal/repo/sqlite/attempt_repo.go:186-199 | the row that answered_at DESC, id DESC puts first |
| `QuizTables.AttemptedExactly` | internal/repo/sqlite/attempt_repo.go:223-231 | a question is listed as attempted if and only if some attempt of the user is on it |
| `QuizTables.StoredAndRead` | internal/repo/sqlite/srs_repo.go:37-97 | what is read back is what was stored, its instants cut to the second |
| `QuizTables.UnixAfterDays` | internal/repo/sqlite/srs_repo.go:37-48 | waiting whole days commutes with dropping the fraction of a second |
| `DueQueue.DueForUser` | internal/repo/sqlite/srs_repo.go:51-76 | a page of the due rows, earliest first, cut off at the limit, so that no row left out is due before one shown |
| `DueQueue.CountDueForUser` | internal/repo/sqlite/srs_repo.go:108-117 | the number of due questions |
| `DueQueue.PageLengthIsCount` | internal/repo/sqlite/srs_repo.go:51-117 | the page is exactly as long as the count, up to its limit |
| `WeakTopics.WeakTopicIds` | internal/repo/sqlite/attempt_repo.go:201-220 | the topics with a wrong answer since the given time, highest rate first and lowest id on ties, cut off at the limit with nothing weaker left out |
| `WeakTopics.TopUnique` | internal/repo/sqlite/attempt_repo.go:201-220 | that answer is unique |
| `WeakTopics.MissedHaveWrong` | internal/repo/sqlite/attempt_repo.go:209-212 | the topics ranked are exactly those with a wrong answer counted |
| `WeakTopics.RateCounts` | internal/repo/sqlite/attempt_repo.go:213 | the two numbers of the rate count the matching wrong answers and the matching answers |
| `WeakTopics.AheadIs` | internal/repo/sqlite/attempt_repo.go:213 | of two topics with answers the one with the larger share of wrong ones comes first, on ties the one with the smaller id |
| `QuizService.Service.Submit` | internal/service/quiz_service.go:214-268 | both tables and the result after a submit, for every point at which the storage may fail |
| `QuizService.SubmitErrors` | internal/service/quiz_service.go:214-256 | which error a submit reports, if and only if what, and exactly when it succeeds |
| `QuizService.SubmitRecords` | internal/service/quiz_service.go:225-247 | one row is added at the end and says who answered what, in which set, when, how fast and, by the grading, whether correctly; nothing changes if the question cannot be graded or the insert fails |
| `QuizService.SubmitReturns` | internal/service/quiz_service.go:258-268 | a successful submit returns that row, its exact instant, the explanation of the question, and the instant the SRS row is due before that is cut to the second |
| `QuizService.Service.DeleteAllForUser` | internal/service/quiz_service.go:276-284 | both tables after a full delete, for every point at which the storage may fail |
| `QuizService.DeleteAllExact` | internal/service/quiz_service.go:276-284 | a full delete succeeds if and only if no storage fails; then no attempt and no SRS row of the user is left; a failure of the first delete changes nothing, one of the second leaves the SRS rows only; in every case all rows of the others stay, their attempts in order |
| `QuizService.StoredStateIsEnough` | internal/domain/srs/sm2.go:12-37 | a state stored in whole seconds leads to the same next row as the exact one |
| `QuizService.SubmitKeepsAgreement` | internal/service/quiz_service.go:214-268 | a submit keeps srs_states equal to the replay of attempts for every user and question |
| `QuizService.DeleteAllKeepsAgreement` | internal/service/quiz_service.go:276-284 | so does a full delete |
| `QuizService.RunKeepsAgreement` | internal/service/quiz_service.go:214-284 | after any interleaving by any users there is a row for exactly the answered pairs, equal to the fold of the SM-2 step over that pair's attempts in order |
| `QuizService.IndexDetermined` | internal/service/quiz_service.go:248-262 | the attempts alone determine srs_states |
| `QuizService.ReviewChangesNothing` | internal/domain/srs/sm2.go:12-37 | one more review leaves a row as it is if and only if it fails and the row already shows a failure of the same second at the lowest E-factor |
| `QuizService.TornSubmit` | internal/service/quiz_service.go:244-262 | when the second write fails, the tables agree if and only if the answer is wrong and the stored row is such a row |
| `QuizService.TornFirstSubmit` | internal/service/quiz_service.go:244-262 | on a first answer they never agree |
| `QuizService.TornDeleteAll` | internal/service/quiz_service.go:276-284 | when the second delete fails, the tables agree if and only if the user has no SRS row |
| `QuizService.DeleteAttemptCovers` | internal/service/quiz_service.go:271-273 | deleting one attempt keeps rows and answered pairs in step if and only if it was not the only attempt of its pair |
| `QuizService.DeleteAttemptExact` | internal/service/quiz_service.go:271-273 | it keeps the row values right as well if and only if the other reviews of the pair, replayed without it, lead to the stored row; no other pair is affected |
| `QuizService.DeleteNewestExact` | internal/service/quiz_service.go:271-273 | for the newest attempt of its pair: if and only if it was wrong and an earlier one of the same second had left the E-factor at its lowest |
| `Sequential.ListBySetDistinct` | internal/repo/sqlite/question_repo.go:42-56 | a set's list holds exactly its existing questions, each once |
| `Sequential.ListBySetOrder` | internal/repo/sqlite/question_repo.go:42-56 | the list is in the order of ord, on ties of the question id |
| `Sequential.NextIndexIs` | internal/service/quiz_service.go:75-93 | without a usable last answer the index is the first; otherwise, wherever the last answered question stands, the next place, wrapping at the end |
| `Sequential.PickSequential` | internal/service/quiz_service.go:75-93 | the question after the one last answered, the first after the end, without history or when that question left the set |
| `Sequential.ForeignKeepsPosition` | internal/repo/sqlite/attempt_repo.go:186-199 | other users and other sets do not move a learner's position in a set |
| `Sequential.RoundAdvances` | internal/service/quiz_service.go:75-93 | answering the question shown makes it the last one answered in the set |
| `Sequential.CourseIsPlayable` | internal/repo/sqlite/question_repo.go:42-56 | every non-empty set of a well-keyed catalog with readable answers meets the premises of the next row |
| `Sequential.CyclicCoverage` | internal/service/quiz_service.go:72-93 | any n consecutive questions shown of a set of n are its list, read from some point to the end and on from the start, whatever anybody else does and whatever the learner does in other sets |
| `Sequential.RotationPermutes` | internal/service/quiz_service.go:72-93 | such a round shows every question of the list exactly as often as the list has it, which is once |
| `PickSrs.PickCandidate` | internal/service/quiz_service.go:169-180 | a candidate satisfying the condition, or none exactly when there is none, for every draw |
| `PickSrs.EveryCandidateCanBeDrawn` | internal/service/quiz_service.go:169-180 | every candidate is drawn by some draw |
| `PickSrs.PickRandomAvoid` | internal/service/quiz_service.go:206-211 | a question of the list, the last one only if the list holds nothing else |
| `PickSrs.PickUnattempted` | internal/service/quiz_service.go:154-166 | an unattempted question of the list, or none exactly when the read fails or there is none |
| `PickSrs.PickWeakTopicAvoid` | internal/service/quiz_service.go:137-149 | a question of a weak topic other than the last, or none exactly when the read fails or there is none |
| `PickSrs.PickDueAvoid` | internal/service/quiz_service.go:185-202 | the first readable of as many draws, with replacement, as there are candidates; it is due, and the last question only if nothing else is |
| `PickSrs.EveryDrawFinds` | internal/service/quiz_service.go:184-202 | for unchanging reads, every sequence of draws finds a question if and only if every candidate can be read |
| `PickSrs.SomeDrawFinds` | internal/service/quiz_service.go:184-202 | some sequence does if and only if some candidate can be read |
| `PickSrs.StaysInSetExact` | internal/service/quiz_service.go:107-133 | what the due branch shows is in the list for all draws if and only if every readable candidate is |
| `PickSrs.RepeatsExact` | internal/service/quiz_service.go:182-202 | some draws repeat the last question if and only if it is all that is due and it can be read |
| `PickSrs.NoHistoryNoLast` | internal/service/quiz_service.go:115-118 | without an earlier answer no question counts as the last one, since ids start at one |
| `PickSrs.PickSrs` | internal/service/quiz_service.go:107-133 | on a non-empty list with a successful due read the question chosen is the one the draws and fractions determine, of which the next three rows say what it is; it is from the list or a due row whatever else fails, and repeats the last one only if the due page is exactly that question or the list holds nothing else |
| `PickSrs.DueComesFirst` | internal/service/quiz_service.go:119-123 | if anything is due, the first fraction is below 0.7 and the redraws find a readable question, that question of the due page is shown |
| `PickSrs.FallbackOrder` | internal/service/quiz_service.go:124-132 | otherwise, if the next fraction is below 2/3 and the list has a question of a weak topic other than the last, such a one is shown; otherwise an unattempted one if that is known and there is one; only otherwise any, the last only if the list holds nothing else |
| `PickSrs.EveryDueCanBeShown` | internal/service/quiz_service.go:119-123 | some draws show any given readable candidate of the due page |
| `PickSrs.NotDueWithinADay` | internal/service/quiz_service.go:259-260 | where the tables agree, no answered question is due before 86400 whole seconds have passed |
| `PickSrs.DueExactly` | internal/repo/sqlite/srs_repo.go:37-76 | where the tables agree, a question is due if and only if it was answered and the days of its interval have passed in whole seconds since the last answer |
| `PickSrs.WrongAnswerDue` | internal/service/quiz_service.go:258-260 | a question just answered wrongly is due if and only if 86400 whole seconds have passed |
| `PickSrs.ReachedPageOmitsLast` | internal/repo/sqlite/srs_repo.go:51-76 | in every store reached by submits and full deletes, the due page omits the question last answered for that long |
| `PickSrs.SafeDayExact` | internal/service/quiz_service.go:258-260 | a question answered wrongly is not due after a given time, at whatever instant it was answered, if and only if that time is at most one second short of a day |
| `PickSrs.ReachedIsOrderly` | internal/service/quiz_service.go:214-284 | every store reached by submits and full deletes meets the premise of the day clause in the next row |
| `NextQuestion.Next` | internal/service/quiz_service.go:51-70 | which of the four outcomes each mode has and which question is shown in each of the modes; the SRS mode shows the question of `PickSrs.PickSrs`, repeats the last one only if the due page is exactly that question or the set holds nothing else, and within a day of its answer only in the second case |
| `Accounts.NormalizeIdempotent` | internal/domain/accounts/accounts.go:102-116 | normalising twice is normalising once, for any well-formed alias table |
| `Accounts.StripExactly` | internal/domain/accounts/accounts.go:106-111 | spaces, tabs and ideographic spaces go wherever they stand, every other character stays in its place |
| `Accounts.NormalizeKernel` | internal/domain/accounts/accounts.go:102-116 | two inputs are identified if and only if, blanks aside, they are equal or name one standard account directly or by alias |
| `Accounts.NeverMergesStandard` | internal/domain/accounts/accounts.go:4-7 | two standard names are never identified |
| `Accounts.AliasSwap` | internal/domain/accounts/accounts.go:46-100 | an alias and its standard name normalise alike |
| `AccountTables.StandardTableIsWellFormed` | internal/domain/accounts/accounts.go:12-100 | the table in use is well-formed: no alias is standard, every alias leads to a standard name, no name contains white space |
| `Grading.NormalizeEntries` | internal/domain/grading/grading.go:48-64 | the sorted list of the non-blank lines under their canonical names |
| `Grading.SortedUnique` | internal/domain/grading/grading.go:57-62 | the order leaves no choice: equal multisets sort to equal lists |
| `Grading.EntrySetEqual` | internal/domain/grading/grading.go:32-44 | true if and only if the multisets of (canonical account, amount) of non-blank lines are equal |
| `Grading.IsCorrect` | internal/domain/grading/grading.go:14-30 | true if and only if the types match and, by type, the entries or the choices do |
| `Grading.TrimSpaceExact` | internal/domain/grading/grading.go:23-26 | trimming gives t if and only if the text is t with white space around it and t has none at its ends |
| `Grading.EqualFoldHead` | internal/domain/grading/grading.go:24 | two choices are equal up to case if and only if both are empty or their heads fold alike and their rests are equal up to case |
| `Grading.ChoiceGradingExact` | internal/domain/grading/grading.go:21-26 | for the four kinds graded by choice: correct if and only if the kinds match and the choices are the same but for case and surrounding white space, or, with no choice on either side, the texts are but for surrounding white space |
| `Grading.SpaceAroundAnswer` | internal/domain/grading/grading.go:22-26 | white space around a non-empty choice, or around the text when both choices are empty, never changes what is correct, on either side |
| `Grading.SpaceAroundAccount` | internal/domain/grading/grading.go:51 | white space around an account name never changes its canonical form |
| `Grading.UnknownNeverCorrect` | internal/domain/grading/grading.go:15-29 | nothing is correct for a kind the program does not know |
| `Grading.PermutedEntries` | internal/domain/grading/grading.go:46-64 | the order of the lines does not matter |
| `Grading.BlankLine` | internal/domain/grading/grading.go:52-54 | adding a line anywhere makes no difference if and only if its account is blank and its amount zero |
| `Grading.RewrittenLine` | internal/domain/grading/grading.go:51-55 | replacing a line makes no difference if and only if canonical account and amount stay the same |
| `Grading.InsertedBlank` | internal/domain/grading/grading.go:51 | a space, tab or ideographic space may be inserted anywhere in an account name |
| `Grading.AliasForm` | internal/domain/grading/grading.go:51 | an alias and its standard name are graded alike |
| `Grading.CanonicalIdempotent` | internal/domain/grading/grading.go:51 | trimming and normalising twice is doing it once |
| `Grading.StandardNamesDistinct` | internal/domain/grading/grading.go:51 | two standard names are never graded alike |
| `Grading.EntryGradingIsMeaning` | internal/domain/grading/grading.go:18-20 | graded by entries, an answer is correct if and only if it says the same |
| `Grading.EntryGradingEquivalence` | internal/domain/grading/grading.go:18-20 | correctness by entries is an equivalence |
| `Grading.ChoiceGradingChains` | internal/domain/grading/grading.go:21-26 | correctness by choice is reflexive and symmetric, and chains through an answer if and only if its choice is not blank |
| `Grading.EveryChoicePasses` | internal/domain/grading/grading.go:18-20 | a journal, ledger or slip question stored without entries accepts an answer of its kind if and only if that has no entries either, whatever it chooses |
| `Grading.ChoiceDecidesExact` | internal/domain/grading/grading.go:12-30 | a stored choice without entries decides, ignoring case, which answers without entries are correct if and only if the kind is graded by choice |
| `SeedSync.Database.Sync` | seed/bootstrap.go:64-104 | success leaves the specified database, any error leaves the old one, and without storage errors the outcome is the specified one |
| `SeedSync.Database.UpsertTopicsTx` | seed/bootstrap.go:127-137 | the topics after the loop, nothing else changed |
| `SeedSync.Database.UpsertSetsTx` | seed/bootstrap.go:139-149 | the sets after the loop, nothing else changed |
| `SeedSync.Database.UpsertQuestionsTx` | seed/bootstrap.go:151-204 | questions and memberships after both loops; refuses exactly when a topic or set is missing, if the storage does not fail |
| `SeedSync.Database.RetireStaleQuestionsTx` | seed/bootstrap.go:107-125 | exactly the memberships and SRS rows of questions outside the bank go |
| `SeedSync.SyncConverges` | seed/bootstrap.go:57-204 | afterwards all bank rows match the bank, members are the old ones of bank questions plus the bank's, retired questions have no membership or SRS row, and ids, creation times, question rows and attempts survive |
| `SeedSync.SyncDatesNew` | seed/bootstrap.go:151-185 | a question that was not there before gets the time of the Sync |
| `SeedSync.SyncSucceedsExactly` | seed/bootstrap.go:151-204 | Sync refuses if and only if a question names a topic or set that neither bank nor database has |
| `SeedSync.SyncIdempotent` | seed/bootstrap.go:57-58 | a second Sync with the same bank changes nothing, whenever it runs |
| `SeedSync.SyncAgreementExact` | seed/bootstrap.go:106-125 | after a Sync srs_states is what attempts implies if and only if no attempt is on a retired question |
| `SeedSync.MembersAreBanksExact` | seed/bootstrap.go:57-61 | afterwards the memberships are exactly the bank's if and only if no bank question was in a set the bank does not put it into |
| `Migrate.ListSql` | internal/pkg/sqlitex/sqlitex.go:109-126 | exactly the .sql files, in name order |
| `Migrate.SqlFilesAre` | internal/pkg/sqlitex/sqlitex.go:114-123 | a file is listed if and only if it is an entry that is no directory and has a name ending in .sql |
| `Migrate.ParseVersionExact` | internal/pkg/sqlitex/sqlitex.go:148-158 | a name has version v if and only if a non-empty text that Atoi reads as v stands before its first underscore |
| `Migrate.PaddedParses` | internal/pkg/sqlitex/sqlitex.go:148-158 | a padded number before an underscore is read back as that number |
| `Migrate.VersionsAscend` | internal/pkg/sqlitex/sqlitex.go:124 | numbers padded to one width ascend along the list |
| `Migrate.PrintedParses` | internal/pkg/sqlitex/sqlitex.go:148-158 | any 64-bit number printed before the underscore is read back as the version |
| `Migrate.NameOrderExact` | internal/pkg/sqlitex/sqlitex.go:124 | of two unpadded numbers the smaller comes first if and only if the larger has as many digits or begins with more than the smaller |
| `Migrate.Database.Migrate` | internal/pkg/sqlitex/sqlitex.go:72-107 | the database and the outcome of a run that may be stopped after any step; `Migrate.RunAppliesPrefix` says what that is without it |
| `Migrate.Database.ApplyOneTx` | internal/pkg/sqlitex/sqlitex.go:160-185 | script, with its effect on the schema, and record are both applied or neither |
| `Migrate.RunAppliesPrefix` | internal/pkg/sqlitex/sqlitex.go:72-185 | every run on any list, failed or not, has applied a first part of the first pending files of each version, in order, and nothing else: the schema is the fold of these scripts from the old schema, their versions are recorded, and no others; a successful one, all |
| `Migrate.RunAllAppliesPrefix` | internal/pkg/sqlitex/sqlitex.go:72-185 | so has any number of runs, each stopped anywhere |
| `Migrate.RunAllEffects` | internal/pkg/sqlitex/sqlitex.go:72-185 | and the schema is the fold of the scripts applied, the recorded versions the old ones and theirs |
| `Migrate.FirstsIffDistinct` | internal/pkg/sqlitex/sqlitex.go:89-97 | every pending file is the first of its version if and only if the pending versions are distinct |
| `Migrate.RestartsConverge` | internal/pkg/sqlitex/sqlitex.go:72-185 | any failed runs followed by a successful one execute the first pending file of each version exactly once, in order, and nothing else: the schema is the fold of their scripts and their versions are recorded; that is every pending script if and only if the pending versions are distinct |
| `Migrate.RestartsLikeOneRun` | internal/pkg/sqlitex/sqlitex.go:72-185 | with distinct pending versions the database is what one undisturbed run leaves |
| `Migrate.SucceedsIffDistinct` | internal/pkg/sqlitex/sqlitex.go:89-105 | if no script and no step fails, a run succeeds if and only if every name parses and the pending versions are distinct |
| `Migrate.SucceedsExactly` | internal/pkg/sqlitex/sqlitex.go:89-105 | whatever the scripts, a run that the storage does not disturb succeeds if and only if every name parses, the pending versions are distinct and the pending scripts run one after the other from the old schema |
| `Migrate.FailsForReason` | internal/pkg/sqlitex/sqlitex.go:89-105 | a run that fails undisturbed has met a name that does not parse, a script that fails on the schema it left, or a version recorded since the run began |
| `Migrate.StopsAnywhere` | internal/pkg/sqlitex/sqlitex.go:72-107 | the storage can stop a run that would succeed after any number of its files, and after each with exactly these applied |
| `Migrate.RetriesSucceed` | internal/pkg/sqlitex/sqlitex.go:72-107 | if no script and no step fails, at most one retry for each version to apply leads to success, whatever versions repeat |
| `Migrate.RepeatedVersionIsLost` | internal/pkg/sqlitex/sqlitex.go:94-96 | with a repeated version among the pending files of any list, the undisturbed run fails, retries succeed, nothing is pending any more, and not every pending script has run |
| `Revocation.JWTRevocationRepo.Revoke` | internal/repo/sqlite/jwt_repo.go:24-34 | the row of the jti gets the expiry in whole seconds and keeps its user; no other row changes |
| `Revocation.JWTRevocationRepo.RevokeAllForUser` | internal/repo/sqlite/jwt_repo.go:50-60 | writes one marker row and leaves every jti not of the markers' form as it was |
| `Revocation.JWTRevocationRepo.PurgeExpired` | internal/repo/sqlite/jwt_repo.go:63-73 | exactly the rows expired by the whole second go, and their number is returned |
| `Revocation.APIAuthService.IssueToken` | internal/service/api_auth_service.go:36-56 | the signed token, its jti and its exact expiry |
| `Revocation.APIAuthService.VerifyToken` | internal/service/api_auth_service.go:60-80 | the subject or the kind of error, for two readings of the clock |
| `Revocation.APIAuthService.Logout` | internal/transport/api/api.go:105-118 | a token is revoked under its own jti and its own expiry, or not at all |
| `Revocation.RunKeeps` | internal/repo/sqlite/jwt_repo.go:24-73 | after every run of issues, foreign signatures, revocations, markers and purges the table still holds every revoked jti whose token has not expired, and nothing that was not revoked |
| `Revocation.VerifyIsGrowOnly` | internal/service/api_auth_service.go:57-80 | whatever was purged in between, a token is accepted if and only if it was issued for this issuer and audience, has not expired and was never revoked |
| `Revocation.FailsClosed` | internal/service/api_auth_service.go:72-75 | a table that cannot be read lets nobody in, and the storage error shows exactly for tokens otherwise acceptable |
| `Revocation.Lifetime` | internal/auth/jwt/jwt.go:66-73 | a token is accepted until the whole second its expiry is cut to: its ttl, less under one second |
| `Revocation.ExpiredBetweenReadings` | internal/service/api_auth_service.go:61-68 | the expiry error appears if and only if the token expires between the two readings of the clock |
| `Revocation.PermanentIff` | internal/service/api_auth_service.go:82-85 | a revocation survives every later purge if and only if its expiry, in whole seconds, is not before the token's own |
| `Revocation.MarkerNotConsulted` | internal/repo/sqlite/jwt_repo.go:49-60 | the marker of a password change alters no verification |
| `Revocation.RevokeAllExact` | internal/repo/sqlite/jwt_repo.go:49-60 | after a password change a token is accepted if and only if it was before and its id is not the marker's |
| `Decimal.AtoiItoa` | internal/auth/password/scrypt.go:76-106 | printing and parsing back gives every 64-bit integer again |
| `Decimal.AtoiExact` | internal/auth/password/scrypt.go:102 | a text is read as v if and only if it is an optional sign and digits of that value within 64 bits |
| `Decimal.ItoaSign` | internal/auth/password/scrypt.go:76-87 | only a negative number is printed with a sign, in front of the digits of its absolute value |
| `Decimal.DigitsOfValue` | internal/auth/password/scrypt.go:76-87 | a text of digits without a leading zero is the numeral of its value |
| `Text.WidthOrder` | internal/pkg/sqlitex/sqlitex.go:124 | of two numerals of one width the smaller number is the earlier text, and equal numbers are equal texts |
| `Text.SplitJoin` | internal/auth/password/scrypt.go:94 | splitting joined parts gives the parts, if none contains the separator |
| `Text.JoinSplit` | internal/auth/password/scrypt.go:94 | joining the split parts gives the text |
| `Text.CutExact` | internal/auth/password/scrypt.go:97 | a text is cut if and only if it has the separator, and then at the first one |
| `ScryptParams.EncodeParams` | internal/auth/password/scrypt.go:76-87 | the builder's output is the four pairs after the scheme |
| `ScryptParams.DecodeParams` | internal/auth/password/scrypt.go:89-122 | the loop's outcome, errors included |
| `ScryptParams.DecodeEncode` | internal/auth/password/scrypt.go:76-122 | the parameters come back without the salt length for all 64-bit values; exactly those with a zero field are refused |
| `ScryptParams.DecodeMeaning` | internal/auth/password/scrypt.go:89-122 | a text is accepted if and only if it has the scheme, only good pairs, and a nonzero last value for each key; those last values are the outcome |
| `ScryptParams.DecodeErrors` | internal/auth/password/scrypt.go:89-122 | which error a text gives: the scheme is looked at first, then the parts in order, a missing parameter is reported only when all parts are good |
| `ScryptParams.Reencode` | internal/auth/password/scrypt.go:76-122 | printing what was accepted gives a text that means the same |
| `FormatYen.ReverseInPlace` | seed/generator.go:148-150 | the swap loop reverses the array |
| `FormatYen.InsertCommas` | seed/generator.go:140-146 | the digits with commas are the grouped text, last to first |
| `FormatYen.Format` | seed/generator.go:129-152 | the three loops together give the grouped text |
| `FormatYen.ErasingCommas` | seed/generator.go:129-152 | erasing the commas gives the numeral, which reads back as the amount |
| `FormatYen.GroupsOfAmount` | seed/generator.go:129-152 | from zero up: one to three digits, then groups of exactly three; commas appear if and only if the amount is at least 1000 |
| `FormatYen.Injective` | seed/generator.go:129-152 | different amounts never print alike |

## Left out

- Floating point: the E-factor is held in exact hundredths (every increment is an integer there), tokens and
  seconds of the limiters are exact reals.
- Machine arithmetic: interval days, counters and instants do not overflow; `time.Duration` does not saturate.
  `Decimal` does model the 64-bit range of `Atoi`.
- Calendar days: `AddDate` is taken as multiples of 24 hours, as in UTC.
- Concurrency: each call under a limiter's mutex, each repository statement sequence of a submit and each token
  verification is one step of a run.
- Aliasing: per-key state behind pointers and stored slices is held as values in the map;
  `SlidingWindow.PruneInPlace` proves the loop over the shared backing array by itself.
- `sort.Slice` and `sort.Strings` are insertion sorts here; by `Grading.SortedUnique` any sort gives the same list
  of entries.
- `strings.EqualFold` compares character by character up to a case folding that is a parameter; texts are
  sequences of characters, not bytes, so invalid UTF-8 is not modelled.
- SQL, drivers, PRAGMAs, row scanning, JSON: tables are sequences and maps with the keys of 0001_init.sql. New ids
  are taken to exceed or avoid the ids in use.
- Columns that no theorem reads, such as applied_at and revoked_at, and the substitution of the current time for a
  zero time in `Create` and `Upsert`.
- A user that does not exist makes the insert fail like any other storage error of `Submit`.
- Base64, HMAC-SHA256 and the random generators: a token shows the payload and the key that signed it, nobody
  without the key can produce its signatures, and token ids are fresh.
- The weights 70/20/10 as statistics: what is proved holds for every sequence of draws.
- PickSrs.PickWeakTopicAvoid: holds for any list of topics, so it does not repeat what `WeakTopics` proves about the
  list the query gives.
- `ListByUser` beyond its first row, `StatsByTopic`, `DailyAccuracy`, `SummaryForUser`: reports.
- A storage write that reports failure is taken to have written nothing; a failed revocation, marker or purge is no
  event of a run.
- A migration script that touches schema_migrations or ends the transaction it runs in.
- scrypt itself, password strength, registration, login, sessions: calls into libraries and short case splits.
- The question bank and its generators other than `formatYen`: fixed data.
- HTTP handlers, middleware, CSRF, templates, charts, deployment.
- TokenBucket.IntervalBound: requires capacity >= 1 and patient sweeps, because the bound is false otherwise
  (`TokenBucket.SweepTtlExact`).
- TokenBucket.BucketErasure: requires capacity >= 1 and patient sweeps, because it is false otherwise
  (`TokenBucket.ErasureTtlExact`).
- QuizService.RunKeepsAgreement: covers runs in which no second write fails after the first, because neither
  procedure is a transaction (`QuizService.TornSubmit` and `QuizService.TornDeleteAll` say what happens then), and no
  `Sync` in between, of which `SeedSync.SyncAgreementExact` says it.
- Revocation.VerifyIsGrowOnly: requires that a token is revoked with an expiry no earlier than its own, because an
  earlier one is purged too soon (`Revocation.PermanentIff`); the logout handler always passes the token's own.
