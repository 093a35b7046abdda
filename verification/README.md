# Verified models of the revel backend's algorithmic cores

A Dafny project that models six parts of the backend whose correctness rests on more than one function at a
time, and proves what they keep, undo and bound. `dafny verify dfyconfig.toml` checks all of it.

| files | what they model |
|---|---|
| `TelegramScanner`, `TelegramTokens`, `TelegramNesting`, `TelegramTruncation`, `TelegramLimit`, `TelegramBalance` | cutting Telegram HTML: the cut-point scanner, the tag regex and its stack, well-nested markup as a grammar, the cut-close-retry driver, its length and how its results read |
| `PoCatalogue`, `PoPrinter`, `PoText`, `PoLines`, `PoProperties` | the gettext catalogue parser as a class of shared variables and as a function, a free-form printer it undoes, whole texts with `splitlines`, what each form of line does, the two checks |
| `GetOrCreateRace`, `UpdateOrCreateRace` | the race-protected helpers as transition systems over one table or row, for any number of callers |
| `PollContentLock`, `PollCloser`, `PollAnonymity`, `PollRows` | the question lock against the poll lifecycle, the task that closes due polls, the anonymity check in `Poll.save` |
| `Scoring`, `ScoringApplicability`, `ScoringSums`, `SubmissionEvaluator`, `ScoringProperties`, `ScoringBounds`, `ScoringApproval`, `ScoringOrder` | what an evaluation amounts to, told again from the answers alone, the evaluator class loop by loop, and what holds of evaluations in general |
| `MemberSync` | subscription saves, their two signal handlers, and runs of them over several subscriptions |
| `Preferences`, `DeliveryProtocol`, `DeliveryBounds`, `DeliveryFinality`, `DeliveryMessages`, `DeliveryStore` | notification preferences, the life of one delivery under Celery retries and periodic sweeps, the delivery table |
| `PythonText`, `Options` | `strip`, `startswith`, slices, white space; an option type |

## How to read it

Each imperative part appears twice: as a method or class in the source's own shape, and as a function (or,
for protocols, a step relation) that its `ensures` names. The theorems are about that function or relation,
for all inputs, all interleavings and runs of every length. Some say in terms of the text, the rows or the
answers alone what the functions and steps do, so that neither can drift from the source unnoticed.

Code under a database is modelled by its committed rows, its row locks and one program counter per caller;
a step is what happens between two points at which another transaction can act. The LLM is an oracle (any
function from a batch to verdicts), a delivery channel is the set of ways its `deliver` may end, the Unicode
tables behind `\w` and `str.lower` are a parameter, times are integers, weights and scores are rationals.

## Where code and documentation disagree

The models follow the code. Each entry names a witness and the lemma that says where the promise holds.

- `truncate_telegram_html` promises a message within the limit. There is one retry, and cutting before a
  closing tag adds a closer (`RetryCanExceedTheLimit`). The limit holds for every message exactly when the
  suffix leaves room for fewer than ten characters (`LimitIsKeptExactlyWhen`).
- `_find_safe_cut_point` says it never lands inside a tag or entity. It falls back to its target when it finds
  nothing safe (`SafeCutIsSafeExactlyWhen`), and the suffix or a closer can then be swallowed
  (`UnsafeCutCanUnbalance`). For a suffix with a link that is possible as soon as the room allows three
  characters (`ReadsAsPartsExactlyWhen`).
- The translation check says it fails on an empty translation. A plural with only some forms empty passes, and
  so does an entry with no msgstr at all (`MissingPluralFormPasses`, `MissingMsgstrPasses`,
  `CheckMeetsItsDescriptionExactlyWhen`).
- `update_or_create_with_race_protection` hands the row over in the state the caller asked for, but its
  recovery saves an unlocked copy in full and can undo another caller's update. That takes no row at first and
  three callers (`RecoveryCanLoseAnUpdate`, `UpdatesSurviveExactlyWhen`).
- The comment on `_guard` says its lock lasts until the question is written. It lasts to the end of the guard's
  own `atomic` block unless an enclosing transaction is open (`UnenclosedEditorWritesLate`, `LockHoldsExactlyWhen`).
- Older terminal subscriptions are not to clobber the effective one. They do when the effective one is the
  older of the two, after a revival (`RevivedSubscriptionIsClobbered`, `TerminalSaveIsHarmlessExactlyWhen`).
- Scores can exceed 100 (`TwoAnswersCanScore200`); exactly when is `StaysWithin100ExactlyWhen`. And where
  failing a question pays, a pass can turn an approval into a rejection (`PassingCanReject`); exactly when is
  `ApprovalSurvivesExactlyWhen`.
- The master switch does not silence the in-app notifications of digest users (`SilenceHoldsExactlyWhen`), and
  a per-type override cannot add a channel that is off globally (`OverrideDeliversExactlyWhen`,
  `SeededTelegramOverrideIsSkipped`).
- `retry_failed_deliveries` says it retries failures with a count below five. A Telegram message handed over
  does not store its attempt, so only the number of sweeps a row meets in its first day bounds its calls: one
  more than the sweeps, four or five of which come in a day (`TelegramCalls`, `FiveSweepsADay`).
- An e-mail that has been sent is marked FAILED, and sent again by the sweep, when a row written after it cannot
  be saved; a Telegram message likewise, and also when an error after the sending makes its callback report
  a failure (`EmailCanBeSentTwice`, `TelegramCanBeSentTwice`, `SendsAtMostOnceExactlyWhen`).

## Model

| member | source | states |
|---|---|---|
| TelegramScanner.InTagStep | src/notifications/utils.py:210-213 | the declarative "a `<` is still open" changes with one more character just as `in_tag` does |
| TelegramScanner.InEntityStep | src/notifications/utils.py:214-217 | likewise "an `&` met outside tags is still open" and `in_entity` |
| TelegramScanner.NeutralAfter | src/notifications/utils.py:205-220 | after text that leaves the scanner in no tag and no entity, later text alone decides where it ends |
| TelegramScanner.FindSafeCutPoint | src/notifications/utils.py:195-222 | the loop returns the last neutral position up to the target, or the target when there is none |
| TelegramScanner.SafeCutIsMaximal | src/notifications/utils.py:219-222 | the cut is neutral and no smaller than any neutral position in reach |
| TelegramScanner.SafeCutIsSafeExactlyWhen | src/notifications/utils.py:196-204 | the cut lands outside every tag and entity if and only if a neutral prefix is in reach, the target is 0 or the text empty |
| TelegramTokens.MatchIsUnique | src/notifications/utils.py:243 | every way the regex can match at a position is the one match reported: greediness and backtracking never matter |
| TelegramTokens.MatchIsSound | src/notifications/utils.py:243 | a reported match is a text the regex allows, group by group |
| TelegramTokens.MatchIsLocal | src/notifications/utils.py:243 | where no tag is left open, text appended later cannot change whether a tag matches here |
| TelegramTokens.TokensConcat | src/notifications/utils.py:243-246 | tokenizing distributes over concatenation at any position outside a tag |
| TelegramTokens.TagReadsAs | src/notifications/utils.py:243-250 | any tag the regex admits counts under its name in lower case if that is supported, and not at all otherwise |
| TelegramTokens.OpenTagsAreSupported | src/notifications/utils.py:225-252 | only supported tag names ever reach the stack, whatever the input |
| TelegramTokens.RemoveLastAt | src/notifications/utils.py:255-258 | a close tag removes the innermost open tag of its name and nothing else, wherever it sits |
| TelegramTokens.ScanReplays | src/notifications/utils.py:246-258 | scanning match by match gives the stack of replaying the whole supported-tag stream |
| TelegramTokens.CloseUnclosedTags | src/notifications/utils.py:228-260 | the loop returns the closing markup of the tags left open |
| TelegramTokens.ClosingMarkupReadsBack | src/notifications/utils.py:260 | the emitted markup tokenizes back to exactly the closers, innermost first, and leaves the scanner neutral |
| TelegramTokens.ClosersEmptyTheStack | src/notifications/utils.py:260 | replaying the closers empties any stack |
| TelegramNesting.ReplayWord | src/notifications/utils.py:246-258 | a well-nested document leaves the stack as it found it |
| TelegramNesting.PrefixIsCompleted | src/notifications/utils.py:228-260 | any prefix of a well-nested document followed by its closers is a well-nested document |
| TelegramNesting.ClosersCompleteExactlyWhen | src/notifications/utils.py:228-260 | the closers make a fragment well-nested if and only if some continuation could |
| TelegramNesting.WellNestedLeavesNothingOpen | src/notifications/utils.py:228-260 | nothing is emitted for a well-nested text |
| TelegramNesting.ClosedFragment | src/notifications/utils.py:228-260 | a fragment ending outside tags, with its closers: tokens are its own plus the closers, nothing stays open, and it is well-nested iff it could be |
| TelegramTruncation.TruncateTelegramHtml | src/notifications/utils.py:263-298 | a message that fits comes back unchanged; without room the suffix is cut to the limit; otherwise the result is the message up to the last place in reach that splits no tag or entity, its closers and the suffix, with a second, shorter reach when that is too long |
| TelegramTruncation.LengthNeverExceedsGrowth | src/notifications/utils.py:290-298 | the overrun is at most the growth of the closing markup between the two cuts |
| TelegramLimit.TokensOfPrefix | src/notifications/utils.py:243-246 | wherever a text is cut, even inside a tag, its tags so far are the first of its tags |
| TelegramLimit.OverrunPopsAKeptTag | src/notifications/utils.py:290-298 | the limit is exceeded only where a closing tag in the text the retry cuts away pops a tag of the text it keeps |
| TelegramLimit.RetryCanExceedTheLimit | src/notifications/utils.py:290-296 | for every limit and suffix leaving room for ten characters, a message whose truncation overruns by four |
| TelegramLimit.LimitIsKeptExactlyWhen | src/notifications/utils.py:263-298 | every message is truncated to its limit, if and only if the suffix leaves room for fewer than ten characters |
| TelegramTruncation.TruncationIsBalanced | src/notifications/utils.py:285-298 | after a neutral cut the result is a prefix, its closers and the suffix; its tokens are theirs, and nothing is open but what the suffix opens |
| TelegramTruncation.TruncationKeepsNesting | src/notifications/utils.py:263-298 | truncating a well-nested message with a well-nested suffix gives a well-nested message |
| TelegramTruncation.KeptIsSafeExactlyWhen | src/notifications/utils.py:285-296 | the kept text is neutral if and only if a neutral prefix is in reach of the final target (or that target is 0) |
| TelegramTruncation.UnsafeCutCanUnbalance | src/notifications/utils.py:222 | a message cut inside a tag swallows the suffix's opening tag and leaves `b` open |
| TelegramBalance.TailWithoutGt | src/notifications/utils.py:243 | text without a `>` completes no tag, wherever the text before it was cut |
| TelegramBalance.ReadsAsPartsExactlyWhen | src/notifications/utils.py:281-298 | every message reads as kept text, closers and suffix, if and only if the room is under eleven for a suffix without `>`, and otherwise none, or one or two characters after which the suffix reads the same |
| PoCatalogue.RunConcat | scripts/check_translations.py:99-142 | reading lines is a fold: what follows depends only on the state reached |
| PoCatalogue.Parser.ReadLine | scripts/check_translations.py:99-142 | one iteration of the loop is one step of the state machine |
| PoCatalogue.ParsePo | scripts/check_translations.py:80-144 | the parser computes the fold over the lines, flushed at the end |
| PoPrinter.ParseUndoesPrint | scripts/check_translations.py:80-144 | for every list of entries and every choice of wrapping, comments, plain or indexed msgstr and blank lines, parsing the printed lines gives back exactly the entries |
| PoPrinter.CommentMarksFuzzyExactlyWhen | scripts/check_translations.py:104-111 | a comment marks its entry if and only if it starts with `#,` and mentions `fuzzy`, among whatever other flags; it is obsolete if and only if it starts with `#~` |
| PoLines.UnquotePadded | scripts/check_translations.py:72-77 | a field is its text without the white space around it, and without its quotes if it has both |
| PoLines.ObsoleteLineIsIgnored | scripts/check_translations.py:104-105 | an obsolete line changes nothing, wherever it stands |
| PoLines.UnknownLineIsIgnored | scripts/check_translations.py:99-142 | nor does a line of any other form the parser does not know |
| PoLines.QuotedLineAfterComment | scripts/check_translations.py:106-110 | a quoted line right after a comment is dropped |
| PoLines.KeywordStep | scripts/check_translations.py:112-123 | msgctxt, msgid_plural and msgid each replace their field, become the one continued, and start the entry |
| PoLines.IndexedMsgstrStep | scripts/check_translations.py:124-128 | an indexed msgstr appends what follows the first space, whatever its index |
| PoLines.ContinuationStep | scripts/check_translations.py:133-142 | a quoted line extends the field before it and changes nothing else |
| PoLines.SplitsAtEachBreak | scripts/check_translations.py:99 | a text is cut at each of the ten line-breaking characters, wherever it stands |
| PoLines.CheckFailsExactlyWhen | scripts/check_translations.py:193-216 | the check fails if and only if an entry with a msgid or a context is fuzzy or has msgstrs that are all empty |
| PoLines.KeysOfEntries | scripts/check_translations.py:147-148 | the key set holds the keys of exactly those entries |
| PoText.SplitUndoesUnlines | scripts/check_translations.py:99-100 | `splitlines` undoes joining lines that contain no line break |
| PoText.ParsedFieldsAreClean | scripts/check_translations.py:80-144 | no field of any parsed text contains a line break |
| PoText.TextComesBackExactlyWhen | scripts/check_translations.py:80-144 | as whole texts, printed catalogues come back if and only if no field contains a line break |
| PoProperties.RunKeepsFinished | scripts/check_translations.py:91-142 | finished entries never influence what is read next |
| PoProperties.BlankLineSplits | scripts/check_translations.py:99-103 | two pieces of catalogue joined by a blank line parse independently |
| PoProperties.ChecksIgnoreLayout | scripts/check_translations.py:147-148 | wrapping, comments, spacing and entry order change neither the key set nor the translation verdict |
| PoProperties.EveryCatalogueComesBack | scripts/check_translations.py:46-144 | every list of entries has a printed form that parses back to it |
| PoProperties.CheckMeetsItsDescriptionExactlyWhen | scripts/check_translations.py:193-216 | "no fuzzy or empty translation" is what the check accepts, if and only if no entry is translated in part |
| PoProperties.MissingPluralFormPasses | scripts/check_translations.py:66-69 | a plural with one empty form passes |
| PoProperties.MissingMsgstrPasses | scripts/check_translations.py:66-69 | so does an entry without any msgstr |
| GetOrCreateRace.RunKeepsInv | src/common/utils.py:97-115 | over every interleaving: no duplicate keys, every new row has a caller that reports creating it, and a caught error of a valid call means its key is committed |
| GetOrCreateRace.ValidCallersNeverRaise | src/common/utils.py:105-115 | a call whose row is valid never raises: a lost race ends at the winner's row |
| GetOrCreateRace.EachRowHasOneCreator | src/common/utils.py:102-104 | every new row is reported as created by one call, and by one only |
| GetOrCreateRace.AllCallsAgree | src/common/utils.py:68-115 | with one unique key and no row at first, all returning calls return the same row and at most one says `created` |
| GetOrCreateRace.TwoKeysTwoRows | src/common/utils.py:97-104 | callers with different keys can create two matching rows |
| GetOrCreateRace.OneMatchExactlyWhen | src/common/utils.py:68-115 | in every run at most one row matches, if and only if all valid callers create under the same key |
| GetOrCreateRace.ExistingRowIsOnlyFound | src/common/utils.py:98-100 | with a matching row at first nothing is ever created or raised and the table never changes |
| GetOrCreateRace.OnlyCommitsChangeTheTable | src/common/utils.py:102-115 | only a commit changes the table; a call raises only where no row matches |
| GetOrCreateRace.LookupAnswers | src/common/utils.py:98-115 | a caller that looks up, first or again after an error, gets a matching row with created False whenever there is one |
| GetOrCreateRace.LostOnlyBeforeCommit | src/common/utils.py:102-104 | only a caller with an uncommitted row can be cut off |
| GetOrCreateRace.StuckMeansOver | src/common/utils.py:97-115 | there is no deadlock: when nobody can move every call has returned, raised or been cut off |
| GetOrCreateRace.RunsEnd | src/common/utils.py:97-115 | every run ends after four steps a caller at most |
| GetOrCreateRace.EveryCallIsAnswered | src/common/utils.py:68-115 | at the end of every run without cut-off callers, with one key, none at first and a valid caller, all valid callers have returned the one matching row, exactly one having created it; the others found it or raised |
| UpdateOrCreateRace.RunKeepsInv | src/common/utils.py:145-157 | over every interleaving: a held lock protects the copy read under it, an uncommitted INSERT is the only one, a created row has exactly one creator |
| UpdateOrCreateRace.OutcomesOfCalls | src/common/utils.py:145-157 | valid calls never raise and invalid ones never return; a row that was not there has exactly one creator |
| UpdateOrCreateRace.ReturningAppliesTheDefaults | src/common/utils.py:154-157 | when a call returns the row carries its defaults; steps that do not return leave the row alone |
| UpdateOrCreateRace.EveryCallIsAnswered | src/common/utils.py:145-157 | there is no deadlock: at the end every valid call has returned and every other raised, with exactly one creator where there was no row and a valid caller |
| UpdateOrCreateRace.RecoveryCanLoseAnUpdate | src/common/utils.py:149-156 | for any three valid callers and no row at first, a run in which one that has returned misses the field only it sets |
| UpdateOrCreateRace.UpdatesSurviveExactlyWhen | src/common/utils.py:118-157 | in every run every returned call's own fields stay on the row, if and only if there was a row at first or no three valid callers meet of which one has such a field |
| PollContentLock.StepKeepsInv | src/polls/signals.py:65-97 | who holds the row lock, and that an enclosed editor past its guard still finds DRAFT |
| PollContentLock.ContentIsFrozen | src/polls/signals.py:65-97 | with enclosing transactions the content never changes once the poll has left DRAFT |
| PollContentLock.UnenclosedEditorWritesLate | src/polls/signals.py:91-97 | without one, a run commits a question to an OPEN poll |
| PollContentLock.LockHoldsExactlyWhen | src/polls/signals.py:65-111 | in every run writes are committed only in DRAFT, if and only if every editor has an enclosing transaction or nobody opens polls |
| PollContentLock.GuardPassesExactlyWhen | src/polls/signals.py:91-97 | the guard lets an editor through if and only if the poll is in DRAFT, and keeps the lock if and only if there is an enclosing transaction as well |
| PollContentLock.DraftIsEditable | src/polls/signals.py:65-111 | from any state in DRAFT with the lock free, a run in which an editor commits its write |
| PollContentLock.StatusMovesExactlyWhen | src/polls/service/poll_service.py:449-517 | the status changes only by its own lifecycle call under the lock, DRAFT to OPEN, OPEN to CLOSED, CLOSED to OPEN |
| PollContentLock.NobodyIsStuck | src/polls/signals.py:82-85 | in every run a process waits only for the lock, whose holder can move |
| PollCloser.PollTable.ClosePollsDue | src/polls/tasks.py:24-40 | alone: closes exactly the OPEN polls with a deadline not after the first clock reading, at the time of a later one, changes no other, returns their number |
| PollCloser.TaskClosesOnlyDuePolls | src/polls/tasks.py:27-39 | in any interleaving a task step changes at most one poll, which is open and due in that very step |
| PollCloser.CountsAddUp | src/polls/tasks.py:26-40 | in every run the tasks' counts add up to the number of closings they made |
| PollCloser.RunKeepsProgress | src/polls/tasks.py:27-39 | whatever happens to other polls, one in a task's snapshot that is not reopened, rescheduled or deleted is closed or due, and closed once the task has dealt with it |
| PollCloser.FinishedTaskHasClosedAllDue | src/polls/tasks.py:24-40 | so, with any number of tasks, it is closed once a task that found it due finishes |
| PollCloser.ReopenedPollIsSkipped | src/polls/tasks.py:29-35 | a poll no longer due at its turn is left alone and not counted |
| PollCloser.TaskEnds | src/polls/tasks.py:26-40 | in any interleaving an unfinished task can move, and each of its steps brings it one nearer to its end |
| PollAnonymity.FlagsNeverChange | src/polls/models.py:323-331 | the flags of an existing poll are constant over every interleaving of saves, though read and write are unlocked |
| PollAnonymity.RefusedExactlyWhenDifferent | src/polls/models.py:323-331 | on an existing poll a save is refused if and only if its flags differ from the stored ones |
| PollAnonymity.CreatedWithItsOwnFlags | src/polls/models.py:323-331 | a poll is created with the flags of the call that creates it |
| PollAnonymity.EverySaveIsAnswered | src/polls/models.py:323-331 | when nobody can move the poll exists with the flags of a call that has saved it; every call that saved agrees with them, every refused one differs |
| SubmissionEvaluator.Evaluator.ComputeApplicableQuestions | src/questionnaires/evaluator.py:81-124 | the three sets hold exactly the questions shown by the answers, as told from the answers alone |
| SubmissionEvaluator.Evaluator.CheckForMissingMandatoryAnswers | src/questionnaires/evaluator.py:167-207 | the missing set is that of the applicable mandatory questions without an answer, of all three kinds |
| SubmissionEvaluator.Evaluator.EvaluateMcAnswers | src/questionnaires/evaluator.py:209-230 | sums and fatal flag over the applicable answers, skipped when a mandatory answer is missing |
| SubmissionEvaluator.Evaluator.EvaluateFtAnswersInBatch | src/questionnaires/evaluator.py:232-290 | one request or none; without a batch no maximum, without a clean record no request |
| SubmissionEvaluator.Evaluator.Evaluate | src/questionnaires/evaluator.py:138-165 | the whole run yields the outcome of the submission, and calls the LLM exactly when the outcome needs it, once, with the batch |
| ScoringApplicability.ApplicableExactlyWhen | src/questionnaires/evaluator.py:96-136 | a question applies if and only if the option it depends on, if any, was chosen by some answer, and it has no section or that section, by the same test, is shown |
| ScoringApplicability.OneMoreChoice | src/questionnaires/evaluator.py:96-136 | one more choice hides no question, and shows only those that were waiting for it, or whose section was |
| ScoringApplicability.MissingExactlyWhen | src/questionnaires/evaluator.py:167-207 | an answer is missing if and only if the question is mandatory, shown, and has no answer of its kind |
| ScoringSums.McScoreIs | src/questionnaires/evaluator.py:222-230 | positive weights of the right applicable choices less negative weights of the wrong ones |
| ScoringSums.LastWordCounts | src/questionnaires/evaluator.py:279-281 | of several verdicts on a question the last counts |
| ScoringSums.FtScoreIs | src/questionnaires/evaluator.py:279-287 | the same of free-text answers, by that verdict; those the LLM is silent about score nothing |
| ScoringSums.BatchKeepsOrder | src/questionnaires/evaluator.py:235-239 | the batch holds the applicable answers, in their order |
| ScoringSums.MaximumIs | src/questionnaires/evaluator.py:209-248 | the maximum is the weight of the applicable choice questions, and of the free-text ones if one of them is answered |
| ScoringSums.AsksExactlyWhen | src/questionnaires/evaluator.py:232-252 | the LLM is asked if and only if an applicable free-text answer is given and nothing blocks the submission |
| ScoringSums.FailsExactlyWhen | src/questionnaires/evaluator.py:167-294 | a submission fails if and only if it is blocked, or the last word on an applicable fatal question is a fail |
| ScoringSums.ScoreIs | src/questionnaires/evaluator.py:304-315 | the score is -100 for a failure and 100 where there is nothing to score; otherwise score times maximum is 100 times the points |
| ScoringProperties.BlockedExactlyWhen | src/questionnaires/evaluator.py:167-230 | the short circuit applies if and only if some shown mandatory question of the three kinds has no answer or some shown fatal choice is wrong |
| ScoringProperties.ApprovedExactlyWhen | src/questionnaires/evaluator.py:299-322 | APPROVED is proposed if and only if nothing fails and points times 100 reach the threshold times the maximum, or there is nothing to score |
| ScoringProperties.FailureIsRejected | src/questionnaires/evaluator.py:302-322 | a missed mandatory or failed fatal question scores -100 and is REJECTED for every allowed threshold, never reaching the LLM when known before; a final status only in AUTOMATIC mode, equal to the proposal |
| ScoringProperties.PointsGrow | src/questionnaires/evaluator.py:278-287 | turning fails into passes never lowers the points and never raises the fatal flag, when passing pays |
| ScoringProperties.PassingCanReject | src/questionnaires/evaluator.py:282-286 | with weights the validators allow, a pass turns an approval into a rejection |
| ScoringProperties.PointsAreMonotoneExactlyWhen | src/questionnaires/evaluator.py:278-287 | points grow with every improvement of the verdicts if and only if passing pays for each question evaluated |
| ScoringBounds.NeverAboveWeightsExactlyWhen | src/questionnaires/evaluator.py:278-287 | no verdicts let free-text answers score more than their weights, if and only if failing never pays |
| ScoringBounds.StaysWithin100ExactlyWhen | src/questionnaires/evaluator.py:209-315 | no verdicts lift a submission over 100, if and only if it fails before the LLM is asked, there is nothing to score, or the best it can score, answer by answer, is within the maximum |
| ScoringBounds.ScoreIsAtMost100 | src/questionnaires/evaluator.py:209-315 | that holds with one applicable answer row a question and failing paying only where it is fatal |
| ScoringBounds.TwoAnswersCanScore200 | src/questionnaires/evaluator.py:221-227 | it fails with two correct options on one question, which score 200 |
| ScoringApproval.ApprovalIsMonotone | src/questionnaires/evaluator.py:232-322 | turning fails into passes never turns an approval into a rejection, through fatal flags, sums and threshold, where failing pays only where it is fatal |
| ScoringApproval.ApprovalSurvivesExactlyWhen | src/questionnaires/evaluator.py:232-322 | for submissions that stay within 100, no pass costs an approval at any threshold from 0 to 100, if and only if the LLM is not asked, there is nothing to score, the best is below 0, or failing pays only where it is fatal |
| ScoringApproval.ApprovalSurvivesAnyThresholdExactlyWhen | src/questionnaires/evaluator.py:232-322 | the same for every submission, over all thresholds from 0 up |
| ScoringOrder.OutcomeIgnoresOrder | src/questionnaires/evaluator.py:209-361 | outcome, missing set and LLM batch members depend on the multisets of answers only |
| ScoringOrder.InapplicableFtAnswerIsIgnored | src/questionnaires/evaluator.py:234-241 | a free-text answer to an inapplicable question changes neither batch nor outcome |
| ScoringOrder.InapplicableMcAnswerIsIgnored | src/questionnaires/evaluator.py:221-224 | nor does a choice on an inapplicable question, if nothing depends on the option |
| MemberSync.Database.SaveSubscription | src/events/signals.py:548-667 | pre-save capture, write and post-save sync in place, with `update_fields` empty exactly when the member is unchanged |
| MemberSync.Database.SyncMember | src/events/signals.py:567-667 | the handler moves the member as specified and lists exactly the fields that changed |
| MemberSync.InChargeExactlyWhen | src/events/signals.py:599-638 | a save is in charge of the member if and only if there is one, not banned, no later row is alive, and an ONLINE row is neither PENDING nor PAST_DUE on a period no succeeded payment reaches |
| MemberSync.MemberEndsAs | src/events/signals.py:511-656 | a save in charge sets the tier, and leaves the member CANCELLED for CANCELLED and EXPIRED, ACTIVE for PENDING, ACTIVE and PAST_DUE unless a pause is kept, and PAUSED in exactly the remaining cases; any other save leaves the member alone |
| MemberSync.BannedStaysBanned | src/events/signals.py:637-638 | through any run of saves and payments a banned member keeps status and tier, and no member is created |
| MemberSync.PauseLiftedExactlyWhen | src/events/signals.py:640-652 | a save makes a paused member active if and only if its own row was committed as PAUSED, its new status is PENDING, ACTIVE or PAST_DUE, and it gets past the gates |
| MemberSync.PauseSurvives | src/events/signals.py:640-652 | a pause outlives any run of saves that neither leave PAUSED nor end a row |
| MemberSync.UnpaidRunsChangeNothing | src/events/signals.py:519-615 | runs of unpaid ONLINE saves, PENDING or never-paid PAST_DUE, leave the member untouched |
| MemberSync.SaveMakesMemberAgree | src/events/signals.py:618-667 | after a save in charge the member has the plan's tier and the mapped status or a kept pause; saving again writes nothing |
| MemberSync.OlderRowsNeverClobber | src/events/signals.py:618-629 | while a newer non-terminal row exists, any run of saves of older rows changes nothing |
| MemberSync.NewestSubscriptionGoverns | src/events/signals.py:567-667 | so the agreement lasts until a newer row or the row itself is saved |
| MemberSync.TerminalSaveIsHarmlessExactlyWhen | src/events/signals.py:618-667 | saving a terminal row leaves the member alone, if and only if the effective subscription is the newer one, there is no member, or the member is banned or already as the save would have it |
| MemberSync.RevivedSubscriptionIsClobbered | src/events/signals.py:618-629 | re-saving a cancelled row cancels the member of a revived older subscription |
| Preferences.NotificationPreference.DisableChannel | src/notifications/models.py:320-344 | the nested edit removes the channel from the global list and every per-type list, and reports whether it was anywhere |
| Preferences.ResolvesTo | src/notifications/models.py:269-318 | nothing when silenced or switched off, the type's own list when it has one, and the global list otherwise; types are on by default |
| Preferences.DisablingEditsOnlyLists | src/notifications/models.py:320-344 | the lists lose the channel and nothing else, and no switch or flag changes |
| Preferences.WithoutKeepsOrder | src/notifications/models.py:336-342 | what is left of a list keeps its order |
| Preferences.DisabledChannelIsGone | src/notifications/models.py:284-344 | then no type resolves to it, and a repeat call changes nothing |
| Preferences.WhatDisablingLeaves | src/notifications/models.py:284-344 | each type keeps its channels minus the one, but a list emptied by that falls back to the global list |
| Preferences.ReachesExactlyWhen | src/notifications/service/dispatcher.py:148-184 | digest users are reached in the app only, everyone else through the channels a type resolves to that are enabled globally or in-app, without Telegram where it is off |
| Preferences.DisablingOnlyTakesAwayExactlyWhen | src/notifications/models.py:311-318 | no type gains a channel, if and only if its own list was not emptied with other channels enabled globally |
| Preferences.SilenceHoldsExactlyWhen | src/notifications/service/dispatcher.py:160-171 | a silenced user is reached by nothing, if and only if the notification is transactional or the user has no digest |
| Preferences.OverrideDeliversExactlyWhen | src/notifications/models.py:284-318 | outside digests, a channel resolved for a type is delivered to, if and only if it is in-app or enabled globally, and Telegram is on where needed |
| Preferences.SeededTelegramOverrideIsSkipped | src/notifications/models.py:178-183 | the default Telegram override reaches no user without Telegram in the global list |
| Preferences.DisabledChannelReachesNobody | src/notifications/service/dispatcher.py:148-184 | a disabled channel reaches nobody, the in-app entry of digest users apart |
| DeliveryProtocol.SevenOrNineCallsAtMost | src/notifications/tasks.py:200-419 | a channel that counts its calls gets at most seven for a delivery, nine if it can fail with a callback to come, whatever the mix of retries, callbacks and sweeps |
| DeliveryBounds.FiveCallsExactlyWhen | src/notifications/tasks.py:256-268 | five are the most for any number of sweeps, if and only if FAILED is never marked with a retry or callback to come; otherwise seven or nine are, and are reached |
| DeliveryBounds.EveryChannelIsBounded | src/notifications/tasks.py:200-419 | any channel at all gets at most four calls and four more a sweep, and some channel gets them |
| DeliveryBounds.CallsAreBoundedExactlyWhen | src/notifications/tasks.py:200-419 | the bound does not grow with the sweeps, if and only if the channel counts every call that another may follow, or raises only silent retryable errors (then four) |
| DeliveryBounds.InAppCalls | src/notifications/service/channels/in_app.py:35-57 | an in-app delivery, whose failing save is not counted, gets exactly up to n + 1 calls with n sweeps |
| DeliveryBounds.EmailCalls | src/notifications/service/channels/email.py:79-172 | an e-mail delivery that meets n sweeps gets at most n + 1 calls and at most five, exactly |
| DeliveryBounds.TelegramCalls | src/notifications/service/channels/telegram.py:128-212 | a Telegram delivery gets exactly up to n + 1 calls; more than five if and only if it meets five sweeps |
| DeliveryBounds.FiveSweepsADay | src/notifications/tasks.py:394-398 | sweeps that come every six hours, or a little closer, find a row within its first 24 hours at most five times |
| DeliveryBounds.CeleryCapIsIdleExactlyWhen | src/notifications/tasks.py:200-266 | `max_retries` never ends a chain, if and only if every retryable error was counted |
| DeliveryFinality.SettledStaysSettled | src/notifications/tasks.py:200-419 | a delivery with nothing queued, awaited or FAILED is never touched again by any run |
| DeliveryFinality.SentIsFinalExactlyWhen | src/notifications/tasks.py:217-268 | for every channel a row that says SENT or SKIPPED is settled, if and only if no call marks it with a retry or callback to come |
| DeliveryFinality.ChannelsThatSettle | src/notifications/service/channels/telegram.py:168-212 | so it is for in-app and e-mail, but not for Telegram |
| DeliveryMessages.SendsAtMostOnceExactlyWhen | src/notifications/tasks.py:200-419 | no message goes out twice, if and only if no call raises or marks FAILED after its message has gone out, FAILED is never marked with more to come (or nothing is ever sent), and no message is handed over; with callbacks that are right about failures the first two suffice |
| DeliveryMessages.InAppIsSentOnce | src/notifications/service/channels/in_app.py:35-57 | an in-app notification is sent once at most |
| DeliveryMessages.EmailCanBeSentTwice | src/notifications/service/channels/email.py:122-172 | an e-mail can go out twice, when a row saved after sending fails; otherwise not |
| DeliveryMessages.TelegramCanBeSentTwice | src/telegram/tasks.py:112-149 | so can a Telegram message, when a row saved after handing over fails or an error after the sending is reported as a failure; otherwise not |
| DeliveryStore.Store.DispatchNotification | src/notifications/tasks.py:75-104 | new rows get one queued task each, other rows nothing; the count returned is that of the new rows |
| DeliveryStore.Store.DeliverToChannel | src/notifications/tasks.py:200-268 | one task is one step of the delivery's protocol, and its end tells whether it was skipped, sent, failed or retried |
| DeliveryProtocol.TaskLeaves | src/notifications/tasks.py:217-268 | a task leaves SKIPPED when refused, FAILED when the channel marked it so or raised an error that is not to be retried or has been counted three times, else what the channel marked; a retry is queued exactly for a retryable error counted less than three times, in the first three attempts |
| DeliveryProtocol.SweepTakesUp | src/notifications/tasks.py:394-415 | a sweep takes a row up if and only if it is FAILED, younger than a day and tried fewer than five times |
| DeliveryProtocol.CallbackSettles | src/telegram/tasks.py:112-149 | an awaited callback settles the row by what it reports |
| DeliveryStore.DispatchedRows | src/notifications/tasks.py:75-95 | rows that are there stay; each channel without one gets a PENDING row with its first task |
| DeliveryStore.Store.RetryFailedDeliveries | src/notifications/tasks.py:385-419 | every row takes the protocol's sweep; the number returned is that of the FAILED rows below five tries and a day |
| DeliveryStore.DispatchIsIdempotent | src/notifications/tasks.py:75-89 | a dispatch never touches existing rows, and a second one does nothing if and only if all its channels have rows |
| DeliveryStore.EachRowLivesAlone | src/notifications/tasks.py:75-419 | in every run of dispatches, sweeps, tasks and callbacks over the table, each row has lived a run of the single-delivery protocol |
| DeliveryStore.TableKeepsTheBoundsOfItsChannels | src/notifications/tasks.py:75-419 | a bound on calls per (notification, channel) holds in every run of the table if and only if it holds for a single delivery |

## Left out

- ApprovalSurvivesExactlyWhen: says nothing of submissions that can score more than 100; for those ApprovalSurvivesAnyThresholdExactlyWhen is exact, over thresholds above 100 as well.
- SevenOrNineCallsAtMost: a task is one atomic step. Where FAILED is marked with more to come, two tasks of one delivery can be in flight, and their reads and writes of `retry_count` could also overlap; for channels that never do so OneAtATimeIsKept rules that out.
- ExistingRowIsOnlyFound: rows are never deleted while the helpers run; with deletes a found row could vanish before it is returned.
- AllCallsAgree: a caller's own outer transaction is taken as committed when the call returns, so neither a later rollback nor rows only the creator can see are modelled.
- ClosePollsDue: each per-poll transaction of the closer is atomic under its row lock, as are the lifecycle calls.
- FindSafeCutPoint: the target is not negative; the driver never passes a negative one.
- ParsePo: entries are values, assigned anew where the source mutates the current one; the `rstrip("\n")` of a line without line breaks is omitted.
- Evaluate: the missing mandatory ids are a set where the source keeps a list; the request to the LLM carries the answers only, and audit data and comments are omitted. Decimal precision is not modelled.
- DeliverToChannel: a task that fails before the channel is called, a failing save of the FAILED mark itself, Celery's redelivery of unacknowledged tasks, and rows the digest task inserts as SENT.
- RetryFailedDeliveries: the age of a row is the number of sweeps it will still meet, a parameter; the sweep's query and update are one step.
- FinishedTaskHasClosedAllDue: a poll is reopened, rescheduled or deleted only through the lifecycle calls modelled as actions.
- ContentIsFrozen: `suppress_question_lock` and poll teardown, which switch the guard off for deletes, and questionnaires without a poll.
- BannedStaysBanned: global bans and staff edits appear only as direct edits of the member row; one user and one organization at a time.
- FlagsNeverChange: a poll row deleted and created again under the same key.
- `Poll.save` validation beyond the anonymity flags, poll voting, visibility and the queryset filters: plain boolean or set algebra.
- `sanitize_for_telegram`, link and date formatting, Markdown rendering, `makemessages` re-extraction: library or regex rewriting.
- The digest schedule, batch dispatch, template rendering, and what Celery, the ORM, SMTP, Telegram and Stripe do.
- Referral payouts, VAT, ticket pricing, seat holds and file handling.
