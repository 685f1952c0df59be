# Verified model of the voting backend

A Dafny model of the four parts of the backend that carry state, loops or
arithmetic of their own, over an abstract database (maps and sets stand for
tables, sequences for ordered results):

- **Answers and results** (`AnswerTables`, `AnswerLaws`, `AnswerProtocol`,
  `AnswerDeletion`, `Statistics`, `StatisticsOverRuns`): submitting, reviewing,
  answering and deleting, as one state machine with rollbacks, sequences that a
  rollback does not turn back, primary-key conflicts and cascades, and the
  aggregated results read from it.
- **The authenticated question search** (`SearchQuery`, `SearchText`,
  `QueryEvaluation`, `ArrayLiteral`, `AnsweredLookup`, `UnansweredSearch`,
  `SearchOverRuns`): the query builder, a reader of the finished SQL text, what the
  text means to the server, the two-array lookup of answered questions, and the
  widening fetch. The lookup is right only because of what the answer protocol
  keeps, so both share one state.
- **Tokens** (`TokenTables`, `TokenLifetimes`, `ResetProtocol`, `ResetRevocation`,
  `AttemptBudget`, `MissErasure`, `RateLimit`, `RefreshTokens`): password resets interleaved
  statement by statement under row locks, with the rate limit, the attempt counter
  and refresh-token rotation. There refresh and forgot are one step each;
  `RefreshRaces` and `ForgotRaces` take those two handlers apart into their
  statements and give the bounds that hold under every interleaving of them.
  `ExampleRuns` holds the beginnings of the concrete runs.
- **The tag vocabulary** (`BirthYearBucketer`, `Region`, `Nationality`,
  `UserIdHash`, `ProfileTags`, `AsciiText`, `Decimal`): printers, parsers and
  normalisers whose canonical forms must agree between writing and filtering.

`QuestionController` and `AuthController` are the handlers as classes whose
methods change the tables statement by statement. Each method is proved equal to
a step of the state machine or to the stated reply; the properties of runs are
lemmas about those steps. `dafny verify dfyconfig.toml` checks everything.

## Reading the main results

`SearchOverRuns.SearchUnanswered` ties the first two parts together: the running
handler, query text, two-array lookup and widening fetch included, returns after any
run of requests exactly the requested slice of the first 5000 matching questions
minus those on which the caller's last successful request was an answer, or 500 if a
row that it looks at has no category name. `FoundIff` says which stored questions
are found. `ResetProtocol.RunSafe`, `UncommittedLeavesNoTrace` and
`ResetRevocation.ResetLeavesIssuedSince` are the safety of racing resets in every
interleaving.

Where the code does not do what its documentation or its purpose says, the code is
modelled, with the exact condition under which it does:

- `DELETE /questions/{id}/answer` is documented as removing the user's own answer
  (API_DOCUMENTATION.md:60). The statement has no condition on the user and
  removes every answer row of the question, while only the caller's tracking row
  goes. At the end of any run the deletion does what is documented if and only if
  exactly one answer to the question has succeeded since the last deletion and it
  was the caller's (`DeleteRemovesOwnIff`). `OthersLockedOut` says what happens to
  the other users, and `DeleteRemovesBothAnswers` is a run from empty tables in which
  the promise fails. The invariant of all runs is therefore an inequality.
- The header of the birth-year bucketer says that the advertised labels mirror
  exactly what `bucketBirthYear` produces
  (include/vote-backend/utils/BirthYearBucketer.hpp:33-36). That fails for the last
  label when the bucket size does not divide `max_age + 1`: `AdvertisedLabelIff`,
  `AdvertisedFilterFinds`, `ClippedLabelDiffers`.
- The schema comment says that a token with too many failed attempts is killed by
  setting `used` so that it can never be redeemed (sql/002_auth.sql:319-322). It is
  indeed never claimed again, but `used` is set by commits alone: an exhausted token
  is used if and only if a reset with it has committed (`UsedIffCommitted`,
  `ExhaustedToken`). `ExhaustedNotUsed` is a run, for every positive budget, that
  exhausts a token and leaves `used` FALSE. The counter rises only on tokens that are
  used or expired already (`AttemptsOnlyOnDead`, `BudgetNeverBlocks`); with a
  positive budget a miss hangs on it if and only if the request began before the
  expiry of an unused token and comes to its claim after it (`MissSettledIff`), and
  `MissesDecideSlowClaim` is such a run for every positive budget.
- A reset is meant to invalidate all refresh tokens of the user. It revokes those
  that exist when its statement runs: what is live after the commit is exactly what
  logins and refreshes of the user issued between that statement and the commit and
  is still live, so nothing is if and only if all of these have been revoked or have
  expired (`ResetLeavesIssuedSince`). `SessionSurvivesReset` is a run in which a login
  in between survives.
- A refresh revokes the row it found without asking again whether it is unrevoked, so
  requests that look the same token up together all exchange it. Once the token is
  revoked, a number bounds its exchanges in every continuation if and only if it is
  at least the exchanges made plus the requests then on their way with the token; no
  run exchanges it twice if and only if that sum is at most one (`ExactExchanges`).
  `ExchangedTwice` is a run from empty tables. In the same way, after all tokens of a
  user have been revoked no session comes back without a login if and only if no
  refresh is on its way with one of them (`SignedOutForGoodIff`).
- The rate limit counts before it stores. With at most k requests of a user between
  their two statements at once, max_requests + k - 1 rows per window is the exact
  bound for all positive settings (`ExactBound`), and the burst of k requests
  reaches it (`BurstReachesBound`). The configured limit holds in all runs if and
  only if k is 1 or the settings let nothing count (`LimitHeldIff`).

## Model

| member | source | states |
|---|---|---|
| `SearchOverRuns.SearchUnanswered` | src/controllers/QuestionController.cpp:1041-1184 | after every run of submit, review, answer, delete and user events the running handler answers a body with `unanswered_only` true, an offset o and a limit l (0 meaning no bound) and filters in int range with rows o to o + l of the first 5000 matching rows on which the caller's successful answers and deletions are even in number, none flagged as answered; with 500 exactly when one of the first o + l + 1 such rows of its last window (any one, for limit 0) has no category name, so never if all have one |
| `SearchOverRuns.PagesAfterRun` | src/controllers/QuestionController.cpp:918-949 | after every run the handler's replies to bodies with offsets 0, l, 2 * l, ..., unless one is a 500, concatenate to a prefix of the rows open to the caller |
| `SearchOverRuns.SearchAllAfterRun` | src/controllers/QuestionController.cpp:957-1022 | after every run a body without `unanswered_only` is answered with the requested slice of the matching rows, each flagged exactly if the caller's last successful request on it was an answer, and with 500 exactly if a row of the slice has no category name |
| `SearchOverRuns.SearchAfterRun` | src/controllers/QuestionController.cpp:1041-1114 | the same of the specified reply, over the pairs a run has stored |
| `SearchOverRuns.FoundIff` | src/controllers/QuestionController.cpp:780-949 | after every run a listed question is open to a user exactly when it is approved, meets the criteria as stored and has no standing answer of that user |
| `SearchOverRuns.OnlyOwnListChanges` | src/controllers/QuestionController.cpp:852-911 | a successful answer removes exactly its question from the caller's unanswered rows, a successful deletion puts it back, and every other user's list is unchanged |
| `SearchOverRuns.KeptIsOpen` | src/controllers/QuestionController.cpp:918-949 | filtering by the stored hashes gives the same rows as reading each row's answer history in the run |
| `UnansweredSearch.SearchIsFilterThenSlice` | src/controllers/QuestionController.cpp:1041-1114 | for every ordered result, whichever window the widening stops at, the reply is filter, then slice, of the first 5000 rows, or 500 exactly when an untranslated row is among the first offset + limit + 1 unanswered rows of that window; limit 0 means no upper bound; also for an offset whose sum with the limit overflows an int |
| `UnansweredSearch.TranslatedSearch` | src/controllers/QuestionController.cpp:1041-1114 | without untranslated rows the reply is always the exact slice |
| `UnansweredSearch.LastWindowSuffices` | src/controllers/QuestionController.cpp:1090-1113 | the kept rows of the last window are a prefix of the kept rows of the largest window and hold all of the page |
| `UnansweredSearch.WindowsBounded` | src/controllers/QuestionController.cpp:1028-1113 | from each starting window: the number of queries left, strictly growing windows of at most 5000, and the rows requested in total |
| `UnansweredSearch.SearchBounded` | src/controllers/QuestionController.cpp:1028-1113 | the first window is what the page needs, at least 100 and at most 5000 rows; each further one doubles up to 5000; at most 7 queries, and fewer than three times the last window's rows in total |
| `UnansweredSearch.WidensExactly` | src/controllers/QuestionController.cpp:1090-1100 | the search widens exactly while the unanswered rows are too few, the window was filled and is below 5000 |
| `UnansweredSearch.UntranslatedRows` | src/controllers/QuestionController.cpp:821-949 | the reply is 500 exactly when an untranslated row lies among the first offset + limit unanswered rows (any one, for limit 0) or is the row right after the page and the last window reaches it; otherwise it is the exact slice |
| `UnansweredSearch.PagesCollectUnanswered` | src/controllers/QuestionController.cpp:918-949 | replies at offsets 0, limit, 2 * limit, ..., unless one of them is a 500, concatenate to a prefix of the unanswered list: no gap, repeat or reordering |
| `UnansweredSearch.CountKept` | src/controllers/QuestionController.cpp:1090-1094 | rows minus answered ids is the number of unanswered rows, ids being distinct |
| `UnansweredSearch.RespondWithSearchResults` | src/controllers/QuestionController.cpp:918-949 | the row loop fails exactly when one of the first offset + limit + 1 kept rows is untranslated (any kept row for limit 0), and otherwise emits the exact slice of the kept rows |
| `Paging.PagesArePrefix` | src/controllers/QuestionController.cpp:918-949 | consecutive slices of a list concatenate to its prefix |
| `Paging.SliceElements` | src/controllers/QuestionController.cpp:930-945 | each row of a page is the one that many places behind the offset, without a bound too |
| `QuestionController.QuestionController.SearchWithAuth` | src/controllers/QuestionController.cpp:1147-1184 | 401 without a user; otherwise the paging members decoded and clamped and, depending on `unanswered_only`, the widening search or one page with answered flags read off the stored pairs |
| `QuestionController.QuestionController.ParsePaging` | src/controllers/QuestionController.cpp:741-764 | an integer offset from 0 to 2^31 - 1 and an integer limit from 0 to 1000 are taken as they are; a larger limit is 1000, a negative one 50; negative, missing or ill-typed offsets are 0, missing or ill-typed limits 50, and null is 0 |
| `QuestionController.QuestionController.ExecuteUnansweredSearch` | src/controllers/QuestionController.cpp:1041-1114 | the handler's reply is the widening search over the selected rows and the pairs stored for this user |
| `QuestionController.QuestionController.Fetch` | src/controllers/QuestionController.cpp:1055-1111 | the self-calling fetch visits exactly the specified windows and replies from the last one |
| `QuestionController.QuestionController.SearchPage` | src/controllers/QuestionController.cpp:957-1022 | the search without `unanswered_only` replies with the database page and flags each row by its stored pair |
| `QuestionController.QuestionController.FetchAnsweredIds` | src/controllers/QuestionController.cpp:852-911 | the array literals written in the loop, read back by the server, select by id list and hash list |
| `QuestionController.QuestionController.RunSearch` | src/controllers/QuestionController.cpp:957-965 | the text is built, its parameters are bound and the server reads the text: for every body that encodes criteria the result is the page of the rows that meet them, or an error exactly for numbers beyond 32 bits |
| `QuestionController.AnsweredByIff` | src/controllers/QuestionController.cpp:895-903 | a question counts as answered exactly when the user's own pair is stored |
| `AnsweredLookup.LookupIsPairwise` | src/controllers/QuestionController.cpp:852-911 | matching ids and hashes independently returns exactly the ids whose own (question, hash of user and question) pair is stored |
| `AnsweredLookup.LookupMatchesHistory` | src/controllers/QuestionController.cpp:852-911 | in every reachable state the lookup says answered exactly after an odd number of the user's successful answers and deletions |
| `SearchQuery.QueryBuilder.Build` | src/controllers/QuestionController.cpp:780-814 | the text, the parameter vector and the index changed in place render and bind exactly the specified clause list |
| `SearchQuery.QueryBuilder.AppendFilter` | src/controllers/QuestionController.cpp:662-704 | a filter with its null value adds nothing, any other adds one clause and one parameter, and an unconvertible value fails |
| `SearchQuery.CollectStrings` | src/controllers/QuestionController.cpp:685-702 | all items of an array filter as strings, or failure if one has no string form |
| `SearchQuery.PlaceholdersMatchParams` | src/controllers/QuestionController.cpp:662-814 | the placeholders found in the finished SQL text are $1..$n, each once and in order, n being the number of bound parameters |
| `SearchText.BuiltIsReadable` | src/controllers/QuestionController.cpp:662-814 | the finished SQL text, read with a table of column names, operators and keywords of its own, says exactly the conditions, order and bounds that were meant |
| `SearchText.ReadConditionText` | src/controllers/QuestionController.cpp:671-703 | the fragment of one filter reads back as its column, operator, placeholder and cast |
| `QueryEvaluation.BuiltQueryMeaning` | src/controllers/QuestionController.cpp:628-814 | evaluating the built query against its parameters is the slice of the rows that meet the direct conjunction of the criteria, and fails exactly when a number exceeds 32 bits |
| `QueryEvaluation.SelectIsMatching` | src/controllers/QuestionController.cpp:628-704 | the clause list and the direct conjunction of criteria select the same ordered rows |
| `QueryEvaluation.WhereMeaning` | src/controllers/QuestionController.cpp:662-704 | per row, all appended conditions hold if and only if the row meets the criteria |
| `ArrayLiteral.IntsRoundTrip` | src/controllers/QuestionController.cpp:866-888 | an integer array literal parses back to the integers |
| `ArrayLiteral.TextsRoundTrip` | src/controllers/QuestionController.cpp:866-888 | a quoted array literal parses back to its texts |
| `UserIdHash.UserIdHasher.Hash` | src/utils/UserIdHash.cpp:55-75 | the loop over the digest writes the lower-case hex of the MAC of the message |
| `UserIdHash.MessageInjective` | src/utils/UserIdHash.cpp:57 | the message determines the user id, whatever characters it holds, and the question id |
| `UserIdHash.HexInjective` | src/utils/UserIdHash.cpp:69-74 | different digests have different hex texts |
| `UserIdHash.HashReadsBack` | src/utils/UserIdHash.cpp:55-75 | the stored text, read as hex pairs, is the MAC of the user id, a colon and the decimal question id |
| `UserIdHash.HashInjective` | src/utils/UserIdHash.cpp:55-75 | without MAC collisions among the messages in play a hash names one user and one question |
| `Decimal.ParsePrint` | src/utils/UserIdHash.cpp:57 | decimal printing of any integer, negative ones included, reads back |
| `AnswerLaws.AnsweredIff` | src/controllers/QuestionController.cpp:1186-1444 | an answer is stored if and only if the caller is registered, the body complete, the question approved, consent given where it is flagged, no own answer stored, the option the question's, and no statement refused |
| `AnswerLaws.AnswerRefusals` | src/controllers/QuestionController.cpp:1186-1444 | 401, 404, 409 and 400 exactly when each is given, in the order of the checks |
| `AnswerLaws.AnswerServerError` | src/controllers/QuestionController.cpp:1259-1444 | 500 exactly when the request comes to the refused statement |
| `AnswerLaws.AnswerStores` | src/controllers/QuestionController.cpp:1352-1396 | the two rows of a stored answer, and nothing else |
| `AnswerLaws.ConsentRecorded` | sql/001_init.sql:108-117 | in every run a tracking row carries a consent timestamp exactly when the question was flagged at the answer that stored it; it is that answer's time, and that answer gave consent |
| `AnswerLaws.DeletedIff` | src/controllers/QuestionController.cpp:1471-1591 | a deletion succeeds if and only if the caller has answered the approved question and no statement is refused; 401, 404 and 500 exactly when each is given |
| `AnswerLaws.SubmittedIff` | src/controllers/QuestionController.cpp:2138-2362 | a submission succeeds if and only if the body is well formed, with 1 to 50 options, the caller is registered and no statement is refused; 400, 401 and 500 exactly when each is given |
| `AnswerLaws.SubmitStoresQuestion` | src/controllers/QuestionController.cpp:2294-2299 | the stored question has the text, category and language of the body, is pending, unflagged and without age limit, and all else stays |
| `AnswerLaws.ApproveMeans` | src/controllers/QuestionController.cpp:1710-1805 | approval succeeds exactly for an existing question and an age limit from 0 to 120, sets both and the flag and nothing else |
| `AnswerLaws.RejectMeans` | src/controllers/QuestionController.cpp:1807-1846 | rejection succeeds exactly for an existing question and sets its status only |
| `AnswerLaws.DeleteQuestionMeans` | sql/001_init.sql:75-117 | deleting a question removes exactly its options, answers and tracking rows |
| `AnswerLaws.UserChanges` | sql/002_auth.sql:343-344 | removing a user keeps all rows of questions and answers; questions only forget that this user submitted them |
| `AnswerProtocol.AnswersAlternate` | src/controllers/QuestionController.cpp:1338-1580 | in every run one user's successful answers and deletions on one question strictly alternate, an answer first, and the tracking row is there exactly after an answer |
| `AnswerProtocol.RunConsistent` | sql/001_init.sql:75-117 | in every reachable state each answer row names an option of its own question and options and tracking rows name existing questions |
| `AnswerProtocol.PendingNeverAnswered` | src/controllers/QuestionController.cpp:1301-1311 | in every run a question that was never reviewed has neither answer nor tracking rows |
| `AnswerProtocol.SubmitStoresOptions` | src/controllers/QuestionController.cpp:2294-2331 | a submission makes a new pending question whose options are exactly those of the request, numbered in request order |
| `AnswerProtocol.TrackingProvenance` | src/controllers/QuestionController.cpp:1245-1251 | every stored tracking row is (q, hash of some user and the same q) |
| `AnswerProtocol.AnswersAtMostTracking` | src/controllers/QuestionController.cpp:1526-1551 | in every run a question has at most as many answer rows as tracking rows |
| `AnswerProtocol.CountsEqualVoters` | src/controllers/QuestionController.cpp:1352-1396 | in runs without deleteAnswer both counts equal the number of distinct users who answered |
| `AnswerProtocol.RefusedLeaveNoTrace` | src/controllers/QuestionController.cpp:1301-1580 | leaving out all requests refused with 400, 401, 404 or 409 gives a run that ends in the same state |
| `AnswerProtocol.FailureChangesNothing` | src/controllers/QuestionController.cpp:1338-1580 | an unsuccessful request leaves every table as it was; only a 500 may advance a sequence |
| `AnswerProtocol.DeleteCounts` | src/controllers/QuestionController.cpp:1526-1551 | a successful deletion leaves no answer row of the question and takes away exactly the caller's tracking row |
| `AnswerDeletion.AnswersAreSince` | src/controllers/QuestionController.cpp:1352-1551 | in every run the answer rows of a question are exactly those of the successful answers since the last successful deletion on it |
| `AnswerDeletion.DeleteRemovesOwnIff` | src/controllers/QuestionController.cpp:1526-1551 | at the end of every run a deletion removes exactly one answer row iff one answer succeeded since the last deletion, and the documented own row iff that answer was the caller's |
| `AnswerDeletion.DeleteKeepsCountsEqualIff` | src/controllers/QuestionController.cpp:1526-1551 | after any successful deletion the two counts are equal if and only if nobody else's tracking row was stored |
| `AnswerDeletion.OthersLockedOut` | src/controllers/QuestionController.cpp:1352-1372 | after another user's deletion a user's answer is gone but answering again is refused with 409 |
| `AnswerDeletion.DeleteRemovesBothAnswers` | src/controllers/QuestionController.cpp:1526-1531 | a run from empty tables: two users answer, one deletes, no answer row and the other's tracking row are left |
| `QuestionController.QuestionController.AnswerQuestion` | src/controllers/QuestionController.cpp:1186-1466 | the statements with their rollbacks change the tables and reply as the atomic answer step, for every failing statement |
| `QuestionController.QuestionController.AnswerTransaction` | src/controllers/QuestionController.cpp:1338-1444 | both rows or neither; 409 on an existing key, 400 on an option of another question |
| `QuestionController.QuestionController.DeleteAnswer` | src/controllers/QuestionController.cpp:1471-1591 | rows deleted before the missing tracking row is discovered are restored |
| `QuestionController.QuestionController.SubmitQuestion` | src/controllers/QuestionController.cpp:2138-2362 | a pending question with its options in request order, or an unchanged database, in the order of the checks |
| `QuestionController.QuestionController.OptionTexts` | src/controllers/QuestionController.cpp:2229-2257 | all option texts if every option is a non-empty string or carries one, otherwise a refusal |
| `QuestionController.QuestionController.BuildTags` | src/controllers/QuestionController.cpp:1271-1293 | the tags are a function of the profile and the year; an implausible birth year adds none |
| `Statistics.GetStats` | src/controllers/QuestionController.cpp:373-487 | for every parameter map: 400 exactly when a given, non-empty tag has no canonical form; otherwise options are shown exactly when the answers that hold all requested tags reach the threshold and there is one, with how many of them chose each option and which percentage that is |
| `Statistics.AddTagFilters` | src/controllers/QuestionController.cpp:382-413 | the loop over the four parameters builds the specified filter or refuses |
| `Statistics.FilterMeaning` | src/controllers/QuestionController.cpp:336-413 | for every parameter map the filter exists iff every given, non-empty tag is valid, and it then holds exactly the given tags with their canonical values |
| `Statistics.TagsMeaning` | src/controllers/QuestionController.cpp:1271-1293 | an answer's tags are the gender, nationality and region of the profile and the bucket of a plausible birth year, and no others |
| `Statistics.TotalCountsMatching` | src/controllers/QuestionController.cpp:429-445 | the grouped counts add up to the number of matching answers, in any order of groups |
| `Statistics.PercentsSumTo100` | src/controllers/QuestionController.cpp:474-483 | the percentages, as rationals, add up to 100 whenever something matches |
| `Statistics.StricterFilterCountsLess` | src/controllers/QuestionController.cpp:429-445 | adding tags to a filter raises neither a count nor the total |
| `Statistics.ValuesPartitionTotal` | src/controllers/QuestionController.cpp:429-445 | for any tag key, the totals over its occurring values plus the untagged answers equal the total without the key |
| `Statistics.RegionFilter` | src/controllers/QuestionController.cpp:388-405 | a region parameter is accepted iff it has a canonical form, and then finds exactly the answers with that stored code |
| `Statistics.RegionSpelling` | src/controllers/QuestionController.cpp:388-405 | the answer of a user registered with one spelling is found by another exactly when they agree up to case and padding |
| `Statistics.NationalityFilter` | src/controllers/QuestionController.cpp:388-405 | the same for nationalities |
| `Statistics.AdvertisedFilterFinds` | src/utils/BirthYearBucketer.cpp:27-50 | filtering by the label advertised for an age finds people of that age exactly when theirs is not the clipped bucket |
| `Statistics.AdvertisedIsValid` | src/controllers/QuestionController.cpp:351-368 | every advertised label, the clipped one included, is accepted as a filter value |
| `StatisticsOverRuns.TotalCountsVoters` | src/controllers/QuestionController.cpp:429-457 | after every run the published total is at most the number of tracking rows, and in runs without deleteAnswer the number of distinct voters |
| `StatisticsOverRuns.AnswerCountsOnce` | src/controllers/QuestionController.cpp:1376-1396 | a successful answer raises by one exactly the count of its option under the filters its tags contain |
| `StatisticsOverRuns.DeleteEmptiesResults` | src/controllers/QuestionController.cpp:1526-1531 | after any successful deletion no answer of the question matches any filter |
| `TokenLifetimes.RunExpiries` | src/controllers/AuthController.cpp:1082-1085 | in every run each reset token expires its lifetime after it was stored |
| `TokenLifetimes.IssuedTokenClaimable` | src/controllers/AuthController.cpp:1051-1177 | whatever follows the asking, a request that begins with the mailed token can claim its row, and no other, if and only if less than the lifetime has passed since, it is unused and no open reset holds it |
| `TokenLifetimes.IssuedTokenLive` | src/controllers/AuthController.cpp:525-538 | whatever follows a login or a refresh, the issued token is stored under its hash for its user and live if and only if less than the refresh lifetime has passed and it is unrevoked |
| `TokenLifetimes.IssuedUnrevoked` | src/controllers/AuthController.cpp:525-538 | right after its issue a refresh token is unrevoked |
| `TokenLifetimes.IssuedUnused` | src/controllers/AuthController.cpp:1082-1099 | right after the asking the token is unused and held by nobody |
| `ResetProtocol.RunSafe` | src/controllers/AuthController.cpp:1139-1177 | in every interleaving at most one request commits per reset token, claims and user rows are held exclusively, and a committed token's row is used |
| `ResetProtocol.CommittedTokenIsSpent` | src/controllers/AuthController.cpp:1153-1157 | after a commit no request, open already or begun later, can claim the same token, whatever runs in between |
| `ResetProtocol.UncommittedLeavesNoTrace` | src/controllers/AuthController.cpp:1157-1241 | erasing all steps of a request that did not commit leaves a possible run that ends in the same tables with the same other requests |
| `ResetProtocol.CommitEffect` | src/controllers/AuthController.cpp:1199-1225 | whatever runs between its statements, after the commit the token is used, the user's password hash is the committing request's and every token present at its revoke step is revoked |
| `ResetProtocol.PasswordChangedOnlyBy` | src/controllers/AuthController.cpp:1199-1225 | a stored hash changes only by that user's own change or by a commit, to that request's hash |
| `ResetProtocol.NothingReverts` | src/controllers/AuthController.cpp:1153-1225 | along every run, statement by statement, `used` and `revoked` never return to FALSE, no row is lost and no attempt counter falls |
| `ResetProtocol.CarriedToCommit` | src/controllers/AuthController.cpp:1145-1241 | other requests' steps never alter what an open request carries |
| `ResetRevocation.ResetLeavesIssuedSince` | src/controllers/AuthController.cpp:1208-1225 | whatever runs between revoke and commit, the sessions live after the commit are exactly the live ones issued in between; so there is none iff each of these has been revoked or has expired |
| `ResetRevocation.TokensSplit` | src/controllers/AuthController.cpp:1208-1225 | the refresh rows of a user after any further steps are those from before and those that logins and refreshes issued since |
| `ResetRevocation.SessionSurvivesReset` | src/controllers/AuthController.cpp:1208-1225 | a run from empty tables: a login between revoke and commit, whose session is live after the reset |
| `MissErasure.MissLeavesOnlyAttempts` | src/controllers/AuthController.cpp:1159-1177 | erasing all steps of a request that never committed, misses included, leaves a possible run that ends in the same state up to lower attempt counters, provided no other request's miss hangs on the counter |
| `MissErasure.MissSettledIff` | src/controllers/AuthController.cpp:1153-1157 | with a positive budget a miss hangs on the counter if and only if an unused row of the token has expired since the request began |
| `MissErasure.PromptMissIsSettled` | src/controllers/AuthController.cpp:1153-1157 | with a positive budget a miss at the instant its transaction began never hangs on the counter |
| `MissErasure.MissesDecideSlowClaim` | src/controllers/AuthController.cpp:1153-1177 | a run from empty tables, for every positive budget: a request that began before the expiry could claim, and misses after max_attempts other misses although nothing has used the token |
| `AttemptBudget.AttemptsOnlyOnDead` | src/controllers/AuthController.cpp:1153-1177 | with a positive budget, in every interleaving a row whose counter has risen is used or expired |
| `AttemptBudget.BudgetNeverBlocks` | src/controllers/AuthController.cpp:1153-1157 | an unused, unexpired, unlocked token can always be claimed, and a used one never |
| `AttemptBudget.BudgetIff` | src/controllers/AuthController.cpp:1153-1177 | the counter invariant holds in all runs if and only if the budget is positive |
| `AttemptBudget.WithoutBudgetLiveTokenCounts` | src/controllers/AuthController.cpp:1164-1174 | concrete run: without a budget the first try counts on a live token |
| `AttemptBudget.UsedIffCommitted` | src/controllers/AuthController.cpp:1153-1157 | in every interleaving a token is used if and only if a reset with it has committed |
| `AttemptBudget.ExhaustedToken` | src/controllers/AuthController.cpp:1153-1177 | an exhausted token is never claimed again and is used if and only if a reset with it has committed |
| `AttemptBudget.ExhaustedNotUsed` | src/controllers/AuthController.cpp:1164-1174 | a run from empty tables, for every positive budget, that exhausts a token and leaves `used` FALSE |
| `RateLimit.WindowNeverExceeds` | src/controllers/AuthController.cpp:1051-1089 | at every instant each user has at most max(0, max_requests) rows created in the half-open window ending there |
| `RateLimit.RunLimited` | src/controllers/AuthController.cpp:1051-1089 | every reachable state respects the limit for all users and instants |
| `RateLimit.ForgotLimited` | src/controllers/AuthController.cpp:1051-1089 | one insertion keeps the bound for every window position, not only the current one |
| `ForgotRaces.WindowUnderRaces` | src/controllers/AuthController.cpp:1051-1089 | count and insertion as separate statements: with at most k requests of the user in between at once, every window holds at most max_requests + k - 1 rows |
| `ForgotRaces.ExactBound` | src/controllers/AuthController.cpp:1051-1089 | for all positive settings and every k a number bounds every window of every such run if and only if it is at least max_requests + k - 1 |
| `ForgotRaces.BurstReachesBound` | src/controllers/AuthController.cpp:1051-1089 | for all positive settings and every k a run with at most k requests open at once stores exactly max_requests + k - 1 rows in one window |
| `ForgotRaces.LimitHeldIff` | src/controllers/AuthController.cpp:1051-1089 | the configured limit holds in all runs if and only if at most one request of a user is between its statements at once, or the settings let nothing count |
| `ForgotRaces.UninterruptedIsAtomic` | src/controllers/AuthController.cpp:1051-1089 | without another step in between, the two statements are the atomic forgot step, with the same condition and the same row |
| `RefreshTokens.LoginAddsOne` | src/controllers/AuthController.cpp:525-538 | a login raises the user's live tokens by one |
| `RefreshTokens.RefreshKeepsCount` | src/controllers/AuthController.cpp:953-1016 | a successful refresh trades exactly the presented token for a new one |
| `RefreshTokens.LogoutRemovesAtMostOne` | src/controllers/AuthController.cpp:567-580 | a logout ends exactly the presented session, so none or one |
| `RefreshTokens.CommitLeavesUnrevoked` | src/controllers/AuthController.cpp:1208-1225 | a commit leaves exactly the live tokens outside what its revoke statement saw |
| `RefreshTokens.AtomicResetClearsAll` | src/controllers/AuthController.cpp:1208-1225 | with nothing between revoke and commit no live token is left |
| `RefreshTokens.LoginSurvivesReset` | src/controllers/AuthController.cpp:1208-1225 | a login between revoke and commit leaves exactly its own token live |
| `RefreshTokens.NoTokenExchangedTwice` | src/controllers/AuthController.cpp:953-1016 | in every run each refresh token is exchanged at most once |
| `RefreshRaces.ExchangesBounded` | src/controllers/AuthController.cpp:953-1016 | statement by statement: once a token has been revoked it is never looked up with success again, and it is exchanged at most as often as it had been looked up until then |
| `RefreshRaces.ExactExchanges` | src/controllers/AuthController.cpp:953-1016 | once a token has been revoked, a number bounds its exchanges in every continuation if and only if it is at least the exchanges made plus the requests on their way with it |
| `RefreshRaces.SignedOutForGoodIff` | src/controllers/AuthController.cpp:953-1016 | after all tokens of a user have been revoked, no session of the user comes back without a login if and only if no refresh is on its way with one of them |
| `RefreshRaces.UninterruptedIsAtomic` | src/controllers/AuthController.cpp:953-1016 | without another step in between, the three statements are the atomic refresh |
| `RefreshRaces.ExchangedTwice` | src/controllers/AuthController.cpp:953-1016 | a run in which two requests exchange the same token |
| `AuthController.RunSound` | src/controllers/AuthController.cpp:1139-1241 | every reachable state meets what the handler methods ask of the tables: the invariants of racing resets, one row per token hash, and the foreign keys to users |
| `AuthController.AuthController.ResetPassword` | src/controllers/AuthController.cpp:1111-1242 | run on its own it succeeds iff the row is claimable, no lock is in its way and nothing fails; it refuses iff the token is not presentable; success sets exactly the claim, the hash and the revocations; a failure or a wait changes no table; a miss only counts |
| `AuthController.AuthController.FinishReset` | src/controllers/AuthController.cpp:1199-1241 | both writes and the commit take effect together or not at all |
| `AuthController.AuthController.ClaimToken` | src/controllers/AuthController.cpp:1153-1177 | the claim waits iff a claimable row is held by another request, and otherwise hits a claimable free row or misses as there is none |
| `AuthController.AuthController.RecordAttempt` | src/controllers/AuthController.cpp:1164-1174 | the attempt waits iff a row of the token is held, and otherwise counts on the token's rows only |
| `AuthController.AuthController.UpdatePassword` | src/controllers/AuthController.cpp:1199-1206 | waits iff another open reset has written this user's row |
| `AuthController.AuthController.RevokeTokens` | src/controllers/AuthController.cpp:1208-1213 | waits iff another open reset has written a row of this user's tokens, and otherwise takes all of them |
| `AuthController.AuthController.ForgotPassword` | src/controllers/AuthController.cpp:1027-1106 | a row that expires its lifetime from now is stored and mailed exactly for a known account below the limit; nothing changes otherwise |
| `AuthController.AuthController.Login` | src/controllers/AuthController.cpp:475-545 | for each reply exactly when it is given; one new refresh row exactly on a verified sign-in |
| `AuthController.AuthController.Refresh` | src/controllers/AuthController.cpp:918-1022 | for each reply exactly when it is given: success iff the claims are those of a refresh token, a free live row of the subject carries the hash and nothing fails; it is then the rotation of that row; a failure after the second statement equals a sign-out; anything else changes nothing |
| `AuthController.AuthController.Logout` | src/controllers/AuthController.cpp:550-581 | 400 iff the token is empty, waiting iff an unrevoked row with the hash is held by a reset, and otherwise every row of the token is revoked and only those |
| `BirthYearBucketer.BucketHoldsAge` | src/utils/BirthYearBucketer.cpp:27-38 | a label is given exactly for plausible years; the validator accepts it and reads back a range of the configured width that holds the age |
| `BirthYearBucketer.SameBucketIff` | src/utils/BirthYearBucketer.cpp:27-38 | two ages share a label if and only if their quotients by the size agree |
| `BirthYearBucketer.ParseOfLabel` | src/controllers/QuestionController.cpp:351-368 | printing a range and reading it with the validator gives the range back, or a refusal if it is reversed |
| `BirthYearBucketer.AgeBucketLabels` | src/utils/BirthYearBucketer.cpp:40-50 | the loop writes the labels of the specified ranges, one per started bucket |
| `BirthYearBucketer.RangesPartitionAges` | src/utils/BirthYearBucketer.cpp:40-50 | each age up to the maximum lies in exactly one advertised range, the one at its quotient |
| `BirthYearBucketer.RangesContiguous` | src/utils/BirthYearBucketer.cpp:40-50 | the ranges start at 0, follow each other without gap and end at the maximum |
| `BirthYearBucketer.AdvertisedLabelIff` | src/utils/BirthYearBucketer.cpp:27-50 | the advertised label is the label a person gets if and only if the bucket is not the clipped last one |
| `BirthYearBucketer.ClippedLabelDiffers` | src/utils/BirthYearBucketer.cpp:45-48 | concrete case, with the default maximum of 119, in which the two labels differ |
| `Region.IsValidRegion` | src/utils/Region.cpp:41-56 | the index loop accepts exactly two letters, a dash and one to three letters or digits |
| `Region.NormalizeRegion` | src/utils/Region.cpp:58-67 | upper-casing in place and then checking equals checking and then upper-casing |
| `Region.CanonicalLetters` | src/utils/Region.cpp:25-67 | which trimmed inputs have a code, and the code letter by letter |
| `Region.CanonicalIdempotent` | src/utils/Region.cpp:58-67 | normalising twice is normalising once |
| `Region.CanonicalSame` | src/utils/Region.cpp:58-67 | two inputs share a code exactly when they agree up to case and padding |
| `Region.CanonicalPadCase` | src/utils/Region.cpp:16-67 | blank padding and letter case never change the code |
| `Nationality.NormalizeLetters` | src/utils/Nationality.cpp:25-53 | which trimmed inputs have a code, and the code letter by letter |
| `AsciiText.TrimMeaning` | src/utils/Region.cpp:16-23 | trimming cuts blanks, tabs, carriage returns and line feeds off both ends until none is left there |
| `AsciiText.UpperLetter` | src/utils/Region.cpp:25-27 | a becomes A, and so on to z; nothing else changes |
| `Nationality.NormalizeIdempotent` | src/utils/Nationality.cpp:43-53 | normalising twice is normalising once |
| `Nationality.NormalizeSame` | src/utils/Nationality.cpp:36-53 | two inputs share a code exactly when they agree up to case and padding |
| `Nationality.NormalizePadCase` | src/utils/Nationality.cpp:16-53 | blank padding and letter case never change the code |

## Left out

- HTTP, JSON parsing and writing, callbacks, logging, e-mail and reading the configuration: configured numbers and decoded request members are parameters.
- SHA-256, Argon2 and random tokens: an opaque function and fresh values (no stored row or open request carries a new token's hash); the password check and a hashing failure are parameters of the handlers.
- HMAC (section 2 of RFC 2104) and JWT verification (section 4.1 of RFC 7519): the MAC is a function assumed collision-free on the messages a run hashes, a verified token is its type and subject.
- AnswerQuestion: one atomic step per request; the checks that precede the transaction belong to it, and a commit failure is not modelled because the handler ignores the flag. The same holds for DeleteAnswer and SubmitQuestion.
- SubmitQuestion: an unknown category or language appears as a refused statement, since those tables are not part of the state.
- Approving, rejecting and deleting a question, and changing or removing a user, are steps of the environment without a handler class.
- NoTokenExchangedTwice: of refreshes as one atomic step, as is the handler method Refresh; `RefreshRaces` has the separate statements, without the locks of open resets.
- WindowNeverExceeds: of the count and the insertion as one atomic step, as is the handler method ForgotPassword; `ForgotRaces` has the separate statements.
- ResetPassword: describes a request with no other request in between; what interleaving adds is the subject of `ResetProtocol`, `AttemptBudget` and `RefreshTokens`. A statement that must wait for a lock ends the call with `Waits`.
- ForgotPassword: the look-up of the account by its address is a parameter.
- Removing a user together with its tokens, and profile changes other than the password, are not part of the token tables.
- ExecuteUnansweredSearch: all windows read one snapshot in one fixed order (ties in `created_at` included). A sum of offset and limit beyond a C++ int is undefined behaviour there and wraps around here; `SearchIsFilterThenSlice` covers it, `UntranslatedRows` is about sums that fit.
- Database failures during a search, and the public search without a user, are left out.
- QueryBuilder: strings, integers, booleans, null and arrays as filter values; fractions, objects and escapes inside array elements are not modelled, and ILIKE matching is an opaque relation.
- GetStats: percentages are exact rationals instead of floating point, and the threshold is the configured value as given.
- BirthYearBucketer: labels with numbers too long for `stoll`, and integer widths in the age arithmetic.
- Region and Nationality: `toupper` is ASCII upper-casing.
- Special-category values are one flag; the JWT and admin filters, the listing endpoints, the category endpoints and the generated models only read or forward single rows.
