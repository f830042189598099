# Planning poker: a verified model

This project models the core of a planning-poker web application in Dafny. Players join a *session* (a room identified by a six-digit code). Each player holds one *participation* (`Partie`): a username, the session, the card chosen, and whether a vote was cast. When a story is closed, the players' cards are reduced to one integer under the session's voting mode, and that integer is stored, as text, as the story's final value.

The model covers four parts of the system:

- **The session-code generator.** The random draw becomes a parameter, and the function formats it as six zero-padded digits (`models.dfy`, on top of the digit-string functions in `decimal.dfy`).
- **The vote aggregator.** The five voting modes are `strict`, `median`, `average`, `majority_abs` and `majority_rel`. `-1` means "no consensus" and `0` means "nothing to count" (`aggregation.dfy`). `vote_examples.dfy` pins each mode on the vote lists of the application's close-story scenarios.
- **The session lifecycle and participation registry.** This is the class `Store.PlanningPoker`. It holds the sessions in a map keyed by code and the participations in a sequence in creation order. Its methods are:
  - create and delete (with cascade)
  - add a participation
  - join_partie, vote_card, raz_vote and fin_partie
  - close_story and close_session

  Every method keeps the invariant `Consistent`: codes are well formed, every row points to an existing session, and no (username, session) pair occurs twice. No method moves a session's status backwards (`StatusNeverGoesBack`).
- **The card deck** offered to players, and the key set of the card-image table (`cards.dfy`).

In this revision of the repository, `backend/planning_poker/models.py` defines only `Session`, with no `Partie`, `status` or `mode_de_jeu`, and `backend/planning_poker/views.py` has only the generic CRUD viewsets, with none of the custom actions (join_partie, vote_card, raz_vote, fin_partie, close_story, close_session). The behaviour of those actions, and the field names, come from `backend/planning_poker/serializers.py:9` and from the integration and model tests, which the table cites.

Decisions the sources leave open, stated once:

- **Rounding** of the median of an even count and of the mean follows Python's `round`: the nearest integer, with halves going to the even neighbour. So 6.5 gives 6, the value a test comment names.
- **Non-numeric cards ("coffee", "?").**
  - `median` and `average` ignore them.
  - `strict` and both majorities count them like any other card.
  - If the card those modes select is not a number, the result is `-1`.
  - If no card was played at all, every mode gives `0`.
- **Majority ties.** `majority_rel` picks, among the equally most frequent cards, the one held by the earliest-created participation (the session's rows are read in creation order).
- **Unknown mode.** A `mode_de_jeu` that names no mode selects `average`.
- **Check order in close_story:**
  1. The session must exist.
  2. `story_index` must be present.
  3. The session must have at least one participant ("Aucun vote trouvé").
  4. The index must be within the stories.
- **join_partie** reports the status the session had before the join. Only a join that creates a row moves `open` to `in_progress`.

## Model

| member | source | states |
|---|---|---|
| Models.GenerateCode | backend/planning_poker/models.py:6-7 | the code for a draw in [0, 999999] is exactly six decimal digits whose value is the draw |
| Models.GenerateCodeInjective | backend/planning_poker/models.py:6-9 | two different draws never give the same code |
| Models.EveryCodeIsGenerated | backend/tests/test_models.py:29-37 | every six-digit string is the code of exactly one draw, its own value, so the generator reaches the whole code space |
| Decimal.PadDigits | backend/planning_poker/models.py:7 | zero-padded formatting has the requested width, only digits, and reads back as the number |
| Decimal.PadDigitsOfValue | backend/planning_poker/models.py:7 | every digit string is the padded form of its own value (the converse round trip) |
| Decimal.Value | backend/tests/test_models.py:36-37 | a string of k digits denotes a number below 10^k |
| Decimal.Show | backend/tests/test_views.py:365-381 | `str` of a natural number is a non-empty digit string with no leading zero that reads back as the number |
| Decimal.ShowIntRoundTrip | backend/tests/test_views.py:365-381 | the text stored as a story's final value reads back as the integer that was stored, negative results included |
| Decimal.ShowIntInjective | backend/tests/test_views.py:365-381 | different results are stored as different texts |
| Models.StatusName | backend/tests/test_models.py:68-77 | each status is stored as a non-empty name |
| Models.StatusNamesDistinct | backend/tests/test_models.py:68-77 | the three stored names "open", "in_progress", "closed" are pairwise different |
| Models.StatusRank | backend/tests/test_views.py:721-733 | statuses are ranked along the lifecycle: "open" is first (rank 0), "closed" is last (rank 2), so "in_progress" lies between them |
| Models.NewPartie | backend/tests/test_models.py:105-114 | a participation created without a vote keeps its username, session and card and has `a_vote` false |
| Models.SessionLabel | backend/planning_poker/models.py:13-14 | the text form of a session is its title, then " (", then its code, then ")" |
| Models.SessionLabelReadsBack | backend/planning_poker/models.py:13-14 | with six-digit codes, two sessions with the same text form have the same title and the same code |
| Models.PartieLabel | backend/tests/test_models.py:116-123 | the text form of a participation is the username, then " in session ", then the session code |
| Models.PartieLabelReadsBack | backend/tests/test_models.py:116-123 | with six-digit codes, two participations with the same text form have the same username and the same session |
| Cards.CardSet | frontend/src/services/card.jsx:17-22 | the deck has 12 cards: the ten numeric ones in order, then "coffee" and "?"; it takes no mode |
| Cards.DeckHasNoDuplicates | frontend/src/services/card.jsx:18-21 | no card appears twice in the deck |
| Cards.NumericCardsComeFirst | frontend/src/services/card.jsx:18-21 | exactly the first ten cards are numbers, so both special cards come after every numeric one |
| Cards.NumericCardsIncrease | frontend/src/services/card.jsx:18 | read as integers, the numeric cards strictly increase |
| Cards.CardImageKeys | frontend/src/services/card.jsx:26 | the cards that have an image are exactly the cards of the deck |
| Aggregation.ModeName | backend/tests/factories.py:29 | each mode's stored name selects that mode again |
| Aggregation.SubmittedKeepsCounts | backend/tests/test_views.py:314-333 | abstentions are dropped and every played card keeps its number of occurrences |
| Aggregation.CardValue | backend/tests/test_views.py:120-164 | a numeric card is worth its decimal value; the result is -1 exactly when the card is not a number |
| Aggregation.Numbers | backend/tests/test_views.py:166-237 | the numeric votes are non-negative, and there are none exactly when no numeric card was played |
| Aggregation.NumbersOfConcat | backend/tests/test_views.py:166-237 | the numeric votes of two runs of cards are those of the first run followed by those of the second |
| Aggregation.NumbersOfCard | backend/tests/test_views.py:166-237 | a single card contributes its value if it is a number and nothing otherwise |
| Aggregation.SubmittedOfConcat | backend/tests/test_views.py:314-333 | the cards played by two runs of players are those of the first run followed by those of the second |
| Aggregation.RoundHalfEven | backend/tests/test_views.py:190-213 | the result is within half a unit of p/q, and an exact half goes to the even neighbour |
| Aggregation.RoundingIsUnique | backend/tests/test_views.py:190-213 | any integer with those two properties is the rounded value, so the rounding rule is fully determined |
| Aggregation.Insert | backend/tests/test_views.py:166-213 | inserting into sorted votes keeps them sorted and adds exactly the new vote |
| Aggregation.SortAscending | backend/tests/test_views.py:166-213 | the sorted votes are in ascending order and are a permutation of the votes |
| Aggregation.SortKeepsSortedVotes | backend/tests/test_views.py:166-213 | sorting votes that are already in order changes nothing |
| Aggregation.CountsAfterSort | backend/tests/test_views.py:166-213 | sorting changes neither how many votes lie below a value nor how many lie above it |
| Aggregation.MedianSplitsVotes | backend/tests/test_views.py:166-213 | at most half of the votes lie strictly below the median and at most half strictly above; for an odd count the median is one of the votes |
| Aggregation.MedianOfEvenCount | backend/tests/test_views.py:190-213 | for an even count, the median is the mean of the two middle sorted votes rounded to the nearest integer, a tie going to the even neighbour |
| Aggregation.MedianIsUnique | backend/tests/test_views.py:166-188 | for an odd count, the median is the only value that splits the votes that way |
| Aggregation.MedianWithinVotes | backend/tests/test_views.py:166-213 | the median lies between the smallest and the largest vote |
| Aggregation.SumBounds | backend/tests/test_views.py:215-237 | the sum of n votes within [lo, hi] lies within [n·lo, n·hi] |
| Aggregation.AverageOf | backend/tests/test_views.py:215-237 | the rounded mean is within half a unit of the exact mean, and at an exact half it is the even neighbour |
| Aggregation.AverageWithinVotes | backend/tests/test_views.py:215-237 | the rounded mean lies between the smallest and the largest vote |
| Aggregation.Leader | backend/tests/test_views.py:239-312 | the chosen card is at least as frequent as every other card and strictly more frequent than every card played before it |
| Aggregation.TwoCardsShareTheVotes | backend/tests/test_views.py:239-287 | two different cards together occur at most as often as there are votes |
| Aggregation.MajorityIsUnique | backend/tests/test_views.py:239-287 | only the most frequent card can hold more than half of the votes |
| Aggregation.StrictResult | backend/tests/test_views.py:120-164 | no card gives 0; if every played card is the same card the result is its value; if two played cards differ the result is -1 |
| Aggregation.MedianResult | backend/tests/test_views.py:166-213 | the result is non-negative and at most the largest numeric vote, splits the numeric votes at most half and half, and is 0 when there is no numeric vote |
| Aggregation.MedianResultOfEvenCount | backend/tests/test_views.py:190-213 | for an even count of numeric votes, the result is the mean of the two middle sorted votes rounded to the nearest integer, a tie going to the even neighbour |
| Aggregation.AverageResult | backend/tests/test_views.py:215-333 | the result is non-negative and at most the largest numeric vote, within half a unit of the mean of the numeric votes with an exact half going to the even neighbour, and 0 when there is no numeric vote |
| Aggregation.MajorityAbsResult | backend/tests/test_views.py:239-287 | no card gives 0; a card played by more than half of the voters gives its value; if no card reaches that share the result is -1 |
| Aggregation.MajorityRelResult | backend/tests/test_views.py:289-312 | no card gives 0; otherwise the result is the value of a most frequent card, among equally frequent cards the one in the earliest row |
| Aggregation.Aggregate | backend/tests/test_views.py:120-333 | every mode gives -1 or more, and gives 0 when every player abstained |
| Aggregation.NoSubmittedCards | backend/tests/test_views.py:314-333 | when every player abstained, no card is played |
| Aggregation.NonNumeralsDoNotCount | backend/tests/test_views.py:166-237 | a "coffee" or "?" card played anywhere among the votes changes neither the median nor the average |
| Aggregation.MajoritiesAgree | backend/tests/test_views.py:239-312 | when a card holds an absolute majority, majority_abs and majority_rel both give its value |
| Aggregation.UnanimityAgreesInEveryMode | backend/tests/test_views.py:120-142 | when every player played the same numeric card, all five modes give its value |
| Aggregation.MedianOfConstant | backend/tests/test_views.py:166-213 | the median of equal votes is that vote |
| Aggregation.AverageOfConstant | backend/tests/test_views.py:215-237 | the rounded mean of equal votes is that vote |
| Aggregation.SumOfConstant | backend/tests/test_views.py:215-237 | n equal votes v sum to n·v |
| VoteExamples.SubmittedOfPlayed | backend/tests/test_views.py:120-312 | when no player abstains, the played cards are the votes in row order |
| VoteExamples.NumbersOfNumerals | backend/tests/test_views.py:166-237 | when every card is a number, the numeric votes are the cards' values, position by position |
| VoteExamples.StrictExamples | backend/tests/test_views.py:120-164 | strict: "5","5","5" gives 5 and "5","8" gives -1 |
| VoteExamples.MedianOddExample | backend/tests/test_views.py:166-188 | median: "3","5","8" gives 5 |
| VoteExamples.MedianEvenExample | backend/tests/test_views.py:190-213 | median: "3","5","8","13" gives 6 (6.5 rounded to even) |
| VoteExamples.AverageExamples | backend/tests/test_views.py:215-333 | average: "2","4","6" gives 4, and two abstaining players give 0 |
| VoteExamples.MajorityAbsExamples | backend/tests/test_views.py:239-287 | majority_abs: "5","5","5","8" gives 5 and "5","5","8","8" gives -1 |
| VoteExamples.MajorityRelExample | backend/tests/test_views.py:289-312 | majority_rel: "5","5","8","13" gives 5 |
| Store.RowsOfMembers | backend/tests/test_views.py:449-462 | the rows listed for a session are exactly the rows that point to it |
| Store.RowsNotOfMembers | backend/tests/test_models.py:170-186 | a cascading delete keeps exactly the rows that point to other sessions |
| Store.CascadeKeepsOtherSessions | backend/tests/test_models.py:170-186 | deleting one session leaves every other session's rows unchanged and in order |
| Store.CascadeKeepsConsistency | backend/tests/test_models.py:170-186 | deleting a session with its rows keeps the store consistent and leaves no row of that session |
| Store.KeptRowsStayUnique | backend/tests/test_models.py:152-186 | a cascading delete introduces no duplicate (username, session) pair |
| Store.NoMembersNoRows | backend/tests/test_models.py:170-186 | a session no row points to has no rows |
| Store.RowsOfSingleSession | backend/tests/test_models.py:140-150 | when every row belongs to one session, that session has all of them |
| Store.IndexOf | backend/tests/test_views.py:561-577 | the position found holds the player's row and no earlier row does; no position means no row of the player in the session |
| Store.ClearVote | backend/tests/test_views.py:742-764 | a row of the session loses its card and its vote; its key is kept; rows of other sessions are untouched |
| Store.ResetVotes | backend/tests/test_views.py:742-764 | raz_vote keeps the number of rows |
| Store.ResetKeepsPlayersWithoutCards | backend/tests/test_views.py:742-764 | raz_vote removes no player of the session and leaves each of them without a card |
| Store.CloseAfterResetGivesNoVotes | backend/tests/test_views.py:742-764 | closing a story right after raz_vote gives 0 in every mode and is not refused for want of players |
| Store.RemoveRowLeavesNoRow | backend/tests/test_views.py:586-604 | deleting a player's row keeps keys unique and leaves no row for that player in that session |
| Store.PlanningPoker.FindPartie | backend/tests/test_views.py:519-577 | the scan over the rows finds the same position as the first-match specification |
| Store.PlanningPoker.CreateSession | backend/planning_poker/models.py:9 | a new session gets the generated code, its data and status "open"; a code already in use is refused and nothing changes |
| Store.PlanningPoker.DeleteSession | backend/tests/test_models.py:170-186 | an unknown session is NotFound; otherwise the session and all of its rows are gone and every other row stays, in order |
| Store.PlanningPoker.AddPartie | backend/tests/test_models.py:152-168 | a row for an unknown session is NotFound and a second row for the same (username, session) is refused; otherwise one row is appended, not yet voted |
| Store.PlanningPoker.JoinPartie | backend/tests/test_views.py:637-733 | a missing field gives MissingParameter and an unknown session NotFound; a closed session answers "closed" and creates nothing; a known player creates nothing; a new player gets exactly one row, and an open session becomes in_progress while the reply reports "open" |
| Store.PlanningPoker.VoteCard | backend/tests/test_views.py:524-577 | a missing field gives MissingParameter and an unknown player NotFound; otherwise only that player's row changes, to the card with `a_vote` true |
| Store.PlanningPoker.RazVote | backend/tests/test_views.py:742-798 | a missing id gives MissingParameter and an unknown session NotFound; otherwise every row of the session loses its card and vote, also when it has no rows, and nothing else changes |
| Store.PlanningPoker.FinPartie | backend/tests/test_views.py:586-628 | a missing field gives MissingParameter and an absent player NotFound; otherwise exactly that row is deleted and the player is no longer in the session |
| Store.PlanningPoker.CloseStory | backend/tests/test_views.py:335-396 | unknown session, missing index, no participant and index out of range each give their error and change nothing; otherwise the session's votes are aggregated under its mode, only the chosen story's final value changes, and the stored text reads back as the returned integer |
| Store.PlanningPoker.CloseSession | backend/tests/test_views.py:405-431 | an unknown session is NotFound; a request for "closed" closes the session and any other requested status is refused with nothing changed |
| Store.JoinScenario | backend/tests/test_views.py:637-733 | two players join a new session, one of them twice: the first reply says "open", the rejoin creates nothing, the session is in_progress and has two rows |
| Store.ClosedJoinScenario | backend/tests/test_views.py:680-696 | a player joining a closed session is answered "closed" and gets no row |
| Store.UnanimousFivesCloseToFive | backend/tests/test_views.py:365-381 | two "5" votes in a strict session aggregate to 5, stored as "5" |
| Store.CloseStoryScenario | backend/tests/test_views.py:365-381 | after two players vote "5", closing story 0 returns 5, stores "5" on that story and leaves the other story open |

## Left out

- The random draw of `randint` is a parameter of `Models.GenerateCode`. The source has no retry on a code collision. `Store.PlanningPoker.CreateSession` refuses a taken code, as the unique column does, and does not draw again.
- The 255-character limit on `titre` is not enforced.
- Floating-point arithmetic is replaced by exact integer arithmetic with one rounding rule, Python's round-half-to-even. The integration test accepts 6 or 7 for the mean 6.5 of the middle votes; the model gives 6.
- Aggregation.CardValue: a numeric card is a non-empty string of ASCII digits. Python's `int()` also accepts a sign, surrounding whitespace and underscores. No card of the deck uses them.
- Models.SessionLabel: follows `backend/planning_poker/models.py:13-14` (title and code). `backend/tests/test_models.py:51-59` expects the mode as well, but `Session` in `models.py` has no such field in this revision.
- The shape of `stories` is a sequence of `Story` values. The sources store them as a JSON value of three shapes, all used by the tests: a list of dictionaries, a dictionary of dictionaries, and a dictionary of plain strings (`backend/tests/test_models.py:86-90`, `backend/tests/factories.py:26`).
- The reply of close_story also carries the constant label "Validé". Only the integer is modelled.
- Updates through the generic CRUD endpoints (PATCH of a session or a participation) and the list endpoints are left out. They are framework-generated. Only the filtering of participations by session is modelled, as `Store.RowsOf`.
- `mode_de_jeu` is kept as the stored text. Validation of that text is left out because no check is visible in the sources: a session may be created with any text, and `Aggregation.ModeOf` reads unknown text as `average`.
- Status codes of the HTTP replies are left out. They become the `Store.Error` constructors, each commented with the HTTP code the tests expect where they fix one (400 or 409 for a duplicate participation; none for a duplicate session code).
- The websocket consumer, concurrency between requests, transactions and database-level locking are left out. Every method runs alone on the store.
- The frontend pages and components are left out, and so is `getCardSvg`, which returns a React component. Only the key set of its lookup table is modelled (`Cards.CardImageKeys`).
- Aggregation.Aggregate: its own contract states only the range and the all-abstained case. What each mode computes is stated by the five mode functions it dispatches to.
- Store.ResetVotes: its contract states only the length. What it does to each row is stated by `Store.ClearVote` and `Store.ResetKeepsPlayersWithoutCards`.
- Row order: the majority tie-break and `Store.VotesOf` read a session's rows in creation order. The source reads them through an unordered Django queryset, which does not promise that order. `Store.PlanningPoker.VoteCard` changes a row in place, so that order is not the order in which cards were played.
- Store.PlanningPoker.CreateSession: always stores status `open`. The create endpoint also accepts an explicit `status` (`backend/tests/test_views.py:49`, `backend/tests/test_models.py:76`); that path is not modelled.
- Store.PlanningPoker.AddPartie: always stores `a_vote` false. The create endpoint also accepts an explicit `a_vote` (`backend/tests/test_views.py:747`); that path is not modelled.
