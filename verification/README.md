# Okane in Dafny

A model of the parts of Okane, a savings tracker, where a small mistake costs money or a session: the budget
allocation, the ledger with its frozen conversions, the refresh-token protocol between page and server, Google
sign-in, rate alerts and the amount parser. Dates are milliseconds since the epoch, money and rates are exact reals,
ids are numbers.

Code that changes state is a class or a method with a loop, proved against a function that gives the new state; the
properties are lemmas about those functions, over single calls, whole runs or every interleaving.

| file | what it covers |
|---|---|
| `Decimals.dfy`, `Conversion.dfy` | the three rounding modes, 2-decimal and whole-unit conversion |
| `GoalMath.dfy`, `Allocation.dfy`, `Budget.dfy` | goal progress, greedy allocation, the budget block |
| `BudgetLedger.dfy` | the budget endpoint over every reachable ledger |
| `Sequences.dfy` | filters, maps and sums over sequences |
| `Ledger.dfy`, `LedgerService.dfy` | goals and entries of many users: each call as a step, and as methods on two tables |
| `LedgerInvariant.dfy`, `Noninterference.dfy`, `Pagination.dfy`, `Totals.dfy` | what holds of the ledger over all runs |
| `LedgerEffects.dfy` | what each call stores, when it is refused, and what a later read shows |
| `Tokens.dfy`, `WebClient.dfy`, `RefreshSystem.dfy` | refresh rows on the server, the single-flight client, both together |
| `GoogleSignIn.dfy`, `GoogleLinks.dfy` | account resolution, alone and interleaved; when a link is ever taken over |
| `RateAlerts.dfy` | the daily snapshot and crossing alerts |
| `ParseAmount.dfy` | the flexible amount parser |

Where a promise does not hold of the code as it stands, the model keeps the code, shows an input that breaks the
promise, and proves exactly when it holds:

- `allocate` calls its order total, but the difference of two missing deadlines is not a number and the comparator
  then reports a tie, so two goals without a deadline keep their input order. The result is independent of the input
  order exactly when at most one line has no deadline (`Allocation.OrderIndependentIff`). Goals that come through
  goal math always have one (`BudgetLedger.UsersGoalOrderDoesNotMatter`).
- Lines without a deadline share no deadline and are served in input order, not smallest need first. The allocation
  covers the most lines for every pool exactly when its order serves smaller needs first
  (`Allocation.CoversTheMostIff`), for undated lines when the input does (`Allocation.UndatedCoverTheMostIff`).
- Only a login writes the stored refresh token, so a refresh done in memory leaves a rotated token in storage. No
  token is sent twice exactly when every page load finds an unsent one (`WebClient.TokensAreSentOnceIff`), and a page
  load ends every session exactly when the stored token's row is revoked (`RefreshSystem.BootReportsReuseIff`). Over
  whole runs the server reports reuse exactly when somebody else revoked a posted row, or such a load posted a token
  that another call spent (`RefreshSystem.ReuseIsReportedIff`).
- The Google sign-in promises never to overwrite another account's link, but the late link and the retry by email do
  not compare it. The promise holds over all interleavings exactly when no two accounts without a row contend for one
  email whose row is missing or unlinked (`GoogleLinks.LinksAreNeverTakenIff`). No sign-in is refused exactly when
  every account without a row has its email to itself (`GoogleLinks.NeverRefusedIff`).
- A logout is undone by a refresh that answers after it; it lasts exactly when no refresh is open
  (`WebClient.LogoutLastsIffNoRefreshIsOpen`).
- Rotation checks and writes in separate steps. A late write keeps one live row per lineage exactly when no other row
  of the lineage is live by then (`Tokens.LateCommitKeepsOneLiveIff`).
- Rows that tie in entry date and creation time have no fixed order between queries: paging is exact for every limit
  and tie-breaking exactly when there are no ties (`Pagination.PagesExactIffStrict`). Entries that change between the
  pages do no harm as long as each cursor's row stays (`Pagination.StandingRowsAreShownOnce`).
- A split does not check that amounts have two decimals: the frozen amount is converted from the unrounded one. For yen
  the stored pair obeys the conversion law at every storable rate exactly when the amount has two decimals
  (`LedgerInvariant.YenFrozenAtStorableRatesIff`), for dong exactly when rounding takes less than half a ten-billionth
  off it and adds nothing (`LedgerInvariant.DongFrozenAtStorableRatesIff`).
- Alerts compare a stored, rounded rate with an unrounded one, and the retry after a failed read of the alerts finds the
  day's row and does nothing: firing days are the stored crossing days exactly when no attempt that stored a crossing
  failed to read the alerts or had its rate rounded onto the threshold (`RateAlerts.FiringDaysAreCrossingDaysIff`).
- The suggested monthly amount rises for some goal after it was paid exactly when the two days are more than 30 days
  apart (`GoalMath.NeverRisesWithinThirtyDaysIff`), as from 1 March to 1 April. Paying every suggestion reaches every
  goal exactly when some payment falls in the last 30 days (`GoalMath.PlanReachesTheTargetIff`).
- Whole yen to dong and back is the identity exactly for rates of at least 1 (`Conversion.YenRoundTripIff`).
- A decimal typed without groups is read as its value exactly when it has at most two fraction digits or is zero
  (`ParseAmount.PlainDecimalReadsBackIff`).
- The comment on `available` says income minus expenses minus needs; the code takes the floored pool, zero at the
  least, minus needs, and so does the model.

## Model

| member | source | states |
|---|---|---|
| Conversion.ConversionIsNearest | apps/api/src/exchange-rate/rate-converter.service.ts:14-20 | a conversion is missing exactly for differing currencies without a rate; results are within half a unit, or half a hundredth, of the exact value |
| Conversion.ConversionMonotone | apps/api/src/common/currency-conversion.ts:10-13 | neither conversion reverses the order of two amounts, at any rate and in either direction |
| Conversion.YenRoundTripIff | apps/api/src/exchange-rate/rate-converter.service.ts:14-21 | whole yen to dong and back is the identity on all amounts if and only if the rate is at least 1 |
| Conversion.LowRateLosesSomeYen | apps/api/src/exchange-rate/rate-converter.service.ts:14-21 | for every rate below 1 some whole yen amount comes back changed |
| Conversion.CentsRoundTripIff | apps/api/src/common/currency-conversion.ts:10-13 | on the whole 0.01 grid the 2-decimal conversion from yen and back is the identity if and only if the rate is at least 1 |
| Conversion.DongRoundTripBound | apps/api/src/exchange-rate/rate-converter.service.ts:14-21 | dong to yen and back is off by at most half the rate plus one half |
| GoalMath.ComputeMonthsRemaining | apps/api/src/goals/goal-math.service.ts:81-89 | there are months left exactly when the deadline day is not past, and then at least one |
| GoalMath.ProgressSuggestionIsTight | apps/api/src/goals/goal-math.service.ts:44-61 | the suggestion times the months reaches the remainder, and one unit less a month does not |
| GoalMath.PercentAndStatus | apps/api/src/goals/goal-math.service.ts:48-63 | for a positive target a goal is completed exactly when nothing remains, and then shows at least 100 percent, which is shown exactly from 99.95 percent on; the remainder in the other currency is off by at most half a hundredth |
| GoalMath.StatusIff | apps/api/src/goals/goal-math.service.ts:91-100 | completed, no deadline, overdue and on track each exactly in their case, by whole days; a suggestion is given exactly up to the deadline's day |
| GoalMath.PercentIsNearestTenth | apps/api/src/goals/goal-math.service.ts:48-51 | the percentage is the saved share to the nearest tenth, zero for a zero target, and the remainder is the rest of the target or zero |
| GoalMath.NeverRisesIff | apps/api/src/goals/goal-math.service.ts:56-89 | between two days up to the deadline, with the first day's suggestion paid, no goal's suggestion rises if and only if the month count dropped by at most one |
| GoalMath.NeverRisesWithinThirtyDaysIff | apps/api/src/goals/goal-math.service.ts:56-89 | whatever the goal and the deadline, it does not rise if and only if the days are at most 30 apart |
| GoalMath.SuggestionCanRise | apps/api/src/goals/goal-math.service.ts:56-89 | 61 days before its deadline a goal of 300 asks for 100; paid, and 31 days later, it asks for 200 |
| GoalMath.PlanReachesTheTargetIff | apps/api/src/goals/goal-math.service.ts:44-89 | over any list of payment days, paying each day's suggestion reaches the target of every goal if and only if some payment falls within the last 30 days up to the deadline |
| Allocation.SortLinesIsAStableSort | apps/api/src/budget/budget-math.service.ts:180-186 | the order is a permutation, sorted by deadline, need, id, that keeps lines without deadline in input order |
| Allocation.NearestDeadlineFirst | apps/api/src/budget/budget-math.service.ts:174-186 | in the result dated lines precede undated ones, then nearest deadline, smaller need, smaller id |
| Allocation.StableSortIsUnique | apps/api/src/budget/budget-math.service.ts:180-186 | with distinct ids there is only one such order |
| Allocation.Allocate | apps/api/src/budget/budget-math.service.ts:179-202 | the loop computes the greedy distribution over the sorted lines |
| Allocation.AllocationTotal | apps/api/src/budget/budget-math.service.ts:188-201 | exactly the smaller of pool and total need is handed out |
| Allocation.AllocationEmitsEveryLine | apps/api/src/budget/budget-math.service.ts:189-201 | every line is answered once, with its own id, need and a grant within that need |
| Allocation.AllocationShape | apps/api/src/budget/budget-math.service.ts:188-201 | full lines first, then at most one partial one, then zeros |
| Allocation.EveryPrefixGetsTheMost | apps/api/src/budget/budget-math.service.ts:180-201 | no allocation within the pool gives any prefix of the order more |
| Allocation.SharedDeadlineCoversTheMost | apps/api/src/budget/budget-math.service.ts:180-200 | for lines of one deadline no allocation within the pool covers more of them fully |
| Allocation.OneDeadlineCoversTheMost | apps/api/src/budget/budget-math.service.ts:180-200 | the same within each deadline group, given that earlier lines are served as well |
| Allocation.LargerNeedFirstCoversFewer | apps/api/src/budget/budget-math.service.ts:180-200 | wherever a larger need is served before a smaller positive one, some pool lets another allocation cover strictly more lines |
| Allocation.CoversTheMostIff | apps/api/src/budget/budget-math.service.ts:180-200 | for any lines and deadlines, no allocation within any pool covers more lines if and only if the order serves smaller positive needs first |
| Allocation.UndatedCoverTheMostIff | apps/api/src/budget/budget-math.service.ts:181-182 | for lines without deadline, which keep their input order, if and only if the input lists smaller positive needs first |
| Allocation.OrderIndependentIff | apps/api/src/budget/budget-math.service.ts:175-186 | with distinct ids the output is the same for every input order if and only if at most one line has no deadline |
| Budget.Classify | apps/api/src/budget/budget-math.service.ts:93-122 | the loop splits the goals into counted and excluded ones in list order |
| Budget.ComputeAvailable | apps/api/src/budget/budget-math.service.ts:87-167 | the method computes the whole block, missing rate included |
| Budget.AllocateCounted | apps/api/src/budget/budget-math.service.ts:150-166 | totals, shortfall and, only on a shortfall, the allocation, for given counted lines |
| Budget.ClassificationIsStatus | apps/api/src/budget/budget-math.service.ts:96-122 | for a positive target a goal is counted exactly when on track, is excluded for exactly its status otherwise, has a deadline and a whole need of at least 1 when counted, and never takes the zero-amount branch as a pending goal |
| Budget.BudgetPartitionsGoals | apps/api/src/budget/budget-math.service.ts:96-122 | over a whole list the counted ids are the on-track ones and the excluded lines carry the status, both in list order |
| Budget.CountedLinesAreTheGoals | apps/api/src/budget/budget-math.service.ts:96-148 | the counted lines are the on-track goals', in list order, each with the goal's own name, currency, deadline and suggestion, and as need the suggestion or the least whole amount not below its conversion |
| Budget.RateUnavailableIff | apps/api/src/budget/budget-math.service.ts:124-140 | figures are missing if and only if there is no rate and an on-track goal is in the other currency; income and the sum of the three expenses are shown in any case |
| Budget.AllocationServesInOrder | apps/api/src/budget/budget-math.service.ts:174-202 | in an allocation over goals, of any two lines the first has the earlier deadline, or on one deadline the smaller need, then the smaller id; and the second gets nothing unless the first is covered in full |
| Budget.EarlierDeadlineIsServedFirst | apps/api/src/budget/budget-math.service.ts:174-202 | of two goals the one due earlier comes first, and the other gets nothing unless it is covered in full |
| Budget.TotalNeedBound | apps/api/src/budget/budget-math.service.ts:141-150 | with k needs in the other currency the total is within -0.005k and 0.995k of the exact rational one |
| Budget.BudgetTotalBound | apps/api/src/budget/budget-math.service.ts:141-150 | that bound for the block of any user's goals |
| Budget.PoolIsWholeDisposable | apps/api/src/budget/budget-math.service.ts:90-91 | the pool is the greatest whole amount not above disposable income, zero when that is negative |
| Budget.BlockSharesThePool | apps/api/src/budget/budget-math.service.ts:150-165 | there is an allocation exactly when needs exceed the pool, it sums to the pool, and the shortfall is the rest |
| Budget.AllocationSpendsExactlyThePool | apps/api/src/budget/budget-math.service.ts:90-165 | that for the block of any user's goals, with the pool within real disposable income |
| Budget.GoalOrderDoesNotMatter | apps/api/src/budget/budget-math.service.ts:141-186 | reordering the goals changes no figure and no allocation line |
| BudgetLedger.EveryRunKeepsTargets | apps/api/src/goals/goals.service.ts:33-101 | over every run whose targets have at most two decimals, every stored target is positive |
| BudgetLedger.UsersGoalsArePartitioned | apps/api/src/budget/budget.service.ts:75-98 | in every reachable ledger the endpoint counts exactly a user's on-track goals and excludes the others for their status, both in list order |
| BudgetLedger.UsersLinesAreTheGoals | apps/api/src/budget/budget.service.ts:75-98 | in every reachable ledger the endpoint's counted lines carry the user's on-track goals' own fields |
| BudgetLedger.UsersRateUnavailableIff | apps/api/src/budget/budget.service.ts:75-98 | in every reachable ledger the endpoint lacks figures if and only if there is no rate and the user has an on-track goal in the other currency |
| BudgetLedger.UsersEarlierGoalIsServedFirst | apps/api/src/budget/budget.service.ts:75-98 | in every reachable ledger both of two on-track goals have their line in an allocation, the one due earlier first, and the later one gets nothing unless the earlier one is covered in full |
| BudgetLedger.UsersAllocationSpendsThePool | apps/api/src/budget/budget.service.ts:75-98 | in every reachable ledger, for any income and expenses, the endpoint allocates exactly when needs exceed the pool, and then exactly the pool |
| BudgetLedger.UsersGoalOrderDoesNotMatter | apps/api/src/budget/budget.service.ts:75-98 | in every reachable ledger the order in which the database lists a user's goals changes no figure and no allocation line |
| LedgerInvariant.LengthsMatchIffAllOwned | apps/api/src/savings-entries/savings-entries.service.ts:66-71 | once duplicates are rejected, equal lengths hold if and only if the user owns every goal of the split |
| LedgerInvariant.AcceptedSplit | apps/api/src/savings-entries/savings-entries.service.ts:61-91 | an accepted split has owned goals, positive amounts and a rate wherever currencies differ |
| LedgerInvariant.SplitRowIsFrozen | apps/api/src/savings-entries/savings-entries.service.ts:91-113 | each row carries its goal's frozen amount, and all cross-currency rows the one rate of the call |
| LedgerInvariant.StepKeepsStructure | apps/api/src/savings-entries/savings-entries.service.ts:24-179 | every call keeps ids unique and every entry on an existing goal of its own user |
| LedgerInvariant.StepKeepsLedger | apps/api/src/savings-entries/savings-entries.helpers.ts:46-65 | every call, with any amounts, keeps every stored pair right: the amount and no rate in the same currency, else a rate and the conversion at it, exact unless the entry was last written with more than two decimals and then of the amount before its rounding |
| LedgerInvariant.EveryRunKeepsLedger | apps/api/src/savings-entries/savings-entries.service.ts:24-179 | so does every run of any users, with any amounts and at any rates |
| LedgerInvariant.EveryRunKeepsDates | apps/api/src/savings-entries/savings-entries.helpers.ts:13-21 | in every reachable ledger no entry is dated after the day of the latest call |
| LedgerInvariant.OnlyEditsChangeFrozenPair | apps/api/src/savings-entries/savings-entries.service.ts:145-174 | a stored frozen pair changes only when its owner edits amount or currency |
| LedgerEffects.EntryIsLoggedIff | apps/api/src/savings-entries/savings-entries.service.ts:24-53 | an entry on an own goal is stored, with its fields and frozen at the latest rate, if and only if its day is not later than today, its amount positive and any needed rate there; otherwise nothing is stored and the first reason given |
| LedgerEffects.LoggingRaisesTheGoal | apps/api/src/savings-entries/savings-entries.service.ts:24-53 | a logged entry raises its goal's saved total by its frozen amount, and no other total of any user |
| LedgerEffects.SplitIsStoredIff | apps/api/src/savings-entries/savings-entries.service.ts:61-116 | a split is stored whole if and only if its day, goals, amounts and rate all pass; otherwise nothing is, and the first reason is given |
| LedgerEffects.EntryIsEditedIff | apps/api/src/savings-entries/savings-entries.service.ts:145-174 | an own entry is replaced in place by exactly the named fields, refrozen at the latest rate where amount or currency is named, if and only if a new date is not later than today and any needed rate is there |
| LedgerEffects.EntryIsRemovedIff | apps/api/src/savings-entries/savings-entries.service.ts:176-179 | an entry is removed if and only if it is the user's own, and then it alone |
| LedgerEffects.RemovingLowersTheGoal | apps/api/src/savings-entries/savings-entries.service.ts:176-179 | removing an entry lowers its goal's saved total by its frozen amount, so logging and removing cancel out |
| LedgerEffects.GoalIsCreatedIff | apps/api/src/goals/goals.service.ts:33-49 | a goal is stored with its fields if and only if its target is positive and its deadline not past |
| LedgerEffects.GoalIsFoundIff | apps/api/src/goals/goals.service.ts:68-82 | a goal is found, with its progress over the sum of its entries, if and only if it is the user's |
| LedgerEffects.CreatedGoalIsFound | apps/api/src/goals/goals.service.ts:33-82 | a goal just created is found, with nothing saved on it |
| LedgerEffects.GoalIsEditedIff | apps/api/src/goals/goals.service.ts:84-101 | an own goal's named fields alone are replaced, if and only if a new target is positive and a new deadline not past, and the answer is what a later read finds |
| LedgerEffects.GoalIsRemovedIff | apps/api/src/goals/goals.service.ts:103-106 | a goal is removed if and only if it is the user's own; then it and every entry on it are gone, nothing else is, and it is no longer found |
| LedgerEffects.AllGoalsAreListed | apps/api/src/goals/goals.service.ts:51-66 | the list view shows exactly the user's goals, latest created first |
| LedgerInvariant.TwoDecimalRunsAreExact | apps/api/src/savings-entries/savings-entries.service.ts:24-179 | a run whose amounts all have at most two decimals keeps every pair exact |
| LedgerInvariant.YenPairIsWrong | apps/api/src/savings-entries/savings-entries.service.ts:102-111 | a yen split line breaks the law at every rate at which its amount's rounding is worth a hundredth of a dong, such as 0.005 yen at 170 |
| LedgerInvariant.YenFrozenAtStorableRatesIff | apps/api/src/savings-entries/savings-entries.service.ts:102-111 | a stored yen line obeys the law at every rate of eight decimals if and only if its amount has at most two decimals |
| LedgerInvariant.DongFrozenAtStorableRatesIff | apps/api/src/savings-entries/savings-entries.service.ts:102-111 | a stored dong line obeys it at every such rate if and only if rounding takes less than 0.00000000005 off the amount and adds nothing |
| LedgerService.LedgerTables.CreateGoal | apps/api/src/goals/goals.service.ts:33-49 | the new tables and reply are those of the goal-creating step |
| LedgerService.LedgerTables.UpdateGoal | apps/api/src/goals/goals.service.ts:84-101 | likewise for editing a goal |
| LedgerService.LedgerTables.RemoveGoal | apps/api/src/goals/goals.service.ts:103-106 | likewise for removing a goal with its entries |
| LedgerService.LedgerTables.CreateEntry | apps/api/src/savings-entries/savings-entries.service.ts:24-53 | likewise for logging an entry |
| LedgerService.LedgerTables.CreateSplit | apps/api/src/savings-entries/savings-entries.service.ts:61-116 | likewise for an atomic split |
| LedgerService.LedgerTables.SplitDatas | apps/api/src/savings-entries/savings-entries.service.ts:91-113 | the loop builds exactly the split's rows |
| LedgerService.LedgerTables.ListForGoal | apps/api/src/savings-entries/savings-entries.service.ts:118-143 | the page and cursor of the listing step, and no change |
| LedgerService.LedgerTables.UpdateEntry | apps/api/src/savings-entries/savings-entries.service.ts:145-174 | the tables and reply of the editing step |
| LedgerService.LedgerTables.RemoveEntry | apps/api/src/savings-entries/savings-entries.service.ts:176-179 | the tables and reply of the removing step |
| Noninterference.OthersAreUntouched | apps/api/src/savings-entries/savings-entries.service.ts:24-179 | no call changes what another user owns |
| Noninterference.CallSeesOnlyOwnRows | apps/api/src/goals/goals.service.ts:33-112 | reply and effect of a call depend only on the caller's own rows and the rate |
| Noninterference.RepliesSurviveErasure | apps/api/src/goals/goals.service.ts:33-112 | over any run a user's replies are the same with other users' calls erased |
| Pagination.ListedNewestFirst | apps/api/src/savings-entries/savings-entries.service.ts:131-136 | the listing order is later entry date first, then later creation |
| Pagination.StrictPagesAreExact | apps/api/src/savings-entries/savings-entries.service.ts:118-143 | without ties, following nextCursor ends and the pages are exactly the entries, newest first, for any limit from 1 |
| Pagination.ListingNeedsTheOwnGoal | apps/api/src/savings-entries/savings-entries.service.ts:118-125 | the listing call answers not-found if and only if the goal is not the user's, and writes nothing |
| Pagination.ListingWalksTheGoal | apps/api/src/savings-entries/savings-entries.service.ts:118-143 | in every consistent store, following nextCursor of the listing call through an own goal without ties ends, for any limit from 1, and shows each of the user's entries on it exactly once and nothing else, newest first |
| Pagination.PagesAreFull | apps/api/src/savings-entries/savings-entries.service.ts:118-143 | a page holds at most fifty rows and at most limit, and exactly so many if a next one follows |
| Pagination.TiedPagesCanMissARow | apps/api/src/savings-entries/savings-entries.service.ts:131-136 | for any entries with a tie some choice of tie order makes the walk with limit 1 end with all entries but one |
| Pagination.PagesExactIffStrict | apps/api/src/savings-entries/savings-entries.service.ts:118-143 | all limits and tie orders show every row once if and only if no two rows tie |
| Pagination.StandingRowsAreShownOnce | apps/api/src/savings-entries/savings-entries.service.ts:118-143 | with entries added, removed and edited between the pages, no ties and each cursor's row left at its place, a finished walk shows every entry that stood throughout exactly once |
| Pagination.StandingEntriesAreListedOnce | apps/api/src/savings-entries/savings-entries.service.ts:118-143 | the same for the listing calls of one user and goal over a store that changes between them |
| Pagination.MovedCursorEndsTheWalk | apps/api/src/savings-entries/savings-entries.service.ts:131-141 | if the first page's last row moves behind all others before the next page, the walk ends with that page |
| Totals.GroupedEqualsAggregate | apps/api/src/goals/goals.service.ts:54-63 | the one-pass grouped sums hold each goal's own aggregate |
| Totals.ListAndSingleViewAgree | apps/api/src/goals/goals.service.ts:51-82 | the list and the single view show the same progress |
| Totals.TotalsByCurrency | apps/api/src/goals/dashboard.service.ts:45-57 | the fold yields one exact bucket per occurring currency, in order of appearance, with counts adding up |
| Totals.BucketConservesEntries | apps/api/src/goals/dashboard.service.ts:45-57 | a bucket's saved amount is the sum of all the user's frozen amounts on goals of that currency |
| Totals.BucketConservesTargets | apps/api/src/goals/dashboard.service.ts:45-57 | a bucket's target amount and count are the sum of targets and the number of the user's goals of that currency |
| Totals.GetDashboardTotals | apps/api/src/goals/dashboard.service.ts:28-61 | both, for the dashboard of any consistent ledger, with counts adding up to the number of goals |
| Totals.SplitRaisesItsGoals | apps/api/src/savings-entries/savings-entries.service.ts:91-115 | an accepted split raises each goal's saved total by exactly its own frozen amount |
| Totals.SplitMovesNoOtherGoal | apps/api/src/savings-entries/savings-entries.service.ts:91-115 | and no other goal's, of any user |
| Tokens.TokenService.IssuePair | apps/api/src/auth/token.service.ts:46-67 | adds one live row for the user and changes no other |
| Tokens.TokenService.Rotate | apps/api/src/auth/token.service.ts:70-100 | the table and result of a serial rotation, in every refusal and in the reuse branch |
| Tokens.TokenService.Revoke | apps/api/src/auth/token.service.ts:103-115 | revokes the named row if it is live, otherwise nothing |
| Tokens.TokenService.RevokeAllForUser | apps/api/src/auth/token.service.ts:117-122 | revokes every live row of the user and touches no other |
| Tokens.RotationOutcomeIff | apps/api/src/auth/token.service.ts:70-92 | a rotation succeeds if and only if the row is known, unrevoked, not past its expiry and has the presented secret; each refusal has its exact reason, and only reuse and success write |
| Tokens.RotationMovesOneRow | apps/api/src/auth/token.service.ts:94-100 | a successful rotation revokes the presented row, adds one live row for the token's user, and changes no other |
| Tokens.ReuseRevokesOneUser | apps/api/src/auth/token.service.ts:78-83 | a reported reuse revokes every live row of that row's user and changes no other user's |
| Tokens.IssueAndRevocations | apps/api/src/auth/token.service.ts:46-122 | an issue adds one live row; a revocation revokes exactly the live row named, or all live rows of the user, and changes nothing else |
| Tokens.OtherUsersChangeNothing | apps/api/src/auth/token.service.ts:46-122 | over every serial run a user's rows stay exactly as they are unless an event names the user |
| Tokens.EveryRunKeepsOneLive | apps/api/src/auth/token.service.ts:46-122 | over every serial run each login's lineage has at most one unrevoked row |
| Tokens.RevocationIsForever | apps/api/src/auth/token.service.ts:94-121 | a revoked row keeps its revocation and never rotates again |
| Tokens.RowRotatesAtMostOnce | apps/api/src/auth/token.service.ts:70-100 | over every serial run each row rotates successfully at most once |
| Tokens.ReuseEndsEverySession | apps/api/src/auth/token.service.ts:78-83 | after a detected reuse no row the user had then ever rotates again |
| Tokens.EveryRunKeepsLineageUser | apps/api/src/auth/token.service.ts:69-100 | every row of a lineage belongs to the user who logged in |
| Tokens.LateCommitKeepsOneLiveIff | apps/api/src/auth/token.service.ts:70-100 | a write whose check is past keeps one live row per lineage if and only if no other row of it is live |
| Tokens.OverlappingRotationsFork | apps/api/src/auth/token.service.ts:70-100 | two rotations that both read before either writes leave two live rows |
| WebClient.ApiClient.Boot | apps/web/src/contexts/auth-context.tsx:79-99 | a page load starts empty and tries the stored token once |
| WebClient.ApiClient.SetTokens | apps/web/src/lib/api-client.ts:101-104 | sets or clears both tokens and nothing else |
| WebClient.ApiClient.SetRefreshTokenOnly | apps/web/src/lib/api-client.ts:107-110 | clears the access token and sets the refresh token |
| WebClient.ApiClient.PerformRefresh | apps/web/src/lib/api-client.ts:120-127 | posts the held token, or nothing without one |
| WebClient.ApiClient.AttemptRefresh | apps/web/src/lib/api-client.ts:138-145 | joins the open refresh, else opens one, else fails at once |
| WebClient.ApiClient.Send | apps/web/src/lib/api-client.ts:152-160 | a request goes out with the access token held then |
| WebClient.ApiClient.OnResponse | apps/web/src/lib/api-client.ts:160-171 | a first 401 leads to a refresh attempt, any other answer ends the request |
| WebClient.ApiClient.Resume | apps/web/src/lib/api-client.ts:163-169 | after the awaited refresh: retry, restore or expiry |
| WebClient.ApiClient.OnRefreshReply | apps/web/src/lib/api-client.ts:128-142 | the settling order: tokens, shared promise, every waiter |
| WebClient.ApiClient.Login | apps/web/src/contexts/auth-context.tsx:43-53 | holds the session and stores its refresh token if storage allows |
| WebClient.ApiClient.ClearLocalSession | apps/web/src/contexts/auth-context.tsx:55-64 | drops the tokens in memory and, if storage allows, the stored one |
| WebClient.RefreshWakesExactlyItsWaiters | apps/web/src/lib/api-client.ts:138-171 | a successful refresh retries exactly its waiters, once and with the new token; a failed one retries none and clears |
| WebClient.UnauthorizedAwaitsTheRefresh | apps/web/src/lib/api-client.ts:138-170 | a request that met its first 401 is put behind everyone awaiting the open refresh, or opens one with the token held; with neither the session is cleared; no other request moves |
| WebClient.UnauthorizedIsServed | apps/web/src/lib/api-client.ts:138-171 | in every run, however many others join and whoever logs in or out, such a request awaits its refresh until the reply, which retries it with the new access token or clears the session |
| WebClient.RefreshHoldsTheSession | apps/web/src/lib/api-client.ts:120-135 | a refresh that succeeds holds the new session, and stores it only if the restore at page load awaited it |
| WebClient.OtherAnswersEndTheRequest | apps/web/src/lib/api-client.ts:160-171 | every other answer ends its request and changes nothing else, so a retry is never retried again |
| WebClient.StoredLoginIsRestored | apps/web/src/contexts/auth-context.tsx:43-99 | a stored login is posted by the next page load, and its reply signs in, is stored, and is carried by later requests |
| WebClient.LoggedOutPageRestoresNothing | apps/web/src/contexts/auth-context.tsx:43-99 | after a stored logout the next page load restores nothing; where storage refuses, login and logout leave the stored token |
| WebClient.AtMostOneRefreshIsOpen | apps/web/src/lib/api-client.ts:137-145 | in every interleaving at most one refresh call is open, awaited by someone |
| WebClient.OnePageSendsEachTokenOnce | apps/web/src/lib/api-client.ts:94-178 | within one page life no refresh token is sent twice |
| WebClient.TokensAreSentOnceIff | apps/web/src/contexts/auth-context.tsx:43-99 | across page lives, none is sent twice if and only if every page load finds no token in storage or an unsent one |
| WebClient.ReloadAfterRefreshResends | apps/web/src/contexts/auth-context.tsx:85-99 | login, one refresh in memory and a reload send the first token twice |
| WebClient.LogoutLastsIffNoRefreshIsOpen | apps/web/src/contexts/auth-context.tsx:55-75 | after a logout no token is held until the next login or load, in every run, if and only if no refresh was open |
| RefreshSystem.ReadReportsIff | apps/api/src/auth/token.service.ts:70-92 | in every reachable state a read reports reuse if and only if the token verifies and its row was revoked by others, by an earlier report, or by another call with the same token, the later of the two posted by a page load that found it sent already; a verifiable token it does not report is accepted or expired |
| RefreshSystem.StepKeepsInv | apps/api/src/auth/token.service.ts:70-122 | every step of page, network, server and others keeps exactly which of the client's rows are revoked and why, and that only a page load sends a token twice; others may revoke any row |
| RefreshSystem.StepsTogetherRotate | apps/api/src/auth/token.service.ts:70-100 | the server's read, revocation and issue, taken one after the other, are one serial rotation with the same table and refusals |
| RefreshSystem.ReuseIsReportedIff | apps/api/src/auth/token.service.ts:70-100 | over every run, reuse is reported at all if and only if some verifiable posted token's row was revoked by others, or was spent by another call with the same token, the later posted by a page load that found it sent already |
| RefreshSystem.ReuseIsNeverDetected | apps/web/src/lib/api-client.ts:94-178 | so if nobody else revokes a row of this client and no page load finds a sent token, the reuse branch is never taken, whatever is delayed, lost or interleaved |
| RefreshSystem.BootReportsReuseIff | apps/api/src/auth/token.service.ts:78-83 | a load with a stored token makes the server report reuse if and only if that token's row is revoked, and then every row of the user, on any device, is revoked |
| RefreshSystem.RotatedTokenCanBeStored | apps/web/src/contexts/auth-context.tsx:43-53 | one login and one refresh reach a state in which such a load finds a rotated token |
| GoogleSignIn.UsersService.FindByGoogleId | apps/api/src/users/users.service.ts:37-39 | the row linked to the Google id, if any |
| GoogleSignIn.UsersService.FindByEmail | apps/api/src/users/users.service.ts:32-34 | the row with the email, if any |
| GoogleSignIn.UsersService.LinkGoogleId | apps/api/src/users/users.service.ts:41-47 | sets the link of one row and nothing else |
| GoogleSignIn.UsersService.CreateWithGoogle | apps/api/src/users/users.service.ts:49-58 | inserts exactly when neither unique column is taken |
| GoogleSignIn.UsersService.ResolveGoogleUser | apps/api/src/auth/auth.service.ts:82-116 | alone, it returns a row that is then linked to the account, changing or adding no other, and refuses, changing nothing, if and only if the account has no row and its email's row is linked to another |
| GoogleSignIn.AccessesAloneEndAsResolved | apps/api/src/auth/auth.service.ts:82-116 | the separate table accesses, with none in between, end after at most three with exactly that result and table: signed in to a row linked to the account, or refused if and only if the account has no row and its email's row is linked to another |
| GoogleSignIn.SigningInAgainChangesNothing | apps/api/src/auth/auth.service.ts:82-104 | a repeated sign-in returns the same user and writes nothing; no link, email or password hash is replaced |
| GoogleSignIn.AccessIsSound | apps/api/src/auth/auth.service.ts:82-116 | each single table access, for any accounts and any table with unique columns, keeps the columns unique, moves links only to accounts that own the row's email, and keeps what the sign-in knows at its stage |
| GoogleSignIn.SignInsAgree | apps/api/src/auth/auth.service.ts:82-116 | from any table with unique columns, for any accounts, shared emails included: in every interleaving no sign-in fails, all completed ones of an account return one user, at most one row is created for it |
| GoogleSignIn.PasswordsNeverChange | apps/api/src/users/users.service.ts:41-58 | in every interleaving, from any table, rows, emails and password hashes stay |
| GoogleLinks.LateAccessRespectsIff | apps/api/src/auth/auth.service.ts:99-112 | a late link or a retry by email replaces no link and returns no other account's row if and only if its row is by then unlinked or linked to the account |
| GoogleLinks.CheckedAccessRespects | apps/api/src/auth/auth.service.ts:87-103 | every other access replaces no link and returns no other account's row |
| GoogleLinks.StartingLinksStay | apps/api/src/auth/auth.service.ts:92-99 | in every interleaving, for any accounts, a link that stood before the first sign-in stays |
| GoogleLinks.SecondLinkReplaces | apps/api/src/auth/auth.service.ts:96-99 | of two accounts about to link one unlinked row, the second replaces the first one's link |
| GoogleLinks.RetryReturnsForeignRow | apps/api/src/auth/auth.service.ts:103-112 | of two accounts about to create a row for one email, the second is signed in to the row linked to the first |
| GoogleLinks.LinksAreNeverTakenIff | apps/api/src/auth/auth.service.ts:91-112 | no interleaving replaces a link or signs an account in to another's row if and only if no two accounts without a row share an email whose row is missing or unlinked |
| GoogleLinks.NeverRefusedIff | apps/api/src/auth/auth.service.ts:91-95 | no interleaving refuses a sign-in if and only if every account without a row has its email to itself: its row unlinked, and no other account without a row on it |
| RateAlerts.Evaluate | apps/api/src/exchange-rate/rate-alert-evaluator.service.ts:25-48 | the loop reports the firing alerts in list order |
| RateAlerts.FiredAreTheCrossed | apps/api/src/exchange-rate/rate-alert-evaluator.service.ts:33-45 | an id is reported exactly when an active alert with it failed its condition before and meets it now |
| RateAlerts.RateSnapshotScheduler.RunSnapshot | apps/api/src/exchange-rate/rate-snapshot.scheduler.ts:37-98 | the tables after one attempt, under every failure |
| RateAlerts.RateSnapshotScheduler.StampAll | apps/api/src/exchange-rate/rate-snapshot.scheduler.ts:84-91 | the independent updates stamp exactly the fired alerts whose update landed |
| RateAlerts.DayIsStoredIff | apps/api/src/exchange-rate/rate-snapshot.scheduler.ts:37-96 | over every run a day has a row if and only if some attempt of that day fetched a rate and its write did not fail, and there is one row a day |
| RateAlerts.FirstAttemptDecidesTheRate | apps/api/src/exchange-rate/rate-snapshot.scheduler.ts:39-79 | the first such attempt decides the day's rate, to within half of a hundred-millionth |
| RateAlerts.FiresIff | apps/api/src/exchange-rate/rate-snapshot.scheduler.ts:55-82 | an active alert fires if and only if the stored rates cross, the alerts were read and rounding did not reach the threshold first |
| RateAlerts.BetweenFiringsTheRateCrossesBack | apps/api/src/exchange-rate/rate-snapshot.scheduler.ts:37-91 | between two firings on one threshold a stored rate of a day in between lies strictly on its other side |
| RateAlerts.FiringDaysAreCrossingDaysIff | apps/api/src/exchange-rate/rate-snapshot.scheduler.ts:37-96 | over every run an always-active alert fires on exactly the stored crossing days if and only if no attempt that stored a crossing failed to read the alerts or had its fetched rate rounded onto the threshold |
| RateAlerts.EvaluatedRunsFireIff | apps/api/src/exchange-rate/rate-snapshot.scheduler.ts:37-91 | where no attempt fails to read the alerts, if and only if no stored crossing had its fetched rate rounded onto the threshold |
| RateAlerts.FailedReadIsNeverRetried | apps/api/src/exchange-rate/rate-snapshot.scheduler.ts:39-42 | once a day's row is written and its alerts were not read, no alert ever fires on that day and later attempts of the day change nothing |
| RateAlerts.GridRatesFireIff | apps/api/src/exchange-rate/rate-snapshot.scheduler.ts:69-96 | with fetched rates of at most eight decimals, if and only if no attempt that stored a crossing failed to read the alerts |
| RateAlerts.RoundingCanSwallowACrossing | apps/api/src/exchange-rate/rate-snapshot.scheduler.ts:75-82 | three rates that cross a threshold without a firing |
| ParseAmount.DotsAndCommasAreInterchangeable | apps/web/src/lib/parse-amount.ts:21-67 | exchanging all dots and commas of any input never changes the result |
| ParseAmount.PrintedAmountsReadBack | apps/web/src/lib/parse-amount.ts:21-67 | every amount with at most two fraction digits, grouped in either convention, with any magnitude word and white space, reads back exactly |
| ParseAmount.NumberIsReadIff | apps/web/src/lib/parse-amount.ts:36-67 | a run of digits and separators is a number if and only if it is not a lone separator and, with both separators, has a digit and its last separator once |
| ParseAmount.InputIsReadIff | apps/web/src/lib/parse-amount.ts:21-40 | an input is read if and only if it splits into such a number and a known word or none |
| ParseAmount.WordsIgnoreCase | apps/web/src/lib/parse-amount.ts:10-19 | the case of a magnitude word never matters |
| ParseAmount.MagnitudesInWords | apps/web/src/lib/parse-amount.ts:10-19 | the words for billions, millions, thousands, hundred millions and ten thousands in full; no other word is known |
| ParseAmount.CapturedIff | apps/web/src/lib/parse-amount.ts:21-27 | an input is captured as a number and a word if and only if it is white space, the number, white space, the word or nothing, and white space |
| ParseAmount.NumberIsWorth | apps/web/src/lib/parse-amount.ts:49-67 | every readable number is read as the digits before and after its decimal point, the last separator where both kinds occur or the only one before at most two digits, or else as all its digits |
| ParseAmount.InputIsWorth | apps/web/src/lib/parse-amount.ts:21-40 | every readable input is read as what its number is worth times what its word stands for |
| ParseAmount.PlainDecimalReadsBackIff | apps/web/src/lib/parse-amount.ts:59-64 | an ungrouped decimal reads back if and only if it has at most two fraction digits or is zero |

## Left out

- decimal.js keeps 40 significant digits at most and JavaScript numbers are IEEE floats; the model is exact. Number
  strings too large for a float, and the rounding of `days / 30.44` at exact multiples, differ.
- Database: only filtered reads, writes, unique columns, cascade and all-or-nothing writes are modelled. Calls on the
  ledger are serial; ids come from a growing counter. `localeCompare` of ids is a comparison of numbers.
- `listForGoal` with a cursor of another goal or a removed row, and with a negative limit. A limit of 0 with further
  rows is the internal error it leads to.
- Overlapping snapshot runs of two processes, where the loser's write fails on the unique day.
- The checks before `resolveGoogleUser`: sign-in configured, credential verified, email present and verified.
- The dashboard's recent entries, `rateAsOf`, display names, locale and theme, and JSON nulls in edit requests.
- A stored rate that rounds to zero, and rates at or below zero, which the provider client rejects.
- Password hashing, token signing and Google's verification of a credential are taken as exact; random ids and secrets
  as fresh.
- GoogleSignIn.SignInsAgree: each Google account has one verified email throughout a run.
- GoogleSignIn.Access: the final read by id is no step of its own, since users are never removed; a registration goes
  straight to its insert, which the unique column decides.
- Pagination.StandingRowsAreShownOnce: a walk whose rows keep changing need not end, and a removed cursor row is not
  modelled.
- BudgetLedger.EveryRunKeepsTargets: for targets with at most two decimals, which the endpoints check
  (apps/api/src/goals/dto/create-goal.dto.ts:15, apps/api/src/goals/dto/update-goal.dto.ts:16).
- The width of the number columns: amounts and rates may be of any size, only their scale is modelled.
- Logout revokes no row at the server: the client posts no body (apps/web/src/contexts/auth-context.tsx:68) while the
  endpoint requires a refresh token (apps/api/src/auth/dto/refresh.dto.ts:3-6), so a logout is a step of the page alone.
- Two tabs that share one local storage: what a second tab does to the user's rows is among the steps of others, its
  writes to storage are not.
- WebClient.Next: a reply and everything the page does in answer to it, before its next task, are one step.
- RateAlerts.BetweenFiringsTheRateCrossesBack: for a clock that never shows a day before one already stored; a failed
  read of the previous rate counts as a failed write.
- ParseAmount.ParseFlexibleAmount: works on characters as typed, without Unicode composition.
- HTTP retries, module wiring, request validation, the rate history, staleness, the cap on alerts and the user
  interface would add only easy members.
