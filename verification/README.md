# Clinic card to Google Sheet synchronisation, modelled in Dafny

The program reads patients, visits, payments and treatment plans from a
clinic-card API. It joins them into one aggregate per patient and sorts
the aggregates by patient code. It then brings a Google worksheet up to
date:

- every patient gets a row, found by full name or, when missing, inserted
  with no position given;
- an existing row gets its treatment-plan and visit-count cells updated;
- the per-day payment sums go into the day columns of the patient's row;
- after all patients, each day gets its number of paying patients in the
  count row.

Day columns are found from a half-year block label such as
"1 полугодие 2023" plus a calendar offset, and are remembered for the
rest of the run. The sheet client keeps four lookup caches. Its methods
are wrapped in a retry decorator and a sliding-window rate limiter.

The model has twelve modules:

- `Common`: `Option` and `Result`.
- `Decimal`: `str` and `int` of integers.
- `Calendar`: month lengths, the day offset inside a half-year block, and the block label.
- `OrderedMaps`: Python dicts with insertion order.
- `Entities`: the API records.
- `Joiner`: the pure part of the data join.
- `Report`: the values written for a patient: the new row, the plan and visit cells, per-day sums and per-day payer lists.
- `SheetClient`: the caching sheet client. The worksheet is an abstract state, reached only through an oracle `Remote<S>`, and every request the client sends is appended to a log.
- `Positions`: the memo table of day columns.
- `Sync`: the per-patient loop and the final count writes.
- `Retry`: the retry decorator.
- `RateLimit`: the rate limiter, with time as integer ticks.

## Model

| member | source | states |
|---|---|---|
| Calendar.DaysInMonth | app/__main__.py:55 | `monthrange(year, month)[1]`: 28 to 31 days; 29 exactly for February of a Gregorian leap year, 28 for any other February, 30 for April, June, September and November |
| Calendar.DaysInHalfYearUpTo | app/__main__.py:50-63 | the month loop returns, for every input, the closed form: each month of the half before the target month adds its days plus one, the target month adds `day + 1`, a month before the half's start gives 0, a day at or past `days + 1` is an error, and reaching month 13 is the calendar's illegal-month error |
| Calendar.MonthSpanGrows | app/__main__.py:54-61 | the columns taken by whole months never shrink as more months are included |
| Calendar.DayOffset | app/__main__.py:50-63 | a month before the half's first month gives offset 0; month 13 or later fails with the illegal-month error and a day past the month's last day with the day error, and nothing else fails; an accepted day of the half lies past column `day` |
| Calendar.FirstDayOffset | app/__main__.py:50-63 | month 1 with day 0 in the first half gives offset 1 |
| Calendar.MonthEndBoundary | app/__main__.py:55-58 | the last calendar day of a month (29 February of a leap year included) is accepted, and the day after it is rejected with the day error |
| Calendar.ValidDateHasOffset | app/__main__.py:50-63 | every real date of the half has an offset, and that offset is at least 2 |
| Calendar.OffsetStrictlyIncreasing | app/__main__.py:50-63 | within a half, accepted (month, day) pairs get strictly increasing offsets in calendar order |
| Calendar.HalfYear | app/__main__.py:66-68 | the half is 1 exactly when the month is at most 6, and otherwise 2 |
| Calendar.HalfYearLabel | app/__main__.py:71-74 | the label starts with the half digit `1` or `2`, then the fixed words, and is longer than both |
| Calendar.LabelDecodes | app/__main__.py:71-74 | the label is the half digit, then the fixed words, then text that parses back to the year |
| Calendar.LabelIdentifiesBlock | app/__main__.py:71-74 | two dates share a label exactly when they are in the same half of the same year |
| Decimal.NatToString | app/excel.py:65 | `str(n)` of a natural number: digits only, at least one, and no leading zero |
| Decimal.IntToString | app/excel.py:65 | `str(i)` is non-empty and starts with `-` exactly when `i` is negative |
| Decimal.ParseInt | app/clinics_card/entities.py:16 | `int(s)` succeeds exactly on an optional sign followed by at least one digit; a value parsed from text starting with `-` is at most 0, and from any other text at least 0 |
| Decimal.NatRoundTrip | app/excel.py:65 | the digits `str(n)` renders have the value `n` |
| Decimal.IntRoundTrip | app/excel.py:65 | `int(str(i)) == i` for every integer |
| Decimal.IntToStringInjective | app/excel.py:65 | different integers never render to the same cell text |
| OrderedMaps.PutKeyOrder | app/__main__.py:251-254 | storing under a key adds the key at the end of the dict's order when it is new, and keeps the order when it is present |
| OrderedMaps.KeyOrderMembers | app/__main__.py:251-254 | after a series of stores, the keys are exactly the old keys and the stored ones |
| OrderedMaps.KeyOrderDistinct | app/__main__.py:251-254 | a series of stores never lists a key twice |
| OrderedMaps.KeyOrderPrefix | app/__main__.py:251-254 | later stores only add keys after the ones already there |
| OrderedMaps.KeyOrderAppend | app/__main__.py:251-254 | two series of stores in turn order the keys as the one combined series does |
| OrderedMaps.KeyOrderFollowsFirstAssignment | app/__main__.py:251-254 | a key first stored after another key was stored comes after it in the dict's order |
| Entities.NewPatient | app/clinics_card/entities.py:47-61 | a new patient has no row, no plan, and empty payment, visit and invoice lists; its id, code and plan id are the given ones |
| Entities.PaymentHash | app/clinics_card/entities.py:15-16 | an empty id has no hash; an id of digits hashes to the value of those digits; a `-` id hashes to a non-positive value |
| Entities.PaymentHashOfCanonicalId | app/clinics_card/entities.py:15-16 | a payment whose id is the text of `k` hashes to `k`, whatever its other fields |
| Entities.FullName | app/__main__.py:225 | the name is the last name, one space, then the first name |
| Joiner.PlanMapKeys | app/__main__.py:116 | the plan map's keys are exactly the ids of the fetched plans |
| Joiner.PlanMapLastWins | app/__main__.py:116 | the plan stored under an id is the last fetched plan with that id |
| Joiner.PlanMap | app/__main__.py:116 | every plan in the map is stored under its own id |
| Joiner.PatientIndex | app/__main__.py:118-122 | the patient map's keys are the patient ids in order of first appearance: a repeated id keeps its first place |
| Joiner.PatientIndexKeys | app/__main__.py:118-122 | the patient map has exactly one key per distinct patient id, and the value under a key carries that id |
| Joiner.PatientIndexIds | app/__main__.py:118-122 | the value under each key of the patient map carries that key as its id |
| Joiner.PatientIndexOnlyGivenIds | app/__main__.py:118-122 | every key of the patient map is the id of some fetched patient |
| Joiner.PatientIndexHasEveryId | app/__main__.py:118-122 | every fetched patient's id is a key of the patient map |
| Joiner.PatientIndexLastWins | app/__main__.py:118-122 | the value under an id is the last fetched patient with that id, with `main_plans` set to the plan whose id is its `main_plans_id`, or none |
| Joiner.AttachVisits | app/__main__.py:124-129 | attaching visits keeps the patient map's keys and their order |
| Joiner.AttachVisitsAppendsOwn | app/__main__.py:124-129 | each indexed patient gains exactly the visits whose patient id is its id, appended in input order; its other fields are unchanged; visits of unknown patients go nowhere |
| Joiner.AttachPayments | app/__main__.py:131-136 | attaching payments keeps the patient map's keys and their order |
| Joiner.AttachPaymentsAppendsOwn | app/__main__.py:131-136 | each indexed patient gains exactly the payments whose patient id is its id, appended in input order; its other fields are unchanged; payments of unknown patients go nowhere |
| Joiner.InsertByCode | app/__main__.py:139 | inserting into a list sorted by code keeps it sorted, and the result is the list plus the new element, as a multiset |
| Joiner.SortByCode | app/__main__.py:139 | the sorted list is ordered by `int(code)` and is a permutation of its input |
| Joiner.PermutationKeepsDistinctIds | app/__main__.py:138-139 | reordering patients with distinct ids keeps their ids distinct |
| Joiner.FirstInvalidCode | app/__main__.py:139 | reports no bad code exactly when every code parses as an integer; a reported code is one that does not parse |
| Joiner.JoinedIndexFacts | app/__main__.py:116-136 | after the three loops, each id holds the aggregate of the last patient with that id: its plan, its own visits and its own payments |
| Joiner.JoinedIndex | app/__main__.py:116-136 | after the visit and payment loops the keys, and their order of first appearance, are those of the patient map |
| Joiner.JoinPatients | app/__main__.py:116-139 | the join succeeds exactly when the code of every surviving patient parses; the result is sorted by code, has distinct ids, and holds exactly the aggregates of the last patient of each id |
| Joiner.JoinedValuesFacts | app/__main__.py:138 | the map's values are exactly the aggregates of the last patients, with distinct ids |
| Joiner.ValuesDistinct | app/__main__.py:138 | the values of a map whose entries carry their own keys as ids have distinct ids |
| Joiner.ValuesAreAggregates | app/__main__.py:116-138 | every value of the joined map is the aggregate of some last patient |
| Joiner.AggregatesAreValues | app/__main__.py:116-138 | the aggregate of every last patient is a value of the joined map |
| Joiner.CodesParseIff | app/__main__.py:139 | the values' codes all parse exactly when the last patients' codes all parse, so the sort fails only on a surviving patient's code |
| Report.VisitedCountAppend | app/__main__.py:147 | the count of attended visits adds up over concatenated visit lists |
| Report.VisitedCountBounds | app/__main__.py:147-148 | the count is at most the number of visits; it is zero exactly when no visit has status `VISITED`, and all of them exactly when every visit has it |
| Report.VisitedCount | app/__main__.py:147 | the count of attended visits is at most the number of visits |
| Report.VisitsCountCell | app/__main__.py:179-189 | the visit-count cell is the attended count when it is not zero, and blank when it is |
| Report.TreatmentPlanCell | app/__main__.py:166-176 | the plan cell is the plan's discounted total when there is one, and blank when there is no plan or no total |
| Report.InsertRowValues | app/__main__.py:144-163 | a new patient's row has ten cells: blanks at 0, 1, 7 and 8; the "last first" name at 2, the code at 3, the curator at 4; the first visit's doctor at 5, or blank if there are no visits; the attended-visit count at 6, that count whenever it is not zero and blank exactly when it is zero; the discounted plan total at 9, that total whenever the plan has one and blank exactly when there is no plan or no total |
| Report.InsertedRowMatchesUpdates | app/__main__.py:166-189 | a new row holds in the visit-count and plan columns exactly what an existing row's two cell updates write there |
| Report.PaymentSumsByDay | app/__main__.py:243-256 | the sum table's keys are exactly the dates of payments on or after `CURRENT_DATE`, and each key holds the sum of the amounts of every payment of that day |
| Report.DaySumAbsent | app/__main__.py:243-256 | a day on or after the cutoff with no qualifying payment sums to zero, so earlier payments contribute nothing |
| Report.PaymentSums | app/__main__.py:243-256 | the sum table is a well-formed ordered dict, and no key is before the cutoff |
| Report.PaymentSumsKeyOrder | app/__main__.py:243-256 | the sum table's keys are the qualifying payment dates in the order of each day's first qualifying payment |
| Report.AddPayer | app/__main__.py:267-271 | recording a payer adds the date at the end of the keys when it is new and keeps the order otherwise; the patient is then listed under the date |
| Report.CountPayments | app/__main__.py:263-271 | the payment loop keeps every old date and adds only dates on or after the cutoff |
| Report.CountPaymentsKeyOrder | app/__main__.py:263-271 | the payment loop's new dates follow the old ones, in the order of each day's first qualifying payment |
| Report.InsertPaymentCount | app/__main__.py:259-273 | recording a patient keeps every old date and adds only dates on or after the cutoff |
| Report.PaymentCountsKeyOrder | app/__main__.py:259-273 | after all patients, the payer table's keys are the paid days in the order each was first paid, over the patients' qualifying payments taken in turn |
| Report.AddPayerEffect | app/__main__.py:267-271 | recording a payer on a date creates the date's list if needed and appends the patient unless it is already listed; no other list changes |
| Report.CountPaymentsEffect | app/__main__.py:259-273 | after the loop, the dates are the old ones plus those of the patient's qualifying payments; each such date's list gains the patient at its end unless it was already there; every other list is unchanged |
| Report.InsertPaymentCountKeepsListsDistinct | app/__main__.py:270-271 | no date's list ever holds the same patient twice |
| Report.CountPaymentsFixedPoint | app/__main__.py:263-271 | if the patient is already listed under every qualifying date, the loop changes nothing |
| Report.InsertPaymentCountIdempotent | app/__main__.py:259-273 | recording the same patient a second time changes nothing |
| Report.PayersAreFromPatients | app/__main__.py:308-327 | every patient counted as a payer of a day is one of the patients processed |
| Report.PaymentCountsArePayers | app/__main__.py:259-273 | for distinct patients, the list under each date is exactly the patients who paid that day, in processing order, and is never empty; every qualifying date of every patient is listed |
| Report.NoPayersWithoutEntry | app/__main__.py:267-271 | a date missing from the table has no payer |
| Report.NoQualifyingNoPayers | app/__main__.py:263-265 | a date on which no patient has a qualifying payment has no payer |
| SheetClient.NewClient | app/excel.py:16-20 | a new client starts with four empty caches and has sent nothing |
| SheetClient.Truthy | app/excel.py:86-89 | an optional column or position counts as given only when it is present and non-zero |
| SheetClient.Find | app/excel.py:81-96 | a cached `(value, in_column)` key answers with the stored `(col, row)` and sends nothing; otherwise exactly one search is sent; a hit is cached under the key; a miss is an error and leaves the find cache unchanged |
| SheetClient.FindLast | app/excel.py:98-111 | cached under `"last_" + value`; a miss sends exactly one `findall`, and the answer is its last match, which is cached; no match is an error and nothing is cached |
| SheetClient.WriteRow | app/excel.py:32-43 | one row insertion, at the position only when it is truthy; the row and cell caches are emptied in both branches; the column and find caches are kept |
| SheetClient.GetColumnValues | app/excel.py:45-51 | the first column is read remotely only when key 1 is not cached, and is then cached under key 1 |
| SheetClient.GetRowValues | app/excel.py:53-58 | a row is read remotely only when it is not cached, and is then cached |
| SheetClient.ClearCache | app/excel.py:113-118 | all four caches are emptied and nothing is sent |
| SheetClient.UpdateElementAt | app/__main__.py:170-174 | a single-cell write is one request to the sheet and changes no cache |
| SheetClient.Sent | app/excel.py:63-66 | the batch holds one cell per update, in input order, with the value converted by `str` |
| SheetClient.Str | app/excel.py:65 | `str(value)` of a text is the text itself, and of an integer is text that `int` parses back to it |
| SheetClient.CellsAfterLastWins | app/excel.py:68-70 | recording updates adds exactly their addresses to the cell cache, keeps the last value written to each address, and leaves every other cached cell alone |
| SheetClient.UpdateCells | app/excel.py:60-79 | exactly one batch request carrying every update; the cell cache holds the raw value of the last update to each address; no updated row is left in the row cache and no updated column in the column cache; other entries and the find cache are kept; a coherent cell cache stays coherent |
| SheetClient.FindMemoised | app/excel.py:83-96 | a second `find` of a key the first one resolved gives the same answer and sends nothing |
| SheetClient.FindMissNotCached | app/excel.py:91-94 | after a miss, asking again searches the sheet again |
| SheetClient.WriteRowKeepsFindHits | app/excel.py:32-43 | a position cached before a row insertion is still answered from the cache afterwards, though the insertion may have moved the cell |
| SheetClient.LastKeysDisjoint | app/excel.py:100-101 | `find_last` keys never equal `find` keys, and distinct values give distinct `find_last` keys |
| SheetClient.RowValuesMemoised | app/excel.py:53-58 | a second read of the same row returns the same list and sends nothing |
| SheetClient.ColumnValuesMemoised | app/excel.py:45-51 | a second column read returns the same list and sends nothing |
| SheetClient.LastInBatchOfSent | app/excel.py:62-79 | within one batch, the text an address ends with is the one its last update sent; an address the batch does not write gets nothing |
| SheetClient.LastWrittenAfterBatch | app/excel.py:79 | after a batch, an address it writes shows the batch's text, and any other address shows what was sent before |
| SheetClient.UpdateCellsKeepsCellCacheCoherent | app/excel.py:60-79 | after `update_cells`, every cached cell still shows, through `str`, the text the sheet was last sent for it |
| SheetClient.OtherMethodsKeepCellCacheCoherent | app/excel.py:32-118 | `find`, `find_last`, the row and column reads, `write_row` and `clear_cache` keep every cached cell equal to what the sheet was last sent for it |
| SheetClient.FindKeepsCoherence | app/excel.py:81-96 | `find` keeps every cached cell equal to what the sheet was last sent for it |
| SheetClient.FindLastKeepsCoherence | app/excel.py:98-111 | `find_last` keeps every cached cell equal to what the sheet was last sent for it |
| SheetClient.RowValuesKeepCoherence | app/excel.py:53-58 | a row read keeps every cached cell equal to what the sheet was last sent for it |
| SheetClient.ColumnValuesKeepCoherence | app/excel.py:45-51 | a column read keeps every cached cell equal to what the sheet was last sent for it |
| Positions.PaymentDatePosition | app/__main__.py:77-90 | a remembered date answers from the table and sends nothing; otherwise the block label is searched; the lookup succeeds exactly when the label is found and the day has an offset; a found column is in header row 3 and is added to the table, and a failure leaves the table unchanged |
| Positions.PaymentDatePositionColumn | app/__main__.py:81-87 | a searched column is the anchor's column plus the day offset less one |
| Positions.PaymentDatePositionRecords | app/__main__.py:88-90 | the table only gains entries, and a found column is stored for its date |
| Positions.ConsistentUnderExtension | app/__main__.py:77-90 | stored columns stay consistent with their anchors while the find cache only grows |
| Positions.AddConsistentEntry | app/__main__.py:87-88 | storing a date at its anchor's column plus its offset less one keeps the table consistent and overwrites nothing |
| Positions.PaymentDatePositionKeepsConsistent | app/__main__.py:77-90 | every stored column stays equal to its block anchor's column plus its offset less one; the table only gains entries; a found column is stored |
| Positions.PaymentDatePositionRequests | app/__main__.py:78-81 | a lookup sends at most one request, a search for the block label, and changes nothing of the client except adding to the find cache |
| Positions.PaymentDatePositionGrowsCache | app/__main__.py:81 | a lookup only ever adds to the client's find cache |
| Positions.FindExtendsCache | app/excel.py:85-94 | a search only ever adds to the find cache |
| Positions.FindRemembers | app/excel.py:91-92 | a successful search leaves its answer in the find cache |
| Positions.ColumnsFollowCalendar | app/__main__.py:82-87 | within one half-year block, an earlier day is always left of a later day, so no two days share a column |
| Positions.ValidDateOnlyMissesLabel | app/__main__.py:81-86 | for a real calendar date, the only possible failure is a missing block label |
| Positions.PaymentDatePositionMemoised | app/__main__.py:78-90 | asking again for a resolved date gives the same column, sends nothing and changes nothing |
| Sync.Initial | app/__main__.py:300-306 | the run starts with a fresh client, no known columns, no payers and no patients handled |
| Sync.PlaceRow | app/__main__.py:217-234 | a row found for the patient is the one the client now remembers for the patient's full name, and the find cache only grows |
| Sync.RowPosition | app/__main__.py:217-234 | a remembered name answers with its cached row and sends nothing; otherwise one search, and the patient gets a row exactly when the sheet has the name, namely that cell's row |
| Sync.PlaceRowRequests | app/__main__.py:309-320 | a remembered or found name gets exactly the plan-cell and visit-cell writes at its row; a name not found gets one inserted row, at no given position, holding the patient's values and then a second search, whose answer decides the row |
| Sync.WriteByDateKnownDates | app/__main__.py:287-294 | when every date's column is known, the loop cannot fail, sends no search, sends exactly one write per date in order, and changes no cache |
| Sync.WriteByDateStep | app/__main__.py:197-207 | a successful loop is a successful loop over all dates but the last, then one column lookup and one write |
| Sync.WriteByDateResolves | app/__main__.py:197-200 | after a successful loop every date's column is known, and no known column changed |
| Sync.WriteByDateKeepsConsistent | app/__main__.py:197-200 | the loop only adds to the find cache and keeps every known column consistent with its anchor |
| Sync.PaymentDatePositionSendsNoWrite | app/__main__.py:77-90 | a column lookup sends no write |
| Sync.WriteByDateWrites | app/__main__.py:192-214 | the writes a successful loop sends are exactly one per date, in order, each of the date's value at the date's column in the given row; everything else it sends is a block search |
| Sync.WriteByDate | app/__main__.py:192-214 | the loop fails only on one of the dates it was given |
| Sync.SyncPatient | app/__main__.py:308-327 | one iteration keeps the payer table well formed |
| Sync.Run | app/__main__.py:308-327 | the patient loop keeps the payer table well formed |
| Sync.PayerCounts | app/__main__.py:287-288 | each date's written count is the length of its payer list |
| Sync.WriteCounts | app/__main__.py:283-296 | the count phase fails only on one of the table's dates; when every date's column is known it cannot fail, keeps the column table, and sends exactly one write per date, in key order |
| Sync.InitialInvariant | app/__main__.py:306 | the loop invariant holds before the first patient |
| Sync.SyncPatientStep | app/__main__.py:308-327 | a successful iteration is: place the row, run a successful write loop over the patient's paid days, record the patient (with its row) as a payer, and append it to the handled patients |
| Sync.SyncPatientInvariant | app/__main__.py:308-327 | an iteration keeps the invariant: the payer table is the one built from the patients handled so far, every paid date has a known column, and the known columns agree with the client's cached anchors |
| Sync.InvariantAfterPatient | app/__main__.py:322-327 | the invariant holds again once the patient is recorded and the columns of its paid days are known and consistent |
| Sync.RunInvariant | app/__main__.py:308-327 | the invariant holds after any successful run of the patient loop |
| Sync.RunHandlesEveryPatient | app/__main__.py:308-327 | a run through the loop handles every patient in order, with or without visits, and changes nothing of a patient but its row |
| Sync.SyncPatientAppendsDone | app/__main__.py:308-327 | a successful iteration appends its patient, with only the row changed, after the ones before |
| Sync.StampedKeepsDistinct | app/__main__.py:270 | setting the rows of patients with distinct ids keeps them pairwise different and keeps their payments |
| Sync.PayersDependOnPaymentsOnly | app/__main__.py:263-271 | whether a patient counts as a payer depends only on its payments |
| Sync.RunCountsPayers | app/__main__.py:306-327 | for patients with distinct ids, a successful run counts under each day exactly the number of patients who paid that day, at least one, and lists every paid day of every patient |
| Sync.SynchroniseWritesPayerCounts | app/__main__.py:283-296 | after a successful patient loop the count phase cannot fail: it sends no search and exactly one write per paid day, in the order of the payer table's keys (see Sync.RunCountOrder), of that day's number of payers into row 4 at that day's column |
| Sync.Synchronise | app/__main__.py:299-327 | the whole run succeeds exactly when the patient loop does, and a failure is the loop's own error: the count phase never fails after it |
| Sync.PaidDaysDependOnPaymentsOnly | app/__main__.py:263-265 | which days a list of patients paid on depends only on their payments |
| Sync.RunCountOrder | app/__main__.py:283-296 | after a successful patient loop, the count phase visits the paid days in the order each was first paid, over the patients in processing order and their payments in list order |
| Retry.RetryRequest | app/utils.py:12-28 | at most `retries` attempts; every attempt but the last failed with status 500, 503 or 409; a return value ends the run with that value; another API status is re-raised at once; any other exception propagates at once; "max retries exceeded" exactly when every allowed attempt failed transiently, immediately when `retries` is 0; each transient failure, the last included, is followed by one sleep of `delay`; a negative `delay` makes that first sleep raise, so the call ends after one transient failure with the sleep's error, and "max retries exceeded" then needs `retries` to be 0 |
| RateLimit.NewLimiter | app/utils.py:31-33 | a decorator application gets its own empty window, and a negative bound is refused |
| RateLimit.Expired | app/utils.py:41-42 | the loop drops exactly the leading timestamps that are at least `per_seconds` old, and stops at the first younger one |
| RateLimit.Prune | app/utils.py:41-42 | pruning never makes the window longer |
| RateLimit.PruneLeavesRecent | app/utils.py:41-42 | for a window in time order, every timestamp left after pruning is younger than `per_seconds` |
| RateLimit.Append | app/utils.py:33 | appending to a bounded deque keeps it within `max_requests` and puts the new timestamp last |
| RateLimit.Admit | app/utils.py:39-49 | a call fails only for a zero bound; otherwise the sleep is non-negative, the stored timestamp is the clock after the sleep, and the window is the pruned window with that timestamp appended, still within the bound |
| RateLimit.AdmitSleepsOnlyWhenFull | app/utils.py:44-47 | a call sleeps only when the pruned window is full, and then exactly until the oldest entry is `per_seconds` old; a call into a full window is never stamped earlier than that |
| RateLimit.AdmitKeepsInvariant | app/utils.py:37-51 | every admitted call keeps the limiter invariant: the window holds the most recent timestamps, every dropped timestamp had expired or fell out of the bounded deque, timestamps stay in order, and any `max_requests + 1` consecutive calls span at least `per_seconds` |
| RateLimit.ExtendKeepsPaced | app/utils.py:39-49 | each timestamp is the previous one plus the time between calls plus the call's own sleep |
| RateLimit.CallSeries | app/utils.py:31-55 | with a positive bound no call is refused; the timestamps are in order; each timestamp is the previous one plus the gap plus its sleep; no more than `max_requests` calls start within any `per_seconds` ticks |
| RateLimit.NewThrottles | app/excel.py:32-100 | each decorated client method has its own limiter with the default 60 calls per 60 seconds and an empty window |
| RateLimit.AdmitCall | app/utils.py:31-33 | a call to one method goes through that method's limiter only; every other window is untouched |

## Left out

- The HTTP adapters that fetch patients, visits, payments, plans and invoices are not part of this model; the join takes their record lists as inputs. Payment dates are taken as whole days, because the adapter zeroes the time of day.
- The configuration loader, the gspread and OAuth client construction, and the real behaviour of the sheet's `find`, `findall`, `insert_row`, `update_cells`, `row_values` and `col_values` are left out. The worksheet is an abstract state behind the `Remote<S>` oracle.
- The rate limiter's `threading.Lock` is left out: the program is single-threaded.
- Wall-clock time is whole integer ticks, and `time.sleep` sleeps exactly as asked. The time between calls is an input (`gaps`).
- `int(float(amount))` and `int(float(plan_total_with_discount))` are left out. Amounts are integers already truncated toward zero, and an empty plan total is `None`.
- Decimal.ParseInt: accepts only an optional sign followed by ASCII digits, not the surrounding whitespace, the digit-group underscores or the non-ASCII Unicode decimal digits (such as Arabic-Indic digits) that Python's `int` also accepts.
- Logging, `main`, `get_current_date_iso_string` and `get_day_month_string` are left out. They do not affect the sheet.
- `get_payment_count_position` and `get_month_name` are left out, because nothing calls them. `find_last` is modelled on its own.
- Joiner.SortByCode: states that the result is sorted and a permutation, not that Python's sort is stable. The join gives every patient a distinct id, but two patients can still share a code.
- The retry and rate-limit wrappers are modelled on their own and are not composed into the synchronisation. The sync model sees each client method as succeeding or failing once, with no retries.
- SheetClient.UpdateElementAt: the client class defines no `update_element_at`, so only the request is modelled: one single-cell write that changes no cache. Its effect on the sheet is the oracle's.
- When a column lookup fails, the run stops with an error that keeps only the failing date and the lookup failure. The sheet changes already made before the failure are not reported by the model.
- Sync.SyncPatient: its own contract states only that the payer table stays well formed. What an iteration does is stated by Sync.SyncPatientStep, Sync.SyncPatientAppendsDone and Sync.SyncPatientInvariant.
- Sync.Run: its own contract states only that the payer table stays well formed. What the loop does is stated by Sync.RunInvariant, Sync.RunHandlesEveryPatient and Sync.RunCountsPayers.
- Invoices are carried in the patient record but are never fetched or joined; the model does the same.
- The code behaves as follows, and the model follows it:
  - a day is rejected only when `day > monthrange(year, month)[1]`, so the last day of the month (and day 0) is accepted;
  - patients with no visits are not skipped;
  - a patient's row is found by the full name "last first", not by the code column.
