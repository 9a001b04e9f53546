# Personal-data masking service: a verified model

The service masks personal data in texts and later restores it. This project
models its four connected layers and the load generator's pair scenarios in
Dafny, and proves what they guarantee.

- **Masking** (`Bytes`, `Sorting`, `Markers`, `Ranges`, `Restore`, `Masker`,
  `RoundTrip`, `SafePrefixes`). Go strings are byte sequences. Ranges are sorted
  and merged in place, fresh markers are allocated past the numbers that already
  occur in the text, and `Restore` is one pass that looks ahead from a `[` to the
  next `]`, possibly across a gap into an inserted marker. Main results:
  `RestoreUndoesMask`, `RoundTripsExactlyForSafePrefixes`, `SubstitutionIsUnique`,
  `RestorationIsDetected`.
- **The correspondence store** (`ExpiryQueue`, `Totals`, `StoreCore`,
  `StoreInvariant`, `Draining`, `Memory`, `StoreSteps`, `StoreProtocol`,
  `StoreHistory`, `StoreObserver`, `StoreSafety`, `Waiting`, `StoreFailures`,
  `PlainMap`, `Handouts`). `StoreCore` says what each critical section does to the state under the mutex. The classes
  `ExpiryQueue` and `Memory` are proved to do exactly that, with the heap, the
  index and the counters updated in place. `StoreSteps` is a transition system of
  any number of threads in which every critical section is one atomic step, the
  observer is told later, waits may end at any time by timeout or cancellation, and
  the clock never goes back; the remaining modules prove what holds in all its
  reachable states.
- **Recognition** (`Utf8`, `Resolve`, `ResolveFacts`, `ResolveTypes`, `Scan`, `Luhn`,
  `Digits`, `DigitLaws`, `Fields`, `Labeled`). UTF-8 is the syntax of sections 3 and 4 of RFC 3629. The
  result of resolving overlaps, digit spans, the field-bounded context window, and
  the translation of offsets through a lowered copy of the text.
- **The application** (`Pipeline`, `PipelineFacts`, `AppSteps`, `AppProtocol`,
  `AppEffects`, `AppSafety`, `AppScopes`, `AppRuns`, `AppFreshness`, `AppRefusals`,
  `AppProgress`, `StaleAnswers`, `Service`). `Pipeline` builds the content of a correspondence;
  `Service` is the class over two stores, one call at a time; `AppSteps` interleaves
  any number of `Process`, `Mask` and `Restore` calls on one store, with the threads
  of `StoreSteps` as their store operations; the other modules prove what every run
  keeps, how old an answer may be, why a call is refused, and that every call can end. A managed
  service has two such stores that share nothing, one that only `Process` uses and
  one that only `Mask` and `Restore` use; an unmanaged one has a single store.
- **The load generator** (`Pairs`, `Scenario`). The life of a pair as an abstract
  machine with its run-level bounds, and the sequential and mask-dominant scenarios
  as classes whose every method is one event of that machine.

Results of the recognizers, texts, clock readings, random draws and the moment at
which a wait ends are parameters or nondeterministic choices.

A refusal named `Panics` stands for slicing the stored original out of range; it is
proved to be unreachable (`RefusalsAreHonest`).

Conventions: `None` stands for an error or an absent value; a property that needs
a marker prefix asks for `SafePrefix`, which every bracket-free prefix meets
(`BracketFreePrefixIsSafe`) and which is exactly what the round trip needs.

## Where the code and its documentation differ

- A prefix is only checked to be non-empty (`internal/config/config.go:272`), while
  the round trip promised by the masker holds exactly for safe prefixes
  (`RoundTripsExactlyForSafePrefixes`).
- An expired record that has not been evicted yet can be extended by
  `MarkRestored`, which does not test expiry; `LateTransitionHappens` gives such a
  run. `TransitionAgreesExactly` says that for `Get` this is the only difference
  between the store and a map of timestamped records, and `GetFindsTheLiveVersion`
  says what a read finds in all runs.
- `Create` can also hand out an expired record: a waiter takes over what its creator
  published, and nothing tests the deadline again. `WaitedAnswerIsStaleExactly` and
  `HandedOverIsStaleExactly` say when that is so: exactly if the wait began while the
  creator stood between publishing a record and `finishInflight`, and that record had
  expired by then. `StaleMaskIsAnswered` gives a run of two equal calls in which the
  second one is answered with a mask that nobody can restore any more. All other
  answers rest on a version that was live during the call
  (`EveryAnswerIsJustifiedInTime`).
- `findDictRanges` says it returns every whole-word occurrence. That holds of a value
  if and only if the value does not start again inside itself right after a
  character that is no letter (`AllRangesAreFoundExactly`). The value "a a" does start
  again that way, and of every such value a word is missed (`RestartHasNoRange`); no
  value of the built-in dictionary does (`internal/recognizer/citizenship.go:11-25`).
  For an empty value the loop would not end, so values are required to be non-empty.
- `ResolveWithPriority` says that identical ranges collapse to one, so that no byte is
  replaced twice. Empty ranges do not collapse (`EmptiesAreNotMerged`); all others do
  (`ResolvedTypesAreExact`).
- `Swap`, `Push` and `Pop` of the queue are the source's; sifting up and down and
  removing at an index follow the documented algorithm of `container/heap`.

## Model

| member | source | states |
|---|---|---|
| Decimal.ValueOfPrint | internal/masker/masker.go:139-175 | printing a marker number and parsing it back are inverse, so distinct numbers have distinct markers |
| Markers.UsedMarkers | internal/masker/masker.go:153-175 | the scan loop collects exactly the numbers of the scan function `UsedFrom` |
| Markers.ScanFindsMarker | internal/masker/masker.go:153-175 | for an unbordered opening the scan misses no marker that occurs in the text, however it is nested in other text |
| Markers.UsedIsBounded | internal/masker/masker.go:153-175 | the scan finds no more numbers than the text has bytes, each within the range of `int` |
| Markers.UsedExactly | internal/masker/masker.go:153-175 | for an unbordered opening the numbers in use are exactly those of the digits that stand in the text between the opening and a closing bracket, leading zeros or not, as far as they fit an `int` |
| Markers.NextMarker | internal/masker/masker.go:139-148 | the marker of the least free number at or after `start`; the number is recorded as used, and nothing else is |
| Markers.NextFreeIsSmall | internal/masker/masker.go:139-148 | allocation ends: with all numbers below `next` used, the next free one is at most the count of used numbers |
| Markers.MarkersSuffixFree | internal/masker/masker.go:139-148 | no marker ends another one with a different number |
| Markers.BracketFreePrefixIsSafe | internal/masker/masker.go:35-37 | a prefix without brackets is safe |
| Ranges.MergeRanges | internal/masker/masker.go:178-198 | the sort and the in-place compaction compute `Merged` without overwriting a range still to be read |
| Ranges.MergedRanges | internal/masker/masker.go:178-198 | merged ranges are in bounds, ordered with a gap between them, cover exactly the bytes covered before, and every range, empty or not, lies in one of them, and each begins with a given range |
| Masking.Mask | internal/masker/masker.go:43-67 | the builder loop produces the table of `TableOf` and the text with each range replaced by its marker |
| Masking.Stars | internal/masker/masker.go:74-90 | the same with the fixed run of asterisks |
| RoundTrip.MarkersAreFresh | internal/masker/masker.go:43-67 | for a safe prefix the markers of a mask are pairwise distinct, none ends another, and none occurs in the text |
| RoundTrip.AllocationIsBounded | internal/masker/masker.go:43-67 | for any prefix: one marker per merged range, numbers strictly increasing, unused in the text, and below the count of used numbers plus the count of ranges |
| RoundTrip.RestoreUndoesMask | internal/masker/masker.go:43-133 | `Restore(Mask(text, ranges)) == text` for every text and every list of in-bounds ranges, unsorted, overlapping, touching or empty |
| RoundTrip.MaskChangesText | internal/masker/masker.go:43-67 | masking changes the text exactly when there is a range |
| RoundTrip.RestorationIsDetected | internal/masker/masker.go:102-133 | with the table of a mask, `Restore` changes an input, whatever it is, exactly when one of the table's own markers occurs in it |
| SafePrefixes.RoundTripsExactlyForSafePrefixes | internal/masker/masker.go:43-133 | the round trip holds for a prefix on all texts and ranges if and only if the prefix has no `]` and "[prefix_" does not overlap itself |
| SafePrefixes.ClosingBracketBreaks | internal/masker/masker.go:102-133 | with a `]` in the prefix already the empty text with one empty range does not come back |
| SafePrefixes.BorderedBreaks | internal/masker/masker.go:153-175 | with a bordered opening there is a text no longer than 2·\|prefix\|+7 bytes that does not come back |
| Restoring.Restore | internal/masker/masker.go:102-133 | the method computes `Substitute` with the first entry of every marker |
| Restoring.Pass | internal/masker/masker.go:115-132 | the index loop with its lookahead to the next `]` computes `Substitute` |
| Restoring.BuildLookup | internal/masker/masker.go:106-111 | the lookup knows exactly the markers of the table, and for each the original of its first entry |
| Restoring.SubstitutesEveryOccurrence | internal/masker/masker.go:102-133 | around any occurrence of a table marker the result is the results of the two sides with the original between them, not scanned again |
| Restoring.SubstituteWithoutMarkers | internal/masker/masker.go:102-133 | a text without table markers is left alone, whatever brackets it holds |
| Restoring.SubstitutionIsUnique | internal/masker/masker.go:102-133 | these two laws determine the result: the pass is simultaneous substitution of all occurrences |
| Restoring.DetectsRestoration | internal/masker/masker.go:102-133 | a pass whose originals hold no table marker changes its input exactly when a table marker occurs in it |
| Expiry.ExpiryQueue.Swap | internal/store/store.go:201-205 | swaps two nodes and keeps the index inverse |
| Expiry.ExpiryQueue.Append | internal/store/store.go:206-210 | appends a node and its index entry |
| Expiry.ExpiryQueue.TakeLast | internal/store/store.go:211-219 | removes and returns the last node and its index entry |
| Expiry.ExpiryQueue.Up | internal/store/store.go:188-219 | sifting up restores heap order and moves nothing outside the heap |
| Expiry.ExpiryQueue.Down | internal/store/store.go:188-219 | sifting down restores heap order below, and says whether it moved |
| Expiry.ExpiryQueue.Push | internal/store/store.go:206-210 | heap order and index are kept; the deadlines gain exactly the new one |
| Expiry.ExpiryQueue.Pop | internal/store/store.go:211-219 | returns the root and removes exactly its deadline |
| Expiry.ExpiryQueue.Remove | internal/store/store.go:224-230 | removes exactly the node of this key, if there is one |
| Expiry.ExpiryQueue.RootIsMinimum | internal/store/store.go:188-200 | no deadline is earlier than the root's |
| MemoryStore.Memory.Get | internal/store/store.go:312-348 | the class method does what the pure critical section says: only the requested key is checked and evicted if expired |
| MemoryStore.Memory.EvictLocked | internal/store/store.go:724-731 | record, bytes and queue node go together |
| MemoryStore.Memory.DrainExpired | internal/store/store.go:691-720 | removes a batch of expired records only, earliest first, and all of them unless the batch is full with a thousand; the two skipping branches of the source cannot be reached |
| MemoryStore.Memory.DrainAll | internal/store/store.go:668-678 | the loop ends; exactly the records expired at its last clock reading are gone and no other changed |
| MemoryStore.Memory.TryCreate | internal/store/store.go:365-427 | the first critical section of `Create`: retry, existing, wait, refused, or creator with a reservation |
| MemoryStore.Memory.BecomeCreator | internal/store/store.go:403-427 | link, drain, reserve; on refusal the link is gone and nothing is reserved |
| StoreInvariant.ReservationIsRefusedExactly | internal/store/store.go:472-482 | a reservation is refused exactly when taking it would break the accounts or the shared budget, and for the entry limit exactly when every slot is stored or reserved |
| StoreInvariant.PublishingIsRefusedExactly | internal/store/store.go:489-497 | a built record is refused exactly when it is larger than a record may be or storing it in place of its reservation would break the accounts or the shared budget |
| MemoryStore.Memory.ReleaseReservation | internal/store/store.go:502-508 | unlinks the reservation if it is the linked one and returns its amounts |
| MemoryStore.Memory.FailInflight | internal/store/store.go:556-563 | releases the reservation and leaves the error for the waiters |
| MemoryStore.Memory.FinishInflight | internal/store/store.go:569-578 | unlinks the reservation and leaves the outcome for the waiters |
| MemoryStore.Memory.WaitInflight | internal/store/store.go:516-543 | a waiter gets the record its creator left, tries again only after the creator's own context ended it, or gives up with the creator's error, its own context's, or, with a timer, the busy error |
| MemoryStore.Memory.Publish | internal/store/store.go:439-460 | the second critical section of `Create`: drain, stamp, and replace the reservation by the record, or release it |
| MemoryStore.Memory.MarkRestored | internal/store/store.go:589-613 | a record of exactly this version in its pending phase moves to the replay phase with its queue node; otherwise nothing changes |
| StoreInvariant.BeginKeeps | internal/store/store.go:361-427 | the first section keeps all accounts: bytes, reserves, budget, one queue node per record at its phase deadline, versions |
| StoreInvariant.PublishKeeps | internal/store/store.go:439-460 | so does the second one, whichever way it ends |
| StoreInvariant.ReleasedKeeps | internal/store/store.go:502-508 | releasing takes exactly one reservation out of the accounts |
| StoreInvariant.MarkRestoredKeeps | internal/store/store.go:589-613 | the transition keeps the accounts |
| StoreInvariant.DrainedKeeps | internal/store/store.go:691-720 | draining keeps the accounts |
| StoreInvariant.EntryRefusalFindsNothingExpired | internal/store/store.go:412-482 | `Create` refuses for the entry limit only when no stored record is expired at that clock reading, although a drain is limited to one batch |
| StoreInvariant.SizesAreCharged | internal/store/store.go:143-166 | a record is charged 128 bytes, its key, its two texts, and 32 bytes and the marker for every slot; the minimum asked for beforehand never exceeds that; a reservation adds 64 |
| StoreSafety.AccountsAreExact | internal/store/store.go:361-578 | in every reachable state: bytes are the sum of the stored sizes, the reserves are the sum and the count of one reservation per building thread, the shared budget holds, and with no builder both reserves are zero |
| StoreSafety.OneBuilderPerKey | internal/store/store.go:383-427 | at most one thread builds a key, and then no record is stored under it |
| StoreSafety.NoLostWakeup | internal/store/store.go:516-578 | a waiter waits for a thread of its own key that will still close the reservation, or it can wake |
| StoreSafety.WaiterReturnsCreatorsResult | internal/store/store.go:516-543 | a woken waiter returns precisely its creator's record or error, and never a context error |
| Waiting.WaitersShareTheOutcome | internal/store/store.go:375-543 | however a run goes on, a waiter that is not cancelled and does not time out still waits, or has returned the very record or persistent error its creator left, or the creator was cancelled by its own context; so after a persistent failure no waiter builds again |
| StoreFailures.FailuresHaveCauses | internal/store/store.go:361-578 | over every run, a `Create` has failed with an error exactly if it was refused for a full budget, timed out or was cancelled itself, or the creator whose outcome it got built too large a record or failed to build with that error; full and too large are said of the stored sizes and the limits |
| StoreSafety.CellsStep | internal/store/store.go:556-578 | a reservation's channel is closed once and its outcome never changes |
| StoreSafety.StoredRecordsArePublished | internal/store/store.go:341-460 | a stored record is the one published under its version and key, with the deadline of its phase; versions are unique |
| StoreSafety.VersionsAreSettled | internal/store/store.go:452-613 | along any run the record of a version keeps its content and creation time, and its transition time once it has one, so it has at most two deadlines |
| StoreSafety.OneTransitionPerVersion | internal/store/store.go:589-613 | at most one call ever makes the transition of a version |
| StoreSafety.MarkTouchesOnlyItsVersion | internal/store/store.go:589-613 | a `MarkRestored` step, however late, leaves every other published version as it was, and every stored record of another version with its deadline |
| StoreSafety.TransitionsNameTheirVersion | internal/store/store.go:589-613 | over any run the transition of a version was made by exactly one call, which named that version and the key it was published under |
| StoreSafety.GetFindsTheLiveVersion | internal/store/store.go:312-348 | in all runs a read, now or at any later time, finds a record if and only if it is a version of the key, in its present phase, whose deadline lies ahead |
| StoreSafety.LifetimesAreExact | internal/store/store.go:312-348 | the same said without deadlines: unmarked and younger than the lifetime, or marked more recently than the replay lifetime, or no lifetime at all |
| StoreSafety.NoReplayNoTransition | internal/store/store.go:589-613 | without a replay lifetime no version ever makes a transition |
| StoreSafety.OneLiveVersionPerKey | internal/store/store.go:361-460 | two versions of one key are never live together |
| StoreSafety.ObserverIsExact | internal/store/store.go:739-797 | with nothing undelivered: per phase, added minus removed is the number of stored records and the byte deltas are their size; pending removals are expiries and transitions |
| StoreObserver.ConservedStep | internal/store/store.go:589-797 | every step keeps the account of told and still owed events |
| StoreProtocol.ProtocolStep | internal/store/store.go:361-578 | every step keeps the reservation protocol |
| StoreHistory.HistoryStep | internal/store/store.go:341-613 | every step keeps all records seen anywhere equal to published versions, and history only grows |
| StoreSafety.RunKeeps | internal/store/store.go:361-720 | all invariants hold after every run |
| StoreSafety.CleanupEndsClean | internal/store/store.go:668-678 | a cleanup goes on after a batch exactly as long as something stored had expired |
| PlainMap.ReadsLikePlainMap | internal/store/store.go:312-348 | unless a transition hit an expired record, every read, now and at any later time, answers as a plain map of timestamped records does |
| PlainMap.PlainMapSteps | internal/store/store.go:312-720 | as long as no transition hits an expired record, the plain map, in which lookups agree with `Get`, changes by publishing and marking only, never by draining or eviction |
| PlainMap.TransitionAgreesExactly | internal/store/store.go:589-613 | a transition keeps store and plain map in agreement at all later times if and only if it does not hit an expired record |
| PlainMap.LateTransitionHappens | internal/store/store.go:589-613 | under any limits that let one record in, a run in which a call reads a live record and marks it at its deadline, after which the store hands out a record the plain map knows to have expired |
| Handouts.OwnHandoutsAreLive | internal/store/store.go:312-464 | every record a thread reads or publishes itself is live at that moment; any other one it gets by waking from a wait, and then it is the outcome of the creator it waited for |
| Handouts.WaitedAnswerIsStaleExactly | internal/store/store.go:383-543 | a `Create` that waits is answered, however the run goes on, with a record that had expired when the wait began if and only if the creator had published that record by then, had not finished, and the record had expired |
| Handouts.StaleAnswerHappens | internal/store/store.go:383-543 | under any limits with a lifetime that let one record in, a run without a late transition in which a waiter is given a record that had expired before its wait began, is stored no more and is not in the plain map |
| Resolving.ResolveWithPriority | internal/recognizer/recognizer.go:103-158 | validation, sort and sweep compute `Resolve`; an invalid fragment is an error |
| Resolving.SweepInPlace | internal/recognizer/recognizer.go:127-157 | the sweep through the shared array computes `Sweep` without overwriting unread fragments |
| ResolveFacts.SameStartNeverLonger | internal/recognizer/recognizer.go:142-147 | the branch for a longer fragment with the same start can never fire |
| ResolveFacts.ResolveCoversExactly | internal/recognizer/recognizer.go:96-158 | fails exactly if some fragment is inverted, out of bounds or no valid UTF-8; otherwise ordered disjoint slices of valid UTF-8 that cover exactly the union of the input bytes |
| ResolveFacts.ResolveIgnoresOrder | internal/recognizer/recognizer.go:96-158 | the result does not depend on the order of the fragments, for any priority function |
| ResolveFacts.ResolveIsIdempotent | internal/recognizer/recognizer.go:96-158 | resolving a result again changes nothing |
| ResolveTypes.ResolvedTypesAreExact | internal/recognizer/recognizer.go:96-158 | an empty resolved fragment is one of the input; any other one has the type of the fragment that, of all inside it that reach further than what starts before them, has the highest priority, then the earliest start, then the smallest type name |
| ResolveTypes.ResolvedTypeIsHighest | internal/recognizer/recognizer.go:96-158 | the longest fragments at the start of a non-empty resolved one have no higher priority; and if they have its very range, it is one of them, of highest priority and within that of smallest name |
| ResolveTypes.EmptiesAreExact | internal/recognizer/recognizer.go:127-158 | an empty fragment stays exactly as often as it is given if no fragment goes beyond the place where it stands, and not at all otherwise |
| ResolveTypes.ResolvedAreConnected | internal/recognizer/recognizer.go:127-158 | inside a resolved fragment there is no place that no input fragment goes across: fragments that only touch stay apart |
| ResolveTypes.EmptiesAreNotMerged | internal/recognizer/recognizer.go:136-140 | two empty fragments at one place both stay, the one of lower priority too |
| ResolveTypes.NamesAreOrdered | internal/recognizer/recognizer.go:123 | type names are compared like Go strings: a proper prefix first, otherwise the first difference decides |
| Utf8.ValidUnion | internal/recognizer/recognizer.go:103-158 | the union of two overlapping valid slices is valid |
| Utf8.CharsAreEncodings | internal/recognizer/recognizer.go:103-115 | the characters that make a slice valid are exactly the encodings of the Unicode scalar values |
| Scanning.ScanSpans | internal/recognizer/scan.go:21-50 | the nested loops compute `Spans` |
| Scanning.ScanRun | internal/recognizer/scan.go:35-48 | the inner loop: first digit, last digit and digits of one run |
| Scanning.SpansAreMaximal | internal/recognizer/scan.go:16-50 | the spans are exactly the maximal runs with a digit, cut to their first and last digit, in order; every digit lies in one |
| Scanning.DigitsAreKept | internal/recognizer/scan.go:35-48 | the digits of a span are all digits of its run, in order |
| Scanning.FieldBounds | internal/recognizer/scan.go:117-127 | the two loops find the bounds of the field |
| Scanning.SnapToRuneStart | internal/recognizer/scan.go:96-101 | the next rune start at or after the offset, or the end |
| Scanning.SnapToRuneEnd | internal/recognizer/scan.go:105-110 | the last rune start at or before the offset, or either end |
| Scanning.WindowHoldsSpan | internal/recognizer/scan.go:134-153 | snapping never crosses over the span, so the window is always a slice |
| Scanning.HasContext | internal/recognizer/scan.go:134-153 | true exactly if some keyword stands in the window |
| Checksum.Luhn | internal/recognizer/card.go:33-48 | the backward loop computes the weighted digit sum of Annex B of ISO/IEC 7812-1 |
| Checksum.ChecksByPairs | internal/recognizer/card.go:33-48 | the check is that of the standard, read two digits at a time from the right: the last digit of each pair as it is, the digit sum of the doubled one before it |
| Checksum.TwoDigitsCheck | internal/recognizer/card.go:33-48 | two digits check exactly if the digits of twice the first one and the second one sum to a multiple of ten |
| Checksum.EvenBlockIsNeutral | internal/recognizer/card.go:33-48 | appending an even number of digits that check changes nothing |
| Checksum.LeadingZeroIsNeutral | internal/recognizer/card.go:33-48 | a leading zero changes nothing |
| Checksum.SingleChangeIsDetected | internal/recognizer/card.go:33-48 | changing any one digit of a valid number makes it invalid |
| Checksum.SwapIsDetectedUnlessZeroNine | internal/recognizer/card.go:33-48 | swapping two different adjacent digits of a valid number goes undetected exactly when they are 0 and 9 |
| DigitRecognizers.ValidINN | internal/recognizer/inn.go:33-44 | the weighted check of 10 and 12 digits |
| DigitRecognizers.InnCheck | internal/recognizer/inn.go:46-52 | the loop computes the weighted sum modulo 11 modulo 10 |
| DigitRecognizers.FindContextSigned | internal/recognizer/scan.go:76-92 | the fragments of the spans the rule accepts, in order |
| DigitRecognizers.FindCards | internal/recognizer/card.go:14-31 | 13 to 19 digits that pass the check or are signed, unless a negative word is near |
| DigitRecognizers.FindINNs | internal/recognizer/inn.go:14-31 | 10 or 12 digits that pass the check or are signed, unless a negative word is near |
| DigitRecognizers.FindPhones | internal/recognizer/phone.go:18-45 | 11 digits: +7, 8, or a signed 7; a leading plus sign belongs to the fragment |
| DigitRecognizers.FindDepartmentCodes | internal/recognizer/department.go:16-35 | six digits with a hyphen and a context word |
| DigitLaws.TenDigitsCheck | internal/recognizer/inn.go:33-52 | ten digits pass exactly if the sum with the weights 2, 4, 10, 3, 5, 9, 4, 6, 8, modulo 11 and 10, is the last |
| DigitLaws.TwelveDigitsCheck | internal/recognizer/inn.go:33-52 | twelve digits pass exactly if both check digits agree with their weighted sums |
| DigitLaws.SlipIsDetected | internal/recognizer/inn.go:33-52 | changing one digit of a valid tax number is detected, unless its check digits are zero and the changed digit is none of them |
| DigitLaws.WindowIsWidest | internal/recognizer/scan.go:96-153 | the window is the widest slice around the span that begins and ends at a character, reaches at most 60 bytes from the span and crosses no semicolon, newline or carriage return |
| DigitLaws.CardsAreExact | internal/recognizer/card.go:14-31 | the fragments are exactly the spans of 13 to 19 digits that pass the check or have a keyword near, without a negative word near |
| DigitLaws.TaxNumbersAreExact | internal/recognizer/inn.go:14-31 | exactly the spans whose digits pass the check, or of 10 or 12 digits with a keyword near, without a negative word near |
| DigitLaws.DepartmentCodesAreExact | internal/recognizer/department.go:16-35 | exactly the spans of six digits and a hyphen with a keyword and no negative word near |
| DigitLaws.SignedNumbersAreExact | internal/recognizer/scan.go:76-92 | exactly the spans of this many digits with a keyword and no negative word near |
| DigitLaws.PhonesAreExact | internal/recognizer/phone.go:18-45 | exactly the spans of eleven digits that begin with 7 after a plus sign, or with 8, or with 7 and a keyword near, without a negative word near; the plus sign belongs to the fragment |
| DigitLaws.FoundFromLeftToRight | internal/recognizer/scan.go:76-92 | every rule finds its fragments from left to right, inside the text and without overlap |
| Fields.SpansSplit | internal/recognizer/scan.go:21-50 | no span crosses a byte that cannot stand in one |
| Fields.WindowLeft | internal/recognizer/scan.go:117-153 | the window of a span in the first field is the one it has in that field alone |
| Fields.WindowRight | internal/recognizer/scan.go:117-153 | so is the window of a span in the second field |
| Fields.FieldsAreIndependent | internal/recognizer/scan.go:112-153 | recognizing `a`, a delimiter and `b` gives what `a` alone gives and then, moved, what `b` alone gives, valid UTF-8 or not, the plus sign of phones included |
| Fields.RecognizesFieldByField | internal/recognizer/scan.go:112-153 | the same for any number of fields |
| Fields.BuiltInRulesAreFieldBound | internal/recognizer/scan.go:76-127 | the rules of the service meet the condition of the two results above: none of their structural characters ends a field |
| Labels.LowerWithMap | internal/recognizer/labeled.go:23-39 | the loop computes the lowered text and an offset for each of its bytes and its end |
| Labels.LowersInPieces | internal/recognizer/labeled.go:23-39 | lowering goes character by character, and byte by byte where none begins, and every lowered byte has the offset of its character |
| Labels.OffsetsAreMonotone | internal/recognizer/labeled.go:23-39 | the offsets never decrease and lie within the text |
| Labels.TranslationIsExact | internal/recognizer/labeled.go:16-39 | two offsets of the lowered text that cut no character go back to decode boundaries of the text, and the slice between those lowers to exactly the slice of the lowered text |
| Labels.FindDictRanges | internal/recognizer/labeled.go:101-119 | the loops compute the ranges of all passed whole words of all values |
| Labels.FindLabelMatches | internal/recognizer/labeled.go:44-63 | the offsets in the text just after each label that the same search finds |
| Labels.DictRangesAreExact | internal/recognizer/labeled.go:101-119 | every returned range lies on decode boundaries and lowers, character by character, to a dictionary value that is a whole word there, whatever lowering does to widths |
| Labels.FoundHasRange | internal/recognizer/labeled.go:101-119 | every whole word the search finds has its range in the result |
| Labels.AllWordsAreFoundExactly | internal/recognizer/labeled.go:98-119 | for a valid value: every whole word of it is found in every valid text if and only if the value does not start again inside itself right after a character that is no letter |
| Labels.WholeWordIsFound | internal/recognizer/labeled.go:98-119 | for such a value the search finds every whole word in any text, valid or not |
| Labels.EveryWholeWordHasRange | internal/recognizer/labeled.go:98-119 | so `findDictRanges` returns the range of every whole word of such a value |
| Labels.RestartHasNoRange | internal/recognizer/labeled.go:98-119 | for any other value that lowering leaves as it is, the value up to where it starts again followed by the value is a text with a whole word whose range is not in the result, whatever the other values are |
| Labels.AllRangesAreFoundExactly | internal/recognizer/labeled.go:98-119 | so `findDictRanges` returns the range of every whole word of a lowered dictionary value, on all texts, if and only if that value does not start again in this way |
| Labels.LastWordIndex | internal/recognizer/labeled.go:123-137 | the last whole word that the search finds, or -1 |
| Pipeline.Gather | internal/app/app.go:375-383 | gathering stops at the first recognizer that fails |
| Pipeline.ToRanges | internal/app/app.go:388-393 | the loop drops the types |
| Pipeline.ToStoreTable | internal/app/app.go:454-460 | the loop reduces a table to offsets |
| Pipeline.FromStoreTable | internal/app/app.go:462-468 | the loop cuts the originals out of the stored original |
| Pipeline.Build | internal/app/app.go:375-431 | recognition, resolution, masking and reduction of the table, failing on any error |
| PipelineFacts.RebuiltLookup | internal/app/app.go:454-468 | reducing a table to offsets and rebuilding it loses nothing that `Restore` reads |
| PipelineFacts.BuildFailsClosed | internal/app/app.go:371-431 | building fails exactly if a recognizer fails or some fragment is inverted, out of bounds or no valid UTF-8, and then yields no text |
| PipelineFacts.BuildReplacesExactly | internal/app/app.go:375-431 | the mask is the stored markers, each where its slot lies, between the gaps the slots leave in the original; the gaps are, in order, the bytes no fragment covers, and the slots cover exactly the covered bytes |
| PipelineFacts.BuiltMaskRestores | internal/app/app.go:375-468 | in the marker format the stored mask restores exactly through the rebuilt table, and it differs from the original exactly when a fragment was found |
| PipelineFacts.BuiltRestorationIsDetected | internal/app/app.go:343-355 | restoring any text from the stored record changes it exactly when it holds a stored marker |
| PipelineFacts.BuiltIsSliceable | internal/app/app.go:462-468 | no slice of the stored original is ever out of range |
| PipelineFacts.BuiltFollowsPolicy | internal/app/app.go:375-431 | the content keeps the text and has the format of the policy; its markers are of the form "[prefix_n]", or four asterisks |
| AppSteps.NewManaged | internal/app/app.go:144-179 | succeeds exactly if all types are known and no name is "process" or has a colon; the result knows exactly the given names, each with its last consumer |
| AppScopes.KeysAreInjective | internal/app/app.go:158-163 | `name:id` is injective for names without a colon |
| AppScopes.KeysSeparateConsumers | internal/app/app.go:158-163 | two served calls use one record exactly if they have the same identifier and are both `Process` calls or both of the same consumer |
| Serving.Service.Process | internal/app/app.go:208-255 | one call alone: it fails exactly for the cause `why`, which holds in the state it leaves (no room, too large a record, a failed build, a creator of its key that it waited for, or cancellation) and determines the refusal; otherwise the answer is the decision for the record now stored under the key, live when the call began or built from this text, and the record is marked exactly if the decision says so; other keys only lose expired records, and all reservations stay as they are |
| Serving.Service.Mask | internal/app/app.go:261-310 | refused for access exactly for the first of the conditions that fails: a known consumer, enabled, with masking enabled; otherwise the same as `Process` with the consumer's own policy |
| Serving.Service.Restore | internal/app/app.go:317-356 | refused for access exactly for the first of the conditions that fails: a known consumer, enabled, with the right to restore; otherwise not found exactly if no live record is under its key, and never for capacity, as busy or with an error of `Create`; or answered by the decision for that record, which is marked exactly if the decision says so |
| Serving.Service.Create | internal/app/app.go:438-452 | whatever the outcome, cancellation included, the reservation is given back, other keys only lose expired records, the call stores a record exactly on success, and a failure has its cause and the error of that cause |
| AppRefusals.OnlyPermittedCallsAct | internal/app/app.go:261-369 | in every interleaved run a call runs a store operation, makes or marks a version, is under way or is answered with anything but an access refusal only if it is a `Process` call, or its consumer is known and enabled, with masking enabled for `Mask` and the right to restore for `Restore` |
| AppRefusals.AccessRefusalsAreExact | internal/app/app.go:261-369 | a call is refused as an unknown or disabled consumer, or for disabled masking or forbidden restoring, exactly if that is the first of the conditions it fails |
| AppRefusals.RefusalsHaveTheirReason | internal/app/app.go:208-452 | over every run: not found exactly if a restoring call's lookup found nothing; capacity exactly if the call had no room or the record it was to be given was too large; busy exactly if its own wait timed out; another error exactly if it was cancelled or the build it depended on failed with that error |
| AppRefusals.ConflictsAreExact | internal/app/app.go:236-345 | a call is answered Conflict exactly if it rests on a record and its text is neither the original nor the mask, or, restoring without markers, not the mask |
| AppProtocol.AdvanceKeeps | internal/app/app.go:208-356 | a call that goes on keeps every call justified by a published version of its key |
| AppProtocol.PublishKeeps | internal/app/app.go:216-227 | a version is built by the creating call from its own text |
| AppSafety.RunKeeps | internal/app/app.go:208-356 | the invariants of store and calls hold after every interleaved run |
| AppRuns.RunIsSteps | internal/app/app.go:208-356 | every interleaved run of calls is a run of the store, step by step |
| AppRuns.ReachedIsReachable | internal/app/app.go:208-356 | so everything proved of the reachable states of the store holds of it under the application |
| AppFreshness.NothingIsAhead | internal/store/store.go:438-613 | no version is published or makes its transition later than the clock says |
| AppFreshness.AnswersAreFreshUnlessHandedOver | internal/app/app.go:208-356 | however a run goes on after a call has entered, the record it acts on was live, in the very phase in which the call saw it, at some time since then, unless the call waited for another creator that gave it the record |
| AppFreshness.HandedOverIsStaleExactly | internal/app/app.go:208-356 | a call that waited for a creator answers from just the record it was given, and this had expired when the wait began if and only if the creator had published it by then, had not finished, and the record had expired |
| AppFreshness.EveryAnswerIsJustifiedInTime | internal/app/app.go:208-356 | every successful answer in every interleaved run rests on one version of the call's own key, built by an admitted call: original to mask, mask to exact original, or substitution of that version's markers; a call that reports a new mask has made the version itself; and the version was live during the call or handed over by a creator it waited for |
| StaleAnswers.StaleMaskIsAnswered | internal/app/app.go:208-255 | for every text that can be masked: two equal calls and a run in which the record of the first one expires and is evicted before the second one enters, which is still answered with its mask, although nothing is stored any more |
| AppSafety.MakersAnswerTheirMask | internal/app/app.go:214-235 | a call that made a version is still creating it or has been answered with its mask as a new one; a call that is refused, conflicts, repeats or restores made none |
| AppSafety.VersionsFollowTheirPolicy | internal/app/app.go:208-310 | the versions of `Process` are built with markers and the service's own priority, those of a consumer with the policy and the format configured for it |
| AppSafety.MaskThenRestoreIsExact | internal/app/app.go:208-356 | a call that gives back the mask another call was answered with, and looks its key up before the deadline of that version, is answered with exactly the original, however the run goes on; that is the text of the masking call if it created the mask or presented the original |
| AppSafety.RefusalsAreHonest | internal/app/app.go:248-355 | no restore panics, a refused call never marks a record, and a conflict rests on a genuine version of the key |
| AppSafety.OnlyGenuineRestoresTransition | internal/app/app.go:242-353 | a version makes its transition only for an admitted call of its key that presents its mask (and the mask differs from the original) or, when restoring, one of its markers; `Mask` never causes one |
| AppSafety.GenuineRestoresMark | internal/app/app.go:242-353 | a call answered with a restoration has called `MarkRestored` for the very version it rests on, and the call has returned, exactly if it presented the mask (different from the original) or one of its markers; the version then is in its replay phase, unless it expired while pending or there is no replay phase |
| AppScopes.ScopesAreIsolated | internal/app/app.go:144-356 | no move of a call adds or changes a record of another scope or identifier; the most it does there is remove an expired one |
| AppScopes.BuildersAreCharged | internal/app/app.go:216-227 | while a call builds, the store holds for it 128 bytes, its key, its text and 64 more |
| AppScopes.ConflictsChangeNothing | internal/app/app.go:252-254 | the move that answers Conflict leaves the store exactly as it is, and the call has published no version and marked none |
| AppScopes.CallsNeverStick | internal/app/app.go:208-356 | until a call has answered, its own thread or the creator it waits for can move, without timeout, cancellation or new requests; a building thread can end its build with any recognizer results, successes included |
| AppProgress.EveryCallCanEnd | internal/app/app.go:208-356 | from every reachable state, whatever the recognizers find, at most twelve moves answer the call, without cancellation, timeout, new requests or the passing of time |
| AppScopes.BuildCanEnd | internal/app/app.go:214-227 | whatever the recognizers return, a batch to drain exists with which the build can end at once |
| AppScopes.AdvanceGoesOn | internal/app/app.go:208-356 | a call whose store operation has returned answers or starts its next operation |
| Pairs.PairIDsAreDistinct | internal/loadgen/scenario.go:647-667 | pairs of one run have distinct identifiers |
| Pairs.NextIsExact | internal/loadgen/scenario.go:194-531 | what may happen next, from the events so far: pairs begin in turn; a mask that is out is completed once; a masked pair not yet restored is restored again exactly when all attempts have failed and the budget has more; a restore that is out is completed once |
| Pairs.StepsAreBounded | internal/loadgen/scenario.go:194-531 | a run over `total` pairs issues at most total·(1 + budget) steps |
| Pairs.RestoresAreBounded | internal/loadgen/scenario.go:194-531 | no pair is restored more often than its budget |
| Pairs.RestoreFollowsMask | internal/loadgen/scenario.go:194-531 | no restore precedes the pair's successful mask |
| Pairs.OneRestoreAtATime | internal/loadgen/scenario.go:194-531 | between two restores of a pair the first one has failed, so at most one is outstanding |
| Scenarios.Sequential.Next | internal/loadgen/scenario.go:194-253 | one pass of the loop is one event of the pair machine: a restore is offered exactly if a pair is pending and the restore delay of the first one has passed since its mask came, and then for that pair with the mask and text on record; a first pair that is not ready goes to the end of the queue; otherwise a new pair while there is one; it reports exhaustion only when no masked pair is left |
| Scenarios.Sequential.Complete | internal/loadgen/scenario.go:277-313 | one event of the pair machine: a mask is recorded with the time it came and its pair becomes the last pending one, a failed restore is requeued within the budget, and nothing is kept of a pair that is done with |
| Pairs.OverForever | internal/loadgen/scenario.go:317-323 | a pair that has been dropped is never restored again |
| Scenarios.MaskDominant.Next | internal/loadgen/scenario.go:386-424 | one event of the pair machine, whatever the random draws: a restore only if the draw prefers it or no new pair is left, and never before the restore delay has passed since the mask came |
| Scenarios.MaskDominant.TryRestore | internal/loadgen/scenario.go:451-476 | issues a restore only for a masked pair with budget that is not in flight and whose restore delay has passed, with the mask and text on record |
| Scenarios.MaskDominant.Complete | internal/loadgen/scenario.go:478-515 | one event of the pair machine: a mask is recorded with its text and the time it came, and nothing is kept of a pair that is done with |
| Scenarios.MaskDominant.RemovePending | internal/loadgen/scenario.go:518-531 | the pair leaves the map, the order and the books, and no other pair does |

## Left out

- Integer width: byte counts, sizes and versions are unbounded; overflow of `int64` and wrap-around of the `uint64` version counter are not modelled. Marker numbers stop at the largest `int`, and the round trip asks that a text and its ranges together can be addressed.
- Goroutine lifecycle: `StartCleanup`, `Stop` and `cleanupLoop`; cleanup is a thread that may start and run at any time.
- Timers and contexts: a wait may end by timeout or cancellation at any moment; `CreateWait` is not modelled as a duration.
- Panics inside `build`, and data races: every critical section is atomic because the source holds one mutex for it.
- `RecordFailure` events of the observer; the other events are counted, not ordered.
- Slice and map backing arrays: `Pop` clearing the freed slot, capacity hints, and Go's map iteration order, which nothing depends on.
- `sort.Slice` is taken as the one sorted permutation of a total order; any correct sort gives it (`Sorting.SortedIsUnique`).
- A zero `FirstRestoreAt` is None; a clock that reads the zero time at a transition is not modelled.
- Serving.Service.Create: run alone, waiting for a creator of the same key ends by timeout or cancellation, because nobody else runs; being woken by that creator and retrying after it are in `Memory.WaitInflight` and `StoreSteps`.
- Regular-expression recognizers and `findLabeledValue`, names, addresses, dates and e-mail: their results are arbitrary fragment lists.
- `containsWord`, `unicode.ToLower` and `unicode.IsLetter` are arbitrary functions; keyword lists are parameters. The results on missed words take from `isLetterBefore` only that it depends on nothing but the last character before its offset.
- Substitution in a text for the stars format, which the source does not offer.
- The built-in table of type priorities: every result holds for any priority function.
- `restoreDominant`, `waitDurationLocked`, `Pending`, notification channels and pacing of the load generator; `Next` is one pass of its loop.
- HTTP handlers, JSON, logging, metrics, configuration loading, command lines, the working budget and the slot semaphore.
