# Quota accounting and stream boundaries of the gateway, verified in Dafny

This project models the parts of the Rust gateway in `apps/cli/src` that make claims about
whole runs, and proves those claims. Most of that code takes its clock as an argument, so a run
is a sequence of operations with arbitrary, possibly decreasing times.

- **Stream boundary** (`Sse`, `CanonicalFrames`, `Utf8`): bytes arrive in arbitrary chunks and
  leave as complete UTF-8 frames. Chunking does not matter, and the one way in which it does is
  pinned down, as is when a frame that leaves has a blank line inside.
- **Quota** (`QuotaLedger`, `QuotaLease`, `Settlement`, `Affinity`, `QuotaTracker`, `Exchanges`,
  `Gateways`, `Answers`): a two-bucket window refines the log of what was spent, leases count what
  is in flight, receipts make settlement exactly-once, router and viewer agree, and several gateways
  settle into one store in any interleaving, across restarts and failures. `Answers` puts these
  together: what any gateway answers after any run is what the exchanges of all of them cost.
- **Transactions and concurrency** (`Admission`, `Backup`): a compare-and-swap gate as
  interleaved thread steps, and restore as file operations of which any may break.
- **Exact arithmetic** (`Money`, `Digits`, `Pricing`, `CivilTime`, `Arithmetic`): decimal dollars
  to microdollars, token classes to cost, civil dates to epoch days.
- **Merges and bounded buffers** (`Dialects`, `FileLog`, `TraceBody`): which package serves a
  dialect, the tail a rotating log keeps, and the one budget all captured bodies spend.

`Machine` and `Sequences` hold the fixed-width arithmetic and the permutation facts the others
share. `dafny verify dfyconfig.toml` checks everything.

## How the model is built

An object that the gateway updates in place is a class with the same fields, and each method is
proved equal to a step of a value-level state (`SlidingWindow`, `InflightLeases`, `QuotaTracker`,
`SseFrameDecoder`, `FileLog`, `HttpTraceCapture` and others). The properties are lemmas about
those steps and about runs of them. `Backup` works on the file map directly: every operation may
break, a ghost trace records every state the disk goes through, and a ghost counter records how
many operations broke. `Admission` is a state machine over the atomic steps of all threads,
because its loop has no meaning apart from the interleaving.

Text is its UTF-8 bytes where the code counts bytes. Machine integers are integers with their
saturation, truncation or width check written out. What the model cannot compute is a parameter
of the step: the clock, whether a write commits, the encoded length of a row, which files cannot
be moved, the schema of a database file.

## Where the code and its description part

The code is followed, and each case has its own lemma or contract.

- A frame of exactly the maximum length is refused when its separator is split between chunks,
  because the tail check counts the first part of the separator (`Sse.MaximalFrameSplit`).
- Frames are not free of blank lines, because line ends are unified after the cut. A frame that
  is handed on has a blank line inside exactly where the raw frame has a carriage return between
  two line feeds. It ends at its own blank line and no earlier exactly when the raw frame has
  neither that nor CR CR LF CR CR LF in it and ends in neither LF nor CR CR LF CR
  (`CanonicalFrames.CutFrameIsWhole`, and `CanonicalFrames.CanonicalFrameIsWhole` for every text).
  A lone carriage return is not a line end, unlike section 9.2.5 of the HTML Living Standard.
- The in-flight count is exact after the latest grant clock, not after the last grant: when the
  clock falls back it can miss a lease (`QuotaLease.ClockRollbackUndercounts`).
- A receipt is counted again once 256 newer ones have been seen
  (`Settlement.ForgottenReceiptCountsTwice`).
- The timestamp parser looks at six fields and nothing else. Exactly which texts it reads, and as
  what, is `CivilTime.ReadsExactly`; they are date-times of section 5.6 of RFC 3339 exactly when no
  field has a sign, the separators are right and the day exists (`CivilTime.DateTimeExactly`). A
  missing day is read in the next month (`CivilTime.MissingDaysRollOver`), and a date-time with an
  offset is read as its local time (`CivilTime.ReadsInstantExactly`).
- "A same-tier double claim is refused" does not cover two builtins: the later one is shadowed
  (`Dialects.BuiltinTier`).
- A rotated log file that cannot be moved is overwritten by the next one, so the log can lose
  lines from its middle; `FileLog.SuffixExactly` says for which failures it does.
- A response body that arrives with a character split between chunks is recorded with U+FFFD
  (`TraceBody.SplitCharacterIsReplaced`), and a captured request can end in one
  (`TraceBody.CapturedRequestBody`).
- Deleting the set-aside files at the end of a restore may fail with the new files already live
  (`Backup.FileSystem.Discard`).

## Model

| member | source | states |
|---|---|---|
| `Sse.BoundaryIsFirst` | apps/cli/src/sse.rs:69-78 | The boundary is the first position where either separator occurs, its width says which one, and there is none exactly when no separator occurs anywhere |
| `Sse.BoundaryIsStable` | apps/cli/src/sse.rs:69-78 | A boundary found in a prefix of the stream stays the boundary in every extension of it |
| `Sse.BoundaryIsMinimal` | apps/cli/src/sse.rs:69-78 | No proper part of a frame and its separator has a boundary yet |
| `Sse.CutsAreSound` | apps/cli/src/sse.rs:16-43 | Raw pieces with their separators, then the remainder, concatenate to the stream; every cut is at a first boundary and the remainder has none |
| `Sse.CutsAreUnique` | apps/cli/src/sse.rs:16-43 | There is only one way to cut a stream at first boundaries |
| `Sse.CutsResume` | apps/cli/src/sse.rs:16-43 | Cutting what has arrived and keeping the remainder is the same as waiting for more bytes |
| `Sse.MinimalPiece` | apps/cli/src/sse.rs:69-78 | No raw frame contains a separator, and what ended it is one of the two |
| `Sse.ValidPieces` | apps/cli/src/sse.rs:24-33 | Separators are ASCII, so a valid stream is cut into valid frames and a valid remainder |
| `CanonicalFrames.BlankLineAfterUnifying` | apps/cli/src/sse.rs:34-36 | For every text: replacing line ends leaves a blank line in it if and only if two line feeds meet there or stand with one carriage return between them |
| `CanonicalFrames.CanonicalFrameIsWhole` | apps/cli/src/sse.rs:34-36 | For every raw text, exactly when the frame handed on ends at its own blank line and no earlier, in terms of the patterns in the raw text |
| `CanonicalFrames.CutFrameIsWhole` | apps/cli/src/sse.rs:34-36 | For the frames the decoder cuts: an interior blank line exactly where a carriage return stands between two line feeds; a whole frame exactly without that, without CR CR LF CR CR LF, and without a final LF or CR CR LF CR |
| `Sse.CanonicalIsText` | apps/cli/src/sse.rs:34-36 | Replacing line ends keeps a frame valid text ending in a blank line |
| `Sse.CanonicalLines` | apps/cli/src/sse.rs:34-36 | Line by line exactly one carriage return before a line feed is dropped from a frame, and nothing else changes |
| `Sse.DrainAccepts` | apps/cli/src/sse.rs:16-43 | The decoding loop accepts a buffer exactly when every raw frame fits and is valid UTF-8 and the remainder fits, and then yields exactly the canonical non-empty frames |
| `Sse.RefusalNamesTheFirst` | apps/cli/src/sse.rs:22-40 | A refusal is the first frame that does not pass, named by its own fault, too long or not UTF-8, with everything after it kept; or with every frame sound the remainder is too long |
| `Sse.SseFrameDecoder.Push` | apps/cli/src/sse.rs:16-43 | The loop that drains the tail buffer computes that function of the old tail and the new bytes, on refusal too |
| `Sse.SseFrameDecoder.Finish` | apps/cli/src/sse.rs:45-58 | The stream may end if and only if the remainder is blank |
| `Sse.ChunkIndependence` | apps/cli/src/sse.rs:16-43 | For every way of splitting a stream into pushes: if none is refused, one push of the whole stream gives the same frames and the same remainder |
| `Sse.EveryChunkingIsAccepted` | apps/cli/src/sse.rs:16-43 | Every chunking of a stream is accepted if and only if one push of it is and no frame with all but the last byte of its separator exceeds the limit |
| `Sse.MaximalFrameSplit` | apps/cli/src/sse.rs:25-40 | A frame of exactly the maximum length is accepted in one push and refused when the last byte of its separator arrives separately |
| `Sse.EncodingNeverRefused` | apps/cli/src/sse.rs:28-33 | A stream of valid text is never refused for its encoding, however it was chunked |
| `Sse.RemainderIsOfStream` | apps/cli/src/sse.rs:45-58 | The remainder judged at the end depends on the stream alone, and frames, separators and remainder account for every byte |
| `Utf8.ValidIffEncoded` | apps/cli/src/sse.rs:28-33 | The table-driven validity check accepts exactly the encodings of scalar values (section 4 of RFC 3629) |
| `QuotaLedger.WindowRefinesLog` | apps/cli/src/quota_ledger.rs:70-96 | After records at arbitrary, possibly decreasing times the window holds the newest bucket and the saturated totals of it and the bucket before |
| `QuotaLedger.RecordOrderIrrelevant` | apps/cli/src/quota_ledger.rs:70-96 | Any permutation of the same records leaves the same window |
| `QuotaLedger.UsageDecays` | apps/cli/src/quota_ledger.rs:102-124 | With no new records the effective usage never increases over any two clock readings, across rollback and bucket boundaries, and stays within the two buckets |
| `QuotaLedger.UsageIsSlidingOverlap` | apps/cli/src/quota_ledger.rs:102-124 | At every clock reading the effective usage is that of a window sliding over the log: the bucket being read in full and the one before in proportion to how much of it the window still covers; a clock behind the newest bucket sees both stored buckets in full |
| `QuotaLedger.HeadroomRecovers` | apps/cli/src/quota_ledger.rs:128-135 | With no new records the remaining share never decreases |
| `QuotaLedger.RemainingIsFloor` | apps/cli/src/quota_ledger.rs:128-135 | The remaining share is what is left in thousandths of the limit, rounded down |
| `QuotaLedger.EmptyMeansUnderOneThousandth` | apps/cli/src/quota_ledger.rs:128-135 | A window reads empty if and only if its limit is zero or less than one thousandth is left; a spent window always does |
| `QuotaLedger.SpentInThisBucketCounts` | apps/cli/src/quota_ledger.rs:102-124 | What was spent in the bucket being read counts in full, and a clock behind the newest record sees both stored buckets in full |
| `QuotaLedger.ResetIsNextBoundary` | apps/cli/src/quota_ledger.rs:141-144 | The reset is the next bucket boundary, within one window length |
| `QuotaLedger.LedgerIsItsWindows` | apps/cli/src/quota_ledger.rs:207-214 | An account records every settlement in each of its windows and one request in its rate window |
| `QuotaLedger.LedgerOrderIrrelevant` | apps/cli/src/quota_ledger.rs:207-214 | Any permutation of the same settlements leaves the same account ledger |
| `QuotaLedger.ExhaustedBindsOnTightest` | apps/cli/src/quota_ledger.rs:224-251 | An account is exhausted if and only if some window has less than one thousandth left |
| `QuotaLedger.PlanWindowShows` | apps/cli/src/quota_ledger.rs:100-163 | Each window of a plan, read at any clock after any log: its own length and limit, what the log spent in it up to the limit, the share left, and the next boundary |
| `QuotaLedger.HeadroomCountsRequests` | apps/cli/src/quota_ledger.rs:207-251 | Over any log and at any clock reading, rate headroom is the share of the per-minute limit not used by the exchanges the one-minute window shows, a clock behind the newest exchange included |
| `QuotaLedger.SlidingWindow.Advance` | apps/cli/src/quota_ledger.rs:70-85 | Moving the buckets in place computes the model step |
| `QuotaLedger.SlidingWindow.Record` | apps/cli/src/quota_ledger.rs:87-96 | Recording in place computes the model step, a late record landing in the bucket before or nowhere |
| `QuotaLedger.AccountLedger.Record` | apps/cli/src/quota_ledger.rs:207-214 | The loop over windows records in each of them and in the rate window |
| `QuotaLease.RunMatches` | apps/cli/src/quota_lease.rs:63-92 | Over any run the table holds exactly the unreleased leases no later grant on the account saw expired, and no account entry is left empty |
| `QuotaLease.InflightIsLive` | apps/cli/src/quota_lease.rs:63-103 | The count never exceeds the granted, unreleased, unexpired leases, and equals them exactly when no such lease was overtaken by a grant at a clock past its expiry |
| `QuotaLease.InflightExactAfterLastGrant` | apps/cli/src/quota_lease.rs:63-103 | At any time not before the latest grant clock of the account, the count is the number of live leases |
| `QuotaLease.ClockRollbackUndercounts` | apps/cli/src/quota_lease.rs:68-81 | Before that time it can undercount: a grant at a later clock drops a lease that is live again once the clock falls back |
| `QuotaLease.ReleaseFrame` | apps/cli/src/quota_lease.rs:83-92 | Release removes that lease and no other, and is idempotent |
| `QuotaLease.GrantCounts` | apps/cli/src/quota_lease.rs:68-81 | A grant adds exactly its own lease to the account |
| `QuotaLease.ReleaseUndoesGrant` | apps/cli/src/quota_lease.rs:63-92 | Granting and releasing leaves the live leases of the account as they were |
| `QuotaLease.LoadSaturatesHeadroom` | apps/cli/src/quota_lease.rs:114-129 | As many in flight as a known positive rate limit leave no headroom, and more load never leaves more |
| `QuotaLease.PenaltyIsCommittedShare` | apps/cli/src/quota_lease.rs:119-128 | With a known limit the penalty is the share of it in flight in thousandths, rounded down, and all of it once as many are in flight |
| `QuotaLease.LoadLeaves` | apps/cli/src/quota_lease.rs:114-129 | What load leaves of the headroom: under a known limit all but the share in flight in thousandths rounded down, and nothing exactly when that share reaches the headroom; without one a hundred thousandths less for each request |
| `QuotaLease.InflightLeases.GrantFor` | apps/cli/src/quota_lease.rs:68-81 | The nested maps and the serial, updated in place, follow the model |
| `QuotaLease.InflightLeases.Release` | apps/cli/src/quota_lease.rs:83-92 | Releasing in place follows the model, removing an emptied account entry |
| `Settlement.RunIsRecorded` | apps/cli/src/quota_tracker.rs:204-219 | A run leaves the ledger and counters of exactly the counted settlements; the receipt list is the last 256 of their receipts, free of duplicates |
| `Settlement.ExactlyOnce` | apps/cli/src/quota_tracker.rs:204-219 | Every receipt is counted exactly once if and only if every repeat arrives while its id is still among the last 256 |
| `Settlement.ForgottenReceiptCountsTwice` | apps/cli/src/quota_tracker.rs:204-219 | Once 256 newer receipts have been seen, a repeat of the first is counted again |
| `Settlement.CountsEachOnce` | apps/cli/src/quota_tracker.rs:204-219 | If repeats come soon enough, at whatever clock and with whatever amount or usage, the account ends as if the first settlement of each receipt had been recorded once, in any order |
| `Settlement.ArrivalsNameEachOnce` | apps/cli/src/quota_tracker.rs:204-219 | The first arrivals name every receipt of the run exactly once |
| `Settlement.ArrivesFirst` | apps/cli/src/quota_tracker.rs:204-219 | A settlement is a first arrival if and only if it carries no receipt or one not seen before in the run |
| `Settlement.CopiesCountOnce` | apps/cli/src/quota_tracker.rs:204-219 | When repeats are copies, the settlements to count are those of the run, each once |
| `Settlement.SavedAccount.Keep` | apps/cli/src/quota_tracker.rs:205-213 | The loop that forgets old receipts keeps the last 256 |
| `Settlement.SavedAccount.Record` | apps/cli/src/quota_tracker.rs:204-219 | Recording in place computes the model step and skips a remembered receipt |
| `Affinity.RememberKeepsIndex` | apps/cli/src/quota_tracker.rs:797-806 | Remembering keeps queue and map one duplicate-free index within capacity, evicts the oldest entry only when full, and answers with the new account; other survivors keep theirs |
| `Affinity.AffinityOverRuns` | apps/cli/src/quota_tracker.rs:791-806 | After any run the index is consistent, the session used last is in it, a surviving session answers with its last account, and the queue is in order of entry, so the one evicted next entered first |
| `QuotaTracker.RouterAndViewerAgree` | apps/cli/src/quota_tracker.rs:562-699 | In every consistent state and time, planned or not, reported, cooling or failed: router and viewer have the same exhausted flag, headroom, pressured flag and soonest reset |
| `QuotaTracker.ExhaustedExactly` | apps/cli/src/quota_tracker.rs:562-592 | An account is exhausted if and only if it cools, its planned history is lost, a fresh provider reading shows a spent window or, without such a reading, a local window has less than one thousandth left |
| `QuotaTracker.HeadroomStaysLocal` | apps/cli/src/quota_tracker.rs:562-592 | Cooling and provider readings never change rate headroom or pressure |
| `QuotaTracker.BindingIsSoonest` | apps/cli/src/quota_tracker.rs:105-115 | The reset shown is that of a window closing soonest, and any spent window binds |
| `QuotaTracker.SnapshotAgrees` | apps/cli/src/quota_tracker.rs:635-699 | Every entry of one snapshot agrees with the router in the state left by reading the entries before it |
| `QuotaTracker.SnapshotFlags` | apps/cli/src/quota_tracker.rs:495-509 | A snapshot flags a failure exactly when one was flagged before or some row it had to read is unusable |
| `QuotaTracker.FailsOnce` | apps/cli/src/quota_tracker.rs:515-527 | Only the first failure does anything: it raises the flag and leaves the marker if it can |
| `QuotaTracker.SafeOverRuns` | apps/cli/src/quota_tracker.rs:440-787 | Over every run of a gateway the two agree, and once persistence has failed every planned account stays exhausted for both |
| `QuotaTracker.StepKeepsInvariant` | apps/cli/src/quota_tracker.rs:600-787 | No step loses an account, changes its plan or dimensions, or clears a failure |
| `QuotaTracker.ReadingsAgeOut` | apps/cli/src/quota_tracker.rs:531-549 | A provider reading is used if and only if it is under five minutes old and some window is still open; each window shown closes when the provider said |
| `QuotaTracker.OpenWindowsStay` | apps/cli/src/quota_tracker.rs:531-549 | Every window of a fresh reading that is still open stays in it |
| `QuotaTracker.CoolingLasts` | apps/cli/src/quota_tracker.rs:600-609 | A refusal cools the account for exactly the capped wait, never shortens a longer one and touches no other account |
| `QuotaTracker.QuotaStore.Record` | apps/cli/src/quota_tracker.rs:351-379 | One transaction loads, records and writes back the row, or changes nothing |
| `QuotaTracker.QuotaStore.PrepareAll` | apps/cli/src/quota_tracker.rs:481-491 | The loop of one transaction prepares every account, or leaves all rows as they were |
| `QuotaTracker.QuotaStore.Start` | apps/cli/src/quota_tracker.rs:229-241 | A starting gateway is refused while a failure marker is there |
| `QuotaTracker.QuotaTracker.PersistenceError` | apps/cli/src/quota_tracker.rs:515-527 | The first failure sets the flag and leaves the marker; later ones change nothing |
| `QuotaTracker.QuotaTracker.CurrentSaved` | apps/cli/src/quota_tracker.rs:495-509 | Reads the row, or falls back to the cached account and flags the failure |
| `QuotaTracker.QuotaTracker.QuotaState` | apps/cli/src/quota_tracker.rs:562-592 | Computes the router state of the model; only the failure flag and marker may change |
| `QuotaTracker.QuotaTracker.Snapshot` | apps/cli/src/quota_tracker.rs:635-699 | The loop over accounts computes the viewer entries of the model, each after the ones before, reading the row for windows, headroom and unknown usage in the order of the code |
| `QuotaTracker.QuotaTracker.NoteRateLimited` | apps/cli/src/quota_tracker.rs:600-609 | The cooling map changes as in the model and nothing else does |
| `QuotaTracker.QuotaTracker.NoteAuthoritative` | apps/cli/src/quota_tracker.rs:611-628 | The reading is stored, or cleared when empty, and nothing else changes |
| `QuotaTracker.QuotaTracker.RecordConsumption` | apps/cli/src/quota_tracker.rs:741-787 | Stored, failed and store-less settlements update store, cache and flag as in the model; unplanned accounts change nothing |
| `QuotaTracker.QuotaTracker.RecordSettled` | apps/cli/src/quota_tracker.rs:724-739 | Only completed or metered exchanges count, and an oversized receipt is a persistence failure |
| `QuotaTracker.QuotaTracker.Remember` | apps/cli/src/quota_tracker.rs:797-806 | The eviction loop on map and queue computes the model step and leaves all quota state alone |
| `Gateways.StoreCountsCommitted` | apps/cli/src/quota_tracker.rs:351-379 | Whatever the gateways do and in whatever order, with gateways starting in between, the shared row holds exactly the committed exchanges of its account and plan, settled in commit order; nothing else touches it |
| `Gateways.ExactlyOnceAcrossGateways` | apps/cli/src/quota_tracker.rs:468-787 | Over any actions and starts of any gateways in any order: from a fresh row, with repeats committing while remembered, each stored window has its plan's length and limit and holds the requests, or the input and output tokens, of the first exchange of each receipt; unmetered exchanges are counted; the id list is duplicate-free and at most 256 long |
| `Gateways.PrepareKeepsRows` | apps/cli/src/quota_tracker.rs:308-349 | A starting gateway is refused exactly when the store is gone, the row is unusable or 4096 rows are there already; it never overwrites a row, leaves one under its plan, and reports recovered, changed or new history exactly as the store knew the account |
| `Gateways.LoadsExactly` | apps/cli/src/quota_tracker.rs:277-306 | A row is read exactly when the store is there, its text is at most 128 KiB and it has the windows and rate limit of the plan and at most 256 receipts of at most 512 bytes; what the gateway has cached of it does not matter |
| `Gateways.OpenKeepsRows` | apps/cli/src/quota_tracker.rs:468-493 | Starting with any set of plans leaves every row alone and provides one for each account it opens, under its plan |
| `Gateways.StartsExactly` | apps/cli/src/quota_tracker.rs:461-493 | With a store there and room for its accounts, a gateway starts exactly when no failure marker was left, its plans are within the limits and every row it finds is usable |
| `Gateways.LostSettlementFailsClosed` | apps/cli/src/quota_tracker.rs:515-592 | A settlement that could not be stored makes its gateway report every planned account exhausted, whatever any gateway does afterwards |
| `Gateways.LossIsCounted` | apps/cli/src/quota_tracker.rs:768-777 | A settlement that the store refused is still counted by the gateway itself, and flagged |
| `Gateways.LostSettlementBlocksRestart` | apps/cli/src/quota_tracker.rs:229-241 | After such a loss no gateway starts on the store again, whatever happens in between, provided the marker could be written |
| `Answers.SettlementCharges` | apps/cli/src/quota_tracker.rs:724-787 | An exchange that a gateway settles and that is no repeat adds one event to the shared row: one request under a request plan, input plus output tokens capped at 64 bits under a token plan, nothing if no usage was reported |
| `Answers.AnswersReadTheRow` | apps/cli/src/quota_tracker.rs:495-699 | Whichever gateway is asked and whatever it has cached, its windows, headroom, exhausted flag and unknown usage are those of the shared row, with a fresh provider reading in place of the windows and the load in flight taken off the headroom |
| `Answers.EveryGatewayAnswersForAll` | apps/cli/src/quota_tracker.rs:495-787 | After any run of any gateways, every gateway that plans the account answers for the first exchange of each receipt, whoever settled it: each window shows what those exchanges cost in it, and exhausted, headroom and unknown usage follow |
| `Answers.EveryGatewayKeepsItsHistory` | apps/cli/src/quota_tracker.rs:594-628 | Over any run from an unopened store, each gateway counts the load of its own leases, cools an account exactly while one of its refusals, capped at an hour, says so, and shows no other reading than the last one reported to it |
| `Answers.SoloGatewayAnswers` | apps/cli/src/quota_tracker.rs:562-787 | A gateway without a store answers in the same way for the exchanges it settled itself |
| `Answers.UnplannedAnswers` | apps/cli/src/quota_tracker.rs:562-699 | An account without a plan is exhausted only by cooling or a provider reading, keeps its whole headroom less a tenth for each request in flight, and has no history |
| `Exchanges.UsedIsLogged` | apps/cli/src/quota_tracker.rs:411-416 | What a plan's windows count of any exchanges, saturating at each step, is what the exchanges cost, capped once |
| `Exchanges.SettledExchangesCount` | apps/cli/src/quota_tracker.rs:204-219 | If repeats come soon enough an account counts the first exchange of each receipt, in any order |
| `Admission.AdmissionIsSafe` | apps/cli/src/admission.rs:63-149 | Over every interleaving of lookups, loads, compare-and-swaps (spurious failures included) and drops, each counter equals its live permits; the gateway never holds more than the global limit, no agent more than the per-agent and no provider more than the per-provider limit |
| `Admission.RefusalsSawFull` | apps/cli/src/admission.rs:73-96 | Every refusal saw its own level full, by that level's limit, at the moment it was decided |
| `Admission.KeysAreIndependent` | apps/cli/src/admission.rs:124-149 | A step leaves the count and permits of every other key unchanged, and no step gives a key without a counter a count or a permit |
| `Admission.SoloCallIsExact` | apps/cli/src/admission.rs:73-149 | A call without interference is admitted if and only if the gateway, agent or provider it is for holds fewer permits than the limit of that level, also on first use of its key |
| `Admission.CallsAreAnsweredOnce` | apps/cli/src/admission.rs:73-96 | An admitted call makes one new permit live on its counter, a refused one none, and no step of the call does anything more |
| `Admission.DropReturnsTheSlot` | apps/cli/src/admission.rs:63-69 | Dropping the permit just taken restores counters and permits |
| `Backup.FileSystem.Restore` | apps/cli/src/backup.rs:83-156 | At every point the previous live files survive at the live path, the set-aside sibling or the stash; success means the whole disk is as before but for the restored files and their stashes, with nothing staged or set aside left; a usable backup is restored unless an operation breaks; one broken operation never leaves a mixture; each error says what is left, and which ones leave no trace |
| `Backup.FileSystem.SwapIn` | apps/cli/src/backup.rs:188-204 | Publishing one file sets the old one aside or puts it back, losing neither at any point |
| `Backup.FileSystem.RollbackSwap` | apps/cli/src/backup.rs:206-221 | Rolling back restores the set-aside file, or says that it could not |
| `Backup.FileSystem.StashCurrent` | apps/cli/src/backup.rs:223-234 | The live file is copied to its stash and stays live |
| `Backup.FileSystem.ValidateBackup` | apps/cli/src/backup.rs:84-111 | An unusable backup is refused before anything changes |
| `Backup.FileSystem.StageConfig` | apps/cli/src/backup.rs:113-119 | The configuration is copied beside the live one under a new name and validated again; a copy that does not validate is dropped |
| `Backup.FileSystem.StageMetrics` | apps/cli/src/backup.rs:120-130 | The metrics snapshot is staged under a new name when the backup has one; a failed snapshot drops both staged files |
| `Backup.FileSystem.PublishMetrics` | apps/cli/src/backup.rs:138-145 | If publishing metrics fails and the recovery renames succeed, both live files hold what they held before |
| `Backup.FileSystem.PublishBoth` | apps/cli/src/backup.rs:137-148 | Both files are published, or with a single broken operation neither is |
| `Backup.FileSystem.Discard` | apps/cli/src/backup.rs:149-155 | On success what was set aside is gone and nothing else is; it may fail with the new files already live, and says which file is still set aside |
| `Money.ConversionRounds` | apps/cli/src/accounting.rs:133-147 | Whenever it answers, the result is the exact decimal value times a million rounded half up |
| `Money.ParsesExactly` | apps/cli/src/accounting.rs:123-137 | A text parses to a decimal if and only if it spells it: digits, at most one point, at most one exponent within 32 bits |
| `Money.LargerNumberMoreMicros` | apps/cli/src/accounting.rs:111-148 | A text denoting a larger number never converts to less |
| `Money.SameNumberSameMicros` | apps/cli/src/accounting.rs:111-148 | Texts denoting the same number convert to the same amount |
| `Money.AnswersExactly` | apps/cli/src/accounting.rs:111-148 | It answers if and only if the text is a decimal of at most 64 bytes whose power of ten is within 38, whose digits with half the divisor fit 128 bits and whose rounded value fits 64 |
| `Money.RenderThenParse` | apps/cli/src/accounting.rs:111-148 | Every 64-bit amount written as dollars with six places reads back unchanged |
| `CivilTime.EraIsFloor` | apps/cli/src/quota_headers.rs:167-174 | The shifted truncating division is floor division for negative years too |
| `CivilTime.CountsDays` | apps/cli/src/quota_headers.rs:167-174 | The next proleptic Gregorian date always maps to exactly one more, for negative years too |
| `CivilTime.EpochIsDayZero` | apps/cli/src/quota_headers.rs:167-174 | 1970-01-01 is day 0 |
| `CivilTime.StrictlyIncreasing` | apps/cli/src/quota_headers.rs:167-174 | Later dates have larger day numbers |
| `CivilTime.EveryDayHasOneDate` | apps/cli/src/quota_headers.rs:167-174 | Every integer is the day number of exactly one date |
| `CivilTime.ReadsExactly` | apps/cli/src/quota_headers.rs:143-163 | For every text: it is read if and only if the six field texts are digits, each after at most one sign, within the ranges checked, and do not count back beyond the epoch; and then as the second those numbers name |
| `CivilTime.MissingDaysRollOver` | apps/cli/src/quota_headers.rs:154-161 | A day that its month does not have is read as that many days into the next month |
| `CivilTime.DateTimeExactly` | apps/cli/src/quota_headers.rs:143-163 | A text that is read starts like a date-time of section 5.6 of RFC 3339 if and only if no field carries a sign, the separators are right and the day exists in its month |
| `CivilTime.ReadsDateTimes` | apps/cli/src/quota_headers.rs:143-163 | Every text that starts like a date-time, with T or t and whatever follows, reads as the second its fields name taken as UTC; those before the epoch are declined |
| `CivilTime.ReadsLocalTime` | apps/cli/src/quota_headers.rs:143-163 | Every complete date-time, with any fraction and offset, is read as its local time: off the instant it names by exactly its offset |
| `CivilTime.ReadsInstantExactly` | apps/cli/src/quota_headers.rs:143-163 | A complete date-time is read as the very second it names if and only if its offset is zero, or instant and local time both lie before the epoch and are declined |
| `CivilTime.CountsSeconds` | apps/cli/src/quota_headers.rs:161-162 | The next instant always reads exactly one second later, from 0 at the epoch |
| `CivilTime.InstantsInOrder` | apps/cli/src/quota_headers.rs:143-163 | Later fields read as strictly later instants, leap seconds aside |
| `Dialects.BindDeclaredDialects` | apps/cli/src/plugins.rs:523-592 | The nested loops over packages and dialects compute the model binding, refusals included |
| `Dialects.MergeExplicitEntries` | apps/cli/src/plugins.rs:595-659 | The loop over explicit entries computes the model merge, refusals included |
| `Dialects.BuiltinTier` | apps/cli/src/plugins.rs:523-592 | The builtin tier is refused exactly when two builtins of different names serve one newly reserved dialect; otherwise each dialect it serves is bound to the first builtin that serves it |
| `Dialects.BindDeclaredExactly` | apps/cli/src/plugins.rs:523-592 | Declared bindings are refused exactly when two trusted packages, or one twice, claim a dialect the builtins leave free, or a newly reserved dialect is claimed by other than its builtin; otherwise each served dialect is bound to its server |
| `Dialects.MergeExplicitExactly` | apps/cli/src/plugins.rs:595-659 | The merge is refused exactly when some entry contradicts a binding or a scanned manifest; otherwise declared bindings stay and each remaining entry is bound as written |
| `Dialects.RegistryAccepts` | apps/cli/src/plugins.rs:364-382 | The registry can be built if and only if the builtin tier agrees with itself, every trusted package fits beside it and no explicit entry contradicts what is declared |
| `Dialects.ScanOrderIrrelevant` | apps/cli/src/plugins.rs:364-382 | Any permutation of the directory packages is refused every time or yields the same map, explicit entries merged |
| `Dialects.BuiltinNeverReplaced` | apps/cli/src/plugins.rs:520-592 | A dialect served by the builtin tier keeps its builtin whatever is installed or configured |
| `Dialects.EveryBindingIsVouchedFor` | apps/cli/src/plugins.rs:523-659 | Every binding is vouched for by the builtin tier, a receipt or allow_unsigned, or an explicit entry no scanned manifest contradicts |
| `Pricing.CostWithinFive` | apps/cli/src/pricing.rs:88-126 | The cost never exceeds the exact weighted sum over token classes and, unless capped, is less than five micro-units below it |
| `Pricing.FiveIsTight` | apps/cli/src/pricing.rs:88-126 | Five terms can each lose almost a micro-unit, so the bound is the best possible |
| `Pricing.NothingSaturates` | apps/cli/src/pricing.rs:88-126 | No 128-bit step saturates: the total is the plain sum of five rounded terms |
| `Pricing.CacheClassesPartition` | apps/cli/src/pricing.rs:99-106 | The cache-write classes partition the written tokens, five-minute first, even for overlapping details |
| `Pricing.BilledTokens` | apps/cli/src/pricing.rs:93-106 | The billed tokens are the reported ones, and more only when details exceed their total |
| `Pricing.UniformMeansSplitIgnored` | apps/cli/src/pricing.rs:77-83 | A single cache-write rate is answered if and only if no lifetime split can change what writing costs |
| `Pricing.EqualRatesKeepTheCost` | apps/cli/src/pricing.rs:107-119 | Optional rates equal to the plain one leave every cost as it was without them, for any split |
| `Pricing.CostMonotone` | apps/cli/src/pricing.rs:88-126 | Raising rates never lowers a cost, roundings and cap included |
| `FileLog.FileLog.WriteLine` | apps/cli/src/filelog.rs:50-66 | With any of the renames failing: the descending rename loop, the move of the active file and the append compute the model step, and a refused move of the active file leaves the line out |
| `FileLog.PlaceOf` | apps/cli/src/filelog.rs:55-59 | Where each file ends up after the loop, whichever renames fail: moved up, left in place or overwritten |
| `FileLog.RotationKeeps` | apps/cli/src/filelog.rs:53-61 | Whatever renames fail, a rotation keeps exactly the files that are not overwritten, whole and in order |
| `FileLog.SuffixExactly` | apps/cli/src/filelog.rs:53-61 | The log stays a suffix of what it was if no older file outlives an overwritten one, and, when no line is in two files, only then |
| `FileLog.YoungestStuckIsClean` | apps/cli/src/filelog.rs:53-61 | Renames that fail for the youngest files only, or not at all, leave a suffix |
| `FileLog.LogIsATail` | apps/cli/src/filelog.rs:50-66 | From any directory and over any run whose rotations let no older file outlive an overwritten one, log.5 to log concatenated is a suffix, in whole lines, of what was there and everything reported as written |
| `FileLog.YoungestStuckRun` | apps/cli/src/filelog.rs:50-66 | Every run in which only the youngest files are ever stuck, the active one alone for instance, is such a run |
| `FileLog.FilesAreBounded` | apps/cli/src/filelog.rs:18-19 | At most five rotated files ever exist |
| `FileLog.FilesStaySmall` | apps/cli/src/filelog.rs:16-17 | No file exceeds the threshold, or the longest line, by more than the uncounted newline |
| `FileLog.NothingLostUntilFull` | apps/cli/src/filelog.rs:50-66 | While renames work every line is recorded, and none is dropped before the files kept hold more than three thresholds |
| `TraceBody.LossyIsText` | apps/cli/src/request_context.rs:108 | Lossy decoding yields valid text, and the input itself exactly when it is valid |
| `TraceBody.FloorWithinThree` | apps/cli/src/request_context.rs:112-115 | The boundary loop stops at a character boundary and gives up at most three bytes |
| `TraceBody.SeekBoundary` | apps/cli/src/request_context.rs:112-115 | The loop finds the largest character boundary not beyond the limit |
| `TraceBody.BoundedBody.Push` | apps/cli/src/bodylog.rs:96-111 | Pushing in place computes the model step |
| `TraceBody.BoundedBodyHolds` | apps/cli/src/bodylog.rs:96-111 | After any pushes: valid text of at most 256 KiB, truncated exactly when the pushes exceed that, equal to them until then and afterwards a prefix wasting at most three bytes |
| `TraceBody.CappedJsonWriter.WriteAll` | apps/cli/src/request_context.rs:62-72 | However the serializer splits its output, the writer holds the first bytes up to its limit and says so exactly when there was more |
| `TraceBody.HttpTraceCapture.AppendBody` | apps/cli/src/request_context.rs:99-121 | Decoding, cutting and spending the shared budget compute the model step |
| `TraceBody.HttpTraceCapture.CaptureUpstreamRequest` | apps/cli/src/request_context.rs:295-344 | Capturing a request serializes under the writer limit, spends the budget and adds a numbered exchange |
| `TraceBody.HttpTraceCapture.AppendUpstreamResponseBody` | apps/cli/src/request_context.rs:404-437 | Only the latest exchange with a captured head grows |
| `TraceBody.HttpTraceCapture.AppendAgentResponseBody` | apps/cli/src/request_context.rs:471-489 | Only a captured agent response grows |
| `TraceBody.StepConserves` | apps/cli/src/request_context.rs:79-121 | Every capture step conserves the budget: held bytes, remaining budget and replaced bodies |
| `TraceBody.BudgetOverRuns` | apps/cli/src/request_context.rs:269-489 | Over any run, body bytes, remaining budget and the bytes of replaced bodies make up exactly 1 MiB, each body is valid text of at most 256 KiB, and a body is truncated only when it or the budget is full but for three bytes |
| `TraceBody.ResponsesTell` | apps/cli/src/request_context.rs:404-489 | Over any run each open response is the decoded pieces streamed since its head, or a prefix of them once truncated |
| `TraceBody.CaptureShowsTheTraffic` | apps/cli/src/request_context.rs:269-489 | Over any run the capture shows the agent's last request, one exchange for each upstream request with that request's JSON or a cut of it, and the statuses answered |
| `TraceBody.AppendedTells` | apps/cli/src/request_context.rs:99-121 | Appending extends the told prefix by one piece, and truncation is permanent |
| `TraceBody.EarlierExchangesStay` | apps/cli/src/request_context.rs:325-344 | Captured requests and finished exchanges are never touched again |
| `TraceBody.FaithfulIffPiecesAreText` | apps/cli/src/request_context.rs:108 | Decoding piece by piece reproduces the stream if and only if every piece is itself valid text |
| `TraceBody.SplitCharacterIsReplaced` | apps/cli/src/request_context.rs:108 | A character split between two pieces is replaced twice although the stream is valid |
| `TraceBody.CapturedRequestBody` | apps/cli/src/request_context.rs:323-329 | The captured request body is the longest cut of the JSON that fits, except that a cut after three bytes of a four-byte character leaves U+FFFD in it |

## Left out

- FileLog.FileLog.WriteLine: does not model a failing open of the new active file, nor a write that stops half-way.
- QuotaLease.InflightLeases.GrantFor: does not model the serial wrapping after 2^64 grants.
- QuotaTracker.QuotaTracker.Snapshot: the rows do not change between the reads of one entry, as another gateway's write there could make them.
- QuotaTracker.QuotaStore.Record: the database is an atomic map from account and plan to rows; SQL, JSON encoding, file permissions and size limits of the database file are not modelled, and a receipt's length in characters stands for its length in bytes.
- QuotaTracker.QuotaTracker.PersistenceError: whether the failure marker can be written is fixed per store.
- Gateways.ExactlyOnceAcrossGateways: a gateway without plans opens no store and is not part of a cluster, and each action of a gateway, snapshots included, is one step.
- Admission.AdmissionIsSafe: memory orderings are not modelled; every atomic step sees the latest value, which is what one atomic location guarantees.
- Dialects.MergeExplicitEntries: the notes shown beside the bindings and the wording of refusals are not modelled; a package name in the configuration stands for its directory without path normalisation.
- Dialects.BindDeclaredDialects: whether a package's receipt matches its bytes is given as a flag.
- TraceBody.HttpTraceCapture.CaptureUpstreamRequest: headers and their redaction, method and address of a request are not modelled, and capture is taken as enabled.
- Backup.FileSystem.Restore: staging names are distinct from all others, a copy that breaks may leave anything at its target, and databases are opaque contents with a schema.
- Money.AnswersExactly: the JSON string around an amount is taken as already decoded.
- The behaviour of the packages `router-core` and `token_station_metrics`: only the records used here are modelled, with the non-windowed state taken as no reset, not exhausted, full headroom, not pressured.
- Durations and quota polling (`parse_duration_ms`, `quota_fetch.rs`): floating point.
- Header families (`window_from`), model price lookup and price-table edits: lookups and field checks that span no run.
- `AccountingTap`: a client of the stream decoder whose merging of observations belongs to another package.
- Body files on disk and their cleanup, error diagnostics, cancellation reasons, package installation, configuration parsing, HTTP, TLS and the attempt machine.
