# MemTestHelper main window, modelled in Dafny

MemTestHelper runs several copies of the MemTest memory tester, one per thread. It tiles their
windows on the screen and polls each copy for its coverage and error count. It shows a
per-instance table plus a total row, and stops the run by one of three policies:
- a copy that passes a coverage percentage is stopped;
- the fleet is stopped when any copy reports errors;
- the fleet is stopped once all copies have finished.

This project models the logic of `MainWindow` that decides all of this.

- `Base`: the `Option` type.
- `Digits`: decimal text. It covers `int.ToString()`, the `char.IsDigit` checks (which
  accept every Unicode decimal digit), and `Convert.ToInt32`, which reads ASCII digits only
  and throws on other digits and above `Int32.MaxValue`. It proves that parsing what
  `ToString()` writes gives the number back.
- `Layout`: window tiling, the row-count choices and centring.
  - `LayoutMemTests` places each window by its row and column.
  - `InitCboRows` offers the divisors of the thread count.
  - `CentreXYOffsets` uses C#'s truncating division. Its numerator can be negative, so the
    truncation is written out.
- `Stats`: the milestone, time estimate and speed of `UpdateSpeedTime`, in exact `real`
  arithmetic.
- `Validation`: the checks `ValidateInput` runs before a start, and what it leaves in the
  RAM box: an empty box is filled with the free RAM before any check, whatever the verdict.
  It comes in two forms: the code as written, where `Convert.ToInt32` can throw, and a
  corrected form in which every input gets a verdict.
- `Fleet`: the MemTest instances as the window sees them (started, finished, minimised,
  location, the snapshot `GetCoverageInfo()` returns). It holds the specification
  functions of one poll tick and one stop click:
  - how far the tick gets;
  - the sums it accumulates;
  - the workers it stops;
  - the stop clicks it raises.
- `Coverage`: the `MemTestInfo` records and the table of them.
  - Slot 0 is the total, and slot `i` is worker `i - 1`.
  - The `Valid` flag hides rows left over from a larger fleet.
  - The module holds the specification of the resize and of a tick's refresh.
- `Window`: the class `MainWindow`.
  - It holds the array of MemTest slots, the array of coverage records and the selected
    thread count.
  - It holds the log of `Stop()` requests sent to workers and the count of `ClickBtnStop()`
    calls.
  - Its methods are the handlers, given as loops over those arrays. Each is proved against
    the specification functions above.

Machine facts enter as parameters: RAM figures, the processor count, MemTest's window size
and RAM limit, the work area, the user's answer to the paging warning, and whether each
instance came up. A `MemTestInfo` record is a value in its array slot, so a field write
replaces the slot.

## Model

| member | source | states |
|---|---|---|
| Digits.Decimal | MemTestHelper2/MainWindow.xaml.cs:357 | `i.ToString()` of a non-negative number is a non-empty digit string without a leading zero |
| Digits.ParseDecimal | MemTestHelper2/MainWindow.xaml.cs:526 | reading back the free-RAM text written by `ToString()` gives the free RAM again |
| Digits.DecimalInjective | MemTestHelper2/MainWindow.xaml.cs:379 | two slots get the same label exactly when they are the same slot |
| Digits.ParseAppend | MemTestHelper2/MainWindow.xaml.cs:540 | appending a digit multiplies the parsed value by ten and adds the digit |
| Digits.CharIsDigit | MemTestHelper2/MainWindow.xaml.cs:532 | `char.IsDigit`: an ASCII digit or a decimal digit of another script in the Basic Multilingual Plane (Unicode category Nd) |
| Digits.ConvertToInt32 | MemTestHelper2/MainWindow.xaml.cs:540 | on a string that passed `char.IsDigit`: a `FormatException` exactly when it is empty or holds a non-ASCII digit, an `OverflowException` exactly when its value exceeds `Int32.MaxValue`, and otherwise the value it denotes |
| Layout.Position | MemTestHelper2/MainWindow.xaml.cs:694-697 | defines worker `i`'s location: column `i % cols`, row `i / cols`, each scaled by the window size plus the spacing less 5 (x) or 3 (y), plus the offsets; its properties are the next three rows |
| Layout.LayoutRoundTrip | MemTestHelper2/MainWindow.xaml.cs:694-697 | worker `i` goes to column `i % cols` and row `i / cols`, one pitch (size plus spacing minus 5 or 3) apart from the offsets, and its index can be recovered from its position |
| Layout.PositionsDistinct | MemTestHelper2/MainWindow.xaml.cs:694-697 | with positive pitches, two workers share a position exactly when they are the same worker |
| Layout.RowWithinGrid | MemTestHelper2/MainWindow.xaml.cs:686-695 | when the row count divides the thread count, the columns are positive, rows times columns is the thread count, and each worker's row is below the row count |
| Layout.InitCboRows | MemTestHelper2/MainWindow.xaml.cs:337-350 | the options are exactly the divisors of the thread count, in strictly ascending order; the default is 2 for an even count and 1 otherwise, and it is one of the options |
| Layout.RowOptionsEnds | MemTestHelper2/MainWindow.xaml.cs:343-347 | the divisor list starts at 1 and ends at the thread count |
| Layout.TruncDiv | MemTestHelper2/MainWindow.xaml.cs:624-625 | C# integer division by a positive divisor: the remainder has the sign of the dividend and is smaller than the divisor |
| Layout.CentreXYOffsets | MemTestHelper2/MainWindow.xaml.cs:616-629 | no offsets unless both boxes have a selection; otherwise each offset is half of the spare width or height, within one pixel, with the odd pixel on the side truncation toward zero gives |
| Layout.CentreRoundsTowardZero | MemTestHelper2/MainWindow.xaml.cs:624 | a grid wider than the work area gets a negative x offset rounded toward zero (-2, not -3) |
| Stats.NextMilestone | MemTestHelper2/MainWindow.xaml.cs:806 | the next coverage milestone is a multiple of 100, strictly above the coverage and at most 100 above it |
| Stats.SpeedTime | MemTestHelper2/MainWindow.xaml.cs:802-815 | no estimate when the total coverage is not positive; otherwise the milestone is `NextMilestone`, and a speed exists exactly when time has elapsed |
| Stats.EstimateKeepsRate | MemTestHelper2/MainWindow.xaml.cs:808 | at the rate so far, elapsed time plus the estimate reaches exactly the milestone, and the estimate is never negative |
| Stats.SpeedIsThroughput | MemTestHelper2/MainWindow.xaml.cs:815 | speed times elapsed time is the tested share of the RAM |
| Stats.PastMilestone | MemTestHelper2/MainWindow.xaml.cs:803-806 | 100.01 % leads to the 200 % milestone; 0 % gives no estimate |
| Validation.RamBox | MemTestHelper2/MainWindow.xaml.cs:524-527 | the RAM box is never empty once validation has begun; an empty one becomes the free-RAM figure as digits |
| Validation.StopAtVerdict | MemTestHelper2/MainWindow.xaml.cs:580-601 | the stop-at checks as written, in order (empty, `char.IsDigit`, `Convert.ToInt32`, not positive); an acceptance carries the RAM value and the timeout, falling back to the default (604-611) |
| Validation.ValidateInput | MemTestHelper2/MainWindow.xaml.cs:512-614 | the RAM box afterwards is `RamBox`, whatever the verdict. An accepted input has digits-only RAM text with threads ≤ RAM ≤ MAX_RAM·threads and RAM ≤ total RAM; RAM above the available RAM is accepted only if the user continues; an enabled stop-at is non-empty, digits-only and positive; the timeout falls back to the default. A `FormatException` comes only from a RAM box or stop-at text that passed `char.IsDigit` with a non-ASCII digit in it |
| Validation.AcceptedIffAcceptable | MemTestHelper2/MainWindow.xaml.cs:524-601 | an input is accepted exactly when it passes every check |
| Validation.FilledBoxIsReused | MemTestHelper2/MainWindow.xaml.cs:524-527 | after a validation that started from an empty RAM box, the next one reads the figure left in the box and behaves as if the free RAM had not changed |
| Validation.RejectionKeepsFilledBox | MemTestHelper2/MainWindow.xaml.cs:524-588 | an empty RAM box with an empty stop-at is rejected for the stop-at, and the box keeps the free-RAM figure "8000" |
| Validation.ParseTenDigits | MemTestHelper2/MainWindow.xaml.cs:540 | "3000000000" is a digit string whose value is 3000000000 |
| Validation.OversizedRamOverflows | MemTestHelper2/MainWindow.xaml.cs:532-540 | a digits-only RAM entry above `Int32.MaxValue` passes the digit check and then overflows in `Convert.ToInt32` |
| Validation.NonAsciiDigitsThrow | MemTestHelper2/MainWindow.xaml.cs:532-596 | an Arabic-Indic "٣" in the RAM box, and a fullwidth "５０" as stop-at, pass `char.IsDigit` and then make `Convert.ToInt32` throw a `FormatException` |
| Validation.StopAtVerdictChecked | MemTestHelper2/MainWindow.xaml.cs:580-601 | the corrected stop-at checks: an acceptance carries the RAM value and the timeout |
| Validation.ValidateInputChecked | MemTestHelper2/MainWindow.xaml.cs:532-596 | the corrected validation fills the RAM box as the code does, never throws, accepts exactly the inputs that pass every check, rejects an overflowing entry as not an `int` and a non-ASCII digit as not an integer, and otherwise gives the code's verdict |
| Validation.ThrowingEntriesRejected | MemTestHelper2/MainWindow.xaml.cs:540 | the corrected validation rejects the oversized and the Arabic-Indic entries |
| Fleet.LeadingReadable | MemTestHelper2/MainWindow.xaml.cs:736-742 | the tick reads a prefix of the fleet, and every slot in it is non-null with a readable window |
| Fleet.LeadingReadableSpec | MemTestHelper2/MainWindow.xaml.cs:740-742 | the slot where the tick stops, if any, is null or has no readable window |
| Fleet.CoverageSum | MemTestHelper2/MainWindow.xaml.cs:775 | defines the running `totalCoverage`: the coverages of the workers read so far, added in slot order, as an exact real |
| Fleet.ErrorSum | MemTestHelper2/MainWindow.xaml.cs:776 | defines the running `totalErrors`: the error counts of the workers read so far, added in slot order, as an unbounded integer |
| Fleet.Total | MemTestHelper2/MainWindow.xaml.cs:783-784 | defines the total record: summed coverage over the thread count, and summed errors; its properties are the mean and sum rows below |
| Fleet.StopAtRequests | MemTestHelper2/MainWindow.xaml.cs:752-758 | defines the workers the stop-at check stops, in visiting order; `StopAtRequestsSpec` states which they are |
| Fleet.StopAtRequestsSpec | MemTestHelper2/MainWindow.xaml.cs:752-758 | the stop-at check sends `Stop()` to exactly the unfinished workers whose coverage is strictly above the stop-at value, each once, in index order |
| Fleet.ErrorTriggers | MemTestHelper2/MainWindow.xaml.cs:762-770 | the error check clicks Stop at most once per worker |
| Fleet.ErrorTriggersSpec | MemTestHelper2/MainWindow.xaml.cs:765-769 | the error check clicks Stop at all exactly when some worker reports errors |
| Fleet.TickStep | MemTestHelper2/MainWindow.xaml.cs:746-776 | reading one more worker adds its coverage and errors to the sums, its index to the stop-at list if it qualifies, and one click if it has errors |
| Fleet.AllFinished | MemTestHelper2/MainWindow.xaml.cs:846-851 | defines `IsAllFinished` on the fleet: every worker reports finished |
| Fleet.FleetStopRequests | MemTestHelper2/MainWindow.xaml.cs:239-243 | defines the workers the Stop button sends `Stop()`, in index order; `FleetStopRequestsSpec` states which they are |
| Fleet.FleetStopRequestsSpec | MemTestHelper2/MainWindow.xaml.cs:239-243 | the stop click sends `Stop()` to exactly the unfinished workers, each once, in index order |
| Fleet.FinishedFleetNeedsNoStop | MemTestHelper2/MainWindow.xaml.cs:239-243 | a stop click sends nothing exactly when every worker has finished |
| Fleet.MeanOfEqualCoverages | MemTestHelper2/MainWindow.xaml.cs:783 | in exact arithmetic, when every worker reports the same coverage, the total shows that coverage |
| Fleet.CoverageSumBounds | MemTestHelper2/MainWindow.xaml.cs:775 | the summed coverage lies between the worker count times the lowest and times the highest coverage |
| Fleet.MeanWithinRange | MemTestHelper2/MainWindow.xaml.cs:783 | in exact arithmetic, the total coverage is never below the slowest worker nor above the fastest |
| Fleet.ErrorSumCounts | MemTestHelper2/MainWindow.xaml.cs:776-784 | with non-negative counts the total errors are zero exactly when no worker has errors, and no worker has more errors than the total |
| Fleet.FourWorkerTotal | MemTestHelper2/MainWindow.xaml.cs:783-784 | workers at 10, 20, 30 and 40 % with no errors give a total of 25 % and 0 errors |
| Fleet.OnlyCrossingWorkerStops | MemTestHelper2/MainWindow.xaml.cs:755-757 | with stop-at 50, of workers at 51, 40 and 49.5 % only the first is stopped |
| Coverage.InitialRecord | MemTestHelper2/MainWindow.xaml.cs:357 | defines the record `InitLstCoverage` puts in slot `i`: labelled "T" for slot 0 and the slot number otherwise, zero coverage and errors, valid |
| Coverage.FreshRecord | MemTestHelper2/MainWindow.xaml.cs:379 | defines the record `UpdateLstCoverage` creates in slot `i`: labelled with the slot number, zero coverage and errors, valid |
| Coverage.Hidden | MemTestHelper2/MainWindow.xaml.cs:374 | defines clearing a record's `Valid` flag, keeping its label, coverage and errors |
| Coverage.WithSnapshot | MemTestHelper2/MainWindow.xaml.cs:746-747 | defines the write of a coverage and an error count into a record (also the total at 783-784), keeping its label and `Valid` flag |
| Coverage.CountValid | MemTestHelper2/MainWindow.xaml.cs:369 | the number of non-null valid records is at most the table size |
| Coverage.CountValidOfPrefix | MemTestHelper2/MainWindow.xaml.cs:369 | when the valid records are the slots `0 .. c - 1`, counting valid records gives `c` |
| Coverage.Resized | MemTestHelper2/MainWindow.xaml.cs:363-392 | defines the table after `UpdateLstCoverage`, of the same size: with more valid records than `threads`, those above `threads` up to the count are hidden; otherwise slots from the count to `threads` get new records; `ResizePreservesPrefix` states what that means |
| Coverage.ResizePreservesPrefix | MemTestHelper2/MainWindow.xaml.cs:363-392 | the resize touches no null record. Afterwards the valid records are exactly the slots `0 .. threads`. Still-valid records are unchanged, new slots hold zero records labelled with their number, and dropped slots keep their values but are hidden. Nothing else changes, and the labels stay correct |
| Coverage.Refreshed | MemTestHelper2/MainWindow.xaml.cs:746-747 | defines the table after a tick has read `n` workers, of the same size: slot `j` in `1 .. n` copies worker `j - 1`'s snapshot; `RefreshedKeepsShape` states what that means |
| Coverage.RefreshedKeepsShape | MemTestHelper2/MainWindow.xaml.cs:746-747 | after a tick has read `n` workers, slots `1 .. n` carry those workers' coverage and errors, the total and later slots are as before, and the valid records and labels are unchanged |
| Window.MainWindow.constructor | MemTestHelper2/MainWindow.xaml.cs:42-63 | creates the slot array at four times the processor count and the record array one longer; selects that count; fills slots `0 .. threads` with zero records labelled "T", 1, 2, …; leaves the table well formed |
| Window.MainWindow.InitLstCoverage | MemTestHelper2/MainWindow.xaml.cs:352-361 | slots `0 .. threads` hold zero records, the first labelled "T" and the rest by slot number; the list becomes bound; later slots are unchanged |
| Window.MainWindow.UpdateLstCoverage | MemTestHelper2/MainWindow.xaml.cs:363-392 | does nothing before the list is bound; otherwise the table becomes `Resized` of the old table |
| Window.MainWindow.SelectThreads | MemTestHelper2/MainWindow.xaml.cs:289-295 | a new thread count resizes the table, keeps it well formed, and yields the divisor row options with their default |
| Window.MainWindow.LayoutMemTests | MemTestHelper2/MainWindow.xaml.cs:680-701 | every non-null slot of the fleet gets its grid position; null slots and slots beyond the fleet are unchanged |
| Window.MainWindow.AllStarted | MemTestHelper2/MainWindow.xaml.cs:668-672 | true exactly when every worker of the fleet started |
| Window.MainWindow.StartMemTests | MemTestHelper2/MainWindow.xaml.cs:653-678 | each fleet slot gets a new, unfinished instance with RAM `ram / threads`; success exactly when all started; windows are laid out only on success and when not starting minimised |
| Window.MainWindow.IsAllFinished | MemTestHelper2/MainWindow.xaml.cs:844-852 | true exactly when every worker of the fleet has finished |
| Window.MainWindow.StopClicked | MemTestHelper2/MainWindow.xaml.cs:235-247 | appends exactly `FleetStopRequests` of the fleet to the stop log, requests cancellation and stops the timer |
| Window.MainWindow.CheckPolicies | MemTestHelper2/MainWindow.xaml.cs:749-773 | with checks on, a worker above the stop-at value that is not finished is sent `Stop()`, and a worker with errors clicks Stop; with checks off, nothing happens |
| Window.MainWindow.RefreshRecords | MemTestHelper2/MainWindow.xaml.cs:736-777 | reads the leading readable workers. It refreshes their records from their snapshots and applies the policies to each. It returns how many it read and their exact coverage and error sums |
| Window.MainWindow.UpdateCoverageInfo | MemTestHelper2/MainWindow.xaml.cs:728-792 | the tick completes exactly when every worker is present and readable. Either way the records of the workers read are refreshed, and the stop log and stop clicks follow the policies for exactly those workers. Only a completed tick writes the total (mean coverage, summed errors) and, with checks on, clicks Stop once more if all are finished. The table stays well formed |
| Window.MainWindow.UpdateSpeedTime | MemTestHelper2/MainWindow.xaml.cs:800-815 | the estimate is `SpeedTime` of the total record's coverage, and there is none while that coverage is not positive |

## Left out

- The WPF user interface is not modelled. This covers message boxes, `Dispatcher.Invoke`/`lstCoverage.Invoke`, combo-box item lists, the `CollectionViewSource` filter, row colours, the version label and `UpdateControls`. A message box is a `Rejection` value, and the user's answer to the paging warning is a parameter.
- `ClickBtnStop` (lines 824-837) is a count of stop clicks (`stopClicks`). Its automation-peer invoke is queued on the dispatcher, so the fleet stop it causes is the separate `StopClicked` method.
- Concurrency is not modelled. `BackgroundWorker`, `RunInBackground` and the timer are left out. The `Parallel.For` fan-outs are sequential loops, and the lock on the total record is atomic.
- The drain wait after cancellation (lines 80-111) is not modelled. It uses clocks and sleeps; its `IsAllFinished` test is the modelled method.
- The `MemTest` class is not part of this model. Its process start, `Stop()`, `Close()`, window reading and `CloseNagMessageBox` are left out. A worker is the state the window reads from it; `Stop()` is an entry in `stopLog`, and whether each instance started is an input to `StartMemTests`.
- `CloseMemTests` and `CloseAllMemTests` (lines 704-726), and the `File.Exists` check (line 195), are left out. They are process and file-system calls.
- Logging is outside the model. This covers the NLog setup and calls (lines 47-58, 201-207, 519, 528, 609) and the `MemTest.VerboseLogging` and `MemTest.Timeout` settings that `StartMemTests` writes (lines 660-661).
- `LoadConfig` and `SaveConfig` (lines 400-510) are left out. They only read and write the configuration store.
- `ComputerInfo` RAM figures, `NUMBER_OF_PROCESSORS`, `MemTest.WIDTH`/`HEIGHT`/`MAX_RAM`, `MemTest.DEFAULT_TIMEOUT.Seconds` and the work-area size are parameters. The work area is taken as already cast to `int`.
- Fleet.Total, Fleet.MeanOfEqualCoverages, Fleet.MeanWithinRange: the sum at line 775 and the mean at line 783 are exact reals here, not `double`. Under IEEE doubles these two lemmas hold only up to rounding: three workers at 0.1 % sum to 0.30000000000000004, giving a total of 0.10000000000000002, which is above every worker.
- Stats.SpeedTime: `double` is exact `real` here, so IEEE rounding is not modelled. With zero elapsed time the speed is `None` where the code divides by zero and gets an infinity.
- `TimeSpan` formatting and parsing of the elapsed and estimate labels (lines 101-105, 796-797, 810-812) and the `f2` speed format are left out.
- The show, hide and minimise loops (lines 141-191, 249-287) only forward to the OS window state and are left out. They differ on a null slot: the button handlers stop at the first null slot (lines 258, 280), while the state-change handler skips it (lines 152, 173).
- Digits.CharIsDigit: the non-ASCII digits are the Unicode category Nd blocks of the Basic Multilingual Plane up to Unicode 8; the table of a particular .NET runtime may be older or newer.
- Fleet.CoverageSum, Fleet.ErrorSum, Validation.ValidateInput: integers are unbounded. The 32-bit wrap-around of `totalErrors` and of `MAX_RAM * threads` is not modelled.
- Window.MainWindow.UpdateCoverageInfo: the tick reads the stop-at value as an already parsed number (`Policy.stopAt`). The code calls `Convert.ToInt32(txtStopAt.Text)` on every tick, which the validation made safe at start.
- Window.MainWindow.LayoutMemTests: it requires a non-zero row count, and a zero column count only when every slot is null. Otherwise the code divides by zero.
- Window.MainWindow.StartMemTests: a new instance is not finished and has no snapshot yet. The model assumes nothing more about MemTest's own start.
- Window.MainWindow.constructor: `InitCboRows` results are not stored. The row options are what `SelectThreads` and `Layout.InitCboRows` return.
- The error-stop policy clicks Stop once for each erroring worker in a tick, not once per tick. Each click is counted.
- The layout subtracts 5 from the x spacing and 3 from the y spacing (lines 684-685), while a plain reading of "spacing" would not. The model follows the code.
- Centring (lines 624-625) ignores the spacing and uses only the window sizes. The model follows the code.

## Findings

| source | as written | input that shows it | evidently intended | confidence | as-written member | corrected member |
|---|---|---|---|---|---|---|
| MemTestHelper2/MainWindow.xaml.cs:532-596 | the RAM and stop-at texts are checked with `char.IsDigit`, which accepts every Unicode decimal digit, and then passed to `Convert.ToInt32`, which reads ASCII digits only and throws `FormatException`; nothing catches it | RAM box "٣" (Arabic-Indic three), or stop-at "５０" (fullwidth) | a non-ASCII digit is rejected with "must be an integer" like any other non-digit | not executed | Validation.NonAsciiDigitsThrow | Validation.ValidateInputChecked |
| MemTestHelper2/MainWindow.xaml.cs:532-540 | the RAM text is checked to be digits only and then passed to `Convert.ToInt32`, which throws `OverflowException` above `Int32.MaxValue`; nothing catches it | RAM box "3000000000" with 8 threads | an oversized entry is rejected with a message like any other bad entry | not executed | Validation.OversizedRamOverflows | Validation.ValidateInputChecked |
