# FlowCode Playground: verified model

A Dafny model of the state-keeping and byte-level code of the FlowCode Playground server and
runner, with proofs about whole runs of it. `dafny verify dfyconfig.toml` checks everything.

| file | models |
|---|---|
| `RateLimiter.dfy` | the per-client token bucket and its sweeper, and when forgetting idle clients is unobservable |
| `Timestamps.dfy`, `Schedule.dfy`, `Scheduler.dfy`, `TriggerRuns.dfy` | RFC 3339 text, next-run arithmetic, the tick loop that compares times as text, and what each firing records |
| `BridgeCodec.dfy`, `Bridge.dfy`, `BridgeInterleaving.dfy` | the app-call wire protocol: both codecs, both ends, and the races of one run |
| `KvTrace.dfy`, `KvDump.dfy`, `KvRoundTrip.dfy` | the runner's `store set` trace, which lines it holds, and the regular expression that reads it back |
| `Quota.dfy` | the one-minute sliding window that compacts its slice in place |
| `AppLog.dfy` | the bounded operational log, down to its text |
| `Disassembler.dfy`, `Images.dfy`, `Runes.dfy`, `ShownCalls.dfy` | the bytecode decoder against the assembler of its tests, what it accepts and returns field by field, what it shows as text, and what its call text can and cannot say |
| `ContentStore.dfy`, `ContentHistory.dfy` | files, versions, deployments and triggers under their SQL constraints |
| `Roles.dfy`, `Administrators.dfy` | memberships, shares and edit tests; the administrators' allowlist |
| `Bytes.dfy`, `Numerals.dfy`, `Durations.dfy`, `Wrappers.dfy` | little-endian words, decimal numerals, units of time, options and results |

## Conventions

- Tables are maps from ids, or sets of rows; UNIQUE, CHECK, foreign keys and cascades of the
  migrations are invariants, and a call that a constraint refuses changes nothing. Each store
  call, sign-in, removal and seeding is one atomic step. Ids come from counters.
- Instants are integers (nanoseconds since the start of year 0, UTC); integers are unbounded
  except where the code's own width matters (32-bit lengths on the wire, bytes, 16-bit version).
  Token counts are exact reals.
- Code that updates state is a class or a method proved against a specification function; the
  theorems are about those functions and about runs folded over them.
- Clocks are parameters of each call. The limiter's clock is read under its lock, so its runs are
  ordered; the quota's is read before its lock, so its runs need not be, and the theorems say
  exactly what that costs.
- `Service`, the JSON codec of log entries and the database's `lower()` are arbitrary function
  parameters.

## Where the code does not do what its comments say

- `server/ratelimit.go:75-76` calls forgetting a swept bucket indistinguishable from keeping it.
  That holds exactly when a bucket refills from empty within the idle time and one tick
  (`ForgettingIsUnobservable`). The admin settings admit values for which it does not, such as
  1 call a minute with a burst of 20 (`ServerSettings`).
- `runner/fcplay.c:345` drains an over-long result to keep the framing, but an over-long status is
  clamped and not drained. `FramingIsExact` says which replies keep the frame boundary.
- `server/internal/db/migrations/0001_workspaces_users.sql:13-15` relies on the order of time texts; it is the order
  of the instants exactly for years before 10000 (`TextOrderRange`).
- `server/internal/applogs/applogs.go:52` trims "when a file reaches trimAt lines"; the code trims on
  exactly the appends that find 5000 lines there (`TrimsPastTheMark`), so a log really holds 5000
  lines between trims (`LinesAfter`).
- `server/internal/applogs/applogs.go:67` calls the counter the lines in the file. `CounterIsExact` says for which
  files an append keeps it so.
- `server/internal/apps/apps.go:212-214` reads the clock before taking the lock. `CompactionIsExact`
  and `QuotaIsExact` give the orders of readings for which the window decides as a full history
  would, and keeps the limit, whatever the limits of the single calls are. A limit that never changes
  is kept under every order exactly when it is at most one a minute (`ConstantLimitIsExact`); for
  larger ones the condition of `QuotaIsExact` is enough and not always needed: the readings 0, 60s,
  59s fail it, yet exceed no such limit. `LateReadingBreaksQuota` is a run of four calls that exceeds a limit of two.
- `server/projects.go:12` promises access by "workspace membership or a share". Access is exactly
  membership (`AccessIsMembership`); a share can outlive the membership and then gives nothing
  (`ShareWithoutAccess`).
- `server/cmd/admin/pages.go:422` counts before it deletes; `OverlappingRemovals` says what two
  overlapping removals leave.
- `server/internal/engine/bridge.go:36-39` appends every completed call to the records, but
  `server/internal/engine/engine.go:155-181` returns them without waiting. They are complete exactly
  when no call is answered and still unrecorded at that moment (`ReturnedRecordsAreComplete`), and
  some run does lose the last one (`TheLastRecordCanBeMissing`).

## Model

| member | source | states |
|---|---|---|
| RateLimiter.Limiter.Allow | server/ratelimit.go:47-73 | one access refills the key's bucket up to the burst and takes a token when there is one; the verdict, the wait and every bucket afterwards |
| RateLimiter.Limiter.Sweep | server/ratelimit.go:77-87 | exactly the buckets untouched for longer than the idle time are gone |
| RateLimiter.ForgettingIsUnobservable | server/ratelimit.go:75-87 | a limiter that sweeps gives the same verdicts and waits as one that never does on every run, if and only if an empty bucket refills within the idle time plus one tick |
| RateLimiter.ExposingRun | server/ratelimit.go:77-87 | otherwise a concrete run tells the two apart |
| RateLimiter.AdmissionsAreBounded | server/ratelimit.go:47-73 | calls admitted for one key in any window of W nanoseconds, on any run with sweeps over many keys, number at most burst + perMinute * W / 60 seconds |
| RateLimiter.RateBoundIsExact | server/ratelimit.go:47-87 | that bound holds for all runs if and only if buckets refill while idle |
| RateLimiter.TwoBurstsAdmitted | server/ratelimit.go:81-85 | otherwise a client gets two whole bursts, one either side of a sweep |
| RateLimiter.ServerSettings | server/main.go:196 | a common setting refills while idle, an admissible slow one does not |
| RateLimiter.DelayIsSharp | server/ratelimit.go:69-72 | admitted without a wait exactly with a whole token; otherwise the advertised delay is a positive whole number of seconds, later than the deficit at perMinute tokens a minute by at most one second, and pays it off |
| RateLimiter.SteadyCallersAreNeverDenied | server/ratelimit.go:56-67 | a client whose calls are a perMinute-th of a minute apart is always admitted, on any run with any sweeps and other clients |
| RateLimiter.RefillIsPerMinute | server/ratelimit.go:38 | time refills its share of perMinute tokens a minute |
| RateLimiter.WaitingIsEnough | server/ratelimit.go:56-72 | a denied caller who comes back after the delay is admitted, whatever sweeps, other clients' calls and denied retries came between |
| RateLimiter.KeptAdmissionsAreBounded | server/ratelimit.go:57-67 | without sweeps the bound needs no condition and holds from any sound state |
| Timestamps.CivilOf | server/internal/scheduler/schedule.go:84 | the calendar reading of an instant is a real date and counts back to that instant |
| Timestamps.DaysBeforeYearAre | server/internal/scheduler/schedule.go:84 | the calendar has the Gregorian leap years: by fours, not by hundreds, but by four hundreds |
| Timestamps.DaysBeforeMonthAre | server/internal/scheduler/schedule.go:84 | the days before each month, in a closed form |
| Timestamps.KnownDates | server/internal/scheduler/schedule.go:84 | the Unix epoch and a leap day, to the character |
| Timestamps.ParsesExactly | server/internal/scheduler/schedule.go:86 | of the texts of twenty characters exactly the formatted whole seconds are read, each as its own instant |
| Timestamps.ReadingBack | server/internal/scheduler/schedule.go:84 | every real date is the reading of its own instant |
| Timestamps.CalendarOrderIsTimeOrder | server/internal/scheduler/schedule.go:84 | field-by-field calendar order implies time order |
| Timestamps.FormatThenParse | server/internal/scheduler/schedule.go:84-86 | parsing a formatted instant gives it back cut to whole seconds, for years 0 to 9999 |
| Timestamps.TextOrderIsTimeOrder | server/internal/scheduler/schedule.go:84 | the byte order of formatted instants is their order in whole seconds |
| Timestamps.TextOrderRange | server/internal/scheduler/schedule.go:84 | text order is time order on a range from year 0 if and only if the range ends before year 10000 |
| Schedule.AdvancePastNow | server/internal/scheduler/schedule.go:59-72 | the stepping loop terminates and returns the closed form, with the same errors |
| Schedule.AdvancedIsLeastPoint | server/internal/scheduler/schedule.go:66-71 | the result is the least point of the trigger's lattice strictly after now and not before the previous run |
| Schedule.PointPastIsLeast | server/internal/scheduler/schedule.go:68-70 | the closed form is the least lattice point past now |
| Schedule.DailyRunIsLeast | server/internal/scheduler/schedule.go:35-44 | a daily run is the least instant strictly after now whose clock reads HH:MM:00, at most 24 hours ahead |
| Schedule.DailyTimesAreExact | server/internal/scheduler/schedule.go:74-80 | exactly H:MM and HH:MM below 24:00 are daily times, each read as itself |
| Schedule.WhatCanBeScheduled | server/internal/scheduler/schedule.go:26-65 | a next run can be computed for exactly the positive intervals and the readable daily times |
| Schedule.FirstRunIsOneStepOn | server/internal/scheduler/schedule.go:29-34 | a new interval trigger starts one interval from now, where advancing from now would put it |
| Schedule.TodayByTheClock | server/internal/scheduler/schedule.go:40 | building a date from now's calendar day is rounding down to the day and adding the clock time |
| Scheduler.Ticker.WSDueTriggers | server/internal/store/workspaces_content.go:400-416 | the rows are exactly the enabled triggers whose text is not after now's, each once |
| Scheduler.Ticker.FireDue | server/internal/scheduler/scheduler.go:67-77 | a tick reschedules every due trigger and no other, and leaves the executions, key-value log and app-call records of firing them one after the other |
| Scheduler.Ticker.Fire | server/internal/scheduler/scheduler.go:79-127 | one firing runs the source as the project's creator and records the run, or nothing when the source is gone; it reschedules either way |
| Scheduler.Ticker.RecordRun | server/internal/scheduler/scheduler.go:101-124 | one execution with its user and times, the keys the trace sets, and the app calls |
| Scheduler.Ticker.KeepSets | server/internal/scheduler/scheduler.go:116-122 | upserting the extracted keys one by one in any order writes exactly those of that project |
| Scheduler.Ticker.RecordAppCalls | server/internal/scheduler/scheduler.go:129-154 | mail and HTTP calls are recorded in order under their family, logger calls are not |
| TriggerRuns.StoredValuesReachTheLog | server/internal/scheduler/scheduler.go:116-122 | from program to log: firing a program whose trace ends in its dump leaves the displayed final values of its named keys in the project's log, and no other change |
| TriggerRuns.ExecutionIsExact | server/internal/scheduler/scheduler.go:79-124 | field by field, the execution a firing records, with the creator as user and the times of the tick and of the end; without a source nothing is recorded |
| TriggerRuns.RecordedExactly | server/internal/scheduler/scheduler.go:129-154 | every mail or HTTP call is recorded at the place its order gives it, under its family, and nothing else is |
| TriggerRuns.FiringKeepsAttribution | server/internal/scheduler/scheduler.go:129-154 | every app-call record belongs to an execution, carries its user, and is of mail or HTTP |
| Scheduler.TicksKeepAttribution | server/internal/scheduler/scheduler.go:67-77 | whole ticks keep that |
| Scheduler.OtherProjectsKeepTheirLog | server/internal/scheduler/scheduler.go:116-122 | a tick leaves the key-value log of a project alone unless it fires one of its triggers |
| Scheduler.Ticker.Reschedule | server/internal/scheduler/scheduler.go:156-174 | the next run is stored, or the trigger disabled when none can be computed; a broken stored time counts as now |
| Scheduler.Ticker.SetEnabled | server/internal/store/workspaces_content.go:418-422 | pausing and resuming change the flag of that trigger alone |
| Scheduler.SwitchIsExact | server/internal/store/workspaces_content.go:418-422 | a pause or resume sets that flag of that trigger and changes nothing else |
| Scheduler.PauseStopsFiring | server/internal/store/workspaces_content.go:400-422 | over any run a paused trigger does not fire until it is resumed |
| Scheduler.ResumeStartsFiring | server/internal/store/workspaces_content.go:400-422 | a resumed trigger fires at the first tick that finds its stored second passed, and not before, unless paused again |
| Scheduler.BrokenTriggersFireOnce | server/internal/scheduler/scheduler.go:165-170 | a trigger whose schedule makes no sense fires at most once before somebody resumes it |
| Scheduler.UnreadableTimeStartsOver | server/internal/scheduler/scheduler.go:157-160 | an unreadable stored time restarts the interval at the tick |
| Scheduler.LastRunIsLastFiring | server/internal/store/workspaces_content.go:424-429 | over any run the stored last run is the instant of the last firing |
| Scheduler.DueExactly | server/internal/store/workspaces_content.go:400-416 | the text comparison selects precisely the enabled triggers due at the whole second of now |
| Scheduler.PhaseIsKept | server/internal/scheduler/schedule.go:50-58 | over any run of ticks, pauses and resumes the stored next run of an interval or daily trigger stays on its original lattice |
| Scheduler.RunFollowsSchedule | server/internal/scheduler/scheduler.go:67-77 | all firings of a run follow the schedule, each at or after its own point |
| Scheduler.SchedulePointBetweenFirings | server/internal/scheduler/schedule.go:19-22 | two consecutive firings have a schedule point after the first and not after the second: backlogs are skipped, not burst through |
| Scheduler.FiringsAreBounded | server/internal/scheduler/scheduler.go:67-77 | a window of length W holds at most ceil(W/step)+1 firings |
| Scheduler.DailyNext | server/internal/scheduler/schedule.go:35-44 | a daily trigger's next run is the next point of the one-day lattice through its stored one |
| Scheduler.DailyInstantBetweenFirings | server/internal/scheduler/schedule.go:24-25 | between two firings of a daily trigger, in any history, the clock has read its HH:MM:00 |
| Scheduler.DailyFiresAtMostTwiceADay | server/internal/scheduler/schedule.go:24-25 | no 24 hours hold more than two firings of a daily trigger |
| BridgeCodec.CallRoundTrip | runner/fcplay.c:304-329 | the server decodes what the runner encoded, parameters as a last-wins map, whatever follows on the stream |
| BridgeCodec.CallOverLimitsIsRefused | server/internal/engine/bridge.go:106-160 | a call over any of the server's limits is refused |
| BridgeCodec.LastWinsHolds | server/internal/engine/bridge.go:121-132 | the decoded parameters hold exactly the keys sent, each with its last value |
| BridgeCodec.SmallRequest | runner/fcplay.c:304-329 | a request frame byte by byte |
| BridgeCodec.SmallReplies | server/internal/engine/bridge.go:162-179 | two reply frames byte by byte |
| Bytes.LE32Bytes | runner/fcplay.c:246-250 | the four bytes of an encoded word, least significant first |
| BridgeCodec.ReplyRoundTrip | runner/fcplay.c:331-356 | the runner decodes verdict, status and 64 KiB of result, and stands on the boundary, if and only if the status has at most 255 bytes |
| BridgeCodec.FramingIsExact | runner/fcplay.c:333-356 | exactly which replies leave the reader on the frame boundary, over-long statuses included |
| BridgeCodec.LongStatusLosesTheFrame | runner/fcplay.c:335 | an over-long status of text loses the boundary |
| Bridge.Runner.SendCall | runner/fcplay.c:304-329 | the writes of one call put exactly its encoding on the wire |
| Bridge.Runner.ReceiveReply | runner/fcplay.c:331-356 | the reads of one reply consume exactly what the decoder does and leave the zero-padded result in the static buffer |
| Bridge.Runner.ReceiveResult | runner/fcplay.c:339-356 | the part of the result that does not fit is drained |
| Bridge.ReadBridgeString | server/internal/engine/bridge.go:144-160 | reads exactly one counted string, or refuses its length |
| Bridge.ReadBridgeRequest | server/internal/engine/bridge.go:106-139 | reads exactly one request off the wire, with the same refusals as the decoder |
| Bridge.HandleBridgeConn | server/internal/engine/bridge.go:60-97 | what a connection writes back and records for any input bytes and any service |
| Bridge.Served | server/internal/engine/bridge.go:60-97 | at most 256 calls of a connection are dispatched and recorded |
| Bridge.ExchangeStaysInSync | server/internal/engine/bridge.go:60-97 | one exchange leaves both ends on a frame boundary, each having decoded what the other encoded |
| Bridge.SessionStaysInSync | runner/fcplay.c:292-369 | so does every sequence of calls on one connection: call i is dispatched after the ones before it, recorded under its own name with the status, request and response of its outcome, and answered with its verdict, status and at most 64 KiB of result; no byte is left over |
| Bridge.BadFrameEndsService | server/internal/engine/bridge.go:63-66 | a call over the limits ends the service of its connection without an answer or a record |
| Bridge.CallLimit | server/internal/engine/bridge.go:67-71 | the 257th call is refused with a decodable reply and nothing more is dispatched |
| BridgeInterleaving.StepKeepsInv | server/internal/engine/bridge.go:40-97 | every action of runner, server or engine keeps the records at most one behind the answers |
| BridgeInterleaving.RecordsFollowAnswers | server/internal/engine/bridge.go:84-95 | in every interleaving the records are the answered calls in order, missing at most the last and that exactly while it is answered and unrecorded; the dispatches of a connection, counted along the run, are at most 256 |
| BridgeInterleaving.ReturnedRecordsAreComplete | server/internal/engine/bridge.go:36-39 | for every run split at the engine's return: it hands back all calls answered by then if and only if none is answered and unrecorded, and all but the last otherwise |
| BridgeInterleaving.TheLastRecordCanBeMissing | server/internal/engine/engine.go:155-181 | some interleaving does lose the last record |
| KvTrace.Trace.LogStoreSet | runner/fcplay.c:101-121 | the buffer loop prints the sanitised value, cut at 512 bytes with an ellipsis |
| KvTrace.Trace.DumpStores | runner/fcplay.c:137-172 | the loop over instructions and the 64-entry table prints the specified lines |
| KvTrace.IsSeen | runner/fcplay.c:160-163 | the table scan finds a key if and only if it is in the filled part |
| KvTrace.StoreTarget | runner/fcplay.c:149-158 | which key an instruction names, if any |
| KvTrace.ExtractStoreSets | server/internal/store/kv.go:36-42 | the map built from leftmost non-overlapping matches, later ones winning |
| KvRoundTrip.StoredKeysAreNamed | runner/fcplay.c:93-158 | an instruction stores under a key if and only if it is opcode 7 with under 256 argument bytes, whose text up to the first NUL is the key, or last_token without an argument, and the key starts with neither on_error: nor __on_error. |
| KvDump.DumpIsExact | runner/fcplay.c:137-172 | a dump prints a line for exactly the instructions whose key is stored and not among the first 64 keys named before them |
| KvDump.EachKeyIsPrintedOnce | runner/fcplay.c:130-131 | a program naming at most 64 keys has each printed once, where first named, with its final value |
| KvDump.FirstKeysAreNamed | runner/fcplay.c:126-158 | those keys are all different and exactly the ones the program names |
| KvRoundTrip.SampleLine | server/internal/store/kv.go:20-23 | the line of the parser's comment, to the byte |
| KvRoundTrip.WordIsSpelled | server/internal/store/kv.go:30 | a word of the expression matches exactly the spellings that fold to it |
| KvRoundTrip.ExtractionIsLeftmost | server/internal/store/kv.go:36-42 | the leftmost match of the expression is taken, its key written, and reading goes on behind it |
| KvRoundTrip.MatchIsExact | server/internal/store/kv.go:30 | greedy reading finds a match at a position if and only if the regular expression has one there, and it is the only one |
| KvRoundTrip.LineIsRead | server/internal/store/kv.go:36-42 | a printed line is read as its key and displayed value, and reading goes on behind it |
| KvRoundTrip.EarlierOutputIsIgnored | server/internal/store/kv.go:36-42 | output free of the word store in front of a dump changes nothing |
| KvRoundTrip.DumpIsRead | runner/fcplay.c:137-172 | a dump with any table contents adds the final displayed values, also past the table's capacity |
| KvRoundTrip.TraceRoundTrip | runner/fcplay.c:123-172 | extracting from a dump yields exactly the stored non-synthetic keys with their displayed values, if and only if no such key holds a quote |
| KvRoundTrip.DisplayIsExact | runner/fcplay.c:104-119 | the displayed value byte by byte: plain bytes kept, quotes as apostrophes, controls as blanks, dots for what is behind 512 |
| KvRoundTrip.DisplayIsLossless | runner/fcplay.c:104-119 | a value is shown whole if and only if it is plain and has at most 512 bytes, or is plain so far, three bytes longer and ends in three dots itself |
| Quota.Compact | server/internal/apps/apps.go:216-221 | compacting over the array being read keeps exactly the recent times, in order |
| Quota.Slide | server/internal/apps/apps.go:216-227 | the verdict and the slice stored back |
| Quota.Service.AllowQuota | server/internal/apps/apps.go:203-228 | one call changes the window of its user and app alone; arrays are never shared between windows |
| Quota.CompactionIsExact | server/internal/apps/apps.go:216-227 | the compacted window decides every call as a limiter keeping the whole history would, for all limits, if and only if no later reading falls back within a minute of a time an earlier reading had put behind it |
| Quota.OrderedTimesNeverLapse | server/internal/apps/apps.go:212-214 | readings in lock order meet that condition |
| Quota.QuotaIsExact | server/internal/apps/apps.go:203-228 | every minute holds at most the largest limit of accepted calls, for all limits, which may differ from call to call, if and only if no reading had put a time a minute behind it before a later reading less than a minute from that time |
| Quota.AcceptedExactly | server/internal/apps/apps.go:216-227 | without a lapse a call is accepted if and only if fewer than its limit were accepted at times less than a minute before it |
| Quota.ConstantLimitIsExact | server/internal/apps/apps.go:203-228 | a limit that is the same for every call is kept under all orders of readings if and only if it is at most one |
| Quota.QuotaIsKept | server/internal/apps/apps.go:203-228 | with readings in lock order every interval of a minute holds at most the largest limit of accepted calls |
| Quota.LateReadingBreaksQuota | server/internal/apps/apps.go:212-214 | four readings out of order for which a minute holds three calls under a limit of two |
| Quota.WindowsAreIndependent | server/internal/apps/apps.go:211-227 | in any run over many users and apps each window is what its own calls alone produce |
| AppLog.Logger.constructor | server/internal/applogs/applogs.go:71-74 | the counter starts at the number of lines read from any file, which for a file of whole lines is theirs |
| AppLog.CounterIsExact | server/internal/applogs/applogs.go:88-96 | for a file of any shape an append keeps the counter equal to the lines read back if and only if the file was empty or ended in one newline behind some text |
| AppLog.TrimsPastTheMark | server/internal/applogs/applogs.go:94-96 | an append trims if and only if it finds at least 5000 lines |
| AppLog.LinesAfter | server/internal/applogs/applogs.go:77-117 | the number of lines after any number of appends to a fresh log: up to 5000, then round between 2500 and 5000 |
| AppLog.Logger.Append | server/internal/applogs/applogs.go:77-97 | the file stays whole lines, the counter its line count, and at most 5000 |
| AppLog.Logger.Trim | server/internal/applogs/applogs.go:102-117 | splitting, cutting and joining the text keeps exactly the newest 2500 lines |
| AppLog.Tail | server/internal/applogs/applogs.go:122-141 | the backward loop returns the newest entries that decode, newest first |
| AppLog.PaddingIsIgnored | server/internal/applogs/applogs.go:129-137 | blanks around a line make no difference, and a line of blanks is no entry |
| AppLog.ReadsBackLines | server/internal/applogs/applogs.go:160-174 | reading a file of whole lines gives those lines |
| AppLog.FileIsEndOfHistory | server/internal/applogs/applogs.go:77-117 | after any appends the file is an end of the untrimmed history, at least 2500 lines of it unless all, and at most 5000 |
| AppLog.TailSeesWholeHistory | server/internal/applogs/applogs.go:119-141 | reading at most 2500 entries from the bounded file, torn last line or not, gives the newest of the whole history |
| Disassembler.Disassemble | server/internal/engine/disasm.go:69-154 | for every byte string: the error, or an instruction per record, never reading outside the image |
| Disassembler.RenderCallArg | server/internal/engine/disasm.go:158-171 | the rendered text of a call argument, as name and decoded parameters |
| Disassembler.QuoteReadable | server/internal/engine/disasm.go:204-226 | the quoted text, as the escaping of each byte |
| Disassembler.AssembledImageDecodes | server/internal/engine/disasm_test.go:172-188 | every assembled image is accepted and decodes to exactly its instructions and blob |
| Images.AssembledFields | server/internal/engine/disasm.go:104-148 | field by field, what an assembled image's instruction comes back as: index, name, hexadecimal opcode, offset, length, argument text, target |
| Images.AcceptedExactly | server/internal/engine/disasm.go:69-90 | the decoder accepts exactly the assembled images, with any reserved bytes and anything behind them, and takes count, size, code and blob from where they were put |
| Images.JumpTextNamesTarget | server/internal/engine/disasm.go:134-137 | the text of a jump holds its target as its only number |
| Images.OutOfBoundsTextNamesAll | server/internal/engine/disasm.go:124-126 | the text of an argument outside the blob holds its offset, its length and the blob's size |
| Runes.PrintableIsReadableText | server/internal/engine/disasm.go:186-200 | a payload counts as text if and only if it is the UTF-8 encoding of runes that are no controls but tab and line ends |
| Runes.DataIsQuotedWhenReadable | server/internal/engine/disasm.go:144-148 | data is quoted if and only if it is readable text, and hexadecimal otherwise |
| Disassembler.JumpTargets | server/internal/engine/disasm.go:124-137 | an instruction shows a target if and only if it is a jump with a four-byte argument inside the blob, and then the one encoded there |
| Disassembler.OpcodeIsShown | server/internal/engine/disasm.go:110-121 | the opcode can be read off its hexadecimal form, named or not |
| Disassembler.DataIsRecoverable | server/internal/engine/disasm.go:138-148 | data arguments can be recovered from what is shown, quoted or hexadecimal |
| Disassembler.CallIsRecoverable | server/internal/engine/disasm.go:158-182 | splitting a NUL-free call argument gives its name and parameters if and only if it is terminated or does not end in an empty pair |
| ShownCalls.ShownCallReadsBack | server/internal/engine/disasm.go:158-171 | the shown text, read at its spaces and equals signs, gives the call back if and only if no name, key or value holds a space and no key an equals sign |
| ShownCalls.ShownCallIsRecoverable | server/internal/engine/disasm.go:140-143 | the same from the argument blob to the shown text and back |
| ShownCalls.ShownTextIsAmbiguous | server/internal/engine/disasm.go:158-171 | the shown text stands for one NUL-free call only if and only if that call has no parameters and its name has no equals sign behind a space |
| ContentStore.Store.UpsertWSFile | server/internal/store/workspaces_content.go:129-157 | an existing file changes its content only; a new one goes behind the last position |
| ContentStore.Store.DeleteWSFile | server/internal/store/workspaces_content.go:159-164 | the file goes, with the deployments and triggers that run it |
| ContentStore.Store.CreateWSVersion | server/internal/store/workspaces_content.go:178-218 | the row loop freezes every file of the project under the next number; a project without files is refused |
| ContentStore.Store.RestoreWSVersion | server/internal/store/workspaces_content.go:260-286 | the loop upserts every frozen row once |
| ContentStore.FrozenContent | server/internal/store/workspaces_content.go:250-258 | the content frozen under a version and name, if there is a row |
| ContentHistory.StepKeepsValid | server/internal/db/migrations/0001_workspaces_users.sql:66-122 | every call keeps names and positions distinct within a project, version numbers gapless, snapshots unambiguous and pins resolvable |
| ContentHistory.NumbersHaveNoGaps | server/internal/store/workspaces_content.go:193-197 | in every reachable store a project's version numbers are exactly 1..k |
| ContentHistory.UpsertKeepsPlace | server/internal/store/workspaces_content.go:130-138 | an upsert of an existing file changes its content and nothing else |
| ContentHistory.UpsertAppends | server/internal/store/workspaces_content.go:144-156 | an upsert of a new file adds one row right behind the project's last position |
| ContentHistory.DeleteIsExact | server/internal/store/workspaces_content.go:159-164 | deleting takes that file of that project, with exactly the deployments and triggers that run it |
| ContentHistory.PinnedRunsTheSnapshot | server/deployments.go:199-216 | a row pinned to a version runs, after any later calls, the content its file had when the version was taken |
| ContentHistory.LiveRunsTheLatest | server/deployments.go:208-210 | an unpinned row runs what was last written to its file |
| ContentHistory.PinnedDeploymentIsStable | server/deployments.go:199-216 | the source of a pinned deployment never changes under any later calls while its row exists, nor does the row |
| ContentHistory.PinnedTriggerIsStable | server/internal/scheduler/scheduler.go:178-187 | the same for a pinned trigger |
| ContentHistory.BothLookupsAgree | server/internal/scheduler/scheduler.go:178-187 | the deployment's lookup by id and the scheduler's by name give the same source |
| ContentHistory.VersionStaysFrozen | server/internal/store/workspaces_content.go:250-258 | the content of a version never changes while the version exists |
| ContentHistory.RestoreIsExact | server/internal/store/workspaces_content.go:260-286 | restoring gives every file of the version its frozen content and leaves every other file of every project alone, in any row order |
| ContentHistory.SnapshotThenRestore | server/internal/store/workspaces_content.go:178-286 | snapshot, any calls, restore: snapshot files have their old content, all others are as before the restore |
| Roles.Store.AddWorkspaceMember | server/internal/store/workspaces.go:202-214 | insert or update of one membership, refused for a role outside the vocabulary |
| Roles.Store.UpsertProjectShare | server/internal/store/workspaces.go:279-291 | insert or update of one share, refused for a role outside the vocabulary |
| Roles.StepKeepsValid | server/internal/db/migrations/0001_workspaces_users.sql:40-64 | every call keeps keys unique, references resolved and roles within their CHECKs |
| Roles.DashboardAgreesWithDecisions | server/internal/store/workspaces.go:331-396 | in every reachable store the dashboard lists a project under a role if and only if access decisions use that non-empty role |
| Roles.OneRowPerProject | server/internal/store/workspaces.go:368-380 | the join never lists a project twice |
| Roles.EditTestsAgree | server/projects.go:53-60 | the rank test and the page test agree on a role if and only if it is not admin |
| Roles.EveryoneAgreesOnEditing | server/web.go:211-213 | no reachable store answers admin, so the two tests always agree |
| Roles.RanksAreExact | server/projects.go:53-60 | in every reachable store owners alone pass for owner, owners and editors for editor, and everybody listed for viewer |
| Roles.RolesAreKnown | server/internal/db/migrations/0001_workspaces_users.sql:40-46 | every stored role is one of its vocabulary |
| Roles.KnownRolesAreTaken | server/internal/store/workspaces.go:202-214 | every role of the vocabulary is taken, in place of any earlier one |
| Roles.UnsharingFallsBack | server/internal/store/workspaces.go:293-297 | taking a share back leaves a member with what the workspace role gives, and changes no other answer |
| Roles.ShareDecides | server/internal/store/workspaces.go:347-361 | granting a share to a member of the workspace makes it their answer on that project, whatever their workspace role; it changes no other answer |
| Roles.AccessIsMembership | server/projects.go:11-15 | in every reachable store a user has access to a project if and only if they are a member of its workspace |
| Roles.ShareWithoutAccess | server/internal/store/workspaces.go:216-220 | a run after which a share is left without a membership, and answers no access |
| Roles.StrangersStayOut | server/internal/store/workspaces.go:328-345 | outside a workspace no shares, held or given later, open its projects until the user is added again |
| Roles.SharesOutliveMembership | server/internal/store/workspaces.go:216-220 | removing and re-adding a member revives their shares, gives unshared projects the new membership's role, and affects nobody else |
| Administrators.Allowlist.SignIn | server/cmd/admin/auth.go:179-198 | a sign-in binds the row it resolves to, keeps the email, and leaves everything alone when refused |
| Administrators.Allowlist.AddAdministrator | server/internal/store/administrators.go:68-79 | a new unbound row, unless the folded email is taken |
| Administrators.Allowlist.HandleRemove | server/cmd/admin/pages.go:411-431 | a removal goes through if and only if the id is positive, not one's own and not the last |
| Administrators.Allowlist.SeedAdministrators | server/internal/store/administrators.go:133-152 | only an empty table is seeded, row by row up to the first refused email |
| Administrators.SignInBinds | server/internal/store/administrators.go:112-127 | a sign-in binds its row to the subject and keeps the email, takes over non-empty claims, changes no other row, and from then on that subject alone gets that row |
| Administrators.AddedMaySignIn | server/internal/store/administrators.go:66-79 | an added email gives an unbound row its fresh owner can sign in under in any folding; a listed one is refused |
| Administrators.AdditionNeedsAnAddress | server/cmd/admin/pages.go:397-409 | the handler changes nothing if and only if the address has no @ or is listed |
| Administrators.RemovalIsExact | server/cmd/admin/pages.go:411-431 | a removal takes its row unless it is one's own or the only one, and nothing else |
| Administrators.NobodyRemovesThemselves | server/cmd/admin/pages.go:418-421 | over any run a row is only lost to somebody else's removal |
| Administrators.SeededRowsAreFresh | server/internal/store/administrators.go:144-151 | seeding adds unbound, nameless rows and changes none |
| Administrators.LoginNeverConflicts | server/internal/store/administrators.go:115-127 | binding never violates a unique column |
| Administrators.WhoMaySignIn | server/internal/store/administrators.go:91-110 | exactly which claims resolve to a row |
| Administrators.StepKeepsAll | server/internal/db/migrations/0002_apps_admin.sql:68-77 | every call keeps subjects and folded emails unique |
| Administrators.IdentitiesAreStable | server/internal/store/administrators.go:112-127 | over any run a remaining row keeps its email and, once bound, its subject; a non-empty allowlist never becomes empty |
| Administrators.BoundRowAnswersToOne | server/internal/store/administrators.go:91-110 | once bound, a row answers to its subject under any email, and to nobody else, for as long as it exists |
| Administrators.RestartsUndoNothing | server/internal/store/administrators.go:129-143 | seeding changes no run that starts from a non-empty list |
| Administrators.SeedingIsComplete | server/internal/store/administrators.go:144-151 | every email goes in if and only if none is taken and no two fold alike, and then the list holds exactly those besides what it held |
| Administrators.OverlappingRemovals | server/cmd/admin/pages.go:422-426 | two removals that both pass the guard before either deletes leave nobody if and only if they name the whole list |

## Left out

- Quota.QuotaIsKept: one direction, the case of ordered readings; QuotaIsExact has both.
- RateLimiter.WaitingIsEnough: for a burst of at least one, since a bucket that holds less than a token admits nobody.
- ContentStore.Store.RestoreWSVersion: for any order of the rows, of which ORDER BY name is one.
- Timestamps.ParsesExactly: about the texts of twenty characters, the formatter's own length for those years; other lengths are not read here.
- Timestamps.FormatThenParse: numeric offsets and fractional seconds, which the parser also reads but the formatter never writes, are not part of this model.
- BridgeCodec.LongStatusLosesTheFrame: one direction; FramingIsExact has both.
- BridgeCodec.CallRoundTrip: lengths of 4 GiB and more, which no bridge string can have, are covered only by the 32-bit cut of the encoder.
- Floating-point rounding of token counts, a zero or negative rate, and a clock that steps backwards.
- Scheduler.Ticker.Fire: which sources resolve is a parameter here, proved about in ContentStore and ContentHistory; the run's summary, the actor's email and failed writes of records are not modelled.
- Scheduler.Ticker.FireDue: likewise.
- Overflow of 64-bit durations for intervals of centuries; the scheduler's retention pruning.
- Reconnecting, timeouts and partial reads or writes of the bridge socket, and the runner's log lines about calls; a failed read ends the connection.
- The stderr cap that cuts a long trace, and the exact log prefix of the VM's logger beyond `[flowcode:INFO] `; the VM and compiler are not part of this model.
- Failed file operations of the log, JSON encoding (any codec whose lines decode to their entries), and time stamping of entries.
- Error messages beyond the kind of error in the decoder, the codec and the schedule.
- Slugs, workspace and project creation beyond their ids, project and user names, execution rows that keep a version from being deleted.
- HTTP routing, pages, cookies, OIDC, mail, HTTP fetching and log shipping; PostgreSQL itself, its collation, and statements of one store call interleaving with another's, except for OverlappingRemovals.
