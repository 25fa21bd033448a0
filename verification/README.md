# Verified model of a Twitch bot

The repository is a Twitch chat bot with a web dashboard. This project models its
parsers, schedules, caches and protocols in Dafny and proves what they promise, on
all inputs and over all runs. `dafny verify dfyconfig.toml` checks everything.

| files | what they model |
|---|---|
| `AmountGrammar`, `AmountParser`, `AmountTheorems`, `AmountTrees` | the amounts that `!döner` reads: a grammar, the recursive-descent parser, and that the parser reads exactly the grammar |
| `Trigger`, `IntervalTheorems`, `Schedule`, `ScheduleTheorems`, `SummerTime` | when recurring messages fire, in a time zone with clock changes |
| `Sessions`, `RoleGate`, `GateLog` | the session table and the gate that checks roles, with requests that interleave and restarts |
| `Persist` | saving through a temporary file and a rename, by many callers at once |
| `TtlCache` | the bounded cache, against its insertion history |
| `ChatHistory`, `ChatPaging`, `ChatRetention` | the message buffer, and paging through it while it changes |
| `Ping`, `PingTheorems`, `PingLog`, `Template` | the ping actor, its runs, and its templates |
| `Emotes` | which emotes a prompt offers |
| `Agent` | the tool-calling loop and its messages on the wire |
| `Sanitize`, `Durations`, `Telemetry`, `Catalog` | outgoing text, compact durations, fire counters, the model catalog |
| `Text`, `Letters`, `Sets` | character classes, trimming, letters and their case, sizes of sets |

How the source's parts appear:

- Objects that update their fields are classes with those fields, and loops are
  loops. Each method is proved against a function; the lemmas are about the functions.
- Concurrent code is a state machine over its atomic steps: the sections that hold a
  lock, and the points at which a task may be suspended.
- Clocks, randomness, the network, saves that may fail, the tools' results and the
  order in which a hash set is iterated are parameters. Clocks are assumed not to run
  backwards where a statement says so.
- A Rust string is the sequence of its chars. Whitespace and control characters are
  the Unicode classes that Rust tests, written out; bytes are counted in UTF-8 where
  the source counts them.
- An f64 is a value of any type with the operations the parser uses, and
  `str::parse::<f64>` is a function from strings. What is assumed of them is stated in
  `AmountGrammar.SignLaws`: multiplying by one changes nothing, by minus one negates,
  and negating twice changes nothing.
- Instants are nanoseconds. A zone gives its offset at each instant and the instants
  that a local time names: one, two or none.

## Findings

Where the code does less than its comments promise, the condition under which it
keeps the promise is proved, and a concrete input shows the failure:

- An interval fires at wall-clock multiples from a moment on exactly when it divides the
  day and every clock change since the midnight before, and its window contains such a
  multiple (`IntervalTheorems.PromiseCondition`). Slots are counted in elapsed time from
  midnight, so on the day of a change that the interval does not divide they leave the
  grid (`IntervalTheorems.ChangeDayCondition`, `IntervalTheorems.ClockChangeMisaligns`).
  With summer time, as in Berlin, the intervals that stay on the grid are those that
  divide the hour (`SummerTime.SummerTimeCondition`). Validation accepts a window with
  equal ends, which contains nothing (`IntervalTheorems.EqualEndsNeverFire`).
- A removed session is still let in through a request that was waiting for its role
  check when the session was removed, by a logout or by another request's denial, unless
  the check denies it (`RoleGate.AdmittedAfterRemoval`, `RoleGate.LogoutDoesNotStopIt`,
  `RoleGate.DenialDoesNotStopIt`). Requests that come later are refused
  (`RoleGate.RemovedIsShut`).
- The lock on saving sessions is given up when a handler is dropped during its write,
  while the write goes on, and then the next save may be torn
  (`Persist.DroppedWriteTears`); otherwise the file is always whole
  (`Persist.FileNeverTornNorOlder`, `Persist.LockedIsAlone`).
- The start date is honoured unless the trigger has a fire within the second before
  it (`ScheduleTheorems.StartDateCondition`, `ScheduleTheorems.HalfSecondBreaksStart`).
- Replacing placeholders one after the other differs from replacing them at once when
  a member's name contains part of one (`Template.RenderCondition`,
  `Template.BraceInName`, `Template.BothTextsMatter`).
- A fire recorded while telemetry is being saved is marked as saved
  (`Telemetry.OverlapLosesFire`); of two saves under way the older may replace the file
  last (`Telemetry.OlderSaveLandsLast`). A clean store is on disk exactly when neither
  happens (`Telemetry.CleanCondition`, `Telemetry.SerialCondition`). These saves take no
  lock, so two at once may also tear the file (`Persist.SecondOpenTears`); the file stays
  whole when nobody opens while another is writing (`Persist.AloneStaysWhole`).

## Model

| member | source | states |
|---|---|---|
| AmountTheorems.ParsesExactlyTheSpellings | crates/core/src/commands/doener_calc.rs:22-188 | An input is accepted with value v if and only if it is a spelling of v in the grammar: an expression with the usual precedence and left association, any whitespace, signs and parentheses, optionally followed by one `€` |
| AmountTheorems.SpellingsParse | crates/core/src/commands/doener_calc.rs:22-32 | Every spelling is accepted, and yields the value of its syntax tree |
| AmountTheorems.SpellingsAgree | crates/core/src/commands/doener_calc.rs:22-32 | No text spells two values, and a text that spells one is accepted |
| AmountTheorems.EuroIsDropped | crates/core/src/commands/doener_calc.rs:22-32 | A euro sign at the end changes nothing |
| AmountTheorems.ExprComplete | crates/core/src/commands/doener_calc.rs:83-100 | Sums: a printed expression is read completely, left to right, whatever follows it that cannot belong to it |
| AmountTheorems.TermComplete | crates/core/src/commands/doener_calc.rs:102-119 | Products: likewise, binding tighter than sums |
| AmountTheorems.SignedComplete | crates/core/src/commands/doener_calc.rs:121-150 | Stacked signs: multiplying by the collected sign is negating once per minus |
| AmountTheorems.ScanTakesNumeral | crates/core/src/commands/doener_calc.rs:152-187 | Maximal munch: a numeral is scanned to its end and no further |
| AmountTheorems.ScanSound | crates/core/src/commands/doener_calc.rs:152-187 | What a scan accepts is a numeral: a mantissa with a digit, then at most one complete exponent |
| AmountTheorems.SomeNumerals | crates/core/src/commands/doener_calc.rs:154-180 | Some literals and one that is none |
| AmountTheorems.ExprSound | crates/core/src/commands/doener_calc.rs:83-100 | What is parsed as an expression is the printing of a well-formed tree with the parsed value, then whitespace, then the unread rest |
| AmountTheorems.TextIsPrinted | crates/core/src/commands/doener_calc.rs:22-32 | An accepted text is the printing of a well-formed expression of that value |
| AmountTrees.PrintingsParse | crates/core/src/commands/doener_calc.rs:22-188 | Any printing of an arithmetic tree, with whatever whitespace, redundant parentheses and plus signs, parses to the value of the tree |
| AmountTrees.TreeRoundTrip | crates/core/src/commands/doener_calc.rs:22-188 | Every arithmetic tree, printed with parentheses where precedence asks for them, parses back to its value |
| AmountTrees.NormalizeReadsLast | crates/core/src/commands/doener_calc.rs:34-48 | The whole of a normalised literal: whichever separator comes last is the decimal point wherever it occurs, the other kind is dropped, every other char stays |
| AmountTrees.NormalizeKeepsPlain | crates/core/src/commands/doener_calc.rs:34-48 | A literal without separators is read as it is |
| AmountTrees.NormalizeCountsPoints | crates/core/src/commands/doener_calc.rs:34-48 | So it has as many dots as the last kind of separator occurred: grouped digits are one number |
| AmountTrees.OperatorsAreWritten | crates/core/src/commands/doener_calc.rs:83-119 | The operators are the four chars of plus, minus, times and by |
| AmountTrees.NormalizeKeepsDigits | crates/core/src/commands/doener_calc.rs:34-48 | Normalising a literal keeps all chars but separators, in order, and leaves no comma |
| AmountTrees.NormalizeKeepsPoint | crates/core/src/commands/doener_calc.rs:34-48 | The last separator, comma or dot, becomes the decimal point, with the same digits behind it |
| AmountParser.AmountExprParser.SkipWs | crates/core/src/commands/doener_calc.rs:67-71 | Moves the cursor to the first char that is not whitespace |
| AmountParser.AmountExprParser.ParseExprAt | crates/core/src/commands/doener_calc.rs:83-100 | The loop over `+` and `-` computes the specified parse of the rest and leaves the cursor at its end; it terminates together with the routines below |
| AmountParser.AmountExprParser.ParseTermAt | crates/core/src/commands/doener_calc.rs:102-119 | The same for `*` and `/` |
| AmountParser.AmountExprParser.ParseFactorAt | crates/core/src/commands/doener_calc.rs:121-150 | The same for signs |
| AmountParser.AmountExprParser.ParseAtomAt | crates/core/src/commands/doener_calc.rs:139-147 | The same for parentheses and numbers |
| AmountParser.AmountExprParser.ScanNumberAt | crates/core/src/commands/doener_calc.rs:154-180 | The scanning loop consumes as many chars as the specification says and sees the same digits and exponent |
| AmountParser.AmountExprParser.ParseNumberAt | crates/core/src/commands/doener_calc.rs:152-187 | A number is the scanned text, read as a literal |
| AmountParser.ParseEuroAmount | crates/core/src/commands/doener_calc.rs:22-32 | Trimming, the `€`, the parser and the end-of-input test together compute the specified parse |
| IntervalTheorems.IntervalKeepsPromise | crates/core/src/schedule/trigger.rs:59-81 | For an interval of at least a minute that divides the day and a window with a grid point, at a moment with no clock change from the midnight before to eight days after, or with one within fourteen days that the interval divides: the answer is the first instant after now that is a wall-clock multiple, in the window, on an allowed weekday; the bounded scan suffices |
| IntervalTheorems.PromiseNeedsGridInWindow | crates/core/src/schedule/trigger.rs:72-80 | At such a moment, for an interval that divides the day, the promise holds if and only if the window contains a multiple of the interval |
| IntervalTheorems.EqualEndsNeverFire | crates/core/src/schedule/trigger.rs:126-138 | With equal window ends, which validation accepts, the slot returned is no fire |
| IntervalTheorems.PromiseCondition | crates/core/src/schedule/trigger.rs:4-6 | In a zone whose clock changes at most once around every moment from a given one on, for any window and weekdays: wall-clock multiples are kept from that moment on if and only if the interval divides the day and every change since the midnight before, and the window contains a multiple of it |
| IntervalTheorems.FaceCondition | crates/core/src/schedule/trigger.rs:4-6 | The same said of the clock face: the answer is the first instant that is a multiple of the interval, less far round the clock from the start of the window than its end is, on a weekday counted in whole weeks; that holds from a moment on if and only if the interval divides the day and the changes and some multiple lies so |
| IntervalTheorems.FireIsMeant | crates/core/src/schedule/trigger.rs:126-142 | What a fire of an interval trigger is, on the clock face and in whole weeks, windows over midnight included |
| IntervalTheorems.KnownWeekdays | crates/core/src/schedule/trigger.rs:75-75 | Which dates are which weekdays: two known ones, and their order |
| IntervalTheorems.NightWindow | crates/core/src/schedule/trigger.rs:126-142 | From 22:00 to 02:00, asked at 21:10: a concrete answer at 22:00 |
| IntervalTheorems.OnceCondition | crates/core/src/schedule/trigger.rs:4-6 | With a single change for ever, at every moment of all time: likewise, and the interval divides that change |
| IntervalTheorems.FixedCondition | crates/core/src/schedule/trigger.rs:4-6 | Without clock changes, at every moment of all time: if and only if the interval divides the day and the window contains a multiple of it |
| IntervalTheorems.ChangeCondition | crates/core/src/schedule/trigger.rs:66-70 | An interval of any length that divides the day, without window and weekdays, from a moment on: if and only if it divides every change since the midnight before |
| IntervalTheorems.ChangeDayCondition | crates/core/src/schedule/trigger.rs:66-70 | One moment, in any zone: on the day of a change, from just before it on, with no other change near, the promise is kept if and only if the interval divides the change |
| IntervalTheorems.PromiseNeedsDivisor | crates/core/src/schedule/trigger.rs:66-70 | Why the day: the first fire of an allowed date, asked for just before it with no change near, is a slot of the date before |
| IntervalTheorems.PromiseNeedsChangeDivided | crates/core/src/schedule/trigger.rs:67-70 | Why the change: asked just before it or later that day, the answer is a slot after it and shows a multiple only if the interval divides the change |
| IntervalTheorems.SearchFindsFirst | crates/core/src/schedule/trigger.rs:72-80 | Whatever the clock changes, as long as the interval divides the day and them: if a fire lies within the 20160 slots, the answer is the first fire after now |
| IntervalTheorems.FireAroundChange | crates/core/src/schedule/trigger.rs:72-80 | Around a clock change within one date a fire comes within fourteen days, also when the change skips its time |
| IntervalTheorems.SkipsMidnight | crates/core/src/schedule/trigger.rs:66-70 | An interval that does not divide the day skips midnight |
| IntervalTheorems.ClockChangeMisaligns | crates/core/src/schedule/trigger.rs:67-70 | Every two hours, when the clock skips an hour: a concrete answer at three oclock |
| IntervalTheorems.ScanStops | crates/core/src/schedule/trigger.rs:72-80 | The scan returns the first eligible slot within its reach |
| IntervalTheorems.StartsAtNextMultiple | crates/core/src/schedule/trigger.rs:66-70 | The first slot is the least multiple of the interval after now in the time of the last midnight, also when the clock has changed since |
| Trigger.FindInterval | crates/core/src/schedule/trigger.rs:59-81 | The bounded loop over slots computes the specified search |
| Trigger.FindCalendar | crates/core/src/schedule/trigger.rs:83-112 | The loop over dates, with the three cases of a local time and the code after the loop, computes the specified search |
| ScheduleTheorems.CalendarKeepsPromise | crates/core/src/schedule/trigger.rs:83-112 | Under any clock changes from now on with one-hour gaps that stay on their date, the answer is the first allowed fire after now, within seven days |
| ScheduleTheorems.CalendarFireIsMeant | crates/core/src/schedule/trigger.rs:83-112 | What a fire of a calendar trigger is: on its weekdays, the first instant that shows its time, or one that shows an hour later when none does |
| ScheduleTheorems.NoInstantNoFire | crates/core/src/schedule/trigger.rs:91-103 | A date on which the time and the hour after it name no single instant is passed over |
| ScheduleTheorems.FiresAtFirstShowing | crates/core/src/schedule/trigger.rs:91-100 | A repeated time fires at its first occurrence, a skipped one an hour later |
| ScheduleTheorems.DayStartsAtFirstShowing | crates/core/src/schedule/trigger.rs:115-124 | Midnight, from which slots are counted, likewise |
| ScheduleTheorems.FiresOnItsDate | crates/core/src/schedule/trigger.rs:91-100 | Single, ambiguous or skipped, each date has a fire instant on that date |
| ScheduleTheorems.ChangesAreOrderly | crates/core/src/schedule/trigger.rs:43-44 | A skipped hour in spring and a repeated hour in autumn both meet those conditions, at every time of day |
| ScheduleTheorems.AnswersEnumerateFires | crates/core/src/schedule/trigger.rs:39-56 | When the promise is kept from now on, asking again from each answer enumerates exactly the fires after now, in order |
| ScheduleTheorems.TriggersAreReliable | crates/core/src/schedule/trigger.rs:45-56 | Both kinds of trigger answer with their first fire at every moment from a given one on, when the changes from then on are orderly for calendar triggers, or rare and divided by the interval |
| ScheduleTheorems.RegularZones | crates/core/src/schedule/trigger.rs:45-56 | A zone whose clock changes rarely from a moment on is such a zone for the intervals that divide the changes |
| SummerTime.SummerTimeCondition | crates/core/src/schedule/trigger.rs:45-56 | With an hour skipped every spring and repeated every autumn, on whatever days, from the third day of the first summer on: calendar triggers keep the promise at every moment, interval triggers if and only if the interval divides the hour and the window contains a multiple of it |
| SummerTime.SummerIsOrderly | crates/core/src/schedule/trigger.rs:91-100 | Summer time is orderly at every time of day |
| SummerTime.ChangesAreRare | crates/core/src/schedule/trigger.rs:59-70 | With summer time the clock changes at most once around every moment |
| SummerTime.HourChangeCondition | crates/core/src/schedule/trigger.rs:59-81 | The same condition for a single skipped hour and for a single repeated one, at every moment of all time |
| SummerTime.YearlyKeepsSummerTime | crates/core/src/schedule/trigger.rs:43-44 | A zone with both changes every year is of this kind |
| ScheduleTheorems.ScheduleAnswersRight | crates/core/src/schedule/schedule.rs:102-128 | When the trigger keeps its promise at the moment it is asked: the next active fire is the first fire after now from the first midnight through 23:59:59 of the last date, and none exactly when there is none |
| ScheduleTheorems.ActiveByDate | crates/core/src/schedule/schedule.rs:106-128 | The fires of a schedule are those of its trigger on its dates, up to 23:59:59 of the last date |
| ScheduleTheorems.WholeSecondsActive | crates/core/src/schedule/schedule.rs:119-126 | So every fire at a whole second on those dates is active, the last date included |
| SummerTime.SummerBoundsSplit | crates/core/src/schedule/schedule.rs:106-126 | With summer time the bounds of a schedule tell before from after by the clock alone, as these two ask |
| ScheduleTheorems.StartDateCondition | crates/core/src/schedule/schedule.rs:108-116 | When the trigger keeps its promise wherever it is asked: that holds at every moment if and only if the trigger has no fire within the second before the first midnight |
| ScheduleTheorems.IntervalIsQuiet | crates/core/src/schedule/schedule.rs:113-115 | Interval triggers have none there, in any zone with whole-second offsets |
| ScheduleTheorems.WholeSecondIsQuiet | crates/core/src/schedule/schedule.rs:113-115 | Calendar triggers at a whole second have none there |
| ScheduleTheorems.HalfSecondBreaksStart | crates/core/src/schedule/schedule.rs:113-115 | A calendar trigger half a second before midnight is returned although its date has not begun |
| Schedule.FindActiveFire | crates/core/src/schedule/schedule.rs:106-128 | The anchor, the trigger search and the end test compute the specified answer |
| Sessions.SessionTable.Load | crates/web/src/auth/session.rs:97-126 | Restored sessions keep everything but their role check, which is reset to the earliest instant |
| Sessions.SessionTable.InsertAt | crates/web/src/auth/session.rs:169-185 | A new session is seen and vouched for now |
| Sessions.SessionTable.GetAndTouch | crates/web/src/auth/session.rs:193-204 | A live session slides its expiry; an expired one is removed |
| Sessions.SessionTable.DropSession | crates/web/src/auth/session.rs:206-208 | Removes the session and nothing else |
| Sessions.SessionTable.RecordRoleCheck | crates/web/src/auth/session.rs:210-215 | Stamps the session if it is still there |
| Sessions.SessionTable.RequireRole | crates/web/src/auth/routes.rs:501-609 | One request: expiry, role, stale check, re-check and its three results; after a stale check it is refused and the session removed if and only if the role is known to have been taken away |
| Sessions.StaleCheckDecides | crates/web/src/auth/routes.rs:541-605 | A stale check: the request is refused and the session removed if and only if the viewer is not on the list, the owner is not the owner, or the moderator is neither hidden admin nor broadcaster and the lookup says no; the check is recorded if and only if the role is known to be held |
| Sessions.RecentCheckSuffices | crates/web/src/auth/routes.rs:528-541 | A session in force: the role decides, and with a recent check nothing else does |
| Sessions.NoSessionNoEntry | crates/web/src/auth/session.rs:193-204 | Without a session in force a request is turned away, and the expired session is gone |
| Sessions.InsertedIsUsers | crates/web/src/auth/session.rs:169-185 | A new session carries its user, its secret and one instant thrice, and touches no other |
| Sessions.RestoredIsTheSame | crates/web/src/auth/session.rs:97-126 | A restart keeps every session and changes nothing but its role check |
| RoleGate.AdmissionIsJustified | crates/web/src/auth/routes.rs:532-609 | In every interleaving of requests, logouts, saves and restarts, an admitted request has at least the role, came within the time to live of an earlier sight of the session, and was vouched for recently by this process or re-checked now without a denial |
| RoleGate.RestoredIsRechecked | crates/web/src/auth/session.rs:112-119 | After a restart a session is admitted without re-check only if something has vouched for it since |
| RoleGate.RemovedIsShut | crates/web/src/auth/session.rs:193-208 | A request that comes after the removal of its session is refused, until the session is inserted again or the process restarts |
| RoleGate.AdmittedAfterRemoval | crates/web/src/auth/routes.rs:532-609 | After a removal, with no insertion and no restart since, the session is let in if and only if a request that waited for its role check since before the removal gets a result other than a denial |
| RoleGate.LogoutDoesNotStopIt | crates/web/src/auth/routes.rs:541-605 | A request waits for its role check, its user logs out, the check fails, and the request is let in: a concrete log |
| RoleGate.DenialDoesNotStopIt | crates/web/src/auth/routes.rs:580-605 | Two requests wait, one is denied and removes the session, and the other is let in: a concrete log |
| RoleGate.WaitingIsLogged | crates/web/src/auth/routes.rs:541-605 | A request waits for its role check exactly when it found the check stale and neither a result nor a restart came since |
| GateLog.PresentByLog | crates/web/src/auth/session.rs:193-208 | As long as the process runs, a session is there if and only if it was seen and not removed since |
| GateLog.PresentIsTold | crates/web/src/auth/session.rs:169-215 | And it is the one made at its last login, last seen and last vouched for at the events that the log shows |
| GateLog.TurnedAwayByLog | crates/web/src/auth/routes.rs:514-527 | A request is turned away if and only if its session was not seen within the time to live or was removed since |
| GateLog.AnsweredByLog | crates/web/src/auth/routes.rs:528-541 | Otherwise it is refused, checked anew or let in by the role of the last login and the time since the last vouching |
| GateLog.RestartRestores | crates/web/src/auth/session.rs:97-126 | A restart brings back exactly the sessions of the last completed save, unchecked |
| GateLog.FileIsLastSaved | crates/web/src/auth/session.rs:136-145 | The file holds the table of the last completed save |
| RoleGate.TablesAreSeen | crates/web/src/auth/session.rs:193-204 | Every table at every moment, also one restored from an older file, dates each session by an event that saw it |
| RoleGate.TableIsVouched | crates/web/src/auth/session.rs:210-215 | The current table dates each role check by an event of this process that vouched for it, or not at all |
| RoleGate.FileIsOld | crates/web/src/auth/session.rs:136-145 | The file always holds the table of some earlier moment |
| Persist.FileStore.AtomicSave | crates/core/src/util/persist.rs:75-95 | One save: the file is replaced completely or left as it was, wherever it fails |
| Persist.FileNeverTornNorOlder | crates/web/src/auth/session.rs:128-145 | In every interleaving of updates, saves, failures, crashes and dropped calls in which nobody opens the temporary file while another writes it, the file is one complete version of the table, and never an older one than before |
| Persist.LockedIsAlone | crates/web/src/auth/session.rs:128-145 | The lock sees to that, unless a call is dropped during its write |
| Persist.SuccessIsFresh | crates/web/src/auth/session.rs:136-145 | In such a run a persist that succeeds leaves a version at least as new as the table at its call |
| Persist.SaveGoesThrough | crates/web/src/auth/session.rs:136-145 | A call that finds the lock free and is left alone saves the current table, whatever earlier calls left behind |
| Persist.LockIsReleased | crates/web/src/auth/session.rs:136-145 | The lock is held only while some call is in the middle of its save |
| Persist.CrashFrees | crates/web/src/auth/session.rs:136-145 | A crash frees the lock and leaves the file |
| Persist.DroppedWriteTears | crates/web/src/auth/routes.rs:400-400 | A handler is dropped while its save writes, the lock is free, and the write goes on into the file that the next save has renamed: a concrete run |
| Persist.ReaderSeesSomeVersion | crates/core/src/util/persist.rs:3-7 | In such a run a reader gets a table that once was current |
| Persist.NextKeepsInv | crates/web/src/auth/session.rs:72-77 | Each step keeps the order of saves: who has opened the temporary file has the older snapshot, and no save is older than the file |
| Persist.NextKeepsData | crates/core/src/util/persist.rs:75-95 | With the lock or without, each step keeps the temporary file a prefix of one snapshot, if whoever opens it is alone |
| Persist.WrittenBytes | crates/core/src/util/persist.rs:75-87 | A write at a position, byte by byte |
| Persist.AloneStaysWhole | crates/core/src/schedule/telemetry.rs:99-131 | Without any lock, as telemetry saves: the file stays whole through every run in which nobody opens the temporary file while another is between opening and renaming it |
| Persist.SecondOpenTears | crates/core/src/schedule/telemetry.rs:99-131 | And no longer: whenever one is between opening and renaming and another is about to open, these two can leave an empty file |
| Persist.WithoutLockTorn | crates/web/src/auth/session.rs:72-77 | Without the lock two saves tear the shared temporary file: a concrete run |
| TtlCache.TtlCache.Get | crates/core/src/ai/content/cache.rs:28-31 | Returns the value of the last insertion of the key exactly when that is among the last `capacity` distinct keys and at most `ttl` old |
| TtlCache.LookupMeans | crates/core/src/ai/content/cache.rs:28-31 | What a lookup finds, spelled out: the last insertion of the key, not too old, with fewer than `capacity` other keys after it |
| TtlCache.TtlCache.Insert | crates/core/src/ai/content/cache.rs:33-50 | Adds the insertion to the history and keeps the cache in step with it |
| TtlCache.TtlCache.PurgeExpired | crates/core/src/ai/content/cache.rs:52-66 | Only unexpired keys remain |
| TtlCache.TtlCache.RemoveAll | crates/core/src/ai/content/cache.rs:62-65 | Removes the keys from map and order, in whatever order they come |
| TtlCache.TtlCache.EvictOldest | crates/core/src/ai/content/cache.rs:68-75 | Evicting from the front restores the capacity |
| TtlCache.PresentIsLive | crates/core/src/ai/content/cache.rs:28-31 | After a purge, being in the map is being live by the history |
| TtlCache.PurgeKeepsInv | crates/core/src/ai/content/cache.rs:52-66 | What a purge drops has expired; what is newer than a survivor survives |
| TtlCache.InsertKeepsInv | crates/core/src/ai/content/cache.rs:33-48 | An insertion moves its key to the end |
| TtlCache.EvictKeepsInv | crates/core/src/ai/content/cache.rs:68-75 | What is evicted has `capacity` newer distinct keys |
| TtlCache.OrderListsKeys | crates/core/src/ai/content/cache.rs:11-16 | `order` lists the keys of the map without repetition, oldest insertion first |
| ChatHistory.ChatHistoryBuffer.Push | crates/core/src/ai/chat_history.rs:205-232 | Keeps the newest entries that fit and appends the message under the next number; nothing at capacity 0 |
| ChatHistory.ChatHistoryBuffer.FromPrefill | crates/core/src/ai/chat_history.rs:79-97 | Pushes the newest messages that fit the capacity read first, each with the capacity read at its push |
| ChatHistory.PrefillOneMore | crates/core/src/ai/chat_history.rs:92-94 | Prefilled messages are pushed in order, each with the capacity read at its push |
| ChatPaging.PrefillNumbers | crates/core/src/ai/chat_history.rs:79-97 | While the capacity does not change, the buffer then holds them all, numbered from 1 |
| ChatHistory.ChatHistoryBuffer.NewestWanted | crates/core/src/ai/chat_history.rs:256-276 | The backwards loop collects the newest wanted entries, one past the limit at most |
| ChatHistory.ChatHistoryBuffer.RunQuery | crates/core/src/ai/chat_history.rs:238-294 | The page is the last `limit` of the wanted entries, oldest first, with the number to go on from |
| ChatRetention.KeepsTheLast | crates/core/src/ai/chat_history.rs:205-232 | With a constant capacity the buffer holds exactly the last messages that fit, in order, under consecutive numbers |
| ChatRetention.PushKeepsNewest | crates/core/src/ai/chat_history.rs:205-232 | With any capacity, a push drops an entry if and only if as many newer ones as fit beside the new message are there, and drops from the front |
| ChatRetention.NoCapacityNoPush | crates/core/src/ai/chat_history.rs:214-217 | At capacity 0 a push does nothing |
| ChatRetention.WantedMeans | crates/core/src/ai/chat_history.rs:243-268 | An entry is wanted if it is old enough, by the user and with the words asked for, case and blanks aside; blank filters do not filter |
| ChatRetention.PageIsFull | crates/core/src/ai/chat_history.rs:238-294 | A page has fifty entries, or as many as asked for between one and two hundred, while there are so many |
| ChatPaging.NothingTwice | crates/core/src/ai/chat_history.rs:284-293 | Following the pages, no entry is returned twice, and each was wanted and present at the first page, whatever is pushed in between |
| ChatPaging.NothingMissed | crates/core/src/ai/chat_history.rs:284-293 | Read to the end, the pages contain every wanted entry that stayed in the buffer |
| ChatPaging.PagesJoinToFilter | crates/core/src/ai/chat_history.rs:238-294 | Without pushes the pages join to exactly the filtered buffer |
| ChatPaging.PagingEnds | crates/core/src/ai/chat_history.rs:278-288 | The number of pages is bounded by the first buffer, whatever is pushed in between |
| ChatPaging.PageSplits | crates/core/src/ai/chat_history.rs:278-293 | A page and the query for the next one share out the wanted entries |
| ChatPaging.PushMovesOn | crates/core/src/ai/chat_history.rs:214-232 | A push gives only new numbers and brings nothing back; numbers rise strictly exactly until the 64-bit limit |
| ChatPaging.PushAllMovesOn | crates/core/src/ai/chat_history.rs:205-232 | Any run of pushes with any capacities keeps that |
| ChatPaging.PushKeepsContiguous | crates/core/src/ai/chat_history.rs:218-224 | Numbers stay contiguous |
| Ping.PingManager.Load | crates/core/src/ping.rs:371-395 | Drops pings with an invalid template and remembers no trigger |
| Ping.PingManager.CreatePing | crates/core/src/ping.rs:405-438 | Creates under the lower-case name, or refuses, with the first reason that applies |
| Ping.PingManager.DeletePing | crates/core/src/ping.rs:440-446 | Removes the ping and its last trigger |
| Ping.PingManager.EditTemplate | crates/core/src/ping.rs:448-457 | Replaces a template by a valid one |
| Ping.PingManager.AddMember | crates/core/src/ping.rs:459-470 | Adds a member once, under the name in lower case |
| Ping.PingManager.RemoveMember | crates/core/src/ping.rs:472-483 | Removes a member that is there, likewise |
| Ping.PingManager.RecordTrigger | crates/core/src/ping.rs:526-535 | Remembers the trigger and counts it, up to the 64-bit limit |
| Ping.PingManager.TryRecordTrigger | crates/core/src/ping.rs:537-577 | Membership, cooldown, rendering and recording, in this order; the text of a fire mentions exactly the stored members, each once, less the sender if the template names them |
| Ping.RunPingActor | crates/core/src/ping.rs:251-344 | The actor answers each command as specified, and before each command the published names are those stored |
| Ping.Serve | crates/core/src/ping.rs:257-337 | One turn of the loop; names are published after creating and deleting only |
| PingTheorems.FiresAreSpaced | crates/core/src/ping.rs:506-557 | Two fires of a ping not removed in between are at least the cooldown of the second apart |
| PingTheorems.FireAddressesMembers | crates/core/src/ping.rs:559-577 | In every run a fire has somebody to address, and its text is the template with exactly those put in who are members at that moment, less the sender if the template names them |
| PingTheorems.SkippedHasNobody | crates/core/src/ping.rs:548-551 | Past the cooldown check, a permitted trigger fires if and only if the ping is stored and has somebody to address |
| PingLog.FiresExactly | crates/core/src/ping.rs:537-557 | From a fresh start, a trigger fires if and only if its sender is permitted, the ping is stored and has somebody to address, and there was no fire since start, creation or removal, or it is at least the cooldown ago; otherwise it changes nothing |
| PingLog.CooldownIsTimeLeft | crates/core/src/ping.rs:506-524 | A permitted trigger of a ping that has not rested is answered with exactly the time left, and no other is |
| PingLog.MemoryIsLastFire | crates/core/src/ping.rs:526-535 | What is remembered of a ping is its last fire since the start, unless it was removed since |
| PingLog.RefusedForReason | crates/core/src/ping.rs:405-483 | A change is refused for the first reason there is, and only if there is one, and then changes nothing |
| PingLog.PingsAreTold | crates/core/src/ping.rs:405-483 | Every ping at every moment is what the accepted commands and the fires made it |
| PingLog.AnswersAgree | crates/core/src/ping.rs:484-505 | The questions agree with each other and change nothing |
| Letters.LoweredEqual | crates/core/src/ping.rs:412-412 | ASCII lower-casing makes equal exactly what differs in the case of letters only |
| PingTheorems.FireCountIsTally | crates/core/src/ping.rs:526-535 | The stored count is the fires since creation or load, on top of what was loaded, up to the 64-bit limit |
| PingTheorems.RunKeepsHealthy | crates/core/src/ping.rs:382-388 | In every run templates stay free of control characters and triggers are remembered for stored pings only |
| PingTheorems.SavesDoNotMatter | crates/core/src/ping.rs:397-403 | A failed save changes the answer and nothing else, then or later |
| PingTheorems.LoadedIsHealthy | crates/core/src/ping.rs:382-394 | Loading establishes the same |
| PingTheorems.NamesChange | crates/core/src/ping.rs:266-276 | No command but creating and deleting changes which names there are |
| Template.RenderIsSimultaneous | crates/core/src/ping.rs:559-577 | With no `{` in a member name, replacing mentions and then the sender is replacing both at once |
| Template.RenderCondition | crates/core/src/ping.rs:559-577 | For given members and sender that is so for every template if and only if no `{sender}` can start inside the mentions of all members, nor inside those of all but the sender |
| Template.BothTextsMatter | crates/core/src/ping.rs:562-569 | The members `a{` and `eve`, asked by `eve`: only the second text lets one start |
| Template.TwoPassesCondition | crates/core/src/ping.rs:572-575 | The same for a mentions text given apart from the template |
| Template.BraceInName | crates/core/src/ping.rs:572-575 | A member named `{sender}` breaks it: a concrete case |
| Template.RenderNothing | crates/core/src/ping.rs:561-571 | Nothing is sent exactly when no member remains to be mentioned |
| Template.JoinOneMore | crates/core/src/ping.rs:562-568 | Each member after the first is mentioned after a space |
| Emotes.BuildAvailable | crates/core/src/twitch/seventv.rs:367-425 | The loop keeps, in order, the entries that are usable |
| Emotes.AvailableAreUsable | crates/core/src/twitch/seventv.rs:375-410 | An emote is offered if and only if it is the prompt of the first entry of its name, available and with a meaning |
| Emotes.OfferedDescribe | crates/core/src/twitch/seventv.rs:375-410 | An emote is offered if and only if it says, field by field, what the first entry of its name says, which is available and has a meaning; blank fields are not said |
| Emotes.OfferedInOrder | crates/core/src/twitch/seventv.rs:373-412 | They are offered in the order of their entries |
| Emotes.AvailableAreDistinct | crates/core/src/twitch/seventv.rs:375-384 | No two offered emotes share a name |
| Emotes.SelectPromptEmotes | crates/core/src/twitch/seventv.rs:473-543 | The three loops compute the specified selection |
| Emotes.SelectionIsLayered | crates/core/src/twitch/seventv.rs:460-472 | Pins in list order without repetition up to the maximum; then scored emotes by rank, none left out that outranks one included; then the first others up to the floor; none twice, no more than the maximum |
| Emotes.SelectionMeans | crates/core/src/twitch/seventv.rs:473-543 | The same layers in plain words: recent use first, then fit, then place; the floor is the smaller of the two limits |
| Emotes.PinsFollow | crates/core/src/twitch/seventv.rs:487-497 | The pins are those that there are, in their order, each the first emote of its name |
| Emotes.SelectionSize | crates/core/src/twitch/seventv.rs:530-541 | At least the floor is selected, or every emote |
| Emotes.SelectionInRange | crates/core/src/twitch/seventv.rs:501-509 | Only emotes of the list are selected |
| Emotes.FillIsUnscored | crates/core/src/twitch/seventv.rs:468-470 | What fills up to the floor has no score |
| Emotes.SortRanks | crates/core/src/twitch/seventv.rs:511-519 | Sorting by recent use, fit and place ranks the scored emotes and loses none |
| Emotes.PinnedLayer | crates/core/src/twitch/seventv.rs:487-497 | The pinned layer is the first occurrences of the pins, capped |
| Emotes.SearchFindsBest | crates/core/src/twitch/seventv.rs:581-600 | A search returns the best matches only, best first, and leaves out nothing better |
| Agent.RunAgent | crates/llm/src/agent.rs:57-94 | The round loop computes the specified run |
| Agent.RunIsBounded | crates/llm/src/agent.rs:63-93 | At most `max_rounds` requests; all answers but the last are tool calls, and the last decides the outcome |
| Agent.RunGrows | crates/llm/src/agent.rs:84-88 | Each request is the one before with one more round |
| Agent.RoundsAreRecorded | crates/llm/src/agent.rs:76-88 | Each request carries the calls and reasoning of every answer so far, each call with its result, and the messages unchanged |
| Agent.WireGrows | crates/llm/src/openai.rs:124-174 | Each request on the wire is a proper prefix of the next |
| Agent.WireReadsBack | crates/llm/src/openai.rs:138-171 | The rounds on the wire read back to the same rounds: each assistant message is followed at once by one answer per call, same ids, same order |
| Agent.MessagesReadBack | crates/llm/src/openai.rs:124-137 | Plain messages read back in front of the rounds |
| Agent.EveryRequestReadsBack | crates/llm/src/openai.rs:124-174 | Every request of every run can be read back from its wire, messages with role, content and order, and rounds, given an executor that labels results with their calls |
| Agent.BuildOpenAiMessages | crates/llm/src/openai.rs:124-174 | The nested loops compute the specified wire |
| Sanitize.SanitizeOutbound | crates/core/src/twitch/chat_sender.rs:28-66 | The loops compute the specified text |
| Sanitize.CollapseRuns | crates/core/src/twitch/chat_sender.rs:29-42 | The flag loop replaces each run of blanks by one space |
| Sanitize.CutPoint | crates/core/src/twitch/chat_sender.rs:53-60 | The scan stops where the next char would exceed the budget |
| Letters.Utf8LenSteps | crates/core/src/twitch/chat_sender.rs:53-60 | The lengths of chars in UTF-8 (section 3 of RFC 3629) |
| Letters.WhiteSpaceIsListed | crates/core/src/twitch/chat_sender.rs:31-42 | Whitespace is the 25 chars that Unicode lists |
| Letters.ControlsAreKnown | crates/core/src/twitch/chat_sender.rs:31-42 | Control characters are those below the space, DEL, and the 32 after it |
| Sanitize.SanitizeIdempotent | crates/core/src/twitch/chat_sender.rs:25-27 | Sanitising twice is sanitising once, for every string |
| Sanitize.SanitizedFits | crates/core/src/twitch/chat_sender.rs:17-27 | At most 480 bytes of UTF-8 (section 3 of RFC 3629), no control characters, no whitespace but single spaces |
| Sanitize.SanitizedIsClean | crates/core/src/twitch/chat_sender.rs:17-27 | No control character, no whitespace but the space, no two spaces in a row |
| Sanitize.SanitizedCut | crates/core/src/twitch/chat_sender.rs:44-65 | Uncut it is the collapsed text; cut it is the longest prefix within 477 bytes, then the ellipsis; the words of the collapsed text are those of the input |
| Sanitize.CollapseKeepsWords | crates/core/src/twitch/chat_sender.rs:31-42 | Collapsing keeps every word, in order |
| Sanitize.CollapseKeepsVisible | crates/core/src/twitch/chat_sender.rs:31-42 | Collapsing keeps every char that is neither, in order |
| Durations.ParseFlightDuration | crates/core/src/util/mod.rs:82-116 | The loop over chars computes the specified parse |
| Durations.ParsesExactlyParts | crates/core/src/util/mod.rs:82-116 | A string is accepted exactly when its trimmed text is a list of counts with units, each count below 2^64, whose sum at 64 bits is not zero |
| Durations.FormatRoundTrip | crates/core/src/cooldown.rs:88-99 | A duration of a minute or more, printed and read back, is rounded down to whole minutes |
| Durations.FormatMeans | crates/core/src/cooldown.rs:88-99 | Hours, if there are any, and minutes below 60 that add up to the whole minutes |
| Durations.UnitsAre | crates/core/src/util/mod.rs:94-106 | Units are h and m in either case, of 3600 and 60 seconds |
| Telemetry.TelemetryState.Open | crates/core/src/schedule/telemetry.rs:60-77 | Starts from what the file has, or from nothing, clean |
| Telemetry.TelemetryState.Record | crates/core/src/schedule/telemetry.rs:85-99 | Rolls over, counts the fire, marks dirty, and asks for a save when five seconds have passed |
| Telemetry.TelemetryState.Pending | crates/core/src/schedule/telemetry.rs:115-122 | A flush saves the table if it is dirty, and nothing otherwise |
| Telemetry.TelemetryState.SaveSucceeded | crates/core/src/schedule/telemetry.rs:102-106 | After a save the store is taken to be clean |
| Telemetry.FiresTodayIsSuffix | crates/core/src/schedule/telemetry.rs:36-45 | In every interleaving the counter is the length of the longest run of last fires that share the last date, up to the 32-bit limit |
| Telemetry.LastFiredIsLast | crates/core/src/schedule/telemetry.rs:85-92 | In every run the instant kept for a schedule is that of its last fire, and schedules that did not fire are as stored |
| Telemetry.DirtySinceFire | crates/core/src/schedule/telemetry.rs:93-106 | The store is dirty if and only if a fire was recorded since it was opened or marked clean |
| Telemetry.SavesAfterFiveSeconds | crates/core/src/schedule/telemetry.rs:94-99 | Recording a fire begins a save of the table if and only if five seconds have passed since then |
| Telemetry.CleanCondition | crates/core/src/schedule/telemetry.rs:99-131 | In every run in which each fire raises its date or its counter, however saves overlap: a store that takes itself to be clean is on disk as it is, at every moment, if and only if each save that replaces the file of a clean store, or after which it is marked clean, leaves a file that has seen every fire |
| Telemetry.SerialCondition | crates/core/src/schedule/telemetry.rs:99-131 | With one save under way at a time: if and only if no fire is recorded between the snapshot of a save and its marking the store clean |
| Telemetry.DiskIsCurrent | crates/core/src/schedule/telemetry.rs:84-107 | At every moment: the file is the table if and only if no fire has been recorded since the snapshot that it holds |
| Telemetry.CleanIsSaved | crates/core/src/schedule/telemetry.rs:99-131 | The sufficient half, in every run, also with counters at their limit and dates running backwards |
| Telemetry.FireIsNotUndone | crates/core/src/schedule/telemetry.rs:36-45 | The table before a fire is never the table again, as dates and counters only rise |
| Telemetry.OverlapLosesFire | crates/core/src/schedule/telemetry.rs:99-106 | A fire recorded while a save is under way is marked saved and is not: a concrete run |
| Telemetry.OlderSaveLandsLast | crates/core/src/schedule/telemetry.rs:99-106 | With two saves under way, the older replacing the file last, a clean store is not on disk although no fire falls between a snapshot and its mark: a concrete run |
| Catalog.ModelCatalog.LoadCatalog | crates/core/src/ai/model_catalog.rs:104-141 | Fresh, backed off, fetched or failed: the specified answer and state |
| Catalog.FetchesAreSpaced | crates/core/src/ai/model_catalog.rs:104-141 | After a fetch, a load fetches again if and only if it comes more than 300 seconds after a success, or at least 60 after a failure |
| Catalog.FirstLoadFetches | crates/core/src/ai/model_catalog.rs:104-128 | The first load fetches |
| Catalog.AnswerIsLastFetched | crates/core/src/ai/model_catalog.rs:104-155 | Every load answers with the last catalog fetched, and fails only if there never was one |

## Left out

- Rounding and display of f64 values (`format_eur_chat`, `format_doener_count`, `calculate_doener_count`): values are abstract.
- HTTP clients, IRC, the OAuth exchange, Helix, Döneratlas and 7TV fetching: their results are parameters.
- Handlers, templates, cookies and their signing, CSRF values and the randomness of session ids: plumbing around the table; ids are whatever the caller inserts.
- Settings resolution, validation and audit, and the migration of old settings: each field is settled by itself. The bounds that validation sets on the gate's refresh interval and on trigger intervals are hypotheses where they matter.
- `AvatarCache`, `PerUserCooldown`, `format_cooldown_remaining`, `truncate_response`: their properties are easier than those shown.
- How emotes are scored (`recent_emote_count`, `context_match_score`, `search_match_score`, `terms_match`): the scores are parameters, and so is the joining of a field's words.
- IntervalTheorems.PromiseCondition: where two clock changes come within fourteen days of each other, or a change crosses midnight, only `IntervalTheorems.SearchFindsFirst` applies, which asks for a fire within reach. Such changes are not part of summer time; a zone may have had any before the given moment.
- Leap seconds and the ends of the calendar library's range.
- Agent.WireReadsBack: reads back everything but the tools' names in results, which the wire does not carry; a call's argument value is its JSON text.
- RoleGate.AdmissionIsJustified: for a request admitted without re-check, the recent check is claimed when the clock is past 1970 and the refresh interval is at most the hour that validation allows; with a longer one than the age of the earliest instant a restored session would pass.
- Persist.FileNeverTornNorOlder: losing power is not modelled; the source does not call `fsync`.
- Telemetry.CleanCondition: a save that replaces the file replaces it completely; what two of them do to the temporary file that they share is the subject of `Persist.AloneStaysWhole` and `Persist.SecondOpenTears`.
- Durations.ParseFlightDuration: sums wrap at 64 bits, as in a release build; a debug build panics instead.
- Ping commands whose reply channel or actor is gone, and watch-channel errors.
- Ollama's wire format and the parsing of provider responses.
