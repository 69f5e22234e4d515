# Monitored console commands, modelled in Dafny

This project models the core of a Laravel package for "monitored" console
commands. Each invocation of a monitored command gets one row in the
`command_records` table. The row holds the command's name, arguments and
options, nullable `started_at`, `completed_at` and `deleted_at` timestamps,
and a result text. Around the command's own work, an admission controller:

- resolves the row: the one it already holds, or the row named by a
  `--command-record-id` option, or a new row;
- runs the admission rules in order: run-once and already completed,
  run-once and in progress, run limit, dependencies (`runsIf`), conflicts
  (`doesntRunIf`);
- raises a hard error if the row has already started;
- starts the row and runs the work;
- then completes the row, leaves it open (recursive commands), or fails it
  with the error text. A PHP `\Error` thrown by the work is not caught: it
  escapes and leaves the row started and open.

Failing is a soft delete. The default scope of every query hides failed
rows, and only the two "requested" queries include them.

Files and modules:

- `wrappers.dfy` (`Wrappers`): the `Option` type.
- `php.dfy` (`Php`): the PHP semantics the package relies on. This covers the
  falsy strings `''` and `'0'` behind `?:`, `strpos`, integer-to-string
  conversion and `var_export`.
- `command_record.dfy` (`CommandRecords`): the `Record` datatype and the
  pure row transitions. It models queries the way the query builder states
  them: a name filter, the soft-delete scope, and `whereNull`/`whereNotNull`
  constraints, with `first()` and `count()` over them. It also holds the
  static queries, `find`, `getCommandArguments`, and the `Store` class, the
  table whose `Start`, `Complete` and `Fail` methods update rows in place.
- `monitored_command.dfy` (`MonitoredCommands`): the command's configuration,
  the rejection reasons and outcomes, and the pure functions `Resolve`,
  `Rejection`, `ChecksModel` and `HandleModel`. The last two are built from
  `ChecksStep` and `HandleStep`, which act on an already resolved record and
  an already read rejection. It also holds the
  `MonitoredCommand` class. That class's methods are proved to change the
  table exactly as those functions say.
- `admission_properties.dfy` (`AdmissionProperties`): lemmas about the
  signature rule, the order of the rules, the run limit, and what an
  invocation leaves in the table.

Timestamps come from an abstract clock in the store. Each stamp advances the
clock by one. Ids are auto-increment: the row at position `i` has id `i + 1`.

## Model

| member | source | states |
|---|---|---|
| `Php.OrEmptyKeepsTruthy` | src/CommandRecord.php:155 | `$message ?: ''` yields `''` exactly for null, `''` and `'0'`; otherwise it yields the message itself |
| `Php.NatToString` | src/MonitoredCommand.php:122 | an integer renders as a non-empty string of decimal digits with no leading zero |
| `Php.ParseNatToString` | src/MonitoredCommand.php:122 | reading the decimal text of `n` back gives `n`, so the line number in the error text is faithful |
| `Php.IntToStringFalsy` | src/MonitoredCommand.php:215-222 | the rendering of an integer is falsy only for 0, so a command that returns `0` leaves the result `''` |
| `Php.StrPos` | src/MonitoredCommand.php:67 | `strpos` returns the first position where the needle occurs, and none exactly when it does not occur |
| `CommandRecords.NewRecordIsIdle` | tests/CommandRecordTest.php:30-39 | a newly created record has not started, completed or failed |
| `CommandRecords.StartIsIdempotent` | src/CommandRecord.php:137-145 | start sets `started_at` only when it is unset; a second start changes nothing; no other field changes |
| `CommandRecords.CompleteSetsResult` | src/CommandRecord.php:153-158 | complete sets `completed_at` and a result equal to the message, or `''` when the message is falsy; no other field changes |
| `CommandRecords.FailSetsResult` | src/CommandRecord.php:166-171 | fail sets `deleted_at` and the result the same way; no other field changes |
| `CommandRecords.FirstIsFirstMatch` | src/CommandRecord.php:82-85 | `first()` returns a selected row with no selected row before it, and none exactly when the query selects no row |
| `CommandRecords.CountIsCardinality` | src/CommandRecord.php:105-108 | `count()` equals the number of rows the query selects |
| `CommandRecords.CountPositive` | src/CommandRecord.php:116-130 | a count is positive exactly when some row is selected |
| `CommandRecords.CountAfterUpdate` | src/CommandRecord.php:140 | updating one row changes a count only by that row's own contribution |
| `CommandRecords.CountAfterAppend` | src/MonitoredCommand.php:91-96 | inserting a row adds its own contribution to a count |
| `CommandRecords.IsInProgressIff` | src/CommandRecord.php:80-86 | true iff some row with the name is not soft-deleted, has started and has not completed |
| `CommandRecords.HasCompletedIff` | src/CommandRecord.php:94-97 | true iff some row with the name is not soft-deleted and has completed |
| `CommandRecords.HasCompletedCountIsCardinality` | src/CommandRecord.php:105-108 | `hasCompletedCount` is the number of rows with the name that are not soft-deleted and have completed |
| `CommandRecords.HasBeenRequestedIff` | src/CommandRecord.php:116-119 | true iff some row with the name exists, soft-deleted or not |
| `CommandRecords.HasBeenRequestedCountIsCardinality` | src/CommandRecord.php:127-130 | `hasBeenRequestedCount` is the number of rows with the name, soft-deleted ones included |
| `CommandRecords.HasCompletedIffCount` | src/CommandRecord.php:94-108 | `hasCompleted` holds iff `hasCompletedCount >= 1` |
| `CommandRecords.HasBeenRequestedIffCount` | src/CommandRecord.php:116-130 | `hasBeenRequested` holds iff `hasBeenRequestedCount >= 1` |
| `CommandRecords.RequestedAtLeastCompleted` | src/CommandRecord.php:105-130 | the requested count is never below the completed count |
| `CommandRecords.CompleteIsSeenByQueries` | src/CommandRecord.php:153-158 | after a visible row completes, its name has completed, the completed count rises by one unless the row was already completed, the requested count is unchanged, and the row is not in progress |
| `CommandRecords.FailHidesRecord` | src/CommandRecord.php:166-171 | a failed row is neither in progress nor completed; the completed count loses it; the requested count keeps it; the name is in progress iff another row is |
| `CommandRecords.Find` | src/MonitoredCommand.php:86 | `find($id)` returns the untrashed row with that id, and null when that row is trashed or missing |
| `CommandRecords.FindInWellFormed` | src/MonitoredCommand.php:85-88 | with auto-increment ids, `find` succeeds exactly on ids 1..n whose row is not trashed |
| `CommandRecords.GetCommandArguments` | src/CommandRecord.php:178-183 | the intended merge (see "## Findings"): the stored arguments plus `--command-record-id` set to the record's id; the id overrides an existing entry and every other key is kept |
| `CommandRecords.ArgumentsAsWrittenNeverMerge` | src/CommandRecord.php:178-183 | as written, `json_decode` receives the array the `json` cast already produced and raises a TypeError, so no record ever gets its merged arguments back |
| `CommandRecords.Store.Create` | src/MonitoredCommand.php:91-96 | inserts exactly one new row with the next id, the given fields and no timestamps |
| `CommandRecords.Store.Start` | src/CommandRecord.php:137-145 | stamps `started_at` with a new clock value if it is unset; otherwise neither the table nor the clock changes |
| `CommandRecords.Store.Complete` | src/CommandRecord.php:153-158 | the row becomes `CompleteRecord` of itself at a new clock value; no other row changes |
| `CommandRecords.Store.Fail` | src/CommandRecord.php:166-171 | the row becomes `FailRecord` of itself at a new clock value; no other row changes |
| `Php.VarExport` | src/MonitoredCommand.php:215-222 | every integer except PHP's smallest renders as its decimal text; the smallest is written as a subtraction |
| `MonitoredCommands.StringFromMessage` | src/MonitoredCommand.php:215-222 | the identity on strings; other values go through `var_export` |
| `MonitoredCommands.HasRunTooManyTimes` | src/MonitoredCommand.php:172-177 | true iff the limit is non-negative and the requested or the completed count has reached it; a negative limit never rejects |
| `MonitoredCommands.FirstUnmetIsFirst` | src/MonitoredCommand.php:148-152 | the first `runsIf` name that has not completed, with every earlier name completed; none iff all have completed |
| `MonitoredCommands.FirstConflictIsFirst` | src/MonitoredCommand.php:154-158 | the first `doesntRunIf` name that has completed, with no earlier name completed; none iff none has completed |
| `MonitoredCommands.Resolve` | src/MonitoredCommand.php:79-99 | the memoised record leaves the table alone; with an id option, the found id (or null) and no new row; otherwise exactly one new row with the command's name, arguments, options and result `''` |
| `MonitoredCommands.ChecksModel` | src/MonitoredCommand.php:134-165 | passing the checks means a resolved record that has not started, with the clock unchanged |
| `MonitoredCommands.AdmittedChecks` | src/MonitoredCommand.php:134-165 | checks that answer true have found every rule satisfied and a record that has not started, and have written nothing but a newly created record |
| `MonitoredCommands.MonitoredCommand.constructor` | src/MonitoredCommand.php:54-58 | the new command holds no record and has its signature completed |
| `MonitoredCommands.MonitoredCommand.CompleteSignature` | src/MonitoredCommand.php:65-72 | the signature becomes `CompletedSignature` of its old value |
| `MonitoredCommands.MonitoredCommand.CommandRecord` | src/MonitoredCommand.php:79-99 | the returned and memoised record and the new table are those of `Resolve`; the clock is unchanged |
| `MonitoredCommands.MonitoredCommand.Complete` | src/MonitoredCommand.php:185-192 | completes the resolved record with the message's string form and returns true; a null record raises |
| `MonitoredCommands.MonitoredCommand.Fail` | src/MonitoredCommand.php:200-207 | fails the resolved record with the message's string form and returns false; a null record raises |
| `MonitoredCommands.MonitoredCommand.Reject` | src/MonitoredCommand.php:136-158 | failing on the first failing rule leaves exactly the table, clock and record of `ChecksModel` |
| `MonitoredCommands.MonitoredCommand.PassesChecks` | src/MonitoredCommand.php:134-165 | the outcome, table, clock and memoised record are those of `ChecksModel`; the loops check `runsIf` and then `doesntRunIf` in order and return early |
| `MonitoredCommands.MonitoredCommand.RunWork` | src/MonitoredCommand.php:111-125 | on an admitted record that has not started, the outcome, table, clock and record are those of `HandleStep`: start, then complete, leave open, fail, or let an `\Error` escape with the record started |
| `MonitoredCommands.MonitoredCommand.Handle` | src/MonitoredCommand.php:106-127 | the outcome, table, clock and memoised record are those of `HandleModel` |
| `AdmissionProperties.CompletedSignatureHasToken` | src/MonitoredCommand.php:65-72 | a completed signature always contains `{--command-record-id}` |
| `AdmissionProperties.CompletedSignatureUnchangedIff` | src/MonitoredCommand.php:67-69 | the signature is unchanged iff it contains the token but does not start with it |
| `AdmissionProperties.LeadingTokenIsDuplicated` | src/MonitoredCommand.php:67 | a signature that starts with the token gets it appended again (strpos returns 0, which is falsy) |
| `AdmissionProperties.CompletedSignatureIsStable` | src/MonitoredCommand.php:65-72 | for a signature that does not start with the token, completing it twice is the same as completing it once |
| `AdmissionProperties.AdmittedIffAllRulesPass` | src/MonitoredCommand.php:134-164 | no rule rejects iff every rule is satisfied, stated rule by rule |
| `AdmissionProperties.RejectionIsFirstFailingRule` | src/MonitoredCommand.php:136-158 | the reason is that of the first failing rule: every earlier rule passed, and the named dependency or conflict is the first offending name |
| `AdmissionProperties.SingleDependencyGate` | src/MonitoredCommand.php:148-152 | a command depending on one other command is admitted iff that command has completed, and otherwise gets "has not run yet" |
| `AdmissionProperties.RunLimitReadsRequestedCount` | src/MonitoredCommand.php:172-177 | the limit rejects iff it is non-negative and the requested count has reached it, so with N attempts recorded the (N+1)-th is rejected under limit N |
| `AdmissionProperties.ChecksTouchOnlyTheirRecord` | src/MonitoredCommand.php:134-165 | the checks change only the resolved row, and never its id, name, arguments or options |
| `AdmissionProperties.HandleTouchesOnlyItsRecord` | src/MonitoredCommand.php:106-127 | an invocation changes only the resolved row, and never any row's id, name, arguments or options |
| `AdmissionProperties.FreshInvocationCreatesOneRecord` | src/MonitoredCommand.php:91-96 | without a record id, exactly one row is appended, with the command's name, arguments and options; earlier rows are unchanged; the requested count rises by one whatever the outcome |
| `AdmissionProperties.ResumedInvocationCreatesNone` | src/MonitoredCommand.php:81-89 | with a memoised record or a record id, no row is created and the requested count is unchanged |
| `AdmissionProperties.RejectionFailsRecordWithoutWork` | src/MonitoredCommand.php:108-110 | a rejected invocation's outcome and table do not depend on the work; the record is soft-deleted with the rule's message, and its start and completion are untouched |
| `AdmissionProperties.StartedRecordRaises` | src/MonitoredCommand.php:160-162 | when every rule passes but the record has started, the hard error escapes; nothing is failed or started, and the work does not run |
| `AdmissionProperties.AdmittedReturnCompletes` | src/MonitoredCommand.php:112-118 | an admitted non-recursive command that returns answers true; its record is started, then completed with the string form of the returned value |
| `AdmissionProperties.AdmittedRecursiveStaysOpen` | src/MonitoredCommand.php:116-118 | an admitted recursive command that returns answers null; its record is started and left neither completed nor failed, so it is in progress |
| `AdmissionProperties.TrueOnlyAfterReturn` | src/MonitoredCommand.php:107-118 | `handle()` answers true only when the checks passed, the command is not recursive and the work returned |
| `AdmissionProperties.AdmittedThrowFails` | src/MonitoredCommand.php:119-125 | an admitted command that throws answers false; its record is started, then soft-deleted with a result that begins `'Error: ' + message + ' at line '` |
| `AdmissionProperties.AdmittedCrashStaysOpen` | src/MonitoredCommand.php:111-125 | an `\Error` thrown by the work is not caught by `catch (\Exception $e)`: it escapes, and the record stays started, neither completed nor failed, so the command is in progress |
| `AdmissionProperties.BlockedStaysBlocked` | src/MonitoredCommand.php:136-142 | when a run-once command has an open row of its name and no completed visible one, a fresh invocation is rejected with "Command is running.", its own row is soft-deleted, and the table stays that way, so every later fresh invocation is rejected too |
| `AdmissionProperties.CrashedRunBlocksRunsOnce` | src/MonitoredCommand.php:106-142 | after a fresh run-once invocation whose work threw an `\Error`, the table is blocked in that sense: the next fresh invocation is rejected with "Command is running.", its own row is soft-deleted, and the table stays blocked |
| `AdmissionProperties.ErrorMessageIsTruthy` | src/MonitoredCommand.php:119-124 | the error text starts with `'Error: ' + message + ' at line '` and is never falsy, so it is stored as written |
| `AdmissionProperties.ReentryNeverCompletes` | src/MonitoredCommand.php:140-162 | re-invoking with the id of an open, started record creates no row, never completes it, and either rejects or raises; a run-once command is always rejected |
| `AdmissionProperties.RunsOnceSeesOpenRecord` | src/MonitoredCommand.php:136-142 | a run-once command with an open record of its own name is rejected as "has run before" or "is running" |
| `AdmissionProperties.FreshRunCompletes` | src/MonitoredCommand.php:112-116 | a fresh invocation that answers true leaves its command completed |
| `AdmissionProperties.RunsOnceRejectsSecondRun` | src/MonitoredCommand.php:136-138 | after a run-once command completed, the next fresh invocation is rejected with "Command has run before." and its own row is soft-deleted |
| `AdmissionProperties.NestedInvocationReattaches` | src/CommandRecord.php:178-183 | the arguments for a nested call carry the record's id, and resolving that id gives back the same row without creating one |

## Findings

| source | as written | input that shows it | evidently intended | confidence | as-written member | corrected member |
|---|---|---|---|---|---|---|
| src/CommandRecord.php:38-41, 178-183 | `getCommandArguments` calls `json_decode($this->arguments, true)`, but the `json` cast has already turned `arguments` into an array; `json_decode` of an array raises a TypeError (PHP 8), or a warning and `NULL` that `array_merge` then rejects (PHP 7) | any record, for example one created with arguments `[]` | the stored arguments merged with `--command-record-id` set to the record's id | high; not executed | `CommandRecords.GetCommandArgumentsAsWritten`, `CommandRecords.ArgumentsAsWrittenNeverMerge` | `CommandRecords.GetCommandArguments` |

## Left out

- Eloquent persistence and the migration schema: the table is a sequence of `Record` values, and arguments and options are stored decoded, as the `json` casts hand them to PHP code.
- CommandRecords.GetCommandArguments: states the intended merge, not the code as written. As written, `json_decode` receives the already-cast array and fails (see "## Findings"); `GetCommandArgumentsAsWritten` models that failure.
- AdmissionProperties.NestedInvocationReattaches: rests on the intended `GetCommandArguments`. With the code as written, asking for a record's arguments fails before any nested invocation starts.
- The order of keys in PHP arrays: arguments and options are maps, so `array_merge` is modelled as a map update.
- Carbon dates: an abstract clock that advances by one per stamp stands in for `Carbon::now()`.
- Console output (`$this->output->success` / `error`) and Laravel's signature and option parsing. The `--command-record-id` option arrives as `Input.recordIdOption`, where absent or 0 is falsy.
- `var_export` of arrays, objects and floats: `Php.Value.Other` carries the rendered text. Nulls, booleans, integers and strings are rendered explicitly. The stack trace and file name of an exception are plain strings in `Exception`.
- The text of the PHP engine's error for a method called on null: the model raises `Fault.NullRecord` without its message.
- The work unit's own effects on the table, including a nested invocation made from inside it. The work is a `WorkResult` value. What a nested invocation does on its own is covered by `ReentryNeverCompletes`.
- A database error thrown by `start()` or `complete()` inside the `try` block: `Store.Start` and `Store.Complete` cannot fail. An `\Error` thrown by the work itself is modelled (`WorkResult.Crashes`).
- PHP's 64-bit integer width: `Value.Int` is unbounded, and arithmetic that would overflow to a float in PHP does not occur in the package. Only `var_export` of the smallest integer is written out specially.
- The queue-failure hook in `src/MonitoredCommandsServiceProvider.php`. It only calls the record's `fail`, which is modelled.
- `getByName` (src/CommandRecord.php:69-72) as a separate query: it is the name filter of `Query`.
- `first()` without an ordering returns some row in SQL. The model returns the first in table order, and only its existence is used.
- Editor stamps and `created_at`/`updated_at`: no behaviour depends on them.
- The race between the admission checks and `start` across processes: the model is sequential.
