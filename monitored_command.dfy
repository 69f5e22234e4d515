/**
 * The admission controller wrapped around every monitored command: it
 * resolves (or lazily creates) the invocation's record, runs the admission
 * rules in order, and drives the record through start, complete or fail
 * around the command's own work.
 *
 * The pure functions Resolve, Rejection, ChecksModel and HandleModel state
 * what each step does to the table; the methods of MonitoredCommand are
 * proved to do exactly that.
 */
module MonitoredCommands {
  import opened Wrappers
  import opened Php
  import opened CommandRecords

  // ---------------------------------------------------------------------
  // Signature

  const RecordIdToken := "{--command-record-id}"

  /**
   * `completeSignature`: appends the record-id option unless `strpos` finds it.
   * `strpos` answers 0 for a signature that starts with the token, and 0 is
   * falsy, so such a signature gets the token a second time.
   */
  function CompletedSignature(signature: string): string {
    var pos := StrPos(signature, RecordIdToken);
    if pos.Some? && pos.value != 0 then signature else signature + " " + RecordIdToken
  }

  // ---------------------------------------------------------------------
  // Configuration, inputs and results

  /** The protected properties a concrete command sets. */
  datatype Config = Config(
    name: string,
    runsOnce: bool,
    runsIf: seq<string>,
    doesntRunIf: seq<string>,
    runLimit: int,
    isRecursive: bool)

  /** The invocation's `--command-record-id` option, `arguments()` and `options()`. */
  datatype Input = Input(recordIdOption: Option<nat>, arguments: map<string, Value>, options: map<string, Value>)

  /** A PHP exception: message, line, file and the rendered stack trace. */
  datatype Exception = Exception(message: string, line: nat, file: string, trace: string)

  /**
   * What `handleCommand()` does: return a value, throw an `\Exception`, or
   * throw a PHP `\Error` (a TypeError, a method called on null), which is
   * not an `\Exception` and so is not caught by `handle()`.
   */
  datatype WorkResult = Returns(value: Value) | Throws(error: Exception) | Crashes(message: string)

  /** The hard errors that escape `handle()`. */
  datatype Fault =
    | AlreadyStarted(id: nat)   // the exception thrown by passesChecks
    | NullRecord                // a method called on a null record (an id that `find` did not return)
    | Uncaught(message: string) // an `\Error` thrown by the work, which `catch (\Exception $e)` lets through

  /** What `handle()` (and its helpers) return: true, false, null, or an error escaping. */
  datatype Outcome = True | False | Null | Raised(fault: Fault)

  /** The admission rules, in the order they are checked. */
  datatype Reason =
    | HasRunBefore
    | IsRunning
    | RunTooManyTimes
    | NotRunYet(dependency: string)
    | AlreadyRan(conflict: string)

  function ReasonMessage(reason: Reason): string {
    match reason
    case HasRunBefore => "Command has run before."
    case IsRunning => "Command is running."
    case RunTooManyTimes => "Command has been run or requested too many times."
    case NotRunYet(n) => "Command " + n + " has not run yet."
    case AlreadyRan(n) => "Command " + n + " has already run."
  }

  /** `stringFromMessage`: strings as they are, anything else through `var_export`. */
  function StringFromMessage(message: Value): (s: string)
    ensures message.Str? ==> s == message.s
  {
    if message.Str? then message.s else VarExport(message)
  }

  /** The result written when the work throws. */
  function ErrorMessage(e: Exception): string {
    "Error: " + e.message + " at line " + NatToString(e.line) + " of " + e.file + " Stack Trace: " + e.trace
  }

  // ---------------------------------------------------------------------
  // Admission rules

  /** `hasRunTooManyTimes`: a non-negative limit reached by the requested or the completed count. */
  function HasRunTooManyTimes(rows: seq<Record>, c: Config): (b: bool)
    ensures c.runLimit < 0 ==> !b
    ensures b <==> c.runLimit >= 0 && (HasBeenRequestedCount(rows, c.name) >= c.runLimit
                                       || HasCompletedCount(rows, c.name) >= c.runLimit)
  {
    var requested := HasBeenRequestedCount(rows, c.name);
    var completed := HasCompletedCount(rows, c.name);
    c.runLimit >= 0 && (if requested >= completed then requested else completed) >= c.runLimit
  }

  /** The first `runsIf` name that has not completed (`FirstUnmetIsFirst` says so). */
  function FirstUnmet(rows: seq<Record>, names: seq<string>): Option<string> {
    if names == [] then None
    else if !HasCompleted(rows, names[0]) then Some(names[0])
    else FirstUnmet(rows, names[1..])
  }

  lemma {:induction false} FirstUnmetIsFirst(rows: seq<Record>, names: seq<string>)
    ensures var r := FirstUnmet(rows, names);
      && (r.None? <==> forall k :: 0 <= k < |names| ==> HasCompleted(rows, names[k]))
      && (r.Some? ==> exists k :: 0 <= k < |names| && names[k] == r.value && !HasCompleted(rows, names[k])
                                  && forall j :: 0 <= j < k ==> HasCompleted(rows, names[j]))
  {
    if names != [] && HasCompleted(rows, names[0]) {
      var tail := names[1..];
      FirstUnmetIsFirst(rows, tail);
      var r := FirstUnmet(rows, tail);
      if r.Some? {
        var k :| 0 <= k < |tail| && tail[k] == r.value && !HasCompleted(rows, tail[k])
                 && forall j :: 0 <= j < k ==> HasCompleted(rows, tail[j]);
        assert names[k + 1] == r.value;
        assert forall j :: 0 <= j < k + 1 ==> HasCompleted(rows, names[j]) by {
          forall j | 0 <= j < k + 1 ensures HasCompleted(rows, names[j]) {
            if j > 0 { assert names[j] == tail[j - 1]; }
          }
        }
      } else {
        assert forall k :: 0 <= k < |names| ==> HasCompleted(rows, names[k]) by {
          forall k | 0 <= k < |names| ensures HasCompleted(rows, names[k]) {
            if k > 0 { assert names[k] == tail[k - 1]; }
          }
        }
      }
    }
  }

  /** The first `doesntRunIf` name that has completed (`FirstConflictIsFirst` says so). */
  function FirstConflict(rows: seq<Record>, names: seq<string>): Option<string> {
    if names == [] then None
    else if HasCompleted(rows, names[0]) then Some(names[0])
    else FirstConflict(rows, names[1..])
  }

  lemma {:induction false} FirstConflictIsFirst(rows: seq<Record>, names: seq<string>)
    ensures var r := FirstConflict(rows, names);
      && (r.None? <==> forall k :: 0 <= k < |names| ==> !HasCompleted(rows, names[k]))
      && (r.Some? ==> exists k :: 0 <= k < |names| && names[k] == r.value && HasCompleted(rows, names[k])
                                  && forall j :: 0 <= j < k ==> !HasCompleted(rows, names[j]))
  {
    if names != [] && !HasCompleted(rows, names[0]) {
      var tail := names[1..];
      FirstConflictIsFirst(rows, tail);
      var r := FirstConflict(rows, tail);
      if r.Some? {
        var k :| 0 <= k < |tail| && tail[k] == r.value && HasCompleted(rows, tail[k])
                 && forall j :: 0 <= j < k ==> !HasCompleted(rows, tail[j]);
        assert names[k + 1] == r.value;
        assert forall j :: 0 <= j < k + 1 ==> !HasCompleted(rows, names[j]) by {
          forall j | 0 <= j < k + 1 ensures !HasCompleted(rows, names[j]) {
            if j > 0 { assert names[j] == tail[j - 1]; }
          }
        }
      } else {
        assert forall k :: 0 <= k < |names| ==> !HasCompleted(rows, names[k]) by {
          forall k | 0 <= k < |names| ensures !HasCompleted(rows, names[k]) {
            if k > 0 { assert names[k] == tail[k - 1]; }
          }
        }
      }
    }
  }

  /** The reason of the first admission rule that fails, read from the table before anything is written. */
  function Rejection(rows: seq<Record>, c: Config): Option<Reason> {
    if c.runsOnce && HasCompleted(rows, c.name) then Some(HasRunBefore)
    else if c.runsOnce && IsInProgress(rows, c.name) then Some(IsRunning)
    else if HasRunTooManyTimes(rows, c) then Some(RunTooManyTimes)
    else
      match FirstUnmet(rows, c.runsIf)
      case Some(n) => Some(NotRunYet(n))
      case None =>
        match FirstConflict(rows, c.doesntRunIf)
        case Some(n) => Some(AlreadyRan(n))
        case None => None
  }

  // ---------------------------------------------------------------------
  // Resolving the record

  predicate InTable(record: Option<nat>, rows: seq<Record>) {
    record.Some? ==> 1 <= record.value <= |rows|
  }

  /** PHP truthiness of the record-id option: absent and 0 are false. */
  predicate HasRecordIdOption(input: Input) {
    input.recordIdOption.Some? && input.recordIdOption.value != 0
  }

  datatype Resolution = Resolution(id: Option<nat>, rows: seq<Record>)

  /**
   * `commandRecord()`: the memoised record if there is one; otherwise the
   * record named by the id option (null when `find` misses); otherwise a new
   * row with the command's name, arguments and options and an empty result.
   */
  function Resolve(rows: seq<Record>, memo: Option<nat>, input: Input, name: string): (r: Resolution)
    requires WellFormed(rows) && InTable(memo, rows)
    ensures WellFormed(r.rows) && InTable(r.id, r.rows)
    ensures memo.Some? ==> r == Resolution(memo, rows)
    ensures memo.None? && HasRecordIdOption(input) ==>
              r.rows == rows && (r.id.Some? <==> Find(rows, input.recordIdOption.value).Some?)
              && (r.id.Some? ==> r.id.value == input.recordIdOption.value && !IsTrashed(rows[r.id.value - 1]))
    ensures memo.None? && !HasRecordIdOption(input) ==>
              r.id == Some(|rows| + 1) && r.rows == rows + [NewRecord(|rows| + 1, name, input.arguments, input.options, "")]
  {
    if memo.Some? then Resolution(memo, rows)
    else if HasRecordIdOption(input) then
      var id := input.recordIdOption.value;
      FindInWellFormed(rows, id);
      Resolution(if Find(rows, id).Some? then Some(id) else None, rows)
    else
      Resolution(Some(|rows| + 1), rows + [NewRecord(|rows| + 1, name, input.arguments, input.options, "")])
  }

  // ---------------------------------------------------------------------
  // The whole of passesChecks and handle, as functions of the table

  /** The table, clock and memoised record after a step, with what it returned. */
  datatype Run = Run(outcome: Outcome, rows: seq<Record>, clock: Timestamp, record: Option<nat>)

  /**
   * `passesChecks()` once the record is resolved and the rules are read: a
   * failing rule fails the record with its reason and answers false; if every
   * rule passes, a record that has already started is a hard error; a null
   * record is a hard error either way.
   */
  function ChecksStep(res: Resolution, clock: Timestamp, rejection: Option<Reason>): (r: Run)
    requires WellFormed(res.rows) && InTable(res.id, res.rows)
    ensures WellFormed(r.rows) && InTable(r.record, r.rows)
    ensures r.outcome == True ==> r.record.Some? && !HasStarted(r.rows[r.record.value - 1]) && r.clock == clock
  {
    match rejection
    case Some(reason) =>
      if res.id.None? then Run(Raised(NullRecord), res.rows, clock, None)
      else
        var id := res.id.value;
        var message := Some(StringFromMessage(Str(ReasonMessage(reason))));
        Run(False, res.rows[id - 1 := FailRecord(res.rows[id - 1], clock + 1, message)], clock + 1, res.id)
    case None =>
      if res.id.None? then Run(Raised(NullRecord), res.rows, clock, None)
      else if HasStarted(res.rows[res.id.value - 1]) then Run(Raised(AlreadyStarted(res.id.value)), res.rows, clock, res.id)
      else Run(True, res.rows, clock, res.id)
  }

  /** `passesChecks()`: the rules are read from the table before the record is resolved or anything is written. */
  function ChecksModel(rows: seq<Record>, clock: Timestamp, memo: Option<nat>, c: Config, input: Input): (r: Run)
    requires WellFormed(rows) && InTable(memo, rows)
    ensures WellFormed(r.rows) && InTable(r.record, r.rows)
    ensures r.outcome == True ==> r.record.Some? && !HasStarted(r.rows[r.record.value - 1]) && r.clock == clock
  {
    ChecksStep(Resolve(rows, memo, input, c.name), clock, Rejection(rows, c))
  }

  /**
   * `handle()` after the checks: when they passed, start the record and run
   * the work; a returned value completes the record unless the command is
   * recursive, a thrown exception fails it with the error text, and an
   * `\Error` escapes with the record started and still open.
   */
  function HandleStep(checked: Run, isRecursive: bool, work: WorkResult): (r: Run)
    requires WellFormed(checked.rows) && InTable(checked.record, checked.rows)
    requires checked.outcome == True ==> checked.record.Some?
    ensures WellFormed(r.rows) && InTable(r.record, r.rows)
  {
    if checked.outcome != True then checked
    else
      var id := checked.record.value;
      var started := checked.rows[id - 1 := StartRecord(checked.rows[id - 1], checked.clock + 1)];
      match work
      case Returns(v) =>
        if isRecursive then Run(Outcome.Null, started, checked.clock + 1, checked.record)
        else
          var message := Some(StringFromMessage(v));
          Run(True, started[id - 1 := CompleteRecord(started[id - 1], checked.clock + 2, message)], checked.clock + 2, checked.record)
      case Throws(e) =>
        var message := Some(StringFromMessage(Str(ErrorMessage(e))));
        Run(False, started[id - 1 := FailRecord(started[id - 1], checked.clock + 2, message)], checked.clock + 2, checked.record)
      case Crashes(m) =>
        Run(Raised(Uncaught(m)), started, checked.clock + 1, checked.record)
  }

  /** `handle()`: the checks, then the work. */
  function HandleModel(rows: seq<Record>, clock: Timestamp, memo: Option<nat>, c: Config, input: Input, work: WorkResult): (r: Run)
    requires WellFormed(rows) && InTable(memo, rows)
    ensures WellFormed(r.rows) && InTable(r.record, r.rows)
  {
    HandleStep(ChecksModel(rows, clock, memo, c, input), c.isRecursive, work)
  }

  /** Checks that pass have read every rule as satisfied, on a record that has not started, and written nothing. */
  lemma AdmittedChecks(rows: seq<Record>, clock: Timestamp, memo: Option<nat>, c: Config, input: Input)
    requires WellFormed(rows) && InTable(memo, rows)
    requires ChecksModel(rows, clock, memo, c, input).outcome == True
    ensures var res := Resolve(rows, memo, input, c.name);
      && Rejection(rows, c).None?
      && res.id.Some? && !HasStarted(res.rows[res.id.value - 1])
      && ChecksModel(rows, clock, memo, c, input) == Run(True, res.rows, clock, res.id)
  {
  }

  // ---------------------------------------------------------------------
  // The command object

  class MonitoredCommand {
    const store: Store
    const config: Config
    const input: Input
    var signature: string
    var record: Option<nat>

    ghost predicate Valid()
      reads this, store
    {
      store.Valid() && InTable(record, store.rows)
    }

    /** Builds the command and completes its signature. */
    constructor (store: Store, config: Config, input: Input, signature: string)
      requires store.Valid()
      ensures Valid()
      ensures this.store == store && this.config == config && this.input == input
      ensures this.signature == CompletedSignature(signature) && record == None
    {
      this.store := store;
      this.config := config;
      this.input := input;
      this.signature := signature;
      record := None;
      new;
      CompleteSignature();
    }

    method CompleteSignature()
      modifies this`signature
      ensures signature == CompletedSignature(old(signature))
    {
      var pos := StrPos(signature, RecordIdToken);
      if pos.Some? && pos.value != 0 {
        return;
      }
      signature := signature + " " + RecordIdToken;
    }

    method CommandRecord() returns (r: Option<nat>)
      requires Valid()
      modifies this`record, store
      ensures Valid()
      ensures var res := Resolve(old(store.rows), old(record), input, config.name);
              r == res.id && record == res.id && store.rows == res.rows
      ensures store.clock == old(store.clock)
    {
      if record.Some? {
        return record;
      }
      if HasRecordIdOption(input) {
        var id := input.recordIdOption.value;
        FindInWellFormed(store.rows, id);
        record := if Find(store.rows, id).Some? then Some(id) else None;
        return record;
      }
      var id := store.Create(config.name, input.arguments, input.options, "");
      record := Some(id);
      r := record;
    }

    /** `complete($message)`: completes the record with the message's text and answers true. */
    method Complete(message: Value) returns (o: Outcome)
      requires Valid()
      modifies this`record, store
      ensures Valid()
      ensures var res := Resolve(old(store.rows), old(record), input, config.name);
              && record == res.id
              && (res.id.None? ==> o == Raised(NullRecord) && store.rows == res.rows && store.clock == old(store.clock))
              && (res.id.Some? ==>
                    && o == True && store.clock == old(store.clock) + 1
                    && store.rows == res.rows[res.id.value - 1 := CompleteRecord(res.rows[res.id.value - 1], store.clock,
                                                                                  Some(StringFromMessage(message)))])
    {
      var text := StringFromMessage(message);
      var r := CommandRecord();
      if r.None? {
        return Raised(NullRecord);
      }
      store.Complete(r.value, Some(text));
      o := True;
    }

    /** `fail($message)`: fails the record with the message's text and answers false. */
    method Fail(message: Value) returns (o: Outcome)
      requires Valid()
      modifies this`record, store
      ensures Valid()
      ensures var res := Resolve(old(store.rows), old(record), input, config.name);
              && record == res.id
              && (res.id.None? ==> o == Raised(NullRecord) && store.rows == res.rows && store.clock == old(store.clock))
              && (res.id.Some? ==>
                    && o == False && store.clock == old(store.clock) + 1
                    && store.rows == res.rows[res.id.value - 1 := FailRecord(res.rows[res.id.value - 1], store.clock,
                                                                              Some(StringFromMessage(message)))])
    {
      var text := StringFromMessage(message);
      var r := CommandRecord();
      if r.None? {
        return Raised(NullRecord);
      }
      store.Fail(r.value, Some(text));
      o := False;
    }

    /** `return $this->fail(...)` for the first failing rule: the record is failed with that rule's message. */
    method Reject(reason: Reason) returns (o: Outcome)
      requires Valid() && Rejection(store.rows, config) == Some(reason)
      modifies this`record, store
      ensures Valid()
      ensures var run := ChecksModel(old(store.rows), old(store.clock), old(record), config, input);
              o == run.outcome && store.rows == run.rows && store.clock == run.clock && record == run.record
    {
      o := Fail(Str(ReasonMessage(reason)));
    }

    method PassesChecks() returns (o: Outcome)
      requires Valid()
      modifies this`record, store
      ensures Valid()
      ensures var run := ChecksModel(old(store.rows), old(store.clock), old(record), config, input);
              o == run.outcome && store.rows == run.rows && store.clock == run.clock && record == run.record
    {
      ghost var rows := store.rows;
      if config.runsOnce && HasCompleted(store.rows, config.name) {
        o := Reject(HasRunBefore);
        return;
      }
      if config.runsOnce && IsInProgress(store.rows, config.name) {
        o := Reject(IsRunning);
        return;
      }
      if HasRunTooManyTimes(store.rows, config) {
        o := Reject(RunTooManyTimes);
        return;
      }
      var i := 0;
      while i < |config.runsIf|
        invariant 0 <= i <= |config.runsIf|
        invariant FirstUnmet(rows, config.runsIf) == FirstUnmet(rows, config.runsIf[i..])
      {
        var name := config.runsIf[i];
        assert config.runsIf[i..][1..] == config.runsIf[i + 1..];
        if !HasCompleted(store.rows, name) {
          o := Reject(NotRunYet(name));
          return;
        }
        i := i + 1;
      }
      i := 0;
      while i < |config.doesntRunIf|
        invariant 0 <= i <= |config.doesntRunIf|
        invariant FirstConflict(rows, config.doesntRunIf) == FirstConflict(rows, config.doesntRunIf[i..])
      {
        var name := config.doesntRunIf[i];
        assert config.doesntRunIf[i..][1..] == config.doesntRunIf[i + 1..];
        if HasCompleted(store.rows, name) {
          o := Reject(AlreadyRan(name));
          return;
        }
        i := i + 1;
      }
      assert Rejection(rows, config).None?;
      var r := CommandRecord();
      if r.None? {
        return Raised(NullRecord);
      }
      if HasStarted(store.rows[r.value - 1]) {
        return Raised(AlreadyStarted(r.value));
      }
      o := True;
    }

    /** The `try` block of `handle()`: start the record, run the work, and settle the record by its result. */
    method RunWork(work: WorkResult) returns (o: Outcome)
      requires Valid() && record.Some? && !HasStarted(store.rows[record.value - 1])
      modifies this`record, store
      ensures Valid()
      ensures var run := HandleStep(Run(True, old(store.rows), old(store.clock), old(record)), config.isRecursive, work);
              o == run.outcome && store.rows == run.rows && store.clock == run.clock && record == run.record
    {
      var r := CommandRecord();
      store.Start(r.value);
      match work {
        case Returns(v) =>
          if !config.isRecursive {
            o := Complete(v);
          } else {
            o := Outcome.Null;
          }
        case Throws(e) =>
          o := Fail(Str(ErrorMessage(e)));
        case Crashes(m) =>
          o := Raised(Uncaught(m));
      }
    }

    method Handle(work: WorkResult) returns (o: Outcome)
      requires Valid()
      modifies this`record, store
      ensures Valid()
      ensures var run := HandleModel(old(store.rows), old(store.clock), old(record), config, input, work);
              o == run.outcome && store.rows == run.rows && store.clock == run.clock && record == run.record
    {
      ghost var rows, clock, memo := store.rows, store.clock, record;
      o := PassesChecks();
      if o != True {
        return;
      }
      AdmittedChecks(rows, clock, memo, config, input);
      o := RunWork(work);
    }
  }
}
