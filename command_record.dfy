/**
 * The table of command records: one row per invocation of a monitored
 * command, the three lifecycle transitions (start, complete, fail), and the
 * aggregate queries by name. Failure is a soft delete: the default scope of
 * every query hides rows whose `deletedAt` is set, and only the "requested"
 * queries ask for trashed rows as well.
 */
module CommandRecords {
  import opened Wrappers
  import opened Php

  /** A point of an abstract, monotonic clock standing in for `Carbon::now()`. */
  type Timestamp = nat

  datatype Record = Record(
    id: nat,
    name: string,
    arguments: map<string, Value>,
    options: map<string, Value>,
    startedAt: Option<Timestamp>,
    completedAt: Option<Timestamp>,
    deletedAt: Option<Timestamp>,
    result: string)

  /** The row `CommandRecord::create` inserts: all timestamps unset. */
  function NewRecord(id: nat, name: string, arguments: map<string, Value>, options: map<string, Value>, result: string): Record {
    Record(id, name, arguments, options, None, None, None, result)
  }

  /** Auto-increment ids: the row at position i has id i + 1. */
  predicate WellFormed(rows: seq<Record>) {
    forall i :: 0 <= i < |rows| ==> rows[i].id == i + 1
  }

  predicate IsCompleted(r: Record) {
    r.completedAt.Some?
  }

  predicate HasStarted(r: Record) {
    r.startedAt.Some?
  }

  predicate IsTrashed(r: Record) {
    r.deletedAt.Some?
  }

  // ---------------------------------------------------------------------
  // Lifecycle transitions of one row

  function StartRecord(r: Record, now: Timestamp): Record {
    if HasStarted(r) then r else r.(startedAt := Some(now))
  }

  function CompleteRecord(r: Record, now: Timestamp, message: Option<string>): Record {
    r.(completedAt := Some(now), result := OrEmpty(message))
  }

  function FailRecord(r: Record, now: Timestamp, message: Option<string>): Record {
    r.(deletedAt := Some(now), result := OrEmpty(message))
  }

  /** A fresh record has neither started nor completed. */
  lemma NewRecordIsIdle(id: nat, name: string, arguments: map<string, Value>, options: map<string, Value>, result: string)
    ensures !HasStarted(NewRecord(id, name, arguments, options, result))
    ensures !IsCompleted(NewRecord(id, name, arguments, options, result))
    ensures !IsTrashed(NewRecord(id, name, arguments, options, result))
  {
  }

  /** Starting stamps `startedAt` once; a second start changes nothing. */
  lemma StartIsIdempotent(r: Record, t1: Timestamp, t2: Timestamp)
    ensures HasStarted(StartRecord(r, t1))
    ensures StartRecord(r, t1).startedAt == if HasStarted(r) then r.startedAt else Some(t1)
    ensures StartRecord(StartRecord(r, t1), t2) == StartRecord(r, t1)
    ensures StartRecord(r, t1).(startedAt := r.startedAt) == r
  {
  }

  /** Completing stamps `completedAt`, stores the message or `''`, and touches nothing else. */
  lemma CompleteSetsResult(r: Record, now: Timestamp, message: Option<string>)
    ensures IsCompleted(CompleteRecord(r, now, message))
    ensures CompleteRecord(r, now, message).result == "" <==> message.None? || Falsy(message.value)
    ensures !Falsy(CompleteRecord(r, now, message).result) ==> message == Some(CompleteRecord(r, now, message).result)
    ensures CompleteRecord(r, now, message).(completedAt := r.completedAt, result := r.result) == r
  {
    OrEmptyKeepsTruthy(message);
  }

  /** Failing soft-deletes, stores the message or `''`, and touches nothing else. */
  lemma FailSetsResult(r: Record, now: Timestamp, message: Option<string>)
    ensures IsTrashed(FailRecord(r, now, message))
    ensures FailRecord(r, now, message).result == "" <==> message.None? || Falsy(message.value)
    ensures !Falsy(FailRecord(r, now, message).result) ==> message == Some(FailRecord(r, now, message).result)
    ensures FailRecord(r, now, message).(deletedAt := r.deletedAt, result := r.result) == r
  {
    OrEmptyKeepsTruthy(message);
  }

  // ---------------------------------------------------------------------
  // Queries: `where('name', n)`, the soft-delete scope, `whereNull`/`whereNotNull`

  datatype Presence = Any | IsNull | NotNull

  datatype Query = Query(name: string, withTrashed: bool, started: Presence, completed: Presence)

  predicate Satisfies(t: Option<Timestamp>, p: Presence) {
    match p
    case Any => true
    case IsNull => t.None?
    case NotNull => t.Some?
  }

  predicate Matches(r: Record, q: Query) {
    && r.name == q.name
    && (q.withTrashed || r.deletedAt.None?)
    && Satisfies(r.startedAt, q.started)
    && Satisfies(r.completedAt, q.completed)
  }

  function InProgressQuery(name: string): Query {
    Query(name, false, NotNull, IsNull)
  }

  function CompletedQuery(name: string): Query {
    Query(name, false, Any, NotNull)
  }

  function RequestedQuery(name: string): Query {
    Query(name, true, Any, Any)
  }

  /** `->first()`: some row the query selects, here the first in table order. */
  function FirstFrom(rows: seq<Record>, q: Query, from: nat): Option<nat>
    decreases |rows| - from
  {
    if from >= |rows| then None
    else if Matches(rows[from], q) then Some(from)
    else FirstFrom(rows, q, from + 1)
  }

  function First(rows: seq<Record>, q: Query): Option<nat> {
    FirstFrom(rows, q, 0)
  }

  lemma {:induction false} FirstFromIsFirstMatch(rows: seq<Record>, q: Query, from: nat)
    decreases |rows| - from
    ensures var r := FirstFrom(rows, q, from);
      && (r.Some? ==> from <= r.value < |rows| && Matches(rows[r.value], q)
                      && forall i :: from <= i < r.value ==> !Matches(rows[i], q))
      && (r.None? ==> forall i :: from <= i < |rows| ==> !Matches(rows[i], q))
  {
    if from < |rows| && !Matches(rows[from], q) {
      FirstFromIsFirstMatch(rows, q, from + 1);
    }
  }

  /** `first()` finds the first selected row, and finds none exactly when no row is selected. */
  lemma FirstIsFirstMatch(rows: seq<Record>, q: Query)
    ensures var r := First(rows, q);
      && (r.Some? ==> r.value < |rows| && Matches(rows[r.value], q) && forall i :: 0 <= i < r.value ==> !Matches(rows[i], q))
      && (r.None? <==> forall i :: 0 <= i < |rows| ==> !Matches(rows[i], q))
  {
    FirstFromIsFirstMatch(rows, q, 0);
  }

  /** `->count()`: the number of rows the query selects. */
  function Count(rows: seq<Record>, q: Query): nat {
    if rows == [] then 0
    else Count(rows[..|rows| - 1], q) + (if Matches(rows[|rows| - 1], q) then 1 else 0)
  }

  /** The positions of the rows a query selects. */
  ghost function Selected(rows: seq<Record>, q: Query): set<nat> {
    set i: nat | i < |rows| && Matches(rows[i], q)
  }

  /** The count is the number of selected rows. */
  lemma {:induction false} CountIsCardinality(rows: seq<Record>, q: Query)
    ensures Count(rows, q) == |Selected(rows, q)|
  {
    if rows != [] {
      var n := |rows| - 1;
      var prefix := rows[..n];
      CountIsCardinality(prefix, q);
      if Matches(rows[n], q) {
        assert Selected(rows, q) == Selected(prefix, q) + {n};
      } else {
        assert Selected(rows, q) == Selected(prefix, q);
      }
    }
  }

  /** The count is positive exactly when some row is selected. */
  lemma {:induction false} CountPositive(rows: seq<Record>, q: Query)
    ensures Count(rows, q) > 0 <==> exists i :: 0 <= i < |rows| && Matches(rows[i], q)
  {
    if rows != [] {
      var n := |rows| - 1;
      var prefix := rows[..n];
      CountPositive(prefix, q);
      if Count(prefix, q) > 0 {
        var i :| 0 <= i < |prefix| && Matches(prefix[i], q);
        assert Matches(rows[i], q);
      }
      if exists i :: 0 <= i < |rows| && Matches(rows[i], q) {
        var i :| 0 <= i < |rows| && Matches(rows[i], q);
        if i < n {
          assert Matches(prefix[i], q);
        }
      }
    }
  }

  /** Replacing one row changes a count by that row's own contribution only. */
  lemma {:induction false} CountAfterUpdate(rows: seq<Record>, k: nat, r: Record, q: Query)
    requires k < |rows|
    ensures Count(rows[k := r], q)
         == Count(rows, q) - (if Matches(rows[k], q) then 1 else 0) + (if Matches(r, q) then 1 else 0)
  {
    var n := |rows| - 1;
    var updated := rows[k := r];
    if k == n {
      assert updated[..n] == rows[..n];
    } else {
      assert updated[..n] == rows[..n][k := r];
      CountAfterUpdate(rows[..n], k, r, q);
    }
  }

  lemma CountAfterAppend(rows: seq<Record>, r: Record, q: Query)
    ensures Count(rows + [r], q) == Count(rows, q) + (if Matches(r, q) then 1 else 0)
  {
    assert (rows + [r])[..|rows|] == rows;
  }

  // ---------------------------------------------------------------------
  // The static queries of the record class

  /** `isInProgress`: a started, uncompleted row with the name, in the default scope. */
  function IsInProgress(rows: seq<Record>, name: string): bool {
    First(rows, InProgressQuery(name)).Some?
  }

  /** `hasCompleted`: a completed row with the name, in the default scope. */
  function HasCompleted(rows: seq<Record>, name: string): bool {
    First(rows, CompletedQuery(name)).Some?
  }

  /** `hasCompletedCount`: the number of completed rows with the name, in the default scope. */
  function HasCompletedCount(rows: seq<Record>, name: string): nat {
    Count(rows, CompletedQuery(name))
  }

  /** `hasBeenRequested`: a row with the name, trashed or not. */
  function HasBeenRequested(rows: seq<Record>, name: string): bool {
    First(rows, RequestedQuery(name)).Some?
  }

  /** `hasBeenRequestedCount`: the number of rows with the name, trashed or not. */
  function HasBeenRequestedCount(rows: seq<Record>, name: string): nat {
    Count(rows, RequestedQuery(name))
  }

  lemma IsInProgressIff(rows: seq<Record>, name: string)
    ensures IsInProgress(rows, name) <==> exists i :: 0 <= i < |rows| && rows[i].name == name && !IsTrashed(rows[i])
                                                       && HasStarted(rows[i]) && !IsCompleted(rows[i])
  {
    FirstIsFirstMatch(rows, InProgressQuery(name));
  }

  lemma HasCompletedIff(rows: seq<Record>, name: string)
    ensures HasCompleted(rows, name) <==> exists i :: 0 <= i < |rows| && rows[i].name == name && !IsTrashed(rows[i])
                                                       && IsCompleted(rows[i])
  {
    FirstIsFirstMatch(rows, CompletedQuery(name));
  }

  lemma HasBeenRequestedIff(rows: seq<Record>, name: string)
    ensures HasBeenRequested(rows, name) <==> exists i :: 0 <= i < |rows| && rows[i].name == name
  {
    FirstIsFirstMatch(rows, RequestedQuery(name));
  }

  lemma HasCompletedCountIsCardinality(rows: seq<Record>, name: string)
    ensures HasCompletedCount(rows, name)
         == |set i: nat | i < |rows| && rows[i].name == name && !IsTrashed(rows[i]) && IsCompleted(rows[i])|
  {
    CountIsCardinality(rows, CompletedQuery(name));
    assert Selected(rows, CompletedQuery(name))
        == set i: nat | i < |rows| && rows[i].name == name && !IsTrashed(rows[i]) && IsCompleted(rows[i]);
  }

  lemma HasBeenRequestedCountIsCardinality(rows: seq<Record>, name: string)
    ensures HasBeenRequestedCount(rows, name) == |set i: nat | i < |rows| && rows[i].name == name|
  {
    CountIsCardinality(rows, RequestedQuery(name));
    assert Selected(rows, RequestedQuery(name)) == set i: nat | i < |rows| && rows[i].name == name;
  }

  /** `hasCompleted` and `hasCompletedCount` agree: completed iff the count is at least one. */
  lemma HasCompletedIffCount(rows: seq<Record>, name: string)
    ensures HasCompleted(rows, name) <==> HasCompletedCount(rows, name) >= 1
  {
    FirstIsFirstMatch(rows, CompletedQuery(name));
    CountPositive(rows, CompletedQuery(name));
  }

  /** `hasBeenRequested` and `hasBeenRequestedCount` agree. */
  lemma HasBeenRequestedIffCount(rows: seq<Record>, name: string)
    ensures HasBeenRequested(rows, name) <==> HasBeenRequestedCount(rows, name) >= 1
  {
    FirstIsFirstMatch(rows, RequestedQuery(name));
    CountPositive(rows, RequestedQuery(name));
  }

  /** Every completed row was requested, so the requested count bounds the completed one. */
  lemma {:induction false} RequestedAtLeastCompleted(rows: seq<Record>, name: string)
    ensures HasCompletedCount(rows, name) <= HasBeenRequestedCount(rows, name)
  {
    if rows != [] {
      RequestedAtLeastCompleted(rows[..|rows| - 1], name);
    }
  }

  /** Completing a visible row makes its name completed, and it no longer counts as in progress. */
  lemma CompleteIsSeenByQueries(rows: seq<Record>, k: nat, now: Timestamp, message: Option<string>)
    requires k < |rows| && !IsTrashed(rows[k])
    ensures var after := rows[k := CompleteRecord(rows[k], now, message)];
      && HasCompleted(after, rows[k].name)
      && HasCompletedCount(after, rows[k].name)
         == HasCompletedCount(rows, rows[k].name) + (if IsCompleted(rows[k]) then 0 else 1)
      && HasBeenRequestedCount(after, rows[k].name) == HasBeenRequestedCount(rows, rows[k].name)
      && !Matches(after[k], InProgressQuery(rows[k].name))
  {
    var r := CompleteRecord(rows[k], now, message);
    var after := rows[k := r];
    assert after[k] == r;
    FirstIsFirstMatch(after, CompletedQuery(rows[k].name));
    CountAfterUpdate(rows, k, r, CompletedQuery(rows[k].name));
    CountAfterUpdate(rows, k, r, RequestedQuery(rows[k].name));
  }

  /**
   * Failing a row hides it from every default-scope query: it is neither in
   * progress nor completed any more, the completed count loses it if it
   * counted, and the requested count, which includes trashed rows, keeps it.
   */
  lemma FailHidesRecord(rows: seq<Record>, k: nat, now: Timestamp, message: Option<string>)
    requires k < |rows|
    ensures var after := rows[k := FailRecord(rows[k], now, message)];
      && !Matches(after[k], InProgressQuery(rows[k].name))
      && !Matches(after[k], CompletedQuery(rows[k].name))
      && HasCompletedCount(after, rows[k].name)
         == HasCompletedCount(rows, rows[k].name) - (if Matches(rows[k], CompletedQuery(rows[k].name)) then 1 else 0)
      && HasBeenRequestedCount(after, rows[k].name) == HasBeenRequestedCount(rows, rows[k].name)
      && (IsInProgress(after, rows[k].name) <==>
            exists i :: 0 <= i < |rows| && i != k && Matches(rows[i], InProgressQuery(rows[k].name)))
  {
    var r := FailRecord(rows[k], now, message);
    var after := rows[k := r];
    assert after[k] == r;
    CountAfterUpdate(rows, k, r, CompletedQuery(rows[k].name));
    CountAfterUpdate(rows, k, r, RequestedQuery(rows[k].name));
    FirstIsFirstMatch(after, InProgressQuery(rows[k].name));
    if IsInProgress(after, rows[k].name) {
      var i := First(after, InProgressQuery(rows[k].name)).value;
      assert i != k && Matches(rows[i], InProgressQuery(rows[k].name));
    }
    if exists i :: 0 <= i < |rows| && i != k && Matches(rows[i], InProgressQuery(rows[k].name)) {
      var i :| 0 <= i < |rows| && i != k && Matches(rows[i], InProgressQuery(rows[k].name));
      assert Matches(after[i], InProgressQuery(rows[k].name));
    }
  }

  // ---------------------------------------------------------------------
  // Lookup by id and the arguments of a nested invocation

  function FindFrom(rows: seq<Record>, id: nat, from: nat): (r: Option<nat>)
    decreases |rows| - from
    ensures r.Some? ==> from <= r.value < |rows| && rows[r.value].id == id && !IsTrashed(rows[r.value])
    ensures r.None? ==> forall i :: from <= i < |rows| && rows[i].id == id ==> IsTrashed(rows[i])
  {
    if from >= |rows| then None
    else if rows[from].id == id && !IsTrashed(rows[from]) then Some(from)
    else FindFrom(rows, id, from + 1)
  }

  /** `CommandRecord::find($id)`: the default scope applies, so a trashed row is not found. */
  function Find(rows: seq<Record>, id: nat): (r: Option<nat>)
    ensures r.Some? ==> r.value < |rows| && rows[r.value].id == id && !IsTrashed(rows[r.value])
    ensures r.None? ==> forall i :: 0 <= i < |rows| && rows[i].id == id ==> IsTrashed(rows[i])
  {
    FindFrom(rows, id, 0)
  }

  /** In a well-formed table, `find` succeeds exactly on the ids of untrashed rows. */
  lemma FindInWellFormed(rows: seq<Record>, id: nat)
    requires WellFormed(rows)
    ensures Find(rows, id).Some? <==> 1 <= id <= |rows| && !IsTrashed(rows[id - 1])
    ensures Find(rows, id).Some? ==> Find(rows, id).value == id - 1
  {
    if 1 <= id <= |rows| {
      assert rows[id - 1].id == id;
    }
  }

  const RecordIdArgument := "--command-record-id"

  /**
   * The arguments for re-invoking the command on this same record: the stored
   * arguments with `--command-record-id` set to the record's id. This is the
   * intended merge; `GetCommandArgumentsAsWritten` is what the code does.
   */
  function GetCommandArguments(r: Record): (args: map<string, Value>)
    ensures args.Keys == r.arguments.Keys + {RecordIdArgument}
    ensures args[RecordIdArgument] == Int(r.id)
    ensures forall k :: k in r.arguments && k != RecordIdArgument ==> args[k] == r.arguments[k]
  {
    r.arguments[RecordIdArgument := Int(r.id)]
  }

  /** What `getCommandArguments` yields as written: an array, or the error that escapes it. */
  datatype ArgumentsResult = Merged(arguments: map<string, Value>) | TypeError(message: string)

  /**
   * `getCommandArguments` as written: the `json` cast has already decoded the
   * `arguments` column into an array, so `json_decode` receives an array
   * instead of a string and raises a TypeError (a PHP `\Error`) before
   * `array_merge` runs.
   */
  function GetCommandArgumentsAsWritten(r: Record): ArgumentsResult {
    TypeError("json_decode(): Argument #1 ($json) must be of type string, array given")
  }

  /** The code as written never hands back the merged arguments, for any record. */
  lemma ArgumentsAsWrittenNeverMerge(r: Record)
    ensures GetCommandArgumentsAsWritten(r).TypeError?
    ensures GetCommandArgumentsAsWritten(r) != Merged(GetCommandArguments(r))
  {
  }

  // ---------------------------------------------------------------------
  // The persistent table

  /** The `command_records` table, with the clock that stamps its timestamps. */
  class Store {
    var rows: seq<Record>
    var clock: Timestamp

    ghost predicate Valid()
      reads this
    {
      WellFormed(rows)
    }

    constructor ()
      ensures Valid() && rows == [] && clock == 0
    {
      rows := [];
      clock := 0;
    }

    /** `CommandRecord::create`: appends a row with the next id. */
    method Create(name: string, arguments: map<string, Value>, options: map<string, Value>, result: string)
      returns (id: nat)
      requires Valid()
      modifies this
      ensures Valid()
      ensures id == |old(rows)| + 1
      ensures rows == old(rows) + [NewRecord(id, name, arguments, options, result)]
      ensures clock == old(clock)
    {
      id := |rows| + 1;
      rows := rows + [NewRecord(id, name, arguments, options, result)];
    }

    /** `start()`: stamps `startedAt` unless the row has already started. */
    method Start(id: nat)
      requires Valid() && 1 <= id <= |rows|
      modifies this
      ensures Valid()
      ensures old(HasStarted(rows[id - 1])) ==> rows == old(rows) && clock == old(clock)
      ensures !old(HasStarted(rows[id - 1])) ==>
                clock == old(clock) + 1 && rows == old(rows)[id - 1 := StartRecord(old(rows[id - 1]), clock)]
    {
      if !HasStarted(rows[id - 1]) {
        clock := clock + 1;
        rows := rows[id - 1 := StartRecord(rows[id - 1], clock)];
      }
    }

    /** `complete($message)`: stamps `completedAt` and stores the result. */
    method Complete(id: nat, message: Option<string>)
      requires Valid() && 1 <= id <= |rows|
      modifies this
      ensures Valid()
      ensures clock == old(clock) + 1
      ensures rows == old(rows)[id - 1 := CompleteRecord(old(rows[id - 1]), clock, message)]
    {
      clock := clock + 1;
      rows := rows[id - 1 := CompleteRecord(rows[id - 1], clock, message)];
    }

    /** `fail($message)`: soft-deletes the row and stores the result. */
    method Fail(id: nat, message: Option<string>)
      requires Valid() && 1 <= id <= |rows|
      modifies this
      ensures Valid()
      ensures clock == old(clock) + 1
      ensures rows == old(rows)[id - 1 := FailRecord(old(rows[id - 1]), clock, message)]
    {
      clock := clock + 1;
      rows := rows[id - 1 := FailRecord(rows[id - 1], clock, message)];
    }
  }
}
