/**
 * Properties of a monitored command's run: the signature rule, the order of
 * the admission rules, the run limit, what `handle()` leaves in the table in
 * each case, and how many records an invocation creates.
 */
module AdmissionProperties {
  import opened Wrappers
  import opened Php
  import opened CommandRecords
  import opened MonitoredCommands

  // ---------------------------------------------------------------------
  // completeSignature

  lemma TokenHasNoSpace()
    ensures |RecordIdToken| == 21 && RecordIdToken[0] == '{'
    ensures forall k :: 0 <= k < |RecordIdToken| ==> RecordIdToken[k] != ' '
  {
  }

  lemma AppendedTokenOccurs(signature: string)
    ensures OccursAt(signature + " " + RecordIdToken, RecordIdToken, |signature| + 1)
  {
    var s := signature + " " + RecordIdToken;
    assert s[|signature| + 1..|signature| + 1 + |RecordIdToken|] == RecordIdToken;
  }

  /** After completion the signature always declares the record-id option. */
  lemma CompletedSignatureHasToken(signature: string)
    ensures Contains(CompletedSignature(signature), RecordIdToken)
  {
    var pos := StrPos(signature, RecordIdToken);
    if pos.Some? && pos.value != 0 {
      assert OccursAt(signature, RecordIdToken, pos.value);
    } else {
      AppendedTokenOccurs(signature);
    }
  }

  /**
   * The signature is left alone exactly when it already contains the token
   * somewhere other than at its very start.
   */
  lemma CompletedSignatureUnchangedIff(signature: string)
    ensures CompletedSignature(signature) == signature
        <==> Contains(signature, RecordIdToken) && !OccursAt(signature, RecordIdToken, 0)
  {
    var pos := StrPos(signature, RecordIdToken);
    if Contains(signature, RecordIdToken) && !OccursAt(signature, RecordIdToken, 0) {
      assert pos.Some? && pos.value != 0;
    }
    if CompletedSignature(signature) == signature {
      assert |signature + " " + RecordIdToken| > |signature|;
      assert pos.Some? && pos.value != 0;
      assert OccursAt(signature, RecordIdToken, pos.value);
    }
  }

  /** A signature that starts with the token gets it a second time (strpos answers a falsy 0). */
  lemma LeadingTokenIsDuplicated(signature: string)
    requires OccursAt(signature, RecordIdToken, 0)
    ensures CompletedSignature(signature) == signature + " " + RecordIdToken
    ensures OccursAt(CompletedSignature(signature), RecordIdToken, 0)
    ensures OccursAt(CompletedSignature(signature), RecordIdToken, |signature| + 1)
  {
    AppendedTokenOccurs(signature);
    var s := signature + " " + RecordIdToken;
    assert s[0..|RecordIdToken|] == signature[0..|RecordIdToken|];
  }

  /** Appending the token to a signature that does not start with it does not make it start with it. */
  lemma AppendedTokenIsNotLeading(signature: string)
    requires !OccursAt(signature, RecordIdToken, 0)
    ensures !OccursAt(signature + " " + RecordIdToken, RecordIdToken, 0)
  {
    var once := signature + " " + RecordIdToken;
    TokenHasNoSpace();
    if |signature| >= |RecordIdToken| {
      assert once[0..|RecordIdToken|] == signature[0..|RecordIdToken|];
    } else {
      assert once[|signature|] == ' ';
    }
  }

  /** For a signature that does not start with the token, completing twice is completing once. */
  lemma CompletedSignatureIsStable(signature: string)
    requires !OccursAt(signature, RecordIdToken, 0)
    ensures CompletedSignature(CompletedSignature(signature)) == CompletedSignature(signature)
  {
    var once := CompletedSignature(signature);
    if once != signature {
      AppendedTokenOccurs(signature);
      AppendedTokenIsNotLeading(signature);
      CompletedSignatureUnchangedIff(once);
    }
  }

  // ---------------------------------------------------------------------
  // The admission rules

  /** No rule rejects exactly when every rule is satisfied. */
  lemma AdmittedIffAllRulesPass(rows: seq<Record>, c: Config)
    ensures Rejection(rows, c).None? <==>
      && !(c.runsOnce && HasCompleted(rows, c.name))
      && !(c.runsOnce && IsInProgress(rows, c.name))
      && !HasRunTooManyTimes(rows, c)
      && (forall k :: 0 <= k < |c.runsIf| ==> HasCompleted(rows, c.runsIf[k]))
      && (forall k :: 0 <= k < |c.doesntRunIf| ==> !HasCompleted(rows, c.doesntRunIf[k]))
  {
    FirstUnmetIsFirst(rows, c.runsIf);
    FirstConflictIsFirst(rows, c.doesntRunIf);
  }

  /**
   * The reason given is that of the first failing rule: every rule before it
   * passed, and the named dependency or conflict is the first offending name.
   */
  lemma RejectionIsFirstFailingRule(rows: seq<Record>, c: Config)
    ensures Rejection(rows, c) == Some(HasRunBefore) <==> c.runsOnce && HasCompleted(rows, c.name)
    ensures Rejection(rows, c) == Some(IsRunning)
        <==> c.runsOnce && !HasCompleted(rows, c.name) && IsInProgress(rows, c.name)
    ensures Rejection(rows, c) == Some(RunTooManyTimes)
        <==> !(c.runsOnce && (HasCompleted(rows, c.name) || IsInProgress(rows, c.name))) && HasRunTooManyTimes(rows, c)
    ensures Rejection(rows, c).Some? && Rejection(rows, c).value.NotRunYet? ==>
      && !(c.runsOnce && (HasCompleted(rows, c.name) || IsInProgress(rows, c.name)))
      && !HasRunTooManyTimes(rows, c)
      && exists k :: 0 <= k < |c.runsIf| && c.runsIf[k] == Rejection(rows, c).value.dependency
                     && !HasCompleted(rows, c.runsIf[k])
                     && forall j :: 0 <= j < k ==> HasCompleted(rows, c.runsIf[j])
    ensures Rejection(rows, c).Some? && Rejection(rows, c).value.AlreadyRan? ==>
      && !(c.runsOnce && (HasCompleted(rows, c.name) || IsInProgress(rows, c.name)))
      && !HasRunTooManyTimes(rows, c)
      && (forall k :: 0 <= k < |c.runsIf| ==> HasCompleted(rows, c.runsIf[k]))
      && exists k :: 0 <= k < |c.doesntRunIf| && c.doesntRunIf[k] == Rejection(rows, c).value.conflict
                     && HasCompleted(rows, c.doesntRunIf[k])
                     && forall j :: 0 <= j < k ==> !HasCompleted(rows, c.doesntRunIf[j])
  {
    FirstUnmetIsFirst(rows, c.runsIf);
    FirstConflictIsFirst(rows, c.doesntRunIf);
  }

  /** A command that depends on one other command runs exactly when that one has completed. */
  lemma SingleDependencyGate(rows: seq<Record>, c: Config, dependency: string)
    requires !c.runsOnce && c.runLimit < 0 && c.runsIf == [dependency] && c.doesntRunIf == []
    ensures Rejection(rows, c) == if HasCompleted(rows, dependency) then None else Some(NotRunYet(dependency))
  {
    assert c.runsIf[1..] == [];
    assert FirstUnmet(rows, c.runsIf) == if HasCompleted(rows, dependency) then None else Some(dependency);
    assert FirstConflict(rows, c.doesntRunIf) == None;
  }

  /**
   * Every completed row is also a requested one, so the run limit is in
   * effect a bound on the requested count; a negative limit never rejects.
   */
  lemma RunLimitReadsRequestedCount(rows: seq<Record>, c: Config)
    ensures HasRunTooManyTimes(rows, c) <==> c.runLimit >= 0 && HasBeenRequestedCount(rows, c.name) >= c.runLimit
  {
    RequestedAtLeastCompleted(rows, c.name);
  }

  // ---------------------------------------------------------------------
  // What an invocation does to the table

  /** Two tables whose rows carry the same names have the same requested counts. */
  lemma {:induction false} SameNamesSameRequests(a: seq<Record>, b: seq<Record>, name: string)
    requires |a| == |b| && forall i :: 0 <= i < |a| ==> a[i].name == b[i].name
    ensures HasBeenRequestedCount(a, name) == HasBeenRequestedCount(b, name)
  {
    if a != [] {
      SameNamesSameRequests(a[..|a| - 1], b[..|b| - 1], name);
    }
  }

  /** Rows keep their id, name, arguments and options: only timestamps and results change. */
  predicate SameIdentity(a: Record, b: Record) {
    a.id == b.id && a.name == b.name && a.arguments == b.arguments && a.options == b.options
  }

  /** `after` differs from `before` at most in the timestamps and result of the row with the given id. */
  predicate ChangesOnly(after: seq<Record>, before: seq<Record>, id: Option<nat>) {
    && |after| == |before|
    && (forall i :: 0 <= i < |after| ==> SameIdentity(after[i], before[i]))
    && (forall i :: 0 <= i < |after| && (id.None? || i != id.value - 1) ==> after[i] == before[i])
  }

  lemma UpdateChangesOnly(before: seq<Record>, id: nat, x: Record)
    requires 1 <= id <= |before| && SameIdentity(x, before[id - 1])
    ensures ChangesOnly(before[id - 1 := x], before, Some(id))
  {
  }

  lemma ChangesOnlyTransitive(c: seq<Record>, b: seq<Record>, a: seq<Record>, id: Option<nat>)
    requires ChangesOnly(c, b, id) && ChangesOnly(b, a, id)
    ensures ChangesOnly(c, a, id)
  {
  }

  lemma ChecksStepChangesOnly(res: Resolution, clock: Timestamp, rejection: Option<Reason>)
    requires WellFormed(res.rows) && InTable(res.id, res.rows)
    ensures var r := ChecksStep(res, clock, rejection);
      r.record == res.id && ChangesOnly(r.rows, res.rows, res.id)
  {
    if rejection.Some? && res.id.Some? {
      var id := res.id.value;
      var message := Some(StringFromMessage(Str(ReasonMessage(rejection.value))));
      UpdateChangesOnly(res.rows, id, FailRecord(res.rows[id - 1], clock + 1, message));
    }
  }

  lemma HandleStepChangesOnly(checked: Run, isRecursive: bool, work: WorkResult)
    requires WellFormed(checked.rows) && InTable(checked.record, checked.rows)
    requires checked.outcome == True ==> checked.record.Some?
    ensures var r := HandleStep(checked, isRecursive, work);
      r.record == checked.record && ChangesOnly(r.rows, checked.rows, checked.record)
  {
    if checked.outcome == True {
      var id := checked.record.value;
      var started := checked.rows[id - 1 := StartRecord(checked.rows[id - 1], checked.clock + 1)];
      UpdateChangesOnly(checked.rows, id, StartRecord(checked.rows[id - 1], checked.clock + 1));
      match work
      case Returns(v) =>
        if !isRecursive {
          UpdateChangesOnly(started, id, CompleteRecord(started[id - 1], checked.clock + 2, Some(StringFromMessage(v))));
          ChangesOnlyTransitive(HandleStep(checked, isRecursive, work).rows, started, checked.rows, checked.record);
        }
      case Throws(e) =>
        UpdateChangesOnly(started, id, FailRecord(started[id - 1], checked.clock + 2, Some(StringFromMessage(Str(ErrorMessage(e))))));
        ChangesOnlyTransitive(HandleStep(checked, isRecursive, work).rows, started, checked.rows, checked.record);
      case Crashes(_) =>
    }
  }

  /** The admission checks change at most the resolved row, and never its identity. */
  lemma ChecksTouchOnlyTheirRecord(rows: seq<Record>, clock: Timestamp, memo: Option<nat>, c: Config, input: Input)
    requires WellFormed(rows) && InTable(memo, rows)
    ensures var res := Resolve(rows, memo, input, c.name);
            var checked := ChecksModel(rows, clock, memo, c, input);
      && checked.record == res.id
      && ChangesOnly(checked.rows, res.rows, res.id)
  {
    ChecksStepChangesOnly(Resolve(rows, memo, input, c.name), clock, Rejection(rows, c));
  }

  /**
   * An invocation changes at most the row it resolved, appends at most that
   * row, and never changes any row's identity.
   */
  lemma HandleTouchesOnlyItsRecord(rows: seq<Record>, clock: Timestamp, memo: Option<nat>, c: Config, input: Input, work: WorkResult)
    requires WellFormed(rows) && InTable(memo, rows)
    ensures var res := Resolve(rows, memo, input, c.name);
            var run := HandleModel(rows, clock, memo, c, input, work);
      && run.record == res.id
      && ChangesOnly(run.rows, res.rows, res.id)
  {
    var res := Resolve(rows, memo, input, c.name);
    var checked := ChecksModel(rows, clock, memo, c, input);
    ChecksTouchOnlyTheirRecord(rows, clock, memo, c, input);
    HandleStepChangesOnly(checked, c.isRecursive, work);
    ChangesOnlyTransitive(HandleModel(rows, clock, memo, c, input, work).rows, checked.rows, res.rows, res.id);
  }

  /** Without a record id, an invocation creates exactly one record, named after the command. */
  lemma FreshInvocationCreatesOneRecord(rows: seq<Record>, clock: Timestamp, c: Config, input: Input, work: WorkResult)
    requires WellFormed(rows) && !HasRecordIdOption(input)
    ensures var run := HandleModel(rows, clock, None, c, input, work);
      && |run.rows| == |rows| + 1
      && run.rows[..|rows|] == rows
      && run.record == Some(|rows| + 1)
      && SameIdentity(run.rows[|rows|], NewRecord(|rows| + 1, c.name, input.arguments, input.options, ""))
      && HasBeenRequestedCount(run.rows, c.name) == HasBeenRequestedCount(rows, c.name) + 1
  {
    var res := Resolve(rows, None, input, c.name);
    var run := HandleModel(rows, clock, None, c, input, work);
    HandleTouchesOnlyItsRecord(rows, clock, None, c, input, work);
    assert run.rows[..|rows|] == rows by {
      forall i | 0 <= i < |rows| ensures run.rows[i] == rows[i] {
        assert run.rows[i] == res.rows[i];
      }
    }
    SameNamesSameRequests(run.rows, res.rows, c.name);
    CountAfterAppend(rows, NewRecord(|rows| + 1, c.name, input.arguments, input.options, ""), RequestedQuery(c.name));
  }

  /** With a memoised record or a record id, an invocation creates no record. */
  lemma ResumedInvocationCreatesNone(rows: seq<Record>, clock: Timestamp, memo: Option<nat>, c: Config, input: Input, work: WorkResult)
    requires WellFormed(rows) && InTable(memo, rows) && (memo.Some? || HasRecordIdOption(input))
    ensures var run := HandleModel(rows, clock, memo, c, input, work);
      && |run.rows| == |rows|
      && HasBeenRequestedCount(run.rows, c.name) == HasBeenRequestedCount(rows, c.name)
  {
    var run := HandleModel(rows, clock, memo, c, input, work);
    HandleTouchesOnlyItsRecord(rows, clock, memo, c, input, work);
    SameNamesSameRequests(run.rows, rows, c.name);
  }

  // ---------------------------------------------------------------------
  // The outcome of an invocation

  /** A rejected step fails the resolved record with the rule's message and never looks at the work. */
  lemma RejectedStep(res: Resolution, clock: Timestamp, reason: Reason, isRecursive: bool, work: WorkResult)
    requires WellFormed(res.rows) && InTable(res.id, res.rows)
    ensures var checked := ChecksStep(res, clock, Some(reason));
            var run := HandleStep(checked, isRecursive, work);
      && run == checked
      && (res.id.None? ==> run.outcome == Raised(NullRecord) && run.rows == res.rows)
      && (res.id.Some? ==>
            && run.outcome == False
            && run.rows[res.id.value - 1].deletedAt == Some(clock + 1)
            && run.rows[res.id.value - 1].result == ReasonMessage(reason)
            && run.rows[res.id.value - 1].startedAt == res.rows[res.id.value - 1].startedAt
            && run.rows[res.id.value - 1].completedAt == res.rows[res.id.value - 1].completedAt)
  {
    assert |ReasonMessage(reason)| >= 8;
  }

  /** The started record, completed with the returned value. */
  lemma ReturnStep(rows: seq<Record>, clock: Timestamp, id: nat, v: Value)
    requires WellFormed(rows) && 1 <= id <= |rows| && !HasStarted(rows[id - 1])
    ensures var run := HandleStep(Run(True, rows, clock, Some(id)), false, Returns(v));
            var k := id - 1;
      && run.outcome == True
      && run.rows[k].startedAt == Some(clock + 1)
      && run.rows[k].completedAt == Some(clock + 2)
      && run.rows[k].deletedAt == rows[k].deletedAt
      && run.rows[k].result == OrEmpty(Some(StringFromMessage(v)))
      && !Matches(run.rows[k], InProgressQuery(rows[k].name))
      && (!IsTrashed(rows[k]) ==> HasCompleted(run.rows, rows[k].name))
  {
    var run := HandleStep(Run(True, rows, clock, Some(id)), false, Returns(v));
    var k := id - 1;
    FirstIsFirstMatch(run.rows, CompletedQuery(rows[k].name));
    assert run.rows[k].name == rows[k].name;
  }

  /** The started record of a recursive command, left open. */
  lemma RecursiveStep(rows: seq<Record>, clock: Timestamp, id: nat, v: Value)
    requires WellFormed(rows) && 1 <= id <= |rows| && !HasStarted(rows[id - 1])
    ensures var run := HandleStep(Run(True, rows, clock, Some(id)), true, Returns(v));
            var k := id - 1;
      && run.outcome == Outcome.Null
      && run.rows[k].startedAt == Some(clock + 1)
      && run.rows[k].completedAt == rows[k].completedAt
      && run.rows[k].deletedAt == rows[k].deletedAt
      && run.rows[k].result == rows[k].result
      && (!IsTrashed(rows[k]) && !IsCompleted(rows[k]) ==> IsInProgress(run.rows, rows[k].name))
  {
    var run := HandleStep(Run(True, rows, clock, Some(id)), true, Returns(v));
    var k := id - 1;
    FirstIsFirstMatch(run.rows, InProgressQuery(rows[k].name));
    assert run.rows[k].name == rows[k].name;
  }

  /** The started record, failed with the error text. */
  lemma ThrowStep(rows: seq<Record>, clock: Timestamp, id: nat, isRecursive: bool, e: Exception)
    requires WellFormed(rows) && 1 <= id <= |rows| && !HasStarted(rows[id - 1])
    ensures var run := HandleStep(Run(True, rows, clock, Some(id)), isRecursive, Throws(e));
            var k := id - 1;
      && run.outcome == False
      && run.rows[k].startedAt == Some(clock + 1)
      && run.rows[k].deletedAt == Some(clock + 2)
      && run.rows[k].completedAt == rows[k].completedAt
      && run.rows[k].result == ErrorMessage(e)
  {
    ErrorMessageIsTruthy(e);
  }

  /** The started record, left open when an `\Error` escapes the work. */
  lemma CrashStep(rows: seq<Record>, clock: Timestamp, id: nat, isRecursive: bool, m: string)
    requires WellFormed(rows) && 1 <= id <= |rows| && !HasStarted(rows[id - 1])
    ensures var run := HandleStep(Run(True, rows, clock, Some(id)), isRecursive, Crashes(m));
            var k := id - 1;
      && run.outcome == Raised(Uncaught(m))
      && run.rows[k].startedAt == Some(clock + 1)
      && run.rows[k].completedAt == rows[k].completedAt
      && run.rows[k].deletedAt == rows[k].deletedAt
      && run.rows[k].result == rows[k].result
      && (forall i :: 0 <= i < |rows| && i != k ==> run.rows[i] == rows[i])
      && (!IsTrashed(rows[k]) && !IsCompleted(rows[k]) ==> IsInProgress(run.rows, rows[k].name))
  {
    var run := HandleStep(Run(True, rows, clock, Some(id)), isRecursive, Crashes(m));
    var k := id - 1;
    FirstIsFirstMatch(run.rows, InProgressQuery(rows[k].name));
    assert run.rows[k].name == rows[k].name;
  }

  /**
   * A rejected invocation never runs its work: the outcome and the table do
   * not depend on it. The resolved record is failed with the rule's message
   * and is otherwise left as it was.
   */
  lemma RejectionFailsRecordWithoutWork(rows: seq<Record>, clock: Timestamp, memo: Option<nat>, c: Config, input: Input,
                                        work: WorkResult, other: WorkResult)
    requires WellFormed(rows) && InTable(memo, rows) && Rejection(rows, c).Some?
    ensures HandleModel(rows, clock, memo, c, input, work) == HandleModel(rows, clock, memo, c, input, other)
    ensures var res := Resolve(rows, memo, input, c.name);
            var run := HandleModel(rows, clock, memo, c, input, work);
      && (res.id.None? ==> run.outcome == Raised(NullRecord) && run.rows == rows)
      && (res.id.Some? ==>
            && run.outcome == False
            && run.rows[res.id.value - 1].deletedAt == Some(clock + 1)
            && run.rows[res.id.value - 1].result == ReasonMessage(Rejection(rows, c).value)
            && run.rows[res.id.value - 1].startedAt == res.rows[res.id.value - 1].startedAt
            && run.rows[res.id.value - 1].completedAt == res.rows[res.id.value - 1].completedAt)
  {
    var res := Resolve(rows, memo, input, c.name);
    RejectedStep(res, clock, Rejection(rows, c).value, c.isRecursive, work);
    RejectedStep(res, clock, Rejection(rows, c).value, c.isRecursive, other);
  }

  /**
   * When every rule passes but the resolved record has already started, the
   * hard error escapes before anything is written: the record is not failed
   * and the work never runs.
   */
  lemma StartedRecordRaises(rows: seq<Record>, clock: Timestamp, memo: Option<nat>, c: Config, input: Input, work: WorkResult)
    requires WellFormed(rows) && InTable(memo, rows) && Rejection(rows, c).None?
    requires var res := Resolve(rows, memo, input, c.name); res.id.Some? && HasStarted(res.rows[res.id.value - 1])
    ensures var res := Resolve(rows, memo, input, c.name);
            var run := HandleModel(rows, clock, memo, c, input, work);
      && run.outcome == Raised(AlreadyStarted(res.id.value))
      && run.rows == res.rows && run.clock == clock
  {
    var res := Resolve(rows, memo, input, c.name);
    assert ChecksModel(rows, clock, memo, c, input) == Run(Raised(AlreadyStarted(res.id.value)), res.rows, clock, res.id);
  }

  /** An admitted non-recursive command that returns ends started and completed with its result, and answers true. */
  lemma AdmittedReturnCompletes(rows: seq<Record>, clock: Timestamp, memo: Option<nat>, c: Config, input: Input, v: Value)
    requires WellFormed(rows) && InTable(memo, rows)
    requires ChecksModel(rows, clock, memo, c, input).outcome == True && !c.isRecursive
    ensures var res := Resolve(rows, memo, input, c.name);
            var run := HandleModel(rows, clock, memo, c, input, Returns(v));
            var k := res.id.value - 1;
      && run.outcome == True
      && run.rows[k].startedAt == Some(clock + 1)
      && run.rows[k].completedAt == Some(clock + 2)
      && run.rows[k].deletedAt == res.rows[k].deletedAt
      && run.rows[k].result == OrEmpty(Some(StringFromMessage(v)))
      && !Matches(run.rows[k], InProgressQuery(res.rows[k].name))
      && (!IsTrashed(res.rows[k]) ==> HasCompleted(run.rows, res.rows[k].name))
  {
    var res := Resolve(rows, memo, input, c.name);
    AdmittedChecks(rows, clock, memo, c, input);
    ReturnStep(res.rows, clock, res.id.value, v);
  }

  /**
   * An admitted recursive command that returns leaves its record open: started,
   * neither completed nor failed by this call, so still in progress; it answers null.
   */
  lemma AdmittedRecursiveStaysOpen(rows: seq<Record>, clock: Timestamp, memo: Option<nat>, c: Config, input: Input, v: Value)
    requires WellFormed(rows) && InTable(memo, rows)
    requires ChecksModel(rows, clock, memo, c, input).outcome == True && c.isRecursive
    ensures var res := Resolve(rows, memo, input, c.name);
            var run := HandleModel(rows, clock, memo, c, input, Returns(v));
            var k := res.id.value - 1;
      && run.outcome == Outcome.Null
      && run.rows[k].startedAt == Some(clock + 1)
      && run.rows[k].completedAt == res.rows[k].completedAt
      && run.rows[k].deletedAt == res.rows[k].deletedAt
      && run.rows[k].result == res.rows[k].result
      && (!IsTrashed(res.rows[k]) && !IsCompleted(res.rows[k]) ==> IsInProgress(run.rows, res.rows[k].name))
  {
    var res := Resolve(rows, memo, input, c.name);
    AdmittedChecks(rows, clock, memo, c, input);
    RecursiveStep(res.rows, clock, res.id.value, v);
  }

  /** An admitted command whose work throws ends started and failed with the error text, and answers false. */
  lemma AdmittedThrowFails(rows: seq<Record>, clock: Timestamp, memo: Option<nat>, c: Config, input: Input, e: Exception)
    requires WellFormed(rows) && InTable(memo, rows)
    requires ChecksModel(rows, clock, memo, c, input).outcome == True
    ensures var res := Resolve(rows, memo, input, c.name);
            var run := HandleModel(rows, clock, memo, c, input, Throws(e));
            var k := res.id.value - 1;
            var prefix := "Error: " + e.message + " at line ";
      && run.outcome == False
      && run.rows[k].startedAt == Some(clock + 1)
      && run.rows[k].deletedAt == Some(clock + 2)
      && run.rows[k].completedAt == res.rows[k].completedAt
      && run.rows[k].result == ErrorMessage(e)
      && |prefix| <= |run.rows[k].result| && run.rows[k].result[..|prefix|] == prefix
      && !Matches(run.rows[k], InProgressQuery(res.rows[k].name))
      && !Matches(run.rows[k], CompletedQuery(res.rows[k].name))
  {
    var res := Resolve(rows, memo, input, c.name);
    AdmittedChecks(rows, clock, memo, c, input);
    ThrowStep(res.rows, clock, res.id.value, c.isRecursive, e);
    ErrorMessageIsTruthy(e);
  }

  /**
   * An admitted command whose work throws an `\Error` lets it escape: the
   * record stays started, neither completed nor failed, so the command is in
   * progress from then on.
   */
  lemma AdmittedCrashStaysOpen(rows: seq<Record>, clock: Timestamp, memo: Option<nat>, c: Config, input: Input, m: string)
    requires WellFormed(rows) && InTable(memo, rows)
    requires ChecksModel(rows, clock, memo, c, input).outcome == True
    ensures var res := Resolve(rows, memo, input, c.name);
            var run := HandleModel(rows, clock, memo, c, input, Crashes(m));
            var k := res.id.value - 1;
      && run.outcome == Raised(Uncaught(m))
      && run.rows[k].startedAt == Some(clock + 1)
      && run.rows[k].completedAt == res.rows[k].completedAt
      && run.rows[k].deletedAt == res.rows[k].deletedAt
      && run.rows[k].result == res.rows[k].result
      && (!IsTrashed(res.rows[k]) && !IsCompleted(res.rows[k]) ==> IsInProgress(run.rows, res.rows[k].name))
  {
    var res := Resolve(rows, memo, input, c.name);
    AdmittedChecks(rows, clock, memo, c, input);
    CrashStep(res.rows, clock, res.id.value, c.isRecursive, m);
  }

  /**
   * A run-once command is blocked at row `k`: that row of its name is open
   * (started, neither completed nor failed), and no visible row of its name
   * has completed.
   */
  predicate Blocked(rows: seq<Record>, c: Config, k: nat) {
    && k < |rows| && rows[k].name == c.name && Matches(rows[k], InProgressQuery(c.name))
    && forall i :: 0 <= i < |rows| && rows[i].name == c.name && !IsTrashed(rows[i]) ==> !IsCompleted(rows[i])
  }

  /**
   * From a blocked table, a fresh run-once invocation is rejected with
   * "Command is running." before its work runs, its own row is failed, and the
   * table stays blocked at the same row: so every later invocation is
   * rejected the same way.
   */
  lemma BlockedStaysBlocked(rows: seq<Record>, clock: Timestamp, c: Config, input: Input, work: WorkResult, k: nat)
    requires WellFormed(rows) && c.runsOnce && !HasRecordIdOption(input) && Blocked(rows, c, k)
    ensures var run := HandleModel(rows, clock, None, c, input, work);
      && Rejection(rows, c) == Some(IsRunning)
      && run.outcome == False
      && run.rows[|rows|].result == "Command is running."
      && IsTrashed(run.rows[|rows|])
      && Blocked(run.rows, c, k)
  {
    var res := Resolve(rows, None, input, c.name);
    HasCompletedIff(rows, c.name);
    RunsOnceSeesOpenRecord(rows, c, k);
    RejectionIsFirstFailingRule(rows, c);
    RejectedStep(res, clock, IsRunning, c.isRecursive, work);
    HandleTouchesOnlyItsRecord(rows, clock, None, c, input, work);
    var run := HandleModel(rows, clock, None, c, input, work);
    assert run.rows[k] == rows[k];
    forall i | 0 <= i < |run.rows| && run.rows[i].name == c.name && !IsTrashed(run.rows[i])
      ensures !IsCompleted(run.rows[i])
    {
      if i < |rows| {
        assert run.rows[i] == rows[i];
      }
    }
  }

  /**
   * Run-once after an escaped `\Error`: the fresh record is left open, so the
   * table is blocked at it, and by `BlockedStaysBlocked` every later fresh
   * invocation is rejected with "Command is running." and its own row failed.
   */
  lemma CrashedRunBlocksRunsOnce(rows: seq<Record>, clock: Timestamp, c: Config, first: Input, second: Input,
                                 m: string, work2: WorkResult)
    requires WellFormed(rows) && c.runsOnce && !HasRecordIdOption(first) && !HasRecordIdOption(second)
    requires ChecksModel(rows, clock, None, c, first).outcome == True
    ensures var run1 := HandleModel(rows, clock, None, c, first, Crashes(m));
            var run2 := HandleModel(run1.rows, run1.clock, None, c, second, work2);
      && run1.outcome == Raised(Uncaught(m))
      && Blocked(run1.rows, c, |rows|)
      && Rejection(run1.rows, c) == Some(IsRunning)
      && run2.outcome == False
      && run2.rows[|run1.rows|].result == "Command is running."
      && IsTrashed(run2.rows[|run1.rows|])
      && Blocked(run2.rows, c, |rows|)
  {
    var res := Resolve(rows, None, first, c.name);
    var k := |rows|;
    AdmittedChecks(rows, clock, None, c, first);
    AdmittedIffAllRulesPass(rows, c);
    CrashStep(res.rows, clock, k + 1, c.isRecursive, m);
    var run1 := HandleModel(rows, clock, None, c, first, Crashes(m));
    assert run1.rows[k].name == c.name;
    HasCompletedIff(rows, c.name);
    FirstIsFirstMatch(run1.rows, InProgressQuery(c.name));
    forall i | 0 <= i < |run1.rows| && run1.rows[i].name == c.name && !IsTrashed(run1.rows[i])
      ensures !IsCompleted(run1.rows[i])
    {
      if i < k {
        assert run1.rows[i] == rows[i];
      }
    }
    BlockedStaysBlocked(run1.rows, run1.clock, c, second, work2, k);
  }

  /** The error text begins with the exception's message and is never falsy. */
  lemma ErrorMessageIsTruthy(e: Exception)
    ensures var prefix := "Error: " + e.message + " at line ";
      && |prefix| <= |ErrorMessage(e)| && ErrorMessage(e)[..|prefix|] == prefix
      && !Falsy(ErrorMessage(e))
  {
    var msg := ErrorMessage(e);
    assert msg[0] == 'E';
    var prefix := "Error: " + e.message + " at line ";
    assert msg == prefix + (NatToString(e.line) + " of " + e.file + " Stack Trace: " + e.trace);
  }

  /**
   * Re-entering with the id of a record that is started and still open (a
   * nested call of a recursive command) never completes it and creates no
   * record: the call is either rejected, failing the shared record, or raises
   * the already-started error. A run-once command is always rejected.
   */
  lemma ReentryNeverCompletes(rows: seq<Record>, clock: Timestamp, c: Config, input: Input, work: WorkResult)
    requires WellFormed(rows) && HasRecordIdOption(input)
    requires var id := input.recordIdOption.value;
      1 <= id <= |rows| && HasStarted(rows[id - 1]) && !IsTrashed(rows[id - 1]) && !IsCompleted(rows[id - 1])
    ensures var id := input.recordIdOption.value;
            var run := HandleModel(rows, clock, None, c, input, work);
      && (run.outcome == False || run.outcome == Raised(AlreadyStarted(id)))
      && |run.rows| == |rows|
      && !IsCompleted(run.rows[id - 1])
      && (c.runsOnce && rows[id - 1].name == c.name ==>
            run.outcome == False
            && (run.rows[id - 1].result == ReasonMessage(HasRunBefore) || run.rows[id - 1].result == ReasonMessage(IsRunning)))
  {
    var id := input.recordIdOption.value;
    FindInWellFormed(rows, id);
    assert Resolve(rows, None, input, c.name) == Resolution(Some(id), rows);
    ReentryStep(rows, clock, id, Rejection(rows, c), c.isRecursive, work);
    if c.runsOnce && rows[id - 1].name == c.name {
      RunsOnceSeesOpenRecord(rows, c, id - 1);
    }
  }

  /** Re-entry once the record is resolved: the open record is failed or the hard error escapes. */
  lemma ReentryStep(rows: seq<Record>, clock: Timestamp, id: nat, rejection: Option<Reason>, isRecursive: bool, work: WorkResult)
    requires WellFormed(rows) && 1 <= id <= |rows| && HasStarted(rows[id - 1]) && !IsCompleted(rows[id - 1])
    ensures var run := HandleStep(ChecksStep(Resolution(Some(id), rows), clock, rejection), isRecursive, work);
      && (run.outcome == False || run.outcome == Raised(AlreadyStarted(id)))
      && |run.rows| == |rows|
      && !IsCompleted(run.rows[id - 1])
      && (rejection.Some? ==> run.outcome == False && run.rows[id - 1].result == ReasonMessage(rejection.value))
  {
    if rejection.Some? {
      RejectedStep(Resolution(Some(id), rows), clock, rejection.value, isRecursive, work);
    }
  }

  /** A run-once command with an open record of its own is rejected by one of the first two rules. */
  lemma RunsOnceSeesOpenRecord(rows: seq<Record>, c: Config, k: nat)
    requires c.runsOnce && k < |rows| && rows[k].name == c.name && Matches(rows[k], InProgressQuery(c.name))
    ensures Rejection(rows, c) == Some(HasRunBefore) || Rejection(rows, c) == Some(IsRunning)
  {
    FirstIsFirstMatch(rows, InProgressQuery(c.name));
  }

  /** Only an admitted, non-recursive command whose work returned answers true. */
  lemma TrueOnlyAfterReturn(checked: Run, isRecursive: bool, work: WorkResult)
    requires WellFormed(checked.rows) && InTable(checked.record, checked.rows)
    requires checked.outcome == True ==> checked.record.Some?
    requires HandleStep(checked, isRecursive, work).outcome == True
    ensures checked.outcome == True && !isRecursive && work.Returns?
  {
  }

  /**
   * Run-once: after a fresh invocation completed, the next fresh invocation of
   * the same command is rejected before its work runs, and its own record is
   * failed with "Command has run before.".
   */
  lemma RunsOnceRejectsSecondRun(rows: seq<Record>, clock: Timestamp, c: Config, first: Input, second: Input,
                                 work1: WorkResult, work2: WorkResult)
    requires WellFormed(rows) && c.runsOnce && !HasRecordIdOption(first) && !HasRecordIdOption(second)
    requires HandleModel(rows, clock, None, c, first, work1).outcome == True
    ensures var run1 := HandleModel(rows, clock, None, c, first, work1);
            var run2 := HandleModel(run1.rows, run1.clock, None, c, second, work2);
      && Rejection(run1.rows, c) == Some(HasRunBefore)
      && run2.outcome == False
      && run2.rows[|run1.rows|].result == "Command has run before."
      && IsTrashed(run2.rows[|run1.rows|])
  {
    var run1 := HandleModel(rows, clock, None, c, first, work1);
    FreshRunCompletes(rows, clock, c, first, work1);
    RejectedStep(Resolve(run1.rows, None, second, c.name), run1.clock, HasRunBefore, c.isRecursive, work2);
  }

  /** A fresh invocation that answers true leaves the command completed. */
  lemma FreshRunCompletes(rows: seq<Record>, clock: Timestamp, c: Config, input: Input, work: WorkResult)
    requires WellFormed(rows) && !HasRecordIdOption(input)
    requires HandleModel(rows, clock, None, c, input, work).outcome == True
    ensures HasCompleted(HandleModel(rows, clock, None, c, input, work).rows, c.name)
  {
    var res := Resolve(rows, None, input, c.name);
    TrueOnlyAfterReturn(ChecksModel(rows, clock, None, c, input), c.isRecursive, work);
    AdmittedChecks(rows, clock, None, c, input);
    ReturnStep(res.rows, clock, |rows| + 1, work.value);
    assert res.rows[|rows|].name == c.name && !IsTrashed(res.rows[|rows|]);
  }

  /**
   * The arguments handed to a nested invocation carry the record's id, and an
   * invocation started with that id re-attaches to the same row instead of
   * creating one.
   */
  lemma NestedInvocationReattaches(rows: seq<Record>, k: nat, name: string, options: map<string, Value>)
    requires WellFormed(rows) && k < |rows| && !IsTrashed(rows[k])
    ensures var args := GetCommandArguments(rows[k]);
      && args[RecordIdArgument] == Int(k + 1)
      && Resolve(rows, None, Input(Some(k + 1), args, options), name) == Resolution(Some(k + 1), rows)
  {
    FindInWellFormed(rows, k + 1);
  }
}
