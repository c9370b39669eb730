/**
 Storage targets (`storage-targets.service.ts`, `storage.service.ts`): edits and tests read a
 target, work on their copy and save it only if the stored revision is still the one they read.
 The probe of a test reads the stored target again for each of its three operations.
 */
module StorageTargets {
  import opened Wrappers

  type Revision = nat
  type Credentials = nat
  type Destination = nat

  datatype Status = Untested | Success | Failure

  datatype Target = Target(
    s3: bool, destination: Destination, name: string, credentials: Credentials,
    enabled: bool, status: Status, revision: Revision)

  /** The accepted fields of an update; any other field is refused before anything is read. */
  datatype Edit = Edit(name: Option<string>, credentials: Option<Credentials>, enabled: Option<bool>)

  datatype EditError = NoError | ServerCredentials | NotTested

  function EditErrorOf(target: Target, edit: Edit): EditError {
    if edit.credentials.Some? && !target.s3 then ServerCredentials
    else if edit.enabled == Some(true) && (edit.credentials.Some? || target.status != Success) then NotTested
    else NoError
  }

  /** The copy an accepted update saves: new credentials take the test result and the target down. */
  function Edited(target: Target, edit: Edit): Target {
    var named := if edit.name.Some? then target.(name := edit.name.value) else target;
    var keyed := if edit.credentials.Some? then named.(credentials := edit.credentials.value, status := Untested, enabled := false) else named;
    if edit.enabled.Some? then keyed.(enabled := edit.enabled.value) else keyed
  }

  function Tested(target: Target, success: bool): Target {
    if success then target.(status := Success) else target.(status := Failure, enabled := false)
  }

  /**
   What an accepted edit asks for is what the copy holds: new credentials are untested and disabled,
   without them the test result stays, and a target is only ever enabled with a successful test.
   */
  lemma {:induction false} AcceptedEditIsApplied(target: Target, edit: Edit)
    requires EditErrorOf(target, edit) == NoError
    ensures var t := Edited(target, edit);
            && t.name == (if edit.name.Some? then edit.name.value else target.name)
            && t.s3 == target.s3 && t.destination == target.destination && t.revision == target.revision
            && (edit.credentials.Some? ==> target.s3 && t.credentials == edit.credentials.value && t.status == Untested && !t.enabled)
            && (edit.credentials.None? ==> t.credentials == target.credentials && t.status == target.status)
            && (edit.enabled.Some? ==> t.enabled == edit.enabled.value && (t.enabled ==> t.status == Success))
            && (edit.enabled.None? && edit.credentials.None? ==> t.enabled == target.enabled)
  {
  }

  /** An edit is refused exactly for credentials of a server-managed target, or for enabling without a standing success. */
  lemma {:induction false} EditRefusedExactly(target: Target, edit: Edit)
    ensures EditErrorOf(target, edit) == NoError <==>
            && (edit.credentials.Some? ==> target.s3)
            && (edit.enabled == Some(true) ==> edit.credentials.None? && target.status == Success)
  {
  }

  /** The mutable copy the service works on. */
  class Copy {
    var target: Target

    constructor (target: Target)
      ensures this.target == target
    {
      this.target := target;
    }

    method ApplyEdit(edit: Edit) returns (error: EditError)
      modifies this
      ensures error == EditErrorOf(old(target), edit)
      ensures error == NoError ==> target == Edited(old(target), edit)
    {
      if edit.name.Some? {
        target := target.(name := edit.name.value);
      }
      if edit.credentials.Some? {
        if !target.s3 {
          return ServerCredentials;
        }
        target := target.(credentials := edit.credentials.value);
        target := target.(status := Untested);
        target := target.(enabled := false);
      }
      if edit.enabled.Some? {
        if edit.enabled.value && target.status != Success {
          return NotTested;
        }
        target := target.(enabled := edit.enabled.value);
      }
      return NoError;
    }

    method MarkTested(success: bool)
      modifies this
      ensures target == Tested(old(target), success)
    {
      target := target.(status := if success then Success else Failure);
      if !success {
        target := target.(enabled := false);
      }
    }
  }

  class Store {
    var row: Target

    constructor (row: Target)
      ensures this.row == row
    {
      this.row := row;
    }

    /** `save`: a fresh revision, written only over the revision that was read. */
    method Save(copy: Copy, revision: Revision, drawn: Revision) returns (saved: bool)
      modifies this, copy
      ensures copy.target == old(copy.target).(revision := drawn)
      ensures saved <==> old(row).revision == revision
      ensures row == if saved then copy.target else old(row)
    {
      copy.target := copy.target.(revision := drawn);
      saved := row.revision == revision;
      if saved {
        row := copy.target;
      }
    }
  }

  // ----- Edits and tests interleaved -----

  datatype Operation =
    | Editing(copy: Target)
    | Testing(copy: Target, seen: seq<Target>)
    | Finished

  /**
   The stored row, the revisions drawn so far, the operations in flight, and for every test whose
   three probe operations succeeded, the rows they saw.
   */
  datatype State = State(row: Target, drawn: set<Revision>, operations: seq<Operation>, probes: set<seq<Target>>)

  const PROBE_OPERATIONS := 3

  /** In one whole probe, every operation saw these credentials at this destination. */
  ghost predicate WasProbed(probes: set<seq<Target>>, credentials: Credentials, destination: Destination) {
    exists seen: seq<Target> :: seen in probes && |seen| == 3
                   && seen[0].credentials == seen[1].credentials == seen[2].credentials == credentials
                   && seen[0].destination == seen[1].destination == seen[2].destination == destination
  }

  ghost predicate BeginEdit(s: State, t: State) {
    exists edit :: EditErrorOf(s.row, edit) == NoError
                   && t == s.(operations := s.operations + [Editing(Edited(s.row, edit))])
  }

  ghost predicate BeginTest(s: State, t: State) {
    t == s.(operations := s.operations + [Testing(s.row, [])])
  }

  /** One probe operation succeeds, with the target as stored at that moment. */
  ghost predicate Probe(s: State, t: State, i: nat)
    requires i < |s.operations|
  {
    var op := s.operations[i];
    && op.Testing? && |op.seen| < PROBE_OPERATIONS
    && var seen := op.seen + [s.row];
       t == s.(operations := s.operations[i := op.(seen := seen)],
               probes := s.probes + if |seen| == PROBE_OPERATIONS then {seen} else {})
  }

  /** Saves a copy: compare-and-set on the revision that was read, under a revision that is unique if `unique`. */
  ghost predicate SaveCopy(s: State, t: State, i: nat, copy: Target, unique: bool)
    requires i < |s.operations|
  {
    exists drawn: Revision :: (unique ==> drawn !in s.drawn) && t == Saved(s, i, copy, drawn)
  }

  function Saved(s: State, i: nat, copy: Target, drawn: Revision): State
    requires i < |s.operations|
  {
    s.(drawn := s.drawn + {drawn}, operations := s.operations[i := Finished],
       row := if s.row.revision == copy.revision then copy.(revision := drawn) else s.row)
  }

  ghost predicate FinishEdit(s: State, t: State, i: nat, unique: bool)
    requires i < |s.operations|
  {
    s.operations[i].Editing? && SaveCopy(s, t, i, s.operations[i].copy, unique)
  }

  /** A test ends in success after its three operations, or in failure at any point. */
  ghost predicate FinishTest(s: State, t: State, i: nat, unique: bool)
    requires i < |s.operations|
  {
    && s.operations[i].Testing?
    && exists success :: (success ==> |s.operations[i].seen| == PROBE_OPERATIONS)
                         && SaveCopy(s, t, i, Tested(s.operations[i].copy, success), unique)
  }

  ghost predicate Step(s: State, t: State, unique: bool) {
    || BeginEdit(s, t)
    || BeginTest(s, t)
    || exists i :: 0 <= i < |s.operations| && (Probe(s, t, i) || FinishEdit(s, t, i, unique) || FinishTest(s, t, i, unique))
  }

  /** A run whose revisions are all different, as random identifiers are, or one that may repeat them. */
  ghost predicate IsRun(states: seq<State>, unique: bool) {
    && states != []
    && states[0].row.status == Untested && !states[0].row.enabled
    && states[0] == State(states[0].row, {states[0].row.revision}, [], {})
    && forall k :: 0 < k < |states| ==> Step(states[k - 1], states[k], unique)
  }

  // ----- The invariant -----

  /** Enabled only after a successful test, and a success was probed with these very credentials. */
  ghost predicate Sound(s: State, target: Target) {
    && target.destination == s.row.destination && target.s3 == s.row.s3
    && (!target.s3 ==> target.credentials == s.row.credentials)
    && (target.enabled ==> target.status == Success)
    && (target.status == Success ==> WasProbed(s.probes, target.credentials, target.destination))
  }

  /** Kind and destination are the same, and so are credentials managed on the server. */
  ghost predicate SamePlace(before: Target, after: Target) {
    && after.s3 == before.s3 && after.destination == before.destination
    && (!before.s3 ==> after.credentials == before.credentials)
  }

  ghost predicate OperationOk(s: State, op: Operation) {
    match op
    case Finished => true
    case Editing(copy) => copy.revision in s.drawn && Sound(s, copy)
    case Testing(copy, seen) =>
      && copy.revision in s.drawn && Sound(s, copy) && |seen| <= PROBE_OPERATIONS
      && (copy.revision == s.row.revision ==>
            && copy == s.row
            && (forall k :: 0 <= k < |seen| ==> seen[k].credentials == copy.credentials && seen[k].destination == copy.destination)
            && (|seen| == PROBE_OPERATIONS ==> WasProbed(s.probes, copy.credentials, copy.destination)))
  }

  ghost predicate Inv(s: State) {
    && s.row.revision in s.drawn
    && Sound(s, s.row)
    && forall i :: 0 <= i < |s.operations| ==> OperationOk(s, s.operations[i])
  }

  lemma {:induction false} ProbeKeeps(s: State, t: State, i: nat)
    requires Inv(s) && i < |s.operations| && Probe(s, t, i)
    ensures Inv(t)
  {
    assert OperationOk(s, s.operations[i]);
    forall j | 0 <= j < |t.operations|
      ensures OperationOk(t, t.operations[j])
    {
      assert OperationOk(s, s.operations[j]);
    }
  }

  lemma {:induction false} SaveKeeps(s: State, t: State, i: nat, copy: Target)
    requires Inv(s) && i < |s.operations| && SaveCopy(s, t, i, copy, true)
    requires copy.revision == s.row.revision ==> Sound(s, copy)
    ensures Inv(t) && SamePlace(s.row, t.row)
  {
    forall j | 0 <= j < |t.operations|
      ensures OperationOk(t, t.operations[j])
    {
      assert OperationOk(s, s.operations[j]);
    }
  }

  lemma {:induction false} StepKeeps(s: State, t: State)
    requires Inv(s) && Step(s, t, true)
    ensures Inv(t) && SamePlace(s.row, t.row)
  {
    if i :| 0 <= i < |s.operations| && (Probe(s, t, i) || FinishEdit(s, t, i, true) || FinishTest(s, t, i, true)) {
      assert OperationOk(s, s.operations[i]);
      if Probe(s, t, i) {
        ProbeKeeps(s, t, i);
      } else if FinishEdit(s, t, i, true) {
        SaveKeeps(s, t, i, s.operations[i].copy);
      } else {
        var success :| (success ==> |s.operations[i].seen| == PROBE_OPERATIONS)
                       && SaveCopy(s, t, i, Tested(s.operations[i].copy, success), true);
        SaveKeeps(s, t, i, Tested(s.operations[i].copy, success));
      }
    } else {
      forall j | 0 <= j < |t.operations|
        ensures OperationOk(t, t.operations[j])
      {
        if j < |s.operations| {
          assert OperationOk(s, s.operations[j]);
        }
      }
    }
  }

  /**
   In every interleaving of edits and tests, a target is enabled only when recorded as tested,
   and one recorded as tested passed a whole probe with the credentials it now stores, at its own
   destination, which never changes; nor do the credentials of a target managed on the server.
   */
  lemma {:induction false} SuccessWasProbed(states: seq<State>, k: nat)
    requires IsRun(states, true) && k < |states|
    ensures Inv(states[k])
    ensures var row := states[k].row;
            && (row.enabled ==> row.status == Success)
            && (row.status == Success ==> WasProbed(states[k].probes, row.credentials, row.destination))
            && SamePlace(states[0].row, row)
  {
    if k > 0 {
      SuccessWasProbed(states, k - 1);
      StepKeeps(states[k - 1], states[k]);
    }
  }

  lemma {:induction false} RunSnoc(states: seq<State>, t: State)
    requires IsRun(states, false) && Step(states[|states| - 1], t, false)
    ensures IsRun(states + [t], false)
  {
    var more := states + [t];
    forall k | 0 < k < |more|
      ensures Step(more[k - 1], more[k], false)
    {
      assert k < |states| ==> Step(states[k - 1], states[k], false);
    }
  }

  /** The outcome that unique revisions rule out: a recorded success for credentials no probe used. */
  ghost predicate Unprobed(s: State) {
    s.row.status == Success && !WasProbed(s.probes, s.row.credentials, s.row.destination)
  }

  /** An edit of the credentials begins and, when it ends, draws the revision it has read. */
  lemma {:induction false} EditInPlace(s: State, edit: Edit) returns (t: State, u: State)
    requires EditErrorOf(s.row, edit) == NoError
    ensures Step(s, t, false) && Step(t, u, false)
    ensures u.row == Edited(s.row, edit) && u.probes == s.probes && |u.operations| == |s.operations| + 1
    ensures forall i :: 0 <= i < |s.operations| ==> u.operations[i] == s.operations[i]
  {
    var i := |s.operations|;
    t := s.(operations := s.operations + [Editing(Edited(s.row, edit))]);
    assert BeginEdit(s, t);
    var copy := t.operations[i].copy;
    u := Saved(t, i, copy, copy.revision);
    assert SaveCopy(t, u, i, copy, false);
    assert FinishEdit(t, u, i, false);
  }

  lemma {:induction false} ProbeOnce(s: State, i: nat) returns (t: State)
    requires i < |s.operations| && s.operations[i].Testing? && |s.operations[i].seen| < PROBE_OPERATIONS
    requires forall k :: 0 <= k < |s.operations[i].seen| ==> s.operations[i].seen[k] == s.row
    ensures Step(s, t, false) && t.row == s.row && |t.operations| == |s.operations|
    ensures t.operations[i] == s.operations[i].(seen := s.operations[i].seen + [s.row])
    ensures t.probes <= s.probes + {s.operations[i].seen + [s.row]}
  {
    var op := s.operations[i];
    var seen := op.seen + [s.row];
    t := s.(operations := s.operations[i := op.(seen := seen)],
            probes := s.probes + if |seen| == PROBE_OPERATIONS then {seen} else {});
    assert Probe(s, t, i);
  }

  /** The test that began on `before` ends in success over a row of the same revision. */
  lemma {:induction false} EndTest(s: State, i: nat) returns (t: State)
    requires i < |s.operations| && s.operations[i].Testing? && |s.operations[i].seen| == PROBE_OPERATIONS
    requires s.row.revision == s.operations[i].copy.revision
    ensures Step(s, t, false) && t.probes == s.probes
    ensures t.row == Tested(s.operations[i].copy, true).(revision := s.row.revision)
  {
    var copy := Tested(s.operations[i].copy, true);
    t := Saved(s, i, copy, copy.revision);
    assert SaveCopy(s, t, i, copy, false);
    assert FinishTest(s, t, i, false);
  }

  /** A test begins on a fresh target, and an edit of its credentials slips under it. */
  lemma {:induction false} EditUnderTest(
    row: Target, edit: Edit)
    returns (states: seq<State>)
    requires !row.enabled && row.status == Untested && EditErrorOf(row, edit) == NoError
    ensures IsRun(states, false) && states[0].row == row
    ensures var s := states[|states| - 1];
            s.row == Edited(row, edit) && s.probes == {} && |s.operations| == 2 && s.operations[0] == Testing(row, [])
  {
    var s := State(row, {row.revision}, [], {});
    var a := s.(operations := [Testing(row, [])]);
    assert BeginTest(s, a);
    var b, c := EditInPlace(a, edit);
    states := [s];
    RunSnoc(states, a);
    RunSnoc(states + [a], b);
    RunSnoc(states + [a] + [b], c);
    states := states + [a] + [b] + [c];
  }

  /** These probes saw nothing but this row. */
  ghost predicate OnlyOf(probes: set<seq<Target>>, row: Target) {
    forall seen, i :: seen in probes && 0 <= i < |seen| ==> seen[i] == row
  }

  /** The three operations of the probe, one after the other on the stored row. */
  lemma {:induction false} ProbeThrice(
    s: State, i: nat)
    returns (a: State, b: State, t: State)
    requires i < |s.operations| && s.operations[i].Testing? && s.operations[i].seen == []
    ensures Step(s, a, false) && Step(a, b, false) && Step(b, t, false)
    ensures t.row == s.row && |t.operations| == |s.operations| && OnlyOf(t.probes - s.probes, s.row)
    ensures t.operations[i].Testing? && t.operations[i].copy == s.operations[i].copy && |t.operations[i].seen| == PROBE_OPERATIONS
  {
    a := ProbeOnce(s, i);
    b := ProbeOnce(a, i);
    t := ProbeOnce(b, i);
  }

  /**
   Were a revision drawn twice, an edit could slip under a running test unnoticed: from any fresh
   target, a test that began before the edit and probed the edited target writes success over the
   credentials it had read, which no probe has used.
   */
  lemma {:induction false} ReusedRevisionBreaks(row: Target) returns (states: seq<State>)
    requires row.s3 && !row.enabled && row.status == Untested
    ensures IsRun(states, false) && states[0].row == row && Unprobed(states[|states| - 1])
  {
    states := EditUnderTest(row, Edit(None, Some(row.credentials + 1), None));
    var s := states[|states| - 1];
    var a, b, c := ProbeThrice(s, 0);
    var t := EndTest(c, 0);
    RunSnoc(states, a);
    RunSnoc(states + [a], b);
    RunSnoc(states + [a] + [b], c);
    RunSnoc(states + [a] + [b] + [c], t);
    states := states + [a] + [b] + [c] + [t];
  }
}
