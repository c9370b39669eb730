/**
 Concurrent uploads: any number of attempts, each looking its receipt up, writing an object,
 running a transaction that may fail or report failure after committing, and cleaning up.
 Every step below is atomic; the steps of different attempts interleave freely, together with
 soft deletions of documents and restorations of earlier versions.
 */
module UploadProtocol {
  import opened Wrappers

  type VersionId = nat
  type DocumentId = nat
  type ObjectKey = nat

  /** `uploadReceipt`: the version id derived from identity and request, and the payload digest. */
  datatype Receipt = Receipt(id: VersionId, fingerprint: nat)

  datatype Request = Request(receipt: Option<Receipt>, documentId: DocumentId, existing: bool, locale: nat)

  datatype Version = Version(documentId: DocumentId, objectKey: ObjectKey, fingerprint: Option<nat>)

  datatype Phase =
    | Start
    | Looked
    | Prepared(previousId: Option<VersionId>)
    | Stored(previousId: Option<VersionId>)
    | Failed
    | Cleaning(answer: Option<DocumentId>)
    | Returned(documentId: DocumentId)
    | Threw

  /**
   An attempt, with the key it allocated and whether its transaction committed. In doubt, the
   transaction reported an error but may still commit; the comparison it checks is then kept.
   A commit is late when it lands after the error handler looked the receipt up.
   */
  datatype Attempt = Attempt(
    request: Request, key: Option<ObjectKey>, committed: bool, phase: Phase, doubt: Option<Option<VersionId>>, late: bool)

  datatype State = State(
    versions: map<VersionId, Version>,
    latest: map<(DocumentId, nat), VersionId>,
    documents: set<DocumentId>,
    deleted: set<DocumentId>,
    objects: set<ObjectKey>,
    attempts: seq<Attempt>)

  datatype Lookup = Missing | Found(version: Version) | Conflict

  /** `findUploadReceipt`: the row must carry the same fingerprint and a document that is not deleted. */
  function FindUploadReceipt(s: State, receipt: Option<Receipt>): Lookup {
    if receipt.None? || receipt.value.id !in s.versions then Missing
    else
      var version := s.versions[receipt.value.id];
      if version.fingerprint != Some(receipt.value.fingerprint) || version.documentId in s.deleted then Conflict
      else Found(version)
  }

  function Latest(s: State, documentId: DocumentId, locale: nat): Option<VersionId> {
    if (documentId, locale) in s.latest then Some(s.latest[(documentId, locale)]) else None
  }

  function With(s: State, i: nat, a: Attempt): State
    requires i < |s.attempts|
  {
    s.(attempts := s.attempts[i := a])
  }

  ghost predicate FreshKey(s: State, key: ObjectKey) {
    forall i :: 0 <= i < |s.attempts| ==> s.attempts[i].key != Some(key)
  }

  // ----- Steps of attempt i -----

  ghost predicate LookUp(s: State, t: State, i: nat)
    requires i < |s.attempts|
  {
    var a := s.attempts[i];
    && a.phase == Start
    && t == With(s, i, a.(phase := match FindUploadReceipt(s, a.request.receipt)
                                   case Missing => Looked
                                   case Found(version) => Returned(version.documentId)
                                   case Conflict => Threw))
  }

  /** Chooses a random key and reads the version the content is compared with. */
  ghost predicate Prepare(s: State, t: State, i: nat)
    requires i < |s.attempts|
  {
    var a := s.attempts[i];
    && a.phase == Looked
    && exists key :: FreshKey(s, key)
                     && t == With(s, i, a.(key := Some(key),
                                           phase := Prepared(Latest(s, a.request.documentId, a.request.locale))))
  }

  /** The object is written, or the write fails and may still have left the object behind. */
  ghost predicate Put(s: State, t: State, i: nat)
    requires i < |s.attempts|
  {
    var a := s.attempts[i];
    && a.phase.Prepared? && a.key.Some?
    && var written := s.objects + {a.key.value};
       || t == With(s, i, a.(phase := Stored(a.phase.previousId))).(objects := written)
       || t == With(s, i, a.(phase := Threw))
       || t == With(s, i, a.(phase := Threw)).(objects := written)
  }

  /** The transaction's checks, and the primary key it inserts under: with a receipt, the receipt's. */
  ghost predicate MayCommit(s: State, r: Request, previousId: Option<VersionId>, id: VersionId) {
    && r.existing == (r.documentId in s.documents)
    && Latest(s, r.documentId, r.locale) == previousId
    && id !in s.versions
    && (r.receipt.Some? ==> id == r.receipt.value.id)
  }

  /** The transaction inserts the version row, and reports success or an error. */
  ghost predicate Commit(s: State, t: State, i: nat)
    requires i < |s.attempts|
  {
    var a := s.attempts[i];
    && a.phase.Stored? && a.key.Some?
    && exists id: VersionId :: MayCommit(s, a.request, a.phase.previousId, id)
                               && (t == Committed(s, i, id, Returned(a.request.documentId)) || t == Committed(s, i, id, Failed))
  }

  /** The error is reported first, and the outcome of the transaction stays open. */
  ghost predicate Doubt(s: State, t: State, i: nat)
    requires i < |s.attempts|
  {
    var a := s.attempts[i];
    a.phase.Stored? && t == With(s, i, a.(phase := Failed, doubt := Some(a.phase.previousId)))
  }

  /** A transaction in doubt commits after all, whatever the attempt has done since. */
  ghost predicate LateCommit(s: State, t: State, i: nat)
    requires i < |s.attempts|
  {
    var a := s.attempts[i];
    && a.doubt.Some? && a.key.Some?
    && exists id: VersionId :: MayCommit(s, a.request, a.doubt.value, id) && t == Committed(s, i, id, a.phase)
  }

  function Committed(s: State, i: nat, id: VersionId, phase: Phase): State
    requires i < |s.attempts| && s.attempts[i].key.Some?
  {
    var a, r := s.attempts[i], s.attempts[i].request;
    var row := Version(r.documentId, a.key.value, if r.receipt.Some? then Some(r.receipt.value.fingerprint) else None);
    With(s, i, a.(committed := true, phase := phase, doubt := None, late := a.doubt.Some? && !a.phase.Failed?)).
      (versions := s.versions[id := row], latest := s.latest[(r.documentId, r.locale) := id],
       documents := s.documents + {r.documentId})
  }

  ghost predicate Abort(s: State, t: State, i: nat)
    requires i < |s.attempts|
  {
    s.attempts[i].phase.Stored? && t == With(s, i, s.attempts[i].(phase := Failed))
  }

  /** The error handler looks the receipt up again and decides whether to remove its own object. */
  ghost predicate Recover(s: State, t: State, i: nat)
    requires i < |s.attempts|
  {
    var a := s.attempts[i];
    && a.phase.Failed? && a.key.Some?
    && (t == With(s, i, a.(phase := Threw)) || t == With(s, i, a.(phase := Recovered(s, a))))
  }

  function Recovered(s: State, a: Attempt): Phase
    requires a.key.Some?
  {
    match FindUploadReceipt(s, a.request.receipt)
    case Missing => Cleaning(None)
    case Found(version) =>
      if version.objectKey != a.key.value then Cleaning(Some(version.documentId)) else Returned(version.documentId)
    case Conflict => Threw
  }

  /** The removal succeeds or fails silently; then the answer is returned or the error rethrown. */
  ghost predicate Clean(s: State, t: State, i: nat)
    requires i < |s.attempts|
  {
    var a := s.attempts[i];
    && a.phase.Cleaning? && a.key.Some?
    && var done := With(s, i, a.(phase := if a.phase.answer.Some? then Returned(a.phase.answer.value) else Threw));
       t == done.(objects := s.objects - {a.key.value}) || t == done
  }

  // ----- Steps of the environment -----

  ghost predicate Arrive(s: State, t: State) {
    exists request :: t == s.(attempts := s.attempts + [Attempt(request, None, false, Start, None, false)])
  }

  ghost predicate SoftDelete(s: State, t: State) {
    exists deleted :: t == s.(deleted := deleted)
  }

  /** A restoration adds a version of the same document under a new id, over the same stored file. */
  ghost predicate Restore(s: State, t: State) {
    exists source: VersionId, id: VersionId, locale: nat ::
      && source in s.versions && id !in s.versions
      && (forall i :: 0 <= i < |s.attempts| && s.attempts[i].request.receipt.Some? ==> s.attempts[i].request.receipt.value.id != id)
      && var row := s.versions[source].(fingerprint := None);
         t == s.(versions := s.versions[id := row], latest := s.latest[(row.documentId, locale) := id])
  }

  ghost predicate AttemptStep(s: State, t: State, i: nat) {
    && i < |s.attempts|
    && (LookUp(s, t, i) || Prepare(s, t, i) || Put(s, t, i) || Commit(s, t, i) || Abort(s, t, i)
        || Doubt(s, t, i) || LateCommit(s, t, i) || Recover(s, t, i) || Clean(s, t, i))
  }

  /** An attempt whose process dies simply takes no further step. */
  ghost predicate Step(s: State, t: State) {
    Arrive(s, t) || SoftDelete(s, t) || Restore(s, t) || exists i :: AttemptStep(s, t, i)
  }

  const INITIAL := State(map[], map[], {}, {}, {}, [])

  ghost predicate IsRun(states: seq<State>) {
    && states != [] && states[0] == INITIAL
    && forall k :: 0 < k < |states| ==> Step(states[k - 1], states[k])
  }

  // ----- The invariant -----

  ghost predicate Referenced(s: State, key: ObjectKey) {
    exists id :: id in s.versions && s.versions[id].objectKey == key
  }

  /** What an attempt knows about the rows and objects that carry its key. */
  ghost predicate AttemptOk(s: State, a: Attempt) {
    && (a.phase.Start? || a.phase.Looked? ==> a.key.None?)
    && (a.phase.Prepared? || a.phase.Stored? || a.phase.Failed? || a.phase.Cleaning? ==> a.key.Some?)
    && (a.committed || a.doubt.Some? ==>
          a.key.Some? && (a.phase.Failed? || a.phase.Cleaning? || a.phase.Returned? || a.phase.Threw?))
    && (a.committed ==> a.doubt.None?) && (a.late ==> a.committed && !a.phase.Failed?)
    && (a.key.Some? && !a.committed ==> !Referenced(s, a.key.value))
    && (a.phase.Stored? || a.phase.Failed? ==> a.key.Some? && a.key.value in s.objects)
    && (a.committed ==> Referenced(s, a.key.value))
    && (a.request.receipt.Some? ==>
          var receipt := a.request.receipt.value;
          && (a.committed ==>
                && receipt.id in s.versions
                && s.versions[receipt.id].objectKey == a.key.value
                && (!a.late ==> a.key.value in s.objects && !a.phase.Cleaning?))
          && (a.phase.Cleaning? && a.phase.answer.Some? ==> Answers(s, receipt, a.phase.answer.value))
          && (a.phase.Returned? ==> Answers(s, receipt, a.phase.documentId)))
  }

  /** The document is the one of the row the receipt names, and the payload is the one uploaded. */
  ghost predicate Answers(s: State, receipt: Receipt, documentId: DocumentId) {
    && receipt.id in s.versions
    && s.versions[receipt.id].documentId == documentId
    && s.versions[receipt.id].fingerprint == Some(receipt.fingerprint)
  }

  /** Every object a row points to was allocated by an attempt that committed. */
  ghost predicate RowsOwned(s: State) {
    forall id :: id in s.versions ==> OwnedBy(s, s.versions[id].objectKey)
  }

  ghost predicate OwnedBy(s: State, key: ObjectKey) {
    exists i :: 0 <= i < |s.attempts| && s.attempts[i].key == Some(key) && s.attempts[i].committed
  }

  ghost predicate KeysDistinct(s: State) {
    forall i, j :: 0 <= i < j < |s.attempts| && s.attempts[i].key.Some? ==> s.attempts[i].key != s.attempts[j].key
  }

  ghost predicate Inv(s: State) {
    && KeysDistinct(s)
    && RowsOwned(s)
    && forall i :: 0 <= i < |s.attempts| ==> AttemptOk(s, s.attempts[i])
  }

  /** Rows are only added, and the objects of other attempts are only added. */
  ghost predicate Grows(s: State, t: State, own: Option<ObjectKey>) {
    && (forall id :: id in s.versions ==> id in t.versions && t.versions[id] == s.versions[id])
    && (forall key :: key in s.objects && Some(key) != own ==> key in t.objects)
    && (forall id :: id in t.versions && id !in s.versions ==>
          Some(t.versions[id].objectKey) == own || Referenced(s, t.versions[id].objectKey))
  }

  /** A step of another attempt preserves what this attempt knows. */
  lemma {:induction false} OthersKeep(
    s: State, t: State, own: Option<ObjectKey>, a: Attempt)
    requires AttemptOk(s, a) && Grows(s, t, own)
    requires a.key.Some? ==> a.key != own
    ensures AttemptOk(t, a)
  {
    if a.key.Some? {
      ReferencedSame(s, t, own, a.key.value);
    }
  }

  lemma {:induction false} ReferencedSame(
    s: State, t: State, own: Option<ObjectKey>, key: ObjectKey)
    requires Grows(s, t, own) && Some(key) != own
    ensures Referenced(t, key) <==> Referenced(s, key)
  {
    if Referenced(t, key) {
      var id :| id in t.versions && t.versions[id].objectKey == key;
      if id in s.versions {
        assert s.versions[id].objectKey == key;
      }
    }
    if Referenced(s, key) {
      var id :| id in s.versions && s.versions[id].objectKey == key;
      assert id in t.versions && t.versions[id].objectKey == key;
    }
  }

  /** One attempt moves; the rest of the invariant follows from what its move leaves alone. */
  lemma {:induction false} OneMoves(s: State, t: State, i: nat)
    requires Inv(s) && i < |s.attempts| == |t.attempts|
    requires forall j :: 0 <= j < |s.attempts| && j != i ==> t.attempts[j] == s.attempts[j]
    requires s.attempts[i].key.Some? ==> t.attempts[i].key == s.attempts[i].key
    requires t.attempts[i].key.Some? && s.attempts[i].key.None? ==> FreshKey(s, t.attempts[i].key.value)
    requires Grows(s, t, t.attempts[i].key)
    requires AttemptOk(t, t.attempts[i])
    requires s.attempts[i].committed ==> t.attempts[i].committed
    requires t.versions == s.versions || t.attempts[i].committed
    ensures Inv(t)
  {
    forall j | 0 <= j < |t.attempts|
      ensures AttemptOk(t, t.attempts[j])
    {
      if j != i {
        OthersKeep(s, t, t.attempts[i].key, s.attempts[j]);
      }
    }
    forall id | id in t.versions
      ensures OwnedBy(t, t.versions[id].objectKey)
    {
      var key := t.versions[id].objectKey;
      if id in s.versions || Referenced(s, key) {
        StillOwned(s, t, i, key);
      } else {
        assert t.attempts[i].key == Some(key);
      }
    }
  }

  lemma StillOwned(s: State, t: State, i: nat, key: ObjectKey)
    requires RowsOwned(s) && Referenced(s, key) && i < |s.attempts| == |t.attempts|
    requires forall j :: 0 <= j < |s.attempts| && j != i ==> t.attempts[j] == s.attempts[j]
    requires s.attempts[i].key.Some? ==> t.attempts[i].key == s.attempts[i].key
    requires s.attempts[i].committed ==> t.attempts[i].committed
    ensures OwnedBy(t, key)
  {
    var id :| id in s.versions && s.versions[id].objectKey == key;
    var j :| 0 <= j < |s.attempts| && s.attempts[j].key == Some(key) && s.attempts[j].committed;
    assert t.attempts[j].key == Some(key) && t.attempts[j].committed;
  }

  /** The new row is the attempt's own; nothing else changes. */
  lemma {:induction false} InsertKeeps(
    s: State, t: State, i: nat, id: VersionId, phase: Phase)
    requires Inv(s) && i < |s.attempts| && s.attempts[i].key.Some? && id !in s.versions && t == Committed(s, i, id, phase)
    requires AttemptOk(t, t.attempts[i])
    ensures Inv(t)
  {
    assert t.versions[id].objectKey == s.attempts[i].key.value;
    OneMoves(s, t, i);
  }

  lemma {:induction false} CommitKeeps(s: State, t: State, i: nat)
    requires Inv(s) && i < |s.attempts| && Commit(s, t, i)
    ensures Inv(t)
  {
    var a := s.attempts[i];
    assert AttemptOk(s, a);
    var id: VersionId :| MayCommit(s, a.request, a.phase.previousId, id)
                         && (t == Committed(s, i, id, Returned(a.request.documentId)) || t == Committed(s, i, id, Failed));
    assert t.versions[id].objectKey == a.key.value;
    InsertKeeps(s, t, i, id, t.attempts[i].phase);
  }

  lemma {:induction false} LateCommitKeeps(s: State, t: State, i: nat)
    requires Inv(s) && i < |s.attempts| && LateCommit(s, t, i)
    ensures Inv(t)
  {
    var a := s.attempts[i];
    assert AttemptOk(s, a);
    var id: VersionId :| MayCommit(s, a.request, a.doubt.value, id) && t == Committed(s, i, id, a.phase);
    assert t.versions[id].objectKey == a.key.value;
    InsertKeeps(s, t, i, id, a.phase);
  }

  lemma {:induction false} RecoverKeeps(s: State, t: State, i: nat)
    requires Inv(s) && i < |s.attempts| && Recover(s, t, i)
    ensures Inv(t)
  {
    assert AttemptOk(s, s.attempts[i]);
    ReferencedSame(s, t, None, s.attempts[i].key.value);
    OneMoves(s, t, i);
  }

  lemma {:induction false} CleanKeeps(s: State, t: State, i: nat)
    requires Inv(s) && i < |s.attempts| && Clean(s, t, i)
    ensures Inv(t)
  {
    assert AttemptOk(s, s.attempts[i]);
    OneMoves(s, t, i);
  }

  lemma {:induction false} EarlyKeeps(s: State, t: State, i: nat)
    requires Inv(s) && i < |s.attempts| && (LookUp(s, t, i) || Prepare(s, t, i) || Put(s, t, i) || Abort(s, t, i) || Doubt(s, t, i))
    ensures Inv(t)
  {
    assert AttemptOk(s, s.attempts[i]);
    if Prepare(s, t, i) {
      FreshNotReferenced(s, t.attempts[i].key.value);
    }
    OneMoves(s, t, i);
  }

  lemma FreshNotReferenced(s: State, key: ObjectKey)
    requires RowsOwned(s) && FreshKey(s, key)
    ensures !Referenced(s, key)
  {
    forall id | id in s.versions
      ensures s.versions[id].objectKey != key
    {
      assert OwnedBy(s, s.versions[id].objectKey);
    }
  }

  lemma {:induction false} EnvironmentKeeps(s: State, t: State)
    requires Inv(s) && (Arrive(s, t) || SoftDelete(s, t) || Restore(s, t))
    ensures Inv(t)
  {
    forall j | 0 <= j < |s.attempts|
      ensures AttemptOk(t, s.attempts[j])
    {
      OthersKeep(s, t, None, s.attempts[j]);
    }
    forall id | id in t.versions
      ensures OwnedBy(t, t.versions[id].objectKey)
    {
      assert OwnedBy(s, t.versions[id].objectKey);
      var j :| 0 <= j < |s.attempts| && s.attempts[j].key == Some(t.versions[id].objectKey) && s.attempts[j].committed;
      assert t.attempts[j] == s.attempts[j];
    }
  }

  lemma {:induction false} RunKeeps(states: seq<State>, k: nat)
    requires IsRun(states) && k < |states|
    ensures Inv(states[k])
  {
    if k > 0 {
      RunKeeps(states, k - 1);
      var s, t := states[k - 1], states[k];
      if i :| AttemptStep(s, t, i) {
        if Commit(s, t, i) {
          CommitKeeps(s, t, i);
        } else if LateCommit(s, t, i) {
          LateCommitKeeps(s, t, i);
        } else if Recover(s, t, i) {
          RecoverKeeps(s, t, i);
        } else if Clean(s, t, i) {
          CleanKeeps(s, t, i);
        } else {
          EarlyKeeps(s, t, i);
        }
      } else {
        EnvironmentKeeps(s, t);
      }
    }
  }

  // ----- What a commit replaces -----

  /**
   The row becomes the latest of its language, in place of the version its content was compared
   with; a new document is created exactly for an upload that named none.
   */
  ghost predicate Replaces(s: State, t: State, i: nat, compared: Option<VersionId>, id: VersionId)
    requires i < |s.attempts|
  {
    var r := s.attempts[i].request;
    && id !in s.versions && t.versions.Keys == s.versions.Keys + {id}
    && t.versions[id].documentId == r.documentId && Some(t.versions[id].objectKey) == s.attempts[i].key
    && Latest(s, r.documentId, r.locale) == compared && Latest(t, r.documentId, r.locale) == Some(id)
    && (r.existing ==> r.documentId in s.documents && t.documents == s.documents)
    && (!r.existing ==> r.documentId !in s.documents && t.documents == s.documents + {r.documentId})
  }

  lemma {:induction false} CommitReplacesCompared(s: State, t: State, i: nat)
    requires i < |s.attempts| && Commit(s, t, i)
    ensures exists id :: Replaces(s, t, i, s.attempts[i].phase.previousId, id)
  {
    var a := s.attempts[i];
    var id: VersionId :| MayCommit(s, a.request, a.phase.previousId, id)
                         && (t == Committed(s, i, id, Returned(a.request.documentId)) || t == Committed(s, i, id, Failed));
    assert Replaces(s, t, i, a.phase.previousId, id);
  }

  lemma {:induction false} LateCommitReplacesCompared(s: State, t: State, i: nat)
    requires i < |s.attempts| && LateCommit(s, t, i)
    ensures exists id :: Replaces(s, t, i, s.attempts[i].doubt.value, id)
  {
    var a := s.attempts[i];
    var id: VersionId :| MayCommit(s, a.request, a.doubt.value, id) && t == Committed(s, i, id, a.phase);
    assert Replaces(s, t, i, a.doubt.value, id);
  }

  // ----- What a lookup answers -----

  /** The row stored under the receipt's id belongs to this payload, and its document is not deleted. */
  ghost predicate Replayable(s: State, receipt: Receipt) {
    && receipt.id in s.versions
    && s.versions[receipt.id].fingerprint == Some(receipt.fingerprint)
    && s.versions[receipt.id].documentId !in s.deleted
  }

  /** A row is stored under the receipt's id, for another payload or a deleted document. */
  ghost predicate Disputed(s: State, receipt: Receipt) {
    && receipt.id in s.versions
    && (s.versions[receipt.id].fingerprint != Some(receipt.fingerprint) || s.versions[receipt.id].documentId in s.deleted)
  }

  /**
   The first lookup goes on exactly when no row is stored under the receipt, returns the document
   of a row that can be replayed, and otherwise throws; it changes nothing else.
   */
  lemma {:induction false} LookUpExactly(s: State, t: State, i: nat)
    requires i < |s.attempts| && LookUp(s, t, i)
    ensures t == s.(attempts := t.attempts) && |t.attempts| == |s.attempts|
    ensures var receipt, phase := s.attempts[i].request.receipt, t.attempts[i].phase;
            && (phase == Looked <==> receipt.None? || receipt.value.id !in s.versions)
            && (receipt.Some? && Replayable(s, receipt.value) ==> phase == Returned(s.versions[receipt.value.id].documentId))
            && (receipt.Some? && Disputed(s, receipt.value) ==> phase == Threw)
  {
  }

  /**
   The error handler's lookup: without a row it sets out to remove the object and to rethrow; a row
   with its own object is returned; a row with another object is returned after removing its own;
   a disputed row makes it throw without touching any object. The lookup itself may also fail.
   */
  lemma {:induction false} RecoverExactly(s: State, t: State, i: nat)
    requires i < |s.attempts| && Recover(s, t, i)
    ensures t == s.(attempts := t.attempts) && |t.attempts| == |s.attempts|
    ensures var a, phase := s.attempts[i], t.attempts[i].phase;
            var receipt := a.request.receipt;
            phase == Threw
            || (phase == Cleaning(None) && (receipt.None? || receipt.value.id !in s.versions))
            || (receipt.Some? && Replayable(s, receipt.value)
                && var row := s.versions[receipt.value.id];
                   phase == if Some(row.objectKey) == a.key then Returned(row.documentId) else Cleaning(Some(row.documentId)))
  {
  }

  /** Whatever an attempt answers from a lookup is stored under its receipt, for its payload, and not deleted. */
  lemma {:induction false} AnswerIsReplayable(s: State, t: State, i: nat, d: DocumentId)
    requires i < |s.attempts| && i < |t.attempts| && (LookUp(s, t, i) || Recover(s, t, i))
    requires t.attempts[i].phase == Returned(d) || t.attempts[i].phase == Cleaning(Some(d))
    ensures d !in s.deleted && s.attempts[i].request.receipt.Some?
    ensures var receipt := s.attempts[i].request.receipt.value;
            Replayable(s, receipt) && s.versions[receipt.id].documentId == d
  {
    if LookUp(s, t, i) {
      LookUpExactly(s, t, i);
    } else {
      RecoverExactly(s, t, i);
    }
  }

  /** A disputed receipt ends the attempt, at the first lookup and in the handler, and no object is removed. */
  lemma {:induction false} DisputeThrows(s: State, t: State, i: nat)
    requires i < |s.attempts| && i < |t.attempts| && (LookUp(s, t, i) || Recover(s, t, i))
    requires s.attempts[i].request.receipt.Some? && Disputed(s, s.attempts[i].request.receipt.value)
    ensures t.attempts[i].phase == Threw && t.objects == s.objects
  {
    if LookUp(s, t, i) {
      LookUpExactly(s, t, i);
    } else {
      RecoverExactly(s, t, i);
    }
  }

  /** Attempts i and j carry the same identity and request id. */
  ghost predicate SameUpload(s: State, i: nat, j: nat) {
    && i < |s.attempts| && j < |s.attempts|
    && s.attempts[i].request.receipt.Some? && s.attempts[j].request.receipt.Some?
    && s.attempts[i].request.receipt.value.id == s.attempts[j].request.receipt.value.id
  }

  /**
   In every interleaving, at most one of the attempts of one upload commits a row; attempts that
   succeed return the document of that row, for the same payload; and unless the commit was late,
   the object of its row stays stored, whatever the others clean up and even if the commit
   reported an error.
   */
  lemma {:induction false} UploadsAreIdempotent(states: seq<State>, k: nat, i: nat, j: nat)
    requires IsRun(states) && k < |states| && SameUpload(states[k], i, j)
    ensures var s := states[k];
            var id := s.attempts[i].request.receipt.value.id;
            && (s.attempts[i].committed && s.attempts[j].committed ==> i == j)
            && (s.attempts[i].committed ==>
                  && id in s.versions && s.attempts[i].key == Some(s.versions[id].objectKey)
                  && (!s.attempts[i].late ==> s.versions[id].objectKey in s.objects))
            && (s.attempts[i].phase.Returned? ==> Answers(s, s.attempts[i].request.receipt.value, s.attempts[i].phase.documentId))
            && (s.attempts[i].phase.Returned? && s.attempts[j].phase.Returned? ==>
                  s.attempts[i].phase.documentId == s.attempts[j].phase.documentId)
  {
    RunKeeps(states, k);
    var s := states[k];
    assert AttemptOk(s, s.attempts[i]) && AttemptOk(s, s.attempts[j]);
  }

  /** Every row's object is stored, unless the attempt that wrote it carried no receipt or committed late. */
  lemma {:induction false} CommittedObjectsStay(states: seq<State>, k: nat, id: VersionId)
    requires IsRun(states) && k < |states| && id in states[k].versions
    ensures var s := states[k];
            exists i :: 0 <= i < |s.attempts| && s.attempts[i].committed && s.attempts[i].key == Some(s.versions[id].objectKey)
                        && (s.attempts[i].request.receipt.Some? && !s.attempts[i].late ==> s.versions[id].objectKey in s.objects)
  {
    RunKeeps(states, k);
    var s := states[k];
    assert OwnedBy(s, s.versions[id].objectKey);
    var i :| 0 <= i < |s.attempts| && s.attempts[i].key == Some(s.versions[id].objectKey) && s.attempts[i].committed;
    assert AttemptOk(s, s.attempts[i]);
  }

  /**
   The error handler sets out to remove the object of a committed row exactly when the failed
   attempt did commit and carried no receipt to find out.
   */
  lemma {:induction false} CleanupLosesObjectExactly(states: seq<State>, k: nat, i: nat)
    requires IsRun(states) && k < |states| && i < |states[k].attempts| && states[k].attempts[i].phase.Failed?
    ensures var s := states[k];
            var a := s.attempts[i];
            a.key.Some?
            && ((Recovered(s, a).Cleaning? && Referenced(s, a.key.value)) <==> (a.committed && a.request.receipt.None?))
  {
    RunKeeps(states, k);
    assert AttemptOk(states[k], states[k].attempts[i]);
  }

  /** The handler looks up, removes the object, and the transaction may then commit after all. */
  ghost predicate Cleans(s: State, t: State, u: State, v: State, i: nat) {
    && i < |s.attempts| && s.attempts[i].key.Some?
    && Recover(s, t, i) && i < |t.attempts| && Clean(t, u, i)
    && (v == u || (i < |u.attempts| && LateCommit(u, v, i)))
    && s.attempts[i].key.value !in v.objects
  }

  /** The handler of attempt i can end with a row whose object it has removed. */
  ghost predicate MayLoseObject(s: State, i: nat) {
    exists t, u, v :: Cleans(s, t, u, v, i) && Referenced(v, s.attempts[i].key.value)
  }

  /**
   When the handler alone goes on, it can remove the object of its own row exactly when the
   transaction committed without a receipt, or is in doubt and can still commit.
   */
  lemma {:induction false} MayLoseObjectExactly(states: seq<State>, k: nat, i: nat)
    requires IsRun(states) && k < |states| && i < |states[k].attempts| && states[k].attempts[i].phase.Failed?
    ensures var s := states[k];
            var a := s.attempts[i];
            MayLoseObject(s, i) <==>
            (a.committed && a.request.receipt.None?)
            || (a.doubt.Some? && exists id: VersionId :: MayCommit(s, a.request, a.doubt.value, id))
  {
    RunKeeps(states, k);
    var s := states[k];
    var a := s.attempts[i];
    assert AttemptOk(s, a);
    CleanupLosesObjectExactly(states, k, i);
    if t, u, v :| Cleans(s, t, u, v, i) && Referenced(v, a.key.value) {
      OnlyThen(s, t, u, v, i);
    }
    if a.committed && a.request.receipt.None? {
      LosesCommitted(s, i);
    }
    if a.doubt.Some? {
      if id: VersionId :| MayCommit(s, a.request, a.doubt.value, id) {
        LosesInDoubt(s, i, id);
      }
    }
  }

  lemma {:induction false} OnlyThen(s: State, t: State, u: State, v: State, i: nat)
    requires Cleans(s, t, u, v, i) && Referenced(v, s.attempts[i].key.value) && AttemptOk(s, s.attempts[i])
    ensures var a := s.attempts[i];
            || (Recovered(s, a).Cleaning? && Referenced(s, a.key.value))
            || (a.doubt.Some? && exists id: VersionId :: MayCommit(s, a.request, a.doubt.value, id))
  {
    var a := s.attempts[i];
    assert t.attempts[i] == a.(phase := Recovered(s, a)) && Recovered(s, a).Cleaning?;
    if v == u {
      assert Referenced(s, a.key.value);
    } else {
      var id: VersionId :| MayCommit(u, u.attempts[i].request, u.attempts[i].doubt.value, id)
                           && v == Committed(u, i, id, u.attempts[i].phase);
      assert MayCommit(s, a.request, a.doubt.value, id);
    }
  }

  /** The state after a lookup that finds nothing, and the one after the removal. */
  function FoundNothing(s: State, i: nat): State
    requires i < |s.attempts|
  {
    With(s, i, s.attempts[i].(phase := Cleaning(None)))
  }

  function Cleaned(s: State, i: nat): State
    requires i < |s.attempts| && s.attempts[i].key.Some?
  {
    With(s, i, s.attempts[i].(phase := Threw)).(objects := s.objects - {s.attempts[i].key.value})
  }

  lemma {:induction false} CleansAlone(s: State, i: nat)
    requires i < |s.attempts| && s.attempts[i].key.Some? && s.attempts[i].phase.Failed?
    requires FindUploadReceipt(s, s.attempts[i].request.receipt) == Missing
    ensures Cleans(s, FoundNothing(s, i), Cleaned(s, i), Cleaned(s, i), i)
    ensures Step(s, FoundNothing(s, i)) && Step(FoundNothing(s, i), Cleaned(s, i))
  {
    assert AttemptStep(s, FoundNothing(s, i), i);
    assert AttemptStep(FoundNothing(s, i), Cleaned(s, i), i);
  }

  lemma {:induction false} LosesCommitted(s: State, i: nat)
    requires i < |s.attempts| && s.attempts[i].phase.Failed? && AttemptOk(s, s.attempts[i])
    requires s.attempts[i].committed && s.attempts[i].request.receipt.None?
    ensures MayLoseObject(s, i)
  {
    CleansAlone(s, i);
    var key := s.attempts[i].key.value;
    var id :| id in s.versions && s.versions[id].objectKey == key;
    assert Cleaned(s, i).versions[id].objectKey == key;
  }

  lemma {:induction false} LosesInDoubt(s: State, i: nat, id: VersionId)
    requires i < |s.attempts| && s.attempts[i].phase.Failed? && AttemptOk(s, s.attempts[i])
    requires s.attempts[i].doubt.Some? && MayCommit(s, s.attempts[i].request, s.attempts[i].doubt.value, id)
    ensures MayLoseObject(s, i)
  {
    CleansAlone(s, i);
    var u := Cleaned(s, i);
    var v := Committed(u, i, id, u.attempts[i].phase);
    assert LateCommit(u, v, i) by {
      assert MayCommit(u, u.attempts[i].request, u.attempts[i].doubt.value, id);
    }
    assert v.versions[id].objectKey == s.attempts[i].key.value;
    assert Cleans(s, FoundNothing(s, i), u, v, i);
  }

  // ----- Runs that lose an object -----

  lemma {:induction false} RunSnoc(states: seq<State>, t: State)
    requires IsRun(states) && Step(states[|states| - 1], t)
    ensures IsRun(states + [t])
  {
    var more := states + [t];
    forall k | 0 < k < |more|
      ensures Step(more[k - 1], more[k])
    {
      assert k < |states| ==> Step(states[k - 1], states[k]);
    }
  }

  /** The first upload of a new document, up to its transaction. */
  lemma {:induction false} StoredRun(request: Request) returns (states: seq<State>)
    ensures IsRun(states)
    ensures states[|states| - 1] == INITIAL.(objects := {0}, attempts := [Attempt(request, Some(0), false, Stored(None), None, false)])
  {
    var a := INITIAL.(attempts := [Attempt(request, None, false, Start, None, false)]);
    assert Arrive(INITIAL, a) by {
      assert a == INITIAL.(attempts := INITIAL.attempts + [Attempt(request, None, false, Start, None, false)]);
    }
    var b := With(a, 0, a.attempts[0].(phase := Looked));
    assert AttemptStep(a, b, 0) by {
      assert LookUp(a, b, 0);
    }
    var c := With(b, 0, b.attempts[0].(key := Some(0), phase := Prepared(None)));
    assert AttemptStep(b, c, 0) by {
      assert FreshKey(b, 0);
      assert Prepare(b, c, 0);
    }
    var d := With(c, 0, c.attempts[0].(phase := Stored(None))).(objects := {0});
    assert AttemptStep(c, d, 0) by {
      assert c.objects + {0} == {0};
      assert Put(c, d, 0);
    }
    states := [INITIAL];
    RunSnoc(states, a);
    RunSnoc(states + [a], b);
    RunSnoc(states + [a] + [b], c);
    states := states + [a] + [b] + [c];
    RunSnoc(states, d);
    states := states + [d];
  }

  /** A row of the run's last state points to an object that is not stored. */
  ghost predicate LosesSome(s: State) {
    exists id :: id in s.versions && s.versions[id].objectKey !in s.objects
  }

  /** Without a receipt: the transaction commits and reports an error, and the handler removes the object. */
  lemma {:induction false} LostWithoutReceipt(request: Request) returns (states: seq<State>)
    requires request.receipt.None? && !request.existing
    ensures IsRun(states) && LosesSome(states[|states| - 1])
  {
    states := StoredRun(request);
    var s := states[|states| - 1];
    var t := Committed(s, 0, 0, Failed);
    assert AttemptStep(s, t, 0) by {
      assert MayCommit(s, request, None, 0);
      assert Commit(s, t, 0);
    }
    CleansAlone(t, 0);
    var u, v := FoundNothing(t, 0), Cleaned(t, 0);
    RunSnoc(states, t);
    RunSnoc(states + [t], u);
    RunSnoc(states + [t] + [u], v);
    states := states + [t] + [u] + [v];
    assert v.versions[0].objectKey == 0;
  }

  /** Even with a receipt: the transaction commits after the handler found nothing and removed the object. */
  lemma {:induction false} LostByLateCommit(request: Request) returns (states: seq<State>)
    requires !request.existing
    ensures IsRun(states) && LosesSome(states[|states| - 1])
  {
    states := StoredRun(request);
    var s := states[|states| - 1];
    var t := With(s, 0, s.attempts[0].(phase := Failed, doubt := Some(None)));
    assert AttemptStep(s, t, 0) by {
      assert Doubt(s, t, 0);
    }
    CleansAlone(t, 0);
    var u, v := FoundNothing(t, 0), Cleaned(t, 0);
    var id: VersionId := if request.receipt.Some? then request.receipt.value.id else 0;
    var w := Committed(v, 0, id, Threw);
    assert AttemptStep(v, w, 0) by {
      assert MayCommit(v, request, None, id);
      assert LateCommit(v, w, 0);
    }
    RunSnoc(states, t);
    RunSnoc(states + [t], u);
    RunSnoc(states + [t] + [u], v);
    states := states + [t] + [u] + [v];
    RunSnoc(states, w);
    states := states + [w];
    assert w.versions[id].objectKey == 0;
  }
}
