/**
 Destruction of documents after their retention: two administrators decide
 (`governance.controller.ts`), and a worker that may crash and be retried claims, removes and
 finalises (`ged-worker.ts`). A decision reads the policy and writes it in separate steps; these
 and the worker's steps interleave freely.
 */
module Retention {
  import opened Wrappers

  type PolicyId = nat
  type DocumentId = nat
  type FileId = nat
  type Person = string

  datatype Status = Idle | Due | Requested | Approved | Rejected | Destroying | Destroyed

  datatype Policy = Policy(
    documentId: DocumentId, legalHold: bool, retentionUntil: Option<int>, status: Status,
    requestedBy: Option<Person>, approvedBy: Option<Person>, updatedAt: int)

  /** A version references its stored file and perhaps a distributed one. */
  datatype Version = Version(documentId: DocumentId, file: FileId, distributed: Option<FileId>)

  /** What a worker claimed: the policy as it stood then, when in the history and when on the clock. */
  datatype Claim = Claim(policy: PolicyId, at: nat, terms: Policy, since: int)

  datatype Worker =
    | Scanned(policy: PolicyId, document: DocumentId, files: set<FileId>, purged: set<FileId>)
    | Claimed(claim: Claim, document: DocumentId, files: set<FileId>, purged: set<FileId>)
    | Removing(claim: Claim, document: DocumentId, files: set<FileId>, purged: set<FileId>, keep: set<FileId>, todo: set<FileId>)
    | Finished

  datatype Kind = ToRequest | ToApprove | ToReject

  /** A decision that has read its policy and passed its checks, but not written yet. */
  datatype Decision =
    | Reading(policy: PolicyId, person: Person, kind: Kind, read: Policy, at: nat)
    | Over

  /** What is written to a policy; `current` tells whether a decision's check still held then. */
  datatype Event =
    | Saved(policy: PolicyId, hold: bool)
    | Decided(policy: PolicyId, kind: Kind, person: Person, at: nat, current: bool)
    | Silent

  /**
   The database and the object store, the decisions and workers in flight, the policies as they
   stood when a worker claimed them, for each removed object the document whose destruction
   removed it, and the history of writes, one entry for each step. Stored files and objects
   correspond one to one.
   */
  datatype State = State(
    clock: int, policies: map<PolicyId, Policy>, versions: set<Version>, files: set<FileId>, purged: set<FileId>,
    destroyed: set<DocumentId>, decisions: seq<Decision>, workers: seq<Worker>, claims: seq<Policy>,
    removed: map<FileId, DocumentId>, history: seq<Event>)

  const RETRY_MS := 30 * 60_000

  function References(v: Version): set<FileId> {
    {v.file} + if v.distributed.Some? then {v.distributed.value} else {}
  }

  function FilesOf(versions: set<Version>, d: DocumentId): set<FileId> {
    set v, f | v in versions && v.documentId == d && f in References(v) :: f
  }

  /** The files other documents' versions reference. */
  function SharedFiles(versions: set<Version>, d: DocumentId): set<FileId> {
    set v, f | v in versions && v.documentId != d && f in References(v) :: f
  }

  function Put(s: State, id: PolicyId, p: Policy): State {
    s.(policies := s.policies[id := p.(updatedAt := s.clock)])
  }

  // ----- Handlers -----

  /** `saveRetention`: a hold clears every decision; lifting one keeps the status. */
  function Resaved(p: Policy, hold: bool, until: Option<int>): Policy {
    var q := p.(legalHold := hold, retentionUntil := until);
    if hold then q.(status := Idle, requestedBy := None, approvedBy := None) else q
  }

  ghost predicate SaveOn(s: State, t: State, id: PolicyId, d: DocumentId, hold: bool, until: Option<int>) {
    && (hold || until.Some?)
    && if id in s.policies then
         s.policies[id].documentId == d && t == Put(s, id, Resaved(s.policies[id], hold, until))
       else
         && (forall other :: other in s.policies ==> s.policies[other].documentId != d)
         && t == Put(s, id, Policy(d, hold, until, Idle, None, None, s.clock))
  }

  ghost predicate Save(s: State, t: State, e: Event) {
    exists id: PolicyId, d: DocumentId, hold: bool, until: Option<int> :: SaveOn(s, t, id, d, hold, until) && e == Saved(id, hold)
  }

  /** The checks of `retentionDecision` on the policy it reads. */
  predicate Passes(kind: Kind, p: Policy, person: Person, now: int) {
    && !p.legalHold
    && match kind
       case ToRequest =>
         && !p.status.Approved? && !p.status.Destroying? && !p.status.Destroyed?
         && (p.retentionUntil.Some? ==> p.retentionUntil.value <= now)
       case ToApprove => p.status.Requested? && p.requestedBy != Some(person)
       case ToReject => p.status.Requested?
  }

  /** What it writes over the stored policy. */
  function Applied(kind: Kind, p: Policy, person: Person): Policy {
    match kind
    case ToRequest => p.(status := Requested, requestedBy := Some(person), approvedBy := None)
    case ToApprove => p.(status := Approved, approvedBy := Some(person))
    case ToReject => p.(status := Status.Rejected, approvedBy := Some(person))
  }

  ghost predicate ReadDecision(s: State, t: State, e: Event) {
    exists id: PolicyId, person: Person, kind: Kind ::
      && id in s.policies && Passes(kind, s.policies[id], person, s.clock) && e == Silent
      && t == s.(decisions := s.decisions + [Reading(id, person, kind, s.policies[id], |s.history|)])
  }

  ghost predicate WriteDecision(s: State, t: State, e: Event, i: nat) {
    && i < |s.decisions| && s.decisions[i].Reading?
    && var d := s.decisions[i];
       && d.policy in s.policies
       && e == Decided(d.policy, d.kind, d.person, d.at, Passes(d.kind, s.policies[d.policy], d.person, s.clock))
       && t == Put(s, d.policy, Applied(d.kind, s.policies[d.policy], d.person)).(decisions := s.decisions[i := Over])
  }

  ghost predicate FlagDue(s: State, t: State, e: Event) {
    exists id: PolicyId ::
      && id in s.policies && e == Silent
      && var p := s.policies[id];
         && !p.legalHold && p.status.Idle? && p.retentionUntil.Some? && p.retentionUntil.value <= s.clock
         && p.documentId !in s.destroyed
         && t == Put(s, id, p.(status := Due))
  }

  // ----- The worker -----

  /** An interrupted destruction becomes claimable again after 30 minutes. */
  ghost predicate Recover(s: State, t: State, e: Event) {
    exists id: PolicyId ::
      && id in s.policies && e == Silent
      && var p := s.policies[id];
         p.status.Destroying? && p.updatedAt < s.clock - RETRY_MS && t == Put(s, id, p.(status := Approved))
  }

  /** Reads a policy that looks approved, with the files of its document. */
  ghost predicate Scan(s: State, t: State, e: Event) {
    exists id: PolicyId ::
      && id in s.policies && e == Silent
      && var p := s.policies[id];
         && p.status.Approved? && !p.legalHold
         && var files := FilesOf(s.versions, p.documentId);
            t == s.(workers := s.workers + [Scanned(id, p.documentId, files, s.purged * files)])
  }

  /** `updateMany` on a policy that is still approved and free of a hold. */
  ghost predicate TakeClaim(s: State, t: State, i: nat)
    requires i < |s.workers|
  {
    var w := s.workers[i];
    && w.Scanned?
    && if w.policy in s.policies && s.policies[w.policy].status.Approved? && !s.policies[w.policy].legalHold then
         var p := s.policies[w.policy];
         t == Put(s, w.policy, p.(status := Destroying)).
                (workers := s.workers[i := Claimed(Claim(w.policy, |s.history|, p, s.clock), w.document, w.files, w.purged)],
                 claims := s.claims + [p])
       else
         t == s.(workers := s.workers[i := Finished])
  }

  /** Looks up which of the files other documents use, and keeps those. */
  ghost predicate FindShared(s: State, t: State, i: nat)
    requires i < |s.workers|
  {
    var w := s.workers[i];
    && w.Claimed?
    && var keep := SharedFiles(s.versions, w.document) * w.files;
       t == s.(workers := s.workers[i := Removing(w.claim, w.document, w.files, w.purged, keep, w.files - keep - w.purged)])
  }

  ghost predicate RemoveObject(s: State, t: State, i: nat)
    requires i < |s.workers|
  {
    var w := s.workers[i];
    && w.Removing?
    && exists f :: f in w.todo
                   && t == s.(workers := s.workers[i := w.(todo := w.todo - {f})], removed := s.removed[f := w.document])
  }

  /** The closing transaction: it writes DESTROYED whatever the policy has become meanwhile. */
  ghost predicate Finalise(s: State, t: State, i: nat)
    requires i < |s.workers|
  {
    var w := s.workers[i];
    && w.Removing? && w.todo == {} && w.claim.policy in s.policies
    && t == Put(s, w.claim.policy, s.policies[w.claim.policy].(status := Destroyed)).
              (workers := s.workers[i := Finished], purged := s.purged + (w.files - w.keep), destroyed := s.destroyed + {w.document})
  }

  ghost predicate Crash(s: State, t: State, i: nat)
    requires i < |s.workers|
  {
    t == s.(workers := s.workers[i := Finished])
  }

  // ----- The environment -----

  /** Uploads and watermarks bring new files; a restoration reuses a file of the same document. */
  ghost predicate AddVersion(s: State, t: State, e: Event) {
    && e == Silent
    && exists v :: && (forall f :: f in References(v) ==> f !in s.files || f in FilesOf(s.versions, v.documentId))
                   && t == s.(versions := s.versions + {v}, files := s.files + References(v))
  }

  ghost predicate Tick(s: State, t: State, e: Event) {
    e == Silent && exists now :: now >= s.clock && t == s.(clock := now)
  }

  ghost predicate WorkerStep(s: State, t: State, e: Event, i: nat) {
    && i < |s.workers| && e == Silent
    && (TakeClaim(s, t, i) || FindShared(s, t, i) || RemoveObject(s, t, i) || Finalise(s, t, i) || Crash(s, t, i))
  }

  /** A step that writes policies or decisions, and leaves workers and files alone. */
  ghost predicate HandlerStep(s: State, t: State, e: Event) {
    || Save(s, t, e) || ReadDecision(s, t, e) || (exists i: nat :: WriteDecision(s, t, e, i))
    || FlagDue(s, t, e) || Recover(s, t, e)
  }

  ghost predicate Moves(s: State, t: State, e: Event) {
    || HandlerStep(s, t, e) || Scan(s, t, e) || AddVersion(s, t, e) || Tick(s, t, e)
    || exists i: nat :: WorkerStep(s, t, e, i)
  }

  /** A move, entered into the history. */
  ghost predicate Step(s: State, t: State) {
    exists u, e :: Moves(s, u, e) && t == Entered(u, e)
  }

  function Entered(s: State, e: Event): State {
    s.(history := s.history + [e])
  }

  ghost predicate IsRun(states: seq<State>) {
    && states != []
    && states[0] == State(states[0].clock, map[], states[0].versions, states[0].files, states[0].purged, {}, [], [], [], map[], [])
    && (forall v :: v in states[0].versions ==> References(v) <= states[0].files)
    && forall k :: 0 < k < |states| ==> Step(states[k - 1], states[k])
  }

  // ----- What a stretch of history leaves of a policy -----

  /** What a write does to the requester of this policy: a request names one, a hold clears it. */
  function RequesterSet(e: Event, id: PolicyId): Option<Option<Person>> {
    match e
    case Saved(policy, hold) => if policy == id && hold then Some(None) else None
    case Decided(policy, kind, person, _, _) => if policy == id && kind.ToRequest? then Some(Some(person)) else None
    case Silent => None
  }

  function HoldSet(e: Event, id: PolicyId): Option<bool> {
    if e.Saved? && e.policy == id then Some(e.hold) else None
  }

  /** The last write to the requester. */
  function LastRequester(h: seq<Event>, id: PolicyId): Option<Option<Person>> {
    if h == [] then None
    else
      var last := RequesterSet(h[|h| - 1], id);
      if last.Some? then last else LastRequester(h[..|h| - 1], id)
  }

  /** The last hold that was set or lifted. */
  function LastHold(h: seq<Event>, id: PolicyId): Option<bool> {
    if h == [] then None
    else
      var last := HoldSet(h[|h| - 1], id);
      if last.Some? then last else LastHold(h[..|h| - 1], id)
  }

  /** A rule was saved for the policy, or it was decided on although the check no longer held. */
  predicate Disturbs(e: Event, id: PolicyId) {
    (e.Saved? && e.policy == id) || (e.Decided? && e.policy == id && !e.current)
  }

  predicate Undisturbed(h: seq<Event>, id: PolicyId) {
    forall e :: e in h ==> !Disturbs(e, id)
  }

  /** An approval by this person still meets the requester it checked, or a later one who is somebody else. */
  predicate StillApprovable(h: seq<Event>, id: PolicyId, person: Person) {
    match LastRequester(h, id)
    case None => true
    case Some(requester) => requester.Some? && requester != Some(person)
  }

  /** Every approval in the history was still approvable when it was written. */
  ghost predicate FreshApprovals(h: seq<Event>) {
    h == []
    || (var front, last := h[..|h| - 1], h[|h| - 1];
        FreshApprovals(front)
        && (last.Decided? && last.kind.ToApprove? && last.at <= |front| ==>
              StillApprovable(front[last.at..], last.policy, last.person)))
  }

  lemma {:induction false} WindowGrows(h: seq<Event>, at: nat, e: Event)
    requires at <= |h|
    ensures (h + [e])[at..] == h[at..] + [e]
  {
  }

  lemma {:induction false} Snoc(h: seq<Event>, e: Event, id: PolicyId)
    ensures LastRequester(h + [e], id) == if RequesterSet(e, id).Some? then RequesterSet(e, id) else LastRequester(h, id)
    ensures LastHold(h + [e], id) == if HoldSet(e, id).Some? then HoldSet(e, id) else LastHold(h, id)
    ensures Undisturbed(h + [e], id) <==> Undisturbed(h, id) && !Disturbs(e, id)
  {
    assert (h + [e])[..|h|] == h;
  }

  // ----- One step, seen from the policies -----

  /** A policy whose destruction is under way, or done. */
  predicate Closing(p: Policy) {
    !p.legalHold && (p.status.Approved? || p.status.Destroying? || p.status.Destroyed?)
  }

  /** What one event says about the policy it is written to, and about any other. */
  ghost predicate Tracks(p: Policy, q: Policy, e: Event, id: PolicyId, now: int) {
    && q.requestedBy == (if RequesterSet(e, id).Some? then RequesterSet(e, id).value else p.requestedBy)
    && q.legalHold == (if HoldSet(e, id).Some? then HoldSet(e, id).value else p.legalHold)
    && (Closing(p) && !Disturbs(e, id) ==> Closing(q) && q.requestedBy == p.requestedBy && q.approvedBy == p.approvedBy)
    && (q.updatedAt == p.updatedAt || q.updatedAt == now)
    && (Closing(p) && !Disturbs(e, id) && q.status.Approved? ==> p.status.Approved? || p.updatedAt < now - RETRY_MS)
  }

  ghost predicate AllTrack(s: State, t: State, e: Event) {
    && t.history == s.history
    && forall id :: id in s.policies ==> id in t.policies && Tracks(s.policies[id], t.policies[id], e, id, s.clock)
  }

  /** What saving leaves of every policy; nothing else changes. */
  lemma {:induction false} SaveEffects(s: State, t: State, e: Event)
    requires Save(s, t, e)
    ensures t == s.(policies := t.policies) && AllTrack(s, t, e)
    ensures forall id :: id in t.policies && !t.policies[id].status.Idle? ==>
                           && id in s.policies && t.policies[id].status == s.policies[id].status
                           && t.policies[id].requestedBy == s.policies[id].requestedBy
                           && t.policies[id].approvedBy == s.policies[id].approvedBy
  {
    var id: PolicyId, d: DocumentId, hold: bool, until: Option<int> :| SaveOn(s, t, id, d, hold, until) && e == Saved(id, hold);
  }

  /** No handler and no scan touches files, objects, claims or another worker. */
  lemma {:induction false} OthersFrame(s: State, t: State, e: Event)
    requires HandlerStep(s, t, e) || Scan(s, t, e) || Tick(s, t, e)
    ensures t.versions == s.versions && t.files == s.files && t.removed == s.removed && t.claims == s.claims
    ensures t.workers == s.workers || Scan(s, t, e)
  {
    if Save(s, t, e) {
      SaveEffects(s, t, e);
    }
  }

  lemma {:induction false} WriteTracks(s: State, t: State, e: Event, i: nat)
    requires WriteDecision(s, t, e, i)
    ensures AllTrack(s, t, e)
  {
  }

  lemma {:induction false} WorkerTracks(s: State, t: State, e: Event, i: nat)
    requires WorkerStep(s, t, e, i)
    ensures AllTrack(s, t, e)
  {
  }

  lemma {:induction false} MovesTrack(s: State, t: State, e: Event)
    requires Moves(s, t, e)
    ensures AllTrack(s, t, e)
  {
    if Save(s, t, e) {
      SaveEffects(s, t, e);
    } else if i: nat :| WriteDecision(s, t, e, i) {
      WriteTracks(s, t, e, i);
    } else if i: nat :| WorkerStep(s, t, e, i) {
      WorkerTracks(s, t, e, i);
    }
  }

  // ----- Decisions -----

  /** On what a decision was taken: no hold, and a retention that had ended, or a pending request. */
  ghost predicate WasAllowed(kind: Kind, read: Policy, now: int) {
    && read.legalHold == false
    && (kind == ToRequest ==>
          && read.status in {Idle, Due, Requested, Status.Rejected}
          && forall until :: read.retentionUntil == Some(until) ==> until <= now)
    && (kind != ToRequest ==> read.status == Requested)
  }

  /** A decision passes its checks exactly when it is allowed and, for an approval, somebody else requested it. */
  lemma {:induction false} PassesExactly(kind: Kind, p: Policy, person: Person, now: int)
    ensures Passes(kind, p, person, now) <==> WasAllowed(kind, p, now) && (kind == ToApprove ==> p.requestedBy != Some(person))
  {
    if p.retentionUntil.Some? {
      assert p.retentionUntil == Some(p.retentionUntil.value);
    }
  }

  ghost predicate DecisionOk(s: State, d: Decision) {
    d.Reading? ==>
      && d.policy in s.policies && d.at <= |s.history|
      && (d.kind.ToApprove? ==> d.read.requestedBy.Some? && d.read.requestedBy != Some(d.person))
      && WasAllowed(d.kind, d.read, s.clock)
      && s.policies[d.policy].requestedBy ==
         match LastRequester(s.history[d.at..], d.policy) { case None => d.read.requestedBy case Some(requester) => requester }
  }

  ghost predicate DecisionInv(s: State) {
    && (forall id :: id in s.policies && s.policies[id].status.Requested? ==> s.policies[id].requestedBy.Some?)
    && forall i :: 0 <= i < |s.decisions| ==> DecisionOk(s, s.decisions[i])
  }

  lemma {:induction false} DecisionStays(
    s: State, u: State, t: State, e: Event, d: Decision)
    requires DecisionOk(s, d) && AllTrack(s, u, e) && t == Entered(u, e) && s.clock <= t.clock
    ensures DecisionOk(t, d)
  {
    if d.Reading? {
      WindowGrows(s.history, d.at, e);
      Snoc(s.history[d.at..], e, d.policy);
    }
  }

  /** A decision that was just read. */
  lemma {:induction false} DecisionBegins(s: State, d: Decision)
    requires DecisionInv(s) && d.Reading? && d.policy in s.policies && d.read == s.policies[d.policy] && d.at == |s.history|
    requires Passes(d.kind, d.read, d.person, s.clock)
    ensures DecisionOk(s, d)
  {
    assert s.history[d.at..] == [];
  }

  lemma {:induction false} RequestersNamed(s: State, t: State, e: Event)
    requires DecisionInv(s) && Moves(s, t, e)
    ensures forall id :: id in t.policies && t.policies[id].status.Requested? ==> t.policies[id].requestedBy.Some?
  {
    if Save(s, t, e) {
      SaveEffects(s, t, e);
    }
  }

  lemma {:induction false} DecisionsMove(s: State, t: State, e: Event)
    requires Moves(s, t, e)
    ensures t.decisions == s.decisions || ReadDecision(s, t, e) || exists i: nat :: WriteDecision(s, t, e, i)
  {
    if Save(s, t, e) {
      SaveEffects(s, t, e);
    }
  }

  lemma {:induction false} ClockAdvances(s: State, t: State, e: Event)
    requires Moves(s, t, e)
    ensures s.clock <= t.clock
  {
    if Save(s, t, e) {
      SaveEffects(s, t, e);
    }
  }

  lemma {:induction false} DecisionsKeep(s: State, u: State, e: Event)
    requires DecisionInv(s) && Moves(s, u, e)
    ensures DecisionInv(Entered(u, e))
  {
    var t := Entered(u, e);
    MovesTrack(s, u, e);
    ClockAdvances(s, u, e);
    DecisionsMove(s, u, e);
    RequestersNamed(s, u, e);
    forall i | 0 <= i < |t.decisions|
      ensures DecisionOk(t, t.decisions[i])
    {
      if i < |s.decisions| && t.decisions[i] == s.decisions[i] {
        DecisionStays(s, u, t, e, s.decisions[i]);
      } else if t.decisions[i].Reading? {
        assert ReadDecision(s, u, e);
        DecisionBegins(s, t.decisions[i]);
        DecisionStays(s, u, t, e, t.decisions[i]);
      }
    }
  }

  // ----- Two people -----

  /** An approved or running destruction names two different people. */
  ghost predicate TwoPeople(p: Policy) {
    p.status.Approved? || p.status.Destroying? ==>
      p.requestedBy.Some? && p.approvedBy.Some? && p.requestedBy != p.approvedBy
  }

  ghost predicate AllTwoPeople(s: State) {
    forall id :: id in s.policies ==> TwoPeople(s.policies[id])
  }

  /** An approval is written to a policy of two people exactly when it was still approvable. */
  lemma {:induction false} ApprovalWritten(s: State, i: nat)
    requires DecisionInv(s) && i < |s.decisions| && s.decisions[i].Reading? && s.decisions[i].kind.ToApprove?
    ensures var d := s.decisions[i];
            && d.at <= |s.history| && d.policy in s.policies
            && (TwoPeople(Applied(ToApprove, s.policies[d.policy], d.person))
                <==> StillApprovable(s.history[d.at..], d.policy, d.person))
  {
    assert DecisionOk(s, s.decisions[i]);
  }

  ghost predicate IsApproval(e: Event) {
    e.Decided? && e.kind.ToApprove?
  }

  lemma {:induction false} OtherMovesKeepTwo(s: State, t: State, e: Event)
    requires Moves(s, t, e) && AllTwoPeople(s) && !IsApproval(e)
    ensures AllTwoPeople(t)
  {
    if Save(s, t, e) {
      SaveEffects(s, t, e);
    } else if i: nat :| WriteDecision(s, t, e, i) {
      WriteKeepsTwo(s, t, e, i);
    } else if i: nat :| WorkerStep(s, t, e, i) {
      WorkerKeepsTwo(s, t, e, i);
    }
  }

  lemma {:induction false} WriteKeepsTwo(s: State, t: State, e: Event, i: nat)
    requires WriteDecision(s, t, e, i) && AllTwoPeople(s) && !IsApproval(e)
    ensures AllTwoPeople(t)
  {
  }

  lemma {:induction false} WorkerKeepsTwo(s: State, t: State, e: Event, i: nat)
    requires WorkerStep(s, t, e, i) && AllTwoPeople(s)
    ensures AllTwoPeople(t)
  {
  }

  lemma {:induction false} ApprovalMoves(s: State, t: State, e: Event) returns (i: nat)
    requires Moves(s, t, e) && IsApproval(e)
    ensures WriteDecision(s, t, e, i)
  {
    i :| WriteDecision(s, t, e, i);
  }

  lemma {:induction false} StepKeepsTwoExactly(s: State, u: State, e: Event)
    requires DecisionInv(s) && Moves(s, u, e) && AllTwoPeople(s)
    ensures AllTwoPeople(u) <==>
            (IsApproval(e) && e.at <= |s.history| ==> StillApprovable(s.history[e.at..], e.policy, e.person))
  {
    if IsApproval(e) {
      var i := ApprovalMoves(s, u, e);
      ApprovalWritten(s, i);
      var id := s.decisions[i].policy;
      assert TwoPeople(u.policies[id]) <==> TwoPeople(Applied(ToApprove, s.policies[id], e.person));
      assert forall other :: other in u.policies && other != id ==> other in s.policies && u.policies[other] == s.policies[other];
    } else {
      OtherMovesKeepTwo(s, u, e);
    }
  }

  // ----- Workers -----

  /** What a worker may rely on about the policy it claimed. */
  ghost predicate ClaimOk(s: State, c: Claim) {
    && c.policy in s.policies && c.at <= |s.history|
    && c.terms.status.Approved? && !c.terms.legalHold
    && var p, window := s.policies[c.policy], s.history[c.at..];
       && (p.legalHold <==> LastHold(window, c.policy) == Some(true))
       && (Undisturbed(window, c.policy) ==>
             Closing(p) && p.requestedBy == c.terms.requestedBy && p.approvedBy == c.terms.approvedBy)
       && c.since <= p.updatedAt && c.since <= s.clock
       && (Undisturbed(window, c.policy) && p.status.Approved? ==> c.since < s.clock - RETRY_MS)
  }

  lemma {:induction false} ClaimStays(s: State, u: State, t: State, e: Event, c: Claim)
    requires ClaimOk(s, c) && AllTrack(s, u, e) && t == Entered(u, e) && s.clock <= t.clock
    ensures ClaimOk(t, c)
  {
    WindowGrows(s.history, c.at, e);
    Snoc(s.history[c.at..], e, c.policy);
  }

  lemma {:induction false} ClaimBegins(s: State, u: State, t: State, i: nat)
    requires i < |s.workers| && TakeClaim(s, u, i) && HasClaim(u.workers[i]) && t == Entered(u, Silent)
    ensures ClaimOk(t, u.workers[i].claim)
  {
    assert t.history[|s.history|..] == [Silent];
    assert LastHold([Silent], u.workers[i].claim.policy) == None by {
      Snoc([], Silent, u.workers[i].claim.policy);
      assert [] + [Silent] == [Silent];
    }
  }

  /** Only versions of this document use the file. */
  ghost predicate UsedOnlyBy(versions: set<Version>, f: FileId, d: DocumentId) {
    forall v :: v in versions && f in References(v) ==> v.documentId == d
  }

  ghost predicate FilesKnown(s: State, w: Worker) {
    match w
    case Finished => true
    case Scanned(_, _, files, _) => files <= s.files
    case Claimed(_, _, files, _) => files <= s.files
    case Removing(_, document, files, purged, keep, todo) =>
      && files <= s.files && todo <= files
      && (forall f :: f in todo ==> UsedOnlyBy(s.versions, f, document))
      && (forall f :: f in files ==> f in purged || f in todo || f in s.removed || UsedElsewhere(s.versions, f, document))
  }

  /** A version of another document uses the file. */
  ghost predicate UsedElsewhere(versions: set<Version>, f: FileId, d: DocumentId) {
    exists v :: v in versions && v.documentId != d && f in References(v)
  }

  ghost predicate FilesInv(s: State) {
    && (forall v :: v in s.versions ==> References(v) <= s.files)
    && (forall i :: 0 <= i < |s.workers| ==> FilesKnown(s, s.workers[i]))
    && (forall f :: f in s.removed ==> f in s.files && UsedOnlyBy(s.versions, f, s.removed[f]))
  }

  lemma {:induction false} StillOnlyUser(s: State, v: Version, f: FileId, d: DocumentId)
    requires UsedOnlyBy(s.versions, f, d) && f in s.files
    requires forall g :: g in References(v) ==> g !in s.files || g in FilesOf(s.versions, v.documentId)
    ensures UsedOnlyBy(s.versions + {v}, f, d)
  {
  }

  lemma {:induction false} AddVersionKeeps(s: State, t: State, e: Event)
    requires FilesInv(s) && AddVersion(s, t, e)
    ensures FilesInv(t)
  {
    var v :| && (forall f :: f in References(v) ==> f !in s.files || f in FilesOf(s.versions, v.documentId))
             && t == s.(versions := s.versions + {v}, files := s.files + References(v));
    forall j | 0 <= j < |t.workers|
      ensures FilesKnown(t, t.workers[j])
    {
      var w := s.workers[j];
      assert FilesKnown(s, w);
      if w.Removing? {
        forall f | f in w.todo
          ensures UsedOnlyBy(t.versions, f, w.document)
        {
          StillOnlyUser(s, v, f, w.document);
        }
      }
    }
    forall f | f in t.removed
      ensures UsedOnlyBy(t.versions, f, t.removed[f])
    {
      StillOnlyUser(s, v, f, s.removed[f]);
    }
  }

  lemma {:induction false} WorkerFiles(s: State, t: State, e: Event, i: nat)
    requires FilesInv(s) && WorkerStep(s, t, e, i)
    ensures FilesInv(t)
  {
    assert FilesKnown(s, s.workers[i]);
    forall j | 0 <= j < |t.workers|
      ensures FilesKnown(t, t.workers[j])
    {
      assert FilesKnown(s, s.workers[j]);
    }
  }

  lemma {:induction false} FilesKeep(s: State, t: State, e: Event)
    requires FilesInv(s) && Moves(s, t, e)
    ensures FilesInv(t)
  {
    if AddVersion(s, t, e) {
      AddVersionKeeps(s, t, e);
    } else if i: nat :| WorkerStep(s, t, e, i) {
      WorkerFiles(s, t, e, i);
    } else {
      OthersFrame(s, t, e);
      forall j | 0 <= j < |t.workers|
        ensures FilesKnown(t, t.workers[j])
      {
        if j < |s.workers| {
          assert FilesKnown(s, s.workers[j]);
        }
      }
    }
  }

  ghost predicate HasClaim(w: Worker) {
    w.Claimed? || w.Removing?
  }

  ghost predicate ClaimInv(s: State) {
    && (forall i :: 0 <= i < |s.workers| && HasClaim(s.workers[i]) ==>
          ClaimOk(s, s.workers[i].claim) && s.workers[i].claim.terms in s.claims)
    && (forall p :: p in s.claims ==> p.status.Approved? && !p.legalHold)
  }

  /** A claim held after a move was held before it, or was made by it. */
  lemma {:induction false} ClaimsMove(
    s: State, t: State, e: Event, j: nat)
    returns (held: bool)
    requires Moves(s, t, e) && j < |t.workers| && HasClaim(t.workers[j])
    ensures held ==> j < |s.workers| && HasClaim(s.workers[j]) && t.workers[j].claim == s.workers[j].claim && s.claims <= t.claims
    ensures !held ==> j < |s.workers| && TakeClaim(s, t, j) && e == Silent && t.claims == s.claims + [t.workers[j].claim.terms]
  {
    held := j < |s.workers| && HasClaim(s.workers[j]);
    if i: nat :| WorkerStep(s, t, e, i) {
      WorkerClaims(s, t, e, i, j);
    } else if !AddVersion(s, t, e) {
      OthersFrame(s, t, e);
    }
  }

  lemma {:induction false} WorkerClaims(s: State, t: State, e: Event, i: nat, j: nat)
    requires WorkerStep(s, t, e, i) && j < |t.workers| && HasClaim(t.workers[j])
    ensures j < |s.workers|
    ensures HasClaim(s.workers[j]) ==> t.workers[j].claim == s.workers[j].claim && s.claims <= t.claims
    ensures !HasClaim(s.workers[j]) ==> i == j && TakeClaim(s, t, i) && t.claims == s.claims + [t.workers[j].claim.terms]
  {
    assert i != j ==> t.workers[j] == s.workers[j];
  }

  lemma {:induction false} ClaimListMoves(s: State, t: State, e: Event)
    requires ClaimInv(s) && Moves(s, t, e)
    ensures forall p :: p in t.claims ==> p.status.Approved? && !p.legalHold
  {
    if i: nat :| WorkerStep(s, t, e, i) {
      assert TakeClaim(s, t, i) || t.claims == s.claims;
    } else if !AddVersion(s, t, e) {
      OthersFrame(s, t, e);
    }
  }

  lemma {:induction false} ClaimsKeep(s: State, u: State, e: Event)
    requires ClaimInv(s) && Moves(s, u, e)
    ensures ClaimInv(Entered(u, e))
  {
    var t := Entered(u, e);
    MovesTrack(s, u, e);
    ClockAdvances(s, u, e);
    ClaimListMoves(s, u, e);
    forall j | 0 <= j < |t.workers| && HasClaim(t.workers[j])
      ensures ClaimOk(t, t.workers[j].claim) && t.workers[j].claim.terms in t.claims
    {
      var before := ClaimsMove(s, u, e, j);
      if before {
        ClaimStays(s, u, t, e, t.workers[j].claim);
      } else {
        ClaimBegins(s, u, t, j);
      }
    }
  }

  // ----- Runs -----

  ghost predicate Inv(s: State) {
    DecisionInv(s) && FilesInv(s) && ClaimInv(s)
  }

  lemma {:induction false} StepKeeps(s: State, t: State)
    requires Inv(s) && Step(s, t)
    ensures Inv(t)
  {
    var u, e :| Moves(s, u, e) && t == Entered(u, e);
    DecisionsKeep(s, u, e);
    ClaimsKeep(s, u, e);
    FilesKeep(s, u, e);
    assert forall j :: 0 <= j < |t.workers| ==> FilesKnown(u, t.workers[j]);
  }

  lemma {:induction false} RunKeeps(states: seq<State>, k: nat)
    requires IsRun(states) && k < |states|
    ensures Inv(states[k])
  {
    if k > 0 {
      RunKeeps(states, k - 1);
      StepKeeps(states[k - 1], states[k]);
    }
  }

  /**
   A run names two people in every approved or running destruction exactly when no approval in it
   was overtaken: between its read and its write the requester was not replaced, or was replaced
   last by a request of somebody else; not by a request of the approver nor by a hold.
   */
  lemma {:induction false} TwoPeopleExactly(states: seq<State>, k: nat)
    requires IsRun(states) && k < |states|
    ensures TwoPeopleUntil(states, k) <==> FreshApprovals(states[k].history)
  {
    if k == 0 {
      NothingYet(states);
    } else {
      TwoPeopleExactly(states, k - 1);
      OneMoreState(states, k);
    }
  }

  lemma {:induction false} NothingYet(states: seq<State>)
    requires IsRun(states)
    ensures TwoPeopleUntil(states, 0) && FreshApprovals(states[0].history)
  {
  }

  lemma {:induction false} OneMoreState(states: seq<State>, k: nat)
    requires IsRun(states) && 0 < k < |states|
    ensures TwoPeopleUntil(states, k) <==> TwoPeopleUntil(states, k - 1) && AllTwoPeople(states[k])
    ensures FreshApprovals(states[k].history) ==> FreshApprovals(states[k - 1].history)
    ensures AllTwoPeople(states[k - 1]) && FreshApprovals(states[k - 1].history) ==>
              (AllTwoPeople(states[k]) <==> FreshApprovals(states[k].history))
  {
    RunKeeps(states, k - 1);
    UntilSnoc(states, k);
    var s, t := states[k - 1], states[k];
    assert DecisionInv(s) && Step(s, t);
    StepStaysFreshExactly(s, t);
  }

  lemma {:induction false} UntilSnoc(states: seq<State>, k: nat)
    requires 0 < k < |states|
    ensures TwoPeopleUntil(states, k) <==> TwoPeopleUntil(states, k - 1) && AllTwoPeople(states[k])
  {
  }

  ghost predicate TwoPeopleUntil(states: seq<State>, k: nat)
    requires k < |states|
  {
    forall j :: 0 <= j <= k ==> AllTwoPeople(states[j])
  }

  lemma {:induction false} StepStaysFreshExactly(s: State, t: State)
    requires DecisionInv(s) && Step(s, t)
    ensures FreshApprovals(t.history) ==> FreshApprovals(s.history)
    ensures AllTwoPeople(s) && FreshApprovals(s.history) ==> (AllTwoPeople(t) <==> FreshApprovals(t.history))
  {
    var u, e :| Moves(s, u, e) && t == Entered(u, e);
    MovesTrack(s, u, e);
    assert t.history[..|t.history| - 1] == s.history && t.history[|t.history| - 1] == e;
    if AllTwoPeople(s) {
      StepKeepsTwoExactly(s, u, e);
    }
  }

  /** One decision, read and written without anything in between. */
  lemma {:induction false} DecideAtOnce(
    s: State, id: PolicyId, person: Person, kind: Kind)
    returns (t: State, u: State)
    requires id in s.policies && Passes(kind, s.policies[id], person, s.clock)
    ensures Step(s, t) && Step(t, u)
    ensures u.policies == s.policies[id := Applied(kind, s.policies[id], person).(updatedAt := s.clock)] && u.clock == s.clock
    ensures |u.decisions| == |s.decisions| + 1 && forall i :: 0 <= i < |s.decisions| ==> u.decisions[i] == s.decisions[i]
  {
    var i := |s.decisions|;
    var read := s.(decisions := s.decisions + [Reading(id, person, kind, s.policies[id], |s.history|)]);
    t := Entered(read, Silent);
    assert ReadDecision(s, read, Silent);
    assert Moves(s, read, Silent);
    var e := Decided(id, kind, person, |s.history|, Passes(kind, t.policies[id], person, t.clock));
    var written := Put(t, id, Applied(kind, t.policies[id], person)).(decisions := t.decisions[i := Over]);
    u := Entered(written, e);
    assert WriteDecision(t, written, e, i);
    assert Moves(t, written, e);
  }

  /**
   From any state in which somebody may approve and may request, an approval that he overtakes by
   his own request leaves an approved policy that names one person twice.
   */
  lemma {:induction false} OvertakenApproval(
    s: State, id: PolicyId, person: Person)
    returns (a: State, b: State, c: State, d: State)
    requires id in s.policies && Passes(ToApprove, s.policies[id], person, s.clock) && Passes(ToRequest, s.policies[id], person, s.clock)
    ensures Step(s, a) && Step(a, b) && Step(b, c) && Step(c, d)
    ensures id in d.policies && d.policies[id].status == Approved && d.policies[id].requestedBy == d.policies[id].approvedBy == Some(person)
  {
    var i := |s.decisions|;
    var read := s.(decisions := s.decisions + [Reading(id, person, ToApprove, s.policies[id], |s.history|)]);
    a := Entered(read, Silent);
    assert ReadDecision(s, read, Silent);
    assert Moves(s, read, Silent);
    b, c := DecideAtOnce(a, id, person, ToRequest);
    var e := Decided(id, ToApprove, person, |s.history|, Passes(ToApprove, c.policies[id], person, c.clock));
    var written := Put(c, id, Applied(ToApprove, c.policies[id], person)).(decisions := c.decisions[i := Over]);
    d := Entered(written, e);
    assert c.decisions[i] == a.decisions[i];
    assert WriteDecision(c, written, e, i);
    assert Moves(c, written, e);
  }

  lemma {:induction false} RunSnoc(states: seq<State>, t: State)
    requires IsRun(states) && Step(states[|states| - 1], t)
    ensures IsRun(states + [t])
  {
    var more := states + [t];
    forall k | 0 < k < |more|
      ensures Step(more[k - 1], more[k])
    {
      assert k < |states| ==> Step(states[k - 1], states[k]);
    }
  }

  /** A run that ends so: a rule, a request by one person, and an overtaken approval by another. */
  lemma {:induction false} OvertakenRun() returns (states: seq<State>)
    ensures IsRun(states) && !AllTwoPeople(states[|states| - 1])
  {
    var s := State(1, map[], {}, {}, {}, {}, [], [], [], map[], []);
    states := [s];
    var rule := Policy(0, false, Some(0), Idle, None, None, 1);
    var u := Put(s, 0, rule);
    assert SaveOn(s, u, 0, 0, false, Some(0));
    var saved := Entered(u, Saved(0, false));
    assert Moves(s, u, Saved(0, false));
    RunSnoc(states, saved);
    states := states + [saved];
    var read, requested := DecideAtOnce(saved, 0, "a", ToRequest);
    RunSnoc(states, read);
    RunSnoc(states + [read], requested);
    states := states + [read] + [requested];
    var a, b, c, d := OvertakenApproval(requested, 0, "b");
    RunSnoc(states, a);
    RunSnoc(states + [a], b);
    RunSnoc(states + [a] + [b], c);
    RunSnoc(states + [a] + [b] + [c], d);
    states := states + [a] + [b] + [c] + [d];
    assert !TwoPeople(d.policies[0]);
  }

  ghost predicate ApprovalsCurrent(h: seq<Event>) {
    forall e :: e in h && IsApproval(e) ==> e.current
  }

  ghost predicate FreshIfCurrent(s: State) {
    ApprovalsCurrent(s.history) ==> FreshApprovals(s.history)
  }

  lemma {:induction false} StepStaysFreshIfCurrent(s: State, t: State)
    requires DecisionInv(s) && Step(s, t) && FreshIfCurrent(s)
    ensures FreshIfCurrent(t)
  {
    var u, e :| Moves(s, u, e) && t == Entered(u, e);
    MovesTrack(s, u, e);
    assert t.history[..|t.history| - 1] == s.history && t.history[|t.history| - 1] == e;
    if ApprovalsCurrent(t.history) {
      assert ApprovalsCurrent(s.history) && e in t.history;
      if IsApproval(e) {
        var i := ApprovalMoves(s, u, e);
        ApprovalWritten(s, i);
      }
    }
  }

  lemma {:induction false} StepAt(states: seq<State>, k: nat)
    requires IsRun(states) && 0 < k < |states|
    ensures Step(states[k - 1], states[k]) && DecisionInv(states[k - 1])
  {
    RunKeeps(states, k - 1);
  }

  lemma {:induction false} CurrentIsFresh(states: seq<State>, k: nat)
    requires IsRun(states) && k < |states|
    ensures FreshIfCurrent(states[k])
  {
    if k == 0 {
      NothingYet(states);
    } else {
      CurrentIsFresh(states, k - 1);
      StepAt(states, k);
      StepStaysFreshIfCurrent(states[k - 1], states[k]);
    }
  }

  /** Handlers that do not interleave, so that each check still holds at the write, always name two people. */
  lemma {:induction false} AtomicHandlersNameTwo(states: seq<State>, k: nat)
    requires IsRun(states) && k < |states| && ApprovalsCurrent(states[k].history)
    ensures TwoPeopleUntil(states, k) && FreshApprovals(states[k].history)
  {
    CurrentIsFresh(states, k);
    TwoPeopleExactly(states, k);
  }

  /**
   In every interleaving, no decision is taken under a hold, destruction is requested only after
   the retention has ended, and approved or rejected only on a request.
   */
  lemma {:induction false} DecisionsWereAllowed(states: seq<State>, k: nat, i: nat)
    requires IsRun(states) && k < |states| && i < |states[k].decisions| && states[k].decisions[i].Reading?
    ensures WasAllowed(states[k].decisions[i].kind, states[k].decisions[i].read, states[k].clock)
  {
    RunKeeps(states, k);
    assert DecisionOk(states[k], states[k].decisions[i]);
  }

  /**
   In every interleaving, with any crashes and retries: every claim was made on an approved policy
   while no legal hold was on it, on two people unless an approval had been overtaken, and no
   removed object is referenced by a version of a document other than the destroyed one.
   */
  lemma {:induction false} DestructionIsSafe(states: seq<State>, k: nat)
    requires IsRun(states) && k < |states|
    ensures var s := states[k];
            && (forall p :: p in s.claims ==> p.status.Approved? && !p.legalHold)
            && (FreshApprovals(s.history) ==> forall p :: p in s.claims ==> TwoPeople(p))
            && (forall f, v :: f in s.removed && v in s.versions && f in References(v) ==> v.documentId == s.removed[f])
  {
    RunKeeps(states, k);
    if FreshApprovals(states[k].history) {
      TwoPeopleExactly(states, k);
      ClaimsNameTwo(states, k);
    }
  }

  lemma {:induction false} NewClaim(s: State, t: State, p: Policy)
    requires Step(s, t) && AllTwoPeople(s) && p in t.claims && p !in s.claims
    ensures TwoPeople(p)
  {
    var u, e :| Moves(s, u, e) && t == Entered(u, e);
    if i: nat :| WorkerStep(s, u, e, i) {
      assert p in u.claims && (TakeClaim(s, u, i) || u.claims == s.claims);
    } else if !AddVersion(s, u, e) {
      OthersFrame(s, u, e);
    }
  }

  lemma {:induction false} ClaimsNameTwo(states: seq<State>, k: nat)
    requires IsRun(states) && k < |states| && TwoPeopleUntil(states, k)
    ensures forall p :: p in states[k].claims ==> TwoPeople(p)
  {
    if k > 0 {
      ClaimsNameTwo(states, k - 1);
      forall p | p in states[k].claims
        ensures TwoPeople(p)
      {
        if p !in states[k - 1].claims {
          NewClaim(states[k - 1], states[k], p);
        }
      }
    }
  }

  /** A scan sees the stored and the distributed file of every version of the document. */
  lemma {:induction false} ScanSeesAll(s: State, t: State, v: Version)
    requires Scan(s, t, Silent) && v in s.versions && v.documentId == t.workers[|t.workers| - 1].document
    ensures |t.workers| == |s.workers| + 1 && t.workers[|s.workers|].Scanned?
    ensures v.file in t.workers[|s.workers|].files
    ensures v.distributed.Some? ==> v.distributed.value in t.workers[|s.workers|].files
    ensures t.workers[|s.workers|].purged <= s.purged
  {
    assert v.file in References(v);
  }

  /**
   A destruction that closes is complete: every file the worker saw has been removed, unless it had
   been purged before or a version of another document uses it.
   */
  lemma {:induction false} DestructionIsComplete(states: seq<State>, k: nat, i: nat, t: State, f: FileId)
    requires IsRun(states) && k < |states| && i < |states[k].workers| && Finalise(states[k], t, i)
    requires f in states[k].workers[i].files
    ensures f in states[k].removed || f in states[k].workers[i].purged || UsedElsewhere(states[k].versions, f, states[k].workers[i].document)
    ensures states[k].workers[i].document in t.destroyed
    ensures f !in states[k].workers[i].keep ==> f in t.purged
  {
    RunKeeps(states, k);
    assert FilesKnown(states[k], states[k].workers[i]);
  }

  /**
   A destruction under way is not claimed again within 30 minutes: when a worker claims a policy
   that another one holds, a rule was saved for it or an outdated decision written since, or the
   first claim is older than that.
   */
  lemma {:induction false} ClaimsAreApart(states: seq<State>, k: nat, i: nat, j: nat, t: State)
    requires IsRun(states) && k < |states| && i < |states[k].workers| && j < |states[k].workers|
    requires HasClaim(states[k].workers[i]) && TakeClaim(states[k], t, j) && HasClaim(t.workers[j])
    requires t.workers[j].claim.policy == states[k].workers[i].claim.policy
    ensures var c := states[k].workers[i].claim;
            c.at <= |states[k].history|
            && (Undisturbed(states[k].history[c.at..], c.policy) ==> t.workers[j].claim.since > c.since + 30 * 60 * 1000)
  {
    RunKeeps(states, k);
    assert ClaimOk(states[k], states[k].workers[i].claim);
  }

  /**
   How a destruction closes, in every run: on a policy that carries a hold exactly when the last
   rule saved for it since the claim set one. If no rule was saved and nothing was decided on an
   outdated reading, it closes without a hold on the two people it was claimed with.
   */
  lemma {:induction false} ClosesOnHoldExactly(states: seq<State>, k: nat, i: nat, t: State)
    requires IsRun(states) && k < |states| && i < |states[k].workers| && Finalise(states[k], t, i)
    ensures var s, c := states[k], states[k].workers[i].claim;
            && c.at <= |s.history| && c.terms in s.claims
            && var p := t.policies[c.policy];
               && p.status == Destroyed
               && (p.legalHold <==> LastHold(s.history[c.at..], c.policy) == Some(true))
               && (Undisturbed(s.history[c.at..], c.policy) ==>
                     !p.legalHold && p.requestedBy == c.terms.requestedBy && p.approvedBy == c.terms.approvedBy
                     && (FreshApprovals(s.history) ==> p.requestedBy.Some? && p.approvedBy.Some? && p.requestedBy != p.approvedBy))
  {
    RunKeeps(states, k);
    DestructionIsSafe(states, k);
    assert ClaimOk(states[k], states[k].workers[i].claim);
  }

  /** The closing step is always open: a hold saved just before it stays on a destroyed policy that names nobody. */
  lemma {:induction false} HoldAfterClaimIsIgnored(
    s: State, i: nat)
    returns (held: State, t: State)
    requires i < |s.workers| && s.workers[i].Removing? && s.workers[i].todo == {} && s.workers[i].claim.policy in s.policies
    ensures var id := s.workers[i].claim.policy;
            && Step(s, held) && Step(held, t) && id in t.policies
            && t.policies[id].legalHold && t.policies[id].status == Destroyed && t.policies[id].requestedBy.None?
            && s.workers[i].document in t.destroyed
  {
    var id := s.workers[i].claim.policy;
    var p := s.policies[id];
    var until := p.retentionUntil;
    var u := Put(s, id, Resaved(p, true, until));
    held := Entered(u, Saved(id, true));
    assert SaveOn(s, u, id, p.documentId, true, until);
    assert Moves(s, u, Saved(id, true));
    var w := held.workers[i];
    var v := Put(held, id, held.policies[id].(status := Destroyed)).
               (workers := held.workers[i := Finished], purged := held.purged + (w.files - w.keep), destroyed := held.destroyed + {w.document});
    t := Entered(v, Silent);
    assert Finalise(held, v, i);
    assert WorkerStep(held, v, Silent, i);
    assert Moves(held, v, Silent);
  }
}
