/**
 Runs of the audit journal: events are recorded, chained, sealed and purged, in any order.
 A ledger is the journal seen through its chain; every run leaves it intact and sealed.
 */
module AuditLedger {
  import opened Wrappers
  import opened Utf16
  import opened CanonicalJson
  import opened CanonicalJsonFaithful
  import opened AuditChain

  datatype Seal = Seal(lastChainIndex: int, chainHash: Text, eventCount: int, createdAt: int)

  /** The chained rows in index order, the events not yet chained, the seals in creation order. */
  datatype Ledger = Ledger(chain: seq<Row>, pending: set<AuditEvent>, seals: seq<Seal>)

  const SETTLE_MS := 300_000
  const BATCH := 2000
  const PURGE_LIMIT := 1000

  /** The order in which events are chained: `occurredAt`, then `id`. */
  predicate Before(e: AuditEvent, f: AuditEvent) {
    e.occurredAt < f.occurredAt || (e.occurredAt == f.occurredAt && Less(e.id, f.id))
  }

  ghost function EventsOf(s: Ledger): set<AuditEvent> {
    s.pending + set r | r in s.chain :: r.event
  }

  ghost function LastIndex(chain: seq<Row>): int {
    if chain == [] then 0 else Index(chain[|chain| - 1])
  }

  ghost function LastHash(chain: seq<Row>): Text {
    if chain == [] || chain[|chain| - 1].chainHash.None? then GENESIS_HASH else chain[|chain| - 1].chainHash.value
  }

  // ----- The steps -----

  /** An event is inserted no later than SETTLE_MS after the instant it carries. */
  ghost predicate Recorded(s: Ledger, t: Ledger, now: int) {
    exists e: AuditEvent :: && (forall f :: f in EventsOf(s) ==> f.id != e.id)
                && now <= e.occurredAt + SETTLE_MS
                && t == s.(pending := s.pending + {e})
  }

  ghost predicate SortedByTime(events: seq<AuditEvent>) {
    forall i, j :: 0 <= i < j < |events| ==> Before(events[i], events[j])
  }

  /** The oldest settled events, at most BATCH of them. */
  ghost predicate OldestSettled(s: Ledger, batch: seq<AuditEvent>, now: int) {
    && |batch| <= BATCH
    && SortedByTime(batch)
    && (forall e :: e in batch ==> e in s.pending && e.occurredAt < now - SETTLE_MS)
    && (forall e :: e in s.pending && e !in batch && e.occurredAt < now - SETTLE_MS ==>
          |batch| == BATCH && forall b :: b in batch ==> Before(b, e))
  }

  ghost predicate ChainedAs(lib: Library, s: Ledger, t: Ledger, batch: seq<AuditEvent>) {
    && t.chain == s.chain + Link(lib, LastHash(s.chain), LastIndex(s.chain), batch)
    && t.pending == s.pending - (set e | e in batch)
    && t.seals == s.seals
  }

  ghost predicate Chained(lib: Library, s: Ledger, t: Ledger, now: int) {
    exists batch :: OldestSettled(s, batch, now) && ChainedAs(lib, s, t, batch)
  }

  function LastSeal(seals: seq<Seal>): Option<Seal> {
    if seals == [] then None else Some(seals[|seals| - 1])
  }

  /** A seal is due when events were chained since the last one and the interval has elapsed. */
  ghost predicate SealDue(s: Ledger, now: int, intervalMs: int) {
    && s.chain != []
    && (s.seals != [] ==>
          && LastSeal(s.seals).value.lastChainIndex < LastIndex(s.chain)
          && now - LastSeal(s.seals).value.createdAt >= intervalMs)
  }

  ghost function NewSeal(s: Ledger, now: int): Seal {
    Seal(LastIndex(s.chain), LastHash(s.chain),
         LastIndex(s.chain) - (if s.seals == [] then 0 else LastSeal(s.seals).value.lastChainIndex), now)
  }

  ghost predicate Sealed(s: Ledger, t: Ledger, now: int) {
    exists intervalMs :: intervalMs > 0
                         && t == if SealDue(s, now, intervalMs) then s.(seals := s.seals + [NewSeal(s, now)]) else s
  }

  /** The answer of the purge query: the oldest expired events, ties in any order. */
  ghost predicate OldestExpired(s: Ledger, victims: set<AuditEvent>, cutoff: int) {
    && victims <= EventsOf(s)
    && |victims| <= PURGE_LIMIT
    && (forall v :: v in victims ==> v.occurredAt < cutoff)
    && (forall v, e :: v in victims && e in EventsOf(s) && e !in victims ==> v.occurredAt <= e.occurredAt)
    && (forall e :: e in EventsOf(s) && e !in victims && e.occurredAt < cutoff ==> |victims| == PURGE_LIMIT)
  }

  function Survivors(chain: seq<Row>, victims: set<AuditEvent>): seq<Row> {
    if chain == [] then []
    else (if chain[0].event in victims then [] else [chain[0]]) + Survivors(chain[1..], victims)
  }

  ghost predicate PurgedAs(s: Ledger, t: Ledger, victims: set<AuditEvent>) {
    t == s.(chain := Survivors(s.chain, victims), pending := s.pending - victims)
  }

  /** The purge does not stop between two events of the same instant, and spares the newest chained event. */
  ghost predicate CleanPurge(s: Ledger, victims: set<AuditEvent>) {
    && (forall v, e :: v in victims && e in EventsOf(s) && e !in victims ==> v.occurredAt != e.occurredAt)
    && (s.chain != [] ==> s.chain[|s.chain| - 1].event !in victims)
  }

  ghost predicate Purged(s: Ledger, t: Ledger, cutoff: int) {
    exists victims :: OldestExpired(s, victims, cutoff) && CleanPurge(s, victims) && PurgedAs(s, t, victims)
  }

  ghost predicate Step(lib: Library, s: Ledger, t: Ledger, now: int) {
    || Recorded(s, t, now)
    || Chained(lib, s, t, now)
    || Sealed(s, t, now)
    || exists cutoff :: Purged(s, t, cutoff)
  }

  /** states[0] is empty, clocks never decrease, and each state follows from the previous one. */
  ghost predicate IsRun(lib: Library, states: seq<Ledger>, clocks: seq<int>) {
    && |states| == |clocks| > 0
    && states[0] == Ledger([], {}, [])
    && forall i :: 0 < i < |states| ==> clocks[i - 1] <= clocks[i] && Step(lib, states[i - 1], states[i], clocks[i])
  }

  // ----- The invariant -----

  ghost predicate ChainOk(lib: Library, chain: seq<Row>) {
    && Intact(lib, chain)
    && (forall i :: 0 <= i < |chain| ==> chain[i].chainIndex.Some? && chain[i].chainHash.Some? && IsHash(chain[i].chainHash.value))
    && (chain != [] ==> Index(chain[0]) >= 1 && chain[0].prevHash.Some? && IsHash(chain[0].prevHash.value))
    && (forall i, j :: 0 <= i < j < |chain| ==> Before(chain[i].event, chain[j].event))
  }

  ghost predicate DistinctIds(events: set<AuditEvent>) {
    forall e, f :: e in events && f in events && e.id == f.id ==> e == f
  }

  ghost predicate EventsOk(s: Ledger, now: int) {
    && DistinctIds(EventsOf(s))
    && (forall i :: 0 <= i < |s.chain| ==> s.chain[i].event.occurredAt < now - SETTLE_MS)
    && (forall i, e :: 0 <= i < |s.chain| && e in s.pending ==> Before(s.chain[i].event, e))
  }

  /** The seal names an index of the chain; while that event is stored, with the hash it has. */
  ghost predicate SealMatches(chain: seq<Row>, seal: Seal) {
    forall i :: 0 <= i < |chain| && Index(chain[i]) == seal.lastChainIndex ==> chain[i].chainHash == Some(seal.chainHash)
  }

  ghost predicate SealsMatch(chain: seq<Row>, seals: seq<Seal>) {
    && (chain == [] ==> seals == [])
    && forall k :: 0 <= k < |seals| ==> 1 <= seals[k].lastChainIndex <= LastIndex(chain) && SealMatches(chain, seals[k])
  }

  /** Seals advance, and each counts the events since the previous one. */
  ghost predicate SealsCount(seals: seq<Seal>) {
    && (forall k :: 0 < k < |seals| ==>
          && seals[k - 1].lastChainIndex < seals[k].lastChainIndex
          && seals[k - 1].createdAt < seals[k].createdAt
          && seals[k].eventCount == seals[k].lastChainIndex - seals[k - 1].lastChainIndex)
    && (seals != [] ==> seals[0].eventCount == seals[0].lastChainIndex)
  }

  ghost predicate Inv(lib: Library, s: Ledger, now: int) {
    ChainOk(lib, s.chain) && EventsOk(s, now) && SealsMatch(s.chain, s.seals) && SealsCount(s.seals)
  }

  lemma {:induction false} RecordedEvents(
    s: Ledger, t: Ledger, e: AuditEvent, before: int, now: int)
    requires EventsOk(s, before) && before <= now
    requires (forall f :: f in EventsOf(s) ==> f.id != e.id) && now <= e.occurredAt + SETTLE_MS
    requires t == s.(pending := s.pending + {e})
    ensures EventsOk(t, now)
  {
    assert EventsOf(t) == EventsOf(s) + {e};
  }

  lemma {:induction false} ChainedEventSet(
    lib: Library, s: Ledger, t: Ledger, batch: seq<AuditEvent>, now: int)
    requires Sound(lib) && ChainOk(lib, s.chain) && OldestSettled(s, batch, now) && ChainedAs(lib, s, t, batch)
    ensures EventsOf(t) <= EventsOf(s)
  {
    ChainedRows(lib, s, t, batch);
    forall r | r in t.chain
      ensures r.event in EventsOf(s)
    {
      var i :| 0 <= i < |t.chain| && t.chain[i] == r;
      assert i < |s.chain| ==> s.chain[i] in s.chain;
    }
  }

  lemma {:induction false} ChainedOrder(
    lib: Library, s: Ledger, t: Ledger, batch: seq<AuditEvent>, now: int)
    requires Sound(lib) && ChainOk(lib, s.chain) && EventsOk(s, now)
    requires OldestSettled(s, batch, now) && ChainedAs(lib, s, t, batch)
    ensures forall i, j :: 0 <= i < j < |t.chain| ==> Before(t.chain[i].event, t.chain[j].event)
  {
    ChainedRows(lib, s, t, batch);
    forall i, j | 0 <= i < j < |t.chain|
      ensures Before(t.chain[i].event, t.chain[j].event)
    {
      var n := |s.chain|;
      if i >= n {
        assert Before(batch[i - n], batch[j - n]);
      } else if j >= n {
        assert t.chain[j].event in s.pending;
      }
    }
  }

  lemma {:induction false} ChainedEvents(
    lib: Library, s: Ledger, t: Ledger, batch: seq<AuditEvent>, now: int)
    requires Sound(lib) && ChainOk(lib, s.chain) && EventsOk(s, now)
    requires OldestSettled(s, batch, now) && ChainedAs(lib, s, t, batch)
    ensures EventsOk(t, now)
  {
    ChainedRows(lib, s, t, batch);
    ChainedEventSet(lib, s, t, batch, now);
    forall i, e | 0 <= i < |t.chain| && e in t.pending
      ensures Before(t.chain[i].event, e)
    {
      if i >= |s.chain| {
        UnsettledIsLater(s, batch, now, t.chain[i].event, e);
      }
    }
  }

  lemma {:induction false} UnsettledIsLater(
    s: Ledger, batch: seq<AuditEvent>, now: int, b: AuditEvent, e: AuditEvent)
    requires OldestSettled(s, batch, now) && b in batch && e in s.pending && e !in batch
    ensures Before(b, e)
  {
  }

  /** The rows of the new chain, old ones first. */
  lemma {:induction false} ChainedRows(
    lib: Library, s: Ledger, t: Ledger, batch: seq<AuditEvent>)
    requires Sound(lib) && ChainOk(lib, s.chain) && ChainedAs(lib, s, t, batch)
    ensures |t.chain| == |s.chain| + |batch|
    ensures forall i :: 0 <= i < |s.chain| ==> t.chain[i] == s.chain[i]
    ensures forall i :: |s.chain| <= i < |t.chain| ==>
                          && t.chain[i].event == batch[i - |s.chain|] && t.chain[i].event in batch
                          && t.chain[i].chainIndex == Some(LastIndex(s.chain) + 1 + (i - |s.chain|))
                          && t.chain[i].chainHash.Some? && IsHash(t.chain[i].chainHash.value)
  {
    LinkShape(lib, LastHash(s.chain), LastIndex(s.chain), batch);
    var links := Link(lib, LastHash(s.chain), LastIndex(s.chain), batch);
    forall i | |s.chain| <= i < |t.chain|
      ensures t.chain[i] == links[i - |s.chain|] && t.chain[i].event in batch
    {
      assert batch[i - |s.chain|] in batch;
    }
  }

  ghost predicate HashesPresent(chain: seq<Row>) {
    forall i :: 0 <= i < |chain| ==> chain[i].chainIndex.Some? && chain[i].chainHash.Some? && IsHash(chain[i].chainHash.value)
  }

  /** Whatever the events, the new rows continue the links of the old ones. */
  lemma {:induction false} ChainedLinks(
    lib: Library, s: Ledger, t: Ledger, batch: seq<AuditEvent>)
    requires ChainOk(lib, s.chain) && Sound(lib) && ChainedAs(lib, s, t, batch)
    ensures Intact(lib, t.chain) && HashesPresent(t.chain)
    ensures t.chain != [] ==> Index(t.chain[0]) >= 1 && t.chain[0].prevHash.Some? && IsHash(t.chain[0].prevHash.value)
  {
    var n := |s.chain|;
    LinkShape(lib, LastHash(s.chain), LastIndex(s.chain), batch);
    var links := Link(lib, LastHash(s.chain), LastIndex(s.chain), batch);
    forall i | 0 <= i < |t.chain|
      ensures ContentMatches(lib, t.chain[i]) && (i > 0 ==> LinkMatches(t.chain[i - 1], t.chain[i]))
      ensures t.chain[i].chainIndex.Some? && t.chain[i].chainHash.Some? && IsHash(t.chain[i].chainHash.value)
    {
      if i >= n {
        assert t.chain[i] == links[i - n];
      }
    }
    if s.chain != [] {
      IndexFromFirst(lib, s.chain, n - 1);
    }
  }

  lemma {:induction false} ChainedIntact(
    lib: Library, s: Ledger, t: Ledger, batch: seq<AuditEvent>)
    requires ChainOk(lib, s.chain) && Sound(lib) && ChainedAs(lib, s, t, batch)
    requires forall i, j :: 0 <= i < j < |t.chain| ==> Before(t.chain[i].event, t.chain[j].event)
    ensures ChainOk(lib, t.chain)
  {
    ChainedLinks(lib, s, t, batch);
  }

  lemma {:induction false} ChainedSeals(
    lib: Library, s: Ledger, t: Ledger, batch: seq<AuditEvent>)
    requires ChainOk(lib, s.chain) && SealsMatch(s.chain, s.seals) && Sound(lib) && ChainedAs(lib, s, t, batch)
    ensures SealsMatch(t.chain, t.seals)
  {
    ChainedRows(lib, s, t, batch);
    forall k | 0 <= k < |t.seals|
      ensures 1 <= t.seals[k].lastChainIndex <= LastIndex(t.chain) && SealMatches(t.chain, t.seals[k])
    {
      assert SealMatches(s.chain, s.seals[k]);
    }
  }

  lemma {:induction false} NewSealMatches(lib: Library, s: Ledger, now: int)
    requires ChainOk(lib, s.chain) && s.chain != []
    ensures 1 <= NewSeal(s, now).lastChainIndex == LastIndex(s.chain) && SealMatches(s.chain, NewSeal(s, now))
  {
    var seal, n := NewSeal(s, now), |s.chain|;
    IndexFromFirst(lib, s.chain, n - 1);
    forall i | 0 <= i < n && Index(s.chain[i]) == seal.lastChainIndex
      ensures s.chain[i].chainHash == Some(seal.chainHash)
    {
      IndexFromFirst(lib, s.chain, i);
    }
  }

  lemma {:induction false} SealedKeeps(lib: Library, s: Ledger, now: int)
    requires ChainOk(lib, s.chain) && SealsMatch(s.chain, s.seals) && SealsCount(s.seals)
    requires exists intervalMs :: intervalMs > 0 && SealDue(s, now, intervalMs)
    ensures SealsMatch(s.chain, s.seals + [NewSeal(s, now)]) && SealsCount(s.seals + [NewSeal(s, now)])
  {
    NewSealMatches(lib, s, now);
    NewSealCounts(s, now);
  }

  lemma {:induction false} NewSealCounts(s: Ledger, now: int)
    requires SealsCount(s.seals)
    requires exists intervalMs :: intervalMs > 0 && SealDue(s, now, intervalMs)
    ensures SealsCount(s.seals + [NewSeal(s, now)])
  {
    var intervalMs :| intervalMs > 0 && SealDue(s, now, intervalMs);
    var seals := s.seals + [NewSeal(s, now)];
    forall k | 0 < k < |seals|
      ensures seals[k - 1].lastChainIndex < seals[k].lastChainIndex && seals[k - 1].createdAt < seals[k].createdAt
              && seals[k].eventCount == seals[k].lastChainIndex - seals[k - 1].lastChainIndex
    {
      assert seals[k - 1] == s.seals[k - 1];
    }
  }

  // ----- The purge removes a prefix -----

  lemma {:induction false} SurvivorsMembers(chain: seq<Row>, victims: set<AuditEvent>)
    ensures forall r :: r in Survivors(chain, victims) <==> r in chain && r.event !in victims
  {
    if chain != [] {
      SurvivorsMembers(chain[1..], victims);
      assert chain == [chain[0]] + chain[1..];
    }
  }

  /** When nobody before a survivor survives a victim after it, the survivors are a suffix. */
  lemma {:induction false} SurvivorsSuffix(
    chain: seq<Row>, victims: set<AuditEvent>)
    returns (m: nat)
    requires forall i, j :: 0 <= i < j < |chain| && chain[i].event !in victims ==> chain[j].event !in victims
    ensures m <= |chain| && Survivors(chain, victims) == chain[m..]
    ensures forall i :: 0 <= i < m ==> chain[i].event in victims
  {
    if chain == [] {
      m := 0;
    } else {
      var rest := chain[1..];
      assert rest != [] ==> rest[0] == chain[1];
      forall i, j | 0 <= i < j < |rest| && rest[i].event !in victims
        ensures rest[j].event !in victims
      {
        assert rest[i] == chain[i + 1] && rest[j] == chain[j + 1];
      }
      var k := SurvivorsSuffix(rest, victims);
      if chain[0].event in victims {
        m := k + 1;
      } else {
        m := 0;
      }
    }
  }

  lemma {:induction false} SuffixIntact(lib: Library, chain: seq<Row>, m: nat)
    requires ChainOk(lib, chain) && m <= |chain|
    ensures ChainOk(lib, chain[m..])
  {
    var rest := chain[m..];
    forall i | 0 <= i < |rest|
      ensures ContentMatches(lib, rest[i]) && (i > 0 ==> LinkMatches(rest[i - 1], rest[i]))
    {
      assert rest[i] == chain[m + i];
    }
    if 0 < m < |chain| {
      IndexFromFirst(lib, chain, m);
      assert LinkMatches(chain[m - 1], chain[m]);
    }
  }

  lemma {:induction false} SuffixSeals(chain: seq<Row>, m: nat, seals: seq<Seal>)
    requires SealsMatch(chain, seals) && m <= |chain| && (chain != [] ==> m < |chain|)
    ensures SealsMatch(chain[m..], seals)
  {
    forall k | 0 <= k < |seals|
      ensures SealMatches(chain[m..], seals[k])
    {
      assert SealMatches(chain, seals[k]);
    }
  }

  lemma {:induction false} SuffixEvents(s: Ledger, t: Ledger, m: nat, now: int)
    requires EventsOk(s, now) && m <= |s.chain| && t.chain == s.chain[m..] && t.pending <= s.pending
    ensures EventsOk(t, now)
  {
    assert forall r :: r in t.chain ==> r in s.chain;
    assert EventsOf(t) <= EventsOf(s);
  }

  lemma {:induction false} PurgedKeeps(
    lib: Library, s: Ledger, t: Ledger, cutoff: int, now: int)
    requires Inv(lib, s, now) && Purged(s, t, cutoff)
    ensures Inv(lib, t, now)
  {
    var victims :| OldestExpired(s, victims, cutoff) && CleanPurge(s, victims) && PurgedAs(s, t, victims);
    forall i, j | 0 <= i < j < |s.chain| && s.chain[i].event !in victims
      ensures s.chain[j].event !in victims
    {
      assert Before(s.chain[i].event, s.chain[j].event);
      assert s.chain[i].event in EventsOf(s);
    }
    var m := SurvivorsSuffix(s.chain, victims);
    SuffixIntact(lib, s.chain, m);
    SuffixSeals(s.chain, m, s.seals);
    SuffixEvents(s, t, m, now);
  }

  lemma {:induction false} InvMonotone(lib: Library, s: Ledger, before: int, now: int)
    requires Inv(lib, s, before) && before <= now
    ensures Inv(lib, s, now)
  {
  }

  lemma {:induction false} RecordedKeeps(lib: Library, s: Ledger, t: Ledger, now: int)
    requires Inv(lib, s, now) && Recorded(s, t, now)
    ensures Inv(lib, t, now)
  {
    var e: AuditEvent :| && (forall f :: f in EventsOf(s) ==> f.id != e.id)
                         && now <= e.occurredAt + SETTLE_MS
                         && t == s.(pending := s.pending + {e});
    RecordedEvents(s, t, e, now, now);
  }

  lemma {:induction false} ChainedKeeps(lib: Library, s: Ledger, t: Ledger, now: int)
    requires Sound(lib) && Inv(lib, s, now) && Chained(lib, s, t, now)
    ensures Inv(lib, t, now)
  {
    var batch :| OldestSettled(s, batch, now) && ChainedAs(lib, s, t, batch);
    ChainedEvents(lib, s, t, batch, now);
    ChainedOrder(lib, s, t, batch, now);
    ChainedIntact(lib, s, t, batch);
    ChainedSeals(lib, s, t, batch);
  }

  lemma {:induction false} SealStepKeeps(lib: Library, s: Ledger, t: Ledger, now: int)
    requires Inv(lib, s, now) && Sealed(s, t, now)
    ensures Inv(lib, t, now)
  {
    if t != s {
      SealedKeeps(lib, s, now);
      assert EventsOf(t) == EventsOf(s);
    }
  }

  lemma {:induction false} StepKeeps(lib: Library, s: Ledger, t: Ledger, now: int)
    requires Sound(lib) && Inv(lib, s, now) && Step(lib, s, t, now)
    ensures Inv(lib, t, now)
  {
    if Recorded(s, t, now) {
      RecordedKeeps(lib, s, t, now);
    } else if Chained(lib, s, t, now) {
      ChainedKeeps(lib, s, t, now);
    } else if Sealed(s, t, now) {
      SealStepKeeps(lib, s, t, now);
    } else {
      var cutoff :| Purged(s, t, cutoff);
      PurgedKeeps(lib, s, t, cutoff, now);
    }
  }

  lemma {:induction false} RunKeeps(
    lib: Library, states: seq<Ledger>, clocks: seq<int>, i: nat)
    requires Sound(lib) && IsRun(lib, states, clocks) && i < |states|
    ensures Inv(lib, states[i], clocks[i])
  {
    if i > 0 {
      RunKeeps(lib, states, clocks, i - 1);
      InvMonotone(lib, states[i - 1], clocks[i - 1], clocks[i]);
      StepKeeps(lib, states[i - 1], states[i], clocks[i]);
    }
  }

  ghost function SealedEvents(seals: seq<Seal>): int {
    if seals == [] then 0 else SealedEvents(seals[..|seals| - 1]) + seals[|seals| - 1].eventCount
  }

  lemma {:induction false} SealCounts(s: Ledger, k: nat)
    requires SealsCount(s.seals) && k <= |s.seals|
    ensures SealedEvents(s.seals[..k]) == if k == 0 then 0 else s.seals[k - 1].lastChainIndex
  {
    if k > 0 {
      assert s.seals[..k][..k - 1] == s.seals[..k - 1];
      SealCounts(s, k - 1);
    }
  }

  /**
   Every run leaves a chain the verifier accepts, in (occurredAt, id) order and without a gap,
   under seals that match it, strictly advance and account for every event up to the last one.
   */
  lemma {:induction false} EveryRunVerifies(
    lib: Library, states: seq<Ledger>, clocks: seq<int>, i: nat)
    requires Sound(lib) && IsRun(lib, states, clocks) && i < |states|
    ensures var s := states[i];
            && Intact(lib, s.chain)
            && (forall k :: 0 <= k < |s.chain| ==> Index(s.chain[k]) == Index(s.chain[0]) + k)
            && (forall j, k :: 0 <= j < k < |s.chain| ==> Before(s.chain[j].event, s.chain[k].event))
            && (forall k :: 0 <= k < |s.seals| ==> SealMatches(s.chain, s.seals[k]))
            && (forall j, k :: 0 <= j < k < |s.seals| ==> s.seals[j].lastChainIndex < s.seals[k].lastChainIndex)
            && SealedEvents(s.seals) == (if s.seals == [] then 0 else s.seals[|s.seals| - 1].lastChainIndex)
  {
    RunKeeps(lib, states, clocks, i);
    var s := states[i];
    forall k | 0 <= k < |s.chain|
      ensures Index(s.chain[k]) == Index(s.chain[0]) + k
    {
      IndexFromFirst(lib, s.chain, k);
    }
    forall j, k | 0 <= j < k < |s.seals|
      ensures s.seals[j].lastChainIndex < s.seals[k].lastChainIndex
    {
      SealsAdvance(s, j, k);
    }
    SealCounts(s, |s.seals|);
    assert s.seals[..|s.seals|] == s.seals;
  }

  lemma {:induction false} SealsAdvance(s: Ledger, j: nat, k: nat)
    requires SealsCount(s.seals) && j < k < |s.seals|
    ensures s.seals[j].lastChainIndex < s.seals[k].lastChainIndex && s.seals[j].createdAt < s.seals[k].createdAt
  {
    if j + 1 < k {
      SealsAdvance(s, j, k - 1);
    }
  }

  lemma {:induction false} IndexInjective(lib: Library, chain: seq<Row>, r: Row, q: Row)
    requires Intact(lib, chain) && r in chain && q in chain && Index(r) == Index(q)
    ensures r == q
  {
    var i :| 0 <= i < |chain| && chain[i] == r;
    var j :| 0 <= j < |chain| && chain[j] == q;
    IndexFromFirst(lib, chain, i);
    IndexFromFirst(lib, chain, j);
  }

  // ----- What each step achieves -----

  /**
   A chaining step appends at most 2000 events, all older than five minutes; a pending event of that
   age is left over only if 2000 events before it were chained.
   */
  lemma {:induction false} ChainingProgress(lib: Library, s: Ledger, t: Ledger, now: int)
    requires Chained(lib, s, t, now)
    ensures s.chain <= t.chain && |t.chain| <= |s.chain| + 2000
    ensures t.pending <= s.pending && forall e :: e in s.pending - t.pending ==> e.occurredAt < now - 300_000
    ensures forall e, i :: e in t.pending && e.occurredAt < now - 300_000 && |s.chain| <= i < |t.chain| ==> Before(t.chain[i].event, e)
    ensures (exists e :: e in t.pending && e.occurredAt < now - 300_000) ==> |t.chain| == |s.chain| + 2000
  {
    var batch :| OldestSettled(s, batch, now) && ChainedAs(lib, s, t, batch);
    var links := Link(lib, LastHash(s.chain), LastIndex(s.chain), batch);
    LinkEvents(lib, LastHash(s.chain), LastIndex(s.chain), batch);
    forall e, i | e in t.pending && e.occurredAt < now - SETTLE_MS && |s.chain| <= i < |t.chain|
      ensures Before(t.chain[i].event, e)
    {
      assert t.chain[i] == links[i - |s.chain|] && batch[i - |s.chain|] in batch;
    }
  }

  lemma {:induction false} LinkEvents(lib: Library, previous: Text, index: int, events: seq<AuditEvent>)
    ensures |Link(lib, previous, index, events)| == |events|
    ensures forall i :: 0 <= i < |events| ==> Link(lib, previous, index, events)[i].event == events[i]
    decreases |events|
  {
    if events != [] {
      LinkEvents(lib, AuditEventHash(lib, previous, events[0]), index + 1, events[1..]);
    }
  }

  /**
   A seal is made exactly when there is an event that no seal covers yet and the interval has passed
   since every seal.
   */
  lemma {:induction false} SealDueExactly(s: Ledger, now: int, intervalMs: int)
    requires SealsCount(s.seals)
    ensures SealDue(s, now, intervalMs) <==>
            s.chain != []
            && forall seal :: seal in s.seals ==> seal.lastChainIndex < LastIndex(s.chain) && now - seal.createdAt >= intervalMs
  {
    forall k | 0 <= k < |s.seals| - 1
      ensures s.seals[k].lastChainIndex < s.seals[|s.seals| - 1].lastChainIndex
      ensures s.seals[k].createdAt < s.seals[|s.seals| - 1].createdAt
    {
      SealsAdvance(s, k, |s.seals| - 1);
    }
    assert s.seals != [] ==> s.seals[|s.seals| - 1] in s.seals;
  }

  /**
   A purge deletes at most 1000 events, all before the cutoff and none later than one that stays;
   an event before the cutoff stays only if 1000 were deleted.
   */
  lemma {:induction false} PurgeProgress(s: Ledger, t: Ledger, victims: set<AuditEvent>, cutoff: int)
    requires OldestExpired(s, victims, cutoff) && PurgedAs(s, t, victims)
    ensures EventsOf(t) <= EventsOf(s) && |EventsOf(s) - EventsOf(t)| <= 1000
    ensures forall e :: e in EventsOf(s) - EventsOf(t) ==> e.occurredAt < cutoff
    ensures forall e, f :: e in EventsOf(s) - EventsOf(t) && f in EventsOf(t) ==> e.occurredAt <= f.occurredAt
    ensures (exists e :: e in EventsOf(t) && e.occurredAt < cutoff) ==> |EventsOf(s) - EventsOf(t)| == 1000
  {
    SurvivorsMembers(s.chain, victims);
    assert EventsOf(t) == EventsOf(s) - victims;
    assert EventsOf(s) - EventsOf(t) == victims;
  }

  // ----- What the purge hypotheses exclude -----

  /** No victim lies between two survivors. */
  ghost predicate NoHole(chain: seq<Row>, victims: set<AuditEvent>) {
    forall i, j, k :: 0 <= i < j < k < |chain| && chain[i].event !in victims && chain[k].event !in victims ==>
                        chain[j].event !in victims
  }

  lemma {:induction false} IntactTail(lib: Library, rows: seq<Row>)
    requires Intact(lib, rows) && rows != []
    ensures Intact(lib, rows[1..])
  {
    var rest := rows[1..];
    forall i | 0 < i < |rest|
      ensures LinkMatches(rest[i - 1], rest[i])
    {
      assert LinkMatches(rows[i], rows[i + 1]);
    }
  }

  lemma {:induction false} IntactCons(lib: Library, r: Row, rows: seq<Row>)
    requires Intact(lib, rows) && ContentMatches(lib, r) && (rows != [] ==> LinkMatches(r, rows[0]))
    ensures Intact(lib, [r] + rows)
  {
  }

  /** Without a hole, a surviving row is followed by its neighbour. */
  lemma {:induction false} NextSurvivor(chain: seq<Row>, victims: set<AuditEvent>)
    requires chain != [] && NoHole(chain, victims) && chain[0].event !in victims
    requires Survivors(chain[1..], victims) != []
    ensures |chain| > 1 && Survivors(chain[1..], victims)[0] == chain[1]
  {
    var rest := chain[1..];
    SurvivorsMembers(rest, victims);
    var first := Survivors(rest, victims)[0];
    assert first in rest && first.event !in victims;
    var k :| 0 <= k < |rest| && rest[k] == first;
    assert chain[k + 1] == first && rest[0] == chain[1];
  }

  lemma {:induction false} NoHoleIntact(
    lib: Library, chain: seq<Row>, victims: set<AuditEvent>)
    requires Intact(lib, chain) && NoHole(chain, victims)
    ensures Intact(lib, Survivors(chain, victims))
  {
    if chain != [] {
      var rest := chain[1..];
      assert forall i :: 0 <= i < |rest| ==> rest[i] == chain[i + 1];
      IntactTail(lib, chain);
      NoHoleIntact(lib, rest, victims);
      if chain[0].event !in victims {
        if Survivors(rest, victims) != [] {
          NextSurvivor(chain, victims);
          assert LinkMatches(chain[0], chain[1]);
        }
        IntactCons(lib, chain[0], Survivors(rest, victims));
      }
    }
  }

  lemma {:induction false} SurvivorAt(
    chain: seq<Row>, victims: set<AuditEvent>, i: nat)
    returns (a: nat)
    requires i < |chain| && chain[i].event !in victims
    ensures a < |Survivors(chain, victims)| && Survivors(chain, victims)[a] == chain[i]
  {
    SurvivorsMembers(chain, victims);
    assert chain[i] in Survivors(chain, victims);
    a :| 0 <= a < |Survivors(chain, victims)| && Survivors(chain, victims)[a] == chain[i];
  }

  lemma {:induction false} IndexGap(lib: Library, rows: seq<Row>, i: nat, k: nat)
    requires Intact(lib, rows) && i < |rows| && k < |rows|
    ensures Index(rows[k]) - Index(rows[i]) == k - i
  {
    IndexFromFirst(lib, rows, i);
    IndexFromFirst(lib, rows, k);
  }

  lemma {:induction false} BetweenSurvivors(
    lib: Library, chain: seq<Row>, victims: set<AuditEvent>, i: nat, j: nat, k: nat)
    requires Intact(lib, chain) && Intact(lib, Survivors(chain, victims))
    requires i < j < k < |chain| && chain[i].event !in victims && chain[k].event !in victims
    ensures chain[j].event !in victims
  {
    var left := Survivors(chain, victims);
    var a := SurvivorAt(chain, victims, i);
    var c := SurvivorAt(chain, victims, k);
    IndexGap(lib, chain, i, k);
    IndexGap(lib, chain, i, j);
    IndexGap(lib, left, a, c);
    IndexGap(lib, left, a, a + j - i);
    assert left[a + j - i] in chain && left[a + j - i].event !in victims by {
      SurvivorsMembers(chain, victims);
      assert left[a + j - i] in left;
    }
    IndexInjective(lib, chain, left[a + j - i], chain[j]);
  }

  lemma {:induction false} IntactNoHole(
    lib: Library, chain: seq<Row>, victims: set<AuditEvent>)
    requires Intact(lib, chain) && Intact(lib, Survivors(chain, victims))
    ensures NoHole(chain, victims)
  {
    forall i, j, k | 0 <= i < j < k < |chain| && chain[i].event !in victims && chain[k].event !in victims
      ensures chain[j].event !in victims
    {
      BetweenSurvivors(lib, chain, victims, i, j, k);
    }
  }

  /** A purge leaves a chain the verifier accepts exactly when it opens no hole in it. */
  lemma {:induction false} PurgeValidExactly(
    lib: Library, chain: seq<Row>, victims: set<AuditEvent>)
    requires Intact(lib, chain)
    ensures Intact(lib, Survivors(chain, victims)) <==> NoHole(chain, victims)
  {
    if NoHole(chain, victims) {
      NoHoleIntact(lib, chain, victims);
    }
    if Intact(lib, Survivors(chain, victims)) {
      IntactNoHole(lib, chain, victims);
    }
  }

  /**
   The purge query orders by `occurredAt` alone: among expired events of one instant it may
   return any PURGE_LIMIT of them, so it may open a hole.
   */
  lemma {:induction false} TiesMayBeSplitAnywhere(
    s: Ledger, victims: set<AuditEvent>, cutoff: int, instant: int)
    requires instant < cutoff && forall e :: e in EventsOf(s) ==> e.occurredAt == instant
    requires victims <= EventsOf(s) && |victims| == PURGE_LIMIT
    ensures OldestExpired(s, victims, cutoff)
    ensures forall v, e :: v in victims && e in EventsOf(s) - victims ==> !CleanPurge(s, victims)
  {
    forall v, e | v in victims && e in EventsOf(s) - victims
      ensures !CleanPurge(s, victims)
    {
      assert v.occurredAt == e.occurredAt;
    }
  }

  /** n events of one instant, in id order: the ids "", "0", "00" and so on. */
  function TiedEvents(n: nat, instant: int): (events: seq<AuditEvent>)
    ensures |events| == n
    ensures forall i :: 0 <= i < n ==> events[i] == AuditEvent(Repeat(48, i), instant, [], [], [], [], [], [], Null)
  {
    seq(n, i requires 0 <= i < n => AuditEvent(Repeat(48, i), instant, [], [], [], [], [], [], Null))
  }

  lemma {:induction false} ShorterIsLess(i: nat, j: nat)
    requires i < j
    ensures Less(Repeat(48, i), Repeat(48, j))
  {
    if i > 0 {
      ShorterIsLess(i - 1, j - 1);
      assert Repeat(48, i)[1..] == Repeat(48, i - 1) && Repeat(48, j)[1..] == Repeat(48, j - 1);
    }
  }

  lemma {:induction false} TiedInOrder(n: nat, instant: int)
    ensures SortedByTime(TiedEvents(n, instant))
  {
    forall i, j | 0 <= i < j < n
      ensures Before(TiedEvents(n, instant)[i], TiedEvents(n, instant)[j])
    {
      ShorterIsLess(i, j);
    }
  }

  lemma {:induction false} DistinctCount<T>(xs: seq<T>)
    requires forall i, j :: 0 <= i < j < |xs| ==> xs[i] != xs[j]
    ensures |set x | x in xs| == |xs|
  {
    if xs != [] {
      var front, last := xs[..|xs| - 1], xs[|xs| - 1];
      DistinctCount(front);
      assert (set x | x in xs) == (set x | x in front) + {last};
    }
  }

  /** A freshly chained journal: the events in order, nothing pending, no seal. */
  ghost function ChainOnly(lib: Library, events: seq<AuditEvent>): Ledger {
    Ledger(Link(lib, GENESIS_HASH, 0, events), {}, [])
  }

  lemma {:induction false} ChainOnlyEvents(lib: Library, events: seq<AuditEvent>)
    requires Sound(lib)
    ensures |ChainOnly(lib, events).chain| == |events|
    ensures EventsOf(ChainOnly(lib, events)) == SetOf(events)
    ensures forall i :: 0 <= i < |events| ==> ChainOnly(lib, events).chain[i].event == events[i]
  {
    LinkEvents(lib, GENESIS_HASH, 0, events);
    LinkShape(lib, GENESIS_HASH, 0, events);
    var chain := Link(lib, GENESIS_HASH, 0, events);
    forall e | e in events
      ensures e in set r | r in chain :: r.event
    {
      var i :| 0 <= i < |events| && events[i] == e;
      assert chain[i] in chain;
    }
  }

  ghost predicate IdsDiffer(events: seq<AuditEvent>) {
    forall i, j :: 0 <= i < j < |events| ==> events[i].id != events[j].id
  }

  /** It is a journal of the invariant once its events, in time order, have settled. */
  lemma {:induction false} ChainOnlyOk(lib: Library, events: seq<AuditEvent>, now: int)
    requires Sound(lib) && SortedByTime(events) && IdsDiffer(events)
    requires forall e :: e in events ==> e.occurredAt < now - SETTLE_MS
    ensures Inv(lib, ChainOnly(lib, events), now)
  {
    ChainOnlyEvents(lib, events);
    LinkShape(lib, GENESIS_HASH, 0, events);
  }

  /** All events but the first and the last. */
  ghost function Inner(events: seq<AuditEvent>): (inner: seq<AuditEvent>)
    requires |events| >= 2
    ensures |inner| == |events| - 2 && forall i :: 0 <= i < |inner| ==> inner[i] == events[i + 1]
  {
    events[1..|events| - 1]
  }

  ghost function SetOf(events: seq<AuditEvent>): set<AuditEvent> {
    set e | e in events
  }

  lemma {:induction false} OuterSurvive(events: seq<AuditEvent>)
    requires |events| >= 3 && IdsDiffer(events)
    ensures |SetOf(Inner(events))| == |events| - 2 && SetOf(Inner(events)) <= SetOf(events)
    ensures events[0] !in SetOf(Inner(events)) && events[1] in SetOf(Inner(events)) && events[|events| - 1] !in SetOf(Inner(events))
  {
    DistinctCount(Inner(events));
    assert Inner(events)[0] == events[1];
  }

  lemma {:induction false} TiedPurge(
    lib: Library, events: seq<AuditEvent>, instant: int, cutoff: int)
    requires Sound(lib) && instant < cutoff && |events| == PURGE_LIMIT + 2
    requires IdsDiffer(events) && forall e :: e in events ==> e.occurredAt == instant
    ensures OldestExpired(ChainOnly(lib, events), SetOf(Inner(events)), cutoff)
    ensures !Intact(lib, Survivors(ChainOnly(lib, events).chain, SetOf(Inner(events))))
  {
    var s, victims := ChainOnly(lib, events), SetOf(Inner(events));
    ChainOnlyEvents(lib, events);
    OuterSurvive(events);
    TiesMayBeSplitAnywhere(s, victims, cutoff, instant);
    assert s.chain[1].event in victims && s.chain[0].event !in victims && s.chain[PURGE_LIMIT + 1].event !in victims;
    LinkShape(lib, GENESIS_HASH, 0, events);
    PurgeValidExactly(lib, s.chain, victims);
  }

  lemma {:induction false} TiedExample(
    n: nat, instant: int)
    returns (events: seq<AuditEvent>)
    ensures |events| == n && SortedByTime(events) && IdsDiffer(events)
    ensures forall e :: e in events ==> e.occurredAt == instant
  {
    events := TiedEvents(n, instant);
    TiedInOrder(n, instant);
    TiedIdsDiffer(n, instant);
  }

  /**
   A purge that breaks the chain: 1002 settled events of one instant are chained, all are expired,
   and the query returns all but the first and the last of them.
   */
  lemma {:induction false} TiedPurgeBreaksChain(
    lib: Library, instant: int, cutoff: int, now: int)
    returns (events: seq<AuditEvent>, s: Ledger, victims: set<AuditEvent>)
    requires Sound(lib) && instant < cutoff && instant < now - SETTLE_MS
    ensures |events| == PURGE_LIMIT + 2 && forall e :: e in events ==> e.occurredAt == instant
    ensures s == ChainOnly(lib, events) && victims == SetOf(Inner(events))
    ensures Inv(lib, s, now) && OldestExpired(s, victims, cutoff)
    ensures !Intact(lib, Survivors(s.chain, victims))
  {
    events := TiedExample(PURGE_LIMIT + 2, instant);
    s, victims := ChainOnly(lib, events), SetOf(Inner(events));
    ChainOnlyOk(lib, events, now);
    TiedPurge(lib, events, instant, cutoff);
  }

  lemma {:induction false} TiedIdsDiffer(n: nat, instant: int)
    ensures IdsDiffer(TiedEvents(n, instant))
  {
    forall i, j | 0 <= i < j < n
      ensures TiedEvents(n, instant)[i].id != TiedEvents(n, instant)[j].id
    {
      assert |Repeat(48, i)| != |Repeat(48, j)|;
    }
  }

  // ----- Events that become visible too late -----

  /**
   Chaining keeps the time order exactly when the batch starts after the last chained event, as it
   does when no event becomes visible later than SETTLE_MS after its `occurredAt`.
   */
  lemma {:induction false} ChainedOrderExactly(
    lib: Library, s: Ledger, t: Ledger, batch: seq<AuditEvent>)
    requires Sound(lib) && ChainOk(lib, s.chain) && ChainedAs(lib, s, t, batch)
    requires s.chain != [] && batch != [] && SortedByTime(batch)
    ensures Intact(lib, t.chain)
    ensures InTimeOrder(t.chain) <==> Before(s.chain[|s.chain| - 1].event, batch[0])
  {
    ChainedRows(lib, s, t, batch);
    ChainedLinks(lib, s, t, batch);
    var n := |s.chain|;
    assert t.chain[n - 1] == s.chain[n - 1] && t.chain[n].event == batch[0];
    if Before(s.chain[n - 1].event, batch[0]) {
      forall i, j | 0 <= i < j < |t.chain|
        ensures Before(t.chain[i].event, t.chain[j].event)
      {
        if i < n <= j {
          LessChain(s.chain, batch, i, j - n);
        }
      }
    }
  }

  ghost predicate InTimeOrder(chain: seq<Row>) {
    forall i, j :: 0 <= i < j < |chain| ==> Before(chain[i].event, chain[j].event)
  }

  lemma {:induction false} BeforeTransitive(e: AuditEvent, f: AuditEvent, g: AuditEvent)
    requires Before(e, f) && Before(f, g)
    ensures Before(e, g)
  {
    if Less(e.id, f.id) && Less(f.id, g.id) {
      LessTransitive(e.id, f.id, g.id);
    }
  }

  lemma {:induction false} LessChain(
    chain: seq<Row>, batch: seq<AuditEvent>, i: nat, j: nat)
    requires InTimeOrder(chain) && SortedByTime(batch) && i < |chain| && j < |batch|
    requires Before(chain[|chain| - 1].event, batch[0])
    ensures Before(chain[i].event, batch[j])
  {
    if i < |chain| - 1 {
      BeforeTransitive(chain[i].event, chain[|chain| - 1].event, batch[0]);
    }
    if j > 0 {
      BeforeTransitive(chain[i].event, batch[0], batch[j]);
    }
  }

  /**
   A late event in the middle of the chain: a purge by age that expires it, but neither one chained
   before nor one chained after it, breaks the chain although it splits no instant.
   */
  lemma {:induction false} LateEventOpensHole(
    lib: Library, s: Ledger, cutoff: int, i: nat, j: nat, k: nat)
    requires Intact(lib, s.chain) && i < j < k < |s.chain|
    requires s.chain[j].event.occurredAt < cutoff <= s.chain[i].event.occurredAt && cutoff <= s.chain[k].event.occurredAt
    requires |Expired(s, cutoff)| <= PURGE_LIMIT
    ensures OldestExpired(s, Expired(s, cutoff), cutoff)
    ensures forall v, e :: v in Expired(s, cutoff) && e in EventsOf(s) && e !in Expired(s, cutoff) ==> v.occurredAt != e.occurredAt
    ensures !Intact(lib, Survivors(s.chain, Expired(s, cutoff)))
  {
    var victims := Expired(s, cutoff);
    assert s.chain[j] in s.chain;
    assert s.chain[j].event in victims && s.chain[i].event !in victims && s.chain[k].event !in victims;
    PurgeValidExactly(lib, s.chain, victims);
  }

  ghost function Expired(s: Ledger, cutoff: int): set<AuditEvent> {
    set e | e in EventsOf(s) && e.occurredAt < cutoff
  }

  // ----- A chain that starts again -----

  /** The seal was made on one of these events, chained from genesis. */
  ghost predicate SealedOn(lib: Library, events: seq<AuditEvent>, seal: Seal) {
    && 1 <= seal.lastChainIndex <= |Link(lib, GENESIS_HASH, 0, events)|
    && Link(lib, GENESIS_HASH, 0, events)[seal.lastChainIndex - 1].chainHash == Some(seal.chainHash)
  }

  /** A chain that was purged completely restarts at genesis, with the old seals. */
  lemma {:induction false} EmptiedChainRestarts(
    lib: Library, s: Ledger, t: Ledger, batch: seq<AuditEvent>)
    requires s.chain == [] && ChainedAs(lib, s, t, batch)
    ensures t.chain == Link(lib, GENESIS_HASH, 0, batch) && t.seals == s.seals
  {
    assert [] + Link(lib, GENESIS_HASH, 0, batch) == Link(lib, GENESIS_HASH, 0, batch);
  }

  ghost predicate NoSharedId(events: seq<AuditEvent>, others: seq<AuditEvent>) {
    forall i, j :: 0 <= i < |events| && 0 <= j < |others| ==> events[i].id != others[j].id
  }

  /** The texts of both chains are parsed JSON and free of collisions. */
  ghost predicate Comparable(lib: Library, events: seq<AuditEvent>, others: seq<AuditEvent>) {
    && StoredJson(Link(lib, GENESIS_HASH, 0, events)) && StoredJson(Link(lib, GENESIS_HASH, 0, others))
    && CollisionFree(lib, Link(lib, GENESIS_HASH, 0, events), Link(lib, GENESIS_HASH, 0, others))
  }

  /** An old seal matches the new chain exactly as long as that chain has not reached the sealed index. */
  lemma {:induction false} OldSealMatchesExactly(
    lib: Library, events: seq<AuditEvent>, oldEvents: seq<AuditEvent>, seal: Seal)
    requires Sound(lib) && SealedOn(lib, oldEvents, seal) && NoSharedId(events, oldEvents) && Comparable(lib, events, oldEvents)
    ensures SealMatches(Link(lib, GENESIS_HASH, 0, events), seal) <==> |events| < seal.lastChainIndex
  {
    var chain, original := Link(lib, GENESIS_HASH, 0, events), Link(lib, GENESIS_HASH, 0, oldEvents);
    LinkEvents(lib, GENESIS_HASH, 0, events);
    LinkEvents(lib, GENESIS_HASH, 0, oldEvents);
    LinkShape(lib, GENESIS_HASH, 0, events);
    LinkShape(lib, GENESIS_HASH, 0, oldEvents);
    if seal.lastChainIndex <= |events| {
      var k := seal.lastChainIndex - 1;
      assert Index(chain[k]) == seal.lastChainIndex;
      assert ContentMatches(lib, chain[k]) && ContentMatches(lib, original[k]);
      assert chain[k].event.id != original[k].event.id;
      if chain[k].chainHash == original[k].chainHash {
        SameHashSameRecord(lib, chain[k], original[k]);
        assert false;
      }
    }
  }
}
