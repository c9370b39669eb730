/**
 The worker's routines over the stored journal: `chainAuditEvents`, `sealAuditChain`, the audit
 half of `maintainHistory`, and `verifyAuditChain`. The first three update the table and are
 proved to take the ledger steps of `AuditLedger`; the last reads any table at all.
 */
module AuditStore {
  import opened Wrappers
  import opened Utf16
  import opened Sorting
  import opened CanonicalJson
  import opened CanonicalJsonFaithful
  import opened AuditChain
  import opened AuditLedger

  predicate IsChained(r: Row) {
    r.chainIndex.Some?
  }

  predicate ByIndex(r: Row, q: Row) {
    Index(r) <= Index(q)
  }

  predicate ByTime(r: Row, q: Row) {
    !Before(q.event, r.event)
  }

  predicate ByInstant(r: Row, q: Row) {
    r.event.occurredAt <= q.event.occurredAt
  }

  lemma IndexOrderIsTotal()
    ensures TotalPreorder(ByIndex)
    ensures TotalPreorder(ByInstant)
  {
  }

  lemma {:induction false} BeforeLaws(e: AuditEvent, f: AuditEvent, g: AuditEvent)
    ensures !(Before(e, f) && Before(f, e))
    ensures Before(e, f) && Before(f, g) ==> Before(e, g)
    ensures !Before(e, f) && !Before(f, e) ==> e.occurredAt == f.occurredAt && e.id == f.id
  {
    LessTrichotomy(e.id, f.id);
    if Less(e.id, f.id) && Less(f.id, g.id) {
      LessTransitive(e.id, f.id, g.id);
    }
  }

  lemma {:induction false} TimeOrderIsTotal()
    ensures TotalPreorder(ByTime)
  {
    forall x, y
      ensures ByTime(x, y) || ByTime(y, x)
    {
      BeforeLaws(x.event, y.event, y.event);
    }
    forall x, y, z | ByTime(x, y) && ByTime(y, z)
      ensures ByTime(x, z)
    {
      BeforeLaws(x.event, y.event, z.event);
      BeforeLaws(z.event, x.event, y.event);
      BeforeLaws(y.event, z.event, x.event);
      BeforeLaws(x.event, y.event, x.event);
      BeforeLaws(y.event, z.event, y.event);
    }
  }

  ghost predicate StrictByIndex(rows: seq<Row>) {
    forall i, j :: 0 <= i < j < |rows| ==> Index(rows[i]) < Index(rows[j])
  }

  lemma TailMembers(xs: seq<Row>)
    requires xs != [] && StrictByIndex(xs)
    ensures StrictByIndex(xs[1..]) && forall r :: r in xs[1..] <==> r in xs && r != xs[0]
  {
    assert xs == [xs[0]] + xs[1..];
  }

  lemma LeastRow(xs: seq<Row>, ys: seq<Row>)
    requires xs != [] && ys != [] && StrictByIndex(xs) && StrictByIndex(ys) && forall r :: r in xs <==> r in ys
    ensures xs[0] == ys[0]
  {
    assert xs[0] in ys && ys[0] in xs;
  }

  /** Rows in strict index order are determined by which rows they are. */
  lemma {:induction false} StrictUnique(xs: seq<Row>, ys: seq<Row>)
    requires StrictByIndex(xs) && StrictByIndex(ys) && forall r :: r in xs <==> r in ys
    ensures xs == ys
  {
    assert xs != [] ==> xs[0] in ys;
    assert ys != [] ==> ys[0] in xs;
    if xs != [] {
      LeastRow(xs, ys);
      TailMembers(xs);
      TailMembers(ys);
      StrictUnique(xs[1..], ys[1..]);
      assert xs == [xs[0]] + xs[1..] && ys == [ys[0]] + ys[1..];
    }
  }

  // ----- The table and the ledger it stores -----

  /** `id` is the primary key and `chainIndex` is unique. */
  ghost predicate KeysUnique(rows: seq<Row>) {
    && (forall i, j :: 0 <= i < j < |rows| ==> rows[i].event.id != rows[j].event.id)
    && (forall i, j :: 0 <= i < j < |rows| && rows[i].chainIndex.Some? ==> rows[i].chainIndex != rows[j].chainIndex)
  }

  ghost predicate Stores(rows: seq<Row>, chain: seq<Row>, pending: set<AuditEvent>) {
    && KeysUnique(rows)
    && StrictByIndex(chain)
    && (forall r :: r in chain <==> r in rows && IsChained(r))
    && (forall e :: e in pending <==> Row(e, None, None, None) in rows)
    && (forall r :: r in rows && !IsChained(r) ==> r == Row(r.event, None, None, None))
  }

  lemma {:induction false} NoRepeatedRows(rows: seq<Row>)
    requires KeysUnique(rows)
    ensures NoRepeats(rows)
  {
  }

  lemma {:induction false} ChainQuery(
    rows: seq<Row>, chain: seq<Row>, pending: set<AuditEvent>)
    requires Stores(rows, chain, pending)
    ensures Query(IsChained, rows, ByIndex) == chain
  {
    NoRepeatedRows(rows);
    IndexOrderIsTotal();
    QueryResult(IsChained, rows, ByIndex);
    var r := Query(IsChained, rows, ByIndex);
    forall i, j | 0 <= i < j < |r|
      ensures Index(r[i]) < Index(r[j])
    {
      DistinctIndices(rows, r[i], r[j]);
    }
    StrictUnique(r, chain);
  }

  lemma DistinctIndices(rows: seq<Row>, r: Row, q: Row)
    requires KeysUnique(rows) && r in rows && q in rows && r != q && IsChained(r) && IsChained(q)
    ensures Index(r) != Index(q)
  {
    var i :| 0 <= i < |rows| && rows[i] == r;
    var j :| 0 <= j < |rows| && rows[j] == q;
  }

  function Events(rows: seq<Row>): (es: seq<AuditEvent>)
    ensures |es| == |rows| && forall i :: 0 <= i < |rows| ==> es[i] == rows[i].event
  {
    if rows == [] then [] else [rows[0].event] + Events(rows[1..])
  }

  function Updated(rows: seq<Row>, id: Text, index: int, previous: Text, hash: Text): (r: seq<Row>)
    ensures |r| == |rows|
    ensures forall i :: 0 <= i < |rows| ==>
                          r[i] == if rows[i].event.id == id then Row(rows[i].event, Some(index), Some(previous), Some(hash)) else rows[i]
  {
    if rows == [] then []
    else
      [if rows[0].event.id == id then Row(rows[0].event, Some(index), Some(previous), Some(hash)) else rows[0]]
      + Updated(rows[1..], id, index, previous, hash)
  }

  lemma {:induction false} UpdateKeys(rows: seq<Row>, k: nat, row: Row)
    requires KeysUnique(rows) && k < |rows| && row.event.id == rows[k].event.id
    requires forall r :: r in rows ==> r.chainIndex != row.chainIndex
    ensures KeysUnique(rows[k := row])
  {
    var after := rows[k := row];
    assert forall i :: 0 <= i < |rows| ==> rows[i] in rows && after[i].event.id == rows[i].event.id;
  }

  lemma {:induction false} UpdateIsAt(rows: seq<Row>, k: nat, row: Row)
    requires KeysUnique(rows) && k < |rows|
    requires row.event == rows[k].event && row.chainIndex.Some? && row.prevHash.Some? && row.chainHash.Some?
    ensures Updated(rows, row.event.id, row.chainIndex.value, row.prevHash.value, row.chainHash.value) == rows[k := row]
  {
  }

  /** Chaining one pending event moves it from the pending events to the end of the chain. */
  lemma {:induction false} UpdateStores(
    rows: seq<Row>, chain: seq<Row>, pending: set<AuditEvent>, row: Row)
    requires Stores(rows, chain, pending) && row.event in pending
    requires row.chainIndex.Some? && row.prevHash.Some? && row.chainHash.Some?
    requires forall r :: r in chain ==> Index(r) < Index(row)
    ensures Stores(Updated(rows, row.event.id, row.chainIndex.value, row.prevHash.value, row.chainHash.value),
                   chain + [row], pending - {row.event})
  {
    var k :| 0 <= k < |rows| && rows[k] == Row(row.event, None, None, None);
    UpdateIsAt(rows, k, row);
    UpdateKeys(rows, k, row);
    assert row !in rows;
    forall r
      ensures r in rows[k := row] <==> (r == row || (r in rows && r != rows[k]))
    {
      InUpdated(rows, k, row, r);
    }
    ReplacedStores(rows, rows[k := row], chain, pending, row);
  }

  lemma {:induction false} ReplacedStores(
    rows: seq<Row>, after: seq<Row>, chain: seq<Row>, pending: set<AuditEvent>, row: Row)
    requires Stores(rows, chain, pending) && KeysUnique(after)
    requires row.chainIndex.Some? && row.prevHash.Some? && row.chainHash.Some?
    requires forall r :: r in chain ==> Index(r) < Index(row)
    requires forall r :: r in after <==> (r == row || (r in rows && r != Row(row.event, None, None, None)))
    ensures Stores(after, chain + [row], pending - {row.event})
  {
  }

  lemma InUpdated(rows: seq<Row>, k: nat, row: Row, r: Row)
    requires k < |rows| && !IsChained(rows[k]) && KeysUnique(rows) && IsChained(row) && row !in rows
    ensures r in rows[k := row] <==> (r == row || (r in rows && r != rows[k]))
  {
    var after := rows[k := row];
    assert after[k] == row;
    if r in rows && r != rows[k] {
      var i :| 0 <= i < |rows| && rows[i] == r;
      assert after[i] == r;
    }
  }

  /** The ledger once the events have been chained. */
  ghost function AfterChaining(lib: Library, s: Ledger, events: seq<AuditEvent>): Ledger {
    Ledger(s.chain + Link(lib, LastHash(s.chain), LastIndex(s.chain), events),
           s.pending - (set e | e in events), s.seals)
  }

  lemma {:induction false} LinkConcat(
    lib: Library, previous: Text, index: int, events: seq<AuditEvent>, e: AuditEvent)
    requires Sound(lib) && IsHash(previous)
    ensures var done := Link(lib, previous, index, events);
            Link(lib, previous, index, events + [e])
            == done + Link(lib, if done == [] then previous else LastHash(done), index + |events|, [e])
    decreases |events|
  {
    if events == [] {
      assert events + [e] == [e];
    } else {
      var hash, rest := AuditEventHash(lib, previous, events[0]), events[1..];
      var first := Row(events[0], Some(index + 1), Some(previous), Some(hash));
      var more := Link(lib, hash, index + 1, rest);
      LinkConcat(lib, hash, index + 1, rest, e);
      assert (events + [e])[1..] == rest + [e];
      assert Link(lib, previous, index, events) == [first] + more;
      FirstRow(first, more, Link(lib, if more == [] then hash else LastHash(more), index + |events|, [e]));
    }
  }

  lemma {:induction false} FirstRow(first: Row, more: seq<Row>, end: seq<Row>)
    ensures [first] + (more + end) == ([first] + more) + end
    ensures first.chainHash.Some? ==> LastHash([first] + more) == if more == [] then first.chainHash.value else LastHash(more)
  {
  }

  lemma {:induction false} LinkEnd(lib: Library, chain: seq<Row>, events: seq<AuditEvent>)
    requires Sound(lib) && IsHash(LastHash(chain))
    ensures var done := Link(lib, LastHash(chain), LastIndex(chain), events);
            && LastIndex(chain + done) == LastIndex(chain) + |events|
            && LastHash(chain + done) == if done == [] then LastHash(chain) else LastHash(done)
  {
    var done := Link(lib, LastHash(chain), LastIndex(chain), events);
    LinkShape(lib, LastHash(chain), LastIndex(chain), events);
    if done != [] {
      assert (chain + done)[|chain + done| - 1] == done[|done| - 1];
    } else {
      assert chain + done == chain;
    }
  }

  lemma {:induction false} ChainOneMore(
    lib: Library, s: Ledger, events: seq<AuditEvent>, e: AuditEvent)
    requires Sound(lib) && IsHash(LastHash(s.chain))
    ensures AfterChaining(lib, AfterChaining(lib, s, events), [e]) == AfterChaining(lib, s, events + [e])
  {
    var hash, index := LastHash(s.chain), LastIndex(s.chain);
    var done := Link(lib, hash, index, events);
    LinkEnd(lib, s.chain, events);
    LinkConcat(lib, hash, index, events, e);
    var one := Link(lib, LastHash(s.chain + done), index + |events|, [e]);
    assert Link(lib, hash, index, events + [e]) == done + one;
    assert (s.chain + done) + one == s.chain + (done + one);
    assert (set f | f in events + [e]) == (set f | f in events) + (set f | f in [e]);
  }

  ghost predicate HashesOk(chain: seq<Row>) {
    forall r :: r in chain ==> Index(r) >= 1 && r.chainHash.Some? && IsHash(r.chainHash.value)
  }

  lemma AfterOne(lib: Library, s: Ledger, e: AuditEvent)
    requires Sound(lib)
    ensures var row := Row(e, Some(LastIndex(s.chain) + 1), Some(LastHash(s.chain)), Some(AuditEventHash(lib, LastHash(s.chain), e)));
            && AfterChaining(lib, s, [e]) == Ledger(s.chain + [row], s.pending - {e}, s.seals)
            && LastHash(s.chain + [row]) == row.chainHash.value
            && (HashesOk(s.chain) ==> HashesOk(s.chain + [row]) && forall r :: r in s.chain && StrictByIndex(s.chain) ==> Index(r) < Index(row))
  {
    assert [e][1..] == [];
    assert (set f | f in [e]) == {e};
  }

  lemma {:induction false} RecordStores(rows: seq<Row>, s: Ledger, event: AuditEvent)
    requires Stores(rows, s.chain, s.pending) && forall e :: e in EventsOf(s) ==> e.id != event.id
    ensures Stores(rows + [Row(event, None, None, None)], s.chain, s.pending + {event})
  {
    var row := Row(event, None, None, None);
    StoredEvents(rows, s);
    assert forall r :: r in rows ==> r.event.id != event.id;
    assert forall r :: r in rows + [row] <==> r in rows || r == row;
  }

  /** The configured minutes, but never less than five. */
  function SealInterval(configuredMinutes: int): (interval: int)
    ensures interval >= 300_000 && interval >= configuredMinutes * 60_000
    ensures interval == 300_000 || interval == configuredMinutes * 60_000
  {
    (if configuredMinutes > 5 then configuredMinutes else 5) * 60_000
  }

  class Journal {
    const lib: Library
    var rows: seq<Row>
    var seals: seq<Seal>
    ghost var ledger: Ledger

    ghost predicate Valid()
      reads this
    {
      && Stores(rows, ledger.chain, ledger.pending)
      && ledger.seals == seals
      && (forall i, j :: 0 <= i < j < |seals| ==> seals[i].createdAt < seals[j].createdAt)
      && HashesOk(ledger.chain)
    }

    constructor (lib: Library)
      ensures Valid() && this.lib == lib && ledger == Ledger([], {}, [])
    {
      this.lib := lib;
      rows, seals, ledger := [], [], Ledger([], {}, []);
    }

    /** One turn of the chaining loop. */
    method ChainEvent(
      event: AuditEvent, index: int, previous: Text)
      returns (chainHash: Text)
      requires Valid() && Sound(lib) && event in ledger.pending
      requires index == LastIndex(ledger.chain) + 1 && previous == LastHash(ledger.chain)
      modifies this`rows, this`ledger
      ensures Valid() && ledger == AfterChaining(lib, old(ledger), [event])
      ensures chainHash == LastHash(ledger.chain)
    {
      chainHash := AuditEventHash(lib, previous, event);
      ghost var row := Row(event, Some(index), Some(previous), Some(chainHash));
      AfterOne(lib, ledger, event);
      UpdateStores(rows, ledger.chain, ledger.pending, row);
      rows := Updated(rows, event.id, index, previous, chainHash);
      ledger := Ledger(ledger.chain + [row], ledger.pending - {event}, ledger.seals);
    }

    /** The chaining loop over the events a query returned. */
    method ChainBatch(events: seq<AuditEvent>, lastIndex: int, lastHash: Text)
      requires Valid() && Sound(lib) && IsHash(lastHash) && NoRepeats(events)
      requires forall e :: e in events ==> e in ledger.pending
      requires lastIndex == LastIndex(ledger.chain) && lastHash == LastHash(ledger.chain)
      modifies this`rows, this`ledger
      ensures Valid() && ledger == AfterChaining(lib, old(ledger), events)
    {
      var index, previous := lastIndex, lastHash;
      ghost var before := ledger;
      NothingChained(lib, before);
      for k := 0 to |events|
        invariant Valid() && ledger == AfterChaining(lib, before, events[..k])
        invariant index == LastIndex(ledger.chain) && previous == LastHash(ledger.chain)
        invariant IsHash(previous)
      {
        index := index + 1;
        BatchNext(lib, before, events, k);
        LinkedOne(lib, ledger, events[k]);
        previous := ChainEvent(events[k], index, previous);
      }
      assert events[..|events|] == events;
    }

    method ChainAuditEvents(now: int)
      requires Valid() && Sound(lib)
      modifies this`rows, this`ledger
      ensures Valid() && Chained(lib, old(ledger), ledger, now)
    {
      var index, previous := LastChained();
      var cutoff := now - SETTLE_MS;
      var keep := (r: Row) => !IsChained(r) && r.event.occurredAt < cutoff;
      var events := Events(Take(Query(keep, rows, ByTime), BATCH));
      SettledBatch(rows, ledger, now, keep);
      ghost var before := ledger;
      ChainBatch(events, index, previous);
      assert ChainedAs(lib, before, ledger, events);
    }

    /** `findFirst` on the chained events, newest index first. */
    method LastChained() returns (index: int, hash: Text)
      requires Valid()
      ensures index == LastIndex(ledger.chain) && hash == LastHash(ledger.chain) && IsHash(hash)
    {
      ChainQuery(rows, ledger.chain, ledger.pending);
      var chain := Query(IsChained, rows, ByIndex);
      index, hash := 0, GENESIS_HASH;
      if chain != [] {
        var last := chain[|chain| - 1];
        assert last in ledger.chain;
        index, hash := Index(last), OrElse(last.chainHash, GENESIS_HASH);
      }
    }

    /** An event of the application: `id` and `occurredAt` are chosen at the insertion. */
    method Record(event: AuditEvent)
      requires Valid() && forall e :: e in EventsOf(ledger) ==> e.id != event.id
      modifies this`rows, this`ledger
      ensures Valid() && ledger == old(ledger).(pending := old(ledger).pending + {event})
    {
      RecordStores(rows, ledger, event);
      rows := rows + [Row(event, None, None, None)];
      ledger := ledger.(pending := ledger.pending + {event});
    }

    /** `findFirst` on the seals, newest `createdAt` first. */
    method NewestSeal() returns (newest: Option<Seal>)
      requires Valid()
      ensures newest == LastSeal(seals)
    {
      newest := None;
      for k := 0 to |seals|
        invariant newest == LastSeal(seals[..k])
      {
        if newest.None? || seals[k].createdAt > newest.value.createdAt {
          newest := Some(seals[k]);
        }
        assert seals[..k + 1] == seals[..k] + [seals[k]];
      }
      assert seals[..|seals|] == seals;
    }

    /** The configured interval counts from five minutes up. */
    method SealAuditChain(now: int, configuredMinutes: int)
      requires Valid()
      modifies this`seals, this`ledger
      ensures Valid() && Sealed(old(ledger), ledger, now)
      ensures ledger == if SealDue(old(ledger), now, SealInterval(configuredMinutes))
                        then old(ledger).(seals := old(ledger).seals + [NewSeal(old(ledger), now)]) else old(ledger)
    {
      var interval := SealInterval(configuredMinutes);
      var lastSeal := NewestSeal();
      var lastIndex, lastHash := LastChained();
      assert ledger.chain != [] ==> ledger.chain[|ledger.chain| - 1] in ledger.chain;
      if lastIndex == 0
         || (lastSeal.Some? && (lastSeal.value.lastChainIndex >= lastIndex || now - lastSeal.value.createdAt < interval)) {
        assert !SealDue(ledger, now, interval);
        return;
      }
      assert SealDue(ledger, now, interval);
      var count := lastIndex - (if lastSeal.Some? then lastSeal.value.lastChainIndex else 0);
      ghost var seal := NewSeal(ledger, now);
      seals := seals + [Seal(lastIndex, lastHash, count, now)];
      ledger := ledger.(seals := ledger.seals + [seal]);
    }

    method MaintainHistory(now: int, days: int)
      requires Valid()
      modifies this`rows, this`ledger
      ensures Valid()
      ensures days > 0 ==>
                exists victims :: OldestExpired(old(ledger), victims, now - days * 86_400_000)
                                  && PurgedAs(old(ledger), ledger, victims)
      ensures days <= 0 ==> ledger == old(ledger)
    {
      if days > 0 {
        var cutoff := now - days * 86_400_000;
        var keep := (r: Row) => r.event.occurredAt < cutoff;
        var expired := Take(Query(keep, rows, ByInstant), PURGE_LIMIT);
        var ids := set r | r in expired :: r.event.id;
        ghost var victims := set r | r in expired :: r.event;
        ExpiredBatch(rows, ledger, cutoff, keep);
        DeleteMany(ids, expired, victims);
      }
    }

    /** `deleteMany` on the audit events with these ids. */
    method DeleteMany(
      ids: set<Text>, ghost expired: seq<Row>, ghost victims: set<AuditEvent>)
      requires Valid()
      requires ids == set r | r in expired :: r.event.id
      requires victims == set r | r in expired :: r.event
      requires forall r :: r in expired ==> r in rows
      modifies this`rows, this`ledger
      ensures Valid() && PurgedAs(old(ledger), ledger, victims)
    {
      var survives := (r: Row) => r.event.id !in ids;
      PurgeStores(rows, ledger, expired, survives);
      rows := Filter(survives, rows);
      SurvivorsMembers(ledger.chain, victims);
      ledger := ledger.(chain := Survivors(ledger.chain, victims), pending := ledger.pending - victims);
    }
  }

  lemma StoredEvents(rows: seq<Row>, s: Ledger)
    requires Stores(rows, s.chain, s.pending)
    ensures forall e :: e in EventsOf(s) <==> exists r :: r in rows && r.event == e
  {
    forall r | r in rows
      ensures r.event in EventsOf(s)
    {
      if !IsChained(r) {
        assert r == Row(r.event, None, None, None);
      }
    }
    forall e | e in s.pending
      ensures exists r :: r in rows && r.event == e
    {
      assert Row(e, None, None, None).event == e;
    }
  }

  lemma {:induction false} DistinctEvents(rows: seq<Row>)
    requires forall i, j :: 0 <= i < j < |rows| ==> rows[i].event != rows[j].event
    ensures |set r | r in rows :: r.event| == |rows|
  {
    if rows != [] {
      var front, last := rows[..|rows| - 1], rows[|rows| - 1];
      DistinctEvents(front);
      assert rows == front + [last];
      assert (set r | r in rows :: r.event) == (set r | r in front :: r.event) + {last.event};
      assert last.event !in set r | r in front :: r.event;
    }
  }

  /** Rows with equal events are the same row. */
  lemma SameEventSameRow(rows: seq<Row>, r: Row, q: Row)
    requires KeysUnique(rows) && r in rows && q in rows && r.event.id == q.event.id
    ensures r == q
  {
    var i :| 0 <= i < |rows| && rows[i] == r;
    var j :| 0 <= j < |rows| && rows[j] == q;
  }

  /** What the purge query answers before it is cut off. */
  ghost predicate ExpiredRows(expired: seq<Row>, rows: seq<Row>, cutoff: int) {
    && (forall x :: x in expired <==> x in rows && x.event.occurredAt < cutoff)
    && (forall i, j :: 0 <= i < j < |expired| ==> ByInstant(expired[i], expired[j]))
    && (forall i, j :: 0 <= i < j < |expired| ==> expired[i].event != expired[j].event)
  }

  lemma {:induction false} ExpiredQuery(rows: seq<Row>, cutoff: int, keep: Row -> bool)
    requires KeysUnique(rows) && forall r :: keep(r) <==> r.event.occurredAt < cutoff
    ensures ExpiredRows(Query(keep, rows, ByInstant), rows, cutoff)
  {
    NoRepeatedRows(rows);
    IndexOrderIsTotal();
    QueryResult(keep, rows, ByInstant);
    var r := Query(keep, rows, ByInstant);
    forall i, j | 0 <= i < j < |r|
      ensures r[i].event != r[j].event
    {
      assert r[i] in rows && r[j] in rows && r[i] != r[j];
      if r[i].event == r[j].event {
        SameEventSameRow(rows, r[i], r[j]);
      }
    }
  }

  lemma {:induction false} ExpiredRest(
    expired: seq<Row>, rows: seq<Row>, cutoff: int, r: Row, v: Row)
    requires ExpiredRows(expired, rows, cutoff)
    requires r in rows && r !in Take(expired, PURGE_LIMIT) && v in Take(expired, PURGE_LIMIT)
    ensures v.event.occurredAt <= r.event.occurredAt
    ensures r.event.occurredAt < cutoff ==> |Take(expired, PURGE_LIMIT)| == PURGE_LIMIT
  {
    var page := Take(expired, PURGE_LIMIT);
    assert forall j :: 0 <= j < |page| ==> page[j] == expired[j] && page[j] in page;
    var i :| 0 <= i < |page| && page[i] == v;
    assert v in expired;
    if r.event.occurredAt < cutoff {
      assert r in expired;
      var j :| 0 <= j < |expired| && expired[j] == r;
      assert j >= |page|;
    }
  }

  lemma TakeMembers(all: seq<Row>, n: nat)
    ensures |Take(all, n)| <= |all| && forall j :: 0 <= j < |Take(all, n)| ==> Take(all, n)[j] == all[j]
    ensures forall r :: r in Take(all, n) ==> r in all
  {
  }

  lemma {:induction false} ExpiredBatch(
    rows: seq<Row>, s: Ledger, cutoff: int, keep: Row -> bool)
    requires Stores(rows, s.chain, s.pending) && forall r :: keep(r) <==> r.event.occurredAt < cutoff
    ensures var expired := Take(Query(keep, rows, ByInstant), PURGE_LIMIT);
            && (forall r :: r in expired ==> r in rows)
            && OldestExpired(s, set r | r in expired :: r.event, cutoff)
  {
    var all := Query(keep, rows, ByInstant);
    var expired := Take(all, PURGE_LIMIT);
    var victims := set r | r in expired :: r.event;
    ExpiredQuery(rows, cutoff, keep);
    StoredEvents(rows, s);
    TakeMembers(all, PURGE_LIMIT);
    DistinctEvents(expired);
    forall e | e in EventsOf(s) && e !in victims
      ensures forall v :: v in victims ==> v.occurredAt <= e.occurredAt
      ensures e.occurredAt < cutoff ==> |victims| == PURGE_LIMIT
    {
      var r :| r in rows && r.event == e;
      ExpiredLater(all, rows, cutoff, r);
    }
  }

  lemma {:induction false} ExpiredLater(all: seq<Row>, rows: seq<Row>, cutoff: int, r: Row)
    requires ExpiredRows(all, rows, cutoff) && r in rows && r !in Take(all, PURGE_LIMIT)
    ensures forall v :: v in Take(all, PURGE_LIMIT) ==> v.event.occurredAt <= r.event.occurredAt
    ensures r.event.occurredAt < cutoff ==> |Take(all, PURGE_LIMIT)| == PURGE_LIMIT
  {
    var page := Take(all, PURGE_LIMIT);
    forall v | v in page
      ensures v.event.occurredAt <= r.event.occurredAt
    {
      ExpiredRest(all, rows, cutoff, r, v);
    }
    if r.event.occurredAt < cutoff {
      assert r in all;
      if |page| > 0 {
        ExpiredRest(all, rows, cutoff, r, page[0]);
      }
    }
  }

  /** Deleting the rows of the victims leaves the surviving chain and the surviving pending events. */
  lemma {:induction false} PurgeStores(
    rows: seq<Row>, s: Ledger, expired: seq<Row>, survives: Row -> bool)
    requires Stores(rows, s.chain, s.pending) && forall r :: r in expired ==> r in rows
    requires forall r :: survives(r) <==> forall x :: x in expired ==> x.event.id != r.event.id
    ensures var victims := set r | r in expired :: r.event;
            Stores(Filter(survives, rows), Survivors(s.chain, victims), s.pending - victims)
  {
    var victims := set r | r in expired :: r.event;
    FilterMembers(survives, rows);
    SurvivorsMembers(s.chain, victims);
    SurvivorsStrict(s.chain, victims);
    FilterKeys(rows, survives);
    forall r | r in rows
      ensures survives(r) <==> r.event !in victims
    {
      forall x | x in expired && x.event.id == r.event.id
        ensures x == r
      {
        SameEventSameRow(rows, x, r);
      }
    }
  }

  lemma {:induction false} SurvivorsStrict(chain: seq<Row>, victims: set<AuditEvent>)
    requires StrictByIndex(chain)
    ensures StrictByIndex(Survivors(chain, victims))
  {
    if chain != [] {
      TailMembers(chain);
      SurvivorsStrict(chain[1..], victims);
      SurvivorsMembers(chain[1..], victims);
      var tail := Survivors(chain[1..], victims);
      forall j | 0 <= j < |tail|
        ensures Index(chain[0]) < Index(tail[j])
      {
        assert tail[j] in chain[1..];
        var k :| 0 <= k < |chain[1..]| && chain[1..][k] == tail[j];
        assert chain[k + 1] == tail[j];
      }
    }
  }

  lemma {:induction false} FilterKeys(rows: seq<Row>, keep: Row -> bool)
    requires KeysUnique(rows)
    ensures KeysUnique(Filter(keep, rows))
  {
    if rows != [] {
      assert forall i :: 0 <= i < |rows[1..]| ==> rows[1..][i] == rows[i + 1];
      FilterKeys(rows[1..], keep);
      FilterMembers(keep, rows[1..]);
      var tail := Filter(keep, rows[1..]);
      forall j | 0 <= j < |tail|
        ensures tail[j].event.id != rows[0].event.id
        ensures rows[0].chainIndex.Some? ==> rows[0].chainIndex != tail[j].chainIndex
      {
        assert tail[j] in rows[1..];
        var k :| 0 <= k < |rows[1..]| && rows[1..][k] == tail[j];
        assert rows[k + 1] == tail[j];
      }
    }
  }

  lemma NothingChained(lib: Library, s: Ledger)
    ensures AfterChaining(lib, s, []) == s
  {
  }

  lemma {:induction false} BatchNext(
    lib: Library, s: Ledger, events: seq<AuditEvent>, k: nat)
    requires Sound(lib) && IsHash(LastHash(s.chain)) && k < |events| && NoRepeats(events)
    requires forall e :: e in events ==> e in s.pending
    ensures events[k] in AfterChaining(lib, s, events[..k]).pending
    ensures AfterChaining(lib, AfterChaining(lib, s, events[..k]), [events[k]]) == AfterChaining(lib, s, events[..k + 1])
  {
    assert events[..k + 1] == events[..k] + [events[k]];
    ChainOneMore(lib, s, events[..k], events[k]);
  }

  lemma {:induction false} LinkedOne(lib: Library, s: Ledger, e: AuditEvent)
    requires Sound(lib) && IsHash(LastHash(s.chain))
    ensures LastIndex(AfterChaining(lib, s, [e]).chain) == LastIndex(s.chain) + 1
  {
    LinkEnd(lib, s.chain, [e]);
  }

  lemma {:induction false} TimeQuery(rows: seq<Row>, keep: Row -> bool)
    requires KeysUnique(rows)
    ensures var r := Query(keep, rows, ByTime);
            && (forall x :: x in r <==> x in rows && keep(x))
            && forall i, j :: 0 <= i < j < |r| ==> Before(r[i].event, r[j].event)
  {
    NoRepeatedRows(rows);
    TimeOrderIsTotal();
    QueryResult(keep, rows, ByTime);
    var r := Query(keep, rows, ByTime);
    forall i, j | 0 <= i < j < |r|
      ensures Before(r[i].event, r[j].event)
    {
      StrictTime(rows, r[i], r[j]);
    }
  }

  /** What the batch query answers before it is cut off. */
  ghost predicate SettledRows(settled: seq<Row>, s: Ledger, now: int) {
    && (forall x :: x in settled ==> x.event in s.pending && x.event.occurredAt < now - SETTLE_MS)
    && (forall e :: e in s.pending && e.occurredAt < now - SETTLE_MS ==> Row(e, None, None, None) in settled)
    && forall i, j :: 0 <= i < j < |settled| ==> Before(settled[i].event, settled[j].event)
  }

  lemma {:induction false} RestIsLater(
    settled: seq<Row>, s: Ledger, now: int, e: AuditEvent)
    requires SettledRows(settled, s, now)
    requires e in s.pending && e.occurredAt < now - SETTLE_MS && e !in Events(Take(settled, BATCH))
    ensures |Take(settled, BATCH)| == BATCH
    ensures forall b :: b in Events(Take(settled, BATCH)) ==> Before(b, e)
  {
    var batch := Events(Take(settled, BATCH));
    assert forall j :: 0 <= j < |batch| ==> batch[j] == settled[j].event && batch[j] in batch;
    var j :| 0 <= j < |settled| && settled[j] == Row(e, None, None, None);
    assert j >= |batch|;
  }

  lemma {:induction false} PageIsSettled(settled: seq<Row>, s: Ledger, now: int)
    requires SettledRows(settled, s, now)
    ensures var batch := Events(Take(settled, BATCH));
            && |batch| <= BATCH && SortedByTime(batch)
            && forall e :: e in batch ==> e in s.pending && e.occurredAt < now - SETTLE_MS
  {
    var batch := Events(Take(settled, BATCH));
    assert forall j :: 0 <= j < |batch| ==> batch[j] == settled[j].event && settled[j] in settled;
  }

  lemma {:induction false} PageIsOldest(settled: seq<Row>, s: Ledger, now: int)
    requires SettledRows(settled, s, now)
    ensures OldestSettled(s, Events(Take(settled, BATCH)), now)
  {
    var batch := Events(Take(settled, BATCH));
    PageIsSettled(settled, s, now);
    forall e | e in s.pending && e !in batch && e.occurredAt < now - SETTLE_MS
      ensures |batch| == BATCH && forall b :: b in batch ==> Before(b, e)
    {
      RestIsLater(settled, s, now, e);
    }
  }

  /** The rows the batch query returns hold the oldest settled events. */
  lemma {:induction false} SettledBatch(
    rows: seq<Row>, s: Ledger, now: int, keep: Row -> bool)
    requires Stores(rows, s.chain, s.pending)
    requires forall r :: keep(r) <==> !IsChained(r) && r.event.occurredAt < now - SETTLE_MS
    ensures var batch := Events(Take(Query(keep, rows, ByTime), BATCH));
            OldestSettled(s, batch, now) && NoRepeats(batch)
  {
    var settled := Query(keep, rows, ByTime);
    TimeQuery(rows, keep);
    assert SettledRows(settled, s, now);
    PageIsOldest(settled, s, now);
    var batch := Events(Take(settled, BATCH));
    forall i, j | 0 <= i < j < |batch|
      ensures batch[i] != batch[j]
    {
      BeforeLaws(batch[i], batch[j], batch[j]);
    }
  }

  lemma {:induction false} StrictTime(rows: seq<Row>, r: Row, q: Row)
    requires KeysUnique(rows) && r in rows && q in rows && r != q && ByTime(r, q)
    ensures Before(r.event, q.event)
  {
    var i :| 0 <= i < |rows| && rows[i] == r;
    var j :| 0 <= j < |rows| && rows[j] == q;
    BeforeLaws(r.event, q.event, q.event);
  }

  // ----- Verification of any stored table -----

  datatype Reason = MissingEvents | LinkMismatch | ContentAltered

  datatype Finding = Finding(chainIndex: int, reason: Reason)

  /** The findings on one row, given the chained row before it. */
  function RowFindings(lib: Library, before: Option<Row>, r: Row): seq<Finding> {
    (if before.Some? && Index(before.value) + 1 != Index(r) then [Finding(Index(r), MissingEvents)]
     else if before.Some? && r.prevHash != Some(OrElse(before.value.chainHash, [])) then [Finding(Index(r), LinkMismatch)]
     else [])
    + (if ContentMatches(lib, r) then [] else [Finding(Index(r), ContentAltered)])
  }

  function LastRow(rows: seq<Row>): Option<Row> {
    if rows == [] then None else Some(rows[|rows| - 1])
  }

  function Findings(lib: Library, rows: seq<Row>): seq<Finding> {
    if rows == [] then []
    else Findings(lib, rows[..|rows| - 1]) + RowFindings(lib, LastRow(rows[..|rows| - 1]), rows[|rows| - 1])
  }

  /** Row k was stored with a gap before it, with another previous hash, or with a hash that is not its own. */
  ghost predicate Faulty(lib: Library, rows: seq<Row>, k: nat, reason: Reason)
    requires k < |rows|
  {
    match reason
    case MissingEvents => k > 0 && Index(rows[k]) != Index(rows[k - 1]) + 1
    case LinkMismatch =>
      k > 0 && Index(rows[k]) == Index(rows[k - 1]) + 1
      && rows[k].prevHash != Some(if rows[k - 1].chainHash.Some? then rows[k - 1].chainHash.value else [])
    case ContentAltered =>
      rows[k].chainHash != Some(lib.sha256(OrElse(rows[k].prevHash, GENESIS_HASH) + Stable(EventValue(lib, rows[k].event))))
  }

  /** One of the first n rows has this fault. */
  ghost predicate FaultBefore(lib: Library, rows: seq<Row>, n: nat, f: Finding)
    requires n <= |rows|
  {
    exists k: nat :: k < n && Index(rows[k]) == f.chainIndex && Faulty(lib, rows, k, f.reason)
  }

  /** Every fault is reported with its index and its reason, and nothing else is. */
  lemma {:induction false} FindingsAreFaults(lib: Library, rows: seq<Row>, f: Finding)
    ensures f in Findings(lib, rows) <==> FaultBefore(lib, rows, |rows|, f)
  {
    if rows != [] {
      var n := |rows| - 1;
      FindingsAreFaults(lib, rows[..n], f);
      FaultsOfFront(lib, rows, f);
      LastFaults(lib, rows, f);
      assert FaultBefore(lib, rows, |rows|, f) <==>
             FaultBefore(lib, rows, n, f) || (Index(rows[n]) == f.chainIndex && Faulty(lib, rows, n, f.reason));
    }
  }

  lemma {:induction false} FaultsOfFront(lib: Library, rows: seq<Row>, f: Finding)
    requires rows != []
    ensures FaultBefore(lib, rows[..|rows| - 1], |rows| - 1, f) <==> FaultBefore(lib, rows, |rows| - 1, f)
  {
    forall k: nat | k < |rows| - 1
      ensures Faulty(lib, rows[..|rows| - 1], k, f.reason) <==> Faulty(lib, rows, k, f.reason)
    {
      SameFault(lib, rows, k, f.reason);
    }
  }

  /** Findings come in the order of the chain. */
  lemma {:induction false} FindingsAscend(lib: Library, rows: seq<Row>)
    requires StrictByIndex(rows)
    ensures forall i, j :: 0 <= i < j < |Findings(lib, rows)| ==> Findings(lib, rows)[i].chainIndex <= Findings(lib, rows)[j].chainIndex
    ensures forall f :: f in Findings(lib, rows) ==> rows != [] && f.chainIndex <= Index(rows[|rows| - 1])
  {
    if rows != [] {
      var front, r := rows[..|rows| - 1], rows[|rows| - 1];
      FindingsAscend(lib, front);
      var earlier, last := Findings(lib, front), RowFindings(lib, LastRow(front), r);
      assert Findings(lib, rows) == earlier + last;
      assert forall f :: f in last ==> f.chainIndex == Index(r);
      assert front != [] ==> Index(front[|front| - 1]) < Index(r);
      assert forall i :: 0 <= i < |earlier| ==> earlier[i] in earlier;
      assert forall i :: 0 <= i < |last| ==> last[i] in last;
    }
  }

  lemma {:induction false} SameFault(lib: Library, rows: seq<Row>, k: nat, reason: Reason)
    requires k < |rows| - 1
    ensures Faulty(lib, rows[..|rows| - 1], k, reason) <==> Faulty(lib, rows, k, reason)
  {
  }

  lemma {:induction false} LastFaults(lib: Library, rows: seq<Row>, f: Finding)
    requires rows != []
    ensures f in RowFindings(lib, LastRow(rows[..|rows| - 1]), rows[|rows| - 1]) <==>
            Index(rows[|rows| - 1]) == f.chainIndex && Faulty(lib, rows, |rows| - 1, f.reason)
  {
  }

  lemma {:induction false} NoFindingsMeansIntact(lib: Library, rows: seq<Row>)
    ensures Findings(lib, rows) == [] <==> Intact(lib, rows)
  {
    if rows != [] {
      var front, r := rows[..|rows| - 1], rows[|rows| - 1];
      NoFindingsMeansIntact(lib, front);
      IntactSnoc(lib, front, r);
      NoRowFindings(lib, LastRow(front), r);
      assert rows == front + [r];
    }
  }

  lemma {:induction false} NoRowFindings(lib: Library, before: Option<Row>, r: Row)
    ensures RowFindings(lib, before, r) == [] <==> ContentMatches(lib, r) && (before.Some? ==> LinkMatches(before.value, r))
  {
  }

  lemma {:induction false} IntactSnoc(lib: Library, front: seq<Row>, r: Row)
    ensures Intact(lib, front + [r]) <==>
            Intact(lib, front) && ContentMatches(lib, r) && (front != [] ==> LinkMatches(front[|front| - 1], r))
  {
    var rows := front + [r];
    assert rows[|front|] == r;
    assert forall i :: 0 <= i < |front| ==> rows[i] == front[i];
    if Intact(lib, rows) {
      assert front != [] ==> LinkMatches(rows[|front| - 1], rows[|front|]);
      forall i | 0 < i < |front|
        ensures LinkMatches(front[i - 1], front[i])
      {
        assert LinkMatches(rows[i - 1], rows[i]);
      }
    }
  }

  predicate HasPositiveIndex(r: Row) {
    Index(r) > 0
  }

  /** The rows the verifier reads, in index order. */
  function VerifiedChain(rows: seq<Row>): seq<Row> {
    Query(HasPositiveIndex, rows, ByIndex)
  }

  lemma {:induction false} IndexQuery(rows: seq<Row>, keep: Row -> bool, cursor: int)
    requires KeysUnique(rows) && cursor >= 0 && forall r :: keep(r) <==> Index(r) > cursor
    ensures StrictByIndex(Query(keep, rows, ByIndex))
    ensures forall r :: r in Query(keep, rows, ByIndex) <==> r in rows && Index(r) > cursor
  {
    NoRepeatedRows(rows);
    IndexOrderIsTotal();
    QueryResult(keep, rows, ByIndex);
    var r := Query(keep, rows, ByIndex);
    forall i, j | 0 <= i < j < |r|
      ensures Index(r[i]) < Index(r[j])
    {
      assert r[i] in r && r[j] in r;
      DistinctIndices(rows, r[i], r[j]);
    }
  }

  /** Reading on from the last index read gives exactly the rest of the chain. */
  lemma {:induction false} NextPage(
    rows: seq<Row>, done: nat, keep: Row -> bool, cursor: int)
    requires KeysUnique(rows) && done <= |VerifiedChain(rows)|
    requires cursor == if done == 0 then 0 else Index(VerifiedChain(rows)[done - 1])
    requires forall r :: keep(r) <==> Index(r) > cursor
    ensures Query(keep, rows, ByIndex) == VerifiedChain(rows)[done..]
  {
    var all := VerifiedChain(rows);
    IndexQuery(rows, HasPositiveIndex, 0);
    if done > 0 {
      assert all[done - 1] in all;
    }
    IndexQuery(rows, keep, cursor);
    forall r
      ensures r in all[done..] <==> r in Query(keep, rows, ByIndex)
    {
      AfterCursor(all, done, r);
    }
    StrictUnique(Query(keep, rows, ByIndex), all[done..]);
  }

  /** In index order, the rows from a position on are those with a higher index than the one before it. */
  lemma {:induction false} AfterCursor(all: seq<Row>, done: nat, r: Row)
    requires done <= |all| && forall i, j :: 0 <= i < j < |all| ==> Index(all[i]) < Index(all[j])
    ensures r in all[done..] <==> r in all && (done > 0 ==> Index(r) > Index(all[done - 1]))
  {
    if r in all {
      var i :| 0 <= i < |all| && all[i] == r;
      assert i >= done ==> all[done..][i - done] == r;
    }
    if r in all[done..] {
      var i :| 0 <= i < |all[done..]| && all[done..][i] == r;
      assert r == all[done + i];
    }
  }

  const PAGE := 5000
  const SEAL_PAGE := 500

  predicate NewestFirst(x: Seal, y: Seal) {
    x.createdAt >= y.createdAt
  }

  /** A seal is contradicted by a stored event of its index that carries another hash. */
  predicate Contradicts(rows: seq<Row>, seal: Seal) {
    exists r :: r in rows && r.chainIndex == Some(seal.lastChainIndex) && r.chainHash != Some(seal.chainHash)
  }

  function CheckedSeals(seals: seq<Seal>): seq<Seal> {
    Take(SortBy(seals, NewestFirst), SEAL_PAGE)
  }

  /** These are newest seals: none that is left out was created after any of them. */
  ghost predicate AreNewest(checked: seq<Seal>, seals: seq<Seal>) {
    && multiset(checked) <= multiset(seals)
    && forall c, u :: c in checked && u in multiset(seals) - multiset(checked) ==> u.createdAt <= c.createdAt
  }

  /** The verifier compares the 500 newest seals, and all of them when there are no more. */
  lemma {:induction false} NewestAreChecked(seals: seq<Seal>)
    ensures AreNewest(CheckedSeals(seals), seals)
    ensures |seals| <= 500 ==> multiset(CheckedSeals(seals)) == multiset(seals)
    ensures |seals| > 500 ==> |CheckedSeals(seals)| == 500
  {
    var sorted, checked := SortBy(seals, NewestFirst), CheckedSeals(seals);
    var rest := sorted[|checked|..];
    NewestFirstIsTotal();
    SortSorts(seals, NewestFirst);
    assert sorted == checked + rest;
    forall c, u | c in checked && u in multiset(seals) - multiset(checked)
      ensures u.createdAt <= c.createdAt
    {
      assert u in rest;
      FrontIsNewer(checked, rest, c, u);
    }
  }

  lemma {:induction false} FrontIsNewer(checked: seq<Seal>, rest: seq<Seal>, c: Seal, u: Seal)
    requires SortedBy(checked + rest, NewestFirst) && c in checked && u in rest
    ensures u.createdAt <= c.createdAt
  {
    var i :| 0 <= i < |checked| && checked[i] == c;
    var j :| 0 <= j < |rest| && rest[j] == u;
    assert NewestFirst((checked + rest)[i], (checked + rest)[|checked| + j]);
  }

  lemma {:induction false} NewestFirstIsTotal()
    ensures TotalPreorder(NewestFirst)
  {
  }

  method CountMismatches(rows: seq<Row>, seals: seq<Seal>) returns (mismatched: nat)
    ensures mismatched == 0 <==> forall seal :: seal in seals ==> !Contradicts(rows, seal)
    ensures mismatched == |set k | 0 <= k < |seals| && Contradicts(rows, seals[k])|
  {
    mismatched := 0;
    for k := 0 to |seals|
      invariant mismatched == 0 <==> forall i :: 0 <= i < k ==> !Contradicts(rows, seals[i])
      invariant mismatched == |set i | 0 <= i < k && Contradicts(rows, seals[i])|
    {
      assert (set i | 0 <= i < k + 1 && Contradicts(rows, seals[i]))
          == (set i | 0 <= i < k && Contradicts(rows, seals[i])) + if Contradicts(rows, seals[k]) then {k} else {};
      if Contradicts(rows, seals[k]) {
        mismatched := mismatched + 1;
      }
    }
  }

  lemma {:induction false} FindingsSnoc(lib: Library, rows: seq<Row>, r: Row)
    ensures Findings(lib, rows + [r]) == Findings(lib, rows) + RowFindings(lib, LastRow(rows), r)
  {
    assert (rows + [r])[..|rows|] == rows;
  }

  lemma OneMoreOf(done: seq<Row>, page: seq<Row>, k: nat)
    requires k < |page|
    ensures done + page[..k + 1] == (done + page[..k]) + [page[k]]
  {
  }

  /** The inner loop over one page, continuing after the rows already checked. */
  method CheckPage(
    lib: Library, page: seq<Row>, ghost done: seq<Row>, previous: Option<Row>, broken: seq<Finding>)
    returns (newest: Option<Row>, findings: seq<Finding>)
    requires previous == LastRow(done) && broken == Findings(lib, done)
    ensures newest == LastRow(done + page) && findings == Findings(lib, done + page)
  {
    newest, findings := previous, broken;
    assert done + page[..0] == done;
    for k := 0 to |page|
      invariant newest == LastRow(done + page[..k]) && findings == Findings(lib, done + page[..k])
    {
      OneMoreOf(done, page, k);
      FindingsSnoc(lib, done + page[..k], page[k]);
      findings := findings + RowFindings(lib, newest, page[k]);
      newest := Some(page[k]);
    }
    assert page[..|page|] == page;
  }

  /** One page of the query, as a stretch of the chain. */
  lemma {:induction false} PageOfChain(all: seq<Row>, done: nat, page: seq<Row>)
    requires done <= |all| && page == Take(all[done..], PAGE)
    ensures done + |page| <= |all| && all[..done + |page|] == all[..done] + page
    ensures page == [] <==> done == |all|
    ensures page != [] ==> page[|page| - 1] == all[done + |page| - 1]
  {
  }

  lemma {:induction false} PageFollows(
    rows: seq<Row>, done: nat, keep: Row -> bool, cursor: int, page: seq<Row>)
    requires KeysUnique(rows) && done <= |VerifiedChain(rows)|
    requires cursor == if done == 0 then 0 else Index(VerifiedChain(rows)[done - 1])
    requires forall r :: keep(r) <==> Index(r) > cursor
    requires page == Take(Query(keep, rows, ByIndex), PAGE)
    ensures var all := VerifiedChain(rows);
            && done + |page| <= |all| && all[..done + |page|] == all[..done] + page
            && (page == [] <==> done == |all|)
            && (page != [] ==> page[|page| - 1] == all[done + |page| - 1])
  {
    NextPage(rows, done, keep, cursor);
    PageOfChain(VerifiedChain(rows), done, page);
  }

  /** The page loop: every chained row, once, in index order. */
  method CheckChain(
    lib: Library, rows: seq<Row>)
    returns (checked: nat, broken: seq<Finding>)
    requires KeysUnique(rows)
    ensures checked == |VerifiedChain(rows)| && broken == Findings(lib, VerifiedChain(rows))
  {
    ghost var all := VerifiedChain(rows);
    broken, checked := [], 0;
    var previous: Option<Row> := None;
    var cursor := 0;
    var more := true;
    while more
      invariant checked <= |all|
      invariant previous == LastRow(all[..checked]) && broken == Findings(lib, all[..checked])
      invariant cursor == if checked == 0 then 0 else Index(all[checked - 1])
      invariant !more ==> checked == |all|
      decreases |all| - checked, more
    {
      var keep := (r: Row) => Index(r) > cursor;
      var page := Take(Query(keep, rows, ByIndex), PAGE);
      PageFollows(rows, checked, keep, cursor, page);
      if page == [] {
        more := false;
      } else {
        previous, broken := CheckPage(lib, page, all[..checked], previous, broken);
        checked := checked + |page|;
        cursor := Index(page[|page| - 1]);
      }
    }
    assert all[..|all|] == all;
  }

  /**
   The verifier reports valid exactly when the stored chain is intact and none of the newest
   seals is contradicted, and lists every gap, broken link and altered content in index order.
   */
  method VerifyAuditChain(lib: Library, rows: seq<Row>, seals: seq<Seal>)
    returns (valid: bool, checked: nat, broken: seq<Finding>, mismatched: nat)
    requires KeysUnique(rows)
    ensures checked == |VerifiedChain(rows)| && broken == Findings(lib, VerifiedChain(rows))
    ensures valid <==> ReportsValid(lib, rows, seals)
    ensures AreNewest(CheckedSeals(seals), seals) && (|seals| > 500 ==> |CheckedSeals(seals)| == 500)
    ensures valid && |seals| <= 500 ==> forall seal :: seal in seals ==> !Contradicts(rows, seal)
    ensures valid <==> broken == [] && mismatched == 0
  {
    checked, broken := CheckChain(lib, rows);
    NoFindingsMeansIntact(lib, VerifiedChain(rows));
    NewestAreChecked(seals);
    assert |seals| <= 500 ==> forall seal :: seal in seals ==> seal in multiset(CheckedSeals(seals));
    mismatched := CountMismatches(rows, CheckedSeals(seals));
    valid := broken == [] && mismatched == 0;
  }

  lemma {:induction false} StoredIsVerified(
    rows: seq<Row>, chain: seq<Row>, pending: set<AuditEvent>)
    requires Stores(rows, chain, pending) && forall i :: 0 <= i < |chain| ==> Index(chain[i]) > 0
    ensures VerifiedChain(rows) == chain
  {
    IndexQuery(rows, HasPositiveIndex, 0);
    StrictUnique(VerifiedChain(rows), chain);
  }

  lemma {:induction false} ChainIsVerified(lib: Library, rows: seq<Row>, s: Ledger)
    requires Stores(rows, s.chain, s.pending) && ChainOk(lib, s.chain)
    ensures VerifiedChain(rows) == s.chain
  {
    forall i | 0 <= i < |s.chain|
      ensures Index(s.chain[i]) > 0
    {
      IndexFromFirst(lib, s.chain, i);
    }
    StoredIsVerified(rows, s.chain, s.pending);
  }

  lemma {:induction false} NotContradicted(rows: seq<Row>, s: Ledger, seal: Seal)
    requires Stores(rows, s.chain, s.pending) && SealMatches(s.chain, seal)
    ensures !Contradicts(rows, seal)
  {
    forall r | r in rows && r.chainIndex == Some(seal.lastChainIndex)
      ensures r.chainHash == Some(seal.chainHash)
    {
      assert r in s.chain;
      var i :| 0 <= i < |s.chain| && s.chain[i] == r;
    }
  }

  lemma {:induction false} CheckedSealMatches(s: Ledger, seal: Seal)
    requires SealsMatch(s.chain, s.seals) && seal in CheckedSeals(s.seals)
    ensures SealMatches(s.chain, seal)
  {
    CheckedSealIsSeal(s.seals, seal);
    var k :| 0 <= k < |s.seals| && s.seals[k] == seal;
  }

  /** The table of a well-formed journal is found valid. */
  lemma {:induction false} JournalVerifies(
    lib: Library, rows: seq<Row>, s: Ledger, now: int)
    requires Stores(rows, s.chain, s.pending) && Inv(lib, s, now)
    ensures VerifiedChain(rows) == s.chain
    ensures ReportsValid(lib, rows, s.seals)
  {
    ChainIsVerified(lib, rows, s);
    forall seal | seal in CheckedSeals(s.seals)
      ensures !Contradicts(rows, seal)
    {
      CheckedSealMatches(s, seal);
      NotContradicted(rows, s, seal);
    }
  }

  /** The position of a stored row in the verified chain. */
  lemma {:induction false} VerifiedAt(rows: seq<Row>, r: Row) returns (q: nat)
    requires KeysUnique(rows) && r in rows && Index(r) > 0
    ensures q < |VerifiedChain(rows)| && VerifiedChain(rows)[q] == r
  {
    IndexQuery(rows, HasPositiveIndex, 0);
    assert r in VerifiedChain(rows);
    q :| 0 <= q < |VerifiedChain(rows)| && VerifiedChain(rows)[q] == r;
  }

  ghost predicate StillStored(rows: seq<Row>, n: int) {
    exists r :: r in rows && Index(r) == n
  }

  /** What `VerifyAuditChain` reports as valid. */
  ghost predicate ReportsValid(lib: Library, rows: seq<Row>, seals: seq<Seal>) {
    Intact(lib, VerifiedChain(rows)) && forall seal :: seal in CheckedSeals(seals) ==> !Contradicts(rows, seal)
  }

  /**
   What a valid report is worth: given a checked seal of the original event n, and an event still
   stored at index n, every stored event up to n is the original record of its index, with its
   original hashes, and from the first of them up to n none is missing.
   */
  lemma {:induction false} ValidReportMeansUnaltered(
    lib: Library, rows: seq<Row>, seals: seq<Seal>, events: seq<AuditEvent>, seal: Seal, sealed: Row, r: Row)
    requires Sound(lib) && KeysUnique(rows) && ReportsValid(lib, rows, seals)
    requires seal in CheckedSeals(seals) && SealedOn(lib, events, seal)
    requires sealed in rows && sealed.chainIndex == Some(seal.lastChainIndex)
    requires StoredJson(VerifiedChain(rows)) && StoredJson(Link(lib, GENESIS_HASH, 0, events))
    requires CollisionFree(lib, VerifiedChain(rows), Link(lib, GENESIS_HASH, 0, events))
    requires r in rows && 1 <= Index(r) <= seal.lastChainIndex
    ensures SameRecord(r.event, events[Index(r) - 1])
    ensures var original := Link(lib, GENESIS_HASH, 0, events);
            && Index(r) <= |original|
            && r.chainHash == original[Index(r) - 1].chainHash
            && Some(OrElse(r.prevHash, GENESIS_HASH)) == original[Index(r) - 1].prevHash
    ensures forall n :: Index(r) <= n <= seal.lastChainIndex ==> StillStored(rows, n)
  {
    var all := VerifiedChain(rows);
    var p := VerifiedAt(rows, sealed);
    var q := VerifiedAt(rows, r);
    IndexGap(lib, all, q, p);
    VerifiedFirst(rows);
    LinkEvents(lib, GENESIS_HASH, 0, events);
    assert sealed.chainHash == Some(seal.chainHash) by {
      assert !Contradicts(rows, seal);
    }
    TamperEvidence(lib, all, events, p, q);
    OriginalEvent(lib, events, Index(r));
    NoneMissing(lib, rows, p, q);
  }

  lemma {:induction false} OriginalEvent(lib: Library, events: seq<AuditEvent>, n: int)
    requires Sound(lib) && 1 <= n <= |events|
    ensures n <= |Link(lib, GENESIS_HASH, 0, events)| && Link(lib, GENESIS_HASH, 0, events)[n - 1].event == events[n - 1]
  {
    LinkEvents(lib, GENESIS_HASH, 0, events);
    LinkShape(lib, GENESIS_HASH, 0, events);
  }

  lemma {:induction false} NoneMissing(lib: Library, rows: seq<Row>, p: nat, q: nat)
    requires KeysUnique(rows) && Intact(lib, VerifiedChain(rows)) && q <= p < |VerifiedChain(rows)|
    ensures forall n :: Index(VerifiedChain(rows)[q]) <= n <= Index(VerifiedChain(rows)[p]) ==> StillStored(rows, n)
  {
    var all := VerifiedChain(rows);
    IndexGap(lib, all, q, p);
    forall n | Index(all[q]) <= n <= Index(all[p])
      ensures StillStored(rows, n)
    {
      var k := q + n - Index(all[q]);
      IndexGap(lib, all, q, k);
      InVerified(rows, k);
    }
  }

  lemma {:induction false} VerifiedFirst(rows: seq<Row>)
    requires KeysUnique(rows)
    ensures VerifiedChain(rows) != [] ==> Index(VerifiedChain(rows)[0]) >= 1
  {
    IndexQuery(rows, HasPositiveIndex, 0);
    assert VerifiedChain(rows) != [] ==> VerifiedChain(rows)[0] in VerifiedChain(rows);
  }

  lemma {:induction false} InVerified(rows: seq<Row>, k: nat)
    requires KeysUnique(rows) && k < |VerifiedChain(rows)|
    ensures VerifiedChain(rows)[k] in rows
  {
    IndexQuery(rows, HasPositiveIndex, 0);
    assert VerifiedChain(rows)[k] in VerifiedChain(rows);
  }

  // ----- After a restart -----

  /** A stored seal is contradicted exactly when it does not match the stored chain. */
  lemma {:induction false} ContradictsExactly(
    rows: seq<Row>, chain: seq<Row>, pending: set<AuditEvent>, seal: Seal)
    requires Stores(rows, chain, pending) && seal.lastChainIndex >= 1
    ensures Contradicts(rows, seal) <==> !SealMatches(chain, seal)
  {
    if Contradicts(rows, seal) {
      var r :| r in rows && r.chainIndex == Some(seal.lastChainIndex) && r.chainHash != Some(seal.chainHash);
      assert r in chain;
      var i :| 0 <= i < |chain| && chain[i] == r;
    }
    if !SealMatches(chain, seal) {
      var i :| 0 <= i < |chain| && Index(chain[i]) == seal.lastChainIndex && chain[i].chainHash != Some(seal.chainHash);
      assert chain[i] in chain;
    }
  }

  /**
   A journal whose chain was emptied and started again with other events: it is reported valid
   exactly while the new chain is shorter than every checked old seal.
   */
  lemma {:induction false} RestartReportsExactly(
    lib: Library, rows: seq<Row>, pending: set<AuditEvent>, seals: seq<Seal>, events: seq<AuditEvent>, oldEvents: seq<AuditEvent>)
    requires Sound(lib) && Stores(rows, Link(lib, GENESIS_HASH, 0, events), pending)
    requires NoSharedId(events, oldEvents) && Comparable(lib, events, oldEvents)
    requires forall seal :: seal in seals ==> SealedOn(lib, oldEvents, seal)
    ensures ReportsValid(lib, rows, seals) <==> forall seal :: seal in CheckedSeals(seals) ==> |events| < seal.lastChainIndex
  {
    var chain := Link(lib, GENESIS_HASH, 0, events);
    LinkShape(lib, GENESIS_HASH, 0, events);
    StoredIsVerified(rows, chain, pending);
    forall seal | seal in CheckedSeals(seals)
      ensures Contradicts(rows, seal) <==> |events| >= seal.lastChainIndex
    {
      CheckedSealIsSeal(seals, seal);
      ContradictsExactly(rows, chain, pending, seal);
      OldSealMatchesExactly(lib, events, oldEvents, seal);
    }
  }

  lemma {:induction false} CheckedSealIsSeal(seals: seq<Seal>, seal: Seal)
    requires seal in CheckedSeals(seals)
    ensures seal in seals
  {
    assert seal in multiset(SortBy(seals, NewestFirst));
  }
}
