/**
 The audit hash chain of `audit-chain.ts`: what an event's hash covers, what an intact chain
 is, and what a trusted seal over an intact chain says about the stored events.
 */
module AuditChain {
  import opened Wrappers
  import opened Utf16
  import opened CanonicalJson
  import opened CanonicalJsonFaithful
  import opened CanonicalJsonScan

  datatype AuditEvent = AuditEvent(
    id: Text, occurredAt: int, identity: Text, ipAddress: Text, action: Text,
    resource: Text, result: Text, correlationId: Text, details: Json)

  /** A stored row: the three chain columns are null until the worker chains the event. */
  datatype Row = Row(event: AuditEvent, chainIndex: Option<int>, prevHash: Option<Text>, chainHash: Option<Text>)

  /** SHA-256 in hexadecimal and `Date.toISOString`, both uninterpreted. */
  datatype Library = Library(sha256: Text -> Text, iso: int -> Text)

  predicate IsHexDigit(c: CodeUnit) {
    48 <= c <= 57 || 97 <= c <= 102
  }

  predicate IsHash(t: Text) {
    |t| == 64 && forall i :: 0 <= i < 64 ==> IsHexDigit(t[i])
  }

  /** Digests have 64 hexadecimal digits and distinct instants print differently. */
  ghost predicate Sound(lib: Library) {
    && (forall t :: IsHash(lib.sha256(t)))
    && (forall s, t :: lib.iso(s) == lib.iso(t) ==> s == t)
  }

  function Repeat(c: CodeUnit, n: nat): (t: Text)
    ensures |t| == n && forall i :: 0 <= i < n ==> t[i] == c
  {
    if n == 0 then [] else [c] + Repeat(c, n - 1)
  }

  const GENESIS_HASH: Text := Repeat(48, 64)

  /** Sixty-four zeros. */
  lemma {:induction false} GenesisIsZeros()
    ensures IsHash(GENESIS_HASH) && forall i :: 0 <= i < 64 ==> GENESIS_HASH[i] as char == '0'
  {
  }

  function EventValue(lib: Library, e: AuditEvent): Json {
    Array([String(e.id), String(lib.iso(e.occurredAt)), String(e.identity), String(e.ipAddress),
           String(e.action), String(e.resource), String(e.result), String(e.correlationId), e.details])
  }

  function HashInput(lib: Library, previous: Text, e: AuditEvent): Text {
    previous + Stable(EventValue(lib, e))
  }

  function AuditEventHash(lib: Library, previous: Text, e: AuditEvent): Text {
    lib.sha256(HashInput(lib, previous, e))
  }

  /** The same record: equal fields, and details equal up to the order of object keys. */
  ghost predicate SameRecord(e: AuditEvent, f: AuditEvent) {
    && e.id == f.id && e.occurredAt == f.occurredAt && e.identity == f.identity && e.ipAddress == f.ipAddress
    && e.action == f.action && e.resource == f.resource && e.result == f.result
    && e.correlationId == f.correlationId && Meaning(e.details) == Meaning(f.details)
  }

  lemma {:induction false} ItemMeaningsAt(vs: seq<Json>, i: nat)
    requires i < |vs|
    ensures ItemMeanings(vs)[i] == Meaning(vs[i])
  {
    if i > 0 {
      ItemMeaningsAt(vs[1..], i - 1);
    }
  }

  lemma {:induction false} EventValueValid(lib: Library, e: AuditEvent)
    requires Valid(e.details)
    ensures Valid(EventValue(lib, e))
  {
    var items := EventValue(lib, e).items;
    forall i | 0 <= i < |items|
      ensures Valid(items[i])
    {
    }
  }

  lemma {:induction false} EventMeaningInjective(lib: Library, e: AuditEvent, f: AuditEvent)
    requires Sound(lib) && Meaning(EventValue(lib, e)) == Meaning(EventValue(lib, f))
    ensures SameRecord(e, f)
  {
    var vs, ws := EventValue(lib, e).items, EventValue(lib, f).items;
    forall i | 0 <= i < 9
      ensures Meaning(vs[i]) == Meaning(ws[i])
    {
      ItemMeaningsAt(vs, i);
      ItemMeaningsAt(ws, i);
    }
    assert Meaning(vs[0]) == Meaning(ws[0]) && Meaning(vs[1]) == Meaning(ws[1]) && Meaning(vs[2]) == Meaning(ws[2])
           && Meaning(vs[3]) == Meaning(ws[3]) && Meaning(vs[4]) == Meaning(ws[4]) && Meaning(vs[5]) == Meaning(ws[5])
           && Meaning(vs[6]) == Meaning(ws[6]) && Meaning(vs[7]) == Meaning(ws[7]) && Meaning(vs[8]) == Meaning(ws[8]);
  }

  lemma NoBracketInHash(t: Text)
    requires IsHash(t)
    ensures OPEN_BRACKET !in t
  {
  }

  /**
   The text that is hashed determines both the previous hash and the record, although the two
   are concatenated without a separator; only one of the two previous hashes must be a digest.
   */
  lemma {:induction false} HashInputFaithful(
    lib: Library, previous: Text, e: AuditEvent, other: Text, f: AuditEvent)
    requires Sound(lib) && IsHash(previous) && Valid(e.details) && Valid(f.details)
    requires HashInput(lib, previous, e) == HashInput(lib, other, f)
    ensures previous == other && SameRecord(e, f)
  {
    EventValueValid(lib, e);
    EventValueValid(lib, f);
    NoBracketInHash(previous);
    SplitArrayText(previous, EventValue(lib, e), other, EventValue(lib, f));
    StableIsFaithful(EventValue(lib, e), EventValue(lib, f));
    EventMeaningInjective(lib, e, f);
  }

  // ----- Intact chains -----

  /** `value || fallback` on a nullable string column. */
  function OrElse(value: Option<Text>, fallback: Text): Text {
    if value.Some? && value.value != [] then value.value else fallback
  }

  function Index(r: Row): int {
    if r.chainIndex.Some? then r.chainIndex.value else 0
  }

  predicate ContentMatches(lib: Library, r: Row) {
    r.chainHash == Some(AuditEventHash(lib, OrElse(r.prevHash, GENESIS_HASH), r.event))
  }

  predicate LinkMatches(before: Row, r: Row) {
    Index(r) == Index(before) + 1 && r.prevHash == Some(OrElse(before.chainHash, []))
  }

  /** What the verifier accepts, over the chained rows in index order. */
  ghost predicate Intact(lib: Library, rows: seq<Row>) {
    && (forall i :: 0 <= i < |rows| ==> ContentMatches(lib, rows[i]))
    && (forall i :: 0 < i < |rows| ==> LinkMatches(rows[i - 1], rows[i]))
  }

  /** The rows an honest worker writes for these events. */
  function Link(lib: Library, previous: Text, index: int, events: seq<AuditEvent>): (rows: seq<Row>)
    ensures |rows| == |events|
    decreases |events|
  {
    if events == [] then []
    else
      [Row(events[0], Some(index + 1), Some(previous), Some(AuditEventHash(lib, previous, events[0])))]
      + Link(lib, AuditEventHash(lib, previous, events[0]), index + 1, events[1..])
  }

  lemma {:induction false} LinkShape(
    lib: Library, previous: Text, index: int, events: seq<AuditEvent>)
    requires Sound(lib) && IsHash(previous)
    ensures var rows := Link(lib, previous, index, events);
            && Intact(lib, rows)
            && (rows != [] ==> rows[0].prevHash == Some(previous))
            && forall i :: 0 <= i < |rows| ==> rows[i].event == events[i] && rows[i].chainIndex == Some(index + 1 + i)
                                               && rows[i].prevHash.Some? && IsHash(rows[i].prevHash.value)
                                               && rows[i].chainHash.Some? && IsHash(rows[i].chainHash.value)
    decreases |events|
  {
    if events != [] {
      var hash := AuditEventHash(lib, previous, events[0]);
      var first := Row(events[0], Some(index + 1), Some(previous), Some(hash));
      var rest := Link(lib, hash, index + 1, events[1..]);
      LinkShape(lib, hash, index + 1, events[1..]);
      IntactAfter(lib, first, rest);
      forall i | 0 < i < |rest| + 1
        ensures ([first] + rest)[i] == rest[i - 1] && events[i] == events[1..][i - 1]
      {
      }
    }
  }

  /** A row followed by an intact chain that starts from its index and hash. */
  lemma {:induction false} IntactAfter(lib: Library, first: Row, rest: seq<Row>)
    requires ContentMatches(lib, first) && Intact(lib, rest) && (rest != [] ==> LinkMatches(first, rest[0]))
    ensures Intact(lib, [first] + rest)
  {
    var rows := [first] + rest;
    forall i | 0 < i < |rows|
      ensures LinkMatches(rows[i - 1], rows[i])
    {
      assert i > 1 ==> rows[i - 1] == rest[i - 2];
    }
  }

  // ----- Tamper evidence -----

  function InputOf(lib: Library, r: Row): Text {
    HashInput(lib, OrElse(r.prevHash, GENESIS_HASH), r.event)
  }

  /** No two of the texts at hand collide; asked only of these finitely many texts. */
  ghost predicate CollisionFree(lib: Library, stored: seq<Row>, original: seq<Row>) {
    forall i, j :: 0 <= i < |stored| && 0 <= j < |original| ==>
                     (lib.sha256(InputOf(lib, stored[i])) == lib.sha256(InputOf(lib, original[j])) ==>
                        InputOf(lib, stored[i]) == InputOf(lib, original[j]))
  }

  ghost predicate StoredJson(rows: seq<Row>) {
    forall i :: 0 <= i < |rows| ==> Valid(rows[i].event.details)
  }

  /**
   If the stored chain is intact and its event at index n still carries the hash that was sealed
   for the original event n, then every stored event from the first one left by the retention
   purge up to n is the original record, at its original index and with its original hashes.
   */
  lemma {:induction false} TamperEvidence(
    lib: Library, stored: seq<Row>, events: seq<AuditEvent>, p: nat, q: nat)
    requires Sound(lib) && StoredJson(stored) && Intact(lib, stored)
    requires q <= p < |stored| && 1 <= Index(stored[0]) && Index(stored[p]) <= |events|
    requires var original := Link(lib, GENESIS_HASH, 0, events);
             && StoredJson(original) && CollisionFree(lib, stored, original)
             && 1 <= Index(stored[p])
             && stored[p].chainHash == original[Index(stored[p]) - 1].chainHash
    ensures 1 <= Index(stored[q]) <= |events|
    ensures var r := Link(lib, GENESIS_HASH, 0, events)[Index(stored[q]) - 1];
            && SameRecord(stored[q].event, r.event)
            && Index(stored[q]) == Index(r)
            && stored[q].chainHash == r.chainHash
            && Some(OrElse(stored[q].prevHash, GENESIS_HASH)) == r.prevHash
    decreases p - q
  {
    var original := Link(lib, GENESIS_HASH, 0, events);
    LinkShape(lib, GENESIS_HASH, 0, events);
    IndexFromFirst(lib, stored, q);
    IndexFromFirst(lib, stored, p);
    var s, r := stored[q], original[Index(stored[q]) - 1];
    assert ContentMatches(lib, s) && ContentMatches(lib, r);
    if q < p {
      TamperEvidence(lib, stored, events, p, q + 1);
      IndexFromFirst(lib, stored, q + 1);
      HashesAgree(s, stored[q + 1], r, original[Index(stored[q + 1]) - 1]);
    }
    SameHashSameRecord(lib, s, r);
  }

  lemma {:induction false} HashesAgree(s: Row, sNext: Row, r: Row, rNext: Row)
    requires LinkMatches(s, sNext) && LinkMatches(r, rNext) && Some(OrElse(sNext.prevHash, GENESIS_HASH)) == rNext.prevHash
    requires s.chainHash.Some? && IsHash(s.chainHash.value) && r.chainHash.Some? && IsHash(r.chainHash.value)
    ensures s.chainHash == r.chainHash
  {
  }

  lemma {:induction false} SameHashSameRecord(lib: Library, s: Row, r: Row)
    requires Sound(lib) && Valid(s.event.details) && Valid(r.event.details)
    requires ContentMatches(lib, s) && ContentMatches(lib, r) && s.chainHash == r.chainHash
    requires r.prevHash.Some? && IsHash(r.prevHash.value)
    requires lib.sha256(InputOf(lib, s)) == lib.sha256(InputOf(lib, r)) ==> InputOf(lib, s) == InputOf(lib, r)
    ensures SameRecord(s.event, r.event) && Some(OrElse(s.prevHash, GENESIS_HASH)) == r.prevHash
  {
    HashInputFaithful(lib, r.prevHash.value, r.event, OrElse(s.prevHash, GENESIS_HASH), s.event);
  }

  lemma {:induction false} IndexFromFirst(lib: Library, rows: seq<Row>, i: nat)
    requires Intact(lib, rows) && i < |rows|
    ensures Index(rows[i]) == Index(rows[0]) + i
  {
    if i > 0 {
      IndexFromFirst(lib, rows, i - 1);
      assert LinkMatches(rows[i - 1], rows[i]);
    }
  }
}
