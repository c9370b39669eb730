/**
 Mail delivery: the outbox that hands events to the queue (`notification-outbox.ts`), and the
 queue job that mails each recipient of an event and saves who has been served
 (`notification.service.ts`). What a remote call does is a parameter of the attempt.
 */
module Delivery {
  import opened Wrappers
  import opened Powers
  import opened Sorting

  // ----- Recipients -----

  predicate IsBlank(c: char) {
    c == ' ' || c == '\t' || c == '\n' || c == '\r'
  }

  function TrimStart(s: string): string {
    if s != "" && IsBlank(s[0]) then TrimStart(s[1..]) else s
  }

  function TrimEnd(s: string): string {
    if s != "" && IsBlank(s[|s| - 1]) then TrimEnd(s[..|s| - 1]) else s
  }

  function Lower(s: string): string {
    if s == "" then ""
    else [if 'A' <= s[0] <= 'Z' then (s[0] as int + 32) as char else s[0]] + Lower(s[1..])
  }

  /** `address.trim().toLowerCase()`, the name under which an address counts as served. */
  function Recipient(address: string): string {
    Lower(TrimEnd(TrimStart(address)))
  }

  /**
   The name of an address: the address without the blanks around it, in lower case. This says all
   of it, since an address has one way to be cut like this.
   */
  lemma {:induction false} RecipientIs(address: string) returns (lead: string, core: string, tail: string)
    ensures address == lead + core + tail
    ensures (forall c :: c in lead || c in tail ==> IsBlank(c))
    ensures core != "" ==> !IsBlank(core[0]) && !IsBlank(core[|core| - 1])
    ensures |Recipient(address)| == |core|
    ensures forall i :: 0 <= i < |core| ==> Recipient(address)[i] == LowerOf(core[i])
  {
    lead, core := StartBlanks(address);
    var rest := core;
    core, tail := EndBlanks(rest);
    assert core != "" ==> core[0] == rest[0];
    LowerIs(core);
  }

  function LowerOf(c: char): char {
    if 'A' <= c <= 'Z' then "abcdefghijklmnopqrstuvwxyz"[c as int - 'A' as int] else c
  }

  lemma {:induction false} LowerIs(s: string)
    ensures |Lower(s)| == |s| && forall i :: 0 <= i < |s| ==> Lower(s)[i] == LowerOf(s[i])
  {
    if s != "" {
      LowerIs(s[1..]);
      LowerLetter(s[0]);
    }
  }

  lemma {:induction false} LowerLetter(c: char)
    ensures Lower([c]) == [LowerOf(c)]
  {
    var letters := "abcdefghijklmnopqrstuvwxyz";
    assert forall i :: 0 <= i < 26 ==> letters[i] as int == 'a' as int + i;
  }

  lemma {:induction false} StartBlanks(s: string) returns (lead: string, rest: string)
    ensures s == lead + rest && rest == TrimStart(s) && (forall c :: c in lead ==> IsBlank(c))
    ensures rest != "" ==> !IsBlank(rest[0])
  {
    if s != "" && IsBlank(s[0]) {
      lead, rest := StartBlanks(s[1..]);
      lead := [s[0]] + lead;
    } else {
      lead, rest := "", s;
    }
  }

  lemma {:induction false} EndBlanks(s: string) returns (rest: string, tail: string)
    ensures s == rest + tail && rest == TrimEnd(s) && (forall c :: c in tail ==> IsBlank(c))
    ensures rest != "" ==> !IsBlank(rest[|rest| - 1])
  {
    if s != "" && IsBlank(s[|s| - 1]) {
      rest, tail := EndBlanks(s[..|s| - 1]);
      tail := tail + [s[|s| - 1]];
    } else {
      rest, tail := s, "";
    }
  }

  /** What happens to one send and to the save after it. */
  datatype Fate = Saved | Refused | DiedUnsent | DiedUnsaved

  datatype Result =
    | NoRecipients
    | Completed
    | Undelivered
    | Died
    | DiedAfterSending(recipient: string)

  /** A queue job: the accepted recipients it has saved, and what its attempts did to the outside. */
  class MailJob {
    var accepted: seq<string>
    ghost var mailed: multiset<string>
    ghost var lost: multiset<string>

    /** Every mail is either recorded or was sent by an attempt that died before recording it. */
    ghost predicate Valid()
      reads this
    {
      && (forall i, j :: 0 <= i < j < |accepted| ==> accepted[i] != accepted[j])
      && mailed == multiset(accepted) + lost
    }

    constructor ()
      ensures Valid() && accepted == [] && mailed == multiset{} && lost == multiset{}
    {
      accepted := [];
      mailed, lost := multiset{}, multiset{};
    }

    /** A mail went out; unless the attempt dies here, the recipient is saved as accepted. */
    method Send(recipient: string, saved: bool)
      requires Valid() && recipient !in accepted
      modifies this
      ensures Valid() && accepted == old(accepted) + if saved then [recipient] else []
      ensures lost == old(lost) + if saved then multiset{} else multiset{recipient}
    {
      mailed := mailed + multiset{recipient};
      if saved {
        accepted := accepted + [recipient];
      } else {
        lost := lost + multiset{recipient};
      }
    }

    /** One turn of the loop: nothing for a served recipient; any failure ends the attempt. */
    method ServeRecipient(address: string, fate: Fate) returns (stop: Option<Result>)
      requires Valid()
      modifies this
      ensures Valid()
      ensures accepted == old(accepted) + if Recipient(address) !in old(accepted) && fate.Saved? then [Recipient(address)] else []
      ensures stop.None? ==> Recipient(address) in accepted
      ensures stop.Some? ==> stop.value.Undelivered? || stop.value.Died? || stop.value == DiedAfterSending(Recipient(address))
      ensures lost == old(lost) + if stop.Some? && stop.value.DiedAfterSending? then multiset{Recipient(address)} else multiset{}
    {
      var recipient := Recipient(address);
      stop := None;
      if recipient !in accepted {
        match fate {
          case Refused => return Some(Undelivered);
          case DiedUnsent => return Some(Died);
          case DiedUnsaved =>
            Send(recipient, false);
            return Some(DiedAfterSending(recipient));
          case Saved =>
            Send(recipient, true);
        }
      }
    }

    /** One attempt. The i-th fate applies if the i-th recipient is sent to. */
    method Process(recipients: seq<string>, fates: seq<Fate>) returns (result: Result)
      requires Valid() && |fates| == |recipients|
      modifies this
      ensures Valid() && old(accepted) <= accepted
      ensures lost == old(lost) + if result.DiedAfterSending? then multiset{result.recipient} else multiset{}
      ensures result == Completed ==> AllServed(recipients, accepted)
      ensures result == NoRecipients <==> recipients == []
      ensures OnlyAdds(recipients, old(accepted), accepted)
    {
      if recipients == [] {
        return NoRecipients;
      }
      for i := 0 to |recipients|
        invariant Valid() && old(accepted) <= accepted && lost == old(lost)
        invariant AllServed(recipients[..i], accepted)
        invariant OnlyAdds(recipients, old(accepted), accepted)
      {
        ghost var before := accepted;
        var stop := ServeRecipient(recipients[i], fates[i]);
        AddsOne(recipients, i, old(accepted), before, accepted);
        if stop.Some? {
          return stop.value;
        }
        ServedOneMore(recipients, i, before, accepted);
      }
      assert recipients[..|recipients|] == recipients;
      return Completed;
    }
  }

  lemma {:induction false} AddsOne(
    recipients: seq<string>, i: nat, first: seq<string>, before: seq<string>, after: seq<string>)
    requires i < |recipients| && OnlyAdds(recipients, first, before)
    requires after == before || after == before + [Recipient(recipients[i])]
    ensures OnlyAdds(recipients, first, after)
  {
  }

  lemma {:induction false} ServedOneMore(
    recipients: seq<string>, i: nat, before: seq<string>, after: seq<string>)
    requires i < |recipients| && before <= after
    requires AllServed(recipients[..i], before) && Recipient(recipients[i]) in after
    ensures AllServed(recipients[..i + 1], after)
  {
    ServedStays(recipients[..i], before, after);
    assert recipients[..i + 1] == recipients[..i] + [recipients[i]];
  }

  /** Whoever became accepted is one of the recipients. */
  ghost predicate OnlyAdds(recipients: seq<string>, before: seq<string>, after: seq<string>) {
    forall r :: r in after && r !in before ==> exists address :: address in recipients && Recipient(address) == r
  }

  lemma {:induction false} OnceEach(accepted: seq<string>, r: string)
    requires forall i, j :: 0 <= i < j < |accepted| ==> accepted[i] != accepted[j]
    ensures multiset(accepted)[r] == if r in accepted then 1 else 0
  {
    if accepted != [] {
      OnceEach(accepted[1..], r);
      assert accepted == [accepted[0]] + accepted[1..];
    }
  }

  ghost predicate AllServed(recipients: seq<string>, accepted: seq<string>) {
    forall address :: address in recipients ==> Recipient(address) in accepted
  }

  lemma ServedStays(recipients: seq<string>, accepted: seq<string>, later: seq<string>)
    requires AllServed(recipients, accepted) && accepted <= later
    ensures AllServed(recipients, later)
  {
    assert forall r :: r in accepted ==> r in later;
  }

  /** The attempts among these that died between a send to r and its save. */
  function LostOn(results: seq<Result>, r: string): nat {
    if results == [] then 0
    else LostOn(results[..|results| - 1], r) + (if results[|results| - 1] == DiedAfterSending(r) then 1 else 0)
  }

  lemma LostSnoc(results: seq<Result>, result: Result, r: string)
    ensures LostOn(results + [result], r) == LostOn(results, r) + (if result == DiedAfterSending(r) then 1 else 0)
  {
    assert (results + [result])[..|results|] == results;
  }

  ghost predicate CountsLosses(lost: multiset<string>, results: seq<Result>) {
    forall r :: lost[r] == LostOn(results, r)
  }

  lemma {:induction false} CountsOneMore(
    lost: multiset<string>, later: multiset<string>, results: seq<Result>, result: Result)
    requires CountsLosses(lost, results)
    requires later == lost + if result.DiedAfterSending? then multiset{result.recipient} else multiset{}
    ensures CountsLosses(later, results + [result])
  {
    forall r
      ensures later[r] == LostOn(results + [result], r)
    {
      LostSnoc(results, result, r);
    }
  }

  /**
   Any sequence of attempts, with any audience and any failures: each recipient is mailed once
   if recorded, plus once for each attempt that died between its send and the saved record.
   */
  method Retry(
    attempts: seq<(seq<string>, seq<Fate>)>)
    returns (job: MailJob, results: seq<Result>)
    requires forall k :: 0 <= k < |attempts| ==> |attempts[k].0| == |attempts[k].1|
    ensures job.Valid() && |results| == |attempts|
    ensures forall r :: job.mailed[r] == (if r in job.accepted then 1 else 0) + LostOn(results, r)
    ensures forall k :: 0 <= k < |attempts| && results[k] == Completed ==> AllServed(attempts[k].0, job.accepted)
  {
    job := new MailJob();
    results := [];
    for k := 0 to |attempts|
      invariant fresh(job) && job.Valid() && |results| == k
      invariant CountsLosses(job.lost, results)
      invariant forall j :: 0 <= j < k && results[j] == Completed ==> AllServed(attempts[j].0, job.accepted)
    {
      ghost var accepted, lost := job.accepted, job.lost;
      var result := job.Process(attempts[k].0, attempts[k].1);
      CountsOneMore(lost, job.lost, results, result);
      forall j | 0 <= j < k && results[j] == Completed
        ensures AllServed(attempts[j].0, job.accepted)
      {
        ServedStays(attempts[j].0, accepted, job.accepted);
      }
      results := results + [result];
    }
    MailedCounts(job.accepted, job.mailed, job.lost, results);
  }

  lemma {:induction false} MailedCounts(
    accepted: seq<string>, mailed: multiset<string>, lost: multiset<string>, results: seq<Result>)
    requires forall i, j :: 0 <= i < j < |accepted| ==> accepted[i] != accepted[j]
    requires mailed == multiset(accepted) + lost && CountsLosses(lost, results)
    ensures forall r :: mailed[r] == (if r in accepted then 1 else 0) + LostOn(results, r)
  {
    forall r
      ensures mailed[r] == (if r in accepted then 1 else 0) + LostOn(results, r)
    {
      OnceEach(accepted, r);
    }
  }

  // ----- The outbox -----

  type EntryId = nat

  datatype Entry = Entry(nextAttemptAt: int, queuedAt: Option<int>, attempts: nat)

  /** What becomes of one entry: served, a failure that is caught, or the end of the process. */
  datatype Dispatch = Done(at: int) | EnqueueFailed | UpdateFailed | DiedBefore | DiedAfter

  predicate Handed(call: Dispatch) {
    call.Done? || call.UpdateFailed? || call.DiedAfter?
  }

  predicate Caught(call: Dispatch) {
    call.EnqueueFailed? || call.UpdateFailed?
  }

  function Delay(attempts: nat): int {
    var doubled := 30_000 * Power(2, if attempts < 7 then attempts else 7);
    if doubled < 3_600_000 then doubled else 3_600_000
  }

  lemma {:induction false} PowerGrows(m: nat, n: nat)
    requires m <= n
    ensures 1 <= Power(2, m) <= Power(2, n)
  {
    if m < n {
      PowerGrows(m, n - 1);
    } else if m > 0 {
      PowerGrows(m - 1, m - 1);
    }
  }

  /** Retries wait half a minute, then twice as long each time, up to an hour. */
  lemma {:induction false} DelayBacksOff(attempts: nat, later: nat)
    requires attempts <= later
    ensures 30_000 <= Delay(attempts) <= Delay(later) <= 3_600_000
    ensures Delay(0) == 30_000
    ensures Delay(attempts + 1) == if 2 * Delay(attempts) < 3_600_000 then 2 * Delay(attempts) else 3_600_000
  {
    DelayDoubles(attempts);
    PowerGrows(if attempts < 7 then attempts else 7, if later < 7 then later else 7);
  }

  lemma {:induction false} DelayDoubles(attempts: nat)
    ensures Delay(attempts + 1) == if 2 * Delay(attempts) < 3_600_000 then 2 * Delay(attempts) else 3_600_000
  {
    assert Power(2, 3) == 8 && Power(2, 6) == 64 && Power(2, 7) == 128;
    PowerGrows(if attempts < 7 then attempts else 7, 7);
  }

  const DISPATCH_LIMIT := 100
  const KEEP_MS := 30 * 86_400_000
  const PURGE_LIMIT := 1000

  /** The table once the first n pending entries are marked as queued. */
  function Served(entries: map<EntryId, Entry>, pending: seq<EntryId>, calls: seq<Dispatch>, n: nat): (r: map<EntryId, Entry>)
    requires n <= |pending| == |calls| && forall i :: 0 <= i < n ==> calls[i].Done?
    ensures r.Keys == entries.Keys
    ensures forall id :: id in entries && id !in pending[..n] ==> r[id] == entries[id]
  {
    map id | id in entries :: if id in pending[..n] then MarkedAt(entries[id], pending, calls, n, id) else entries[id]
  }

  function MarkedAt(entry: Entry, pending: seq<EntryId>, calls: seq<Dispatch>, n: nat, id: EntryId): Entry
    requires n <= |pending| == |calls| && (forall i :: 0 <= i < n ==> calls[i].Done?) && id in pending[..n]
  {
    var k := n - 1;
    if pending[k] == id then entry.(queuedAt := Some(calls[k].at), attempts := entry.attempts + 1)
    else
      assert pending[..n] == pending[..k] + [pending[k]];
      MarkedAt(entry, pending, calls, k, id)
  }

  lemma {:induction false} ServedAt(
    entries: map<EntryId, Entry>, pending: seq<EntryId>, calls: seq<Dispatch>, n: nat, i: nat)
    requires i < n <= |pending| == |calls| && (forall k :: 0 <= k < n ==> calls[k].Done?) && pending[i] in entries
    requires forall k, j :: 0 <= k < j < |pending| ==> pending[k] != pending[j]
    ensures Served(entries, pending, calls, n)[pending[i]] ==
            entries[pending[i]].(queuedAt := Some(calls[i].at), attempts := entries[pending[i]].attempts + 1)
  {
    assert pending[..n][i] == pending[i];
    if i < n - 1 {
      assert pending[..n - 1][i] == pending[i];
      ServedAt(entries, pending, calls, n - 1, i);
    }
  }

  lemma {:induction false} MarkedOneMore(
    entries: map<EntryId, Entry>, pending: seq<EntryId>, calls: seq<Dispatch>, n: nat)
    requires n < |pending| == |calls| && forall i :: 0 <= i < n ==> calls[i].Done?
    requires forall i, j :: 0 <= i < j < |pending| ==> pending[i] != pending[j]
    requires pending[n] in entries
    ensures Served(entries, pending, calls, n)[pending[n]] == entries[pending[n]]
    ensures calls[n].Done? ==>
              Served(entries, pending, calls, n + 1)
              == Served(entries, pending, calls, n)[pending[n] := entries[pending[n]].(queuedAt := Some(calls[n].at), attempts := entries[pending[n]].attempts + 1)]
  {
    assert pending[..n + 1] == pending[..n] + [pending[n]];
  }

  /** The entry is tried again after a delay. */
  function Postponed(entries: map<EntryId, Entry>, id: EntryId, now: int): map<EntryId, Entry>
    requires id in entries
  {
    entries[id := entries[id].(attempts := entries[id].attempts + 1, nextAttemptAt := now + Delay(entries[id].attempts))]
  }

  // ----- The queries -----

  predicate Due(entry: Entry, now: int) {
    entry.queuedAt.None? && entry.nextAttemptAt <= now
  }

  /** Order by `nextAttemptAt`, then `id`. */
  function AttemptOrder(entries: map<EntryId, Entry>): (EntryId, EntryId) -> bool {
    (a: EntryId, b: EntryId) => var x, y := AttemptAt(entries, a), AttemptAt(entries, b); x < y || (x == y && a <= b)
  }

  function AttemptAt(entries: map<EntryId, Entry>, id: EntryId): int {
    if id in entries then entries[id].nextAttemptAt else 0
  }

  /** The entries a dispatch takes on, of those listed. */
  function DuePage(ids: seq<EntryId>, entries: map<EntryId, Entry>, now: int): seq<EntryId> {
    Take(Query(id => id in entries && Due(entries[id], now), ids, AttemptOrder(entries)), DISPATCH_LIMIT)
  }

  lemma AttemptOrderIsTotal(entries: map<EntryId, Entry>)
    ensures TotalPreorder(AttemptOrder(entries))
  {
  }

  /** Tried earlier, or in id order when tried at the same instant. */
  ghost predicate Sooner(entries: map<EntryId, Entry>, a: EntryId, b: EntryId) {
    && a in entries && b in entries && entries[a].nextAttemptAt <= entries[b].nextAttemptAt
    && (entries[a].nextAttemptAt == entries[b].nextAttemptAt ==> a <= b)
  }

  /** Those that are due, at most 100 of them, the longest waiting first; any other due entry comes later. */
  lemma {:induction false} DuePageIs(
    ids: seq<EntryId>, entries: map<EntryId, Entry>, now: int)
    requires NoRepeats(ids)
    ensures var page := DuePage(ids, entries, now);
            && |page| <= 100 && NoRepeats(page)
            && (forall id :: id in page ==>
                  id in ids && id in entries && entries[id].queuedAt == None && entries[id].nextAttemptAt <= now)
            && (forall i, j :: 0 <= i < j < |page| ==> Sooner(entries, page[i], page[j]))
            && (forall id :: id in ids && id in entries && entries[id].queuedAt == None && entries[id].nextAttemptAt <= now && id !in page ==>
                  |page| == 100 && forall first :: first in page ==> Sooner(entries, first, id))
  {
    var all, page := DueInOrder(ids, entries, now), DuePage(ids, entries, now);
    DueInOrderIs(ids, entries, now);
    assert forall i :: 0 <= i < |page| ==> page[i] == all[i] && all[i] in all;
    forall id, first | id in all && id !in page && first in page
      ensures Sooner(entries, first, id)
    {
      BeyondPage(all, DISPATCH_LIMIT, AttemptOrder(entries), first, id);
    }
  }

  /** All due entries in order. */
  ghost function DueInOrder(ids: seq<EntryId>, entries: map<EntryId, Entry>, now: int): seq<EntryId> {
    Query(id => id in entries && Due(entries[id], now), ids, AttemptOrder(entries))
  }

  lemma {:induction false} DueInOrderIs(ids: seq<EntryId>, entries: map<EntryId, Entry>, now: int)
    requires NoRepeats(ids)
    ensures var all := DueInOrder(ids, entries, now);
            && NoRepeats(all) && SortedBy(all, AttemptOrder(entries))
            && (forall id :: id in all <==>
                  id in ids && id in entries && entries[id].queuedAt == None && entries[id].nextAttemptAt <= now)
            && forall i, j :: 0 <= i < j < |all| ==> Sooner(entries, all[i], all[j])
  {
    AttemptOrderIsTotal(entries);
    QueryResult(id => id in entries && Due(entries[id], now), ids, AttemptOrder(entries));
    var all := DueInOrder(ids, entries, now);
    forall i, j | 0 <= i < j < |all|
      ensures Sooner(entries, all[i], all[j])
    {
      assert all[i] in all && all[j] in all && AttemptOrder(entries)(all[i], all[j]);
    }
  }

  lemma {:induction false} BeyondPage(
    all: seq<EntryId>, limit: nat, le: (EntryId, EntryId) -> bool, first: EntryId, id: EntryId)
    requires SortedBy(all, le) && first in Take(all, limit) && id in all && id !in Take(all, limit)
    ensures le(first, id)
  {
    var page := Take(all, limit);
    assert forall k :: 0 <= k < |page| ==> all[k] == page[k] && page[k] in page;
    var i :| 0 <= i < |page| && page[i] == first;
    var j :| 0 <= j < |all| && all[j] == id;
  }

  predicate IsOld(entry: Entry, now: int) {
    entry.queuedAt.Some? && entry.queuedAt.value < now - KEEP_MS
  }

  ghost predicate QueuedBefore(entry: Entry, instant: int) {
    exists at :: entry.queuedAt == Some(at) && at < instant
  }

  /** The entries one clean-up deletes: the query has a limit but no order. */
  function OldPage(ids: seq<EntryId>, entries: map<EntryId, Entry>, now: int): seq<EntryId> {
    Take(Filter((id: EntryId) => id in entries && IsOld(entries[id], now), ids), PURGE_LIMIT)
  }

  lemma {:induction false} OldPageIs(
    ids: seq<EntryId>, entries: map<EntryId, Entry>, now: int)
    requires NoRepeats(ids)
    ensures var page := OldPage(ids, entries, now);
            && |page| <= 1000 && NoRepeats(page)
            && (forall id :: id in page ==> id in ids && id in entries && QueuedBefore(entries[id], now - 30 * 24 * 60 * 60 * 1000))
            && (forall id :: id in ids && id in entries && QueuedBefore(entries[id], now - 30 * 24 * 60 * 60 * 1000) && id !in page ==>
                  |page| == 1000)
  {
    var keep := (id: EntryId) => id in entries && IsOld(entries[id], now);
    FilterMembers(keep, ids);
    FilterKeepsDistinct(keep, ids);
    assert forall id :: id in OldPage(ids, entries, now) ==> id in Filter(keep, ids);
  }

  /** What becomes of the entries of a page, one outcome each. */
  function Outcomes(n: nat, calls: nat -> Dispatch): (r: seq<Dispatch>)
    ensures |r| == n && forall i :: 0 <= i < n ==> r[i] == calls(i)
  {
    seq(n, i requires 0 <= i < n => calls(i))
  }

  /** After a caught failure an entry is due again once its delay has passed, and not before. */
  lemma {:induction false} PostponedIsDueLater(entries: map<EntryId, Entry>, id: EntryId, now: int, later: int)
    requires id in entries && entries[id].queuedAt.None?
    ensures var after := Postponed(entries, id, now);
            && after.Keys == entries.Keys && after[id].attempts == entries[id].attempts + 1
            && (Due(after[id], later) <==> later >= now + Delay(entries[id].attempts))
            && forall other :: other in entries && other != id ==> after[other] == entries[other]
  {
  }

  class Outbox {
    /** The entries in the order the table lists them. */
    var ids: seq<EntryId>
    var entries: map<EntryId, Entry>
    ghost var inserted: set<EntryId>
    ghost var handed: set<EntryId>
    ghost var deleted: set<EntryId>

    /**
     Whatever is marked queued, and whatever was deleted, had been handed to the queue; every
     entry ever inserted is still here or was deleted.
     */
    ghost predicate Valid()
      reads this
    {
      && Listed(ids, entries)
      && (forall id :: id in entries && entries[id].queuedAt.Some? ==> id in handed)
      && deleted <= handed
      && entries.Keys + deleted == inserted && entries.Keys !! deleted
    }

    constructor ()
      ensures Valid() && entries == map[] && inserted == {} && handed == {}
    {
      ids, entries, inserted, handed, deleted := [], map[], {}, {}, {};
    }

    method Insert(id: EntryId, now: int)
      requires Valid() && id !in inserted
      modifies this`ids, this`entries, this`inserted
      ensures Valid() && entries == old(entries)[id := Entry(now, None, 0)] && inserted == old(inserted) + {id}
    {
      ids := ids + [id];
      entries := entries[id := Entry(now, None, 0)];
      inserted := inserted + {id};
    }

    /** One turn of the loop; the loop goes on after an entry that was served. */
    method ServeEntry(id: EntryId, call: Dispatch, now: int)
      requires Valid() && id in entries
      modifies this`entries, this`handed
      ensures Valid()
      ensures entries == match call
                         case Done(at) => old(entries)[id := old(entries)[id].(queuedAt := Some(at), attempts := old(entries)[id].attempts + 1)]
                         case _ => if Caught(call) then Postponed(old(entries), id, now) else old(entries)
      ensures handed == old(handed) + if Handed(call) then {id} else {}
    {
      if Handed(call) {
        handed := handed + {id};
      }
      if call.Done? {
        entries := entries[id := entries[id].(queuedAt := Some(call.at), attempts := entries[id].attempts + 1)];
      } else if Caught(call) {
        entries := Postponed(entries, id, now);
      }
    }

    /** The loop over the page; it ends at the first entry that is not served. */
    method ServeAll(
      pending: seq<EntryId>, now: int, calls: seq<Dispatch>)
      returns (served: nat)
      requires Valid() && |calls| == |pending| && NoRepeats(pending)
      requires forall id :: id in pending ==> id in entries
      modifies this`entries, this`handed
      ensures Valid()
      ensures Stopped(calls, served)
      ensures entries == AfterServing(old(entries), pending, calls, served, now)
      ensures handed == old(handed) + HandedOver(pending, calls, served)
    {
      served := 0;
      while served < |pending|
        invariant served <= |pending| && Valid()
        invariant forall i :: 0 <= i < served ==> calls[i].Done?
        invariant entries == Served(old(entries), pending, calls, served)
        invariant handed == old(handed) + Firsts(pending, served)
      {
        MarkedOneMore(old(entries), pending, calls, served);
        FirstsOneMore(pending, served);
        ServeEntry(pending[served], calls[served], now);
        if !calls[served].Done? {
          return;
        }
        served := served + 1;
      }
    }

    /** `calls` says what becomes of the first entry, the second, and so on; the answer is the size of the page. */
    method Dispatch(
      now: int, calls: nat -> Dispatch)
      returns (count: nat, ghost served: nat)
      requires Valid()
      modifies this`entries, this`handed
      ensures Valid()
      ensures var page := DuePage(ids, old(entries), now);
              var outcomes := Outcomes(|page|, calls);
              && count == |page| && Stopped(outcomes, served)
              && (forall id :: id in page ==> id in old(entries))
              && entries == AfterServing(old(entries), page, outcomes, served, now)
              && handed == old(handed) + HandedOver(page, outcomes, served)
    {
      var page := DuePage(ids, entries, now);
      DuePageIs(ids, entries, now);
      served := ServeAll(page, now, Outcomes(|page|, calls));
      count := |page|;
    }

    /** The outbox half of `maintainHistory`. */
    method Purge(now: int)
      requires Valid()
      modifies this
      ensures Valid() && handed == old(handed) && inserted == old(inserted)
      ensures entries == old(entries) - Firsts(OldPage(old(ids), old(entries), now), |OldPage(old(ids), old(entries), now)|)
      ensures deleted == old(deleted) + Firsts(OldPage(old(ids), old(entries), now), |OldPage(old(ids), old(entries), now)|)
      ensures deleted <= handed
    {
      var page := OldPage(ids, entries, now);
      OldPageIs(ids, entries, now);
      var gone := set id | id in page;
      assert gone == Firsts(page, |page|) by {
        assert page[..|page|] == page;
      }
      var stays := (id: EntryId) => id !in gone;
      FilterMembers(stays, ids);
      FilterKeepsDistinct(stays, ids);
      ids := Filter(stays, ids);
      entries := entries - gone;
      deleted := deleted + gone;
    }
  }

  /** The table lists each of its entries once. */
  ghost predicate Listed(ids: seq<EntryId>, entries: map<EntryId, Entry>) {
    NoRepeats(ids) && forall id :: id in ids <==> id in entries
  }

  ghost function Firsts(pending: seq<EntryId>, n: nat): set<EntryId>
    requires n <= |pending|
  {
    set id | id in pending[..n]
  }

  lemma {:induction false} FirstsOneMore(pending: seq<EntryId>, n: nat)
    requires n < |pending|
    ensures Firsts(pending, n + 1) == Firsts(pending, n) + {pending[n]}
  {
    assert pending[..n + 1] == pending[..n] + [pending[n]];
  }

  /** The calls before n succeed, and call n, if there is one, does not. */
  ghost predicate Stopped(calls: seq<Dispatch>, n: nat) {
    && n <= |calls|
    && (forall i :: 0 <= i < n ==> calls[i].Done?)
    && (n < |calls| ==> !calls[n].Done?)
  }

  /** The table when a page stopped at n: the first n are marked, and a caught failure postpones the next. */
  ghost function AfterServing(entries: map<EntryId, Entry>, page: seq<EntryId>, calls: seq<Dispatch>, n: nat, now: int): map<EntryId, Entry>
    requires |page| == |calls| && Stopped(calls, n) && forall id :: id in page ==> id in entries
  {
    var served := Served(entries, page, calls, n);
    if n < |page| && Caught(calls[n]) then Postponed(served, page[n], now) else served
  }

  ghost function HandedOver(page: seq<EntryId>, calls: seq<Dispatch>, n: nat): set<EntryId>
    requires n <= |page| == |calls|
  {
    Firsts(page, n) + if n < |page| && Handed(calls[n]) then {page[n]} else {}
  }
}
