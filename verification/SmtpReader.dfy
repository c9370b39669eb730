/**
 The incremental SMTP reader (`alert-delivery.service.ts`): chunks arrive, lines are cut at
 CRLF and handed to waiting reads or queued, and a reply is read line by line.
 */
module SmtpReader {
  import opened Wrappers
  import opened Utf16

  const CR: CodeUnit := 13
  const LF: CodeUnit := 10

  /** `indexOf("\r\n")`, or the length of the text when there is none. */
  function IndexOfCrlf(text: Text): (i: nat)
    ensures i <= |text|
    ensures i < |text| ==> i + 1 < |text| && text[i] == CR && text[i + 1] == LF
  {
    if |text| < 2 then |text|
    else if text[0] == CR && text[1] == LF then 0
    else 1 + IndexOfCrlf(text[1..])
  }

  /** The complete lines of a text, and what follows the last of them. */
  function Lines(text: Text): seq<Text>
    decreases |text|
  {
    var i := IndexOfCrlf(text);
    if i == |text| then [] else [text[..i]] + Lines(text[i + 2..])
  }

  function Rest(text: Text): Text
    decreases |text|
  {
    var i := IndexOfCrlf(text);
    if i == |text| then text else Rest(text[i + 2..])
  }

  lemma {:induction false} IndexKept(text: Text, more: Text)
    requires IndexOfCrlf(text) < |text|
    ensures IndexOfCrlf(text + more) == IndexOfCrlf(text)
  {
    if !(text[0] == CR && text[1] == LF) {
      assert (text + more)[1..] == text[1..] + more;
      IndexKept(text[1..], more);
    }
  }

  /** Reading on: what was not cut yet, followed by what arrives. */
  lemma {:induction false} LinesConcat(text: Text, more: Text)
    ensures Lines(text + more) == Lines(text) + Lines(Rest(text) + more)
    ensures Rest(text + more) == Rest(Rest(text) + more)
    decreases |text|
  {
    var i := IndexOfCrlf(text);
    if i < |text| {
      IndexKept(text, more);
      assert (text + more)[..i] == text[..i];
      assert (text + more)[i + 2..] == text[i + 2..] + more;
      LinesConcat(text[i + 2..], more);
    }
  }

  /** The lines of a text and a last line: cutting at CRLF inverts writing lines with CRLF. */
  lemma {:induction false} LinesAreTerminated(text: Text)
    ensures Unlines(Lines(text)) + Rest(text) == text
    ensures NoBreak(Rest(text))
    ensures forall line :: line in Lines(text) ==> NoBreak(line)
    decreases |text|
  {
    var i := IndexOfCrlf(text);
    if i < |text| {
      LinesAreTerminated(text[i + 2..]);
      FirstLineTerminated(text);
    }
  }

  lemma {:induction false} FirstLineTerminated(text: Text)
    requires IndexOfCrlf(text) < |text|
    requires var more := text[IndexOfCrlf(text) + 2..];
             Unlines(Lines(more)) + Rest(more) == more && NoBreak(Rest(more)) && forall line :: line in Lines(more) ==> NoBreak(line)
    ensures Unlines(Lines(text)) + Rest(text) == text
    ensures NoBreak(Rest(text))
    ensures forall line :: line in Lines(text) ==> NoBreak(line)
  {
    var i := IndexOfCrlf(text);
    var line, more := text[..i], text[i + 2..];
    FirstLine(text);
    LinesCut(text);
    UnlinesCons(line, Lines(more), Rest(more));
    CutAt(text, i);
  }

  predicate NoBreak(line: Text) {
    IndexOfCrlf(line) == |line|
  }

  lemma {:induction false} LinesCut(text: Text)
    requires IndexOfCrlf(text) < |text|
    ensures var i := IndexOfCrlf(text); Lines(text) == [text[..i]] + Lines(text[i + 2..]) && Rest(text) == Rest(text[i + 2..])
  {
  }

  lemma CutAt(text: Text, i: nat)
    requires i + 1 < |text| && text[i] == CR && text[i + 1] == LF
    ensures text == text[..i] + [CR, LF] + text[i + 2..]
  {
  }

  lemma {:induction false} UnlinesCons(line: Text, lines: seq<Text>, rest: Text)
    ensures Unlines([line] + lines) + rest == line + [CR, LF] + (Unlines(lines) + rest)
  {
    assert ([line] + lines)[1..] == lines;
  }

  function Unlines(lines: seq<Text>): Text {
    if lines == [] then [] else lines[0] + [CR, LF] + Unlines(lines[1..])
  }

  lemma {:induction false} FirstLine(text: Text)
    ensures IndexOfCrlf(text[..IndexOfCrlf(text)]) == IndexOfCrlf(text)
  {
    var i := IndexOfCrlf(text);
    if |text| >= 2 && i > 0 {
      FirstLine(text[1..]);
      assert text[..i][1..] == text[1..][..i - 1];
    }
  }

  // ----- The reader -----

  /** What the reader holds after `received` text and `asked` reads, however they interleaved. */
  datatype State = State(buffer: Text, waiters: seq<nat>, lines: seq<Text>, answers: seq<Option<Text>>)

  function Numbers(start: nat, end: nat): (r: seq<nat>)
    ensures |r| == if start < end then end - start else 0
    ensures forall i :: 0 <= i < |r| ==> r[i] == start + i
    decreases if start < end then end - start else 0
  {
    if start >= end then [] else [start] + Numbers(start + 1, end)
  }

  /** The k-th read is answered by the k-th line as soon as that line is complete. */
  function Answers(lines: seq<Text>, asked: nat): (r: seq<Option<Text>>)
    ensures |r| == asked
    ensures forall k :: 0 <= k < asked ==> r[k] == if k < |lines| then Some(lines[k]) else None
  {
    if asked == 0 then []
    else Answers(lines, asked - 1) + [if asked - 1 < |lines| then Some(lines[asked - 1]) else None]
  }

  function StateOf(received: Text, asked: nat): State {
    var lines := Lines(received);
    State(Rest(received),
          Numbers(|lines|, asked),
          if asked <= |lines| then lines[asked..] else [],
          Answers(lines, asked))
  }

  /** A waiting read and a queued line never exist together. */
  lemma NeverBoth(received: Text, asked: nat)
    ensures StateOf(received, asked).waiters == [] || StateOf(received, asked).lines == []
    ensures StateOf(received, asked).waiters != [] ==>
              forall k :: 0 <= k < |StateOf(received, asked).waiters| ==>
                            StateOf(received, asked).answers[StateOf(received, asked).waiters[k]].None?
  {
  }

  lemma Reassociate(complete: seq<Text>, line: Text, more: seq<Text>)
    ensures complete + ([line] + more) == (complete + [line]) + more
  {
  }

  /** A text of which these lines have been cut, with what is left of it. */
  ghost predicate CutInto(text: Text, complete: seq<Text>, buffer: Text) {
    Lines(text) == complete + Lines(buffer) && Rest(text) == Rest(buffer)
  }

  lemma {:induction false} StartCutting(received: Text, chunk: Text)
    ensures CutInto(received + chunk, Lines(received), Rest(received) + chunk)
  {
    LinesConcat(received, chunk);
  }

  lemma {:induction false} NextLine(text: Text, complete: seq<Text>, buffer: Text)
    requires IndexOfCrlf(buffer) < |buffer| && CutInto(text, complete, buffer)
    ensures var i := IndexOfCrlf(buffer); CutInto(text, complete + [buffer[..i]], buffer[i + 2..])
  {
    var i := IndexOfCrlf(buffer);
    LinesCut(buffer);
    Reassociate(complete, buffer[..i], Lines(buffer[i + 2..]));
  }

  lemma {:induction false} AllCut(text: Text, complete: seq<Text>, buffer: Text)
    requires IndexOfCrlf(buffer) == |buffer| && CutInto(text, complete, buffer)
    ensures Lines(text) == complete && Rest(text) == buffer
  {
    assert complete + [] == complete;
  }

  /** What one more read changes. */
  lemma {:induction false} AskOneMore(lines: seq<Text>, asked: nat)
    ensures asked < |lines| ==>
              && Numbers(|lines|, asked) == Numbers(|lines|, asked + 1) == []
              && Answers(lines, asked + 1) == Answers(lines, asked) + [Some(lines[asked..][0])]
              && lines[asked + 1..] == lines[asked..][1..]
    ensures asked >= |lines| ==>
              && Numbers(|lines|, asked + 1) == Numbers(|lines|, asked) + [asked]
              && Answers(lines, asked + 1) == Answers(lines, asked) + [None]
              && lines[|lines|..] == []
  {
  }

  class Reader {
    var buffer: Text
    var waiters: seq<nat>
    var lines: seq<Text>
    var answers: seq<Option<Text>>
    ghost var received: Text

    ghost function Held(): State
      reads this
    {
      State(buffer, waiters, lines, answers)
    }

    /** The state depends only on the concatenation of the chunks and on the number of reads. */
    ghost predicate Valid()
      reads this
    {
      Held() == StateOf(received, |answers|)
    }

    constructor ()
      ensures Valid() && received == [] && answers == []
    {
      buffer, waiters, lines, answers, received := [], [], [], [], [];
    }

    /** The reads and the queue are as these complete lines leave them. */
    ghost predicate Holding(complete: seq<Text>)
      reads this
    {
      && waiters == Numbers(|complete|, |answers|)
      && answers == Answers(complete, |answers|)
      && lines == if |answers| <= |complete| then complete[|answers|..] else []
    }

    /** One line for the first waiting read, or for the queue. */
    method Deliver(line: Text, ghost complete: seq<Text>)
      requires Holding(complete)
      modifies this`waiters, this`lines, this`answers
      ensures |answers| == old(|answers|) && Holding(complete + [line])
    {
      if waiters != [] {
        var waiter := waiters[0];
        waiters := waiters[1..];
        answers := answers[waiter := Some(line)];
      } else {
        lines := lines + [line];
      }
    }

    /** The body of the loop: the first complete line leaves the buffer. */
    method CutLine(
      index: nat, ghost whole: Text, ghost complete: seq<Text>)
      returns (ghost more: seq<Text>)
      requires index == IndexOfCrlf(buffer) < |buffer|
      requires CutInto(whole, complete, buffer) && Holding(complete)
      modifies this`buffer, this`waiters, this`lines, this`answers
      ensures |answers| == old(|answers|) && |buffer| < |old(buffer)|
      ensures CutInto(whole, more, buffer) && Holding(more)
    {
      var line := buffer[..index];
      NextLine(whole, complete, buffer);
      Deliver(line, complete);
      more := complete + [line];
      buffer := buffer[index + 2..];
    }

    method OnData(chunk: Text)
      requires Valid()
      modifies this
      ensures Valid() && received == old(received) + chunk && |answers| == old(|answers|)
    {
      ghost var complete, whole := Lines(received), received + chunk;
      StartCutting(received, chunk);
      received := whole;
      buffer := buffer + chunk;
      var index := IndexOfCrlf(buffer);
      while index < |buffer|
        invariant index == IndexOfCrlf(buffer) && |answers| == old(|answers|) && received == whole
        invariant CutInto(whole, complete, buffer)
        invariant Holding(complete)
        decreases |buffer|
      {
        complete := CutLine(index, whole, complete);
        index := IndexOfCrlf(buffer);
      }
      AllCut(whole, complete, buffer);
    }

    /** A read: a queued line at once, or a promise resolved later under this ticket. */
    method Next() returns (ticket: nat)
      requires Valid()
      modifies this
      ensures Valid() && received == old(received)
      ensures ticket == old(|answers|) && |answers| == ticket + 1
    {
      ticket := |answers|;
      AskOneMore(Lines(received), ticket);
      if lines != [] {
        answers := answers + [Some(lines[0])];
        lines := lines[1..];
      } else {
        answers := answers + [None];
        waiters := waiters + [ticket];
      }
    }
  }

  // ----- Replies -----

  /** `/^\d{3}-/`: more lines of the same reply follow (RFC 5321, section 4.2.1). */
  predicate IsContinuation(line: Text) {
    |line| >= 4 && IsDigit(line[0]) && IsDigit(line[1]) && IsDigit(line[2]) && line[3] == 45
  }

  /** The line starts with the three digits of the expected code. */
  predicate HasCode(line: Text, expected: nat) {
    && |line| >= 3 && IsDigit(line[0]) && IsDigit(line[1]) && IsDigit(line[2])
    && (line[0] - 48) * 100 + (line[1] - 48) * 10 + (line[2] - 48) == expected
  }

  /** Lines from..last form one whole reply. */
  ghost predicate IsReply(lines: seq<Text>, from: nat, last: nat) {
    && from <= last < |lines|
    && (forall k :: from <= k < last ==> IsContinuation(lines[k]))
    && !IsContinuation(lines[last])
  }

  datatype Outcome = Waiting(ticket: nat) | Accepted | Rejected

  /** Where a reply starting at `from` stands, given the complete lines. */
  ghost predicate Describes(outcome: Outcome, lines: seq<Text>, from: nat, asked: nat, expected: nat) {
    && asked > from
    && if outcome.Waiting? then
         outcome.ticket == asked - 1 && |lines| <= asked - 1 && forall k :: from <= k < asked - 1 && k < |lines| ==> IsContinuation(lines[k])
       else
         IsReply(lines, from, asked - 1) && (outcome == Accepted <==> HasCode(lines[asked - 1], expected))
  }

  /** Continues a reply once the read with this ticket has been answered, as `await` resumes. */
  method Resume(
    reader: Reader, ticket: nat, ghost from: nat, expected: nat)
    returns (outcome: Outcome)
    requires reader.Valid() && from <= ticket == |reader.answers| - 1
    requires ticket <= |Lines(reader.received)|
    requires forall k :: from <= k < ticket ==> IsContinuation(Lines(reader.received)[k])
    modifies reader
    ensures reader.Valid() && reader.received == old(reader.received)
    ensures Describes(outcome, Lines(reader.received), from, |reader.answers|, expected)
  {
    var current := ticket;
    ghost var lines := Lines(reader.received);
    while reader.answers[current].Some? && IsContinuation(reader.answers[current].value)
      invariant reader.Valid() && reader.received == old(reader.received)
      invariant from <= current == |reader.answers| - 1
      invariant current <= |lines| && forall k :: from <= k < current ==> IsContinuation(lines[k])
      decreases |lines| - current
    {
      current := reader.Next();
    }
    if reader.answers[current].None? {
      return Waiting(current);
    }
    return if HasCode(reader.answers[current].value, expected) then Accepted else Rejected;
  }

  /** Reads one reply: all its lines and no line of the next one. */
  method ReadReply(reader: Reader, expected: nat) returns (outcome: Outcome)
    requires reader.Valid() && |reader.answers| <= |Lines(reader.received)|
    modifies reader
    ensures reader.Valid() && reader.received == old(reader.received)
    ensures Describes(outcome, Lines(reader.received), old(|reader.answers|), |reader.answers|, expected)
  {
    ghost var from := |reader.answers|;
    var ticket := reader.Next();
    outcome := Resume(reader, ticket, from, expected);
  }

  /** One reply has one extent: reading cannot stop earlier or later. */
  lemma ReplyIsUnique(lines: seq<Text>, from: nat, last: nat, other: nat)
    requires IsReply(lines, from, last) && IsReply(lines, from, other)
    ensures last == other
  {
  }

  const SPACE: CodeUnit := 32
  const HYPHEN: CodeUnit := 45

  /** The three digits of a reply code, then `separator` and the text, as a server writes a line. */
  function ReplyLine(code: nat, separator: CodeUnit, text: Text): Text
    requires code < 1000
  {
    [48 + code / 100, 48 + code / 10 % 10, 48 + code % 10] + [separator] + text
  }

  /** Section 4.2.1 of RFC 5321: a hyphen after the code on every line but the last. */
  function ReplyLines(code: nat, texts: seq<Text>, last: Text): (lines: seq<Text>)
    requires code < 1000
    ensures |lines| == |texts| + 1
  {
    if texts == [] then [ReplyLine(code, SPACE, last)]
    else [ReplyLine(code, HYPHEN, texts[0])] + ReplyLines(code, texts[1..], last)
  }

  lemma {:induction false} ReplyLinesAre(code: nat, texts: seq<Text>, last: Text, k: nat)
    requires code < 1000 && k <= |texts|
    ensures ReplyLines(code, texts, last)[k] ==
            if k < |texts| then ReplyLine(code, HYPHEN, texts[k]) else ReplyLine(code, SPACE, last)
    decreases |texts|
  {
    if k > 0 {
      ReplyLinesAre(code, texts[1..], last, k - 1);
    }
  }

  lemma {:induction false} LineReads(code: nat, separator: CodeUnit, text: Text, expected: nat)
    requires code < 1000
    ensures IsContinuation(ReplyLine(code, separator, text)) <==> separator == HYPHEN
    ensures HasCode(ReplyLine(code, separator, text), expected) <==> code == expected
  {
    assert code / 100 < 10 && code / 10 == code / 100 * 10 + code / 10 % 10;
  }

  /** A line goes on exactly when it is some three-digit code, a hyphen and a text. */
  lemma {:induction false} ContinuationExactly(line: Text)
    ensures IsContinuation(line) <==> exists code: nat, text: Text :: code < 1000 && line == ReplyLine(code, HYPHEN, text)
  {
    if IsContinuation(line) {
      var a, b, c := line[0] - 48, line[1] - 48, line[2] - 48;
      DigitsOf(a, b, c);
      assert line == ReplyLine(100 * a + 10 * b + c, HYPHEN, line[4..]);
    }
    if code: nat, text: Text :| code < 1000 && line == ReplyLine(code, HYPHEN, text) {
      LineReads(code, HYPHEN, text, code);
    }
  }

  /** A line has the expected code exactly when it is that code in three digits and anything after it. */
  lemma {:induction false} CodeExactly(line: Text, expected: nat)
    ensures HasCode(line, expected) <==>
            expected < 1000 && |line| >= 3 && line[..3] == [48 + expected / 100, 48 + expected / 10 % 10, 48 + expected % 10]
  {
    if HasCode(line, expected) {
      DigitsOf(line[0] - 48, line[1] - 48, line[2] - 48);
      assert line[..3] == [line[0], line[1], line[2]];
    }
    if expected < 1000 && |line| >= 3 && line[..3] == [48 + expected / 100, 48 + expected / 10 % 10, 48 + expected % 10] {
      assert line[0] == line[..3][0] && line[1] == line[..3][1] && line[2] == line[..3][2];
      LineReads(expected, HYPHEN, [], expected);
    }
  }

  lemma {:induction false} DigitsOf(a: int, b: int, c: int)
    requires 0 <= a < 10 && 0 <= b < 10 && 0 <= c < 10
    ensures var code := 100 * a + 10 * b + c; code < 1000 && code / 100 == a && code / 10 % 10 == b && code % 10 == c
  {
    var code := 100 * a + 10 * b + c;
    assert code / 10 == 10 * a + b;
  }

  lemma {:induction false} WrittenLine(lines: seq<Text>, from: nat, code: nat, texts: seq<Text>, last: Text, k: nat)
    requires code < 1000 && from + |texts| < |lines| && k <= |texts|
    requires lines[from..from + |texts| + 1] == ReplyLines(code, texts, last)
    ensures lines[from + k] == if k < |texts| then ReplyLine(code, HYPHEN, texts[k]) else ReplyLine(code, SPACE, last)
  {
    ReplyLinesAre(code, texts, last, k);
    assert lines[from + k] == lines[from..from + |texts| + 1][k];
  }

  /** The lines of a written reply form one whole reply, and it has its code. */
  lemma {:induction false} WrittenIsReply(lines: seq<Text>, from: nat, code: nat, texts: seq<Text>, last: Text, expected: nat)
    requires code < 1000 && from + |texts| < |lines|
    requires lines[from..from + |texts| + 1] == ReplyLines(code, texts, last)
    ensures IsReply(lines, from, from + |texts|)
    ensures HasCode(lines[from + |texts|], expected) <==> code == expected
  {
    forall k | from <= k < from + |texts|
      ensures IsContinuation(lines[k])
    {
      WrittenLine(lines, from, code, texts, last, k - from);
      LineReads(code, HYPHEN, texts[k - from], expected);
    }
    WrittenLine(lines, from, code, texts, last, |texts|);
    LineReads(code, SPACE, last, expected);
  }

  /**
   From the server's side: once it has written a whole reply of any number of lines, reading it
   consumes exactly these lines, and accepts it exactly when its code is the expected one.
   */
  method ReadWritten(
    reader: Reader, ghost code: nat, ghost texts: seq<Text>, ghost last: Text, expected: nat)
    returns (outcome: Outcome)
    requires reader.Valid() && code < 1000 && |reader.answers| + |texts| < |Lines(reader.received)|
    requires var from := |reader.answers|;
             Lines(reader.received)[from..from + |texts| + 1] == ReplyLines(code, texts, last)
    modifies reader
    ensures reader.Valid() && reader.received == old(reader.received)
    ensures |reader.answers| == old(|reader.answers|) + |texts| + 1
    ensures outcome == if code == expected then Accepted else Rejected
  {
    ghost var lines, from := Lines(reader.received), |reader.answers|;
    WrittenIsReply(lines, from, code, texts, last, expected);
    outcome := ReadReply(reader, expected);
    assert !IsContinuation(lines[from + |texts|]);
    assert !outcome.Waiting?;
    ReplyIsUnique(lines, from, from + |texts|, |reader.answers| - 1);
  }

  datatype Event = Data(chunk: Text) | Read

  function Received(events: seq<Event>): Text {
    if events == [] then []
    else
      var front, last := Received(events[..|events| - 1]), events[|events| - 1];
      if last.Data? then front + last.chunk else front
  }

  function Reads(events: seq<Event>): nat {
    if events == [] then 0
    else Reads(events[..|events| - 1]) + (if events[|events| - 1].Read? then 1 else 0)
  }

  /** The reader after any interleaving of chunks and reads. */
  method Replay(events: seq<Event>) returns (reader: Reader)
    ensures fresh(reader) && reader.Held() == StateOf(Received(events), Reads(events))
  {
    reader := new Reader();
    for i := 0 to |events|
      invariant fresh(reader) && reader.Valid()
      invariant reader.received == Received(events[..i]) && |reader.answers| == Reads(events[..i])
    {
      assert events[..i + 1][..i] == events[..i];
      match events[i] {
        case Data(chunk) => reader.OnData(chunk);
        case Read => var _ := reader.Next();
      }
    }
    assert events[..|events|] == events;
  }

  /**
   Framing does not depend on the chunks: two readers fed the same text in any chunks, with any
   interleaving of the same number of reads, end in the same state. Read k holds line k of the
   text as soon as that line is complete, and the lines with the buffer are all of the text.
   */
  method FramingIgnoresChunks(
    events: seq<Event>, others: seq<Event>)
    returns (reader: Reader, other: Reader)
    requires Received(events) == Received(others) && Reads(events) == Reads(others)
    ensures reader.Held() == other.Held()
    ensures |reader.answers| == Reads(events)
    ensures forall k :: 0 <= k < Reads(events) ==>
                          var lines := Lines(Received(events));
                          reader.answers[k] == if k < |lines| then Some(lines[k]) else None
    ensures Unlines(Lines(Received(events))) + reader.buffer == Received(events)
  {
    reader := Replay(events);
    other := Replay(others);
    LinesAreTerminated(Received(events));
  }
}
