/**
 DER encoding for RFC 3161 time-stamp requests (`timestamp.ts`): lengths, integers and object
 identifiers written by loops over JavaScript's 32-bit shifts, and the reader of responses.
 */
module Der {
  import opened Wrappers

  type Byte = x: int | 0 <= x < 0x100

  type Bytes = seq<Byte>

  const TWO_31 := 0x8000_0000
  const TWO_32 := 0x1_0000_0000

  /** The operand of a JavaScript bitwise operator. */
  function ToInt32(x: int): int {
    var m := x % TWO_32;
    if m >= TWO_31 then m - TWO_32 else m
  }

  lemma ToInt32Small(x: nat)
    requires x < TWO_31
    ensures ToInt32(x) == x
  {
  }

  /** `x >> 8` and `x >> 7`: an arithmetic shift of a 32-bit integer. */
  function Shift8(x: int): (r: int)
    ensures x > 0 ==> r < x
    ensures 0 <= x < TWO_31 ==> r == x / 256
  {
    ToInt32(x) / 256
  }

  function Shift7(x: int): (r: int)
    ensures x > 0 ==> r < x
    ensures 0 <= x < TWO_31 ==> r == x / 128
  {
    ToInt32(x) / 128
  }

  lemma BytesAssociate(x: Bytes, y: Bytes, z: Bytes)
    ensures (x + y) + z == x + (y + z)
  {
  }

  // ----- Lengths -----

  /** The bytes the `length` loop collects, most significant first. */
  function SizeBytes(value: int): Bytes
    decreases if value > 0 then value else 0
  {
    if value <= 0 then [] else SizeBytes(Shift8(value)) + [value % 256]
  }

  function LengthOf(size: nat): Bytes {
    if size < 0x80 then [size] else [(0x80 + |SizeBytes(size)|) % 256] + SizeBytes(size)
  }

  method Length(size: nat) returns (r: Bytes)
    ensures r == LengthOf(size)
  {
    if size < 0x80 {
      return [size];
    }
    var bytes: Bytes := [];
    var value: int := size;
    while value > 0
      invariant SizeBytes(value) + bytes == SizeBytes(size)
      decreases if value > 0 then value else 0
    {
      BytesAssociate(SizeBytes(Shift8(value)), [value % 256], bytes);
      bytes := [value % 256] + bytes;
      value := Shift8(value);
    }
    return [(0x80 + |bytes|) % 256] + bytes;
  }

  /** The number a big-endian byte string denotes; what the reading loop accumulates. */
  function Value(bytes: Bytes): nat {
    if bytes == [] then 0 else Value(bytes[..|bytes| - 1]) * 256 + bytes[|bytes| - 1]
  }

  lemma {:induction false} ValueSnoc(bytes: Bytes, b: Byte)
    ensures Value(bytes + [b]) == Value(bytes) * 256 + b
  {
    assert (bytes + [b])[..|bytes|] == bytes;
  }

  lemma {:induction false} SizeBytesSmall(value: nat)
    requires value < TWO_31
    ensures Value(SizeBytes(value)) == value
    ensures value > 0 ==> SizeBytes(value) != [] && SizeBytes(value)[0] != 0
  {
    if value > 0 {
      ToInt32Small(value);
      SizeBytesSmall(value / 256);
      ValueSnoc(SizeBytes(value / 256), value % 256);
    }
  }

  lemma {:induction false} SizeBytesCount(value: nat, n: nat)
    requires value < TWO_31
    requires (n == 0 && value == 0) || (n == 1 && value < 0x100) || (n == 2 && value < 0x1_0000) || (n == 3 && value < 0x100_0000) || n == 4
    ensures |SizeBytes(value)| <= n
  {
    if value > 0 {
      ToInt32Small(value);
      SizeBytesCount(value / 256, n - 1);
    }
  }

  /** Any other value: at most four bytes come out, and they denote another number. */
  lemma {:induction false} SizeBytesLarge(value: nat)
    requires value >= TWO_31
    ensures 1 <= |SizeBytes(value)| <= 4 && Value(SizeBytes(value)) != value
  {
    var next := Shift8(value);
    assert next < 0x80_0000;
    ValueSnoc(SizeBytes(next), value % 256);
    if next > 0 {
      SizeBytesSmall(next);
      SizeBytesCount(next, 3);
    } else {
      assert SizeBytes(next) == [];
    }
  }

  /** The encoded length is the size exactly below 2^31, because the loop shifts 32-bit integers. */
  lemma {:induction false} LengthRoundTripExactly(size: nat)
    requires size >= 0x80
    ensures 1 <= |SizeBytes(size)| <= 4
    ensures Value(SizeBytes(size)) == size <==> size < 0x8000_0000
  {
    if size < TWO_31 {
      SizeBytesSmall(size);
      SizeBytesCount(size, 4);
    } else {
      SizeBytesLarge(size);
    }
  }

  lemma {:induction false} ValueBound(bytes: Bytes, size: nat)
    requires size < TWO_31 && Value(bytes) == size
    ensures |SizeBytes(size)| <= |bytes|
  {
    if bytes != [] {
      ToInt32Small(size);
      ValueBound(bytes[..|bytes| - 1], size / 256);
    }
  }

  lemma {:induction false} LengthForms(size: nat)
    requires size < TWO_31
    ensures size < 0x80 ==> LengthOf(size) == [size]
    ensures size >= 0x80 ==> |LengthOf(size)| == 1 + |SizeBytes(size)| && SizeBytes(size) != [] && LengthOf(size)[1] == SizeBytes(size)[0] != 0
  {
    SizeBytesSmall(size);
  }

  /** X.690 section 10.1: the short form whenever it fits, else the fewest bytes that hold the size. */
  lemma {:induction false} LengthIsMinimal(size: nat, bytes: Bytes)
    requires size < TWO_31 && Value(bytes) == size
    ensures |LengthOf(size)| == 1 <==> size < 0x80
    ensures size >= 0x80 ==> |LengthOf(size)| <= 1 + |bytes| && LengthOf(size)[1] != 0
  {
    LengthForms(size);
    ValueBound(bytes, size);
  }

  // ----- Values -----

  function Tlv(tag: Byte, value: Bytes): Bytes {
    [tag] + LengthOf(|value|) + value
  }

  datatype Error = UnsupportedLength | Truncated | ShortHeader | InvalidResponse | Rejected | TokenMissing | HashMissing | NonceMissing

  datatype Result<+T> = Ok(value: T) | Err(error: Error)

  /** Where a value lies in a buffer. */
  datatype Element = Element(tag: Byte, start: nat, end: nat)

  /** The tag, the length byte and the length bytes it announces are inside the buffer. */
  predicate HasHeader(buffer: Bytes, offset: nat) {
    && offset + 2 <= |buffer|
    && (buffer[offset + 1] >= 0x80 && 1 <= buffer[offset + 1] - 0x80 <= 4 ==> offset + 2 + buffer[offset + 1] - 0x80 <= |buffer|)
  }

  function ReadTlv(buffer: Bytes, offset: nat): (r: Result<Element>)
    requires HasHeader(buffer, offset)
    ensures r.Ok? ==> offset + 2 <= r.value.start <= r.value.end <= |buffer|
  {
    var first := buffer[offset + 1];
    if first >= 0x80 && !(1 <= first - 0x80 <= 4) then Err(UnsupportedLength)
    else
      var count := if first < 0x80 then 0 else first - 0x80;
      var size := if first < 0x80 then first else Value(buffer[offset + 2..offset + 2 + count]);
      var end := offset + 2 + count + size;
      if end > |buffer| then Err(Truncated) else Ok(Element(buffer[offset], offset + 2 + count, end))
  }

  method ReadTlvLoop(buffer: Bytes, offset: nat) returns (r: Result<Element>)
    requires HasHeader(buffer, offset)
    ensures r == ReadTlv(buffer, offset)
  {
    var size: nat := buffer[offset + 1];
    var header := 2;
    if size >= 0x80 {
      var count := size - 0x80;
      if count < 1 || count > 4 {
        return Err(UnsupportedLength);
      }
      size := 0;
      for index := 0 to count
        invariant size == Value(buffer[offset + 2..offset + 2 + index])
      {
        ValueSnoc(buffer[offset + 2..offset + 2 + index], buffer[offset + 2 + index]);
        assert buffer[offset + 2..offset + 2 + index + 1] == buffer[offset + 2..offset + 2 + index] + [buffer[offset + 2 + index]];
        size := size * 256 + buffer[offset + 2 + index];
      }
      header := header + count;
    }
    var end := offset + header + size;
    if end > |buffer| {
      return Err(Truncated);
    }
    return Ok(Element(buffer[offset], offset + header, end));
  }

  /** The parts of [tag] + length + value, wherever they lie. */
  lemma PartsOf(before: Bytes, tag: Byte, length: Bytes, value: Bytes, after: Bytes)
    requires length != []
    ensures var buffer, offset := before + ([tag] + length + value) + after, |before|;
            && |buffer| == offset + 1 + |length| + |value| + |after|
            && buffer[offset] == tag
            && buffer[offset + 1] == length[0]
            && buffer[offset + 2..offset + 1 + |length|] == length[1..]
            && buffer[offset + 1 + |length|..offset + 1 + |length| + |value|] == value
  {
    var buffer, offset := before + ([tag] + length + value) + after, |before|;
    assert forall i :: 0 <= i < |length| ==> buffer[offset + 1 + i] == length[i];
  }

  /** Length bytes as X.690 section 8.1.3 defines them, of at most four subsequent octets. */
  predicate IsLength(length: Bytes) {
    length != [] && if length[0] < 0x80 then |length| == 1 else length[0] == 0x80 + |length| - 1 && 2 <= |length| <= 5
  }

  function Announced(length: Bytes): nat
    requires IsLength(length)
  {
    if length[0] < 0x80 then length[0] else Value(length[1..])
  }

  lemma {:induction false} LengthAnnounces(size: nat)
    ensures IsLength(LengthOf(size))
    ensures Announced(LengthOf(size)) == size <==> size < TWO_31
  {
    if size >= 0x80 {
      LengthRoundTripExactly(size);
      LongForm(SizeBytes(size));
    }
  }

  lemma LongForm(bytes: Bytes)
    requires 1 <= |bytes| <= 4
    ensures var length := [(0x80 + |bytes|) % 256] + bytes; IsLength(length) && Announced(length) == Value(bytes)
  {
    var n := |bytes|;
    assert (0x80 + n) % 256 == 0x80 + n;
    var length: Bytes := [0x80 + n] + bytes;
    assert length[0] == 0x80 + n && length[1..] == bytes;
  }

  /** Reading a header of the given length bytes. */
  lemma {:induction false} HeaderReads(buffer: Bytes, offset: nat, length: Bytes)
    requires IsLength(length) && offset + 1 + |length| <= |buffer|
    requires buffer[offset + 1] == length[0] && buffer[offset + 2..offset + 1 + |length|] == length[1..]
    ensures HasHeader(buffer, offset)
    ensures var start, size := offset + 1 + |length|, Announced(length);
            ReadTlv(buffer, offset) == if start + size > |buffer| then Err(Truncated)
                                       else Ok(Element(buffer[offset], start, start + size))
  {
    if length[0] >= 0x80 {
      var count := length[0] - 0x80;
      assert buffer[offset + 2..offset + 2 + count] == length[1..];
    }
  }

  /** Reading at the start of an encoded value, whatever surrounds it. */
  lemma {:induction false} TlvHeader(before: Bytes, tag: Byte, value: Bytes, after: Bytes)
    ensures var buffer, offset := before + Tlv(tag, value) + after, |before|;
            var start := offset + 1 + |LengthOf(|value|)|;
            && HasHeader(buffer, offset)
            && (ReadTlv(buffer, offset) == Ok(Element(tag, start, start + |value|)) <==> |value| < TWO_31)
            && start + |value| <= |buffer| && buffer[start..start + |value|] == value
  {
    LengthAnnounces(|value|);
    PartsOf(before, tag, LengthOf(|value|), value, after);
    HeaderReads(before + Tlv(tag, value) + after, |before|, LengthOf(|value|));
  }

  /** `readTlv` finds exactly the tag and the value that `tlv` wrote, exactly below 2^31 bytes. */
  lemma {:induction false} TlvRoundTripExactly(
    before: Bytes, tag: Byte, value: Bytes, after: Bytes)
    ensures var buffer := before + Tlv(tag, value) + after;
            && HasHeader(buffer, |before|)
            && var r := ReadTlv(buffer, |before|);
               (r.Ok? && r.value.tag == tag && r.value.start == |before| + 1 + |LengthOf(|value|)| && r.value.end == r.value.start + |value|
                && buffer[r.value.start..r.value.end] == value)
               <==> |value| < 0x8000_0000
  {
    TlvHeader(before, tag, value, after);
  }

  // ----- Integers -----

  /** The contents octets of `integer(value)`. */
  function IntegerContent(value: Bytes): Bytes {
    if value != [] && value[0] >= 0x80 then [0] + value else value
  }

  /** X.690 section 8.3.2: at least one octet, and the first nine bits are not all equal. */
  predicate MinimalInteger(content: Bytes) {
    && content != []
    && (|content| > 1 ==> !(content[0] == 0 && content[1] < 0x80) && !(content[0] == 0xFF && content[1] >= 0x80))
  }

  lemma {:induction false} ValueCons(b: Byte, bytes: Bytes)
    ensures b == 0 ==> Value([b] + bytes) == Value(bytes)
  {
    if bytes != [] {
      ValueCons(b, bytes[..|bytes| - 1]);
      assert ([b] + bytes)[..|bytes|] == [b] + bytes[..|bytes| - 1];
    } else {
      assert [b] + bytes == [] + [b];
      ValueSnoc([], b);
    }
  }

  /**
   An integer is written as the same non-negative number, and in DER form exactly when the given
   bytes carry no superfluous leading zero: a random nonce that starts with one is not minimal.
   */
  lemma {:induction false} IntegerIsMinimalExactly(value: Bytes)
    ensures Value(IntegerContent(value)) == Value(value)
    ensures IntegerContent(value) != [] ==> IntegerContent(value)[0] < 0x80
    ensures MinimalInteger(IntegerContent(value)) <==>
            value != [] && !(|value| > 1 && value[0] == 0 && value[1] < 0x80)
  {
    ValueCons(0, value);
  }

  // ----- Object identifiers -----

  /** The base-128 digits above the last one, with continuation bits, as the inner loop collects them. */
  function ArcHead(value: int): Bytes
    decreases if value > 0 then value else 0
  {
    if value <= 0 then [] else ArcHead(Shift7(value)) + [value % 128 + 128]
  }

  function ArcBytes(part: nat): Bytes {
    ArcHead(Shift7(part)) + [part % 128]
  }

  function ArcsBytes(rest: seq<nat>): Bytes {
    if rest == [] then [] else ArcBytes(rest[0]) + ArcsBytes(rest[1..])
  }

  /** The contents octets of `oid`: the first byte is truncated to eight bits by `Buffer.from`. */
  function OidContent(first: nat, second: nat, rest: seq<nat>): Bytes {
    [(first * 40 + second) % 256] + ArcsBytes(rest)
  }

  lemma {:induction false} ArcHeadStep(value: nat, chunk: Bytes)
    requires value > 0
    ensures ArcHead(value) + chunk == ArcHead(Shift7(value)) + ([value % 128 + 128] + chunk)
  {
    BytesAssociate(ArcHead(Shift7(value)), [value % 128 + 128], chunk);
  }

  /** The inner loop: the base-128 digits of one arc. */
  method ArcChunk(part: nat) returns (chunk: Bytes)
    ensures chunk == ArcBytes(part)
  {
    chunk := [part % 128];
    var value := Shift7(part);
    while value > 0
      invariant ArcHead(value) + chunk == ArcBytes(part)
      decreases if value > 0 then value else 0
    {
      ArcHeadStep(value, chunk);
      chunk := [value % 128 + 128] + chunk;
      value := Shift7(value);
    }
  }

  method OidBytes(first: nat, second: nat, rest: seq<nat>) returns (bytes: Bytes)
    ensures bytes == OidContent(first, second, rest)
  {
    bytes := [(first * 40 + second) % 256];
    for i := 0 to |rest|
      invariant bytes + ArcsBytes(rest[i..]) == OidContent(first, second, rest)
    {
      var chunk := ArcChunk(rest[i]);
      assert rest[i..][1..] == rest[i + 1..];
      assert bytes + ArcsBytes(rest[i..]) == (bytes + chunk) + ArcsBytes(rest[i + 1..]);
      bytes := bytes + chunk;
    }
  }

  /** The subidentifiers of X.690 section 8.19.2, given those already read and the digits of the current one. */
  function Subidentifiers(bytes: Bytes, current: nat): seq<nat> {
    if bytes == [] then []
    else if bytes[0] < 128 then [current * 128 + bytes[0]] + Subidentifiers(bytes[1..], 0)
    else Subidentifiers(bytes[1..], current * 128 + bytes[0] - 128)
  }

  /** The arcs of section 8.19.4: the first subidentifier holds the first two. */
  function Arcs(subidentifiers: seq<nat>): seq<nat> {
    if subidentifiers == [] then []
    else
      var x := subidentifiers[0];
      var first := if x < 40 then 0 else if x < 80 then 1 else 2;
      [first, x - 40 * first] + subidentifiers[1..]
  }

  /** What the digits with continuation bits denote. */
  function HeadValue(head: Bytes): int {
    if head == [] then 0 else HeadValue(head[..|head| - 1]) * 128 + head[|head| - 1] - 128
  }

  lemma {:induction false} ArcHeadShape(value: nat)
    requires value < TWO_31
    ensures HeadValue(ArcHead(value)) == value
    ensures forall i :: 0 <= i < |ArcHead(value)| ==> ArcHead(value)[i] >= 128
  {
    if value > 0 {
      ToInt32Small(value);
      ArcHeadShape(value / 128);
      var head := ArcHead(value / 128);
      assert (head + [value % 128 + 128])[..|head|] == head;
    }
  }

  function HeadFrom(head: Bytes, current: int): int {
    if head == [] then current else HeadFrom(head[1..], current * 128 + head[0] - 128)
  }

  lemma {:induction false} ReadHeadFrom(head: Bytes, last: Byte, more: Bytes, current: nat)
    requires (forall i :: 0 <= i < |head| ==> head[i] >= 128) && last < 128
    ensures HeadFrom(head, current) >= 0
    ensures Subidentifiers(head + [last] + more, current) == [HeadFrom(head, current) * 128 + last] + Subidentifiers(more, 0)
    decreases |head|
  {
    var bytes := head + [last] + more;
    if head == [] {
      assert bytes[0] == last && bytes[1..] == more;
    } else {
      assert bytes[0] == head[0] && bytes[1..] == head[1..] + [last] + more;
      ReadHeadFrom(head[1..], last, more, current * 128 + head[0] - 128);
    }
  }

  lemma {:induction false} HeadFromSnoc(head: Bytes, b: Byte, current: int)
    ensures HeadFrom(head + [b], current) == HeadFrom(head, current) * 128 + b - 128
    decreases |head|
  {
    if head == [] {
      assert ([] + [b])[1..] == [];
    } else {
      assert (head + [b])[1..] == head[1..] + [b];
      HeadFromSnoc(head[1..], b, current * 128 + head[0] - 128);
    }
  }

  lemma {:induction false} HeadFromIsHead(head: Bytes)
    ensures HeadFrom(head, 0) == HeadValue(head)
    decreases |head|
  {
    if head != [] {
      var front, b := head[..|head| - 1], head[|head| - 1];
      assert head == front + [b];
      HeadFromIsHead(front);
      HeadFromSnoc(front, b, 0);
    }
  }

  /** The arc a chunk reads back as: the arc itself exactly below 2^31. */
  lemma {:induction false} ArcReadsBack(
    part: nat, more: Bytes, current: nat)
    returns (value: nat)
    ensures Subidentifiers(ArcBytes(part) + more, current) == [value] + Subidentifiers(more, 0)
    ensures current == 0 ==> (value == part <==> part < TWO_31)
  {
    var next := Shift7(part);
    assert next < 0x100_0000;
    if next > 0 {
      ArcHeadShape(next);
    } else {
      assert ArcHead(next) == [];
    }
    var head := ArcHead(next);
    ReadHeadFrom(head, part % 128, more, current);
    HeadFromIsHead(head);
    value := HeadFrom(head, current) * 128 + part % 128;
    if part < TWO_31 {
      ToInt32Small(part);
    }
  }

  lemma ConsEqual(x: nat, xs: seq<nat>, y: nat, ys: seq<nat>)
    ensures [x] + xs == [y] + ys <==> x == y && xs == ys
  {
    if [x] + xs == [y] + ys {
      assert ([x] + xs)[0] == x && ([y] + ys)[0] == y;
      assert ([x] + xs)[1..] == xs && ([y] + ys)[1..] == ys;
    }
  }

  ghost predicate ArcsBelow(rest: seq<nat>) {
    forall i :: 0 <= i < |rest| ==> rest[i] < 0x8000_0000
  }

  lemma {:induction false} ArcsReadBack(rest: seq<nat>, current: nat)
    ensures |Subidentifiers(ArcsBytes(rest), current)| == |rest|
    ensures current == 0 ==> (Subidentifiers(ArcsBytes(rest), 0) == rest <==> ArcsBelow(rest))
    decreases |rest|
  {
    if rest != [] {
      var tail := rest[1..];
      var value := ArcReadsBack(rest[0], ArcsBytes(tail), current);
      ArcsReadBack(tail, 0);
      assert rest == [rest[0]] + tail;
      ConsEqual(value, Subidentifiers(ArcsBytes(tail), 0), rest[0], tail);
      assert ArcsBelow(rest) <==> rest[0] < TWO_31 && ArcsBelow(tail);
    }
  }

  /**
   An identifier decodes to the arcs it was made of exactly when every later arc is below 2^31
   and the first two fit one byte without a continuation bit, as they do not for 2.48 and above.
   */
  lemma {:induction false} OidRoundTripExactly(first: nat, second: nat, rest: seq<nat>)
    requires first <= 2 && (first < 2 ==> second < 40)
    ensures Arcs(Subidentifiers(OidContent(first, second, rest), 0)) == [first, second] + rest <==>
            first * 40 + second < 128 && ArcsBelow(rest)
  {
    var x := first * 40 + second;
    OidReadsBack(first, second, rest);
    var ids := Subidentifiers(OidContent(first, second, rest), 0);
    if x % 256 < 128 {
      ArcsEqual(ids, first, second, rest);
    } else {
      ArcsTooFew(ids, first, second, rest);
    }
  }

  lemma {:induction false} OidReadsBack(first: nat, second: nat, rest: seq<nat>)
    ensures var ids, b := Subidentifiers(OidContent(first, second, rest), 0), (first * 40 + second) % 256;
            && (b < 128 ==> ids != [] && ids[0] == b && (ids[1..] == rest <==> ArcsBelow(rest)))
            && (b >= 128 ==> |ids| == |rest|)
  {
    FirstByte((first * 40 + second) % 256, rest);
    ArcsReadBack(rest, 0);
  }

  lemma {:induction false} ArcsTooFew(
    ids: seq<nat>, first: nat, second: nat, rest: seq<nat>)
    requires |ids| == |rest|
    ensures Arcs(ids) != [first, second] + rest
  {
    ArcsCount(ids);
    assert |[first, second] + rest| == 2 + |rest|;
  }

  lemma {:induction false} FirstByte(b: Byte, rest: seq<nat>)
    ensures var ids := Subidentifiers([b] + ArcsBytes(rest), 0);
            if b < 128 then ids != [] && ids[0] == b && ids[1..] == Subidentifiers(ArcsBytes(rest), 0)
            else |ids| == |rest|
  {
    var content := [b] + ArcsBytes(rest);
    assert content[0] == b && content[1..] == ArcsBytes(rest);
    if b >= 128 {
      ArcsReadBack(rest, b - 128);
    }
  }

  lemma ArcsCount(ids: seq<nat>)
    ensures |Arcs(ids)| == if ids == [] then 0 else |ids| + 1
  {
  }

  lemma {:induction false} ArcsEqual(ids: seq<nat>, first: nat, second: nat, rest: seq<nat>)
    requires ids != [] && first <= 2 && (first < 2 ==> second < 40)
    ensures Arcs(ids) == [first, second] + rest <==> ids[0] == first * 40 + second && ids[1..] == rest
  {
    var arcs := Arcs(ids);
    assert arcs[2..] == ids[1..] && ([first, second] + rest)[2..] == rest;
  }

  // ----- Requests -----

  function Sequence(content: Bytes): Bytes {
    Tlv(0x30, content)
  }

  /** The arcs of id-sha256 after the first two, 2.16. */
  const SHA256_ARCS: seq<nat> := [840, 1, 101, 3, 4, 2, 1]

  datatype Policy = Policy(first: nat, second: nat, rest: seq<nat>)

  function Imprint(digest: Bytes): Bytes {
    Sequence(Tlv(0x06, OidContent(2, 16, SHA256_ARCS)) + Tlv(0x05, [])) + Tlv(0x04, digest)
  }

  function PolicyField(policy: Option<Policy>): Bytes {
    if policy.None? then [] else Tlv(0x06, OidContent(policy.value.first, policy.value.second, policy.value.rest))
  }

  function RequestBody(digest: Bytes, nonce: Bytes, policy: Option<Policy>): Bytes {
    Tlv(0x02, IntegerContent([1])) + Sequence(Imprint(digest)) + PolicyField(policy)
    + Tlv(0x02, IntegerContent(nonce)) + Tlv(0x01, [0xFF])
  }

  /** The digest is the decoded hexadecimal argument; the program throws unless it has 32 bytes. */
  function TimestampRequest(digest: Bytes, nonce: Bytes, policy: Option<Policy>): Result<Bytes> {
    if |digest| != 32 then Err(InvalidResponse) else Ok(Sequence(RequestBody(digest, nonce, policy)))
  }

  /** The values laid end to end in a buffer, or None when they do not tile it exactly. */
  function Fields(buffer: Bytes): Option<seq<(Byte, Bytes)>> {
    if buffer == [] then Some([])
    else if !HasHeader(buffer, 0) then None
    else
      match ReadTlv(buffer, 0)
      case Err(_) => None
      case Ok(e) =>
        var rest := Fields(buffer[e.end..]);
        if rest.None? then None else Some([(e.tag, buffer[e.start..e.end])] + rest.value)
  }

  lemma {:induction false} FieldsCons(tag: Byte, value: Bytes, rest: Bytes)
    requires |value| < TWO_31 && Fields(rest).Some?
    ensures Fields(Tlv(tag, value) + rest) == Some([(tag, value)] + Fields(rest).value)
  {
    TlvAtStart(tag, value, rest);
    FirstField(Tlv(tag, value) + rest, tag, value, rest);
  }

  lemma {:induction false} TlvAtStart(tag: Byte, value: Bytes, rest: Bytes)
    requires |value| < TWO_31
    ensures var buffer := Tlv(tag, value) + rest;
            && buffer != [] && HasHeader(buffer, 0) && ReadTlv(buffer, 0).Ok?
            && var e := ReadTlv(buffer, 0).value;
               e.tag == tag && buffer[e.start..e.end] == value && buffer[e.end..] == rest
  {
    var head, buffer := Tlv(tag, value), Tlv(tag, value) + rest;
    TlvHeader([], tag, value, rest);
    assert [] + head + rest == buffer;
    assert buffer[|head|..] == rest;
  }

  lemma {:induction false} FirstField(buffer: Bytes, tag: Byte, value: Bytes, rest: Bytes)
    requires buffer != [] && HasHeader(buffer, 0) && ReadTlv(buffer, 0).Ok? && Fields(rest).Some?
    requires var e := ReadTlv(buffer, 0).value; e.tag == tag && buffer[e.start..e.end] == value && buffer[e.end..] == rest
    ensures Fields(buffer) == Some([(tag, value)] + Fields(rest).value)
  {
  }

  lemma FieldsOne(tag: Byte, value: Bytes)
    requires |value| < TWO_31
    ensures Fields(Tlv(tag, value)) == Some([(tag, value)])
  {
    FieldsCons(tag, value, []);
    assert Tlv(tag, value) + [] == Tlv(tag, value);
    assert [(tag, value)] + Fields([]).value == [(tag, value)];
  }

  /** The imprint and the digest algorithm inside it, read back. */
  lemma {:induction false} ImprintFields(digest: Bytes)
    requires |digest| == 32
    ensures var algorithm := Tlv(0x06, OidContent(2, 16, SHA256_ARCS)) + Tlv(0x05, []);
            && Fields(algorithm) == Some([(0x06, OidContent(2, 16, SHA256_ARCS)), (0x05, [])])
            && Fields(Imprint(digest)) == Some([(0x30, algorithm), (0x04, digest)])
  {
    var oid := OidContent(2, 16, SHA256_ARCS);
    Sha256OidBytes();
    FieldsOne(0x05, []);
    FieldsCons(0x06, oid, Tlv(0x05, []));
    assert [(0x06, oid)] + Fields(Tlv(0x05, [])).value == [(0x06, oid), (0x05, [])];
    FieldsOne(0x04, digest);
    FieldsCons(0x30, Tlv(0x06, oid) + Tlv(0x05, []), Tlv(0x04, digest));
    assert [(0x30, Tlv(0x06, oid) + Tlv(0x05, []))] + Fields(Tlv(0x04, digest)).value
        == [(0x30, Tlv(0x06, oid) + Tlv(0x05, [])), (0x04, digest)];
  }

  lemma {:induction false} SmallArc(part: nat, rest: seq<nat>)
    requires part < 128
    ensures ArcsBytes([part] + rest) == [part] + ArcsBytes(rest)
  {
    ToInt32Small(part);
    assert Shift7(part) == 0;
    assert ArcBytes(part) == [part];
    assert ([part] + rest)[1..] == rest;
  }

  lemma {:induction false} Arc840(rest: seq<nat>)
    ensures ArcsBytes([840] + rest) == [0x86, 0x48] + ArcsBytes(rest)
  {
    assert ([840] + rest)[1..] == rest;
    assert Shift7(840) == 6 && Shift7(6) == 0 && ArcHead(0) == [];
    assert ArcHead(6) == ArcHead(0) + [0x86];
  }

  lemma {:induction false} ArcPair(x: nat, y: nat, rest: seq<nat>)
    requires x < 128 && y < 128
    ensures ArcsBytes([x, y] + rest) == [x, y] + ArcsBytes(rest)
  {
    SmallArc(x, [y] + rest);
    SmallArc(y, rest);
    assert [x] + ([y] + rest) == [x, y] + rest;
    assert [x] + ([y] + ArcsBytes(rest)) == [x, y] + ArcsBytes(rest);
  }

  /** The contents octets of id-sha256. */
  lemma {:induction false} Sha256OidBytes()
    ensures OidContent(2, 16, SHA256_ARCS) == [0x60, 0x86, 0x48, 0x01, 0x65, 0x03, 0x04, 0x02, 0x01]
  {
    Sha256Tail();
    Arc840([1, 101, 3, 4, 2, 1]);
    assert SHA256_ARCS == [840] + [1, 101, 3, 4, 2, 1];
  }

  lemma {:induction false} Sha256Tail()
    ensures ArcsBytes([1, 101, 3, 4, 2, 1]) == [0x01, 0x65, 0x03, 0x04, 0x02, 0x01]
  {
    ArcPair(2, 1, []);
    ArcPair(3, 4, [2, 1]);
    ArcPair(1, 101, [3, 4, 2, 1]);
    assert [2, 1] + [] == [2, 1] && [3, 4] + [2, 1] == [3, 4, 2, 1] && [1, 101] + [3, 4, 2, 1] == [1, 101, 3, 4, 2, 1];
  }

  lemma {:induction false} FieldsPrepend(
    tag: Byte, value: Bytes, rest: Bytes, fields: seq<(Byte, Bytes)>)
    requires |value| < TWO_31 && Fields(rest) == Some(fields)
    ensures Fields(Tlv(tag, value) + rest) == Some([(tag, value)] + fields)
  {
    FieldsCons(tag, value, rest);
  }

  /** The optional policy, as a field list. */
  function PolicyFields(policy: Option<Policy>): seq<(Byte, Bytes)> {
    if policy.None? then [] else [(0x06, OidContent(policy.value.first, policy.value.second, policy.value.rest))]
  }

  /** Policy, nonce and certReq. */
  lemma {:induction false} TailFields(nonce: Bytes, policy: Option<Policy>)
    requires |IntegerContent(nonce)| < TWO_31 && |PolicyField(policy)| < TWO_31
    ensures Fields(PolicyField(policy) + (Tlv(0x02, IntegerContent(nonce)) + Tlv(0x01, [0xFF])))
         == Some(PolicyFields(policy) + [(0x02, IntegerContent(nonce)), (0x01, [0xFF])])
  {
    var tail := Tlv(0x02, IntegerContent(nonce)) + Tlv(0x01, [0xFF]);
    var fields: seq<(Byte, Bytes)> := [(0x02, IntegerContent(nonce)), (0x01, [0xFF])];
    FieldsOne(0x01, [0xFF]);
    FieldsPrepend(0x02, IntegerContent(nonce), Tlv(0x01, [0xFF]), [(0x01, [0xFF])]);
    assert [(0x02, IntegerContent(nonce))] + [(0x01, [0xFF])] == fields;
    if policy.None? {
      assert [] + tail == tail && [] + fields == fields;
    } else {
      FieldsPrepend(0x06, OidContent(policy.value.first, policy.value.second, policy.value.rest), tail, fields);
    }
  }

  /**
   Section 2.4.1 of RFC 3161: version, message imprint, optional policy, nonce and certReq tile
   the body of the outer sequence, in this order and with nothing between or after them.
   */
  lemma {:induction false} RequestFields(
    digest: Bytes, nonce: Bytes, policy: Option<Policy>)
    requires |digest| == 32 && |RequestBody(digest, nonce, policy)| < TWO_31
    ensures TimestampRequest(digest, nonce, policy).Ok?
    ensures Fields(TimestampRequest(digest, nonce, policy).value) == Some([(0x30, RequestBody(digest, nonce, policy))])
    ensures Fields(RequestBody(digest, nonce, policy)) ==
            Some([(0x02, [1])] + ([(0x30, Imprint(digest))] + (PolicyFields(policy) + [(0x02, IntegerContent(nonce)), (0x01, [0xFF])])))
  {
    var tail := PolicyField(policy) + (Tlv(0x02, IntegerContent(nonce)) + Tlv(0x01, [0xFF]));
    var fields := PolicyFields(policy) + [(0x02, IntegerContent(nonce)), (0x01, [0xFF])];
    FieldsOne(0x30, RequestBody(digest, nonce, policy));
    TailFields(nonce, policy);
    FieldsPrepend(0x30, Imprint(digest), tail, fields);
    FieldsPrepend(0x02, [1], Sequence(Imprint(digest)) + tail, [(0x30, Imprint(digest))] + fields);
    RequestSplits(Tlv(0x02, [1]), Sequence(Imprint(digest)), PolicyField(policy), Tlv(0x02, IntegerContent(nonce)), Tlv(0x01, [0xFF]));
  }

  lemma RequestSplits(a: Bytes, b: Bytes, c: Bytes, d: Bytes, e: Bytes)
    ensures a + b + c + d + e == a + (b + (c + (d + e)))
  {
  }

  // ----- Responses -----

  predicate OccursAt(bytes: Bytes, part: Bytes, i: nat) {
    i + |part| <= |bytes| && bytes[i..i + |part|] == part
  }

  predicate Contains(bytes: Bytes, part: Bytes) {
    exists i :: 0 <= i <= |bytes| && OccursAt(bytes, part, i)
  }

  /** One byte string is part of another exactly when something before and after it makes up the rest. */
  lemma {:induction false} ContainsExactly(bytes: Bytes, part: Bytes)
    ensures Contains(bytes, part) <==> exists before: Bytes, after: Bytes :: bytes == before + part + after
  {
    if i :| 0 <= i <= |bytes| && OccursAt(bytes, part, i) {
      assert bytes == bytes[..i] + part + bytes[i + |part|..];
    }
    if before: Bytes, after: Bytes :| bytes == before + part + after {
      assert bytes[|before|..|before| + |part|] == part;
      assert OccursAt(bytes, part, |before|);
    }
  }

  function ReadChecked(buffer: Bytes, offset: nat): (r: Result<Element>)
    ensures r.Ok? ==> offset + 2 <= r.value.start <= r.value.end <= |buffer|
  {
    if HasHeader(buffer, offset) then ReadTlv(buffer, offset) else Err(ShortHeader)
  }

  /** The checks of `parseTimestampResponse`, in its order; a granted status is 0 or 1. */
  function ParseTimestampResponse(response: Bytes, digest: Bytes, nonce: Bytes): (r: Result<Bytes>)
    ensures r.Ok? ==> Contains(r.value, digest) && Contains(r.value, nonce)
  {
    match ReadChecked(response, 0)
    case Err(error) => Err(error)
    case Ok(outer) =>
      if outer.tag != 0x30 then Err(InvalidResponse)
      else
        match ReadChecked(response, outer.start)
        case Err(error) => Err(error)
        case Ok(status) =>
          match ReadChecked(response, status.start)
          case Err(error) => Err(error)
          case Ok(code) =>
            if code.tag != 0x02 || response[code.end - 1] > 1 then Err(Rejected)
            else if status.end >= outer.end then Err(TokenMissing)
            else
              match ReadChecked(response, status.end)
              case Err(error) => Err(error)
              case Ok(element) =>
                var token := response[status.end..element.end];
                if !Contains(token, digest) then Err(HashMissing)
                else if !Contains(token, nonce) then Err(NonceMissing)
                else Ok(token)
  }

  /** A TimeStampResp: status information, then the token and whatever else the sequence holds. */
  function Response(code: Byte, statusRest: Bytes, tail: Bytes): Bytes {
    Sequence(Sequence(Tlv(0x02, [code]) + statusRest) + tail)
  }

  /** An encoded value read in place, as a whole and at its start. */
  lemma {:induction false} ReadInPlace(
    before: Bytes, tag: Byte, value: Bytes, after: Bytes, buffer: Bytes)
    requires |value| < TWO_31 && buffer == before + Tlv(tag, value) + after
    ensures ReadChecked(buffer, |before|).Ok?
    ensures var e := ReadChecked(buffer, |before|).value;
            && e.tag == tag && e.end == |before| + |Tlv(tag, value)| == e.start + |value|
            && buffer[|before|..e.end] == Tlv(tag, value)
            && buffer[..e.start] + value + after == buffer
  {
    TlvHeader(before, tag, value, after);
    var e := ReadChecked(buffer, |before|).value;
    assert buffer[..e.start] + value + after == buffer by {
      assert buffer[e.end..] == after;
    }
  }

  /** The code, the first value of the status information. */
  lemma {:induction false} LocateCode(
    before: Bytes, code: Byte, statusRest: Bytes, tail: Bytes, buffer: Bytes)
    requires buffer == before + (Tlv(0x02, [code]) + statusRest) + tail
    ensures ReadChecked(buffer, |before|).Ok?
    ensures var number := ReadChecked(buffer, |before|).value; number.tag == 0x02 && buffer[number.end - 1] == code
  {
    assert buffer == before + Tlv(0x02, [code]) + (statusRest + tail);
    ReadInPlace(before, 0x02, [code], statusRest + tail, buffer);
    var number := ReadChecked(buffer, |before|).value;
    assert (buffer[..number.start] + [code] + (statusRest + tail))[number.start] == code;
  }

  /** The status information and its code, behind the header of the response. */
  lemma {:induction false} LocateInner(
    head: Bytes, code: Byte, statusRest: Bytes, tail: Bytes, buffer: Bytes)
    returns (status: Element, number: Element)
    requires |Sequence(Tlv(0x02, [code]) + statusRest)| < TWO_31
    requires buffer == head + (Sequence(Tlv(0x02, [code]) + statusRest) + tail)
    ensures ReadChecked(buffer, |head|) == Ok(status)
    ensures status.end + |tail| == |buffer| && buffer[status.end..] == tail
    ensures ReadChecked(buffer, status.start) == Ok(number) && number.tag == 0x02 && buffer[number.end - 1] == code
  {
    var content := Tlv(0x02, [code]) + statusRest;
    assert buffer == head + Tlv(0x30, content) + tail;
    ReadInPlace(head, 0x30, content, tail, buffer);
    status := ReadChecked(buffer, |head|).value;
    assert buffer[status.end..] == tail;
    LocateCode(buffer[..status.start], code, statusRest, tail, buffer);
    number := ReadChecked(buffer, status.start).value;
  }

  /** A sequence that fills the buffer starts behind its header. */
  lemma {:induction false} LocateOuter(
    content: Bytes, buffer: Bytes)
    returns (outer: Element)
    requires buffer == Sequence(content) && |content| < TWO_31
    ensures ReadChecked(buffer, 0) == Ok(outer) && outer.tag == 0x30 && outer.end == |buffer|
    ensures buffer == buffer[..outer.start] + content
  {
    assert buffer == [] + Tlv(0x30, content) + [];
    ReadInPlace([], 0x30, content, [], buffer);
    outer := ReadChecked(buffer, 0).value;
    assert buffer[..outer.start] + content + [] == buffer[..outer.start] + content;
  }

  /** What the parser answers once its four reads succeed on a sequence with an integer status. */
  lemma {:induction false} ParseLocated(
    response: Bytes, digest: Bytes, nonce: Bytes, outer: Element, status: Element, code: Element, token: Element)
    requires ReadChecked(response, 0) == Ok(outer) && outer.tag == 0x30
    requires ReadChecked(response, outer.start) == Ok(status) && status.end < outer.end
    requires ReadChecked(response, status.start) == Ok(code) && code.tag == 0x02
    requires ReadChecked(response, status.end) == Ok(token)
    ensures var bytes := response[status.end..token.end];
            ParseTimestampResponse(response, digest, nonce)
            == if response[code.end - 1] > 1 then Err(Rejected)
               else if !Contains(bytes, digest) then Err(HashMissing)
               else if !Contains(bytes, nonce) then Err(NonceMissing)
               else Ok(bytes)
  {
  }

  /**
   Section 2.4.2 of RFC 3161: from a granted response, the parser returns exactly the bytes of
   its token, provided they contain the requested hash and the nonce; any other status is refused.
   */
  lemma {:induction false} GrantedResponseYieldsToken(
    code: Byte, statusRest: Bytes, tag: Byte, value: Bytes, rest: Bytes, digest: Bytes, nonce: Bytes)
    requires |Sequence(Tlv(0x02, [code]) + statusRest) + (Tlv(tag, value) + rest)| < TWO_31
    ensures var token := Tlv(tag, value);
            var r := ParseTimestampResponse(Response(code, statusRest, token + rest), digest, nonce);
            && (code > 1 ==> r == Err(Rejected))
            && (code <= 1 ==>
                  r == if !Contains(token, digest) then Err(HashMissing)
                       else if !Contains(token, nonce) then Err(NonceMissing)
                       else Ok(token))
  {
    var token := Tlv(tag, value);
    var buffer := Response(code, statusRest, token + rest);
    var status := Tlv(0x02, [code]) + statusRest;
    var outer := LocateOuter(Sequence(status) + (token + rest), buffer);
    var inner, number := LocateInner(buffer[..outer.start], code, statusRest, token + rest, buffer);
    LocateToken(buffer, inner.end, tag, value, rest);
    ParseLocated(buffer, digest, nonce, outer, inner, number, ReadChecked(buffer, inner.end).value);
  }

  lemma {:induction false} LocateToken(
    buffer: Bytes, from: nat, tag: Byte, value: Bytes, rest: Bytes)
    requires |value| < TWO_31 && from <= |buffer| && buffer[from..] == Tlv(tag, value) + rest
    ensures from < |buffer| && ReadChecked(buffer, from).Ok?
    ensures buffer[from..ReadChecked(buffer, from).value.end] == Tlv(tag, value)
  {
    assert buffer == buffer[..from] + Tlv(tag, value) + rest;
    ReadInPlace(buffer[..from], tag, value, rest, buffer);
  }

  lemma {:induction false} ParseWithoutToken(
    response: Bytes, digest: Bytes, nonce: Bytes, outer: Element, status: Element, code: Element)
    requires ReadChecked(response, 0) == Ok(outer) && outer.tag == 0x30
    requires ReadChecked(response, outer.start) == Ok(status) && status.end >= outer.end
    requires ReadChecked(response, status.start) == Ok(code) && code.tag == 0x02
    ensures ParseTimestampResponse(response, digest, nonce)
         == if response[code.end - 1] > 1 then Err(Rejected) else Err(TokenMissing)
  {
  }

  /** A granted response that ends with its status information has no token. */
  lemma {:induction false} NoTokenIsMissing(code: Byte, statusRest: Bytes, digest: Bytes, nonce: Bytes)
    requires |Sequence(Tlv(0x02, [code]) + statusRest)| < TWO_31
    ensures ParseTimestampResponse(Response(code, statusRest, []), digest, nonce)
         == if code > 1 then Err(Rejected) else Err(TokenMissing)
  {
    var status := Sequence(Tlv(0x02, [code]) + statusRest);
    var buffer := Response(code, statusRest, []);
    assert status + [] == status;
    var outer := LocateOuter(status, buffer);
    assert buffer == buffer[..outer.start] + (status + []);
    var inner, number := LocateInner(buffer[..outer.start], code, statusRest, [], buffer);
    ParseWithoutToken(buffer, digest, nonce, outer, inner, number);
  }

  /** Anything but a sequence is no response. */
  lemma {:induction false} OnlySequences(tag: Byte, value: Bytes, digest: Bytes, nonce: Bytes)
    requires tag != 0x30 && |value| < TWO_31
    ensures ParseTimestampResponse(Tlv(tag, value), digest, nonce) == Err(InvalidResponse)
  {
    assert Tlv(tag, value) == [] + Tlv(tag, value) + [];
    ReadInPlace([], tag, value, [], Tlv(tag, value));
  }

  /** A response whose last value is cut short is refused for that. */
  lemma {:induction false} CutShortIsTruncated(tag: Byte, value: Bytes, kept: nat, digest: Bytes, nonce: Bytes)
    requires |value| < TWO_31 && kept < |value|
    ensures ParseTimestampResponse([tag] + LengthOf(|value|) + value[..kept], digest, nonce) == Err(Truncated)
  {
    var buffer := [tag] + LengthOf(|value|) + value[..kept];
    LengthAnnounces(|value|);
    PartsOf([], tag, LengthOf(|value|), value[..kept], []);
    assert [] + ([tag] + LengthOf(|value|) + value[..kept]) + [] == buffer;
    HeaderReads(buffer, 0, LengthOf(|value|));
  }
}
