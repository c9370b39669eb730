/**
 Base32 secrets and time-based one-time codes (`auth.service.ts`). HMAC-SHA-1 is an opaque
 function to 20 bytes, and the clock readings of a verification are parameters.
 */
module OneTimeCodes {
  import opened Wrappers
  import opened Powers
  import opened Utf16
  import opened Der

  type Bit = b: int | 0 <= b < 2

  type Bits = seq<Bit>

  /** `n.toString(2).padStart(width, "0")`, for n below 2^width. */
  function BitsOf(n: nat, width: nat): (r: Bits)
    ensures |r| == width
  {
    if width == 0 then [] else BitsOf(n / 2, width - 1) + [n % 2]
  }

  /** `Number.parseInt(bits, 2)`. */
  function NumberOf(bits: Bits): nat {
    if bits == [] then 0 else NumberOf(bits[..|bits| - 1]) * 2 + bits[|bits| - 1]
  }

  lemma {:induction false} NumberOfBits(n: nat, width: nat)
    requires n < Power(2, width)
    ensures NumberOf(BitsOf(n, width)) == n
  {
    if width > 0 {
      NumberOfBits(n / 2, width - 1);
      assert BitsOf(n, width)[..width - 1] == BitsOf(n / 2, width - 1);
    }
  }

  lemma {:induction false} BitsOfNumber(bits: Bits)
    ensures NumberOf(bits) < Power(2, |bits|) && BitsOf(NumberOf(bits), |bits|) == bits
  {
    if bits != [] {
      BitsOfNumber(bits[..|bits| - 1]);
    }
  }

  // ----- Base32 (RFC 4648, section 6) -----

  /** A letter A-Z or a digit 2-7. */
  function Letter(index: nat): CodeUnit
    requires index < 32
  {
    if index < 26 then 65 + index else 24 + index
  }

  function LetterIndex(c: CodeUnit): Option<nat> {
    if 65 <= c <= 90 then Some(c - 65) else if 50 <= c <= 55 then Some(c - 24) else None
  }

  function BytesBits(bytes: Bytes): Bits {
    if bytes == [] then [] else BitsOf(bytes[0], 8) + BytesBits(bytes[1..])
  }

  function Zeros(n: nat): (r: Bits)
    ensures |r| == n
  {
    if n == 0 then [] else [0] + Zeros(n - 1)
  }

  lemma {:induction false} PowersOfTwo()
    ensures Power(2, 5) == 32 && Power(2, 8) == 256
  {
  }

  function GroupLetter(group: Bits): CodeUnit
    requires |group| == 5
  {
    BitsOfNumber(group);
    PowersOfTwo();
    Letter(NumberOf(group))
  }

  /** Groups of five bits, the last one padded with zeros at its end. */
  function GroupLetters(bits: Bits): Text {
    if bits == [] then []
    else if |bits| < 5 then [GroupLetter(bits + Zeros(5 - |bits|))]
    else [GroupLetter(bits[..5])] + GroupLetters(bits[5..])
  }

  function EncodeBase32(bytes: Bytes): Text {
    GroupLetters(BytesBits(bytes))
  }

  const PADDING: CodeUnit := 61

  function StripPadding(text: Text): Text {
    if text != [] && text[|text| - 1] == PADDING then StripPadding(text[..|text| - 1]) else text
  }

  /** `toUpperCase` on ASCII letters. */
  function Upper(c: CodeUnit): CodeUnit {
    if 97 <= c <= 122 then c - 32 else c
  }

  /** The bits of all characters, or None when one is not in the alphabet. */
  function LettersBits(text: Text): Option<Bits> {
    if text == [] then Some([])
    else
      var front := LettersBits(text[..|text| - 1]);
      var index := LetterIndex(Upper(text[|text| - 1]));
      if front.None? || index.None? then None else Some(front.value + BitsOf(index.value, 5))
  }

  /** Groups of exactly eight bits; a shorter remainder is dropped. */
  function GroupBytes(bits: Bits): Bytes {
    if |bits| < 8 then []
    else
      BitsOfNumber(bits[..8]);
      PowersOfTwo();
      [NumberOf(bits[..8])] + GroupBytes(bits[8..])
  }

  function DecodeBase32(text: Text): Option<Bytes> {
    var bits := LettersBits(StripPadding(text));
    if bits.None? then None else Some(GroupBytes(bits.value))
  }

  /** The loop over the characters; an unknown character throws. */
  method DecodeLoop(text: Text) returns (bytes: Option<Bytes>)
    ensures bytes == DecodeBase32(text)
  {
    var characters := StripPadding(text);
    var bits: Bits := [];
    for i := 0 to |characters|
      invariant LettersBits(characters[..i]) == Some(bits)
    {
      assert characters[..i + 1][..i] == characters[..i];
      var index := LetterIndex(Upper(characters[i]));
      if index.None? {
        UnknownLetter(characters, i);
        return None;
      }
      bits := bits + BitsOf(index.value, 5);
    }
    assert characters[..|characters|] == characters;
    return Some(GroupBytes(bits));
  }

  lemma {:induction false} UnknownLetter(text: Text, i: nat)
    requires i < |text| && LetterIndex(Upper(text[i])).None?
    ensures LettersBits(text).None?
  {
    if i < |text| - 1 {
      UnknownLetter(text[..|text| - 1], i);
    }
  }

  /** Decoding fails exactly on a character other than a letter, a digit 2 to 7 or padding at the end. */
  lemma {:induction false} DecodeFailsExactly(text: Text, padding: Text)
    requires forall i :: 0 <= i < |padding| ==> padding[i] == PADDING
    requires text == [] || text[|text| - 1] != PADDING
    ensures DecodeBase32(text + padding).None? <==>
            exists i :: 0 <= i < |text| && !(65 <= text[i] <= 90) && !(97 <= text[i] <= 122) && !(50 <= text[i] <= 55)
  {
    PaddingStripped(text, padding);
    if forall i :: 0 <= i < |text| ==> LetterIndex(Upper(text[i])).Some? {
      KnownLetters(text);
    }
    if i :| 0 <= i < |text| && LetterIndex(Upper(text[i])).None? {
      UnknownLetter(text, i);
    }
  }

  lemma {:induction false} KnownLetters(text: Text)
    requires forall i :: 0 <= i < |text| ==> LetterIndex(Upper(text[i])).Some?
    ensures LettersBits(text).Some?
  {
    if text != [] {
      KnownLetters(text[..|text| - 1]);
    }
  }

  lemma {:induction false} LettersConcat(a: Text, b: Text)
    requires LettersBits(a).Some? && LettersBits(b).Some?
    ensures LettersBits(a + b) == Some(LettersBits(a).value + LettersBits(b).value)
    decreases |b|
  {
    if b == [] {
      assert a + b == a && LettersBits(a).value + [] == LettersBits(a).value;
    } else {
      var front, last := b[..|b| - 1], b[|b| - 1];
      assert (a + b)[..|a + b| - 1] == a + front && (a + b)[|a + b| - 1] == last;
      LettersConcat(a, front);
      BitsAssociate(LettersBits(a).value, LettersBits(front).value, BitsOf(LetterIndex(Upper(last)).value, 5));
    }
  }

  /** The text reads like the letters, up to case. */
  ghost predicate SameLetters(text: Text, letters: Text) {
    |text| == |letters| && forall i :: 0 <= i < |text| ==> Upper(text[i]) == Upper(letters[i])
  }

  lemma {:induction false} CaseIgnored(text: Text, letters: Text)
    requires SameLetters(text, letters)
    ensures LettersBits(text) == LettersBits(letters)
  {
    if text != [] {
      CaseIgnored(text[..|text| - 1], letters[..|letters| - 1]);
    }
  }

  lemma {:induction false} LetterReadsBack(group: Bits)
    requires |group| == 5
    ensures GroupLetter(group) != PADDING && LetterIndex(GroupLetter(group)).Some?
    ensures LettersBits([GroupLetter(group)]) == Some(group)
  {
    BitsOfNumber(group);
    PowersOfTwo();
    var letter := GroupLetter(group);
    assert LetterIndex(Upper(letter)) == Some(NumberOf(group));
    assert [letter][..0] == [] && [] + group == group;
  }

  /** The letters of a bit string read back as the bits, followed by fewer than five zeros. */
  lemma {:induction false} GroupsReadBack(bits: Bits) returns (pad: nat)
    ensures pad < 5 && LettersBits(GroupLetters(bits)) == Some(bits + Zeros(pad))
    decreases |bits|
  {
    if bits == [] {
      pad := 0;
      assert bits + Zeros(pad) == [];
    } else if |bits| < 5 {
      pad := 5 - |bits|;
      LetterReadsBack(bits + Zeros(pad));
    } else {
      pad := GroupsReadBack(bits[5..]);
      FirstGroup(bits[..5], bits[5..], pad);
      assert bits == bits[..5] + bits[5..];
    }
  }

  lemma {:induction false} BitsAssociate(x: Bits, y: Bits, z: Bits)
    ensures x + (y + z) == (x + y) + z
  {
  }

  lemma {:induction false} FirstGroup(group: Bits, rest: Bits, pad: nat)
    requires |group| == 5 && LettersBits(GroupLetters(rest)) == Some(rest + Zeros(pad))
    ensures LettersBits(GroupLetters(group + rest)) == Some((group + rest) + Zeros(pad))
  {
    GroupLettersCons(group, rest);
    LetterReadsBack(group);
    LettersConcat([GroupLetter(group)], GroupLetters(rest));
    BitsAssociate(group, rest, Zeros(pad));
  }

  lemma GroupLettersCons(group: Bits, rest: Bits)
    requires |group| == 5
    ensures GroupLetters(group + rest) == [GroupLetter(group)] + GroupLetters(rest)
  {
    assert (group + rest)[..5] == group && (group + rest)[5..] == rest;
  }

  lemma {:induction false} BytesReadBack(bytes: Bytes, pad: Bits)
    requires |pad| < 8
    ensures GroupBytes(BytesBits(bytes) + pad) == bytes
  {
    if bytes == [] {
      assert BytesBits(bytes) + pad == pad;
    } else {
      var bits, first := BytesBits(bytes) + pad, BitsOf(bytes[0], 8);
      assert bits[..8] == first && bits[8..] == BytesBits(bytes[1..]) + pad;
      PowersOfTwo();
      NumberOfBits(bytes[0], 8);
      BytesReadBack(bytes[1..], pad);
    }
  }

  lemma {:induction false} PaddingStripped(text: Text, padding: Text)
    requires forall i :: 0 <= i < |padding| ==> padding[i] == PADDING
    requires text == [] || text[|text| - 1] != PADDING
    ensures StripPadding(text + padding) == text
    decreases |padding|
  {
    if padding == [] {
      assert text + padding == text;
    } else {
      var front := padding[..|padding| - 1];
      assert (text + padding)[|text + padding| - 1] == padding[|padding| - 1];
      assert (text + padding)[..|text + padding| - 1] == text + front;
      PaddingStripped(text, front);
    }
  }

  /** Decoding undoes encoding, for every byte string, any letter case and any trailing padding. */
  lemma {:induction false} Base32RoundTrip(bytes: Bytes, text: Text, padding: Text)
    requires SameLetters(text, EncodeBase32(bytes)) && forall i :: 0 <= i < |padding| ==> padding[i] == PADDING
    ensures DecodeBase32(text + padding) == Some(bytes)
  {
    var letters := EncodeBase32(bytes);
    if text != [] {
      LettersOnly(BytesBits(bytes), |letters| - 1);
    }
    PaddingStripped(text, padding);
    CaseIgnored(text, letters);
    var pad := GroupsReadBack(BytesBits(bytes));
    BytesReadBack(bytes, Zeros(pad));
  }

  lemma {:induction false} LettersOnly(bits: Bits, i: nat)
    requires i < |GroupLetters(bits)|
    ensures LetterIndex(GroupLetters(bits)[i]).Some?
    decreases |bits|
  {
    LetterReadsBack(if |bits| < 5 then bits + Zeros(5 - |bits|) else bits[..5]);
    if i > 0 {
      LettersOnly(bits[5..], i - 1);
    }
  }

  // ----- What the letters denote -----

  const ALPHABET := "ABCDEFGHIJKLMNOPQRSTUVWXYZ234567"

  /** Table 3 of RFC 4648. */
  lemma {:induction false} LettersOfTable(n: nat)
    requires n < 32
    ensures Letter(n) as char == ALPHABET[n] && LetterIndex(ALPHABET[n] as int) == Some(n)
  {
    assert forall i :: 0 <= i < 26 ==> ALPHABET[i] as int == 65 + i;
    assert forall i :: 26 <= i < 32 ==> ALPHABET[i] as int == 24 + i;
  }

  /** The number a string of letters denotes, read as digits in base 32. */
  function Number32(letters: Text): nat {
    if letters == [] then 0
    else
      var last := LetterIndex(letters[|letters| - 1]);
      Number32(letters[..|letters| - 1]) * 32 + if last.Some? then last.value else 0
  }

  lemma {:induction false} NumberOfConcat(x: Bits, y: Bits)
    ensures NumberOf(x + y) == NumberOf(x) * Power(2, |y|) + NumberOf(y)
    decreases |y|
  {
    if y == [] {
      assert x + y == x;
    } else {
      var front, last := y[..|y| - 1], y[|y| - 1];
      assert (x + y)[..|x + y| - 1] == x + front && (x + y)[|x + y| - 1] == last;
      NumberOfConcat(x, front);
      assert Power(2, |y|) == 2 * Power(2, |front|);
      Scale(NumberOf(x), Power(2, |front|));
    }
  }

  lemma Scale(n: nat, p: nat)
    ensures 2 * (n * p) == n * (2 * p)
  {
  }

  lemma {:induction false} LettersDenote(letters: Text)
    requires forall i :: 0 <= i < |letters| ==> LetterIndex(letters[i]).Some?
    ensures LettersBits(letters).Some? && |LettersBits(letters).value| == 5 * |letters|
    ensures NumberOf(LettersBits(letters).value) == Number32(letters)
  {
    if letters != [] {
      var front, last := letters[..|letters| - 1], letters[|letters| - 1];
      LettersDenote(front);
      var index := LetterIndex(last).value;
      assert Upper(last) == last;
      PowersOfTwo();
      NumberOfBits(index, 5);
      NumberOfConcat(LettersBits(front).value, BitsOf(index, 5));
    }
  }

  lemma {:induction false} BytesDenote(bytes: Bytes)
    ensures |BytesBits(bytes)| == 8 * |bytes| && NumberOf(BytesBits(bytes)) == Value(bytes)
  {
    if bytes != [] {
      var front, last := bytes[..|bytes| - 1], bytes[|bytes| - 1];
      assert bytes == front + [last];
      BytesDenote(front);
      BytesBitsConcat(front, last);
      PowersOfTwo();
      NumberOfBits(last, 8);
      NumberOfConcat(BytesBits(front), BitsOf(last, 8));
    }
  }

  lemma {:induction false} BytesBitsConcat(front: Bytes, last: Byte)
    ensures BytesBits(front + [last]) == BytesBits(front) + BitsOf(last, 8)
  {
    if front == [] {
      assert front + [last] == [last] && BytesBits([]) == [] && [last][1..] == [];
    } else {
      assert (front + [last])[1..] == front[1..] + [last];
      BytesBitsConcat(front[1..], last);
      BitsAssociate(BitsOf(front[0], 8), BytesBits(front[1..]), BitsOf(last, 8));
    }
  }

  lemma {:induction false} ZerosDenote(n: nat)
    ensures NumberOf(Zeros(n)) == 0
  {
    if n > 0 {
      ZerosDenote(n - 1);
      NumberOfConcat([0], Zeros(n - 1));
      assert [0][..0] == [];
    }
  }

  /**
   Section 6 of RFC 4648: as digits in base 32 the letters denote the bytes as digits in base 256,
   moved up by the fewer than five bits that fill the last letter.
   */
  lemma {:induction false} EncodedDenotes(bytes: Bytes) returns (pad: nat)
    ensures pad < 5 && 5 * |EncodeBase32(bytes)| == 8 * |bytes| + pad
    ensures Number32(EncodeBase32(bytes)) == Value(bytes) * Power(2, pad)
  {
    var bits, letters := BytesBits(bytes), EncodeBase32(bytes);
    pad := GroupsReadBack(bits);
    forall i | 0 <= i < |letters|
      ensures LetterIndex(letters[i]).Some?
    {
      LettersOnly(bits, i);
    }
    LettersDenote(letters);
    BytesDenote(bytes);
    ZerosDenote(pad);
    NumberOfConcat(bits, Zeros(pad));
  }

  // ----- One-time codes (RFC 6238, RFC 4226) -----

  const STEP := 30_000

  /** The eight bytes of the counter, most significant first. */
  function CounterBytes(counter: nat, count: nat): (r: Bytes)
    ensures |r| == count
  {
    if count == 0 then [] else CounterBytes(counter / 256, count - 1) + [counter % 256]
  }

  lemma {:induction false} CounterBytesValue(counter: nat, count: nat)
    requires counter < Power(256, count)
    ensures Value(CounterBytes(counter, count)) == counter
  {
    if count > 0 {
      CounterBytesValue(counter / 256, count - 1);
      ValueSnoc(CounterBytes(counter / 256, count - 1), counter % 256);
    }
  }

  /** Distinct time steps are authenticated as distinct messages. */
  lemma {:induction false} CounterBytesInjective(counter: nat, other: nat)
    requires counter < Power(256, 8) && other < Power(256, 8)
    ensures CounterBytes(counter, 8) == CounterBytes(other, 8) ==> counter == other
  {
    CounterBytesValue(counter, 8);
    CounterBytesValue(other, 8);
  }

  /** Section 5.3 of RFC 4226: four bytes at the offset in the last nibble, without the sign bit. */
  function Truncated(digest: Bytes): (code: nat)
    requires |digest| == 20
    ensures code < 1_000_000
  {
    var offset := digest[19] % 16;
    (Value(digest[offset..offset + 4]) % 0x8000_0000) % 1_000_000
  }

  function Decimal(n: nat, width: nat): (r: Text)
    ensures |r| == width && forall i :: 0 <= i < width ==> 48 <= r[i] <= 57
  {
    if width == 0 then [] else Decimal(n / 10, width - 1) + [48 + n % 10]
  }

  /** The number a string of decimal digits denotes. */
  function NumberIn(digits: Text): int {
    if digits == [] then 0 else NumberIn(digits[..|digits| - 1]) * 10 + digits[|digits| - 1] - 48
  }

  /** Six digits with leading zeros denote the truncated number itself. */
  lemma {:induction false} DecimalDenotes(n: nat, width: nat)
    requires n < Power(10, width)
    ensures NumberIn(Decimal(n, width)) == n
  {
    if width > 0 {
      DecimalDenotes(n / 10, width - 1);
      assert Decimal(n, width)[..width - 1] == Decimal(n / 10, width - 1);
    }
  }

  /** The code of a time step. */
  function CodeOf(hmac: (Bytes, Bytes) -> Bytes, key: Bytes, step: nat): (code: Text)
    requires forall k, m :: |hmac(k, m)| == 20
    ensures IsSixDigits(code)
  {
    Decimal(Truncated(hmac(key, CounterBytes(step, 8))), 6)
  }

  /**
   Section 5.3 of RFC 4226: whatever the digest, its last byte tells how many bytes to skip, and
   the four bytes after those, without their sign bit, are the number the code shows.
   */
  lemma {:induction false} CodeShowsFourBytes(
    hmac: (Bytes, Bytes) -> Bytes, key: Bytes, step: nat, skipped: Bytes, four: Bytes, rest: Bytes)
    requires forall k, m :: |hmac(k, m)| == 20
    requires hmac(key, CounterBytes(step, 8)) == skipped + four + rest && |four| == 4
    requires |skipped| < 16 && rest != [] && rest[|rest| - 1] % 16 == |skipped|
    ensures NumberIn(CodeOf(hmac, key, step)) == Value(four) % 0x8000_0000 % 1_000_000
  {
    var digest := hmac(key, CounterBytes(step, 8));
    assert digest[19] == rest[|rest| - 1];
    assert digest[|skipped|..|skipped| + 4] == four;
    PowersOfTen();
    DecimalDenotes(Truncated(digest), 6);
  }

  lemma {:induction false} PowersOfTen()
    ensures Power(10, 6) == 1_000_000
  {
    assert Power(10, 1) == 10 && Power(10, 2) == 100 && Power(10, 3) == 1000;
  }

  /** Every digest falls into these parts. */
  lemma {:induction false} DigestParts(digest: Bytes) returns (skipped: Bytes, four: Bytes, rest: Bytes)
    requires |digest| == 20
    ensures digest == skipped + four + rest && |four| == 4
    ensures |skipped| < 16 && rest != [] && rest[|rest| - 1] % 16 == |skipped|
  {
    var n := digest[19] % 16;
    skipped, four, rest := digest[..n], digest[n..n + 4], digest[n + 4..];
  }

  predicate IsSixDigits(code: Text) {
    |code| == 6 && forall i :: 0 <= i < 6 ==> 48 <= code[i] <= 57
  }

  datatype Verdict = Accepted | Refused | BadSecret

  /** The three readings of the clock, one for each offset; the later ones only happen when needed. */
  method VerifyTotp(
    hmac: (Bytes, Bytes) -> Bytes, secret: Text, code: Text, times: (nat, nat, nat))
    returns (verdict: Verdict)
    requires forall k, m :: |hmac(k, m)| == 20
    requires times.0 >= STEP
    ensures !IsSixDigits(code) ==> verdict == Refused
    ensures IsSixDigits(code) && DecodeBase32(secret).None? ==> verdict == BadSecret
    ensures IsSixDigits(code) && DecodeBase32(secret).Some? ==>
              var key := DecodeBase32(secret).value;
              verdict == if Accepts(hmac, key, code, times) then Accepted else Refused
  {
    if !IsSixDigits(code) {
      return Refused;
    }
    var key := DecodeLoop(secret);
    if key.None? {
      return BadSecret;
    }
    var matches := MatchesSomeStep(hmac, key.value, code, times);
    return if matches then Accepted else Refused;
  }

  /** The `some` over the three offsets. */
  method MatchesSomeStep(hmac: (Bytes, Bytes) -> Bytes, key: Bytes, code: Text, times: (nat, nat, nat)) returns (matches: bool)
    requires (forall k, m :: |hmac(k, m)| == 20) && times.0 >= STEP
    ensures matches <==> Accepts(hmac, key, code, times)
  {
    StepsApart(times.0, times.2);
    var before, now, after := (times.0 - STEP) / STEP, times.1 / STEP, (times.2 + STEP) / STEP;
    matches := code == CodeOf(hmac, key, before) || code == CodeOf(hmac, key, now) || code == CodeOf(hmac, key, after);
  }

  lemma StepsApart(t: nat, u: nat)
    requires t >= STEP
    ensures (t - STEP) / STEP == t / STEP - 1 && (u + STEP) / STEP == u / STEP + 1
  {
  }

  /** The codes a verification accepts. */
  ghost predicate Accepts(hmac: (Bytes, Bytes) -> Bytes, key: Bytes, code: Text, times: (nat, nat, nat))
    requires (forall k, m :: |hmac(k, m)| == 20) && times.0 >= STEP
  {
    || code == CodeOf(hmac, key, times.0 / STEP - 1)
    || code == CodeOf(hmac, key, times.1 / STEP)
    || code == CodeOf(hmac, key, times.2 / STEP + 1)
  }

  /**
   Section 4.2 of RFC 6238: while the three readings fall in one step T, exactly the codes of
   T-1, T and T+1 pass. When the clock enters the next step between two readings, one code of
   the window is missed: it passes only if one of the steps that are looked at shares it.
   */
  lemma {:induction false} TotpWindow(
    hmac: (Bytes, Bytes) -> Bytes, key: Bytes, code: Text, times: (nat, nat, nat), step: nat)
    requires forall k, m :: |hmac(k, m)| == 20
    requires 30_000 <= times.0 <= times.1 <= times.2 && times.0 / 30_000 == step
    ensures times.2 / 30_000 == step ==>
              (Accepts(hmac, key, code, times) <==>
               code == CodeOf(hmac, key, step - 1) || code == CodeOf(hmac, key, step) || code == CodeOf(hmac, key, step + 1))
    ensures times.1 / 30_000 == step + 1 && times.2 / 30_000 == step + 1 ==>
              (Accepts(hmac, key, CodeOf(hmac, key, step), times) <==>
               CodeOf(hmac, key, step) in {CodeOf(hmac, key, step - 1), CodeOf(hmac, key, step + 1), CodeOf(hmac, key, step + 2)})
    ensures times.1 / 30_000 == step && times.2 / 30_000 == step + 1 ==>
              (Accepts(hmac, key, CodeOf(hmac, key, step + 1), times) <==>
               CodeOf(hmac, key, step + 1) in {CodeOf(hmac, key, step - 1), CodeOf(hmac, key, step), CodeOf(hmac, key, step + 2)})
  {
    assert times.2 / 30_000 == step ==> times.1 / 30_000 == step;
  }
}
