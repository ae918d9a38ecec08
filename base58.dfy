/** Base58 encoding of byte strings (api.cpp:9-46), the text form of Bitcoin legacy
    addresses. Leading zero bytes become leading '1' characters; the remaining bytes, read as
    one big-endian number, are written in base 58 with the alphabet below. */
module Base58 {
  import opened Positional

  type Byte = b: nat | b < 256

  /** The 58 characters of `pszBase58` (api.cpp:9), written as its six runs: the digits and
      letters without '0', 'I', 'O' and 'l'. */
  const Alphabet: string := "123456789" + "ABCDEFGH" + "JKLMN" + "PQRSTUVWXYZ" + "abcdefghijk" + "mnopqrstuvwxyz"

  /** The position of `c` in `Alphabet` (0 for a character outside it). */
  function DigitOf(c: char): nat {
    if '1' <= c <= '9' then c as int - '1' as int
    else if 'A' <= c <= 'H' then c as int - 'A' as int + 9
    else if 'J' <= c <= 'N' then c as int - 'J' as int + 17
    else if 'P' <= c <= 'Z' then c as int - 'P' as int + 22
    else if 'a' <= c <= 'k' then c as int - 'a' as int + 33
    else if 'm' <= c <= 'z' then c as int - 'm' as int + 44
    else 0
  }

  /** Each run of the alphabet is a block of consecutive characters that `DigitOf` maps to
      consecutive digits. */
  lemma RunsIndexed()
    ensures forall d | 0 <= d < 9 :: DigitOf("123456789"[d]) == d + 0
    ensures forall d | 0 <= d < 8 :: DigitOf("ABCDEFGH"[d]) == d + 9
    ensures forall d | 0 <= d < 5 :: DigitOf("JKLMN"[d]) == d + 17
    ensures forall d | 0 <= d < 11 :: DigitOf("PQRSTUVWXYZ"[d]) == d + 22
    ensures forall d | 0 <= d < 11 :: DigitOf("abcdefghijk"[d]) == d + 33
    ensures forall d | 0 <= d < 14 :: DigitOf("mnopqrstuvwxyz"[d]) == d + 44
  {
  }

  /** The alphabet has 58 distinct characters and `DigitOf` inverts indexing into it. */
  lemma AlphabetIndexed()
    ensures |Alphabet| == 58
    ensures forall d | 0 <= d < 58 :: DigitOf(Alphabet[d]) == d
  {
    RunsIndexed();
    forall d | 0 <= d < 58
      ensures DigitOf(Alphabet[d]) == d
    {
      if d < 9 { assert Alphabet[d] == "123456789"[d]; }
      else if d < 17 { assert Alphabet[d] == "ABCDEFGH"[d - 9]; }
      else if d < 22 { assert Alphabet[d] == "JKLMN"[d - 17]; }
      else if d < 33 { assert Alphabet[d] == "PQRSTUVWXYZ"[d - 22]; }
      else if d < 44 { assert Alphabet[d] == "abcdefghijk"[d - 33]; }
      else { assert Alphabet[d] == "mnopqrstuvwxyz"[d - 44]; }
    }
  }

  predicate IsBase58(str: string) {
    forall k | 0 <= k < |str| :: str[k] in Alphabet
  }

  // ---------------------------------------------------------------- the encoding

  /** The number of leading zero bytes (`zeroes`, api.cpp:15-18). */
  function LeadingZeros(s: seq<nat>): (z: nat)
    ensures z <= |s|
    ensures forall k | 0 <= k < z :: s[k] == 0
    ensures z == |s| || s[z] != 0
    decreases |s|
  {
    if s == [] || s[0] != 0 then 0 else 1 + LeadingZeros(s[1..])
  }

  /** The number of leading '1' characters. */
  function LeadingOnes(str: string): (n: nat)
    ensures n <= |str|
    ensures forall k | 0 <= k < n :: str[k] == '1'
    ensures n == |str| || str[n] != '1'
    decreases |str|
  {
    if str == [] || str[0] != '1' then 0 else 1 + LeadingOnes(str[1..])
  }

  function Ones(n: nat): string {
    seq(n, _ => '1')
  }

  /** The characters of base-58 digits. */
  function Chars(ds: seq<nat>): string
    requires forall k | 0 <= k < |ds| :: ds[k] < 58
  {
    AlphabetIndexed();
    seq(|ds|, k requires 0 <= k < |ds| => Alphabet[ds[k]])
  }

  /** What `encodeBase58` returns for the bytes `s`. */
  function Encode(s: seq<Byte>): string {
    var z := LeadingZeros(s);
    Ones(z) + Chars(ToDigits(Value(s[z..], 256), 58))
  }

  // ---------------------------------------------------------------- a reference decoder

  function DigitsOf(str: string): seq<nat> {
    seq(|str|, k requires 0 <= k < |str| => DigitOf(str[k]))
  }

  /** The bytes a base-58 string stands for: one zero byte per leading '1', then the bytes of
      the value of the remaining digits. */
  function Decode(str: string): seq<Byte>
    requires IsBase58(str)
  {
    var n := LeadingOnes(str);
    seq(n, _ => 0) + ToDigits(Value(DigitsOf(str[n..]), 58), 256)
  }

  // ---------------------------------------------------------------- properties

  /** Every character of an encoding is in the alphabet. */
  lemma EncodeInAlphabet(s: seq<Byte>)
    ensures IsBase58(Encode(s))
  {
    AlphabetIndexed();
    var e := Encode(s);
    forall k | 0 <= k < |e|
      ensures e[k] in Alphabet
    {
      if k < LeadingZeros(s) {
        assert e[k] == Alphabet[0];
      }
    }
  }

  lemma LeadingOnesExact(str: string, n: nat)
    requires n <= |str| && forall k | 0 <= k < n :: str[k] == '1'
    requires n == |str| || str[n] != '1'
    ensures LeadingOnes(str) == n
  {
  }

  lemma LeadingZerosExact(s: seq<nat>, n: nat)
    requires n <= |s| && forall k | 0 <= k < n :: s[k] == 0
    requires n == |s| || s[n] != 0
    ensures LeadingZeros(s) == n
  {
  }

  /** Leading '1's of the encoding are exactly the leading zero bytes. */
  lemma EncodeLeadingOnes(s: seq<Byte>)
    ensures LeadingOnes(Encode(s)) == LeadingZeros(s)
  {
    AlphabetIndexed();
    var z := LeadingZeros(s);
    var ds := ToDigits(Value(s[z..], 256), 58);
    var e := Encode(s);
    if z < |s| {
      ValuePositive(s[z..], 256);
      assert e[z] == Alphabet[ds[0]];
      assert DigitOf(e[z]) == ds[0] != 0;
    }
    LeadingOnesExact(e, z);
  }

  /** `k` zero bytes encode as exactly `k` '1's; in particular the empty input encodes as the
      empty string (api.cpp:15-17, 32-37). */
  lemma EncodeZeros(k: nat)
    ensures Encode(seq(k, _ => 0)) == Ones(k)
  {
    var s: seq<Byte> := seq(k, _ => 0);
    LeadingZerosExact(s, k);
    assert s[k..] == [];
  }

  /** An input that starts with a zero byte encodes to a string that starts with '1'. */
  lemma EncodeZeroFirst(s: seq<Byte>)
    requires |s| > 0 && s[0] == 0
    ensures |Encode(s)| > 0 && Encode(s)[0] == '1'
  {
    EncodeLeadingOnes(s);
  }

  /** After the leading '1's, the digits of the encoding, read big-endian in base 58, are the
      value of the bytes after the leading zeros, read big-endian in base 256 (api.cpp:21-31). */
  lemma EncodeDigitsValue(s: seq<Byte>)
    ensures var z := LeadingZeros(s);
            z <= |Encode(s)| && Value(DigitsOf(Encode(s)[z..]), 58) == Value(s[z..], 256)
  {
    var z := LeadingZeros(s);
    var v := Value(s[z..], 256);
    EncodeSuffix(s);
    DigitsOfChars(ToDigits(v, 58));
    ValueOfToDigits(v, 58);
  }

  lemma DigitsOfChars(ds: seq<nat>)
    requires forall k | 0 <= k < |ds| :: ds[k] < 58
    ensures DigitsOf(Chars(ds)) == ds
  {
    AlphabetIndexed();
  }

  lemma CharsDigitsOf(str: string)
    requires IsBase58(str)
    ensures forall k | 0 <= k < |str| :: DigitsOf(str)[k] < 58
    ensures Chars(DigitsOf(str)) == str
  {
    AlphabetIndexed();
    forall k | 0 <= k < |str|
      ensures DigitsOf(str)[k] < 58 && Alphabet[DigitsOf(str)[k]] == str[k]
    {
      var d :| 0 <= d < 58 && Alphabet[d] == str[k];
      assert DigitOf(str[k]) == d;
    }
  }

  /** The digits after the leading '1's of an encoding, converted back to base 256, are the
      bytes after the leading zeros. */
  lemma EncodedDigitsBack(s: seq<Byte>)
    ensures var z := LeadingZeros(s);
            z <= |Encode(s)| && ToDigits(Value(DigitsOf(Encode(s)[z..]), 58), 256) == s[z..]
  {
    var z := LeadingZeros(s);
    EncodeSuffix(s);
    DigitsOfChars(ToDigits(Value(s[z..], 256), 58));
    BytesRoundTrip(s[z..]);
  }

  /** After the leading '1's, an encoding is the characters of the base-58 digits. */
  lemma EncodeSuffix(s: seq<Byte>)
    ensures var z := LeadingZeros(s);
            var ds := ToDigits(Value(s[z..], 256), 58);
            z <= |Encode(s)| && Encode(s)[z..] == Chars(ds)
  {
  }

  /** Bytes without a leading zero survive the trip through base 58 and back. */
  lemma BytesRoundTrip(bs: seq<Byte>)
    requires bs == [] || bs[0] != 0
    ensures ToDigits(Value(ToDigits(Value(bs, 256), 58), 58), 256) == bs
  {
    ValueOfToDigits(Value(bs, 256), 58);
    ToDigitsUnique(bs, 256);
  }

  /** The leading zeros of `s` followed by the rest of `s` are `s`. */
  lemma ZerosThenRest(s: seq<Byte>)
    ensures seq(LeadingZeros(s), _ => 0) + s[LeadingZeros(s)..] == s
  {
    var z := LeadingZeros(s);
    assert seq(z, _ => 0) == s[..z];
    assert s == s[..z] + s[z..];
  }

  /** Decoding an encoding gives the bytes back. */
  lemma DecodeEncode(s: seq<Byte>)
    ensures IsBase58(Encode(s)) && Decode(Encode(s)) == s
  {
    EncodeInAlphabet(s);
    EncodeLeadingOnes(s);
    EncodedDigitsBack(s);
    ZerosThenRest(s);
  }

  /** The bytes of a decoding have as many leading zeros as the string has leading '1's. */
  lemma DecodedZeros(str: string)
    requires IsBase58(str)
    ensures var n := LeadingOnes(str);
            LeadingZeros(Decode(str)) == n
            && Decode(str)[n..] == ToDigits(Value(DigitsOf(str[n..]), 58), 256)
  {
    var n := LeadingOnes(str);
    var bs := ToDigits(Value(DigitsOf(str[n..]), 58), 256);
    var s := Decode(str);
    assert s == seq(n, _ => 0) + bs;
    if bs != [] {
      assert s[n] == bs[0];
    }
    LeadingZerosExact(s, n);
    assert s[n..] == bs;
  }

  /** Base-58 text without a leading '1' survives the trip through base 256 and back. */
  lemma DigitsRoundTrip(rest: string)
    requires IsBase58(rest) && (rest == [] || rest[0] != '1')
    ensures forall k | 0 <= k < |DigitsOf(rest)| :: DigitsOf(rest)[k] < 58
    ensures ToDigits(Value(ToDigits(Value(DigitsOf(rest), 58), 256), 256), 58) == DigitsOf(rest)
    ensures Chars(DigitsOf(rest)) == rest
  {
    CharsDigitsOf(rest);
    var ds := DigitsOf(rest);
    ValueOfToDigits(Value(ds, 58), 256);
    if ds != [] {
      AlphabetIndexed();
      assert Alphabet[ds[0]] == rest[0];
    }
    ToDigitsUnique(ds, 58);
  }

  /** Every base-58 string is the encoding of its decoding: the encoding is onto the strings
      over the alphabet, and `Decode` is its inverse. */
  lemma EncodeDecode(str: string)
    requires IsBase58(str)
    ensures Encode(Decode(str)) == str
  {
    var n := LeadingOnes(str);
    var rest := str[n..];
    assert IsBase58(rest);
    DecodedZeros(str);
    DigitsRoundTrip(rest);
    assert Ones(n) == str[..n];
    assert str == str[..n] + rest;
  }

  // ---------------------------------------------------------------- the source's loops

  /** What holds of the buffer `digits` after `i` rounds of the carry loop that started from
      `before` with the byte `x`: the untouched prefix, digits below 58, and the value of the
      rewritten suffix plus the pending carry equal to 256 times the old suffix plus `x`. */
  predicate CarryInvariant(before: seq<nat>, digits: seq<nat>, i: nat, carry: nat, x: nat) {
    |digits| == |before| && i <= |before|
    && digits[..|before| - i] == before[..|before| - i]
    && (forall k | 0 <= k < |digits| :: digits[k] < 58)
    && Value(digits[|before| - i..], 58) + Shifted(carry, i)
       == Value(before[|before| - i..], 58) * 256 + x
  }

  /** The pending carry `c` after `i` rounds of the carry loop: `c` shifted left by `i`
      base-58 digits. Written by recursion, so the loop's invariant stays linear. */
  function Shifted(c: nat, i: nat): nat {
    if i == 0 then c else 58 * Shifted(c, i - 1)
  }

  /** The shifted carry is the carry times 58 to the power `i`. */
  lemma {:induction false} ShiftedIsProduct(c: nat, i: nat)
    ensures Shifted(c, i) == c * Pow(58, i)
  {
    if i > 0 {
      ShiftedIsProduct(c, i - 1);
      assert c * (58 * Pow(58, i - 1)) == 58 * (c * Pow(58, i - 1));
    }
  }

  /** One step of the carry loop (api.cpp:25-27): the `i`-th digit from the end becomes
      `t % 58` and `t / 58` is carried on, with `t` the carry plus 256 times that digit. */
  lemma CarryDigit(before: seq<nat>, cur: seq<nat>, next: seq<nat>, i: nat, carry: nat,
                   newCarry: nat, x: nat)
    requires CarryInvariant(before, cur, i, carry, x) && i < |cur|
    requires next == cur[|cur| - 1 - i := (carry + 256 * cur[|cur| - 1 - i]) % 58]
    requires newCarry == (carry + 256 * cur[|cur| - 1 - i]) / 58
    ensures CarryInvariant(before, next, i + 1, newCarry, x)
  {
    var n, d := |cur|, cur[|cur| - 1 - i];
    var t := carry + 256 * d;
    assert d == before[n - 1 - i] by {
      assert cur[..n - i][n - 1 - i] == before[..n - i][n - 1 - i];
    }
    assert next[..n - (i + 1)] == before[..n - (i + 1)] by {
      assert next[..n - (i + 1)] == cur[..n - i][..n - (i + 1)];
    }
    assert next[n - (i + 1)..] == [t % 58] + cur[n - i..];
    assert before[n - (i + 1)..] == [d] + before[n - i..];
    ValuePrepend(t % 58, cur[n - i..], 58);
    ValuePrepend(d, before[n - i..], 58);
    ShiftedIsProduct(carry, i);
    ShiftedIsProduct(newCarry, i + 1);
    CarryStep(Value(cur[n - i..], 58), carry, d, Pow(58, i), Value(before[n - i..], 58), x);
  }

  /** Widening a suffix over zero digits keeps its value. */
  lemma ZeroPaddedSuffix(ds: seq<nat>, length: nat, i: nat)
    requires length <= i <= |ds|
    requires forall k | 0 <= k < |ds| - length :: ds[k] == 0
    ensures Value(ds[|ds| - i..], 58) == Value(ds[|ds| - length..], 58)
  {
    var n := |ds|;
    assert ds[n - i..][i - length..] == ds[n - length..];
    ValueLeadingZeros(ds[n - i..], i - length, 58);
  }

  /** A carry that has run off the top of a full buffer must be zero, since the value fits. */
  lemma ShiftedSpent(v: nat, carry: nat, i: nat, w: nat)
    requires v + Shifted(carry, i) == w < Pow(58, i)
    ensures carry == 0
  {
    ShiftedIsProduct(carry, i);
    if carry != 0 {
      MulMonotone(1, carry, Pow(58, i), Pow(58, i));
    }
  }

  /** A zero carry stays zero however far it is shifted. */
  lemma {:induction false} ShiftedZero(i: nat)
    ensures Shifted(0, i) == 0
  {
    if i > 0 {
      ShiftedZero(i - 1);
    }
  }

  /** A buffer `b` of base-58 digits holds the value `v` in its last `used` digits, with
      zeros in front of them. */
  predicate BufferHolds(b: seq<nat>, used: nat, v: nat) {
    used <= |b|
    && (forall k | 0 <= k < |b| - used :: b[k] == 0)
    && (forall k | 0 <= k < |b| :: b[k] < 58)
    && Value(b[|b| - used..], 58) == v
  }

  /** A carry left over when the loop has run through the whole buffer would make the value
      too large for it, so the loop always ends with its carry spent. */
  lemma CarrySpentAtTop(before: seq<nat>, after: seq<nat>, length: nat, carry: nat, x: nat)
    requires CarryInvariant(before, after, |before|, carry, x) && length <= |before|
    requires forall k | 0 <= k < |before| - length :: before[k] == 0
    requires Value(before[|before| - length..], 58) * 256 + x < Pow(58, |before|)
    ensures carry == 0
  {
    var size := |before|;
    ZeroPaddedSuffix(before, length, size);
    ShiftedSpent(Value(after[0..], 58), carry, size, Value(before[size - length..], 58) * 256 + x);
  }

  /** When the carry loop stops, every digit in use has been visited and the carry is spent. */
  lemma CarryIsSpent(before: seq<nat>, after: seq<nat>, length: nat, i: nat, carry: nat, x: nat)
    requires CarryInvariant(before, after, i, carry, x) && length <= |before|
    requires forall k | 0 <= k < |before| - length :: before[k] == 0
    requires Value(before[|before| - length..], 58) * 256 + x < Pow(58, |before|)
    requires !CarryGoesOn(after, length, i, carry)
    ensures length <= i && carry == 0
  {
    if i == |before| {
      CarrySpentAtTop(before, after, length, carry, x);
    }
  }

  /** After the carry loop, with its carry spent, the buffer holds 256 times the old value
      plus the byte. */
  lemma CarryFinished(before: seq<nat>, after: seq<nat>, length: nat, i: nat, x: nat)
    requires CarryInvariant(before, after, i, 0, x) && length <= i
    requires forall k | 0 <= k < |before| - length :: before[k] == 0
    ensures BufferHolds(after, i, Value(before[|before| - length..], 58) * 256 + x)
  {
    ZeroPaddedSuffix(before, length, i);
    ShiftedZero(i);
    KeptZeros(before, after, length, i);
  }

  /** Digits the carry loop did not reach are the old leading zeros. */
  lemma KeptZeros(before: seq<nat>, after: seq<nat>, length: nat, i: nat)
    requires |after| == |before| && length <= i <= |before|
    requires after[..|before| - i] == before[..|before| - i]
    requires forall k | 0 <= k < |before| - length :: before[k] == 0
    ensures forall k | 0 <= k < |after| - i :: after[k] == 0
  {
    forall k | 0 <= k < |after| - i
      ensures after[k] == 0
    {
      assert after[..|before| - i][k] == before[..|before| - i][k];
    }
  }

  /** The condition of the carry loop (api.cpp:24): a carry is pending or a digit in use is
      still to be visited, and the buffer has room. */
  predicate CarryGoesOn(digits: seq<nat>, length: nat, i: nat, carry: nat) {
    (carry != 0 || i < length) && i < |digits|
  }

  /** The carry loop of `encodeBase58` (api.cpp:24-28) on values: from round `i` with
      `carry` pending, run while there is a carry or an old digit left and room in the buffer;
      the result is the new buffer and the number of rounds run. */
  function CarryLoop(digits: seq<nat>, length: nat, i: nat, carry: nat): (seq<nat>, nat)
    requires i <= |digits|
    decreases |digits| - i
  {
    if CarryGoesOn(digits, length, i, carry) then
      var n := |digits|;
      var t := carry + 256 * digits[n - 1 - i];
      CarryLoop(digits[n - 1 - i := t % 58], length, i + 1, t / 58)
    else (digits, i)
  }

  /** A round of the carry loop keeps its invariant and leaves the rest of the loop to run. */
  lemma CarryAdvance(before: seq<nat>, digits: seq<nat>, length: nat, i: nat, carry: nat, x: nat)
    returns (next: seq<nat>, nextCarry: nat)
    requires CarryInvariant(before, digits, i, carry, x)
    requires CarryGoesOn(digits, length, i, carry)
    ensures CarryInvariant(before, next, i + 1, nextCarry, x)
    ensures CarryLoop(digits, length, i, carry) == CarryLoop(next, length, i + 1, nextCarry)
  {
    var n := |digits|;
    var t := carry + 256 * digits[n - 1 - i];
    next, nextCarry := digits[n - 1 - i := t % 58], t / 58;
    CarryDigit(before, digits, next, i, carry, nextCarry, x);
  }

  /** The carry loop's result `r` holds the old value times 256 plus the byte `x`, with at
      least the `length` digits of `before` in use. */
  predicate LoopSettles(before: seq<nat>, length: nat, x: nat, r: (seq<nat>, nat))
    requires length <= |before|
  {
    length <= r.1 && |r.0| == |before|
    && BufferHolds(r.0, r.1, Value(before[|before| - length..], 58) * 256 + x)
  }

  /** The buffer as it stands when the carry loop stops holds the new value. */
  lemma CarryEnds(before: seq<nat>, digits: seq<nat>, length: nat, i: nat, carry: nat, x: nat)
    requires CarryInvariant(before, digits, i, carry, x) && length <= |before|
    requires forall k | 0 <= k < |before| - length :: before[k] == 0
    requires Value(before[|before| - length..], 58) * 256 + x < Pow(58, |before|)
    requires !CarryGoesOn(digits, length, i, carry)
    ensures LoopSettles(before, length, x, (digits, i))
  {
    CarryIsSpent(before, digits, length, i, carry, x);
    CarryFinished(before, digits, length, i, x);
  }

  /** The carry loop when it stops: the buffer as it stands holds the new value. */
  lemma CarryStops(before: seq<nat>, digits: seq<nat>, length: nat, i: nat, carry: nat, x: nat)
    requires CarryInvariant(before, digits, i, carry, x) && length <= |before|
    requires forall k | 0 <= k < |before| - length :: before[k] == 0
    requires Value(before[|before| - length..], 58) * 256 + x < Pow(58, |before|)
    requires !CarryGoesOn(digits, length, i, carry)
    ensures LoopSettles(before, length, x, CarryLoop(digits, length, i, carry))
  {
    assert CarryLoop(digits, length, i, carry) == (digits, i);
    CarryEnds(before, digits, length, i, carry, x);
  }

  lemma {:induction false} CarryLoopFrom(before: seq<nat>, digits: seq<nat>, length: nat, i: nat, carry: nat, x: nat)
    requires CarryInvariant(before, digits, i, carry, x) && length <= |before|
    requires forall k | 0 <= k < |before| - length :: before[k] == 0
    requires Value(before[|before| - length..], 58) * 256 + x < Pow(58, |before|)
    ensures LoopSettles(before, length, x, CarryLoop(digits, length, i, carry))
    decreases |before| - i
  {
    if CarryGoesOn(digits, length, i, carry) {
      var next, nextCarry := CarryAdvance(before, digits, length, i, carry, x);
      CarryLoopFrom(before, next, length, i + 1, nextCarry, x);
    } else {
      CarryStops(before, digits, length, i, carry, x);
    }
  }

  /** Running the carry loop on a buffer whose value has room for one more byte multiplies the
      value by 256 and adds the byte, keeps the buffer's size and every digit below 58, and
      leaves at least as many digits in use as before. */
  lemma CarryLoopMultiplies(before: seq<nat>, length: nat, v: nat, x: nat)
    requires BufferHolds(before, length, v) && v * 256 + x < Pow(58, |before|)
    ensures var r := CarryLoop(before, length, 0, x);
            length <= r.1 && |r.0| == |before| && BufferHolds(r.0, r.1, v * 256 + x)
  {
    assert before[|before|..] == [];
    CarryLoopFrom(before, before, length, 0, x, x);
  }

  /** The inner loop of `encodeBase58` (api.cpp:22-29) on the buffer `b58`, with the byte
      `x` and `length` digits in use: the buffer and the new length are those of
      `CarryLoop`. */
  method MultiplyAdd(b58: array<Byte>, length: nat, x: Byte) returns (newLength: nat)
    modifies b58
    ensures old(CarryLoop(b58[..], length, 0, x)) == (b58[..], newLength)
  {
    var size := b58.Length;
    ghost var before: seq<nat> := b58[..];
    var carry: nat := x;
    var i := 0;
    while (carry != 0 || i < length) && i < size
      invariant i <= size
      invariant CarryLoop(b58[..], length, i, carry) == CarryLoop(before, length, 0, x)
    {
      var digit: nat := b58[size - 1 - i];
      carry := carry + 256 * digit;
      b58[size - 1 - i] := carry % 58;
      carry := carry / 58;
      i := i + 1;
    }
    newLength := i;
  }

  /** The outer loop of `encodeBase58` (api.cpp:20-31) on values: a buffer of `size` zero
      digits into which every byte is multiplied in turn by the carry loop; the result is the
      buffer and the number of digits in use. */
  function Convert(bytes: seq<nat>, size: nat): (seq<nat>, nat)
    decreases |bytes|
  {
    if bytes == [] then (seq(size, _ => 0), 0)
    else
      var r := Convert(bytes[..|bytes| - 1], size);
      CarryLoop(r.0, r.1, 0, bytes[|bytes| - 1])
  }

  /** When the bytes' value fits in `size` base-58 digits, the buffer `Convert` builds has
      `size` digits and holds that value. */
  lemma {:induction false} ConvertHoldsValue(bytes: seq<nat>, size: nat)
    requires Value(bytes, 256) < Pow(58, size)
    ensures var r := Convert(bytes, size);
            |r.0| == size && BufferHolds(r.0, r.1, Value(bytes, 256))
    decreases |bytes|
  {
    if bytes == [] {
      var z: seq<nat> := seq(size, _ => 0);
      assert z[size..] == [];
    } else {
      var p, x := bytes[..|bytes| - 1], bytes[|bytes| - 1];
      var v := Value(p, 256);
      assert Value(bytes, 256) == v * 256 + x;
      ConvertHoldsValue(p, size);
      var r := Convert(p, size);
      CarryLoopMultiplies(r.0, r.1, v, x);
    }
  }

  /** The outer loop of `encodeBase58` (api.cpp:19-31): allocate `n * 138 / 100 + 1` zero
      digits for the `n` bytes `a[start..end]` and multiply each byte in. */
  method ConvertBytes(a: array<Byte>, start: nat, end: nat) returns (b58: array<Byte>, length: nat)
    requires start <= end <= a.Length
    ensures fresh(b58) && b58.Length == (end - start) * 138 / 100 + 1
    ensures (b58[..], length) == Convert(a[start..end], b58.Length)
  {
    var size := (end - start) * 138 / 100 + 1;
    b58 := new Byte[size](_ => 0);
    length := 0;
    var p := start;
    assert a[start..start] == [];
    assert b58[..] == seq(size, _ => 0);
    while p != end
      invariant start <= p <= end
      invariant (b58[..], length) == Convert(a[start..p], size)
    {
      assert a[start..p + 1][..p - start] == a[start..p];
      length := MultiplyAdd(b58, length, a[p]);
      p := p + 1;
    }
  }

  lemma CharsSnoc(ds: seq<nat>, d: nat)
    requires d < 58 && forall k | 0 <= k < |ds| :: ds[k] < 58
    ensures Chars(ds + [d]) == Chars(ds) + [Alphabet[d]]
  {
    AlphabetIndexed();
  }

  /** Skipping the zero digits in front of the first nonzero one leaves exactly the shortest
      base-58 digits of the value the buffer holds. */
  lemma SkipZeros(b: seq<nat>, used: nat, v: nat, j: nat)
    requires BufferHolds(b, used, v) && |b| - used <= j <= |b|
    requires forall k | |b| - used <= k < j :: b[k] == 0
    requires j == |b| || b[j] != 0
    ensures ToDigits(v, 58) == b[j..]
  {
    var from := |b| - used;
    assert b[from..][j - from..] == b[j..];
    ValueLeadingZeros(b[from..], j - from, 58);
    ToDigitsUnique(b[j..], 58);
  }

  lemma TakeOneMore(s: seq<nat>, n: nat)
    requires n < |s|
    ensures s[..n + 1] == s[..n] + [s[n]]
  {
  }

  /** The end of `encodeBase58` (api.cpp:32-40): skip the zero digits of the buffer's last
      `used` digits, then write `zeroes` '1's and the alphabet character of every remaining
      digit. */
  method EmitDigits(b58: array<Byte>, used: nat, zeroes: nat, ghost v: nat) returns (str: string)
    requires BufferHolds(b58[..], used, v)
    ensures str == Ones(zeroes) + Chars(ToDigits(v, 58))
  {
    ghost var b: seq<nat> := b58[..];
    var j := b58.Length - used;
    while j != b58.Length && b58[j] == 0
      invariant b58.Length - used <= j <= b58.Length
      invariant forall k | b58.Length - used <= k < j :: b[k] == 0
    {
      j := j + 1;
    }
    SkipZeros(b, used, v, j);
    ghost var rest := b[j..];
    var j0 := j;
    str := Ones(zeroes);
    while j != b58.Length
      invariant j0 <= j <= b58.Length
      invariant str == Ones(zeroes) + Chars(rest[..j - j0])
    {
      var d := b58[j];
      assert d == rest[j - j0];
      CharsSnoc(rest[..j - j0], d);
      TakeOneMore(rest, j - j0);
      str := str + [Alphabet[d]];
      j := j + 1;
    }
    assert rest[..j - j0] == rest;
  }

  /** `encodeBase58(pbegin, pend)` (api.cpp:11-41) over `a[begin..end]`: count and skip the
      zero bytes, convert the rest to base 58 and write one '1' per zero byte followed by the
      alphabet characters of the digits. */
  method EncodeRange(a: array<Byte>, begin: nat, end: nat) returns (str: string)
    requires begin <= end <= a.Length
    ensures str == Encode(a[begin..end])
  {
    var p := begin;
    var zeroes := 0;
    ghost var s := a[begin..end];
    while p != end && a[p] == 0
      invariant begin <= p <= end && zeroes == p - begin
      invariant forall k | 0 <= k < zeroes :: s[k] == 0
    {
      p := p + 1;
      zeroes := zeroes + 1;
    }
    LeadingZerosExact(s, zeroes);
    assert s[zeroes..] == a[p..end];
    var b58, length := ConvertBytes(a, p, end);
    ghost var v := Value(a[p..end], 256);
    assert v < Pow(58, b58.Length) by {
      ValueBound(a[p..end], 256);
      BufferSuffices(end - p);
    }
    ConvertHoldsValue(a[p..end], b58.Length);
    str := EmitDigits(b58, length, zeroes, v);
  }

  /** `encodeBase58(vch)` (api.cpp:43-46): the whole vector. */
  method EncodeBase58(vch: seq<Byte>) returns (str: string)
    ensures str == Encode(vch)
  {
    var a := new Byte[|vch|](k requires 0 <= k < |vch| => vch[k]);
    assert a[0..|vch|] == vch;
    str := EncodeRange(a, 0, |vch|);
  }
}
