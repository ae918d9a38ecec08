/** Big-endian positional numbers: the arithmetic behind the base-58 carry loop
    (api.cpp:19-31) and the buffer size it allocates. */
module Positional {

  function Pow(b: nat, e: nat): nat
    decreases e
  {
    if e == 0 then 1 else b * Pow(b, e - 1)
  }

  /** The big-endian value of `ds` in base `base`. */
  function Value(ds: seq<nat>, base: nat): nat
    decreases |ds|
  {
    if ds == [] then 0 else Value(ds[..|ds| - 1], base) * base + ds[|ds| - 1]
  }

  /** The shortest big-endian digits of `v` in base `base`: empty for 0, otherwise without a
      leading zero. */
  function ToDigits(v: nat, base: nat): (ds: seq<nat>)
    requires base >= 2
    ensures forall k | 0 <= k < |ds| :: ds[k] < base
    ensures v == 0 <==> ds == []
    ensures ds == [] || ds[0] != 0
    decreases v
  {
    if v == 0 then [] else ToDigits(v / base, base) + [v % base]
  }

  lemma PowPositive(b: nat, e: nat)
    requires b > 0
    ensures Pow(b, e) > 0
  {
  }

  lemma {:induction false} PowAdd(b: nat, x: nat, y: nat)
    ensures Pow(b, x + y) == Pow(b, x) * Pow(b, y)
    decreases y
  {
    if y > 0 {
      PowAdd(b, x, y - 1);
      assert Pow(b, x + y) == b * Pow(b, x + y - 1);
    }
  }

  lemma {:induction false} PowMonotone(b: nat, x: nat, y: nat)
    requires b > 0 && x <= y
    ensures Pow(b, x) <= Pow(b, y)
    decreases y
  {
    if x < y {
      PowMonotone(b, x, y - 1);
      var p := Pow(b, y - 1);
      MulMonotone(1, b, p, p);
      assert Pow(b, y) == b * p;
    }
  }

  /** Digits below the base have a value below `base^|ds|`. */
  lemma {:induction false} ValueBound(ds: seq<nat>, base: nat)
    requires base > 0 && forall k | 0 <= k < |ds| :: ds[k] < base
    ensures Value(ds, base) < Pow(base, |ds|)
    decreases |ds|
  {
    if ds != [] {
      var p := ds[..|ds| - 1];
      ValueBound(p, base);
      DigitAppendBound(Value(p, base), Pow(base, |p|), base, ds[|ds| - 1]);
      assert Value(ds, base) == Value(p, base) * base + ds[|ds| - 1];
    }
  }

  /** Appending a digit below the base to a value below `pw` gives a value below `base * pw`. */
  lemma DigitAppendBound(v: nat, pw: nat, base: nat, d: nat)
    requires v < pw && d < base
    ensures v * base + d < base * pw
  {
    MulMonotone(v + 1, pw, base, base);
    assert (v + 1) * base == v * base + base;
  }

  /** Putting a digit in front adds it at the weight of the highest position. */
  lemma {:induction false} ValuePrepend(x: nat, ds: seq<nat>, base: nat)
    ensures Value([x] + ds, base) == x * Pow(base, |ds|) + Value(ds, base)
    decreases |ds|
  {
    if ds != [] {
      var p := ds[..|ds| - 1];
      ValuePrepend(x, p, base);
      assert ([x] + ds)[..|ds|] == [x] + p;
      calc {
        Value([x] + ds, base);
        Value([x] + p, base) * base + ds[|ds| - 1];
        (x * Pow(base, |p|) + Value(p, base)) * base + ds[|ds| - 1];
        x * (Pow(base, |p|) * base) + Value(ds, base);
      }
    }
  }

  /** Leading zero digits do not change the value. */
  lemma {:induction false} ValueLeadingZeros(ds: seq<nat>, j: nat, base: nat)
    requires j <= |ds| && forall k | 0 <= k < j :: ds[k] == 0
    ensures Value(ds[j..], base) == Value(ds, base)
    decreases j
  {
    if j > 0 {
      ValueLeadingZeros(ds[1..], j - 1, base);
      ValuePrepend(0, ds[1..], base);
      assert ds == [0] + ds[1..];
      assert ds[1..][j - 1..] == ds[j..];
    }
  }

  /** A digit string with a nonzero leading digit has a nonzero value. */
  lemma {:induction false} ValuePositive(ds: seq<nat>, base: nat)
    requires base > 0 && ds != [] && ds[0] != 0
    ensures Value(ds, base) > 0
  {
    ValuePrepend(ds[0], ds[1..], base);
    assert ds == [ds[0]] + ds[1..];
    PowPositive(base, |ds| - 1);
  }

  /** Appending a digit shifts the value by one position. */
  lemma ValueSnoc(ds: seq<nat>, x: nat, base: nat)
    ensures Value(ds + [x], base) == Value(ds, base) * base + x
  {
    assert (ds + [x])[..|ds|] == ds;
  }

  lemma DivStep(v: nat, base: nat) returns (q: nat, r: nat)
    requires base >= 2 && v > 0
    ensures q == v / base && r == v % base && q < v && v == q * base + r
  {
    q, r := v / base, v % base;
  }

  /** `ToDigits` is a right inverse of `Value`. */
  lemma {:induction false} ValueOfToDigits(v: nat, base: nat)
    requires base >= 2
    ensures Value(ToDigits(v, base), base) == v
    decreases v
  {
    if v > 0 {
      var q, r := DivStep(v, base);
      var dq := ToDigits(q, base);
      ValueOfToDigits(q, base);
      assert ToDigits(v, base) == dq + [r];
      ValueSnoc(dq, r, base);
    }
  }

  /** The shortest representation is unique: digits below the base without a leading zero are
      the `ToDigits` of their value. */
  lemma {:induction false} ToDigitsUnique(ds: seq<nat>, base: nat)
    requires base >= 2 && forall k | 0 <= k < |ds| :: ds[k] < base
    requires ds == [] || ds[0] != 0
    ensures ToDigits(Value(ds, base), base) == ds
    decreases |ds|
  {
    if ds != [] {
      var p, x := ds[..|ds| - 1], ds[|ds| - 1];
      assert ds == p + [x];
      var v := Value(ds, base);
      assert v == Value(p, base) * base + x;
      DivModUnique(Value(p, base), x, base);
      if p == [] {
        assert v == x && x != 0;
      } else {
        ToDigitsUnique(p, base);
        ValuePositive(p, base);
      }
    }
  }

  // ---------------------------------------------------------------- the buffer size

  /** 256^8 < 58^11: eight bytes always fit in eleven base-58 digits. */
  lemma EightBytesFitElevenDigits()
    ensures Pow(256, 8) <= Pow(58, 11)
  {
    assert Pow(256, 8) == 18446744073709551616;
    assert Pow(58, 11) == 24986644000165537792;
  }

  /** The tail of the bound for fewer than eight bytes, checked value by value. */
  lemma ShortInputFits(r: nat)
    requires r < 8
    ensures Pow(256, r) <= Pow(58, r * 138 / 100 + 1)
  {
    if r == 0 {
    } else if r == 1 {
      assert Pow(256, 1) == 256 && Pow(58, 2) == 3364;
    } else if r == 2 {
      assert Pow(256, 2) == 65536 && Pow(58, 3) == 195112;
    } else if r == 3 {
      assert Pow(256, 3) == 16777216 && Pow(58, 5) == 656356768;
    } else if r == 4 {
      assert Pow(256, 4) == 4294967296 && Pow(58, 6) == 38068692544;
    } else if r == 5 {
      assert Pow(256, 5) == 1099511627776 && Pow(58, 7) == 2207984167552;
    } else if r == 6 {
      assert Pow(256, 6) == 281474976710656 && Pow(58, 9) == 7427658739644928;
    } else {
      assert Pow(256, 7) == 72057594037927936 && Pow(58, 10) == 430804206899405824;
    }
  }

  /** Eight more bytes need at most eleven more digits. */
  lemma EightMoreBytes(e1: nat, e2: nat)
    requires Pow(256, e1) <= Pow(58, e2)
    ensures Pow(256, e1 + 8) <= Pow(58, e2 + 11)
  {
    PowAdd(256, e1, 8);
    PowAdd(58, e2, 11);
    EightBytesFitElevenDigits();
    MulMonotone(Pow(256, e1), Pow(58, e2), Pow(256, 8), Pow(58, 11));
  }

  lemma {:induction false} BlocksFit(q: nat, r: nat)
    requires r < 8
    ensures Pow(256, 8 * q + r) <= Pow(58, 11 * q + r * 138 / 100 + 1)
    decreases q
  {
    if q == 0 {
      ShortInputFits(r);
    } else {
      var c := r * 138 / 100 + 1;
      BlocksFit(q - 1, r);
      EightMoreBytes(8 * (q - 1) + r, 11 * (q - 1) + c);
      assert 8 * (q - 1) + r + 8 == 8 * q + r;
      assert 11 * (q - 1) + c + 11 == 11 * q + c;
    }
  }

  lemma DivModUnique(q: nat, r: nat, b: nat)
    requires r < b
    ensures (q * b + r) / b == q && (q * b + r) % b == r
  {
    var n := q * b + r;
    var q2, r2 := n / b, n % b;
    assert n == q2 * b + r2 && r2 < b;
    if q2 > q {
      MulMonotone(q + 1, q2, b, b);
      assert false;
    } else if q2 < q {
      MulMonotone(q2 + 1, q, b, b);
      assert false;
    }
  }

  lemma MulMonotone(a: nat, b: nat, c: nat, d: nat)
    requires a <= b && c <= d
    ensures a * c <= b * d
  {
    assert a * c <= b * c;
    assert b * c <= b * d;
  }

  /** The buffer of `n * 138 / 100 + 1` digits (api.cpp:19) holds every value of `n` bytes:
      256^n <= 58^size, so the carry loop never runs out of room with a nonzero carry. */
  lemma BufferSuffices(n: nat)
    ensures Pow(256, n) <= Pow(58, n * 138 / 100 + 1)
  {
    var q, r := n / 8, n % 8;
    BlocksFit(q, r);
    assert n == 8 * q + r;
    assert 11 * q + r * 138 / 100 <= n * 138 / 100;
    PowMonotone(58, 11 * q + r * 138 / 100 + 1, n * 138 / 100 + 1);
  }

  /** One step of the carry loop (api.cpp:25-27): writing `t % 58` into the next digit up and
      carrying `t / 58`, where `t` is the carry plus 256 times the old digit `d`, keeps
      "digits written so far plus carry" equal to 256 times the old digits plus the byte. */
  lemma CarryStep(v: nat, carry: nat, d: nat, pw: nat, prev: nat, x: nat)
    requires v + carry * pw == prev * 256 + x
    ensures (carry + 256 * d) % 58 * pw + v + (carry + 256 * d) / 58 * (58 * pw)
            == (d * pw + prev) * 256 + x
  {
    var t := carry + 256 * d;
    var q, r := t / 58, t % 58;
    assert t == q * 58 + r;
    calc {
      r * pw + v + q * (58 * pw);
      (q * 58 + r) * pw + v;
      t * pw + v;
      carry * pw + 256 * d * pw + v;
      (d * pw + prev) * 256 + x;
    }
  }
}
