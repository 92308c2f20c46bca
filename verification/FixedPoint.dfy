/** Wayland's 24.8 fixed-point numbers, and the conversion that works by adding 3 * 2^43 to an
    IEEE 754 double and looking at its bits. */
module FixedPoint {
  import opened Wire
  import Decoder
  import Encoder
  import R = RoundTrip
  import Registry
  import S = Signature

  const TWO_51 := 0x8_0000_0000_0000
  const TWO_52 := 0x10_0000_0000_0000
  const TWO_63 := 0x8000_0000_0000_0000

  /** The fields of a binary64 number. */
  datatype Double = Double(negative: bool, exponent: nat, mantissa: nat)

  predicate Finite(d: Double) {
    d.exponent < 2047 && d.mantissa < TWO_52
  }

  function Bits(d: Double): nat {
    (if d.negative then TWO_63 else 0) + d.exponent * TWO_52 + d.mantissa
  }

  function FromBits(u: nat): Double {
    Double(u / TWO_63 % 2 == 1, u / TWO_52 % 2048, u % TWO_52)
  }

  function Exp2(k: int): real
    decreases if k < 0 then -k else k
  {
    if k == 0 then 1.0 else if k > 0 then 2.0 * Exp2(k - 1) else Exp2(k + 1) / 2.0
  }

  /** Normal numbers have a hidden bit, subnormal ones have not. */
  function Significand(d: Double): real {
    (if d.exponent == 0 then 0.0 else 1.0) + d.mantissa as real / TWO_52 as real
  }

  function Power(d: Double): int {
    if d.exponent == 0 then -1022 else d.exponent - 1023
  }

  function Magnitude(d: Double): real {
    Significand(d) * Exp2(Power(d))
  }

  function Value(d: Double): real {
    if d.negative then -Magnitude(d) else Magnitude(d)
  }

  function Distance(x: real, y: real): real {
    if x <= y then y - x else x - y
  }

  predicate Even(n: int) {
    n % 2 == 0
  }

  /** d is x rounded to nearest, ties to even, as section 4.3.1 of IEEE 754-2019 defines it. */
  ghost predicate Rounded(d: Double, x: real) {
    && Finite(d)
    && (forall c: Double :: Finite(c) ==> Distance(Value(d), x) <= Distance(Value(c), x))
    && (forall c: Double :: Finite(c) && Distance(Value(d), x) == Distance(Value(c), x) && Value(c) != Value(d) ==>
          Even(d.mantissa))
  }

  /** The nearest integer, ties to even. */
  predicate Nearest(n: int, x: real) {
    Distance(n as real, x) <= 0.5 && (Distance(n as real, x) == 0.5 ==> Even(n))
  }

  /** The addend 3 << 43 of both conversions. */
  const MAGIC: real := 26388279066624.0

  /** fixedToFloat64 before its subtraction: the double with bits made of f. */
  function Assembled(f: Int32): Double {
    FromBits((1023 + 44) * TWO_52 + TWO_51 + f)
  }

  /** fixedFromfloat64 after its addition: the low 32 bits of the sum. */
  function LowBits(sum: Double): Int32 {
    ToInt32(Bits(sum) % 0x1_0000_0000)
  }

  // ---- powers of two

  lemma {:induction false} Exp2Positive(k: int)
    ensures Exp2(k) > 0.0
    decreases if k < 0 then -k else k
  {
    if k > 0 { Exp2Positive(k - 1); } else if k < 0 { Exp2Positive(k + 1); }
  }

  lemma Exp2Double(k: int)
    ensures Exp2(k + 1) == 2.0 * Exp2(k)
  {
  }

  lemma {:induction false} Exp2Monotone(j: int, k: int)
    requires j <= k
    ensures Exp2(j) <= Exp2(k)
    decreases k - j
  {
    if j < k {
      Exp2Monotone(j, k - 1);
      Exp2Double(k - 1);
      Exp2Positive(k - 1);
    }
  }

  lemma {:induction false} Exp2Sum(j: int, k: nat)
    ensures Exp2(j + k) == Exp2(j) * Exp2(k)
    decreases k
  {
    if k > 0 {
      Exp2Sum(j, k - 1);
      Exp2Double(j + k - 1);
    }
  }

  lemma Exp2At44()
    ensures Exp2(44) == 17592186044416.0 && Exp2(45) == 35184372088832.0
    ensures Exp2(52) == TWO_52 as real && Exp2(8) == 256.0
  {
    Exp2Sum(4, 4);
    assert Exp2(4) == 16.0;
    Exp2Sum(8, 8);
    Exp2Sum(16, 16);
    Exp2Sum(32, 8);
    Exp2Sum(40, 4);
    Exp2Sum(44, 8);
  }

  // ---- the doubles between 2^44 and 2^45

  lemma MulBounds(s: real, low: real, high: real, e: real)
    requires low <= s < high && e > 0.0
    ensures low * e <= s * e < high * e
  {
  }

  lemma SignificandBounds(d: Double)
    requires Finite(d)
    ensures 0.0 <= Significand(d) < 2.0
    ensures d.exponent > 0 ==> 1.0 <= Significand(d)
    ensures d.exponent == 0 ==> Significand(d) < 1.0
  {
    FractionBounds(d.mantissa);
  }

  lemma FractionBounds(m: nat)
    requires m < TWO_52
    ensures 0.0 <= m as real / TWO_52 as real < 1.0
  {
  }

  lemma MagnitudeBounds(d: Double)
    requires Finite(d)
    ensures 0.0 <= Magnitude(d) < Exp2(Power(d) + 1)
    ensures d.exponent > 0 ==> Exp2(Power(d)) <= Magnitude(d)
  {
    hide Exp2, Significand;
    SignificandBounds(d);
    Exp2Positive(Power(d));
    Exp2Double(Power(d));
    var low := if d.exponent > 0 then 1.0 else 0.0;
    MulBounds(Significand(d), low, 2.0, Exp2(Power(d)));
  }

  /** There the exponent field is 1067, and a step of the mantissa is 1/256. */
  lemma Binade(d: Double)
    requires Finite(d) && 17592186044416.0 < Value(d) < 35184372088832.0
    ensures !d.negative && d.exponent == 1067
    ensures Value(d) == 17592186044416.0 + d.mantissa as real / 256.0
  {
    hide Exp2, Magnitude;
    MagnitudeBounds(d);
    Exp2At44();
    if d.exponent < 1067 {
      Exp2Monotone(Power(d) + 1, 44);
    } else if d.exponent > 1067 {
      Exp2Monotone(45, Power(d));
    } else {
      InBinade(d);
    }
  }

  lemma InBinade(d: Double)
    requires Finite(d) && d.exponent == 1067
    ensures Magnitude(d) == 17592186044416.0 + d.mantissa as real / 256.0
  {
    Exp2At44();
    hide Exp2;
    assert Magnitude(d) == (1.0 + d.mantissa as real / 4503599627370496.0) * 17592186044416.0;
  }

  // ---- from double to fixed

  /** The double that stands for n/256. */
  function Candidate(n: int): Double
    requires -TWO_51 <= n < TWO_51
  {
    Double(false, 1067, TWO_51 + n)
  }

  lemma CandidateValue(n: int)
    requires -TWO_51 <= n < TWO_51
    ensures Finite(Candidate(n)) && Value(Candidate(n)) == MAGIC + n as real / 256.0
  {
    InBinade(Candidate(n));
  }

  lemma TieBreak(m: int, n: int, x: real)
    requires Nearest(n, x) && Distance(m as real, x) <= 0.5
    requires m != n && Distance(m as real, x) == Distance(n as real, x) ==> Even(m)
    ensures m == n
  {
  }

  /** Distances from the sum, in steps of 1/256. */
  lemma Scaled(k: int, x: real)
    ensures Distance(MAGIC + k as real / 256.0, x + MAGIC) == Distance(k as real, 256.0 * x) / 256.0
  {
  }

  /** The rounded sum of d and the addend has 256 * d, rounded to an integer, in its mantissa. */
  lemma SumHoldsRounding(d: Double, sum: Double, n: int)
    requires Finite(d) && Rounded(sum, Value(d) + MAGIC)
    requires Nearest(n, 256.0 * Value(d)) && -TWO_51 < n < TWO_51
    ensures sum == Candidate(n)
  {
    hide Value;
    var s, c := Value(d) + MAGIC, Candidate(n);
    CandidateValue(n);
    Scaled(n, Value(d));
    assert Distance(Value(sum), s) <= Distance(Value(c), s);
    NearestIsNear(n, Value(d), Value(sum));
    Binade(sum);
    var m := sum.mantissa - TWO_51;
    assert Value(sum) == MAGIC + m as real / 256.0;
    Scaled(m, Value(d));
    hide Nearest;
    assert m != n ==> Value(c) != Value(sum);
    assert m != n && Distance(m as real, 256.0 * Value(d)) == Distance(n as real, 256.0 * Value(d)) ==> Even(m);
    TieBreak(m, n, 256.0 * Value(d));
  }

  /** An integer nearest to 256 * x, and the sum it stands for. */
  lemma NearestIsNear(n: int, x: real, y: real)
    requires Nearest(n, 256.0 * x) && -TWO_51 < n < TWO_51
    requires Distance(y, x + MAGIC) <= Distance(n as real, 256.0 * x) / 256.0
    ensures 17592186044416.0 < y < 35184372088832.0
  {
  }

  lemma NearestIsClosest(m: int, n: int, x: real)
    requires Nearest(n, x) && Distance(m as real, x) <= Distance(n as real, x)
    ensures Distance(m as real, x) == Distance(n as real, x)
    ensures m != n ==> Even(n)
  {
  }

  /** No double is closer to the sum than the candidate. */
  lemma NoneCloser(d: Double, n: int, c: Double)
    requires Finite(d) && Finite(c) && Nearest(n, 256.0 * Value(d)) && -TWO_51 < n < TWO_51
    requires Distance(Value(c), Value(d) + MAGIC) <= Distance(Value(Candidate(n)), Value(d) + MAGIC)
    ensures Distance(Value(c), Value(d) + MAGIC) == Distance(Value(Candidate(n)), Value(d) + MAGIC)
    ensures Value(c) != Value(Candidate(n)) ==> Even(n)
  {
    hide Value, Nearest;
    CandidateValue(n);
    Scaled(n, Value(d));
    NearestIsNear(n, Value(d), Value(c));
    Binade(c);
    var m := c.mantissa - TWO_51;
    assert Value(c) == MAGIC + m as real / 256.0;
    Scaled(m, Value(d));
    NearestIsClosest(m, n, 256.0 * Value(d));
  }

  /** The sum exists: the candidate is the correctly rounded one. */
  lemma CandidateIsRounded(d: Double, n: int)
    requires Finite(d) && Nearest(n, 256.0 * Value(d)) && -TWO_51 < n < TWO_51
    ensures Rounded(Candidate(n), Value(d) + MAGIC)
  {
    hide Value, Nearest, Distance;
    CandidateValue(n);
    var s := Value(d) + MAGIC;
    forall c | Finite(c) && Distance(Value(c), s) <= Distance(Value(Candidate(n)), s)
      ensures Distance(Value(c), s) == Distance(Value(Candidate(n)), s)
      ensures Value(c) != Value(Candidate(n)) ==> Even(n)
    {
      NoneCloser(d, n, c);
    }
    EvenShift(n);
  }

  lemma EvenShift(n: int)
    ensures Even(TWO_51 + n) <==> Even(n)
  {
  }

  /** The main result on conversion: for every double, if the addition is rounded as IEEE 754
      demands, fixedFromfloat64 is 256 * d rounded to nearest, ties to even, modulo 2^32. */
  lemma FixedFromFloat64(d: Double, sum: Double, n: int)
    requires Finite(d) && Rounded(sum, Value(d) + MAGIC)
    requires Nearest(n, 256.0 * Value(d)) && -TWO_51 < n < TWO_51
    ensures LowBits(sum) == ToInt32(n % 0x1_0000_0000)
    ensures LowBits(sum) == n <==> -0x8000_0000 <= n < 0x8000_0000
  {
    hide Value, Rounded;
    SumHoldsRounding(d, sum, n);
    LowBitsOf(n);
  }

  lemma LowBitsOf(n: int)
    requires -TWO_51 < n < TWO_51
    ensures LowBits(Candidate(n)) == ToInt32(n % 0x1_0000_0000)
    ensures LowBits(Candidate(n)) == n <==> -0x8000_0000 <= n < 0x8000_0000
  {
    hide ToInt32;
    var high := 1067 * 0x10_0000 + 0x8_0000;
    assert Bits(Candidate(n)) == high * 0x1_0000_0000 + n;
    LowWord(high, n);
    SignedWord(n);
  }

  lemma LowWord(high: int, n: int)
    ensures (high * 0x1_0000_0000 + n) % 0x1_0000_0000 == n % 0x1_0000_0000
  {
    var q, r := n / 0x1_0000_0000, n % 0x1_0000_0000;
    Remainder(high + q, r);
    assert high * 0x1_0000_0000 + n == (high + q) * 0x1_0000_0000 + r;
  }

  lemma Remainder(q: int, r: int)
    requires 0 <= r < 0x1_0000_0000
    ensures (q * 0x1_0000_0000 + r) % 0x1_0000_0000 == r
  {
  }

  lemma SignedWord(n: int)
    ensures ToInt32(n % 0x1_0000_0000) == n <==> -0x8000_0000 <= n < 0x8000_0000
  {
    if 0 <= n < 0x8000_0000 {
      Remainder(0, n);
    } else if -0x8000_0000 <= n < 0 {
      Remainder(-1, n + 0x1_0000_0000);
    }
  }

  // ---- from fixed to double

  lemma AssembledValue(f: Int32)
    ensures Finite(Assembled(f)) && Value(Assembled(f)) == MAGIC + f as real / 256.0
  {
    var u := (1023 + 44) * TWO_52 + TWO_51 + f;
    var m := TWO_51 + f;
    assert 0 <= m < TWO_52;
    assert u / TWO_52 == 1067 && u % TWO_52 == m;
    assert u / TWO_63 == 0;
    assert Assembled(f) == Candidate(f);
    CandidateValue(f);
  }

  /** A positive number of at most 53 bits as a power of two and a significand. */
  lemma {:induction false} Normalized(a: nat) returns (k: int, m: nat)
    requires 0 < a < 2 * TWO_52
    ensures m < TWO_52 && k <= 52
    ensures (1.0 + m as real / TWO_52 as real) * Exp2(k) == a as real
    decreases 2 * TWO_52 - a
  {
    if a >= TWO_52 {
      k, m := 52, a - TWO_52;
      Exp2At44();
    } else {
      k, m := Normalized(2 * a);
      Exp2Double(k - 1);
      k := k - 1;
    }
  }

  lemma PowerIsNatural(a: nat, k: int, m: nat)
    requires a > 0 && m < TWO_52 && (1.0 + m as real / TWO_52 as real) * Exp2(k) == a as real
    ensures k >= 0
  {
    FractionBounds(m);
    Exp2Positive(k);
    MulBounds(1.0 + m as real / TWO_52 as real, 1.0, 2.0, Exp2(k));
    Exp2Double(k);
    if k < 0 { Exp2Monotone(k + 1, 0); }
  }

  /** Every fixed-point number is a double. */
  lemma Representable(f: Int32) returns (d: Double)
    ensures Finite(d) && Value(d) == f as real / 256.0
  {
    if f == 0 {
      d := Double(false, 0, 0);
    } else {
      var a: nat := if f < 0 then -(f as int) else f;
      var k, m := Normalized(a);
      PowerIsNatural(a, k, m);
      d := Double(f < 0, k - 8 + 1023, m);
      ScaledDown(d, k, a as real);
    }
  }

  lemma ScaledDown(d: Double, k: int, a: real)
    requires Power(d) == k - 8 && d.exponent > 0
    requires Significand(d) * Exp2(k) == a
    ensures Magnitude(d) == a / 256.0
  {
    hide Exp2, Significand;
    EightBits(k);
    Rescaled(Significand(d), Exp2(k - 8), Exp2(k), a);
  }

  lemma EightBits(k: int)
    ensures Exp2(k) == Exp2(k - 8) * 256.0
  {
    Exp2Sum(k - 8, 8);
    Exp2At44();
  }

  lemma Rescaled(x: real, y: real, z: real, a: real)
    requires z == y * 256.0 && x * z == a
    ensures x * y == a / 256.0
  {
    TimesAssociates(x, y);
  }

  lemma TimesAssociates(x: real, y: real)
    ensures x * (y * 256.0) == (x * y) * 256.0
  {
  }

  /** Every fixed-point number converts exactly. */
  lemma FixedToFloat64(f: Int32, r: Double)
    requires Rounded(r, Value(Assembled(f)) - MAGIC)
    ensures Value(r) == f as real / 256.0
  {
    AssembledValue(f);
    var d := Representable(f);
    assert Distance(Value(r), f as real / 256.0) <= Distance(Value(d), f as real / 256.0);
  }

  /** Converting to a double and back gives the same fixed-point number. */
  lemma FixedRoundTrip(f: Int32, r: Double, sum: Double)
    requires Rounded(r, Value(Assembled(f)) - MAGIC) && Rounded(sum, Value(r) + MAGIC)
    ensures LowBits(sum) == f
  {
    FixedToFloat64(f, r);
    FixedFromFloat64(r, sum, f);
  }

  // ---- across the wire

  /** Where an argument is found again: behind what the arguments before it stand for. */
  lemma {:induction false} MeantAt(vals: seq<S.Value>, k: nat)
    requires k < |vals|
    ensures R.MeantAll(vals[..k]) + R.Meant(vals[k]) <= R.MeantAll(vals)
  {
    hide R.Meant;
    var n := |vals| - 1;
    if k < n {
      MeantAt(vals[..n], k);
      assert vals[..n][..k] == vals[..k] && vals[..n][k] == vals[k];
    }
  }

  lemma FieldSeen(fields: seq<Decoder.Field>, j: nat, raw: Int32)
    requires j < |fields| && R.SeenAll(fields)[j] == R.FixedR(raw)
    ensures fields[j] == Decoder.FixedF(raw)
  {
  }

  /** The nearest multiple of 1/256 is at most 1/512 away. */
  lemma NearestMultiple(n: int, x: real)
    requires Nearest(n, 256.0 * x)
    ensures Distance(n as real / 256.0, x) <= 1.0 / 512.0
  {
  }

  /** A float64 in the range of the format that is passed as an argument of a request is decoded
      as the multiple of 1/256 nearest to it, and converting that back changes nothing: the
      receiver's double is at most 1/512 away. */
  lemma Float64Arrives(args: seq<S.Arg>, self: Word, opcode: nat, vals: seq<S.Value>, o: Registry.Objects, k: nat,
                       d: Double, sum: Double, n: Int32, x: Double)
    requires S.AllTyped(args, vals) && !Encoder.SomeNilDereference(args, vals) && R.AtMostOneFd(args)
    requires Finite(d) && Rounded(sum, Value(d) + MAGIC) && Nearest(n, 256.0 * Value(d))
    requires k < |vals| && vals[k] == S.FixedV(LowBits(sum))
    requires Rounded(x, Value(Assembled(n)) - MAGIC)
    ensures var c := Encoder.Execute(Encoder.CompileRequest(args), self, opcode, vals);
            c.Some? && (Encoder.Sendable(c.value.buf) ==>
              var r := Decoder.Decode(R.ExpandAll(args), o, c.value.buf[8..], R.Descriptor(args, vals));
              r.Next? ==>
                var j := |R.MeantAll(vals[..k])|;
                && j < |r.s.fields| && r.s.fields[j] == Decoder.FixedF(n)
                && Value(x) == n as real / 256.0 && Distance(Value(x), Value(d)) <= 1.0 / 512.0)
  {
    hide Value, Rounded, Nearest, Encoder.Execute, Encoder.CompileRequest, Decoder.Decode, R.MeantAll, R.SeenAll;
    hide R.Descriptor, R.Bindable, R.BoundBy, R.ExpandAll, Encoder.SomeNilDereference, R.AtMostOneFd, S.AllTyped;
    FixedFromFloat64(d, sum, n);
    FixedToFloat64(n, x);
    NearestMultiple(n, Value(d));
    R.DecodingInvertsEncoding(args, self, opcode, vals, o);
    MeantAt(vals, k);
    var c := Encoder.Execute(Encoder.CompileRequest(args), self, opcode, vals);
    if Encoder.Sendable(c.value.buf) {
      var r := Decoder.Decode(R.ExpandAll(args), o, c.value.buf[8..], R.Descriptor(args, vals));
      if r.Next? {
        assert R.Meant(vals[k]) == [R.FixedR(n)];
        FieldSeen(r.s.fields, |R.MeantAll(vals[..k])|, n);
      }
    }
  }
}
