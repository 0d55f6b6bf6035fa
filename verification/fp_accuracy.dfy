// What an FP11 result is worth: the value that an accumulator stands for, and how far
// a normalised, rounded and stored fraction is from the exact one.
module FpAccuracy {
  import opened Arith
  import opened FpWord
  import opened FpPack

  // The signed value of an operand or result, in units of a guarded fraction at
  // exponent zero.
  function SVal(p: Fpac): int {
    Signed(Sign(p.h), 8 * Frac(p).Val() * Pow2(Exp(p.h)))
  }

  function Signed(sign: nat, m: int): int {
    if sign == 0 then m else -m
  }

  // What the accumulator register holds afterwards: single precision stores only
  // the high half.
  function Stored(f: Fpac, d: bool): Fpac {
    if d then f else Fpac(f.h, 0)
  }

  // The stored result has the rounded exponent, and eight times its fraction is
  // what the format keeps of the guarded fraction.
  lemma StoredFields(sign: nat, x: Guarded, d: bool)
    requires sign <= 1 && Normal59(x.g) && 0 <= x.e < 0x100
    ensures var f := Stored(Packed(sign, x), d);
            Sign(f.h) == sign && Exp(f.h) == x.e && 8 * Frac(f).Val() == Kept(x.g, d)
  {
    PackedFields(sign, x);
    DivModUnique(x.e, 0x100, 0, x.e);
    var p := Packed(sign, x);
    if !d {
      DivDiv(x.g, 8, 0x1_0000_0000);
      DivModUnique(x.g / 8, 0x1_0000_0000, Frac(p).h, p.l);
    }
  }

  // ---- Out of range ----

  // The state after an exception that is not masked.
  predicate Reported(s: FpuState, s': FpuState, code: nat) {
    && s' == s.(fps := s.fps.(er := true), fec := code, fea := s'.fea, trapPending := s'.trapPending)
    && (s'.fea + 2) % 0x1_0000 == s.backupPc && (s'.trapPending <==> s.trapPending || !s.fps.id)
  }

  // The stored word has the sign and the fraction of y, and its exponent off by wrap.
  predicate WrappedBy(f: Fpac, d: bool, sign: nat, y: Guarded, wrap: int) {
    Sign(f.h) == sign && Exp(f.h) == y.e + wrap && 8 * Frac(f).Val() == Kept(y.g, d)
  }

  // Overflow sets V. While its interrupt is enabled it is reported with code 10 octal and
  // the result is too small by 2^256; otherwise the result is zero and nothing is.
  lemma OverflowWraps(s: FpuState, sign: nat, x: Guarded, rv: bool)
    requires sign <= 1 && Normal59(x.g)
    requires 0xFF < Rounded(x, s.fps.d, rv && !s.fps.t).e < 0x200
    ensures var y, r := Rounded(x, s.fps.d, rv && !s.fps.t), RoundPack(s, sign, x, rv);
            && r.v
            && if s.fps.iv then Reported(s, r.s, 8) && WrappedBy(Stored(r.f, s.fps.d), s.fps.d, sign, y, -0x100)
               else r.s == s && r.f == Fpac(0, 0)
  {
    hide Rounded, Packed, Stored, WrappedBy, Report, Reported;
    RoundedNormal(x, s.fps.d, rv && !s.fps.t);
    WrappedFields(sign, Rounded(x, s.fps.d, rv && !s.fps.t), s.fps.d, -0x100);
    ReportedBy(s, 8);
  }

  // Underflow does not. It is reported with code 12 octal, and the result is too large by
  // 2^256, or it is zero.
  lemma UnderflowWraps(s: FpuState, sign: nat, x: Guarded, rv: bool)
    requires sign <= 1 && Normal59(x.g)
    requires -0x100 < Rounded(x, s.fps.d, rv && !s.fps.t).e <= 0
    ensures var y, r := Rounded(x, s.fps.d, rv && !s.fps.t), RoundPack(s, sign, x, rv);
            && !r.v
            && if s.fps.iu then
                 && Reported(s, r.s, 10)
                 && WrappedBy(Stored(r.f, s.fps.d), s.fps.d, sign, y, if y.e == 0 then 0 else 0x100)
               else r.s == s && r.f == Fpac(0, 0)
  {
    hide Rounded, Packed, Stored, WrappedBy, Report, Reported;
    RoundedNormal(x, s.fps.d, rv && !s.fps.t);
    var y := Rounded(x, s.fps.d, rv && !s.fps.t);
    WrappedFields(sign, y, s.fps.d, if y.e == 0 then 0 else 0x100);
    ReportedBy(s, 10);
  }

  lemma ReportedBy(s: FpuState, code: nat)
    ensures if Masked(s.fps, code) then Report(s, code) == s else Reported(s, Report(s, code), code)
    ensures Masked(s.fps, 8) <==> !s.fps.iv
    ensures Masked(s.fps, 10) <==> !s.fps.iu
    ensures Masked(s.fps, 6) <==> !s.fps.ic
    ensures Masked(s.fps, 12) <==> !s.fps.iuv
    ensures code < 6 ==> !Masked(s.fps, code)
  {
  }

  // Only the exponent modulo 256 is kept.
  lemma WrappedFields(sign: nat, x: Guarded, d: bool, wrap: int)
    requires sign <= 1 && Normal59(x.g) && 0 <= x.e + wrap < 0x100 && (wrap == 0x100 || wrap == -0x100 || wrap == 0)
    ensures WrappedBy(Stored(Packed(sign, x), d), d, sign, x, wrap)
  {
    var z := x.(e := x.e + wrap);
    DivModUnique(x.e, 0x100, -wrap / 0x100, x.e + wrap);
    DivModUnique(z.e, 0x100, 0, z.e);
    assert Packed(sign, x) == Packed(sign, z);
    StoredFields(sign, z, d);
  }

  // ---- One normalising shift and rounding ----

  lemma TruncatedBy(n: nat, d: nat)
    requires d > 0
    ensures n / d * d <= n < (n / d + 1) * d
  {
    var q := n / d;
    assert (q + 1) * d == q * d + d;
  }

  // The weight of the last bit that a fraction has before it is rounded.
  predicate Grain(m: nat, d: bool) {
    m == 1 || (m == 0x1_0000_0000 && !d)
  }

  // Of fractions that are multiples of a grain, truncation drops a grain less than
  // a unit at most.
  lemma Gap(n: nat, k: nat, u: nat, m: nat)
    requires m > 0 && n % m == 0 && k % m == 0 && u % m == 0 && k <= n < k + u
    ensures n - k <= u - m
  {
    GapOf(n / m, k / m, u / m, m);
  }

  lemma GapOf(a: nat, b: nat, c: nat, m: nat)
    requires m > 0 && a * m < b * m + c * m
    ensures a * m - b * m <= c * m - m
  {
    if a >= b + c {
      MulMonotone(m, b + c, a);
    }
    MulMonotone(m, a + 1, b + c);
  }

  lemma KeptMultiple(g: nat, d: bool, m: nat)
    requires m == 1 || m == 2 || ((m == 0x1_0000_0000 || m == 0x2_0000_0000) && !d)
    ensures Kept(g, d) % m == 0 && Ulp(d) % m == 0
  {
    var q := g / Ulp(d);
    DivModUnique(Kept(g, d), m, q * (Ulp(d) / m), 0);
  }

  // What is kept of a rounded fraction n lies at most half a unit above it, and at
  // most a unit less a grain below.
  lemma RoundedClose(x: Guarded, d: bool, round: bool, m: nat)
    requires m == 1 || m == 2 || ((m == 0x1_0000_0000 || m == 0x2_0000_0000) && !d)
    requires Normal59(x.g) && x.g % m == 0
    ensures var r := Rounded(x, d, round);
            var k := if r.e == x.e then Kept(r.g, d) else 2 * Kept(r.g, d);
            && x.e <= r.e <= x.e + 1
            && x.g + m - Ulp(d) <= k <= x.g + Ulp(d) / 2
  {
    RoundingError(x, d, round);
    KeptMultiple(x.g, d, m);
    if !round {
      Gap(x.g, Kept(x.g, d), Ulp(d), m);
    }
  }

  // One normalising shift and rounding: what is kept stays within one unit of every
  // value that truncates to the fraction.
  lemma NormalisedClose(x: Guarded, d: bool, round: bool, m: nat)
    requires 0x200_0000_0000_0000 <= x.g < 0x800_0000_0000_0000 && Grain(m, d) && x.g % m == 0
    ensures var r := Rounded(Normalise1(x), d, round);
            0 <= r.e - (x.e - 1) <= 2 &&
            var p := Pow2(r.e - (x.e - 1));
            2 * x.g + 2 * m - Ulp(d) * p <= Kept(r.g, d) * p < 2 * x.g + Ulp(d) * p
  {
    var n := Normalise1(x);
    var r := Rounded(n, d, round);
    var up, half := if r.e == n.e then 1 else 2, if n.e == x.e then 2 else 1;
    DoubleMultiple(x.g, m);
    RoundedClose(n, d, round, if half == 1 then 2 * m else m);
    Pow2Small();
    CloseArith(x.g, n.g, Kept(r.g, d), Ulp(d), up, half, m);
  }

  lemma DoubleMultiple(g: nat, m: nat)
    requires m > 0 && g % m == 0
    ensures 2 * g % (2 * m) == 0
  {
    DivModUnique(2 * g, 2 * m, g / m, 0);
  }

  lemma CloseArith(g: nat, n: nat, k: nat, u: nat, up: nat, half: nat, m: nat)
    requires up == 1 || up == 2
    requires (half == 1 && n == 2 * g) || (half == 2 && n == g)
    requires n + (if half == 1 then 2 * m else m) - u <= up * k <= n + u / 2 && u > 0
    ensures 2 * g + 2 * m - u * (up * half) <= k * (up * half) < 2 * g + u * (up * half)
  {
  }

  // ---- The stored result ----

  // Nothing overflows or underflows when x is rounded as asked, or truncated.
  predicate Fits(s: FpuState, x: Guarded, rv: bool) {
    1 <= Rounded(x, s.fps.d, rv && !s.fps.t).e <= 0xFF
  }

  // A fraction of exponent x.e that stands for n / den, truncated to a grain, is stored
  // within one unit in the last place of that value, and not above it when truncated.
  lemma StoredClose(s: FpuState, sign: nat, x: Guarded, rv: bool, m: nat, n: nat, den: nat)
    requires sign <= 1 && 0x200_0000_0000_0000 <= x.g < 0x800_0000_0000_0000 && Grain(m, s.fps.d) && x.g % m == 0
    requires Fits(s, Normalise1(x), rv) && x.g * den <= n < (x.g + m) * den
    ensures var r := Stored(RoundPack(s, sign, Normalise1(x), rv).f, s.fps.d);
            && Exp(r.h) != 0 && Sign(r.h) == sign && x.e >= 0
            && Abs(8 * Frac(r).Val() * Pow2(Exp(r.h)) * den - n * Pow2(x.e)) < Ulp(s.fps.d) * Pow2(Exp(r.h)) * den
            && (!rv || s.fps.t ==> 8 * Frac(r).Val() * Pow2(Exp(r.h)) * den <= n * Pow2(x.e))
  {
    var d, round := s.fps.d, rv && !s.fps.t;
    var y := Rounded(Normalise1(x), d, round);
    PackedInRange(s, sign, Normalise1(x), rv);
    NormalisedClose(x, d, round, m);
    hide Rounded, Normalise1, RoundPack, Stored, Frac, Exp, Sign, Pow2, Ulp, Kept;
    WeightsOf(y.e, x.e);
    var r := Stored(RoundPack(s, sign, Normalise1(x), rv).f, d);
    assert 8 * Frac(r).Val() == Kept(y.g, d) && Exp(r.h) == y.e;
    WeightedClose(Kept(y.g, d), Ulp(d), Pow2(y.e - (x.e - 1)), x.g, m, n, den, Pow2(x.e), Pow2(y.e));
    if !round {
      TruncatedKept(x, d);
      WeightedBelow(Kept(y.g, d), Pow2(y.e - (x.e - 1)), x.g, n, den, Pow2(x.e), Pow2(y.e));
    }
  }

  // What is stored without overflow or underflow.
  lemma PackedInRange(s: FpuState, sign: nat, x: Guarded, rv: bool)
    requires sign <= 1 && Normal59(x.g) && Fits(s, x, rv)
    ensures var y, r := Rounded(x, s.fps.d, rv && !s.fps.t), Stored(RoundPack(s, sign, x, rv).f, s.fps.d);
            && 1 <= y.e <= 0xFF && Sign(r.h) == sign && Exp(r.h) == y.e && 8 * Frac(r).Val() == Kept(y.g, s.fps.d)
  {
    var y := Rounded(x, s.fps.d, rv && !s.fps.t);
    RoundedNormal(x, s.fps.d, rv && !s.fps.t);
    StoredFields(sign, y, s.fps.d);
  }

  lemma WeightsOf(e: int, e0: int)
    requires 1 <= e && 0 <= e - (e0 - 1) <= 2
    ensures e0 >= 0 && Pow2(e - (e0 - 1)) * Pow2(e0) == 2 * Pow2(e)
  {
    Pow2Add(e - (e0 - 1), e0);
    assert e - (e0 - 1) + e0 == e + 1;
  }

  // Truncation keeps at most the fraction.
  lemma TruncatedKept(x: Guarded, d: bool)
    requires 0x200_0000_0000_0000 <= x.g < 0x800_0000_0000_0000
    ensures var y := Rounded(Normalise1(x), d, false);
            0 <= y.e - (x.e - 1) <= 1 && Kept(y.g, d) * Pow2(y.e - (x.e - 1)) <= 2 * x.g
  {
    Pow2Small();
  }

  lemma WeightedBelow(k: nat, p: nat, g: nat, n: nat, den: nat, w0: nat, w: nat)
    requires k * p <= 2 * g && g * den <= n && p * w0 == 2 * w
    ensures k * w * den <= n * w0
  {
    MoveWeight(k, p, den, w0, w);
    MulMonotone(den, k * p, 2 * g);
    MulMonotone(w0, k * p * den, 2 * n);
  }

  lemma WeightedClose(k: nat, u: nat, p: nat, g: nat, m: nat, n: nat, den: nat, w0: nat, w: nat)
    requires 2 * g + 2 * m - u * p <= k * p < 2 * g + u * p
    requires g * den <= n < (g + m) * den && w0 > 0 && p * w0 == 2 * w
    ensures Abs(k * w * den - n * w0) < u * w * den
  {
    ScaledClose(k * p, u * p, g, m, n, den);
    var z, b := k * p * den - 2 * n, u * p * den;
    AbsScale(z, b, w0);
    MoveWeight(k, p, den, w0, w);
    MoveWeight(u, p, den, w0, w);
    Halved(z * w0, b * w0, k * w * den, n * w0, u * w * den);
    assert z * w0 == k * p * den * w0 - 2 * (n * w0);
  }

  lemma MoveWeight(k: nat, p: nat, den: nat, w0: nat, w: nat)
    requires p * w0 == 2 * w
    ensures k * p * den * w0 == 2 * (k * w * den)
  {
    MulGroup(k, p, den);
    MulGroup(k * den, p, w0);
    MulGroup(k, w, den);
    assert k * p * den * w0 == (k * den) * (2 * w);
  }

  lemma Halved(z: int, b: int, x: int, y: int, u: int)
    requires Abs(z) < b && b == 2 * u
    ensures z == 2 * x - 2 * y ==> Abs(x - y) < u
  {
  }

  lemma ScaledClose(kp: nat, up: nat, g: nat, m: nat, n: nat, den: nat)
    requires 2 * g + 2 * m - up <= kp < 2 * g + up && g * den <= n < (g + m) * den
    ensures Abs(kp * den - 2 * n) < up * den
  {
    assert den > 0;
    MulMonotone(den, 2 * g + 2 * m - up, kp);
    MulMonotone(den, kp, 2 * g + up - 1);
    assert den * (2 * g + 2 * m - up) == 2 * ((g + m) * den) - up * den;
    assert den * (2 * g + up - 1) == 2 * (g * den) + up * den - den;
  }

  // A distance and its bound, scaled.
  lemma Scaled(r: nat, t: nat, n: nat, u: nat, e: nat)
    requires Abs(r * t - n) < u * t && e > 0
    ensures Abs(r * (t * e) - n * e) < u * (t * e)
    ensures r * t <= n ==> r * (t * e) <= n * e
  {
    AbsScale(r * t - n, u * t, e);
    MulGroup(r, t, e);
    MulGroup(u, t, e);
    if r * t <= n {
      MulMonotone(e, r * t, n);
    }
  }

  lemma AbsScale(z: int, b: int, w: nat)
    requires Abs(z) < b && w > 0
    ensures Abs(z * w) < b * w
  {
    MulMonotone(w, z, b - 1);
    MulMonotone(w, 1 - b, z);
    assert w * (b - 1) == b * w - w && w * (1 - b) == w - b * w;
  }

  lemma SignedClose(sign: nat, k: int, e: int, u: int)
    requires Abs(k - e) < u
    ensures Abs(Signed(sign, k) - Signed(sign, e)) < u
  {
  }

  // A value has 59 fraction places and an exponent offset of 128.
  lemma Places187()
    ensures Pow2(187) == 0x100_0000_0000_0000 * (8 * Pow2(128))
  {
    hide Pow2;
    Pow2Consts();
    Pow2Add(3, 128);
    Pow2Add(56, 131);
  }
}
