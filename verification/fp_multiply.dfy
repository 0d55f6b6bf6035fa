// FP11 fraction multiply: shift-and-add over the multiplier bits, keeping only
// the top 64 bits of the product at every step.
module FpMultiply {
  import opened Arith
  import opened FpWord
  import opened FpPack
  import opened FpAccuracy

  // The truncated product that every path computes.
  function Product(f1: nat, f2: nat): nat {
    f1 * (8 * f2) / 0x100_0000_0000_0000
  }

  // f after i right shifts.
  function Shr(f: nat, i: nat): nat {
    if i == 0 then f else Shr(f, i - 1) / 2
  }

  // The accumulator after the low i multiplier bits, each step dropping a bit.
  function Acc(m: nat, f: nat, i: nat): (a: nat)
    ensures a <= m
  {
    if i == 0 then 0
    else (Acc(m, f, i - 1) + if Shr(f, i - 1) % 2 == 1 then m else 0) / 2
  }

  // ---- What the accumulator holds ----

  // One step: with r the floor of m * low / p, adding the multiplicand for the next
  // multiplier bit b and halving gives the floor of m * (low + b * p) / (2 * p).
  lemma StepQuotient(m: nat, low: nat, p: nat, b: nat, r: nat, r': nat)
    requires p > 0 && b <= 1 && r * p <= m * low < r * p + p
    requires r' == (r + if b == 1 then m else 0) / 2
    ensures r' * (2 * p) <= m * (low + b * p) < r' * (2 * p) + 2 * p
  {
    var d := r + b * m - 2 * r';
    assert d == 0 || d == 1;
    assert m * (low + b * p) == m * low + (b * m) * p;
    assert r * p + (b * m) * p == (2 * r' + d) * p;
    assert d * p <= p;
  }

  // The low i bits of f are what Shr has dropped.
  lemma {:induction false} AccFloor(m: nat, f: nat, i: nat) returns (low: nat)
    ensures f == Shr(f, i) * Pow2(i) + low && low < Pow2(i)
    ensures Acc(m, f, i) * Pow2(i) <= m * low < Acc(m, f, i) * Pow2(i) + Pow2(i)
  {
    if i == 0 {
      low := 0;
    } else {
      var low0 := AccFloor(m, f, i - 1);
      low := ExtendFloor(m, f, low0, Pow2(i - 1), Shr(f, i - 1), Acc(m, f, i - 1), Acc(m, f, i));
    }
  }

  lemma ExtendFloor(m: nat, f: nat, low0: nat, p: nat, s: nat, a: nat, a': nat) returns (low: nat)
    requires p > 0 && f == s * p + low0 && low0 < p
    requires a * p <= m * low0 < a * p + p
    requires a' == (a + if s % 2 == 1 then m else 0) / 2
    ensures f == (s / 2) * (2 * p) + low && low < 2 * p
    ensures a' * (2 * p) <= m * low < a' * (2 * p) + 2 * p
  {
    var b := s % 2;
    low := low0 + b * p;
    StepQuotient(m, low0, p, b, a, a');
    assert s * p == (2 * (s / 2) + b) * p;
    assert b * p == 0 || b * p == p;
  }

  lemma AllBits(m: nat, f: nat)
    requires f < 0x100_0000_0000_0000
    ensures Shr(f, 56) == 0 && Acc(m, f, 56) == m * f / 0x100_0000_0000_0000
  {
    var low := AccFloor(m, f, 56);
    Pow2Consts();
    FloorIs(m, f, low, Shr(f, 56), Acc(m, f, 56), 0x100_0000_0000_0000);
  }

  lemma AccIsProduct(f1: nat, f2: nat)
    requires f1 < 0x100_0000_0000_0000
    ensures Acc(8 * f2, f1, 56) == Product(f1, f2)
  {
    AllBits(8 * f2, f1);
    assert (8 * f2) * f1 == f1 * (8 * f2);
  }

  lemma FloorIs(m: nat, f: nat, low: nat, s: nat, a: nat, p: nat)
    requires f < p && f == s * p + low && low < p
    requires a * p <= m * low < a * p + p
    ensures s == 0 && a == m * f / p
  {
    if s >= 1 {
      MulAtLeast(s, p);
    }
    DivModUnique(m * f, p, a, m * f - a * p);
  }

  // ---- A 56-bit multiplier taken half by half ----

  // For i <= 32, shifting the whole shifts the low half with bits of h on top.
  lemma {:induction false} ShrHalves(h: nat, l: u32, f: nat, i: nat) returns (top: nat)
    requires i <= 32 && f == h * 0x1_0000_0000 + l
    ensures Shr(f, i) == top * Pow2(32 - i) + Shr(l, i) && Shr(l, i) < Pow2(32 - i) && top == h
  {
    Pow2Consts();
    if i == 0 {
      top := h;
    } else {
      top := ShrHalves(h, l, f, i - 1);
      HalveSum(top, Pow2(32 - i), Shr(l, i - 1), Shr(f, i - 1));
    }
  }

  lemma HalveSum(h: nat, p: nat, x: nat, y: nat)
    requires y == h * (2 * p) + x && x < 2 * p
    ensures y / 2 == h * p + x / 2 && y % 2 == x % 2 && x / 2 < p
  {
    var t := h * p;
    assert y == 2 * t + x;
  }

  lemma {:induction false} AccLow(m: nat, h: nat, l: u32, f: nat, i: nat)
    requires i <= 32 && f == h * 0x1_0000_0000 + l
    ensures Acc(m, f, i) == Acc(m, l, i)
  {
    if i > 0 {
      AccLow(m, h, l, f, i - 1);
      var top := ShrHalves(h, l, f, i - 1);
      HalveSum(h, Pow2(32 - i), Shr(l, i - 1), Shr(f, i - 1));
    }
  }

  // After 32 bits: the high half is left and the low half is used up.
  lemma LowDone(m: nat, f1: Fpac)
    ensures Shr(f1.Val(), 32) == f1.h && Acc(m, f1.Val(), 32) == Acc(m, f1.l, 32)
  {
    var top := ShrHalves(f1.h, f1.l, f1.Val(), 32);
    AccLow(m, f1.h, f1.l, f1.Val(), 32);
  }

  // No low multiplier bits: the first 32 steps would add nothing.
  lemma {:induction false} AccOfZero(m: nat, i: nat)
    ensures Shr(0, i) == 0 && Acc(m, 0, i) == 0
  {
    if i > 0 {
      AccOfZero(m, i - 1);
    }
  }

  // ---- The loops ----

  // One turn of either double-word loop.
  method ShiftAdd(bit: nat, mpc: Fpac, acc: Fpac) returns (acc': Fpac)
    requires acc.Val() <= mpc.Val() < 0x800_0000_0000_0000
    ensures acc'.Val() == (acc.Val() + if bit == 1 then mpc.Val() else 0) / 2
  {
    acc' := acc;
    if bit == 1 {
      AddVal(mpc, acc');
      acc' := Add(mpc, acc');
    }
    acc' := Rsh1(acc');
  }

  // One turn of the single-precision loop: the multiplicand has no low half.
  method ShiftAddHigh(bit: nat, mpc: Fpac, acc: Fpac) returns (acc': Fpac)
    requires mpc.l == 0 && acc.Val() <= mpc.Val() < 0x800_0000_0000_0000
    ensures acc'.Val() == (acc.Val() + if bit == 1 then mpc.Val() else 0) / 2
  {
    acc' := acc;
    if bit == 1 {
      AddHighVal(mpc, acc');
      acc' := AddHigh(mpc, acc');
    }
    acc' := Rsh1(acc');
  }

  // The loop over the low 32 multiplier bits.
  method LowLoop(l: u32, mpc: Fpac) returns (result: Fpac)
    requires mpc.Val() < 0x800_0000_0000_0000
    ensures result.Val() == Acc(mpc.Val(), l, 32)
  {
    result := Fpac(0, 0);
    var mpyl := l;
    var i := 0;
    while i < 32
      invariant 0 <= i <= 32
      invariant mpyl == Shr(l, i) && result.Val() == Acc(mpc.Val(), l, i)
    {
      result := ShiftAdd(mpyl % 2, mpc, result);
      mpyl := mpyl / 2;
      i := i + 1;
    }
  }

  // The loop over the high 24 multiplier bits of f.
  method HighLoop(h: u32, ghost f: nat, mpc: Fpac, result0: Fpac) returns (result: Fpac)
    requires mpc.Val() < 0x800_0000_0000_0000
    requires h == Shr(f, 32) && result0.Val() == Acc(mpc.Val(), f, 32)
    ensures result.Val() == Acc(mpc.Val(), f, 56)
  {
    result := result0;
    var mpyh := h;
    var i := 0;
    while i < 24
      invariant 0 <= i <= 24
      invariant mpyh == Shr(f, 32 + i) && result.Val() == Acc(mpc.Val(), f, 32 + i)
    {
      result := ShiftAdd(mpyh % 2, mpc, result);
      mpyh := mpyh / 2;
      i := i + 1;
    }
  }

  // The 24 by 24 bit loop: no low half on either side.
  method SingleLoop(h: u32, ghost f: nat, mpc: Fpac) returns (result: Fpac)
    requires mpc.Val() < 0x800_0000_0000_0000 && mpc.l == 0
    requires h == Shr(f, 32) && Acc(mpc.Val(), f, 32) == 0
    ensures result.Val() == Acc(mpc.Val(), f, 56)
  {
    result := Fpac(0, 0);
    var mpyh := h;
    var i := 0;
    while i < 24
      invariant 0 <= i <= 24
      invariant mpyh == Shr(f, 32 + i) && result.Val() == Acc(mpc.Val(), f, 32 + i)
    {
      result := ShiftAddHigh(mpyh % 2, mpc, result);
      mpyh := mpyh / 2;
      i := i + 1;
    }
  }

  // frac_mulfp11: f1 is the multiplier, f2 the multiplicand, both without guard
  // bits; the result carries them.
  method FracMul(f1: Fpac, f2: Fpac) returns (result: Fpac)
    requires Normal56(f1.Val()) && Normal56(f2.Val())
    ensures result.Val() == Product(f1.Val(), f2.Val())
  {
    LshGuardVal(f2);
    var mpc := LshGuard(f2);
    LowDone(mpc.Val(), f1);
    AccOfZero(mpc.Val(), 32);
    if f1.l == 0 && mpc.l == 0 {
      result := SingleLoop(f1.h, f1.Val(), mpc);
    } else {
      result := Fpac(0, 0);
      if f1.l != 0 {
        result := LowLoop(f1.l, mpc);
      }
      result := HighLoop(f1.h, f1.Val(), mpc, result);
    }
    AccIsProduct(f1.Val(), f2.Val());
  }

  // ---- mulfp11 ----

  // The product, normalised by at most one left shift.
  function MulGuarded(a: Fpac, b: Fpac): Guarded {
    var g := Product(Frac(a).Val(), Frac(b).Val());
    Normalise1(Guarded(Exp(a.h) + Exp(b.h) - 0x80, g))
  }

  // A zero exponent on either side gives zero.
  function MulResult(s: FpuState, a: Fpac, b: Fpac): PackResult {
    if Exp(a.h) == 0 || Exp(b.h) == 0 then PackResult(Fpac(0, 0), false, s)
    else RoundPack(s, SignXor(a.h, b.h), MulGuarded(a, b), true)
  }

  // A product of normalised fractions lies in [2^57, 2^59): one shift is enough.
  lemma ProductRange(f1: nat, f2: nat)
    requires Normal56(f1) && Normal56(f2)
    ensures 0x200_0000_0000_0000 <= Product(f1, f2) < 0x800_0000_0000_0000
  {
    var x := f1 * (8 * f2);
    MulMonotone(f1, 0x400_0000_0000_0000, 8 * f2);
    MulMonotone(f1, 8 * f2, 0x7FF_FFFF_FFFF_FFF8);
    assert x >= 0x400_0000_0000_0000 * 0x80_0000_0000_0000;
    assert x <= 0x7FF_FFFF_FFFF_FFF8 * 0xFF_FFFF_FFFF_FFFF;
    var q, r := x / 0x100_0000_0000_0000, x % 0x100_0000_0000_0000;
    assert x == q * 0x100_0000_0000_0000 + r;
  }

  lemma MulGuardedNormal(a: Fpac, b: Fpac)
    ensures Normal59(MulGuarded(a, b).g)
  {
    FracNormal(a);
    FracNormal(b);
    ProductRange(Frac(a).Val(), Frac(b).Val());
  }

  // mulfp11
  method MulFp11(fpu: Fpu, facp: Fpac, fsrcp: Fpac) returns (res: Fpac, newV: bool)
    modifies fpu
    ensures PackResult(res, newV, fpu.State()) == MulResult(old(fpu.State()), facp, fsrcp)
  {
    var facexp, fsrcexp := Exp(facp.h), Exp(fsrcp.h);
    if facexp == 0 || fsrcexp == 0 {
      return Fpac(0, 0), false;
    }
    var facfrac, fsrcfrac := Frac(facp), Frac(fsrcp);
    FracNormal(facp);
    FracNormal(fsrcp);
    facexp := facexp + fsrcexp - 0x80;
    var sign := SignXor(facp.h, fsrcp.h);
    facfrac := FracMul(facfrac, fsrcfrac);
    ProductRange(Frac(facp).Val(), Frac(fsrcp).Val());
    facfrac, facexp := NormaliseOnce(facfrac, facexp);
    res, newV := fpu.RoundAndPack(Fpac(SignWord(sign), facp.l), facexp, facfrac, true);
  }

  // A factor of exponent zero gives a clean zero, and the factors can be exchanged.
  lemma MulZeroAndOrder(s: FpuState, a: Fpac, b: Fpac)
    ensures Exp(a.h) == 0 || Exp(b.h) == 0 ==> MulResult(s, a, b) == PackResult(Fpac(0, 0), false, s)
    ensures MulResult(s, a, b) == MulResult(s, b, a)
  {
    var f, g := Frac(a).Val(), Frac(b).Val();
    MulGroup(8, f, g);
    assert f * (8 * g) == g * (8 * f);
  }

  // ---- Accuracy ----

  // A product that neither overflows nor underflows is stored within one unit in the
  // last place of the exact one. The product of two values, in units at exponent zero,
  // has 187 places more than a value.
  lemma MulWithinOneUlp(s: FpuState, a: Fpac, b: Fpac)
    requires Exp(a.h) != 0 && Exp(b.h) != 0 && Fits(s, MulGuarded(a, b), true)
    ensures var r := Stored(MulResult(s, a, b).f, s.fps.d);
            && Exp(r.h) != 0
            && Abs(SVal(r) * Pow2(187) - SVal(a) * SVal(b)) < Ulp(s.fps.d) * Pow2(Exp(r.h)) * Pow2(187)
  {
    hide Stored, Frac, Exp, Sign, Pow2, MulGuarded, Fits, Ulp, RoundPack;
    ProductWithinOneUlp(s, a, b, true);
  }

  // The same for the product rounded as asked; truncated, it is not above the exact one
  // in magnitude.
  lemma ProductWithinOneUlp(s: FpuState, a: Fpac, b: Fpac, rv: bool)
    requires Exp(a.h) != 0 && Exp(b.h) != 0 && Fits(s, MulGuarded(a, b), rv)
    ensures var r := Stored(RoundPack(s, SignXor(a.h, b.h), MulGuarded(a, b), rv).f, s.fps.d);
            && Exp(r.h) != 0
            && Abs(SVal(r) * Pow2(187) - SVal(a) * SVal(b)) < Ulp(s.fps.d) * Pow2(Exp(r.h)) * Pow2(187)
            && (!rv || s.fps.t ==> Abs(SVal(r)) * Pow2(187) <= Abs(SVal(a) * SVal(b)))
  {
    hide Stored, Frac, Exp, Sign, Pow2, MulGuarded, Fits, Ulp, RoundPack;
    MulStored(s, a, b, rv);
    var r := Stored(RoundPack(s, SignXor(a.h, b.h), MulGuarded(a, b), rv).f, s.fps.d);
    var e := Exp(a.h) + Exp(b.h) - 0x80;
    ProductWeights(Exp(a.h), Exp(b.h), e);
    ProductScaled(Sign(a.h), Sign(b.h), 8 * Frac(r).Val() * Pow2(Exp(r.h)), Frac(a).Val(), Frac(b).Val(),
                  Pow2(Exp(a.h)), Pow2(Exp(b.h)), Pow2(e), Pow2(128), Ulp(s.fps.d) * Pow2(Exp(r.h)));
  }

  lemma MulStored(s: FpuState, a: Fpac, b: Fpac, rv: bool)
    requires Exp(a.h) != 0 && Exp(b.h) != 0 && Fits(s, MulGuarded(a, b), rv)
    ensures var e := Exp(a.h) + Exp(b.h) - 0x80;
            var r := Stored(RoundPack(s, SignXor(a.h, b.h), MulGuarded(a, b), rv).f, s.fps.d);
            var n := Frac(a).Val() * (8 * Frac(b).Val());
            && e >= 0 && Exp(r.h) != 0 && Sign(a.h) <= 1 && Sign(b.h) <= 1
            && Sign(r.h) == (if Sign(a.h) == Sign(b.h) then 0 else 1)
            && Abs(8 * Frac(r).Val() * Pow2(Exp(r.h)) * 0x100_0000_0000_0000 - n * Pow2(e))
               < Ulp(s.fps.d) * Pow2(Exp(r.h)) * 0x100_0000_0000_0000
            && (!rv || s.fps.t ==> 8 * Frac(r).Val() * Pow2(Exp(r.h)) * 0x100_0000_0000_0000 <= n * Pow2(e))
  {
    hide Stored, Frac, Pow2, Fits, RoundPack, Normalise1, Exp, MulGuarded, Ulp, Sign, Product;
    var f1, f2, e := Frac(a).Val(), Frac(b).Val(), Exp(a.h) + Exp(b.h) - 0x80;
    MulGuardedIs(a, b);
    ProductRange(f1, f2);
    ProductTruncates(f1, f2);
    SignsOf(a.h, b.h);
    StoredClose(s, SignXor(a.h, b.h), Guarded(e, Product(f1, f2)), rv, 1, f1 * (8 * f2), 0x100_0000_0000_0000);
  }

  lemma MulGuardedIs(a: Fpac, b: Fpac)
    ensures Normal56(Frac(a).Val()) && Normal56(Frac(b).Val())
    ensures MulGuarded(a, b)
         == Normalise1(Guarded(Exp(a.h) + Exp(b.h) - 0x80, Product(Frac(a).Val(), Frac(b).Val())))
  {
    FracNormal(a);
    FracNormal(b);
  }

  lemma ProductTruncates(f1: nat, f2: nat)
    ensures var g, n := Product(f1, f2), f1 * (8 * f2);
            g % 1 == 0 && g * 0x100_0000_0000_0000 <= n < (g + 1) * 0x100_0000_0000_0000
  {
    TruncatedBy(f1 * (8 * f2), 0x100_0000_0000_0000);
  }

  lemma ProductWeights(e1: nat, e2: nat, e: nat)
    requires e + 128 == e1 + e2
    ensures Pow2(e) * Pow2(128) == Pow2(e1) * Pow2(e2) && Pow2(187) == 0x100_0000_0000_0000 * (8 * Pow2(128))
  {
    hide Pow2;
    Pow2Add(e, 128);
    Pow2Add(e1, e2);
    Places187();
  }

  lemma ProductScaled(s1: nat, s2: nat, r: nat, f1: nat, f2: nat, w1: nat, w2: nat, w: nat, c: nat, u: nat)
    requires s1 <= 1 && s2 <= 1 && w * c == w1 * w2 && c > 0
    requires Abs(r * 0x100_0000_0000_0000 - f1 * (8 * f2) * w) < u * 0x100_0000_0000_0000
    ensures var k := 0x100_0000_0000_0000 * (8 * c);
            var q, x, y := Signed(if s1 == s2 then 0 else 1, r), Signed(s1, 8 * f1 * w1), Signed(s2, 8 * f2 * w2);
            && Abs(q * k - x * y) < u * k
            && (r * 0x100_0000_0000_0000 <= f1 * (8 * f2) * w ==> Abs(q) * k <= Abs(x * y))
  {
    var t, e := 0x100_0000_0000_0000, 8 * c;
    ProductRegroup(f1, f2, w1, w2, w, c);
    Scaled(r, t, f1 * (8 * f2) * w, u, e);
    SignedProduct(s1, s2, r, t * e, 8 * f1 * w1, 8 * f2 * w2);
  }

  lemma ProductRegroup(f1: nat, f2: nat, w1: nat, w2: nat, w: nat, c: nat)
    requires w * c == w1 * w2
    ensures (8 * f1 * w1) * (8 * f2 * w2) == f1 * (8 * f2) * w * (8 * c)
  {
    var f := 64 * (f1 * f2);
    assert (8 * f1 * w1) * (8 * f2 * w2) == f * (w1 * w2);
    assert f1 * (8 * f2) * w * (8 * c) == f * (w * c);
  }

  lemma SignedProduct(s1: nat, s2: nat, r: nat, k: nat, x: nat, y: nat)
    requires s1 <= 1 && s2 <= 1
    ensures Abs(Signed(if s1 == s2 then 0 else 1, r) * k - Signed(s1, x) * Signed(s2, y)) == Abs(r * k - x * y)
    ensures Abs(Signed(if s1 == s2 then 0 else 1, r)) == r && Abs(Signed(s1, x) * Signed(s2, y)) == x * y
  {
  }
}
