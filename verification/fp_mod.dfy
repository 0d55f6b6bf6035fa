// FP11 MOD: the product split into an integer and a fraction.
module FpMod {
  import opened Arith
  import opened FpWord
  import opened FpPack
  import opened FpAccuracy
  import opened FpNormalise
  import opened FpMultiply

  datatype ModResult = ModResult(int_: Fpac, frac: Fpac, v: bool, s: FpuState)

  // Fraction bits of the format.
  function FracBits(d: bool): nat {
    if d then 56 else 24
  }

  // The fraction result from what stands below the binary point.
  function FracResult(s: FpuState, sign: nat, below: nat): PackResult
    requires sign <= 1 && below < 0x800_0000_0000_0000
  {
    if below == 0 then PackResult(Fpac(0, 0), false, s)
    else
      NormalisedNormal(Guarded(0x80, below));
      RoundPack(s, sign, Normalised(Guarded(0x80, below)), true)
  }

  // The three cases: all fraction, all integer, and a split at bit 59 - k.
  function ModOf(s: FpuState, sign: nat, x: Guarded): ModResult
    requires sign <= 1 && Normal59(x.g)
  {
    if x.e <= 0x80 then
      var r := RoundPack(s, sign, x, true);
      ModResult(Fpac(0, 0), r.f, r.v, r.s)
    else if x.e > 0x80 + FracBits(s.fps.d) then
      var r := RoundPack(s, sign, x, false);
      ModResult(r.f, Fpac(0, 0), r.v, r.s)
    else
      var k := x.e - 0x80;
      SplitBounds(x.g, k);
      var fr := FracResult(s, sign, Below(x.g, k));
      var ir := RoundPack(fr.s, sign, Guarded(x.e, Above(x.g, k)), false);
      ModResult(ir.f, fr.f, ir.v, ir.s)
  }

  // With k integer bits: the fraction below the binary point, shifted up to
  // exponent 128, and the integer part in place.
  function Below(g: nat, k: nat): nat
    requires k <= 59
  {
    g % Pow2(59 - k) * Pow2(k)
  }

  function Above(g: nat, k: nat): (a: int)
    requires k <= 59
  {
    g - g % Pow2(59 - k)
  }

  lemma SplitBounds(g: nat, k: nat)
    requires Normal59(g) && 1 <= k <= 56
    ensures 0 <= Below(g, k) < 0x800_0000_0000_0000 && 0 <= Above(g, k) <= g
    ensures Above(g, k) == (g / Pow2(59 - k)) * Pow2(59 - k)
  {
    Pow2Add(59 - k, k);
    Pow2Consts();
    RemainderBounds(g, Pow2(59 - k), Pow2(k));
  }

  lemma RemainderBounds(g: nat, p: nat, q: nat)
    requires p > 0 && q > 0
    ensures 0 <= g % p <= g && 0 <= (g % p) * q < p * q && g - g % p == (g / p) * p
  {
    assert g == (g / p) * p + g % p;
    MulMonotone(q, g % p + 1, p);
    assert q * (g % p + 1) == (g % p) * q + q;
    assert (g / p) * p >= 0;
  }

  function ModFp11Result(s: FpuState, a: Fpac, b: Fpac): ModResult {
    if Exp(a.h) == 0 || Exp(b.h) == 0 then ModResult(Fpac(0, 0), Fpac(0, 0), false, s)
    else
      MulGuardedNormal(a, b);
      ModOf(s, SignXor(a.h, b.h), MulGuarded(a, b))
  }

  // ---- Masks ----

  // The shifted mask has 59 - k ones.
  lemma MaskVal(k: nat)
    requires 1 <= k <= 56
    ensures RshV(Fpac(0x7FF_FFFF, 0xFFFF_FFFF), k).Val() == Pow2(59 - k) - 1
  {
    RshVVal(Fpac(0x7FF_FFFF, 0xFFFF_FFFF), k);
    Pow2Add(59 - k, k);
    Pow2Consts();
    OnesShifted(Pow2(59 - k), Pow2(k));
  }

  lemma OnesShifted(p: nat, q: nat)
    requires p > 0 && q > 0 && p * q == 0x800_0000_0000_0000
    ensures 0x7FF_FFFF_FFFF_FFFF / q == p - 1
  {
    assert (p - 1) * q == p * q - q;
    DivModUnique(0x7FF_FFFF_FFFF_FFFF, q, p - 1, q - 1);
  }

  // ANDing half by half with a mask of n ones keeps the low n bits, and with its
  // complement the others.
  lemma AndHalves(h: u32, l: u32, m: Fpac, n: nat)
    requires n <= 59 && m.Val() == Pow2(n) - 1
    ensures And(h, m.h) * 0x1_0000_0000 + And(l, m.l) == (h * 0x1_0000_0000 + l) % Pow2(n)
  {
    if n <= 32 {
      AndLowHalves(h, l, m, n);
    } else {
      AndHighHalves(h, l, m, n);
    }
  }

  lemma AndLowHalves(h: u32, l: u32, m: Fpac, n: nat)
    requires n <= 32 && m.Val() == Pow2(n) - 1
    ensures m.h == 0 && And(l, m.l) == (h * 0x1_0000_0000 + l) % Pow2(n)
  {
    Pow2Split32(n);
    var p := Pow2(n);
    AtMostProduct(p, Pow2(32 - n));
    MaskHalves(m, 0, p - 1);
    AndLowMask(l, n, m.l);
    LowModulus(h, l, p, Pow2(32 - n), And(l, m.l));
  }

  lemma AtMostProduct(p: nat, q: nat)
    requires q > 0
    ensures p <= p * q
  {
  }

  lemma AndHighHalves(h: u32, l: u32, m: Fpac, n: nat)
    requires 32 < n <= 59 && m.Val() == Pow2(n) - 1
    ensures And(l, m.l) == l && And(h, m.h) * 0x1_0000_0000 + l == (h * 0x1_0000_0000 + l) % Pow2(n)
  {
    Pow2High(n);
    var p := Pow2(n - 32);
    MaskHalves(m, p - 1, 0xFFFF_FFFF);
    AndAllOnes(l, m.l);
    AndLowMask(h, n - 32, m.h);
    HighModulus(h, l, p, Pow2(n), And(h, m.h));
  }

  lemma Pow2High(n: nat)
    requires n > 32
    ensures Pow2(n) == Pow2(n - 32) * 0x1_0000_0000
  {
    Pow2Add(n - 32, 32);
    Pow2Consts();
  }

  lemma AndAllOnes(l: u32, m: nat)
    requires m == 0xFFFF_FFFF
    ensures And(l, m) == l
  {
    Pow2Consts();
    AndLowMask(l, 32, m);
    DivModUnique(l, 0x1_0000_0000, 0, l);
  }

  lemma MaskHalves(m: Fpac, h: nat, l: nat)
    requires m.Val() == h * 0x1_0000_0000 + l && 0 <= l < 0x1_0000_0000
    ensures m.h == h && m.l == l
  {
  }

  lemma LowModulus(h: nat, l: nat, p: nat, q: nat, r: nat)
    requires p > 0 && p * q == 0x1_0000_0000 && r == l % p
    ensures (h * 0x1_0000_0000 + l) % p == r
  {
    var c := l / p;
    assert l == c * p + r;
    assert h * 0x1_0000_0000 == (h * q) * p;
    assert (h * q + c) * p == (h * q) * p + c * p;
    DivModUnique(h * 0x1_0000_0000 + l, p, h * q + c, r);
  }

  lemma HighModulus(h: nat, l: u32, p: nat, q: nat, r: nat)
    requires p > 0 && q == p * 0x1_0000_0000 && r == h % p
    ensures (h * 0x1_0000_0000 + l) % q == r * 0x1_0000_0000 + l
  {
    var c := h / p;
    assert h == c * p + r;
    assert (c * p) * 0x1_0000_0000 == c * q;
    DivModUnique(h * 0x1_0000_0000 + l, q, c, r * 0x1_0000_0000 + l);
  }

  // x & m and x & ~m on the halves.
  method MaskSplit(x: Fpac, m: Fpac, ghost n: nat) returns (low: Fpac, high: Fpac)
    requires n <= 59 && m.Val() == Pow2(n) - 1
    ensures low.Val() == x.Val() % Pow2(n) && high.Val() == x.Val() - low.Val()
  {
    AndHalves(x.h, x.l, m, n);
    ComplementHalf(x.h, m.h);
    ComplementHalf(x.l, m.l);
    low := Fpac(And(x.h, m.h), And(x.l, m.l));
    high := Fpac(And(x.h, 0xFFFF_FFFF - m.h), And(x.l, 0xFFFF_FFFF - m.l));
  }

  lemma ComplementHalf(x: u32, m: u32)
    ensures And(x, m) + And(x, 0xFFFF_FFFF - m) == x
  {
    Pow2Consts();
    AndComplement(x, m, 32);
  }

  // ---- modfp11 ----

  // The fraction result, shifted up to exponent 128 and normalised.
  method PackFraction(fpu: Fpu, sign: nat, frac: Fpac, k: nat) returns (res: Fpac, ghost v: bool)
    requires sign <= 1 && 1 <= k <= 56 && frac.Val() * Pow2(k) < 0x800_0000_0000_0000
    modifies fpu
    ensures PackResult(res, v, fpu.State()) == FracResult(old(fpu.State()), sign, frac.Val() * Pow2(k))
  {
    ZeroScaled(frac.Val(), Pow2(k));
    if frac.h == 0 && frac.l == 0 {
      return Fpac(0, 0), false;
    }
    LshVVal(frac, k);
    res, v := PackBelow(fpu, sign, LshV(frac, k));
  }

  method PackBelow(fpu: Fpu, sign: nat, f0: Fpac) returns (res: Fpac, ghost v: bool)
    requires sign <= 1 && 0 < f0.Val() < 0x800_0000_0000_0000
    modifies fpu
    ensures PackResult(res, v, fpu.State()) == FracResult(old(fpu.State()), sign, f0.Val())
  {
    NormalisedNormal(Guarded(0x80, f0.Val()));
    var f, exp := Normalise(f0, 0x80, true);
    var v';
    res, v' := fpu.RoundAndPack(Fpac(SignWord(sign), 0), exp, f, true);
    v := v';
  }

  lemma ZeroScaled(f: nat, p: nat)
    requires p > 0
    ensures f * p == 0 <==> f == 0
  {
    if f > 0 {
      MulAtLeast(f, p);
    }
  }

  method ModFp11(fpu: Fpu, facp: Fpac, fsrcp: Fpac) returns (res: Fpac, frac: Fpac, newV: bool)
    modifies fpu
    ensures ModResult(res, frac, newV, fpu.State()) == ModFp11Result(old(fpu.State()), facp, fsrcp)
  {
    var facexp, fsrcexp := Exp(facp.h), Exp(fsrcp.h);
    if facexp == 0 || fsrcexp == 0 {
      return Fpac(0, 0), Fpac(0, 0), false;
    }
    FracNormal(facp);
    FracNormal(fsrcp);
    facexp := facexp + fsrcexp - 0x80;
    var sign := SignXor(facp.h, fsrcp.h);
    var facfrac := FracMul(Frac(facp), Frac(fsrcp));
    ProductRange(Frac(facp).Val(), Frac(fsrcp).Val());
    MulGuardedNormal(facp, fsrcp);
    facfrac, facexp := NormaliseOnce(facfrac, facexp);
    if facexp <= 0x80 {
      frac, newV := fpu.RoundAndPack(Fpac(SignWord(sign), 0), facexp, facfrac, true);
      return Fpac(0, 0), frac, newV;
    }
    if facexp > (if fpu.fps.d then 0x80 + 56 else 0x80 + 24) {
      res, newV := fpu.RoundAndPack(Fpac(SignWord(sign), 0), facexp, facfrac, false);
      return res, Fpac(0, 0), newV;
    }
    res, frac, newV := SplitPack(fpu, sign, facexp, facfrac);
  }

  // The third case of modfp11.
  method SplitPack(fpu: Fpu, sign: nat, facexp: int, facfrac: Fpac) returns (res: Fpac, frac: Fpac, newV: bool)
    requires sign <= 1 && Normal59(facfrac.Val()) && 0x80 < facexp <= 0x80 + FracBits(fpu.fps.d)
    modifies fpu
    ensures ModResult(res, frac, newV, fpu.State())
         == ModOf(old(fpu.State()), sign, Guarded(facexp, facfrac.Val()))
  {
    var k := facexp - 0x80;
    MaskVal(k);
    var fmask := RshV(Fpac(0x7FF_FFFF, 0xFFFF_FFFF), k);
    SplitBounds(facfrac.Val(), k);
    var low, high := MaskSplit(facfrac, fmask, 59 - k);
    IntegerNormal(facfrac.Val(), k);
    ghost var v;
    frac, v := PackFraction(fpu, sign, low, k);
    res, newV := fpu.RoundAndPack(Fpac(SignWord(sign), 0), facexp, high, false);
  }

  // The integer part keeps the hidden bit.
  lemma IntegerNormal(g: nat, k: nat)
    requires Normal59(g) && 1 <= k <= 56
    ensures Normal59(Above(g, k))
  {
    SplitBounds(g, k);
    Pow2Add(k - 1, 59 - k);
    Pow2Add(2, 56);
    Pow2Consts();
    KeepsTop(g, Pow2(59 - k), Pow2(k - 1));
  }

  lemma QuotientReaches(g: nat, p: nat, q: nat)
    requires p > 0 && q * p <= g
    ensures q <= g / p
  {
    if g / p < q {
      MulMonotone(p, g / p + 1, q);
    }
  }

  lemma KeepsTop(g: nat, p: nat, q: nat)
    requires p > 0 && q * p == 0x400_0000_0000_0000 && g >= 0x400_0000_0000_0000
    ensures g - g % p >= 0x400_0000_0000_0000
  {
    var c := g / p;
    assert g == c * p + g % p;
    QuotientReaches(g, p, q);
    MulMonotone(p, q, c);
  }

  // ---- What the split means ----

  // A number with that many integer places has a last place of one.
  lemma FormatBits(d: bool)
    ensures Ulp(d) * Pow2(FracBits(d)) == 0x800_0000_0000_0000
  {
    Pow2Consts();
  }

  // A zero operand gives two zeros and changes nothing.
  lemma ModOfZero(s: FpuState, a: Fpac, b: Fpac)
    requires Exp(a.h) == 0 || Exp(b.h) == 0
    ensures ModFp11Result(s, a, b) == ModResult(Fpac(0, 0), Fpac(0, 0), false, s)
  {
  }

  // A product below one is all fraction: the integer is zero, and the fraction, with its
  // exceptions, is that of the product.
  lemma ModAllFraction(s: FpuState, a: Fpac, b: Fpac)
    requires Exp(a.h) != 0 && Exp(b.h) != 0 && MulGuarded(a, b).e <= 0x80
    ensures var r := ModFp11Result(s, a, b);
            && r.int_ == Fpac(0, 0) && PackResult(r.frac, r.v, r.s) == MulResult(s, a, b)
            && (Fits(s, MulGuarded(a, b), true) ==>
                  var f := Stored(r.frac, s.fps.d);
                  Abs(SVal(f) * Pow2(187) - SVal(a) * SVal(b)) < Ulp(s.fps.d) * Pow2(Exp(f.h)) * Pow2(187))
  {
    hide Stored, Frac, Exp, Sign, Pow2, MulGuarded, Fits, Ulp, RoundPack;
    if Fits(s, MulGuarded(a, b), true) {
      MulWithinOneUlp(s, a, b);
    }
  }

  // A product with no place below the binary point is all integer: the fraction is zero,
  // and the integer is the product truncated, even in rounding mode.
  lemma ModAllInteger(s: FpuState, a: Fpac, b: Fpac)
    requires Exp(a.h) != 0 && Exp(b.h) != 0 && MulGuarded(a, b).e > 0x80 + FracBits(s.fps.d)
    ensures var r := ModFp11Result(s, a, b);
            && r.frac == Fpac(0, 0)
            && (Fits(s, MulGuarded(a, b), false) ==>
                  var i := Stored(r.int_, s.fps.d);
                  && !r.v && r.s == s && Abs(SVal(i)) * Pow2(187) <= Abs(SVal(a) * SVal(b))
                  && Abs(SVal(i) * Pow2(187) - SVal(a) * SVal(b)) < Ulp(s.fps.d) * Pow2(Exp(i.h)) * Pow2(187))
  {
    hide Stored, Frac, Exp, Sign, Pow2, MulGuarded, Ulp, Packed;
    MulGuardedNormal(a, b);
    if Fits(s, MulGuarded(a, b), false) {
      ProductWithinOneUlp(s, a, b, false);
    }
  }

  // How a and b split: x is the normalised product, with k integer places, and p the
  // exact product of the fractions, with n.
  ghost predicate Splits(a: Fpac, b: Fpac, d: bool, k: nat, n: nat, p: nat) {
    && Exp(a.h) != 0 && Exp(b.h) != 0
    && MulGuarded(a, b).e == 0x80 + k && 1 <= k <= FracBits(d)
    && n == Exp(a.h) + Exp(b.h) - 0x100 && p == Frac(a).Val() * Frac(b).Val()
  }

  lemma SplitPlain(p: nat, c: nat, q: nat, cq: nat)
    requires c > 0 && q > 0 && cq == c * q
    ensures cq > 0 && p / c / q == p / cq && (p / c) % q == p % cq / c
  {
    DivDiv(p, c, q);
    var g, t := p / c, p % c;
    var w, m := g / q, g % q;
    assert p == (w * q + m) * c + t && (w * q + m) * c == w * cq + m * c;
    MulMonotone(c, m + 1, q);
    assert c * (m + 1) == m * c + c;
    DivModUnique(p, cq, w, m * c + t);
    DivModUnique(m * c + t, c, m, t);
  }

  lemma ProductFloor(f1: nat, f2: nat)
    ensures Product(f1, f2) == f1 * f2 / Pow2(53)
  {
    hide Pow2;
    Pow2Consts();
    Pow2Add(3, 53);
    MulGroup(f1, 8, f2);
    DivScale(f1 * f2, Pow2(53), 8);
  }

  // The guarded product, whether it was shifted or not, has the whole part of the exact
  // product above the binary point, and the rest of it, cut off at bit 53, below.
  lemma ProductSplit(a: Fpac, b: Fpac, d: bool, k: nat, n: nat, p: nat)
    requires Splits(a, b, d, k, n, p)
    ensures n <= 57 && (n == k || n == k + 1)
    ensures MulGuarded(a, b).g / Pow2(59 - k) == p / Pow2(112 - n)
    ensures Below(MulGuarded(a, b).g, k) == p % Pow2(112 - n) / Pow2(53) * Pow2(n)
  {
    hide Pow2, Frac, Exp, Product, Below;
    ProductFloor(Frac(a).Val(), Frac(b).Val());
    SplitAt(Product(Frac(a).Val(), Frac(b).Val()), MulGuarded(a, b).g, p, n, k);
  }

  lemma SplitAt(g0: nat, g: nat, p: nat, n: nat, k: nat)
    requires 1 <= k <= 56 && g0 == p / Pow2(53)
    requires (n == k && g == g0) || (n == k + 1 && g == 2 * g0)
    ensures g / Pow2(59 - k) == p / Pow2(112 - n)
    ensures Below(g, k) == p % Pow2(112 - n) / Pow2(53) * Pow2(n)
  {
    hide Pow2;
    Pow2Add(53, 59 - n);
    SplitPlain(p, Pow2(53), Pow2(59 - n), Pow2(112 - n));
    if n != k {
      Pow2Small();
      Pow2Add(1, 59 - n);
      Pow2Add(1, n - 1);
      Doubled(g0, Pow2(59 - n), Pow2(n - 1));
    }
  }

  lemma Doubled(g: nat, q: nat, m: nat)
    requires q > 0
    ensures 2 * g / (2 * q) == g / q && 2 * g % (2 * q) * m == g % q * (2 * m)
  {
    DivModUnique(2 * g, 2 * q, g / q, 2 * (g % q));
    MulGroup(2, g % q, m);
  }

  // In the third case the integer result is exactly the truncated product: w is its
  // whole part, no bit of it is lost in packing, and no exception is reported.
  lemma ModIntegerExact(s: FpuState, a: Fpac, b: Fpac, k: nat, n: nat, p: nat)
    requires Splits(a, b, s.fps.d, k, n, p)
    ensures n <= 57
    ensures var r, w := ModFp11Result(s, a, b), p / Pow2(112 - n);
            && r.s == s && !r.v && Sign(r.int_.h) == SignXor(a.h, b.h) && Exp(r.int_.h) == 0x80 + k
            && Frac(r.int_).Val() * Pow2(k) == w * Pow2(56)
            && (!s.fps.d ==> r.int_.l == 0)
  {
    hide Pow2, Frac, Exp;
    ProductSplit(a, b, s.fps.d, k, n, p);
    MulGuardedNormal(a, b);
    IntegerPacked(s, SignXor(a.h, b.h), MulGuarded(a, b));
  }

  lemma IntegerPacked(s: FpuState, sign: nat, x: Guarded)
    requires sign <= 1 && Normal59(x.g) && 0x80 < x.e <= 0x80 + FracBits(s.fps.d)
    ensures var r, k := ModOf(s, sign, x), x.e - 0x80;
            && r.s == s && !r.v && Sign(r.int_.h) == sign && Exp(r.int_.h) == x.e
            && Frac(r.int_).Val() * Pow2(k) == x.g / Pow2(59 - k) * Pow2(56)
            && (!s.fps.d ==> r.int_.l == 0)
  {
    hide Pow2, Frac, Exp, Sign, ModOf, Above, Packed, Kept;
    var k := x.e - 0x80;
    IntegerPart(s, sign, x);
    IntegerNormal(x.g, k);
    var y := Guarded(x.e, Above(x.g, k));
    PackedFields(sign, y);
    DivModUnique(x.e, 0x100, 0, x.e);
    WholeValue(x.g / Pow2(59 - k), k, y.g);
    if !s.fps.d {
      HighOnly(sign, y);
    }
  }

  lemma IntegerPart(s: FpuState, sign: nat, x: Guarded)
    requires sign <= 1 && Normal59(x.g) && 0x80 < x.e <= 0x80 + FracBits(s.fps.d)
    ensures var k := x.e - 0x80;
            var r, g := ModOf(s, sign, x), Above(x.g, k);
            && g == x.g / Pow2(59 - k) * Pow2(59 - k) >= 0 && Kept(g, s.fps.d) == g
            && r.s == s && !r.v && r.int_ == Packed(sign, Guarded(x.e, g))
  {
    hide Pow2, Frac, Packed, FracResult, Below, Normalised, Kept;
    var k := x.e - 0x80;
    SplitBounds(x.g, k);
    IntegerNormal(x.g, k);
    WholeKept(x.g / Pow2(59 - k), k, s.fps.d);
    var j := FractionNoException(s, sign, Below(x.g, k));
  }

  // A whole number w in place at bit 59 - k, without its guard bits.
  lemma WholeValue(w: nat, k: nat, g: nat)
    requires 1 <= k <= 56 && g == w * Pow2(59 - k)
    ensures g / 8 * Pow2(k) == w * Pow2(56)
  {
    hide Pow2;
    Pow2Consts();
    Pow2Add(3, 56 - k);
    Pow2Add(56 - k, k);
    MulGroup(w, 8, Pow2(56 - k));
    DivModUnique(g, 8, w * Pow2(56 - k), 0);
    MulGroup(w, Pow2(56 - k), Pow2(k));
  }

  lemma HighOnly(sign: nat, x: Guarded)
    requires sign <= 1 && Kept(x.g, false) == x.g
    ensures Packed(sign, x).l == 0
  {
    var q := x.g / 0x8_0000_0000;
    DivModUnique(x.g, 8, q * 0x1_0000_0000, 0);
    DivModUnique(x.g / 8, 0x1_0000_0000, q, 0);
  }

  function RoundedFraction(s: FpuState, sign: nat, g: nat, j: nat): Fpac
    requires sign <= 1
  {
    Packed(sign, Rounded(Guarded(0x80 - j, g), s.fps.d, !s.fps.t))
  }

  // The fraction before rounding, f in units of 2^-59, is exactly the product minus its
  // whole part in single precision, where the operands have no low halves, and less than
  // one unit of the guarded product below it in double. It is normalised by j shifts
  // with its value kept.
  lemma ModFractionExact(s: FpuState, a: Fpac, b: Fpac, k: nat, n: nat, p: nat) returns (f: nat, j: nat)
    requires Splits(a, b, s.fps.d, k, n, p)
    ensures n <= 57
    ensures var r, rest := ModFp11Result(s, a, b), p % Pow2(112 - n);
            && f * Pow2(53) <= rest * Pow2(n) < f * Pow2(53) + Pow2(n) * Pow2(53)
            && (a.l == 0 && b.l == 0 ==> f * Pow2(53) == rest * Pow2(n))
            && (f == 0 ==> r.frac == Fpac(0, 0))
            && (f != 0 ==> Normal59(f * Pow2(j))
                           && r.frac == RoundedFraction(s, SignXor(a.h, b.h), f * Pow2(j), j))
  {
    hide Pow2, Frac, Exp;
    ProductSplit(a, b, s.fps.d, k, n, p);
    MulGuardedNormal(a, b);
    var x := MulGuarded(a, b);
    f := Below(x.g, k);
    j := FractionRounded(s, SignXor(a.h, b.h), x);
    CutOff(p % Pow2(112 - n), Pow2(53), Pow2(n));
    if a.l == 0 && b.l == 0 {
      SingleProduct(a, b, n, p);
    }
  }

  lemma CutOff(rest: nat, c: nat, m: nat)
    requires c > 0 && m > 0
    ensures rest / c * m * c <= rest * m < rest / c * m * c + m * c
    ensures rest % c == 0 ==> rest / c * m * c == rest * m
  {
    var q, t := rest / c, rest % c;
    MulGroup(q, m, c);
    assert rest * m == q * c * m + t * m;
    MulMonotone(m, t + 1, c);
    assert m * (t + 1) == t * m + m;
  }

  // Without low halves the exact product has 64 clear places.
  lemma SingleProduct(a: Fpac, b: Fpac, n: nat, p: nat)
    requires a.l == 0 && b.l == 0 && p == Frac(a).Val() * Frac(b).Val() && n <= 57
    ensures p % Pow2(112 - n) % Pow2(53) == 0
  {
    hide Pow2;
    var h1, h2 := Frac(a).h, Frac(b).h;
    Pow2Consts();
    Pow2Add(53, 11);
    Pow2Add(32, 32);
    Pow2Add(53, 59 - n);
    assert p == h1 * h2 * Pow2(11) * Pow2(53) by {
      assert p == h1 * h2 * 0x1_0000_0000_0000_0000;
      MulGroup(h1 * h2, Pow2(53), Pow2(11));
    }
    RestMultiple(p, h1 * h2 * Pow2(11), Pow2(53), Pow2(59 - n), Pow2(112 - n));
  }

  lemma RestMultiple(p: nat, x: nat, c: nat, q: nat, cq: nat)
    requires c > 0 && q > 0 && cq == c * q && p == x * c
    ensures cq > 0 && p % cq % c == 0
  {
    SplitPlain(p, c, q, cq);
    DivModUnique(p, c, x, 0);
    var w, m := x / q, x % q;
    assert p == w * cq + m * c;
    MulMonotone(c, m + 1, q);
    assert c * (m + 1) == m * c + c;
    DivModUnique(p, cq, w, m * c);
    DivModUnique(m * c, c, m, 0);
  }

  lemma FractionRounded(s: FpuState, sign: nat, x: Guarded) returns (j: nat)
    requires sign <= 1 && Normal59(x.g) && 0x80 < x.e <= 0x80 + FracBits(s.fps.d)
    ensures var f, r := Below(x.g, x.e - 0x80), ModOf(s, sign, x);
            && (f == 0 ==> r.frac == Fpac(0, 0))
            && (f != 0 ==> Normal59(f * Pow2(j)) && r.frac == RoundedFraction(s, sign, f * Pow2(j), j))
  {
    var k := x.e - 0x80;
    SplitBounds(x.g, k);
    IntegerNormal(x.g, k);
    j := FractionNoException(s, sign, Below(x.g, k));
  }

  lemma FractionNoException(s: FpuState, sign: nat, f: nat) returns (j: nat)
    requires sign <= 1 && f < 0x800_0000_0000_0000
    ensures FracResult(s, sign, f).s == s
    ensures f == 0 ==> FracResult(s, sign, f).f == Fpac(0, 0)
    ensures f != 0 ==> Normal59(f * Pow2(j))
    ensures f != 0 ==> FracResult(s, sign, f).f == RoundedFraction(s, sign, f * Pow2(j), j)
  {
    j := 0;
    if f != 0 {
      j := NormalisedValue(Guarded(0x80, f));
      ShiftsBounded(f, j);
      RoundedNormal(Guarded(0x80 - j, f * Pow2(j)), s.fps.d, !s.fps.t);
    }
  }

  // A whole number of units of weight 2^(59-k) has nothing below the format's unit.
  lemma WholeKept(w: nat, k: nat, d: bool)
    requires 1 <= k <= FracBits(d)
    ensures Kept(w * Pow2(59 - k), d) == w * Pow2(59 - k)
  {
    var u := if d then 3 else 35;
    Pow2Consts();
    Pow2Add(3, 32);
    Pow2Add(59 - k - u, u);
    var c := w * Pow2(59 - k - u);
    MulGroup(w, Pow2(59 - k - u), Ulp(d));
    DivModUnique(w * Pow2(59 - k), Ulp(d), c, 0);
  }

  // Fewer than 59 shifts bring any non-zero fraction up.
  lemma ShiftsBounded(f: nat, j: nat)
    requires f > 0 && f * Pow2(j) < 0x800_0000_0000_0000
    ensures j < 59
  {
    if j >= 59 {
      Pow2Consts();
      Pow2Monotone(59, j);
      MulMonotone(Pow2(j), 1, f);
    }
  }
}
