// FP11 add: align, add or subtract, normalise, round.
module FpAdd {
  import opened Arith
  import opened FpWord
  import opened FpPack
  import opened FpNormalise
  import opened FpAccuracy

  // The operand without its sign.
  function Mag(p: Fpac): (m: nat) {
    (p.h % 0x8000_0000) * 0x1_0000_0000 + p.l
  }

  // F_LT_AP
  predicate LtAp(x: Fpac, y: Fpac) {
    || x.h % 0x8000_0000 < y.h % 0x8000_0000
    || (x.h % 0x8000_0000 == y.h % 0x8000_0000 && x.l < y.l)
  }

  // Magnitudes order by exponent first, then by fraction.
  lemma MagFields(p: Fpac)
    ensures Mag(p) == Exp(p.h) * 0x80_0000_0000_0000 + (Frac(p).Val() - 0x80_0000_0000_0000)
    ensures Exp(p.h) == (p.h % 0x8000_0000) / 0x80_0000
  {
    var s, r := p.h / 0x8000_0000, p.h % 0x8000_0000;
    var e, f := r / 0x80_0000, r % 0x80_0000;
    DivModUnique(p.h, 0x80_0000, s * 0x100 + e, f);
    DivModUnique(s * 0x100 + e, 0x100, s, e);
  }

  lemma MagOrder(p: Fpac, q: Fpac)
    requires Mag(q) <= Mag(p)
    ensures Exp(q.h) <= Exp(p.h)
    ensures Exp(q.h) == Exp(p.h) ==> Frac(q).Val() <= Frac(p).Val()
  {
    MagFields(p);
    MagFields(q);
    FracNormal(p);
    FracNormal(q);
  }

  // Either a value returned as it stands, or a guarded fraction to round and pack.
  datatype Sum = Whole(f: Fpac) | Part(sign: nat, x: Guarded)

  // The smaller fraction, guarded and aligned; what is shifted out is lost.
  function Aligned(q: Fpac, ediff: nat): nat {
    DivAtMost(8 * Frac(q).Val(), Pow2(ediff));
    8 * Frac(q).Val() / Pow2(ediff)
  }

  // A sum that carries out of bit 58 moves right by one.
  function Carried(e: int, s: nat): Guarded {
    if s >= 0x800_0000_0000_0000 then Guarded(e + 1, s / 2) else Guarded(e, s)
  }

  // The guarded fractions added or subtracted, the larger one first.
  function Combined(same: bool, sign: nat, e: int, a: nat, fq: nat): (s: Sum)
    requires sign <= 1 && Normal59(a) && fq <= a
    ensures s.Part? ==> s.sign == sign && Normal59(s.x.g)
  {
    if same then Part(sign, Carried(e, a + fq))
    else if fq == a then Whole(Fpac(0, 0))
    else
      NormalisedNormal(Guarded(e, a - fq));
      Part(sign, Normalised(Guarded(e, a - fq)))
  }

  // p is the operand of larger magnitude.
  function AddFrac(p: Fpac, q: Fpac): (s: Sum)
    requires Mag(q) <= Mag(p)
    ensures s.Part? ==> s.sign == Sign(p.h) <= 1 && Normal59(s.x.g)
  {
    AlignedBound(p, q);
    FracNormal(p);
    var ediff := Exp(p.h) - Exp(q.h);
    if Exp(p.h) == 0 then Whole(if Exp(q.h) != 0 then q else Fpac(0, 0))
    else if Exp(q.h) == 0 || ediff >= 60 then Whole(p)
    else Combined(Sign(p.h) == Sign(q.h), Sign(p.h), Exp(p.h), 8 * Frac(p).Val(), Aligned(q, ediff))
  }

  lemma AlignedBound(p: Fpac, q: Fpac)
    requires Mag(q) <= Mag(p)
    ensures Exp(q.h) <= Exp(p.h) && Aligned(q, Exp(p.h) - Exp(q.h)) <= 8 * Frac(p).Val()
    ensures Aligned(q, Exp(p.h) - Exp(q.h)) < 0x800_0000_0000_0000
  {
    MagOrder(p, q);
    FracNormal(p);
    FracNormal(q);
    var d := Exp(p.h) - Exp(q.h);
    var b := 8 * Frac(q).Val();
    if d == 0 {
      assert Pow2(0) == 1;
    } else {
      Pow2Monotone(1, d);
      HalfAtMost(b, Pow2(d));
    }
  }

  lemma HalfAtMost(b: nat, p: nat)
    requires p >= 2
    ensures 0 <= b / p <= b / 2
  {
    var q := b / p;
    MulMonotone(q, 2, p);
    assert q * p <= b;
  }

  function AddResult(s: FpuState, a: Fpac, b: Fpac): PackResult {
    SumResult(s, if Mag(a) < Mag(b) then AddFrac(b, a) else AddFrac(a, b))
  }

  function SumResult(s: FpuState, sum: Sum): PackResult
    requires sum.Part? ==> sum.sign <= 1
  {
    match sum
    case Whole(f) => PackResult(f, false, s)
    case Part(sign, x) => RoundPack(s, sign, x, true)
  }

  // ---- addfp11 ----

  method Align(frac: Fpac, ediff: nat) returns (frac': Fpac)
    requires ediff < 60
    ensures frac'.Val() == frac.Val() / Pow2(ediff)
  {
    frac' := frac;
    if ediff != 0 {
      RshVVal(frac', ediff);
      frac' := RshV(frac', ediff);
    } else {
      assert Pow2(0) == 1;
    }
  }

  // Subtraction with normalising, or addition with one right shift; done reports
  // a difference of zero.
  method Combine(same: bool, ghost sign: nat, facfrac: Fpac, fsrcfrac: Fpac, exp0: int, wide: bool)
    returns (done: bool, frac: Fpac, exp: int)
    requires sign <= 1 && Normal59(facfrac.Val()) && fsrcfrac.Val() <= facfrac.Val()
    ensures Combined(same, sign, exp0, facfrac.Val(), fsrcfrac.Val())
         == if done then Whole(Fpac(0, 0)) else Part(sign, Guarded(exp, frac.Val()))
  {
    done := false;
    if !same {
      done, frac, exp := Subtract(facfrac, fsrcfrac, exp0, wide);
    } else {
      frac, exp := AddCarry(facfrac, fsrcfrac, exp0);
    }
  }

  method Subtract(facfrac: Fpac, fsrcfrac: Fpac, exp0: int, wide: bool) returns (done: bool, frac: Fpac, exp: int)
    requires fsrcfrac.Val() <= facfrac.Val() < 0x800_0000_0000_0000
    ensures done == (facfrac.Val() == fsrcfrac.Val())
    ensures !done ==> Guarded(exp, frac.Val()) == Normalised(Guarded(exp0, facfrac.Val() - fsrcfrac.Val()))
  {
    SubVal(fsrcfrac, facfrac);
    done, frac, exp := false, Sub(fsrcfrac, facfrac), exp0;
    if frac.h == 0 && frac.l == 0 {
      done := true;
    } else {
      frac, exp := Normalise(frac, exp, wide);
    }
  }

  method AddCarry(facfrac: Fpac, fsrcfrac: Fpac, exp0: int) returns (frac: Fpac, exp: int)
    requires facfrac.Val() < 0x800_0000_0000_0000 && fsrcfrac.Val() < 0x800_0000_0000_0000
    ensures Guarded(exp, frac.Val()) == Carried(exp0, facfrac.Val() + fsrcfrac.Val())
  {
    AddVal(fsrcfrac, facfrac);
    frac, exp := Add(fsrcfrac, facfrac), exp0;
    TopBit(frac);
    if (frac.h / 0x800_0000) % 2 == 1 {
      frac := Rsh1(frac);
      exp := exp + 1;
    }
  }

  method AddFp11(fpu: Fpu, fac0: Fpac, fsrc0: Fpac) returns (res: Fpac, newV: bool)
    modifies fpu
    ensures PackResult(res, newV, fpu.State()) == AddResult(old(fpu.State()), fac0, fsrc0)
  {
    var facp, fsrcp := fac0, fsrc0;
    if LtAp(facp, fsrcp) {
      facp, fsrcp := fsrcp, facp;
    }
    var facexp, fsrcexp := Exp(facp.h), Exp(fsrcp.h);
    if facexp == 0 {
      return if fsrcexp != 0 then fsrcp else Fpac(0, 0), false;
    }
    if fsrcexp == 0 {
      return facp, false;
    }
    MagOrder(facp, fsrcp);
    if facexp - fsrcexp >= 60 {
      return facp, false;
    }
    res, newV := AddOrdered(fpu, facp, fsrcp);
  }

  lemma OrderedIsCombined(p: Fpac, q: Fpac, ediff: nat)
    requires Mag(q) <= Mag(p) && Exp(p.h) != 0 && Exp(q.h) != 0 && ediff == Exp(p.h) - Exp(q.h) < 60
    ensures Normal59(8 * Frac(p).Val()) && Normal59(8 * Frac(q).Val())
    ensures var fq := 8 * Frac(q).Val() / Pow2(ediff);
            && 0 <= fq <= 8 * Frac(p).Val() && Sign(p.h) <= 1
            && AddFrac(p, q) == Combined(Sign(p.h) == Sign(q.h), Sign(p.h), Exp(p.h), 8 * Frac(p).Val(), fq)
  {
    AlignedBound(p, q);
    FracNormal(p);
    FracNormal(q);
  }

  // The part of addfp11 behind the tests for zero and for a distant operand.
  method AddOrdered(fpu: Fpu, p: Fpac, q: Fpac) returns (res: Fpac, newV: bool)
    requires Mag(q) <= Mag(p) && Exp(p.h) != 0 && Exp(q.h) != 0 && Exp(q.h) <= Exp(p.h) < Exp(q.h) + 60
    modifies fpu
    ensures PackResult(res, newV, fpu.State()) == SumResult(old(fpu.State()), AddFrac(p, q))
  {
    hide Pow2, RoundPack, Combined, Frac, Exp, Sign, LshGuard, Mag, AddFrac;
    var ediff := Exp(p.h) - Exp(q.h);
    OrderedIsCombined(p, q, ediff);
    LshGuardVal(Frac(p));
    LshGuardVal(Frac(q));
    var facfrac, fsrcfrac := LshGuard(Frac(p)), LshGuard(Frac(q));
    fsrcfrac := Align(fsrcfrac, ediff);
    var done, frac, exp := Combine(Sign(p.h) == Sign(q.h), Sign(p.h), facfrac, fsrcfrac, Exp(p.h), ediff <= 1);
    if done {
      return Fpac(0, 0), false;
    }
    res, newV := fpu.RoundAndPack(p, exp, frac, true);
  }

  // The result does not depend on which operand comes first.
  lemma AddCommutes(s: FpuState, a: Fpac, b: Fpac)
    ensures AddResult(s, a, b) == AddResult(s, b, a)
  {
    if Mag(a) == Mag(b) {
      MagOrder(a, b);
      MagOrder(b, a);
      assert Pow2(0) == 1;
      assert a.l == b.l && a.h % 0x8000_0000 == b.h % 0x8000_0000;
      if Sign(a.h) == Sign(b.h) {
        assert a == b;
      }
    }
  }

  // An operand of exponent zero adds nothing, whichever comes first, and two of them
  // give a clean zero.
  lemma AddZero(s: FpuState, a: Fpac, z: Fpac)
    requires Exp(z.h) == 0
    ensures AddResult(s, a, z) == AddResult(s, z, a) == PackResult(if Exp(a.h) == 0 then Fpac(0, 0) else a, false, s)
  {
    AddCommutes(s, a, z);
    if Mag(a) < Mag(z) {
      MagOrder(z, a);
    } else {
      MagOrder(a, z);
    }
  }

  // ---- Accuracy ----

  // The result r is within one unit in its last place of the exact value; it is
  // zero when that is.
  ghost predicate WithinOneUlp(r: Fpac, d: bool, exact: int) {
    if exact == 0 then r == Fpac(0, 0)
    else Exp(r.h) != 0 && Abs(SVal(r) - exact) < Ulp(d) * Pow2(Exp(r.h))
  }

  lemma RoundStep(x: Guarded, d: bool, round: bool) returns (p: nat)
    requires Normal59(x.g)
    ensures var r := Rounded(x, d, round);
            && 0 <= r.e - x.e <= 1 && p == Pow2(r.e - x.e)
            && x.g - p * Ulp(d) < p * Kept(r.g, d) <= x.g + p * Ulp(d) - 2
  {
    var r := Rounded(x, d, round);
    RoundedNormal(x, d, round);
    RoundingError(x, d, round);
    Pow2Small();
    p := Pow2(r.e - x.e);
  }

  // Rounding a fraction close below or above an exact value e of the same weight w.
  lemma RoundClose(x: Guarded, d: bool, round: bool, w: nat, e: int)
    requires Normal59(x.g) && -2 * w < e - x.g * w < w
    ensures var r := Rounded(x, d, round);
            && 0 <= r.e - x.e <= 1
            && var p := Pow2(r.e - x.e);
               Abs(Kept(r.g, d) * (p * w) - e) < Ulp(d) * (p * w)
  {
    var p := RoundStep(x, d, round);
    var k := Kept(Rounded(x, d, round).g, d);
    WeightClose(p * k, x.g, p * Ulp(d), w, e);
    MulGroup(p, k, w);
    MulGroup(p, Ulp(d), w);
  }

  lemma WeightClose(k: nat, g: nat, u: nat, w: nat, e: int)
    requires g - u < k <= g + u - 2 && -2 * w < e - g * w < w
    ensures Abs(k * w - e) < u * w
  {
    MulMonotone(w, g - u + 1, k);
    MulMonotone(w, k, g + u - 2);
    assert w * (g - u + 1) == g * w - u * w + w;
    assert w * (g + u - 2) == g * w + u * w - 2 * w;
  }

  // Alignment loses less than one unit of the larger exponent's weight.
  lemma AlignLoss(b: nat, d: nat, p1: nat, p2: nat)
    requires d > 0 && p2 > 0 && p1 == d * p2
    ensures 0 <= b * p2 - (b / d) * p1 < p1
  {
    var q, r := b / d, b % d;
    assert b == q * d + r;
    assert b * p2 == (q * d) * p2 + r * p2;
    assert (q * d) * p2 == q * p1;
    assert r * p2 < d * p2;
  }

  // The exact magnitude of a sum or difference of weighted fractions.
  function Exact(same: bool, e1: nat, e2: nat, a: nat, b: nat): int {
    if same then a * Pow2(e1) + b * Pow2(e2) else a * Pow2(e1) - b * Pow2(e2)
  }

  function ExactMag(p: Fpac, q: Fpac): int {
    Exact(Sign(p.h) == Sign(q.h), Exp(p.h), Exp(q.h), 8 * Frac(p).Val(), 8 * Frac(q).Val())
  }

  ghost predicate CloseTo(g: nat, w: nat, e: int) {
    -2 * w < e - g * w < w
  }

  lemma PartIsCombined(p: Fpac, q: Fpac)
    requires Mag(q) <= Mag(p) && AddFrac(p, q).Part?
    ensures Exp(q.h) <= Exp(p.h) && Normal59(8 * Frac(p).Val()) && Normal59(8 * Frac(q).Val())
    ensures Aligned(q, Exp(p.h) - Exp(q.h)) <= 8 * Frac(p).Val()
    ensures AddFrac(p, q) == Combined(Sign(p.h) == Sign(q.h), Sign(p.h), Exp(p.h), 8 * Frac(p).Val(),
                                      Aligned(q, Exp(p.h) - Exp(q.h)))
  {
    AlignedBound(p, q);
    FracNormal(p);
    FracNormal(q);
  }

  // The guarded fraction is within two units below, one above, of the exact value.
  lemma PartClose(p: Fpac, q: Fpac)
    requires Mag(q) <= Mag(p) && AddFrac(p, q).Part? && AddFrac(p, q).x.e >= 0
    ensures var x := AddFrac(p, q).x;
            CloseTo(x.g, Pow2(x.e), ExactMag(p, q)) && ExactMag(p, q) > 0
  {
    PartIsCombined(p, q);
    var e1, e2 := Exp(p.h), Exp(q.h);
    CombinedClose(Sign(p.h) == Sign(q.h), Sign(p.h), e1, e2, 8 * Frac(p).Val(), Frac(q).Val(),
                  Aligned(q, e1 - e2));
  }

  lemma CombinedClose(same: bool, sign: nat, e1: nat, e2: nat, a: nat, f: nat, fq: nat)
    requires sign <= 1 && Normal59(a) && Normal59(8 * f) && fq <= a && e2 <= e1
    requires fq == 8 * f / Pow2(e1 - e2)
    requires Combined(same, sign, e1, a, fq).Part? && Combined(same, sign, e1, a, fq).x.e >= 0
    ensures var e := Exact(same, e1, e2, a, 8 * f);
            var x := Combined(same, sign, e1, a, fq).x;
            CloseTo(x.g, Pow2(x.e), e) && e > 0
  {
    var b := 8 * f;
    if same {
      Pow2Add(e1 - e2, e2);
      SumClose(a, b, fq, Pow2(e1 - e2), Pow2(e1), Pow2(e2));
    } else {
      EightFold(f);
      DifferenceClose(a, b, fq, e1, e2);
    }
  }

  lemma EightFold(f: nat)
    ensures (8 * f) % 8 == 0
  {
  }

  lemma DifferenceClose(a: nat, b: nat, fq: nat, e1: nat, e2: nat)
    requires Normal59(a) && Normal59(b) && b % 8 == 0 && fq < a && e2 <= e1
    requires fq == b / Pow2(e1 - e2) && Normalised(Guarded(e1, a - fq)).e >= 0
    ensures var e := a * Pow2(e1) - b * Pow2(e2);
            var x := Normalised(Guarded(e1, a - fq));
            CloseTo(x.g, Pow2(x.e), e) && e > 0
  {
    Pow2Add(e1 - e2, e2);
    Pow2Small();
    if e1 - e2 >= 2 {
      Pow2Monotone(2, e1 - e2);
    }
    SubtractClose(a, b, fq, Pow2(e1 - e2), Pow2(e1), Pow2(e2));
    NormalisedWeight(a - fq, e1, a * Pow2(e1) - b * Pow2(e2));
  }

  lemma SumClose(a: nat, b: nat, fq: nat, d: nat, p1: nat, p2: nat)
    requires d > 0 && p2 > 0 && p1 == d * p2 && fq == b / d && a > 0
    ensures var e := a * p1 + b * p2;
            var s := a + fq;
            e > 0 && CloseTo(Carried(0, s).g, if s >= 0x800_0000_0000_0000 then 2 * p1 else p1, e)
  {
    AlignLoss(b, d, p1, p2);
    var s := a + fq;
    assert s * p1 == a * p1 + fq * p1;
    var h, r := s / 2, s % 2;
    assert s * p1 == h * (2 * p1) + r * p1;
    assert r * p1 <= p1;
    MulAtLeast(a, p1);
  }

  // The difference of the fractions, before normalising: exact when the exponents
  // are at most one apart, and keeping bit 57 otherwise.
  lemma SubtractClose(a: nat, b: nat, fq: nat, d: nat, p1: nat, p2: nat)
    requires Normal59(a) && Normal59(b) && b % 8 == 0 && fq < a
    requires d > 0 && p2 > 0 && p1 == d * p2 && fq == b / d
    requires d == 1 || d == 2 || d >= 4
    ensures var e := a * p1 - b * p2;
            var m := a - fq;
            && e > 0 && 0 <= m * p1 - e < p1
            && (e == m * p1 || m >= 0x200_0000_0000_0000)
  {
    AlignLoss(b, d, p1, p2);
    var m := a - fq;
    assert m * p1 == a * p1 - fq * p1;
    MulAtLeast(m, p1);
    if d <= 2 {
      ExactAlign(b, d, p1, p2);
    } else {
      QuarterAtMost(b, d);
    }
  }

  lemma QuarterAtMost(b: nat, p: nat)
    requires p >= 4
    ensures 0 <= b / p <= b / 4
  {
    var q := b / p;
    MulMonotone(q, 4, p);
    assert q * p <= b;
  }

  // Normalising moves weight from the exponent to the fraction; only an exact
  // difference needs more than one shift.
  lemma NormalisedWeight(m: nat, e1: nat, e: int)
    requires 0 < m < 0x800_0000_0000_0000 && Normalised(Guarded(e1, m)).e >= 0
    requires 0 <= m * Pow2(e1) - e < Pow2(e1)
    requires e == m * Pow2(e1) || m >= 0x200_0000_0000_0000
    ensures var x := Normalised(Guarded(e1, m)); CloseTo(x.g, Pow2(x.e), e)
  {
    var k := NormalisedValue(Guarded(e1, m));
    Pow2Add(k, e1 - k);
    Pow2Small();
    if k >= 2 {
      Pow2Monotone(2, k);
    }
    WeightMoved(m, Pow2(k), Pow2(e1 - k), Pow2(e1), e);
  }

  lemma WeightMoved(m: nat, pk: nat, w: nat, p1: nat, e: int)
    requires p1 == pk * w && w > 0 && m * pk < 0x800_0000_0000_0000
    requires 0 <= m * p1 - e < p1
    requires e == m * p1 || m >= 0x200_0000_0000_0000
    requires pk == 1 || pk == 2 || pk >= 4
    ensures CloseTo(m * pk, w, e)
  {
    assert (m * pk) * w == m * p1;
    if pk >= 4 {
      MulMonotone(m, 4, pk);
    }
  }

  // With exponents at most three apart nothing is shifted out: guard bits hold it.
  lemma ExactAlign(b: nat, d: nat, p1: nat, p2: nat)
    requires d == 1 || d == 2 || d == 4 || d == 8
    requires b % 8 == 0 && p1 == d * p2
    ensures b * p2 == (b / d) * p1 && b == (b / d) * d
  {
    var c := b / 8;
    var q := if d == 1 then 8 * c else if d == 2 then 4 * c else if d == 4 then 2 * c else c;
    assert b == q * d;
    DivModUnique(b, d, q, 0);
    MulGroup(q, d, p2);
  }

  predicate InRange(s: FpuState, sum: Sum) {
    sum.Part? ==> Fits(s, sum.x, true)
  }

  lemma PartResult(s: FpuState, sign: nat, x: Guarded, e: int)
    requires sign <= 1 && Normal59(x.g) && InRange(s, Part(sign, x)) && x.e >= 0 && CloseTo(x.g, Pow2(x.e), e)
    requires e > 0
    ensures WithinOneUlp(Stored(RoundPack(s, sign, x, true).f, s.fps.d), s.fps.d, Signed(sign, e))
  {
    var d, round := s.fps.d, !s.fps.t;
    var y := Rounded(x, d, round);
    RoundedNormal(x, d, round);
    RoundClose(x, d, round, Pow2(x.e), e);
    Pow2Add(y.e - x.e, x.e);
    StoredFields(sign, y, d);
    SignedClose(sign, Kept(y.g, d) * Pow2(y.e), e, Ulp(d) * Pow2(y.e));
  }

  lemma ExactIsSum(p: Fpac, q: Fpac)
    ensures SVal(p) + SVal(q) == Signed(Sign(p.h), ExactMag(p, q))
  {
  }

  // For operands in order of magnitude.
  lemma OrderedWithinOneUlp(s: FpuState, p: Fpac, q: Fpac)
    requires Mag(q) <= Mag(p) && Exp(p.h) != 0 && Exp(q.h) != 0
    requires !s.fps.d ==> p.l == 0 && q.l == 0
    requires InRange(s, AddFrac(p, q))
    ensures WithinOneUlp(Stored(AddResult(s, p, q).f, s.fps.d), s.fps.d, SVal(p) + SVal(q))
  {
    match AddFrac(p, q)
    case Part(sign, x) =>
      RoundedNormal(x, s.fps.d, !s.fps.t);
      PartClose(p, q);
      PartResult(s, sign, x, ExactMag(p, q));
      ExactIsSum(p, q);
    case Whole(f) =>
      WholeResult(s.fps.d, p, q);
  }

  lemma WholeResult(d: bool, p: Fpac, q: Fpac)
    requires Mag(q) <= Mag(p) && Exp(p.h) != 0 && Exp(q.h) != 0
    requires !d ==> p.l == 0 && q.l == 0
    requires AddFrac(p, q).Whole?
    ensures WithinOneUlp(Stored(AddFrac(p, q).f, d), d, SVal(p) + SVal(q))
  {
    MagOrder(p, q);
    if Exp(p.h) - Exp(q.h) >= 60 {
      FracNormal(p);
      FracNormal(q);
      UlpAtLeast(d, Pow2(Exp(p.h)));
      FarApart(Sign(p.h), 8 * Frac(p).Val(), Exp(p.h), Sign(q.h), 8 * Frac(q).Val(), Exp(q.h));
    } else {
      SameMagnitude(p, q);
    }
  }

  // Sixty exponents apart, the smaller operand is below one unit.
  lemma FarApart(sp: nat, a: nat, e1: nat, sq: nat, b: nat, e2: nat)
    requires Normal59(a) && Normal59(b) && e1 - e2 >= 60
    ensures var x, y := Signed(sp, a * Pow2(e1)), Signed(sq, b * Pow2(e2));
            x + y != 0 && Abs(y) < 8 * Pow2(e1)
  {
    hide Pow2;
    Pow2Add(e1 - e2, e2);
    LargePower(e1 - e2);
    FarWeights(a, b, Pow2(e1 - e2), Pow2(e2), Pow2(e1));
    FarSigned(sp, a * Pow2(e1), sq, b * Pow2(e2), Pow2(e1));
  }

  lemma FarSigned(sp: nat, x: int, sq: nat, y: int, p: nat)
    requires 0 <= y < p <= x
    ensures Signed(sp, x) + Signed(sq, y) != 0 && Abs(Signed(sq, y)) < 8 * p
  {
  }

  lemma LargePower(n: nat)
    requires n >= 59
    ensures Pow2(n) >= 0x800_0000_0000_0000
  {
    Pow2Consts();
    Pow2Monotone(59, n);
  }

  lemma FarWeights(a: nat, b: nat, d: nat, p2: nat, p1: nat)
    requires Normal59(a) && Normal59(b) && d >= 0x800_0000_0000_0000 && p2 > 0 && p1 == d * p2
    ensures 0 <= b * p2 < p1 <= a * p1
  {
    MulMonotone(p2, b + 1, d);
    assert p2 * (b + 1) == b * p2 + p2;
    MulAtLeast(a, p1);
  }

  lemma UlpAtLeast(d: bool, p: nat)
    ensures 8 * p <= Ulp(d) * p
  {
    MulMonotone(p, 8, Ulp(d));
  }

  // Closer together, a result of zero means equal magnitudes and opposite signs.
  lemma SameMagnitude(p: Fpac, q: Fpac)
    requires Mag(q) <= Mag(p) && Exp(p.h) != 0 && Exp(q.h) != 0 && Exp(p.h) - Exp(q.h) < 60
    requires AddFrac(p, q).Whole?
    ensures AddFrac(p, q).f == Fpac(0, 0) && SVal(p) + SVal(q) == 0
  {
    MagOrder(p, q);
    FracNormal(p);
    FracNormal(q);
    var d := Exp(p.h) - Exp(q.h);
    EqualAligned(8 * Frac(p).Val(), 8 * Frac(q).Val(), d);
  }

  lemma EqualAligned(a: nat, b: nat, d: nat)
    requires Normal59(a) && Normal59(b) && b / Pow2(d) == a
    ensures d == 0 && a == b
  {
    if d > 0 {
      Pow2Small();
      Pow2Monotone(1, d);
      HalfAtMost(b, Pow2(d));
    }
  }

  // For operands that are not zero, without overflow or underflow, the sum that is
  // stored is within one unit in the last place of the exact one.
  lemma AddWithinOneUlp(s: FpuState, a: Fpac, b: Fpac)
    requires Exp(a.h) != 0 && Exp(b.h) != 0
    requires !s.fps.d ==> a.l == 0 && b.l == 0
    requires InRange(s, if Mag(a) < Mag(b) then AddFrac(b, a) else AddFrac(a, b))
    ensures WithinOneUlp(Stored(AddResult(s, a, b).f, s.fps.d), s.fps.d, SVal(a) + SVal(b))
  {
    if Mag(a) < Mag(b) {
      OrderedWithinOneUlp(s, b, a);
    } else {
      OrderedWithinOneUlp(s, a, b);
    }
  }

  // The fraction x that is left of p and q is k places to the left of an exact
  // difference.
  ghost predicate ExactAt(p: Fpac, q: Fpac, x: Guarded, k: nat) {
    var d := Exp(p.h) - Exp(q.h);
    && d >= 0 && x.e == Exp(p.h) - k
    && x.g * Pow2(d) == (8 * Frac(p).Val() * Pow2(d) - 8 * Frac(q).Val()) * Pow2(k)
  }

  // With opposite signs and exponents at most three apart, the difference is exact
  // before rounding: no bit is lost in alignment or normalising, and the result is
  // zero only if the exact difference is.
  lemma CloseDifferenceExact(p: Fpac, q: Fpac) returns (k: nat)
    requires Mag(q) <= Mag(p) && Exp(p.h) != 0 && Exp(q.h) != 0
    requires Sign(p.h) != Sign(q.h) && Exp(p.h) - Exp(q.h) <= 3
    ensures match AddFrac(p, q)
            case Part(_, x) => ExactAt(p, q, x, k)
            case Whole(f) => f == Fpac(0, 0) && SVal(p) + SVal(q) == 0
  {
    hide AddFrac, SVal, Mag, ExactAt;
    if AddFrac(p, q).Part? {
      k := CloseFractionExact(p, q);
    } else {
      k := 0;
      SameMagnitude(p, q);
    }
  }

  lemma CloseFractionExact(p: Fpac, q: Fpac) returns (k: nat)
    requires Mag(q) <= Mag(p) && Exp(p.h) != 0 && Exp(q.h) != 0
    requires Sign(p.h) != Sign(q.h) && Exp(p.h) - Exp(q.h) <= 3
    requires AddFrac(p, q).Part?
    ensures ExactAt(p, q, AddFrac(p, q).x, k)
  {
    PartIsCombined(p, q);
    var d := Exp(p.h) - Exp(q.h);
    var a, f := 8 * Frac(p).Val(), Frac(q).Val();
    var fq := Aligned(q, d);
    Pow2Small();
    EightFold(f);
    ExactAlign(8 * f, Pow2(d), Pow2(d), 1);
    k := NormalisedValue(Guarded(Exp(p.h), a - fq));
    ExactDifference(a, 8 * f, fq, Pow2(d), Pow2(k));
  }

  lemma ExactDifference(a: nat, b: nat, fq: nat, d: nat, pk: nat)
    requires b == fq * d
    ensures ((a - fq) * pk) * d == (a * d - b) * pk
  {
    assert (a - fq) * d == a * d - fq * d;
    assert ((a - fq) * pk) * d == ((a - fq) * d) * pk;
  }
}
