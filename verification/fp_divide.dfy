// FP11 divide: a restoring loop over guarded fractions with an early exit when
// the remainder vanishes.
module FpDivide {
  import opened Arith
  import opened FpWord
  import opened FpPack
  import opened FpAccuracy

  // Quotient bits: 59 in double precision, 27 in single.
  function Count(d: bool): nat {
    if d then 59 else 27
  }

  // ---- The restoring recurrence ----

  // The doubled remainder and the quotient after k subtract-or-restore steps.
  function RemAt(u: nat, v: nat, k: nat): (r: nat) {
    if k == 0 then u
    else var r := RemAt(u, v, k - 1); 2 * (if r >= v then r - v else r)
  }

  function QuoAt(u: nat, v: nat, k: nat): (q: nat) {
    if k == 0 then 0
    else 2 * QuoAt(u, v, k - 1) + (if RemAt(u, v, k - 1) >= v then 1 else 0)
  }

  // Nothing leaves 60 bits, and k quotient bits fit in k bits.
  lemma {:induction false} Bounds(u: nat, v: nat, k: nat)
    requires u < 2 * v
    ensures RemAt(u, v, k) < 2 * v && QuoAt(u, v, k) < Pow2(k)
  {
    if k > 0 {
      Bounds(u, v, k - 1);
    }
  }

  // u * 2^k is split exactly into quotient and remainder.
  lemma {:induction false} Split(u: nat, v: nat, k: nat)
    ensures u * Pow2(k) == 2 * (QuoAt(u, v, k) * v) + RemAt(u, v, k)
  {
    if k > 0 {
      Split(u, v, k - 1);
      SplitStep(u, v, Pow2(k - 1), QuoAt(u, v, k - 1), RemAt(u, v, k - 1), QuoAt(u, v, k));
    }
  }

  lemma SplitStep(u: nat, v: nat, p: nat, q: nat, r: nat, q': nat)
    requires u * p == 2 * (q * v) + r && q' == 2 * q + (if r >= v then 1 else 0)
    ensures u * (2 * p) == 2 * (q' * v) + 2 * (if r >= v then r - v else r)
  {
    assert u * (2 * p) == 2 * (u * p);
    assert (2 * q) * v == 2 * (q * v);
    assert (2 * q + 1) * v == 2 * (q * v) + v;
  }

  // The quotient of the guarded fractions, truncated.
  function Quotient(u: nat, v: nat, count: nat): nat
    requires v > 0 && count > 0
  {
    u * Pow2(count - 1) / v
  }

  lemma QuotientIs(u: nat, v: nat, count: nat)
    requires 0 < v && u < 2 * v && count > 0
    ensures QuoAt(u, v, count) == Quotient(u, v, count)
  {
    Split(u, v, count);
    Bounds(u, v, count);
    var r := RemAt(u, v, count - 1);
    var r' := if r >= v then r - v else r;
    assert RemAt(u, v, count) == 2 * r';
    HalvedSplit(u, v, Pow2(count - 1), Pow2(count), QuoAt(u, v, count), r');
  }

  lemma HalvedSplit(u: nat, v: nat, p: nat, p2: nat, q: nat, r: nat)
    requires p2 == 2 * p && u * p2 == 2 * (q * v) + 2 * r && r < v
    ensures u * p / v == q
  {
    assert u * p2 == 2 * (u * p);
    DivModUnique(u * p, v, q, r);
  }

  // Once the remainder is zero, the steps left over only shift the quotient.
  lemma {:induction false} EarlyExit(u: nat, v: nat, k: nat, i: nat)
    requires v > 0 && RemAt(u, v, k) == 0
    ensures RemAt(u, v, k + i) == 0 && QuoAt(u, v, k + i) == QuoAt(u, v, k) * Pow2(i)
  {
    if i > 0 {
      EarlyExit(u, v, k, i - 1);
      DoubleFactor(QuoAt(u, v, k), Pow2(i - 1));
    }
  }

  lemma DoubleFactor(q: nat, p: nat)
    ensures q * (2 * p) == 2 * (q * p)
  {
  }

  // ---- The loop on the halves ----

  // One turn: in single precision quotient bits enter the high half.
  method DivStep(d: bool, facfrac: Fpac, fsrcfrac: Fpac, quo: Fpac) returns (facfrac': Fpac, quo': Fpac)
    requires facfrac.Val() < 2 * fsrcfrac.Val() < 0x1000_0000_0000_0000
    requires quo.Val() < 0x800_0000_0000_0000 && (!d ==> quo.l == 0)
    ensures facfrac'.Val()
         == 2 * (if facfrac.Val() >= fsrcfrac.Val() then facfrac.Val() - fsrcfrac.Val() else facfrac.Val())
    ensures !d ==> quo'.l == 0
    ensures quo'.Val() == 2 * quo.Val()
              + (if facfrac.Val() < fsrcfrac.Val() then 0 else if d then 1 else 0x1_0000_0000)
  {
    Lsh1Val(quo);
    facfrac', quo' := facfrac, Lsh1(quo);
    Lsh1Low(quo);
    if !Lt(facfrac', fsrcfrac) {
      SubVal(fsrcfrac, facfrac');
      facfrac' := Sub(fsrcfrac, facfrac');
      if d {
        quo' := Fpac(quo'.h, quo'.l / 2 * 2 + 1);
      } else {
        quo' := Fpac(quo'.h / 2 * 2 + 1, quo'.l);
      }
    }
    Lsh1Val(facfrac');
    facfrac' := Lsh1(facfrac');
  }

  // A left shift leaves the lowest bit clear, and an empty low half leaves the
  // lowest bit of the high half clear.
  lemma Lsh1Low(s: Fpac)
    requires s.Val() < 0x8000_0000_0000_0000
    ensures Lsh1(s).l % 2 == 0
    ensures s.l == 0 ==> Lsh1(s).l == 0 && Lsh1(s).h % 2 == 0
  {
    Lsh1Val(s);
  }

  // Where the quotient stands: in the whole word, or in the high half.
  function Placed(q: nat, d: bool): nat {
    if d then q else q * 0x1_0000_0000
  }

  lemma PlacedBelow(q: nat, k: nat, d: bool)
    requires q < Pow2(k) && k <= Count(d)
    ensures Placed(q, d) < 0x800_0000_0000_0000
  {
    Pow2Monotone(k, Count(d));
    Pow2Consts();
  }

  // The quotient loop and the shift after an early exit.
  method QuotientLoop(d: bool, facfrac0: Fpac, fsrcfrac: Fpac) returns (quo: Fpac)
    requires Normal59(facfrac0.Val()) && Normal59(fsrcfrac.Val())
    ensures quo.Val() == Placed(Quotient(facfrac0.Val(), fsrcfrac.Val(), Count(d)), d)
    ensures quo.Val() < 0x800_0000_0000_0000
  {
    quo := Fpac(0, 0);
    var facfrac := facfrac0;
    var count := Count(d);
    var i := count;
    ghost var u, v := facfrac0.Val(), fsrcfrac.Val();
    while i > 0 && (facfrac.h != 0 || facfrac.l != 0)
      invariant 0 <= i <= count
      invariant facfrac.Val() == RemAt(u, v, count - i)
      invariant quo.Val() == Placed(QuoAt(u, v, count - i), d)
      invariant !d ==> quo.l == 0
    {
      Bounds(u, v, count - i);
      PlacedBelow(QuoAt(u, v, count - i), count - i, d);
      facfrac, quo := DivStep(d, facfrac, fsrcfrac, quo);
      i := i - 1;
    }
    QuotientIs(u, v, count);
    Bounds(u, v, count);
    PlacedBelow(QuoAt(u, v, count), count, d);
    if i > 0 {
      EarlyExit(u, v, count - i, i);
      ShiftPlaced(QuoAt(u, v, count - i), i, d, quo, QuoAt(u, v, count));
      quo := LshV(quo, i);
    }
  }

  lemma ShiftPlaced(q: nat, i: nat, d: bool, quo: Fpac, q': nat)
    requires 1 <= i < 64 && quo.Val() == Placed(q, d)
    requires q' == q * Pow2(i) && Placed(q', d) < 0x800_0000_0000_0000
    ensures LshV(quo, i).Val() == Placed(q', d)
  {
    MulGroup(q, 0x1_0000_0000, Pow2(i));
    LshVVal(quo, i);
  }

  // ---- divfp11 ----

  // The quotient in guarded position, normalised by at most one left shift.
  function DivGuarded(a: Fpac, b: Fpac, d: bool): Guarded {
    FracNormal(b);
    var q := Quotient(8 * Frac(a).Val(), 8 * Frac(b).Val(), Count(d));
    Normalise1(Guarded(Exp(a.h) - Exp(b.h) + 0x81, Placed(q, d)))
  }

  // A quotient of normalised fractions is above a half and below two: one shift
  // is enough.
  lemma QuotientRange(u: nat, v: nat, d: bool)
    requires Normal59(u) && Normal59(v)
    ensures 0x200_0000_0000_0000 <= Placed(Quotient(u, v, Count(d)), d) < 0x800_0000_0000_0000
  {
    QuotientIs(u, v, Count(d));
    Bounds(u, v, Count(d));
    PlacedBelow(QuoAt(u, v, Count(d)), Count(d), d);
    AtLeastHalf(u, v, Pow2(Count(d) - 2), Pow2(Count(d) - 1));
    Pow2Add(1, 24);
    Pow2Add(1, 56);
    Pow2Consts();
  }

  lemma AtLeastHalf(u: nat, v: nat, p: nat, p2: nat)
    requires v > 0 && 2 * u >= v && p2 == 2 * p
    ensures u * p2 / v >= p
  {
    assert u * p2 == (2 * u) * p;
    MulMonotone(p, v, 2 * u);
    QuotientAtLeast(u * p2, v, p);
  }

  lemma QuotientAtLeast(x: nat, v: nat, p: nat)
    requires v > 0 && p * v <= x
    ensures x / v >= p
  {
    if x / v < p {
      MulMonotone(v, x / v + 1, p);
    }
  }

  lemma DivGuardedNormal(a: Fpac, b: Fpac, d: bool)
    ensures Normal59(DivGuarded(a, b, d).g)
  {
    FracNormal(a);
    FracNormal(b);
    QuotientRange(8 * Frac(a).Val(), 8 * Frac(b).Val(), d);
  }

  function DivResult(s: FpuState, a: Fpac, b: Fpac): PackResult {
    if Exp(a.h) == 0 then PackResult(Fpac(0, 0), false, s)
    else RoundPack(s, SignXor(a.h, b.h), DivGuarded(a, b, s.fps.d), true)
  }

  // divfp11; the caller has checked the divisor for zero.
  method DivFp11(fpu: Fpu, facp: Fpac, fsrcp: Fpac) returns (res: Fpac, newV: bool)
    requires Exp(fsrcp.h) != 0
    modifies fpu
    ensures PackResult(res, newV, fpu.State()) == DivResult(old(fpu.State()), facp, fsrcp)
  {
    var fsrcexp, facexp := Exp(fsrcp.h), Exp(facp.h);
    if facexp == 0 {
      return Fpac(0, 0), false;
    }
    FracNormal(facp);
    FracNormal(fsrcp);
    LshGuardVal(Frac(facp));
    LshGuardVal(Frac(fsrcp));
    var facfrac, fsrcfrac := LshGuard(Frac(facp)), LshGuard(Frac(fsrcp));
    facexp := facexp - fsrcexp + 0x80 + 1;
    var sign := SignXor(facp.h, fsrcp.h);
    var quo := QuotientLoop(fpu.fps.d, facfrac, fsrcfrac);
    quo, facexp := NormaliseOnce(quo, facexp);
    DivGuardedNormal(facp, fsrcp, fpu.fps.d);
    res, newV := fpu.RoundAndPack(Fpac(SignWord(sign), facp.l), facexp, quo, true);
  }

  // A dividend of exponent zero gives a clean zero.
  lemma DivOfZero(s: FpuState, a: Fpac, b: Fpac)
    requires Exp(a.h) == 0
    ensures DivResult(s, a, b) == PackResult(Fpac(0, 0), false, s)
  {
  }

  // ---- Accuracy ----

  // The weight of the last quotient bit.
  function LastBit(d: bool): nat {
    if d then 1 else 0x1_0000_0000
  }

  // The placed quotient is the exact one, truncated at its last bit.
  lemma PlacedTruncates(u: nat, v: nat, d: bool)
    requires v > 0
    ensures var g := Placed(Quotient(u, v, Count(d)), d);
            && g % LastBit(d) == 0
            && g * v <= u * 0x400_0000_0000_0000 < (g + LastBit(d)) * v
  {
    hide Pow2;
    Pow2Add(2, 56);
    Pow2Add(2, 24);
    Pow2Consts();
    var q := Quotient(u, v, Count(d));
    if d {
      TruncatedBy(u * 0x400_0000_0000_0000, v);
    } else {
      TruncatedBy(u * 0x400_0000, v);
      ScaleTruncated(u * 0x400_0000, v, q);
      DivModUnique(q * 0x1_0000_0000, 0x1_0000_0000, q, 0);
    }
  }

  lemma ScaleTruncated(n: nat, v: nat, q: nat)
    requires q * v <= n < (q + 1) * v
    ensures q * 0x1_0000_0000 * v <= n * 0x1_0000_0000 < (q * 0x1_0000_0000 + 0x1_0000_0000) * v
  {
    assert q * 0x1_0000_0000 * v == q * v * 0x1_0000_0000;
    assert (q * 0x1_0000_0000 + 0x1_0000_0000) * v == (q + 1) * v * 0x1_0000_0000;
  }

  // A quotient that neither overflows nor underflows is stored within one unit in the
  // last place of the exact one: multiplied by the divisor, it is that close to the
  // dividend.
  lemma DivWithinOneUlp(s: FpuState, a: Fpac, b: Fpac)
    requires Exp(a.h) != 0 && Exp(b.h) != 0 && Fits(s, DivGuarded(a, b, s.fps.d), true)
    ensures var r := Stored(DivResult(s, a, b).f, s.fps.d);
            && Exp(r.h) != 0
            && Abs(SVal(r) * SVal(b) - SVal(a) * Pow2(187)) < Ulp(s.fps.d) * Pow2(Exp(r.h)) * Abs(SVal(b))
  {
    hide DivResult, Stored, Frac, Exp, Sign, Pow2, DivGuarded, Fits, Ulp;
    DivStored(s, a, b);
    var r, e := Stored(DivResult(s, a, b).f, s.fps.d), Exp(a.h) - Exp(b.h) + 0x81;
    QuotientWeights(Exp(a.h), Exp(b.h), e);
    QuotientScaled(Sign(a.h), Sign(b.h), 8 * Frac(r).Val() * Pow2(Exp(r.h)), 8 * Frac(a).Val(), 8 * Frac(b).Val(),
                   Pow2(Exp(a.h)), Pow2(Exp(b.h)), Pow2(e), Pow2(187), Ulp(s.fps.d) * Pow2(Exp(r.h)));
  }

  lemma DivStored(s: FpuState, a: Fpac, b: Fpac)
    requires Exp(a.h) != 0 && Exp(b.h) != 0 && Fits(s, DivGuarded(a, b, s.fps.d), true)
    ensures var r, e := Stored(DivResult(s, a, b).f, s.fps.d), Exp(a.h) - Exp(b.h) + 0x81;
            var u, v := 8 * Frac(a).Val(), 8 * Frac(b).Val();
            && e >= 0 && Exp(r.h) != 0 && Sign(a.h) <= 1 && Sign(b.h) <= 1
            && Sign(r.h) == (if Sign(a.h) == Sign(b.h) then 0 else 1)
            && Abs(8 * Frac(r).Val() * Pow2(Exp(r.h)) * v - u * 0x400_0000_0000_0000 * Pow2(e))
               < Ulp(s.fps.d) * Pow2(Exp(r.h)) * v
  {
    hide Stored, Frac, Pow2, Fits, RoundPack, Normalise1, Exp, Quotient, Placed, DivResult, DivGuarded, Ulp, Sign;
    FracNormal(a);
    FracNormal(b);
    var u, v, d := 8 * Frac(a).Val(), 8 * Frac(b).Val(), s.fps.d;
    var x := Guarded(Exp(a.h) - Exp(b.h) + 0x81, Placed(Quotient(u, v, Count(d)), d));
    DivResultIs(s, a, b);
    QuotientRange(u, v, d);
    PlacedTruncates(u, v, d);
    SignsOf(a.h, b.h);
    StoredClose(s, SignXor(a.h, b.h), x, true, LastBit(d), u * 0x400_0000_0000_0000, v);
  }

  lemma DivResultIs(s: FpuState, a: Fpac, b: Fpac)
    requires Exp(a.h) != 0
    ensures Normal56(Frac(a).Val()) && Normal56(Frac(b).Val())
    ensures var x := Guarded(Exp(a.h) - Exp(b.h) + 0x81,
                             Placed(Quotient(8 * Frac(a).Val(), 8 * Frac(b).Val(), Count(s.fps.d)), s.fps.d));
            && DivGuarded(a, b, s.fps.d) == Normalise1(x)
            && DivResult(s, a, b) == RoundPack(s, SignXor(a.h, b.h), Normalise1(x), true)
  {
    hide Frac, Exp, Quotient, Placed, RoundPack, Normalise1;
    FracNormal(a);
    FracNormal(b);
  }

  lemma QuotientWeights(e1: nat, e2: nat, e: nat)
    requires e + e2 == e1 + 0x81
    ensures Pow2(e) * Pow2(e2) * 0x400_0000_0000_0000 == Pow2(e1) * Pow2(187)
  {
    hide Pow2;
    Places58();
    Pow2Add(e, e2);
    Pow2Add(e1, 0x81);
    Pow2Add(0x81, 58);
    MoveFactor(Pow2(e) * Pow2(e2), Pow2(e1), Pow2(0x81), Pow2(58), Pow2(187));
  }

  lemma Places58()
    ensures Pow2(58) == 0x400_0000_0000_0000
  {
    hide Pow2;
    Pow2Consts();
    Pow2Add(2, 56);
  }

  lemma MoveFactor(x: nat, a: nat, b: nat, c: nat, bc: nat)
    requires x == a * b && bc == b * c
    ensures x * c == a * bc
  {
    MulGroup(a, b, c);
  }

  lemma QuotientScaled(s1: nat, s2: nat, r: nat, u: nat, v: nat, w1: nat, w2: nat, w: nat, k: nat, ulp: nat)
    requires s1 <= 1 && s2 <= 1 && w2 > 0 && w * w2 * 0x400_0000_0000_0000 == w1 * k
    requires Abs(r * v - u * 0x400_0000_0000_0000 * w) < ulp * v
    ensures Abs(Signed(if s1 == s2 then 0 else 1, r) * Signed(s2, v * w2) - Signed(s1, u * w1) * k)
            < ulp * Abs(Signed(s2, v * w2))
  {
    Scaled(r, v, u * 0x400_0000_0000_0000 * w, ulp, w2);
    QuotientRegroup(u, w1, w2, w, k);
    SignedQuotient(s1, s2, r, v * w2, u * w1, k);
  }

  lemma QuotientRegroup(u: nat, w1: nat, w2: nat, w: nat, k: nat)
    requires w * w2 * 0x400_0000_0000_0000 == w1 * k
    ensures u * 0x400_0000_0000_0000 * w * w2 == u * w1 * k
  {
    MulGroup(u, w1, k);
    var c := 0x400_0000_0000_0000;
    MulGroup(u * c, w, w2);
    MulGroup(u, c, w * w2);
  }

  lemma SignedQuotient(s1: nat, s2: nat, r: nat, y: nat, x: nat, k: nat)
    requires s1 <= 1 && s2 <= 1
    ensures Abs(Signed(if s1 == s2 then 0 else 1, r) * Signed(s2, y) - Signed(s1, x) * k) == Abs(r * y - x * k)
    ensures Abs(Signed(s2, y)) == y
  {
  }
}
