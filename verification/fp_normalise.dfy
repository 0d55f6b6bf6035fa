// Normalising a guarded fraction by left shifts: coarse shifts of 24, 12 and 6
// bits first, then single bits.
module FpNormalise {
  import opened Arith
  import opened FpWord
  import opened FpPack

  // The fraction shifted up to bit 58, with the exponent following.
  function Normalised(x: Guarded): Guarded
    requires x.g > 0
    decreases 0x400_0000_0000_0000 - x.g
  {
    if x.g >= 0x400_0000_0000_0000 then x else Normalised(Guarded(x.e - 1, 2 * x.g))
  }

  // Normalising keeps the value and terminates with the hidden bit in place.
  lemma {:induction false} NormalisedValue(x: Guarded) returns (k: nat)
    requires 0 < x.g < 0x800_0000_0000_0000
    ensures Normalised(x) == Guarded(x.e - k, x.g * Pow2(k)) && Normal59(Normalised(x).g)
    decreases 0x400_0000_0000_0000 - x.g
  {
    if x.g >= 0x400_0000_0000_0000 {
      k := 0;
    } else {
      k := NormalisedValue(Guarded(x.e - 1, 2 * x.g));
      k := k + 1;
      DoubleLeft(x.g, Pow2(k - 1));
    }
  }

  lemma NormalisedNormal(x: Guarded)
    requires 0 < x.g < 0x800_0000_0000_0000
    ensures Normal59(Normalised(x).g)
  {
    var k := NormalisedValue(x);
  }

  lemma DoubleLeft(g: nat, p: nat)
    ensures (2 * g) * p == g * (2 * p)
  {
  }

  // A shift that stays below bit 59 is part of normalising.
  lemma {:induction false} ShiftThenNormalise(x: Guarded, k: nat, g': nat)
    requires x.g > 0 && g' == x.g * Pow2(k) && g' < 0x800_0000_0000_0000
    ensures g' > 0 && Normalised(x) == Normalised(Guarded(x.e - k, g'))
    decreases k
  {
    if k > 0 {
      DoubleLeft(x.g, Pow2(k - 1));
      MulMonotone(x.g, 2, Pow2(k));
      if x.g < 0x400_0000_0000_0000 {
        ShiftThenNormalise(Guarded(x.e - 1, 2 * x.g), k - 1, g');
      }
    }
  }

  // The high half has no bit at n or above exactly when it is below 2^n.
  lemma MaskTest(h: nat, n: nat, m: nat)
    requires n <= 27 && h < 0x800_0000 && m == 0x800_0000 - Pow2(n)
    ensures And(h, m) == 0 <==> h < Pow2(n)
  {
    Pow2Consts();
    Pow2Monotone(n, 27);
    AndHighMask(h, n, 27, m);
    ModSelf(h, Pow2(n));
  }

  lemma ModSelf(h: nat, p: nat)
    requires p > 0
    ensures h - h % p == 0 <==> h < p
  {
    if h < p {
      DivModUnique(h, p, 0, h);
    }
  }

  // One coarse step: shift by k when the top bits down to bit 32 + n are clear.
  method CoarseStep(frac: Fpac, exp: int, k: nat, n: nat, mask: nat) returns (frac': Fpac, exp': int)
    requires 0 < frac.Val() < 0x800_0000_0000_0000
    requires 1 <= k < 32 && n + k == 27 && mask == 0x800_0000 - Pow2(n)
    ensures 0 < frac'.Val() < 0x800_0000_0000_0000
    ensures Normalised(Guarded(exp', frac'.Val())) == Normalised(Guarded(exp, frac.Val()))
  {
    frac', exp' := frac, exp;
    MaskTest(frac'.h, n, mask);
    if And(frac'.h, mask) == 0 {
      CoarseFits(frac'.Val(), frac'.h, k, n);
      LshVVal(frac', k);
      ShiftThenNormalise(Guarded(exp, frac.Val()), k, frac.Val() * Pow2(k));
      frac' := LshV(frac', k);
      exp' := exp' - k;
    }
  }

  lemma CoarseFits(v: nat, h: u32, k: nat, n: nat)
    requires n + k == 27 && h < Pow2(n) && v < (h + 1) * 0x1_0000_0000
    ensures v * Pow2(k) < 0x800_0000_0000_0000
  {
    Pow2Add(n, k);
    Pow2Consts();
    ScaleBelow(v, Pow2(n), Pow2(k));
  }

  lemma ScaleBelow(v: nat, p: nat, q: nat)
    requires v < p * 0x1_0000_0000 && p * q == 0x800_0000 && q > 0
    ensures v * q < 0x800_0000_0000_0000
  {
    MulMonotone(q, v + 1, p * 0x1_0000_0000);
    assert q * (p * 0x1_0000_0000) == (p * q) * 0x1_0000_0000;
    assert q * (v + 1) == v * q + q;
  }

  // The normalising code shared by add and mod; wide selects the coarse shifts.
  method Normalise(fracp: Fpac, exp0: int, wide: bool) returns (frac: Fpac, exp: int)
    requires 0 < fracp.Val() < 0x800_0000_0000_0000
    ensures Guarded(exp, frac.Val()) == Normalised(Guarded(exp0, fracp.Val()))
  {
    frac, exp := fracp, exp0;
    if wide {
      Pow2Small();
      Pow2Add(3, 12);
      Pow2Add(15, 6);
      frac, exp := CoarseStep(frac, exp, 24, 3, 0x7FF_FFF8);
      frac, exp := CoarseStep(frac, exp, 12, 15, 0x7FF_8000);
      frac, exp := CoarseStep(frac, exp, 6, 21, 0x7E0_0000);
    }
    HiddenBit(frac);
    while (frac.h / 0x400_0000) % 2 == 0
      invariant 0 < frac.Val() < 0x800_0000_0000_0000
      invariant Normalised(Guarded(exp, frac.Val())) == Normalised(Guarded(exp0, fracp.Val()))
      invariant (frac.h / 0x400_0000) % 2 == 1 <==> frac.Val() >= 0x400_0000_0000_0000
      decreases 0x400_0000_0000_0000 - frac.Val()
    {
      Lsh1Val(frac);
      frac := Lsh1(frac);
      exp := exp - 1;
      HiddenBit(frac);
    }
  }
}
