// FP11 integer conversion: LDCif and STCfi on a left-justified 32-bit operand.
module FpConvert {
  import opened Arith
  import opened FpWord
  import opened FpPack
  import opened FpAccuracy

  // ---- Loading an integer ----

  function Magnitude(raw: u32): u32 {
    if raw >= 0x8000_0000 then 0x1_0000_0000 - raw else raw
  }

  // Left shifts until bit 31 is set.
  function Lead(m: nat): nat
    requires 0 < m < 0x1_0000_0000
    decreases 0x8000_0000 - m
  {
    if m >= 0x8000_0000 then 0 else 1 + Lead(2 * m)
  }

  lemma {:induction false} LeadScales(m: nat)
    requires 0 < m < 0x1_0000_0000
    ensures 0x8000_0000 <= m * Pow2(Lead(m)) < 0x1_0000_0000 && Lead(m) < 32
    decreases 0x8000_0000 - m
  {
    if m < 0x8000_0000 {
      LeadScales(2 * m);
      DoubleIn(m, Pow2(Lead(2 * m)));
    }
    if Lead(m) >= 32 {
      Pow2Consts();
      Pow2Monotone(32, Lead(m));
      MulMonotone(Pow2(Lead(m)), 1, m);
    }
  }

  lemma DoubleIn(m: nat, p: nat)
    ensures (2 * m) * p == m * (2 * p)
  {
  }

  // The exponent of an integer with bit 31 set.
  function Top(long: bool): nat {
    if long then 0x80 + 32 else 0x80 + 16
  }

  // Sign, exponent, and 32 significant bits l placed below the hidden bit.
  function Unrounded(sign: nat, e: nat, l: u32): Fpac
    requires sign <= 1 && e < 0x100
  {
    Fpac(sign * 0x8000_0000 + e * 0x80_0000 + (l / 0x100) % 0x80_0000, l % 0x100 * 0x100_0000)
  }

  // What the accumulator holds after LDCif; single precision rounds unless
  // truncating, and keeps the high half.
  function Loaded(raw: u32, long: bool, d: bool, t: bool): Fpac {
    if raw == 0 then Fpac(0, 0)
    else
      var m := Magnitude(raw);
      LeadScales(m);
      Held(Unrounded(Sign(raw), Top(long) - Lead(m), m * Pow2(Lead(m))), d, t)
  }

  function Held(f: Fpac, d: bool, t: bool): Fpac {
    if d then f
    else if t || f.l < 0x8000_0000 then Fpac(f.h, 0)
    else Fpac(NextHigh(f.h), 0)
  }

  function NextHigh(h: u32): u32 {
    var n: int := h + 1;
    n % 0x1_0000_0000
  }

  // roundfp11: half a unit of the high half is added; a sign that flips is an
  // overflow, and is restored.
  function RoundedF(s: FpuState, f: Fpac): PackResult {
    var r := Add(Fpac(0, 0x8000_0000), f);
    if Sign(r.h) == Sign(f.h) then PackResult(r, false, s)
    else
      PackResult(if Masked(s.fps, FEC_OVFLO) then Fpac(0, 0) else Fpac((r.h + 0x8000_0000) % 0x1_0000_0000, r.l),
                 true, Report(s, FEC_OVFLO))
  }

  method RoundFp11(fpu: Fpu, f: Fpac) returns (r: Fpac, newV: bool)
    modifies fpu
    ensures PackResult(r, newV, fpu.State()) == RoundedF(old(fpu.State()), f)
  {
    var outf := Add(Fpac(0, 0x8000_0000), f);
    if Sign(outf.h) != Sign(f.h) {
      outf := Fpac((outf.h + 0x8000_0000) % 0x1_0000_0000, outf.l);
      var masked := fpu.FpNoTrap(FEC_OVFLO);
      return if masked then Fpac(0, 0) else outf, true;
    }
    return outf, false;
  }

  // Below the largest exponent, rounding to single precision carries into the high
  // half exactly when the low half is a half or more, and never overflows.
  lemma RoundedFInRange(s: FpuState, f: Fpac)
    requires Exp(f.h) < 0xFF
    ensures var r := RoundedF(s, f);
            && r.f.h == (if f.l < 0x8000_0000 then f.h else f.h + 1)
            && !r.v && r.s == s
  {
    var sg, e, c := f.h / 0x8000_0000, Exp(f.h), f.h % 0x80_0000;
    HighFields(f.h);
    AddVal(Fpac(0, 0x8000_0000), f);
    var h := if f.l < 0x8000_0000 then f.h else f.h + 1;
    assert Add(Fpac(0, 0x8000_0000), f).h == h;
    DivModUnique(h, 0x8000_0000, sg, h - sg * 0x8000_0000);
  }

  // Rounding overflows exactly on the largest exponent with a fraction of all ones and a
  // low half of a half or more. Otherwise what single precision stores is within half a
  // unit of the operand.
  lemma RoundedFClose(s: FpuState, f: Fpac)
    ensures var r := RoundedF(s, f);
            && (r.v <==> Exp(f.h) == 0xFF && f.h % 0x80_0000 == 0x7F_FFFF && f.l >= 0x8000_0000)
            && (!r.v ==> r.s == s && Sign(r.f.h) == Sign(f.h)
                         && Abs(SVal(Stored(r.f, false)) - SVal(f)) <= Ulp(false) / 2 * Pow2(Exp(f.h)))
  {
    hide Pow2;
    var r, sg, e, c := RoundedF(s, f), Sign(f.h), Exp(f.h), f.h % 0x80_0000;
    HighFields(f.h);
    AddVal(Fpac(0, 0x8000_0000), f);
    if e == 0xFF && c == 0x7F_FFFF && f.l >= 0x8000_0000 {
      assert Sign(Add(Fpac(0, 0x8000_0000), f).h) != sg;
    } else {
      var h: int := if f.l < 0x8000_0000 then f.h else f.h + 1;
      DivModUnique(h, 0x8000_0000, sg, h - sg * 0x8000_0000);
      assert Add(Fpac(0, 0x8000_0000), f).h == h;
      assert Stored(r.f, false) == Fpac(h, 0);
      NearHigh(f, h);
    }
  }

  // A high half that is the operand's, or the next one when the low half rounds up.
  lemma NearHigh(f: Fpac, h: u32)
    requires h == (if f.l < 0x8000_0000 then f.h else f.h + 1) && Sign(h) == Sign(f.h)
    ensures Abs(SVal(Fpac(h, 0)) - SVal(f)) <= Ulp(false) / 2 * Pow2(Exp(f.h))
  {
    hide Pow2;
    var sg, e, c := Sign(f.h), Exp(f.h), f.h % 0x80_0000;
    HighFields(f.h);
    var n := h - sg * 0x8000_0000 - e * 0x80_0000;
    var e' := if n < 0x80_0000 then e else e + 1;
    var c' := if n < 0x80_0000 then n else 0;
    DivModUnique(h, 0x80_0000, sg * 0x100 + e', c');
    DivModUnique(sg * 0x100 + e', 0x100, sg, e');
    PlaceUp(e);
    var v, v' := 8 * Frac(f).Val(), 8 * ((n + 0x80_0000) * 0x1_0000_0000);
    assert 8 * Frac(Fpac(h, 0)).Val() * Pow2(e') == v' * Pow2(e);
    ScaledDistance(sg, v', v, 0x4_0000_0000, Pow2(e));
  }

  lemma PlaceUp(e: nat)
    ensures Pow2(e + 1) == 2 * Pow2(e)
  {
  }

  lemma ScaledDistance(sg: nat, x: int, y: int, u: nat, w: nat)
    requires Abs(x - y) <= u
    ensures Abs(Signed(sg, x * w) - Signed(sg, y * w)) <= u * w
  {
    MulMonotone(w, x - y, u);
    MulMonotone(w, y - x, u);
    assert w * (y - x) == y * w - x * w;
    assert w * (x - y) == x * w - y * w;
  }

  lemma HighFields(h: u32)
    ensures h == Sign(h) * 0x8000_0000 + Exp(h) * 0x80_0000 + h % 0x80_0000
  {
    var q := h / 0x80_0000;
    assert q == (q / 0x100) * 0x100 + q % 0x100;
    DivModUnique(h, 0x8000_0000, q / 0x100, (q % 0x100) * 0x80_0000 + h % 0x80_0000);
  }

  // LDCif: negation, the normalising loop, packing, rounding.
  method LdcIf(fpu: Fpu, raw: u32) returns (fr: Fpac)
    modifies fpu
    ensures fr == Loaded(raw, old(fpu.fps.l), old(fpu.fps.d), old(fpu.fps.t))
    ensures fpu.State()
         == old(fpu.State()).(fps := old(fpu.fps).(n := raw >= 0x8000_0000, z := raw == 0, v := false, c := false))
  {
    fr := Fpac(0, 0);
    if raw != 0 {
      var sign := Sign(raw);
      var m := raw;
      if sign == 1 {
        m := (0xFFFF_FFFF - raw) + 1;
      }
      var l, i := ShiftUp(m);
      var exp := Top(fpu.fps.l) - i;
      UnroundedFields(sign, exp, l);
      fr := Hold(fpu, Unrounded(sign, exp, l));
      HeldFields(Unrounded(sign, exp, l), fpu.fps.d, fpu.fps.t);
    }
    fpu.fps := fpu.fps.(n := Sign(fr.h) == 1, z := Exp(fr.h) == 0, v := false, c := false);
  }

  // Rounding keeps the sign, and an exponent that is not zero.
  lemma HeldFields(f: Fpac, d: bool, t: bool)
    requires 0 < Exp(f.h) < 0xFF
    ensures Sign(Held(f, d, t).h) == Sign(f.h) && Exp(Held(f, d, t).h) != 0
  {
    HighFields(f.h);
    var sg, e, c := Sign(f.h), Exp(f.h), f.h % 0x80_0000;
    var h: int := f.h + 1;
    DivModUnique(h, 0x1_0000_0000, 0, h);
    DivModUnique(h, 0x8000_0000, sg, h - sg * 0x8000_0000);
    var e', c' := if c < 0x7F_FFFF then e else e + 1, if c < 0x7F_FFFF then c + 1 else 0;
    DivModUnique(h, 0x80_0000, sg * 0x100 + e', c');
    DivModUnique(sg * 0x100 + e', 0x100, sg, e');
  }

  // Rounding, unless double precision or truncating, and storing.
  method Hold(fpu: Fpu, f: Fpac) returns (fr: Fpac)
    requires Exp(f.h) < 0xFF
    modifies fpu
    ensures fr == Held(f, old(fpu.fps.d), old(fpu.fps.t)) && fpu.State() == old(fpu.State())
  {
    var fac := f;
    if !fpu.fps.d && !fpu.fps.t {
      RoundedFInRange(fpu.State(), fac);
      var v;
      fac, v := RoundFp11(fpu, fac);
      DivModUnique(fac.h, 0x1_0000_0000, 0, fac.h);
    }
    fr := if fpu.fps.d then fac else Fpac(fac.h, 0);
  }

  method ShiftUp(m: u32) returns (l: u32, i: nat)
    requires m > 0
    ensures i == Lead(m) < 32 && l == m * Pow2(i) && l >= 0x8000_0000
  {
    l, i := m, 0;
    while l < 0x8000_0000
      invariant 0 < l && Lead(m) == i + Lead(l) && l == m * Pow2(i)
      decreases 0x8000_0000 - l
    {
      DoubleIn(m, Pow2(i));
      assert 2 * (m * Pow2(i)) == m * Pow2(i + 1);
      DivModUnique(2 * l, 0x1_0000_0000, 0, 2 * l);
      l := (2 * l) % 0x1_0000_0000;
      i := i + 1;
    }
    LeadScales(m);
  }

  lemma UnroundedFields(sign: nat, e: nat, l: u32)
    requires sign <= 1 && e < 0x100 && l >= 0x8000_0000
    ensures var f := Unrounded(sign, e, l);
            Sign(f.h) == sign && Exp(f.h) == e && Frac(f).Val() == l * 0x100_0000
  {
    var c := (l / 0x100) % 0x80_0000;
    DivModUnique(l / 0x100, 0x80_0000, 1, l / 0x100 - 0x80_0000);
    var h := sign * 0x8000_0000 + e * 0x80_0000 + c;
    DivModUnique(h, 0x8000_0000, sign, e * 0x80_0000 + c);
    DivModUnique(h, 0x80_0000, sign * 0x100 + e, c);
    DivModUnique(sign * 0x100 + e, 0x100, sign, e);
  }

  // ---- Storing an integer ----

  datatype Converted = Converted(dst: u32, c: bool)

  // i_limit
  function Limit(long: bool, sign: nat): nat {
    if sign == 0 then 0x8000_0000 else if long then 0x8000_0001 else 0x8001_0000
  }

  // The integer part v of the magnitude, left-justified, checked and signed.
  function Deliver(sign: nat, v: u32, long: bool): Converted {
    var v' := if long then v else v - v % 0x1_0000;
    if v' >= Limit(long, sign) then Converted(0, true)
    else Converted(if sign == 1 then (0x1_0000_0000 - v') % 0x1_0000_0000 else v', false)
  }

  function IntegerPart(frac: Fpac, n: nat): u32
    requires Normal56(frac.Val()) && 24 <= n < 64
  {
    IntegerFits(frac.Val(), n);
    frac.Val() / Pow2(n)
  }

  lemma IntegerFits(v: nat, n: nat)
    requires v < 0x100_0000_0000_0000 && n >= 24
    ensures 0 <= v / Pow2(n) < 0x1_0000_0000
  {
    Pow2Consts();
    Pow2Monotone(24, n);
    QuotientBelow24(v, Pow2(n));
  }

  lemma QuotientBelow24(v: nat, p: nat)
    requires v < 0x100_0000_0000_0000 && p >= 0x100_0000
    ensures 0 <= v / p < 0x1_0000_0000
  {
    MulMonotone(0x1_0000_0000, 0x100_0000, p);
    QuotientBelow(v, p, 0x1_0000_0000);
  }

  // The fraction as the format loads it.
  function LoadedFrac(fr: Fpac, d: bool): (f: Fpac)
    ensures Normal56(f.Val())
  {
    FracNormal(Fpac(fr.h, if d then fr.l else 0));
    Frac(Fpac(fr.h, if d then fr.l else 0))
  }

  function Stc(fr: Fpac, long: bool, d: bool): Converted {
    var exp := Exp(fr.h);
    if exp <= 0x80 then Converted(0, false)
    else if exp > Top(long) then Converted(0, true)
    else Deliver(Sign(fr.h), IntegerPart(LoadedFrac(fr, d), 24 + Top(long) - exp), long)
  }

  // The operand's integer part does not fit: the exponent is above that of the size, or
  // equal to it and the operand does not truncate to the most negative integer.
  predicate OutOfRange(fr: Fpac, long: bool, d: bool) {
    || Exp(fr.h) > Top(long)
    || (Exp(fr.h) == Top(long)
        && (Sign(fr.h) == 0 || LoadedFrac(fr, d).Val() >= if long then 0x80_0000_0100_0000 else 0x80_0100_0000_0000))
  }

  lemma ErrorIsRange(fr: Fpac, long: bool, d: bool)
    ensures Stc(fr, long, d).c <==> OutOfRange(fr, long, d)
  {
    hide Pow2, LoadedFrac, Exp;
    var exp, v := Exp(fr.h), LoadedFrac(fr, d).Val();
    if 0x80 < exp < Top(long) {
      Pow2Consts();
      Pow2Add(1, 24);
      Pow2Monotone(25, 24 + Top(long) - exp);
      SmallPart(v, Pow2(24 + Top(long) - exp));
    } else if exp == Top(long) {
      Pow2Consts();
    }
  }

  lemma SmallPart(v: nat, p: nat)
    requires v < 0x100_0000_0000_0000 && p >= 0x200_0000
    ensures 0 <= v / p < 0x8000_0000
  {
    MulMonotone(0x8000_0000, 0x200_0000, p);
    QuotientBelow(v, p, 0x8000_0000);
  }

  // Without an error the integer is the operand truncated toward zero: its magnitude is the
  // whole part of the fraction scaled by the exponent, and it has the operand's sign
  // unless it is zero. A word stands in the high half.
  lemma StcTruncates(fr: Fpac, long: bool, d: bool)
    requires !OutOfRange(fr, long, d)
    ensures var r, e := Stc(fr, long, d), Exp(fr.h) - 0x80;
            && !r.c
            && (e <= 0 ==> r.dst == 0)
            && (e > 0 ==>
                  && e <= 32
                  && Magnitude(r.dst) == LoadedFrac(fr, d).Val() / Pow2(56 - e) * (if long then 1 else 0x1_0000)
                  && (r.dst == 0 || Sign(r.dst) == Sign(fr.h)))
  {
    hide Pow2, LoadedFrac, Exp;
    ErrorIsRange(fr, long, d);
    var exp, f := Exp(fr.h), LoadedFrac(fr, d).Val();
    if exp > 0x80 {
      var n := 24 + Top(long) - exp;
      IntegerFits(f, n);
      SignIs(fr.h);
      if long {
        DeliverMagnitude(Sign(fr.h), IntegerPart(LoadedFrac(fr, d), n), true);
      } else {
        Pow2Consts();
        Pow2Add(n, 16);
        DivDiv(f, Pow2(n), 0x1_0000);
        DeliverMagnitude(Sign(fr.h), IntegerPart(LoadedFrac(fr, d), n), false);
      }
    }
  }

  lemma SignIs(h: u32)
    ensures Sign(h) <= 1
  {
  }

  lemma DeliverMagnitude(sign: nat, v: u32, long: bool)
    requires sign <= 1 && !Deliver(sign, v, long).c
    ensures var m, r := if long then v else v / 0x1_0000 * 0x1_0000, Deliver(sign, v, long).dst;
            Magnitude(r) == m && (r == 0 || Sign(r) == sign)
  {
    var m := if long then v else v - v % 0x1_0000;
    if sign == 1 && m > 0 {
      DivModUnique(0x1_0000_0000 - m, 0x1_0000_0000, 0, 0x1_0000_0000 - m);
    }
  }

  // The state that STCfi leaves.
  function StcState(s: FpuState, fr: Fpac, pswC: bool): FpuState {
    var r := Stc(fr, s.fps.l, s.fps.d);
    var s' := if r.c then Report(s, FEC_ICVT) else s;
    s'.(fps := s'.fps.(n := r.dst >= 0x8000_0000, z := r.dst == 0, v := false, c := pswC))
  }

  // N is for a negative integer and Z for zero, which an error gives too; V is clear. Of the
  // rest of the status only the error flag can change.
  lemma StcCodes(s: FpuState, fr: Fpac, pswC: bool)
    ensures var r, s' := Stc(fr, s.fps.l, s.fps.d), StcState(s, fr, pswC);
            && (s'.fps.n <==> r.dst != 0 && Sign(fr.h) == 1) && (s'.fps.z <==> r.dst == 0) && !s'.fps.v
            && (r.c ==> r.dst == 0)
            && s'.fps == s.fps.(er := s'.fps.er, n := s'.fps.n, z := s'.fps.z, v := s'.fps.v, c := s'.fps.c)
            && (s'.fps.er <==> s.fps.er || (s.fps.ic && OutOfRange(fr, s.fps.l, s.fps.d)))
  {
    ErrorIsRange(fr, s.fps.l, s.fps.d);
    var r := Stc(fr, s.fps.l, s.fps.d);
    if !r.c {
      StcTruncates(fr, s.fps.l, s.fps.d);
      hide Stc;
      SignIs(fr.h);
      SignIs(r.dst);
    }
  }

  // C of the floating status reports the error if and only if the C of the processor
  // status happens to say whether the operand is out of range.
  lemma CarryReportsError(s: FpuState, fr: Fpac, pswC: bool)
    ensures StcState(s, fr, pswC).fps.c == Stc(fr, s.fps.l, s.fps.d).c
       <==> pswC == OutOfRange(fr, s.fps.l, s.fps.d)
  {
    ErrorIsRange(fr, s.fps.l, s.fps.d);
  }

  // An error with C clear: the largest exponent.
  lemma ErrorWithoutCarry(s: FpuState)
    ensures Stc(Fpac(0x7F80_0000, 0), s.fps.l, s.fps.d).c && !StcState(s, Fpac(0x7F80_0000, 0), false).fps.c
  {
  }

  // STCfi. A conversion error is reported, but the C of the floating status is
  // taken from the processor status and not from the error.
  method StcFi(fpu: Fpu, fr: Fpac, pswC: bool) returns (dst: u32, c: bool)
    modifies fpu
    ensures Converted(dst, c) == Stc(fr, old(fpu.fps.l), old(fpu.fps.d))
    ensures fpu.State() == StcState(old(fpu.State()), fr, pswC)
  {
    dst, c := ToInteger(fr, fpu.fps.l, fpu.fps.d);
    if c {
      var _ := fpu.FpNoTrap(FEC_ICVT);
    }
    fpu.fps := fpu.fps.(n := dst >= 0x8000_0000, z := dst == 0, v := false, c := pswC);
  }

  method ToInteger(fr: Fpac, long: bool, d: bool) returns (dst: u32, c: bool)
    ensures Converted(dst, c) == Stc(fr, long, d)
  {
    var sign, exp := Sign(fr.h), Exp(fr.h);
    var fac := LoadedFrac(fr, d);
    var i := Top(long);
    if exp <= 0x80 {
      return 0, false;
    }
    if exp > i {
      return 0, true;
    }
    var n := 24 + i - exp;
    var l := ShiftDown(fac, n);
    if !long {
      l := l - l % 0x1_0000;
    }
    if l >= Limit(long, sign) {
      return 0, true;
    }
    dst, c := l, false;
    if sign == 1 {
      dst := (0x1_0000_0000 - dst) % 0x1_0000_0000;
    }
  }

  method ShiftDown(fac: Fpac, n: nat) returns (l: u32)
    requires Normal56(fac.Val()) && 24 <= n < 64
    ensures l == IntegerPart(fac, n)
  {
    RshVVal(fac, n);
    IntegerFits(fac.Val(), n);
    l := RshV(fac, n).l;
  }

  // ---- Round trips ----

  // Delivering a magnitude gives back the operand exactly when it is the operand's own.
  lemma DeliverInverse(raw: u32, v: u32, long: bool)
    requires raw != 0 && (!long ==> raw % 0x1_0000 == 0 && v % 0x1_0000 == 0)
    ensures Deliver(Sign(raw), v, long) == Converted(raw, false) <==> v == Magnitude(raw)
  {
    var m := Magnitude(raw);
    if raw >= 0x8000_0000 {
      DivModUnique(0x1_0000_0000 - m, 0x1_0000_0000, 0, 0x1_0000_0000 - m);
      if v > 0 {
        DivModUnique(0x1_0000_0000 - v, 0x1_0000_0000, 0, 0x1_0000_0000 - v);
      }
    }
    if !long {
      WordMagnitude(raw);
    }
  }

  lemma WordMagnitude(raw: u32)
    requires raw % 0x1_0000 == 0
    ensures Magnitude(raw) % 0x1_0000 == 0
  {
  }

  // x * 2^24 shifted right by 24 + i is x shifted right by i.
  lemma Unshift(x: nat, i: nat)
    ensures x * 0x100_0000 / Pow2(24 + i) == x / Pow2(i)
  {
    Pow2Add(24, i);
    Pow2Consts();
    DivScale(x, Pow2(i), 0x100_0000);
  }

  lemma ExactQuotient(m: nat, p: nat)
    requires p > 0
    ensures (m * p) / p == m
  {
    DivModUnique(m * p, p, m, 0);
  }

  // Storing an accumulator whose fraction holds the 32 bits of x.
  lemma StcOf(f: Fpac, long: bool, d: bool, x: u32, i: nat)
    requires i < Top(long) - 0x80 && Exp(f.h) == Top(long) - i && LoadedFrac(f, d).Val() == x * 0x100_0000
    ensures 0 <= x / Pow2(i) < 0x1_0000_0000
    ensures Stc(f, long, d) == Deliver(Sign(f.h), x / Pow2(i), long)
  {
    DivAtMost(x, Pow2(i));
    Unshift(x, i);
  }

  // In double precision every integer comes back, the most negative one included.
  lemma DoubleRoundTrip(raw: u32, long: bool, t: bool)
    requires !long ==> raw % 0x1_0000 == 0
    ensures Stc(Loaded(raw, long, true, t), long, true) == Converted(raw, false)
  {
    if raw != 0 {
      ExactRoundTrip(raw, long, true, t);
    }
  }

  // Whenever no significant bit is lost: always in double precision, and in single
  // precision when the lowest 8 of the 32 left-justified bits are clear.
  lemma ExactRoundTrip(raw: u32, long: bool, d: bool, t: bool)
    requires raw != 0 && (!long ==> raw % 0x1_0000 == 0)
    requires d || Significant(raw) % 0x100 == 0
    ensures Stc(Loaded(raw, long, d, t), long, d) == Converted(raw, false)
  {
    var m := Magnitude(raw);
    LeadScales(m);
    var l, i := Significant(raw), Lead(m);
    LeadBelow(raw, long);
    UnroundedFields(Sign(raw), Top(long) - i, l);
    StcOf(Unrounded(Sign(raw), Top(long) - i, l), long, d, l, i);
    ExactQuotient(m, Pow2(i));
    DeliverSame(raw, long);
  }

  lemma DeliverSame(raw: u32, long: bool)
    requires raw != 0 && (!long ==> raw % 0x1_0000 == 0)
    ensures Deliver(Sign(raw), Magnitude(raw), long) == Converted(raw, false)
  {
    if !long {
      WordMagnitude(raw);
    }
    DeliverInverse(raw, Magnitude(raw), long);
  }

  function Significant(raw: u32): u32
    requires raw != 0
  {
    LeadScales(Magnitude(raw));
    Magnitude(raw) * Pow2(Lead(Magnitude(raw)))
  }

  // A word operand has its magnitude in the high half, so fewer than 16 shifts.
  lemma LeadBelow(raw: u32, long: bool)
    requires raw != 0 && (!long ==> raw % 0x1_0000 == 0)
    ensures Lead(Magnitude(raw)) < if long then 32 else 16
  {
    var m := Magnitude(raw);
    LeadScales(m);
    if !long && Lead(m) >= 16 {
      WordMagnitude(raw);
      assert m >= 0x1_0000;
      Pow2Consts();
      Pow2Monotone(16, Lead(m));
      MulMonotone(m, 0x1_0000, Pow2(Lead(m)));
    }
  }

  // The value of a loaded integer: exact in double precision, and in single precision
  // within half a unit of the last place, or not above it and within one when truncating.
  lemma LoadedClose(raw: u32, long: bool, d: bool, t: bool)
    requires raw != 0 && (!long ==> raw % 0x1_0000 == 0)
    ensures var m, exact := Magnitude(raw), Signed(Sign(raw), Magnitude(raw) * Pow2(Top(long) + 27));
            var r, e := Loaded(raw, long, d, t), Top(long) - Lead(Magnitude(raw));
            && e > 0x80
            && (d ==> SVal(r) == exact)
            && (!d && !t ==> Abs(SVal(r) - exact) <= Ulp(false) / 2 * Pow2(e))
            && (!d && t ==> Abs(SVal(r)) <= Abs(exact) && Abs(SVal(r) - exact) < Ulp(false) * Pow2(e))
  {
    hide Pow2, SVal, Ulp;
    var m := Magnitude(raw);
    LeadScales(m);
    LeadBelow(raw, long);
    var l, i := m * Pow2(Lead(m)), Lead(m);
    var e := Top(long) - i;
    var f := Unrounded(Sign(raw), e, l);
    UnroundedValue(Sign(raw), e, l, m, i);
    if !d && !t {
      HalfUnit(f);
    } else if !d {
      LowHalfDropped(f);
    }
  }

  lemma UnroundedValue(sign: nat, e: nat, l: u32, m: nat, i: nat)
    requires sign <= 1 && e < 0x100 && l >= 0x8000_0000 && l == m * Pow2(i)
    ensures SVal(Unrounded(sign, e, l)) == Signed(sign, m * Pow2(e + i + 27))
    ensures Exp(Unrounded(sign, e, l).h) == e && Sign(Unrounded(sign, e, l).h) == sign
  {
    hide Pow2;
    UnroundedFields(sign, e, l);
    Pow2Consts();
    Pow2Add(3, 24);
    Pow2Add(e, i);
    Pow2Add(e + i, 27);
    Regroup(m, Pow2(i), Pow2(e));
  }

  lemma Regroup(m: nat, p: nat, q: nat)
    ensures 8 * (m * p * 0x100_0000) * q == m * (q * p * 0x800_0000)
  {
    var mp := m * p;
    assert 8 * (mp * 0x100_0000) * q == mp * q * 0x800_0000;
    MulGroup(m, p, q);
    MulGroup(m, q * p, 0x800_0000);
  }

  // Rounding adds one to the high half or leaves it.
  lemma HalfUnit(f: Fpac)
    requires Exp(f.h) < 0xFF
    ensures Abs(SVal(Held(f, false, false)) - SVal(f)) <= Ulp(false) / 2 * Pow2(Exp(f.h))
  {
    hide Pow2, SVal;
    HighFields(f.h);
    var h: int := if f.l < 0x8000_0000 then f.h else f.h + 1;
    DivModUnique(h, 0x1_0000_0000, 0, h);
    DivModUnique(h, 0x8000_0000, Sign(f.h), h - Sign(f.h) * 0x8000_0000);
    NearHigh(f, h);
  }

  lemma LowHalfDropped(f: Fpac)
    ensures var r := Fpac(f.h, 0);
            Abs(SVal(r)) <= Abs(SVal(f)) && Abs(SVal(r) - SVal(f)) < Ulp(false) * Pow2(Exp(f.h))
  {
    hide Pow2;
    var w, c := Pow2(Exp(f.h)), 8 * Frac(Fpac(f.h, 0)).Val();
    MulMonotone(w, 8 * f.l, Ulp(false) - 1);
    assert (c + 8 * f.l) * w == c * w + 8 * f.l * w;
    assert w * (Ulp(false) - 1) == Ulp(false) * w - w;
  }

  // The shifts are those that bring bit 31 up.
  lemma {:induction false} LeadIs(m: nat, i: nat)
    requires 0 < m && 0x8000_0000 <= m * Pow2(i) < 0x1_0000_0000
    ensures m < 0x1_0000_0000 && Lead(m) == i
    decreases i
  {
    if i > 0 {
      DoubleIn(m, Pow2(i - 1));
      LeadIs(2 * m, i - 1);
    }
  }

  // The integer one is loaded as 1.0, which is 40200 octal in the first word.
  lemma OneIs(d: bool, t: bool)
    ensures Loaded(0x1_0000, false, d, t) == Fpac(0x4080_0000, 0)
  {
    hide Pow2, Lead;
    Pow2Consts();
    Pow2Add(3, 12);
    LeadIs(0x1_0000, 15);
  }

  // Every 16-bit integer comes back in either format.
  lemma WordRoundTrip(w: u16, d: bool, t: bool)
    ensures Stc(Loaded(w * 0x1_0000, false, d, t), false, d) == Converted(w * 0x1_0000, false)
  {
    var raw := w * 0x1_0000;
    if raw != 0 {
      WordMagnitude(raw);
      var m := Magnitude(raw);
      ManyZeros(m, Pow2(Lead(m)));
      ExactRoundTrip(raw, false, d, t);
    }
  }

  lemma ManyZeros(m: nat, p: nat)
    requires m % 0x1_0000 == 0
    ensures (m * p) % 0x100 == 0
  {
    var c := m / 0x1_0000;
    assert m * p == (c * p) * 0x1_0000;
    DivModUnique(m * p, 0x100, (c * p) * 0x100, 0);
  }

  // A longword comes back in single precision exactly when its 24 leading bits
  // hold all of it: otherwise truncation, rounding, or the overflow that rounding
  // up can cause gives something else.
  lemma SingleLongRoundTrip(raw: u32, t: bool)
    requires raw != 0
    ensures Stc(Loaded(raw, true, false, t), true, false) == Converted(raw, false)
        <==> Significant(raw) % 0x100 == 0
  {
    var m := Magnitude(raw);
    LeadScales(m);
    var l, i := Significant(raw), Lead(m);
    var b := l % 0x100;
    if b == 0 {
      ExactRoundTrip(raw, true, false, t);
    } else {
      LeadBelow(raw, true);
      LostBits(m, i, l);
      UnroundedFields(Sign(raw), Top(true) - i, l);
      if t || b < 0x80 {
        Chopped(raw, t);
      } else {
        RoundedUp(raw);
      }
    }
  }

  // Bits are lost only from magnitudes above 2^24, shifted by less than 8.
  lemma LostBits(m: nat, i: nat, l: nat)
    requires l == m * Pow2(i) && l % 0x100 != 0
    ensures i < 8 && Pow2(i) <= l % 0x100 <= 0x100 - Pow2(i)
  {
    Pow2Small();
    if i >= 8 {
      Pow2Add(8, i - 8);
      MulGroup(m, Pow2(i - 8), 0x100);
      DivModUnique(l, 0x100, m * Pow2(i - 8), 0);
    } else {
      Pow2Add(i, 8 - i);
      LowMultiple(m, Pow2(i), Pow2(8 - i), l);
    }
  }

  lemma LowMultiple(m: nat, p: nat, q: nat, l: nat)
    requires p > 0 && q > 0 && p * q == 0x100 && l == m * p
    ensures l % 0x100 == (m % q) * p && (m % q == 0 ==> l % 0x100 == 0)
    ensures (m % q) * p <= 0x100 - p && (m % q > 0 ==> (m % q) * p >= p)
  {
    var c, r := m / q, m % q;
    assert m == c * q + r;
    assert m * p == c * (q * p) + r * p;
    MulMonotone(p, r, q - 1);
    assert p * (q - 1) == p * q - p;
    DivModUnique(l, 0x100, c, r * p);
    if r > 0 {
      MulAtLeast(r, p);
    }
  }

  // Dropping the low bits leaves a smaller magnitude.
  lemma Chopped(raw: u32, t: bool)
    requires raw != 0 && Significant(raw) % 0x100 != 0
    requires t || Significant(raw) % 0x100 < 0x80
    ensures Stc(Loaded(raw, true, false, t), true, false) != Converted(raw, false)
  {
    var m := Magnitude(raw);
    LeadScales(m);
    var l, i := Significant(raw), Lead(m);
    LeadBelow(raw, true);
    var l' := l - l % 0x100;
    SameFields(Sign(raw), Top(true) - i, l, l');
    StcOf(Unrounded(Sign(raw), Top(true) - i, l'), true, false, l', i);
    BelowQuotient(m, Pow2(i), l');
    DeliverInverse(raw, l' / Pow2(i), true);
  }

  // The stored single-precision word is that of the operand with its low bits clear.
  lemma SameFields(sign: nat, e: nat, l: u32, l': u32)
    requires sign <= 1 && e < 0x100 && l >= 0x8000_0000 && l' == l - l % 0x100
    ensures Fpac(Unrounded(sign, e, l).h, 0) == Unrounded(sign, e, l') && l' >= 0x8000_0000
    ensures Sign(Unrounded(sign, e, l').h) == sign && Exp(Unrounded(sign, e, l').h) == e
    ensures Frac(Unrounded(sign, e, l')).Val() == l' * 0x100_0000
  {
    UnroundedFields(sign, e, l');
  }

  lemma BelowQuotient(m: nat, p: nat, x: nat)
    requires p > 0 && x < m * p
    ensures 0 <= x / p < m
  {
    QuotientBelow(x, p, m);
  }

  // Rounding up gives a larger magnitude, or one that no longer fits.
  lemma RoundedUp(raw: u32)
    requires raw != 0 && Significant(raw) % 0x100 >= 0x80
    ensures Stc(Loaded(raw, true, false, false), true, false) != Converted(raw, false)
  {
    var m := Magnitude(raw);
    LeadScales(m);
    var l, i := Significant(raw), Lead(m);
    LeadBelow(raw, true);
    LostBits(m, i, l);
    var s, e := Sign(raw), Top(true) - i;
    var lost: int := l % 0x100;
    var up := 0x100 - lost + l;
    if up < 0x1_0000_0000 {
      UpFields(s, e, l, up);
      StcOf(Unrounded(s, e, up), true, false, up, i);
      AboveQuotient(m, Pow2(i), up);
      DeliverInverse(raw, up / Pow2(i), true);
    } else {
      CarriedUp(raw, Fpac(NextHigh(Unrounded(s, e, l).h), 0));
    }
  }

  lemma CarriedUp(raw: u32, f: Fpac)
    requires raw != 0 && Significant(raw) >= 0xFFFF_FF00 && Lead(Magnitude(raw)) < 8
    requires f == Fpac(NextHigh(Unrounded(Sign(raw), Top(true) - Lead(Magnitude(raw)), Significant(raw)).h), 0)
    ensures Stc(f, true, false) != Converted(raw, false)
  {
    var m := Magnitude(raw);
    var i := Lead(m);
    CarryFields(Sign(raw), Top(true) - i, Significant(raw));
    if i > 0 {
      LeadScales(m);
      CarryQuotient(m, i);
      DeliverInverse(raw, Pow2(32 - i), true);
    }
  }

  lemma UpFields(s: nat, e: nat, l: u32, up: nat)
    requires s <= 1 && e < 0xFF && l >= 0x8000_0000 && up == l - l % 0x100 + 0x100 < 0x1_0000_0000
    ensures Fpac(NextHigh(Unrounded(s, e, l).h), 0) == Unrounded(s, e, up)
    ensures Sign(Unrounded(s, e, up).h) == s && Exp(Unrounded(s, e, up).h) == e
    ensures Frac(Unrounded(s, e, up)).Val() == up * 0x100_0000
  {
    UnroundedFields(s, e, up);
    var c := l / 0x100;
    DivModUnique(up, 0x100, c + 1, 0);
    DivModUnique(c, 0x80_0000, 1, c - 0x80_0000);
    DivModUnique(c + 1, 0x80_0000, 1, c + 1 - 0x80_0000);
    var h := Unrounded(s, e, l).h + 1;
    DivModUnique(h, 0x1_0000_0000, 0, h);
  }

  lemma CarryFields(s: nat, e: nat, l: u32)
    requires s <= 1 && e < 0xFF && l >= 0xFFFF_FF00
    ensures var h := NextHigh(Unrounded(s, e, l).h);
            Sign(h) == s && Exp(h) == e + 1 && Frac(Fpac(h, 0)).Val() == 0x80_0000_0000_0000
  {
    DivModUnique(l / 0x100, 0x80_0000, 1, 0x7F_FFFF);
    var h := s * 0x8000_0000 + (e + 1) * 0x80_0000;
    DivModUnique(h, 0x1_0000_0000, 0, h);
    DivModUnique(h, 0x8000_0000, s, (e + 1) * 0x80_0000);
    DivModUnique(h, 0x80_0000, s * 0x100 + e + 1, 0);
    DivModUnique(s * 0x100 + e + 1, 0x100, s, e + 1);
  }

  lemma AboveQuotient(m: nat, p: nat, x: nat)
    requires p > 0 && x >= m * p + p
    ensures x / p > m
  {
    assert (m + 1) * p == m * p + p;
    if x / p < m + 1 {
      MulMonotone(p, x / p + 1, m + 1);
    }
  }

  lemma CarryQuotient(m: nat, i: nat)
    requires 1 <= i < 8 && m * Pow2(i) < 0x1_0000_0000
    ensures 0x80_0000_0000_0000 / Pow2(23 + i) == Pow2(32 - i) && m < Pow2(32 - i) < 0x1_0000_0000
  {
    Pow2Add(32 - i, 23 + i);
    Pow2Split32(i);
    Pow2Consts();
    Pow2Add(23, 32);
    Pow2Monotone(1, i);
    ExactQuotient(Pow2(32 - i), Pow2(23 + i));
    CancelFactor(m, Pow2(32 - i), Pow2(i));
  }

  lemma CancelFactor(m: nat, a: nat, p: nat)
    requires m * p < p * a && p >= 2 && p * a == 0x1_0000_0000
    ensures m < a < 0x1_0000_0000
  {
    if m >= a {
      MulMonotone(p, a, m);
    }
    MulMonotone(a, 2, p);
  }
}
