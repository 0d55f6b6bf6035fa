// FP11 number format, status register, exception reporting, rounding and packing.
module FpPack {
  import opened Arith
  import opened FpWord

  // ---- The packed format ----

  function Sign(h: u32): (s: nat) {
    h / 0x8000_0000
  }

  function SignWord(s: nat): (h: u32)
    requires s <= 1
    ensures Sign(h) == s
  {
    s * 0x8000_0000
  }

  function SignXor(h1: u32, h2: u32): (s: nat)
    ensures s <= 1
  {
    if Sign(h1) == Sign(h2) then 0 else 1
  }

  lemma SignsOf(h1: u32, h2: u32)
    ensures Sign(h1) <= 1 && Sign(h2) <= 1 && SignXor(h1, h2) == if Sign(h1) == Sign(h2) then 0 else 1
  {
  }

  function Exp(h: u32): (e: nat)
    ensures e < 0x100
  {
    (h / 0x80_0000) % 0x100
  }

  // The fraction with the hidden bit in place.
  function Frac(p: Fpac): Fpac {
    Fpac(p.h % 0x80_0000 + 0x80_0000, p.l)
  }

  // Bit 55 set and nothing above it: a normalised fraction without guard bits.
  predicate Normal56(f: int) {
    0x80_0000_0000_0000 <= f < 0x100_0000_0000_0000
  }

  // Bit 58 set and nothing above it: a normalised fraction with three guard bits.
  predicate Normal59(f: int) {
    0x400_0000_0000_0000 <= f < 0x800_0000_0000_0000
  }

  lemma FracNormal(p: Fpac)
    ensures Normal56(Frac(p).Val())
  {
  }

  // ---- Status and exceptions ----

  datatype Fps = Fps(er: bool, id: bool, iuv: bool, iu: bool, iv: bool, ic: bool,
                     d: bool, l: bool, t: bool, n: bool, z: bool, v: bool, c: bool)

  datatype FpuState = FpuState(fps: Fps, fec: nat, fea: u16, trapPending: bool, backupPc: u16)

  const FEC_ICVT := 6
  const FEC_OVFLO := 8
  const FEC_UNFLO := 10
  const FEC_UNDFV := 12

  // The enable bits by exception code, halved as in the code table.
  function EnableBit(fps: Fps, half: nat): bool {
    if half == 3 then fps.ic else if half == 4 then fps.iv else if half == 5 then fps.iu else fps.iuv
  }

  // The exception is one that the status register can mask, and does.
  predicate Masked(fps: Fps, code: nat) {
    FEC_ICVT <= code <= FEC_UNDFV && !EnableBit(fps, code / 2)
  }

  function Report(s: FpuState, code: nat): FpuState {
    if Masked(s.fps, code) then s
    else s.(fps := s.fps.(er := true), fec := code, fea := (s.backupPc - 2) % 0x1_0000,
            trapPending := s.trapPending || !s.fps.id)
  }

  // ---- Rounding ----

  // The weight, in guarded units, of the last bit a format keeps.
  function Ulp(d: bool): nat {
    if d then 8 else 0x8_0000_0000
  }

  datatype Guarded = Guarded(e: int, g: nat)

  // Adding half a unit, and one right shift if that carries out of bit 58.
  function Rounded(x: Guarded, d: bool, round: bool): Guarded {
    var g := if round then x.g + Ulp(d) / 2 else x.g;
    if g >= 0x800_0000_0000_0000 then Guarded(x.e + 1, g / 2) else Guarded(x.e, g)
  }

  lemma RoundedNormal(x: Guarded, d: bool, round: bool)
    requires Normal59(x.g)
    ensures Normal59(Rounded(x, d, round).g)
    ensures Rounded(x, d, round).e == x.e || Rounded(x, d, round).e == x.e + 1
  {
  }

  // What a format keeps of a guarded fraction.
  function Kept(g: nat, d: bool): (k: nat)
    ensures k <= g < k + Ulp(d)
  {
    if d then g / 8 * 8 else g / 0x8_0000_0000 * 0x8_0000_0000
  }

  // What is kept after rounding is within half a unit of the fraction, and after
  // truncation below it by less than a unit; twice the fraction is kept when the
  // exponent went up by one.
  lemma RoundingError(x: Guarded, d: bool, round: bool)
    requires Normal59(x.g)
    ensures var r := Rounded(x, d, round);
            var k := if r.e == x.e then Kept(r.g, d) else 2 * Kept(r.g, d);
            if round then x.g - Ulp(d) / 2 <= k <= x.g + Ulp(d) / 2
            else x.g - Ulp(d) < k <= x.g
  {
    var r := Rounded(x, d, round);
    if r.e != x.e {
      assert Kept(r.g, d) == 0x400_0000_0000_0000;
    }
  }

  // ---- Normalising by one shift ----

  function Normalise1(x: Guarded): Guarded {
    if x.g < 0x400_0000_0000_0000 then Guarded(x.e - 1, 2 * x.g) else x
  }

  // Below 2^59, bit 58 says whether 2^58 is reached.
  lemma HiddenBit(f: Fpac)
    requires f.Val() < 0x800_0000_0000_0000
    ensures (f.h / 0x400_0000) % 2 == 1 <==> f.Val() >= 0x400_0000_0000_0000
  {
  }

  method NormaliseOnce(frac: Fpac, exp: int) returns (frac': Fpac, exp': int)
    requires frac.Val() < 0x800_0000_0000_0000
    ensures Guarded(exp', frac'.Val()) == Normalise1(Guarded(exp, frac.Val()))
  {
    frac', exp' := frac, exp;
    HiddenBit(frac');
    if (frac'.h / 0x400_0000) % 2 == 0 {
      Lsh1Val(frac');
      frac' := Lsh1(frac');
      exp' := exp' - 1;
    }
  }

  // ---- Packing ----

  function Packed(sign: nat, x: Guarded): (f: Fpac)
    requires sign <= 1
  {
    var frac := x.g / 8;
    Fpac(sign * 0x8000_0000 + (x.e % 0x100) * 0x80_0000 + (frac / 0x1_0000_0000) % 0x80_0000,
         frac % 0x1_0000_0000)
  }

  // Unpacking gives back sign, exponent modulo 256 and the 56-bit fraction.
  lemma PackedFields(sign: nat, x: Guarded)
    requires sign <= 1 && Normal59(x.g)
    ensures var f := Packed(sign, x);
            Sign(f.h) == sign && Exp(f.h) == x.e % 0x100 && Frac(f).Val() == x.g / 8
  {
    var frac := x.g / 8;
    var fh, e := frac / 0x1_0000_0000, x.e % 0x100;
    DivModUnique(fh, 0x80_0000, 1, fh - 0x80_0000);
    var h := sign * 0x8000_0000 + e * 0x80_0000 + (fh - 0x80_0000);
    DivModUnique(h, 0x8000_0000, sign, e * 0x80_0000 + (fh - 0x80_0000));
    DivModUnique(h, 0x80_0000, sign * 0x100 + e, fh - 0x80_0000);
    DivModUnique(sign * 0x100 + e, 0x100, sign, e);
  }

  datatype PackResult = PackResult(f: Fpac, v: bool, s: FpuState)

  // Overflow reports and sets V; underflow only reports. Either gives zero when it
  // is masked, and the wrapped exponent when it is not.
  function RoundPack(s: FpuState, sign: nat, x: Guarded, rv: bool): PackResult
    requires sign <= 1
  {
    var r := Rounded(x, s.fps.d, rv && !s.fps.t);
    if r.e > 0xFF then
      PackResult(if Masked(s.fps, FEC_OVFLO) then Fpac(0, 0) else Packed(sign, r), true, Report(s, FEC_OVFLO))
    else if r.e <= 0 then
      PackResult(if Masked(s.fps, FEC_UNFLO) then Fpac(0, 0) else Packed(sign, r), false, Report(s, FEC_UNFLO))
    else
      PackResult(Packed(sign, r), false, s)
  }

  class Fpu {
    var fps: Fps
    var fec: nat
    var fea: u16
    var trapPending: bool
    var backupPc: u16

    constructor (s: FpuState)
      ensures State() == s
    {
      fps, fec, fea, trapPending, backupPc := s.fps, s.fec, s.fea, s.trapPending, s.backupPc;
    }

    function State(): FpuState
      reads this
    {
      FpuState(fps, fec, fea, trapPending, backupPc)
    }

    // fpnotrap: the result is true when the exception is masked.
    method FpNoTrap(code: nat) returns (masked: bool)
      modifies this
      ensures masked == Masked(old(fps), code)
      ensures State() == Report(old(State()), code)
    {
      if FEC_ICVT <= code <= FEC_UNDFV && !EnableBit(fps, code / 2) {
        return true;
      }
      fps := fps.(er := true);
      fec := code;
      fea := (backupPc - 2) % 0x1_0000;
      if !fps.id {
        if !trapPending {
          trapPending := true;
        }
      }
      return false;
    }

    // round_and_pack; the sign is the one already in facp.
    method RoundAndPack(facp: Fpac, exp: int, fracp: Fpac, rv: bool) returns (res: Fpac, newV: bool)
      requires Normal59(fracp.Val())
      modifies this
      ensures PackResult(res, newV, State())
           == RoundPack(old(State()), Sign(facp.h), Guarded(exp, fracp.Val()), rv)
    {
      var frac, e := RoundFrac(fracp, exp, fps.d, rv && !fps.t);
      RshGuardVal(frac);
      frac := RshGuard(frac);
      res := Fpac(Sign(facp.h) * 0x8000_0000 + (e % 0x100) * 0x80_0000 + frac.h % 0x80_0000, frac.l);
      PackedHalves(Sign(facp.h), Guarded(e, Rounded(Guarded(exp, fracp.Val()), fps.d, rv && !fps.t).g), frac, res);
      newV := false;
      if e > 0xFF {
        var masked := FpNoTrap(FEC_OVFLO);
        if masked {
          res := Fpac(0, 0);
        }
        return res, true;
      }
      if e <= 0 {
        var masked := FpNoTrap(FEC_UNFLO);
        if masked {
          res := Fpac(0, 0);
        }
      }
    }
  }

  lemma PackedHalves(sign: nat, x: Guarded, frac: Fpac, res: Fpac)
    requires sign <= 1 && frac.Val() == x.g / 8
    requires res == Fpac(sign * 0x8000_0000 + (x.e % 0x100) * 0x80_0000 + frac.h % 0x80_0000, frac.l)
    ensures res == Packed(sign, x)
  {
    DivModUnique(frac.Val(), 0x1_0000_0000, frac.h, frac.l);
  }

  // The rounding step of round_and_pack, on the halves.
  method RoundFrac(fracp: Fpac, exp: int, d: bool, round: bool) returns (frac: Fpac, e: int)
    requires Normal59(fracp.Val())
    ensures Guarded(e, frac.Val()) == Rounded(Guarded(exp, fracp.Val()), d, round)
  {
    frac, e := fracp, exp;
    if round {
      var half := if d then Fpac(0, 4) else Fpac(4, 0);
      AddVal(half, frac);
      frac := Add(half, frac);
      TopBit(frac);
      if (frac.h / 0x800_0000) % 2 == 1 {
        frac := Rsh1(frac);
        e := e + 1;
      }
    }
  }

  // Below 2^60, bit 59 says whether 2^59 is reached.
  lemma TopBit(f: Fpac)
    requires f.Val() < 0x1000_0000_0000_0000
    ensures (f.h / 0x800_0000) % 2 == 1 <==> f.Val() >= 0x800_0000_0000_0000
  {
  }
}
