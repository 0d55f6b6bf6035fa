// The multi-bit shifts ASH and ASHC: the closed forms that are computed, and the same
// shifts one bit at a time.
module Shifts {
  import opened Arith

  // A shifted word or register pair, the last bit out, and the overflow flag.
  datatype Shifted = Shifted(w: nat, c: bool, v: bool)

  // Words of 16 bits and pairs of 32.
  predicate Width(m: nat) {
    m == 0x1_0000 || m == 0x1_0000_0000
  }

  function Signed(w: nat, m: nat): int {
    if 2 * w >= m then w - m else w
  }

  // ---- One bit at a time ----

  function LeftStep(s: Shifted, m: nat): (r: Shifted)
    requires Width(m) && s.w < m
    ensures r.w < m
  {
    var out := 2 * s.w >= m;
    var w := if out then 2 * s.w - m else 2 * s.w;
    Shifted(w, out, s.v || out != (2 * w >= m))
  }

  function RightStep(s: Shifted, m: nat): (r: Shifted)
    requires Width(m) && s.w < m
    ensures r.w < m
  {
    Shifted(s.w / 2 + if 2 * s.w >= m then m / 2 else 0, s.w % 2 == 1, s.v)
  }

  function Left(w: nat, m: nat, n: nat): (r: Shifted)
    requires Width(m) && w < m
    ensures r.w < m
  {
    if n == 0 then Shifted(w, false, false) else LeftStep(Left(w, m, n - 1), m)
  }

  function Right(w: nat, m: nat, n: nat): (r: Shifted)
    requires Width(m) && w < m
    ensures r.w < m
  {
    if n == 0 then Shifted(w, false, false) else RightStep(Right(w, m, n - 1), m)
  }

  // What a six-bit count asks for: up to 31 shifts left, or 64 - count to the right.
  function ByCount(w: nat, m: nat, count: nat): Shifted
    requires Width(m) && w < m && count < 64
  {
    if count < 32 then Left(w, m, count) else Right(w, m, 64 - count)
  }

  // ---- What the single shifts add up to ----

  // The word is the low part of the number t, the carry the bit above it, and the
  // overflow flag is set exactly when t does not fit.
  ghost predicate Denotes(s: Shifted, t: int, m: nat, started: bool) {
    && Width(m) && s.w == t % m
    && (started ==> s.c == (t / m % 2 == 1))
    && (s.v <==> 2 * t + m < 0 || 2 * t >= m)
  }

  lemma StepDenotes(s: Shifted, t: int, m: nat, started: bool)
    requires Denotes(s, t, m, started)
    ensures Denotes(LeftStep(s, m), 2 * t, m, true)
  {
    var k := t / m;
    StepParts(s.w, t, k, m);
    StepFits(s.w, t, k, m);
  }

  lemma StepParts(w: nat, t: int, k: int, m: nat)
    requires m > 0 && m % 2 == 0 && w < m && t == k * m + w
    ensures 2 * t % m == (if 2 * w >= m then 2 * w - m else 2 * w)
    ensures (2 * t / m % 2 == 1) == (2 * w >= m)
  {
    assert 2 * t == 2 * k * m + 2 * w;
    if 2 * w >= m {
      assert (2 * k + 1) * m == 2 * k * m + m;
      DivModUnique(2 * t, m, 2 * k + 1, 2 * w - m);
    } else {
      DivModUnique(2 * t, m, 2 * k, 2 * w);
    }
  }

  // The sign stays exactly while the number fits.
  lemma StepFits(w: nat, t: int, k: int, m: nat)
    requires m > 0 && m % 2 == 0 && w < m && t == k * m + w
    ensures var w' := if 2 * w >= m then 2 * w - m else 2 * w;
            (2 * t + m < 0 || 2 * t >= m) || (2 * w >= m) != (2 * w' >= m) <==> 4 * t + m < 0 || 4 * t >= m
  {
    if 2 * t + m >= 0 && 2 * t < m {
      DivModUnique(t, m, k, w);
      if t >= 0 {
        DivModUnique(t, m, 0, t);
      } else {
        DivModUnique(t, m, -1, t + m);
      }
    }
  }

  lemma WordDenotes(w: nat, m: nat)
    requires Width(m) && w < m
    ensures Denotes(Shifted(w, false, false), Signed(w, m), m, false)
  {
    DivModUnique(Signed(w, m), m, if 2 * w >= m then -1 else 0, w);
  }

  function Scaled(s: int, n: nat): int {
    if n == 0 then s else 2 * Scaled(s, n - 1)
  }

  lemma {:induction false} ScaledIsProduct(s: int, n: nat)
    ensures Scaled(s, n) == s * Pow2(n)
  {
    if n == 0 {
      assert s * 1 == s;
    } else {
      var p := Pow2(n - 1);
      ScaledIsProduct(s, n - 1);
      assert s * (2 * p) == 2 * (s * p);
    }
  }

  // n shifts left give the product with 2^n: its low word, the bit above it, and an
  // overflow exactly when it does not fit, so exactly when the sign ever changed.
  lemma {:induction false} LeftDenotes(w: nat, m: nat, n: nat)
    requires Width(m) && w < m
    ensures Denotes(Left(w, m, n), Scaled(Signed(w, m), n), m, n > 0)
  {
    if n == 0 {
      WordDenotes(w, m);
    } else {
      hide Denotes, LeftStep, Signed;
      LeftDenotes(w, m, n - 1);
      StepDenotes(Left(w, m, n - 1), Scaled(Signed(w, m), n - 1), m, n - 1 > 0);
    }
  }

  // A number has only one such word, carry and overflow.
  lemma DenotesOnce(a: Shifted, b: Shifted, t: int, m: nat)
    requires Denotes(a, t, m, true) && Denotes(b, t, m, true)
    ensures a == b
  {
  }

  // Shifting right divides, rounding down, and the carry is the last bit out.
  lemma {:induction false} RightDenotes(w: nat, m: nat, n: nat)
    requires Width(m) && w < m
    ensures var r, s := Right(w, m, n), Signed(w, m);
            && Signed(r.w, m) == s / Pow2(n) && !r.v
            && (n > 0 ==> r.c == (s / Pow2(n - 1) % 2 == 1))
  {
    if n > 0 {
      RightDenotes(w, m, n - 1);
      FloorTwice(Signed(w, m), Pow2(n - 1));
      HalfSigned(Right(w, m, n - 1), m);
    }
  }

  lemma HalfSigned(s: Shifted, m: nat)
    requires Width(m) && s.w < m
    ensures var r, x := RightStep(s, m), Signed(s.w, m);
            Signed(r.w, m) == x / 2 && r.c == (x % 2 == 1) && r.v == s.v
  {
    if 2 * s.w >= m {
      DivModUnique(s.w - m, 2, s.w / 2 - m / 2, s.w % 2);
    }
  }

  lemma FloorTwice(s: int, a: nat)
    requires a > 0
    ensures s / a / 2 == s / (2 * a)
  {
    var q, r := s / a, s % a;
    var q', r' := q / 2, q % 2;
    assert q * a == q' * (2 * a) + r' * a;
    assert r' * a <= a by {
      MulMonotone(a, r', 1);
    }
    DivModUnique(s, 2 * a, q', r' * a + r);
  }

  // ---- The computed forms ----

  function SignExtended(w: nat): (s: nat)
    requires w < 0x1_0000
    ensures s < 0x1_0000_0000
  {
    if w >= 0x8000 then w + 0xFFFF_0000 else w
  }

  lemma Pow2Within(n: nat)
    requires n <= 32
    ensures Pow2(n) <= 0x1_0000_0000
  {
    Pow2Consts();
    Pow2Monotone(n, 32);
  }

  function Quotient(v: nat, d: nat): (q: nat)
    requires d > 0
    ensures q == v / d
  {
    v / d
  }

  // arith_rshift32: the sign is filled in from the left.
  function ArithRight32(v: nat, n: nat): (r: nat)
    requires v < 0x1_0000_0000 && n <= 32
  {
    Pow2Within(32 - n);
    if n == 0 then v else Quotient(v, Pow2(n)) + if v >= 0x8000_0000 then 0x1_0000_0000 - Pow2(32 - n) else 0
  }

  // The part of ASH that shifts, on the source word and the six-bit count.
  function Ash(w: nat, count: nat): (r: Shifted)
    requires w < 0x1_0000 && count < 64
  {
    var src := SignExtended(w);
    if count == 0 then Shifted(w, false, false)
    else if count <= 15 then
      var dst := src * Pow2(count) % 0x1_0000_0000;
      var spill := src / Pow2(16 - count) % 0x1_0000;
      Shifted(dst % 0x1_0000, spill % 2 == 1, spill != if dst / 0x8000 % 2 == 1 then 0xFFFF else 0)
    else if count <= 31 then
      Shifted(0, src * Pow2(count - 16) % 2 == 1, src != 0)
    else if count == 32 then
      Shifted(if w >= 0x8000 then 0xFFFF else 0, w >= 0x8000, false)
    else
      Shifted(ArithRight32(src, 64 - count) % 0x1_0000, src / Pow2(63 - count) % 2 == 1, false)
  }

  // The part of ASHC that shifts, on the register pair.
  function Ashc(src: nat, count: nat): (r: Shifted)
    requires src < 0x1_0000_0000 && count < 64
  {
    var negative := src >= 0x8000_0000;
    if count == 0 then Shifted(src, false, false)
    else if count <= 31 then
      var dst := src * Pow2(count) % 0x1_0000_0000;
      var spill := src / Pow2(32 - count) + if negative then 0x1_0000_0000 - Pow2(count) else 0;
      Shifted(dst, spill % 2 == 1, spill != if dst >= 0x8000_0000 then 0xFFFF_FFFF else 0)
    else if count == 32 then
      Shifted(if negative then 0xFFFF_FFFF else 0, negative, false)
    else
      Shifted(ArithRight32(src, 64 - count), src / Pow2(63 - count) % 2 == 1, false)
  }

  // ---- The closed forms are the single shifts ----

  // Adding a multiple of the divisor adds to the quotient.
  lemma QuotientOfSum(s: int, a: nat, b: int)
    requires a > 0
    ensures (s + b * a) / a == s / a + b
  {
    assert s + b * a == (s / a + b) * a + s % a;
    DivModUnique(s + b * a, a, s / a + b, s % a);
  }

  lemma QuotientOfScaled(s: int, q: nat, p: nat)
    requires p > 0 && q > 0
    ensures s * p / (q * p) == s / q
  {
    var f, x := s / q, s % q;
    assert s * p == f * (q * p) + x * p;
    assert 0 <= x * p < q * p by {
      MulMonotone(p, x, q - 1);
      assert p * (q - 1) == q * p - p;
    }
    DivModUnique(s * p, q * p, f, x * p);
  }

  // The left shift of a number s of at most m values by a factor p, where p * q == m:
  // the part shifted out is the quotient by q.
  lemma LeftForm(s: int, m: nat, p: nat, q: nat, t: int)
    requires Width(m) && 0 <= 2 * s + m && 2 * s < m && p > 1 && q > 0 && q * p == m && t == s * p
    ensures var f := s / q;
            && t / m == f && t == f * m + t % m && 0 <= f + m / 2 && f < m / 2
            && (f != (if 2 * (t % m) >= m then -1 else 0) <==> 2 * t + m < 0 || 2 * t >= m)
  {
    QuotientOfScaled(s, q, p);
    QuotientBounds(s, m, q);
  }

  lemma QuotientBounds(s: int, m: nat, q: nat)
    requires Width(m) && q > 0 && 0 <= 2 * s + m && 2 * s < m
    ensures 0 <= s / q + m / 2 && s / q < m / 2
  {
  }

  lemma AshLeft(w: nat, count: nat)
    requires w < 0x1_0000 && 1 <= count <= 15
    ensures Ash(w, count) == Left(w, 0x1_0000, count)
  {
    var s, p, q := Signed(w, 0x1_0000), Pow2(count), Pow2(16 - count);
    Pow2Consts();
    Pow2Add(16 - count, count);
    Pow2Monotone(1, count);
    ScaledIsProduct(s, count);
    LeftDenotes(w, 0x1_0000, count);
    AshLeftDenotes(w, s, p, q, SignExtended(w));
    DenotesOnce(Ash(w, count), Left(w, 0x1_0000, count), s * p, 0x1_0000);
  }

  lemma AshLeftDenotes(w: nat, s: int, p: nat, q: nat, src: nat)
    requires w < 0x1_0000 && s == Signed(w, 0x1_0000) && src == SignExtended(w) && p > 1 && q > 0 && q * p == 0x1_0000
    ensures var dst, spill := src * p % 0x1_0000_0000, src / q % 0x1_0000;
            Denotes(Shifted(dst % 0x1_0000, spill % 2 == 1, spill != if dst / 0x8000 % 2 == 1 then 0xFFFF else 0),
                    s * p, 0x1_0000, true)
  {
    hide Denotes;
    var t, f, e := s * p, s / q, if s < 0 then 1 else 0;
    var dst, spill := src * p % 0x1_0000_0000, src / q % 0x1_0000;
    LeftForm(s, 0x1_0000, p, q, t);
    ProductOfSum(s, e, p);
    LowWord(t, e * p, src * p);
    SpillQuotient(s, e, p, q);
    SmallRemainder(f, e * p);
    TopBit(dst);
    AshCombine(t, f, dst, spill);
  }

  lemma ProductOfSum(s: int, e: nat, p: nat)
    ensures (s + e * 0x1_0000_0000) * p == s * p + (e * p) * 0x1_0000_0000
  {
  }

  lemma SpillQuotient(s: int, e: nat, p: nat, q: nat)
    requires q > 0 && q * p == 0x1_0000
    ensures (s + e * 0x1_0000_0000) / q == s / q + (e * p) * 0x1_0000
  {
    var b := (e * p) * 0x1_0000;
    assert b * q == e * 0x1_0000_0000 by {
      assert (e * p) * q == e * (q * p);
    }
    QuotientOfSum(s, q, b);
  }

  lemma AshCombine(t: int, f: int, dst: nat, spill: nat)
    requires dst % 0x1_0000 == t % 0x1_0000 && t / 0x1_0000 == f
    requires (f != (if 2 * (t % 0x1_0000) >= 0x1_0000 then -1 else 0)) <==> (2 * t + 0x1_0000 < 0 || 2 * t >= 0x1_0000)
    requires (spill == 0xFFFF <==> f == -1) && (spill == 0 <==> f == 0) && spill % 2 == f % 2
    requires dst / 0x8000 % 2 == 1 <==> dst % 0x1_0000 >= 0x8000
    ensures Denotes(Shifted(dst % 0x1_0000, spill % 2 == 1, spill != if dst / 0x8000 % 2 == 1 then 0xFFFF else 0),
                    t, 0x1_0000, true)
  {
  }

  lemma LowWord(t: int, k: int, x: nat)
    requires x == t + k * 0x1_0000_0000
    ensures x % 0x1_0000_0000 % 0x1_0000 == t % 0x1_0000
  {
    var a, b := t / 0x1_0000, t % 0x1_0000;
    var j, y := x / 0x1_0000_0000, x % 0x1_0000_0000;
    DivModUnique(y, 0x1_0000, a + (k - j) * 0x1_0000, b);
  }

  lemma SmallRemainder(f: int, k: int)
    requires -0x8000 <= f < 0x8000
    ensures var r := (f + k * 0x1_0000) % 0x1_0000;
            (r == 0xFFFF <==> f == -1) && (r == 0 <==> f == 0) && r % 2 == f % 2
  {
    DivModUnique(f + k * 0x1_0000, 0x1_0000, if f < 0 then k - 1 else k, if f < 0 then f + 0x1_0000 else f);
  }

  lemma TopBit(d: nat)
    ensures d / 0x8000 % 2 == 1 <==> d % 0x1_0000 >= 0x8000
  {
    var a, b := d / 0x8000, d % 0x8000;
    DivModUnique(d, 0x1_0000, a / 2, a % 2 * 0x8000 + b);
  }

  lemma AshFarLeft(w: nat, count: nat)
    requires w < 0x1_0000 && 16 <= count <= 31
    ensures Ash(w, count) == Left(w, 0x1_0000, count)
  {
    var s, p := Signed(w, 0x1_0000), Pow2(count - 16);
    Pow2Small();
    Pow2Add(count - 16, 16);
    ScaledIsProduct(s, count);
    LeftDenotes(w, 0x1_0000, count);
    FarDenotes(s, p, if s < 0 then 1 else 0);
    assert s * Pow2(count) == s * (p * 0x1_0000);
    DenotesOnce(Ash(w, count), Left(w, 0x1_0000, count), s * (p * 0x1_0000), 0x1_0000);
  }

  lemma FarDenotes(s: int, p: nat, e: nat)
    requires p > 0 && (if s < 0 then e == 1 else e == 0) && 0 <= s + e * 0x1_0000_0000
    ensures var src := s + e * 0x1_0000_0000;
            s > -0x1_0000 ==> Denotes(Shifted(0, src * p % 2 == 1, src != 0), s * (p * 0x1_0000), 0x1_0000, true)
  {
    var t, src := s * (p * 0x1_0000), s + e * 0x1_0000_0000;
    assert t == (s * p) * 0x1_0000;
    DivModUnique(t, 0x1_0000, s * p, 0);
    assert src * p == s * p + (e * p) * 0x1_0000_0000;
    DivModUnique(src * p, 2, s * p / 2 + (e * p) * 0x8000_0000, s * p % 2);
    if s > 0 {
      MulMonotone(p, 1, s);
    } else if s < 0 {
      MulMonotone(p, 1, -s);
      assert p * (-s) + s * p == 0;
      assert s * p <= -1 && t <= -0x1_0000 && e == 1;
    }
  }

  lemma AshcLeft(src: nat, count: nat)
    requires src < 0x1_0000_0000 && 1 <= count <= 31
    ensures Ashc(src, count) == Left(src, 0x1_0000_0000, count)
  {
    var m := 0x1_0000_0000;
    var s, p, q := Signed(src, m), Pow2(count), Pow2(32 - count);
    Pow2Consts();
    Pow2Add(32 - count, count);
    Pow2Monotone(1, count);
    Pow2Within(count);
    ScaledIsProduct(s, count);
    LeftDenotes(src, m, count);
    AshcLeftDenotes(src, s, p, q);
    DenotesOnce(Ashc(src, count), Left(src, m, count), s * p, m);
  }

  lemma AshcLeftDenotes(src: nat, s: int, p: nat, q: nat)
    requires src < 0x1_0000_0000 && s == Signed(src, 0x1_0000_0000) && p > 1 && q > 0 && q * p == 0x1_0000_0000
    ensures var dst := src * p % 0x1_0000_0000;
            var spill := src / q + if src >= 0x8000_0000 then 0x1_0000_0000 - p else 0;
            Denotes(Shifted(dst, spill % 2 == 1, spill != if dst >= 0x8000_0000 then 0xFFFF_FFFF else 0),
                    s * p, 0x1_0000_0000, true)
  {
    var t, f, e := s * p, s / q, if s < 0 then 1 else 0;
    LeftForm(s, 0x1_0000_0000, p, q, t);
    assert src * p % 0x1_0000_0000 == t % 0x1_0000_0000 by {
      ProductOfSum(s, e, p);
      assert t + (e * p) * 0x1_0000_0000 == (f + e * p) * 0x1_0000_0000 + t % 0x1_0000_0000;
      DivModUnique(src * p, 0x1_0000_0000, f + e * p, t % 0x1_0000_0000);
    }
    assert src / q == f + e * p by {
      assert (e * p) * q == e * (q * p);
      QuotientOfSum(s, q, e * p);
    }
    if s >= 0 {
      NonNegative(s, q);
    } else {
      Negative(s, q);
    }
  }

  lemma NonNegative(s: nat, q: nat)
    requires q > 0
    ensures s / q >= 0
  {
    var f := Quotient(s, q);
  }

  lemma Negative(s: int, q: nat)
    requires q > 0 && s < 0
    ensures s / q < 0
  {
    if s / q >= 0 {
      MulMonotone(q, 0, s / q);
    }
  }

  lemma AshRight(w: nat, n: nat)
    requires w < 0x1_0000 && 1 <= n <= 32
    ensures Ash(w, 64 - n) == Right(w, 0x1_0000, n)
  {
    var s, src, e := Signed(w, 0x1_0000), SignExtended(w), if w >= 0x8000 then 1 else 0;
    RightDenotes(w, 0x1_0000, n);
    FarRight(s, n, e);
    if n < 32 {
      RightQuotient(src, s, n, e);
      var r := Right(w, 0x1_0000, n).w;
      DivModUnique(s / Pow2(n) + e * 0x1_0000_0000, 0x1_0000,
                   e * 0x1_0000 - if 2 * r >= 0x1_0000 then 1 else 0, r);
    }
  }

  lemma AshcRight(src: nat, n: nat)
    requires src < 0x1_0000_0000 && 1 <= n <= 32
    ensures Ashc(src, 64 - n) == Right(src, 0x1_0000_0000, n)
  {
    var s, e := Signed(src, 0x1_0000_0000), if src >= 0x8000_0000 then 1 else 0;
    RightDenotes(src, 0x1_0000_0000, n);
    FarRight(s, n, e);
    if n < 32 {
      RightQuotient(src, s, n, e);
      if s >= 0 {
        NonNegative(s, Pow2(n));
      } else {
        Negative(s, Pow2(n));
      }
    }
  }

  // At 32 only the sign is left.
  lemma FarRight(s: int, n: nat, e: int)
    requires n <= 32 && -0x8000_0000 <= s < 0x8000_0000 && (if s < 0 then e == 1 else e == 0)
    ensures n == 32 ==> s / Pow2(n) == -e && (n > 0 ==> s / Pow2(n - 1) == -e)
  {
    if n == 32 {
      Pow2Consts();
      assert Pow2(31) * 2 == Pow2(32);
      DivModUnique(s, 0x1_0000_0000, -e, s + e * 0x1_0000_0000);
      DivModUnique(s, 0x8000_0000, -e, s + e * 0x8000_0000);
    }
  }

  // The computed quotient and last bit out, from the signed number.
  lemma RightQuotient(src: nat, s: int, n: nat, e: nat)
    requires 1 <= n < 32 && e < 2 && src == s + e * 0x1_0000_0000 && src < 0x1_0000_0000
    requires -0x8000_0000 <= s < 0x8000_0000 && (if s < 0 then e == 1 else e == 0)
    ensures ArithRight32(src, n) == s / Pow2(n) + e * 0x1_0000_0000
    ensures (src / Pow2(n - 1) % 2 == 1) == (s / Pow2(n - 1) % 2 == 1)
  {
    var a, b := Pow2(n), Pow2(32 - n);
    var c, d := Pow2(n - 1), Pow2(33 - n);
    Pow2Consts();
    Pow2Add(32 - n, n);
    Pow2Add(33 - n, n - 1);
    assert e * 0x1_0000_0000 == (e * b) * a && e * 0x1_0000_0000 == (e * d) * c;
    QuotientOfSum(s, a, e * b);
    QuotientOfSum(s, c, e * d);
    var g := Pow2(32 - n);
    assert d == 2 * g;
    DivModUnique(s / c + e * d, 2, s / c / 2 + e * g, s / c % 2);
  }

  // ASH and ASHC with any count are that many single shifts.
  lemma AshIsSingleShifts(w: nat, count: nat)
    requires w < 0x1_0000 && count < 64
    ensures Ash(w, count) == ByCount(w, 0x1_0000, count)
  {
    if 1 <= count <= 15 {
      AshLeft(w, count);
    } else if 16 <= count <= 31 {
      AshFarLeft(w, count);
    } else if count >= 32 {
      AshRight(w, 64 - count);
    }
  }

  lemma AshcIsSingleShifts(src: nat, count: nat)
    requires src < 0x1_0000_0000 && count < 64
    ensures Ashc(src, count) == ByCount(src, 0x1_0000_0000, count)
  {
    if 1 <= count <= 31 {
      AshcLeft(src, count);
    } else if count >= 32 {
      AshcRight(src, 64 - count);
    }
  }
}
