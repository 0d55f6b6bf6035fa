// The 64-bit quantities of the FP11, held as two 32-bit halves, and the
// double-word operations on them.
module FpWord {
  import opened Arith

  datatype Fpac = Fpac(h: u32, l: u32) {
    function Val(): (v: nat)
      ensures v < 0x1_0000_0000_0000_0000
    {
      h * 0x1_0000_0000 + l
    }
  }

  // Adding or multiplying by a power of two is modulo this.
  const WORD := 0x1_0000_0000_0000_0000

  // F_ADD: the carry out of the low half is seen as a low sum below an addend.
  function Add(s2: Fpac, s1: Fpac): (r: Fpac) {
    var l := (s1.l + s2.l) % 0x1_0000_0000;
    Fpac((s1.h + s2.h + (if l < s2.l then 1 else 0)) % 0x1_0000_0000, l)
  }

  lemma AddVal(s2: Fpac, s1: Fpac)
    ensures Add(s2, s1).Val() == (s1.Val() + s2.Val()) % WORD
    ensures s1.Val() + s2.Val() < WORD ==> Add(s2, s1).Val() == s1.Val() + s2.Val()
  {
    var l: int := s1.l + s2.l;
    var c := if l < 0x1_0000_0000 then 0 else 1;
    DivModUnique(l, 0x1_0000_0000, c, l - c * 0x1_0000_0000);
    var h := s1.h + s2.h + c;
    var c' := if h < 0x1_0000_0000 then 0 else 1;
    DivModUnique(h, 0x1_0000_0000, c', h - c' * 0x1_0000_0000);
    DivModUnique(s1.Val() + s2.Val(), WORD, c', Add(s2, s1).Val());
  }

  // Adding high halves only.
  function AddHigh(s2: Fpac, s1: Fpac): (r: Fpac) {
    Fpac((s1.h + s2.h) % 0x1_0000_0000, s1.l)
  }

  lemma AddHighVal(s2: Fpac, s1: Fpac)
    requires s2.l == 0 && s1.Val() + s2.Val() < 0x1_0000_0000_0000_0000
    ensures AddHigh(s2, s1).Val() == s1.Val() + s2.Val()
  {
    var h := s1.h + s2.h;
    assert h < 0x1_0000_0000;
    DivModUnique(h, 0x1_0000_0000, 0, h);
    assert AddHigh(s2, s1) == Fpac(h, s1.l);
  }

  // F_SUB: s1 - s2.
  function Sub(s2: Fpac, s1: Fpac): (r: Fpac) {
    Fpac((s1.h - s2.h - (if s1.l < s2.l then 1 else 0)) % 0x1_0000_0000, (s1.l - s2.l) % 0x1_0000_0000)
  }

  lemma SubVal(s2: Fpac, s1: Fpac)
    ensures Sub(s2, s1).Val() == (s1.Val() - s2.Val()) % WORD
    ensures s2.Val() <= s1.Val() ==> Sub(s2, s1).Val() == s1.Val() - s2.Val()
  {
    var l: int := s1.l - s2.l;
    var b := if l < 0 then 1 else 0;
    DivModUnique(l, 0x1_0000_0000, -b, l + b * 0x1_0000_0000);
    var h := s1.h - s2.h - b;
    var b' := if h < 0 then 1 else 0;
    DivModUnique(h, 0x1_0000_0000, -b', h + b' * 0x1_0000_0000);
    DivModUnique(s1.Val() - s2.Val(), WORD, -b', Sub(s2, s1).Val());
  }

  // F_LT
  predicate Lt(x: Fpac, y: Fpac)
    ensures Lt(x, y) <==> x.Val() < y.Val()
  {
    x.h < y.h || (x.h == y.h && x.l < y.l)
  }

  // F_LSH_1
  function Lsh1(s: Fpac): (r: Fpac) {
    Fpac((s.h * 2 + s.l / 0x8000_0000) % 0x1_0000_0000, (s.l * 2) % 0x1_0000_0000)
  }

  lemma Lsh1Val(s: Fpac)
    requires s.Val() < 0x8000_0000_0000_0000
    ensures Lsh1(s).Val() == 2 * s.Val()
  {
    var c := if s.l < 0x8000_0000 then 0 else 1;
    DivModUnique(s.l, 0x8000_0000, c, s.l - c * 0x8000_0000);
    DivModUnique(s.l * 2, 0x1_0000_0000, c, s.l * 2 - c * 0x1_0000_0000);
    DivModUnique(s.h * 2 + c, 0x1_0000_0000, 0, s.h * 2 + c);
  }

  // F_RSH_1
  function Rsh1(s: Fpac): (r: Fpac)
    ensures r.Val() == s.Val() / 2
  {
    var q, b := s.h / 2, s.h % 2;
    var p, c := s.l / 2, s.l % 2;
    DivModUnique(s.h * 0x1_0000_0000 + s.l, 2, q * 0x1_0000_0000 + (p + b * 0x8000_0000), c);
    Fpac(s.h / 2, s.l / 2 + (s.h % 2) * 0x8000_0000)
  }

  // F_LSH_V for 1 <= n < 64
  function LshV(s: Fpac, n: nat): (r: Fpac)
    requires 1 <= n < 64
  {
    if n >= 32 then Fpac((s.l * Pow2(n - 32)) % 0x1_0000_0000, 0)
    else Fpac((s.h * Pow2(n) + s.l / Pow2(32 - n)) % 0x1_0000_0000, (s.l * Pow2(n)) % 0x1_0000_0000)
  }

  // F_RSH_V for 1 <= n < 64
  function RshV(s: Fpac, n: nat): (r: Fpac)
    requires 1 <= n < 64
  {
    if n >= 32 then DivAtMost(s.h, Pow2(n - 32)); Fpac(0, s.h / Pow2(n - 32))
    else DivAtMost(s.h, Pow2(n)); Fpac(s.h / Pow2(n), (s.l / Pow2(n) + s.h * Pow2(32 - n)) % 0x1_0000_0000)
  }

  lemma DivAtMost(x: nat, d: nat)
    requires d > 0
    ensures 0 <= x / d <= x
  {
    var q := x / d;
    assert q * d <= x;
    if q >= 1 {
      assert q * d >= q by { MulMonotone(q, 1, d); }
    }
  }

  lemma Pow2Split32(n: nat)
    requires n <= 32
    ensures Pow2(n) * Pow2(32 - n) == 0x1_0000_0000
  {
    Pow2Add(n, 32 - n);
    Pow2Consts();
  }

  // Value of the halves after a right shift by n: floor division by 2^n.
  lemma RshVVal(s: Fpac, n: nat)
    requires 1 <= n < 64
    ensures RshV(s, n).Val() == s.Val() / Pow2(n)
  {
    if n >= 32 {
      Pow2Add(32, n - 32);
      Pow2Consts();
      DivDiv(s.Val(), 0x1_0000_0000, Pow2(n - 32));
      assert s.Val() / 0x1_0000_0000 == s.h;
    } else {
      Pow2Split32(n);
      RshVHalves(s.h, s.l, Pow2(n), Pow2(32 - n));
    }
  }

  lemma RshVHalves(h: u32, l: u32, p: nat, q: nat)
    requires p > 0 && q > 0 && p * q == 0x1_0000_0000
    ensures (h / p) * 0x1_0000_0000 + (l / p + h * q) % 0x1_0000_0000 == (h * 0x1_0000_0000 + l) / p
  {
    var a, b := h / p, h % p;
    var c, d := l / p, l % p;
    LowHalf(a, b, c, d, p, q, h, l);
    assert h * q == a * 0x1_0000_0000 + b * q by {
      assert h * q == (a * p + b) * q;
      assert (a * p) * q == a * (p * q);
    }
    DivModUnique(c + h * q, 0x1_0000_0000, a, c + b * q);
    assert h * 0x1_0000_0000 + l == (a * 0x1_0000_0000 + b * q + c) * p + d by {
      assert h * 0x1_0000_0000 == (h * q) * p;
      assert (a * 0x1_0000_0000 + b * q + c) * p == (a * 0x1_0000_0000 + b * q) * p + c * p;
    }
    DivModUnique(h * 0x1_0000_0000 + l, p, a * 0x1_0000_0000 + b * q + c, d);
  }

  lemma QuotientBelow(x: nat, p: nat, q: nat)
    requires p > 0 && x < p * q
    ensures x / p < q
  {
    if x / p >= q {
      MulMonotone(p, q, x / p);
    }
  }

  lemma LowHalf(a: nat, b: nat, c: nat, d: nat, p: nat, q: nat, h: u32, l: u32)
    requires p > 0 && q > 0 && p * q == 0x1_0000_0000
    requires a == h / p && b == h % p && c == l / p && d == l % p
    ensures h == a * p + b && l == c * p + d && b < p && d < p
    ensures 0 <= c + b * q < 0x1_0000_0000
  {
    QuotientBelow(l, p, q);
    MulMonotone(q, b, p - 1);
    assert q * (p - 1) == q * p - q;
  }

  // Value of the halves after a left shift by n.
  lemma LshVVal(s: Fpac, n: nat)
    requires 1 <= n < 64
    ensures LshV(s, n).Val() == s.Val() * Pow2(n) % WORD
    ensures s.Val() * Pow2(n) < WORD ==> LshV(s, n).Val() == s.Val() * Pow2(n)
  {
    hide LshV, Pow2;
    var x := s.Val() * Pow2(n);
    LshVMod(s, n, x);
    SmallRemainder(x);
  }

  lemma SmallRemainder(x: nat)
    ensures x < WORD ==> x % WORD == x
  {
  }

  lemma LshVMod(s: Fpac, n: nat, x: nat)
    requires 1 <= n < 64 && x == s.Val() * Pow2(n)
    ensures LshV(s, n).Val() == x % WORD
  {
    if n >= 32 {
      Pow2Add(32, n - 32);
      Pow2Consts();
      LshVHigh(s.h, s.l, Pow2(n - 32), Pow2(n), x);
    } else {
      Pow2Split32(n);
      LshVHalves(s.h, s.l, Pow2(n), Pow2(32 - n), x);
    }
  }

  lemma LshVHigh(h: u32, l: u32, m: nat, p: nat, x: nat)
    requires m > 0 && p == 0x1_0000_0000 * m && x == (h * 0x1_0000_0000 + l) * p
    ensures ((l * m) % 0x1_0000_0000) * 0x1_0000_0000 == x % WORD
  {
    var c, r := (l * m) / 0x1_0000_0000, (l * m) % 0x1_0000_0000;
    assert x == (h * m) * WORD + (l * m) * 0x1_0000_0000;
    assert (l * m) * 0x1_0000_0000 == c * WORD + r * 0x1_0000_0000;
    DivModUnique(x, WORD, h * m + c, r * 0x1_0000_0000);
  }

  lemma LshVHalves(h: u32, l: u32, p: nat, q: nat, x: nat)
    requires p > 0 && q > 0 && p * q == 0x1_0000_0000 && x == (h * 0x1_0000_0000 + l) * p
    ensures ((h * p + l / q) % 0x1_0000_0000) * 0x1_0000_0000 + (l * p) % 0x1_0000_0000 == x % WORD
  {
    var c, d := l / q, l % q;
    MulMonotone(p, d + 1, q);
    assert p * (d + 1) == d * p + p;
    assert l * p == c * 0x1_0000_0000 + d * p by {
      assert l * p == (c * q + d) * p;
      assert (c * q) * p == c * (p * q);
    }
    DivModUnique(l * p, 0x1_0000_0000, c, d * p);
    assert x == (h * p + c) * 0x1_0000_0000 + d * p;
    TwoHalves(h * p + c, d * p, x);
  }

  lemma TwoHalves(y: nat, r: nat, x: nat)
    requires r < 0x1_0000_0000 && x == y * 0x1_0000_0000 + r
    ensures (y % 0x1_0000_0000) * 0x1_0000_0000 + r == x % WORD
  {
    var e, f := y / 0x1_0000_0000, y % 0x1_0000_0000;
    DivModUnique(x, WORD, e, f * 0x1_0000_0000 + r);
  }

  // F_LSH_K and F_RSH_K compute what the variable shifts do; F_LSH_GUARD and
  // F_RSH_GUARD shift by the three guard bits.
  function LshGuard(s: Fpac): Fpac {
    LshV(s, 3)
  }

  function RshGuard(s: Fpac): Fpac {
    RshV(s, 3)
  }

  lemma LshGuardVal(s: Fpac)
    requires s.Val() < 0x2000_0000_0000_0000
    ensures LshGuard(s).Val() == 8 * s.Val()
  {
    Pow2Consts();
    LshVVal(s, 3);
  }

  lemma RshGuardVal(s: Fpac)
    ensures RshGuard(s).Val() == s.Val() / 8
  {
    Pow2Consts();
    RshVVal(s, 3);
  }
}
