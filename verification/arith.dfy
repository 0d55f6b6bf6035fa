// Machine integers and the integer facts shared by the models: powers of two,
// quotients fixed by their remainders, and bitwise AND on naturals.
module Arith {

  datatype Option<+T> = None | Some(value: T)

  type u8 = x: int | 0 <= x < 0x100
  type u16 = x: int | 0 <= x < 0x1_0000
  type u32 = x: int | 0 <= x < 0x1_0000_0000

  function Abs(x: int): int {
    if x < 0 then -x else x
  }

  function Min(a: nat, b: nat): nat {
    if a < b then a else b
  }

  function Pow2(n: nat): (p: nat)
    ensures p >= 1
  {
    if n == 0 then 1 else 2 * Pow2(n - 1)
  }

  lemma {:induction false} Pow2Add(a: nat, b: nat)
    ensures Pow2(a + b) == Pow2(a) * Pow2(b)
  {
    if a == 0 {
    } else {
      Pow2Add(a - 1, b);
      assert Pow2(a + b) == 2 * Pow2(a - 1 + b);
      assert 2 * (Pow2(a - 1) * Pow2(b)) == (2 * Pow2(a - 1)) * Pow2(b);
    }
  }

  lemma {:induction false} Pow2Monotone(a: nat, b: nat)
    requires a <= b
    ensures Pow2(a) <= Pow2(b)
  {
    if a < b {
      Pow2Monotone(a, b - 1);
    }
  }

  lemma MulAtLeast(k: int, d: int)
    requires k >= 1 && d > 0
    ensures k * d >= d
  {
  }

  lemma Pow2Small()
    ensures Pow2(0) == 1 && Pow2(1) == 2 && Pow2(2) == 4 && Pow2(3) == 8 && Pow2(4) == 0x10
    ensures Pow2(6) == 0x40 && Pow2(8) == 0x100 && Pow2(12) == 0x1000 && Pow2(16) == 0x1_0000
  {
    assert Pow2(4) == 0x10;
    Pow2Add(2, 4);
    Pow2Add(4, 4);
    Pow2Add(4, 8);
    Pow2Add(8, 8);
  }

  lemma Pow2Consts()
    ensures Pow2(0) == 1 && Pow2(1) == 2 && Pow2(2) == 4 && Pow2(3) == 8
    ensures Pow2(6) == 0x40 && Pow2(12) == 0x1000 && Pow2(16) == 0x1_0000
    ensures Pow2(24) == 0x100_0000 && Pow2(27) == 0x800_0000 && Pow2(32) == 0x1_0000_0000
    ensures Pow2(56) == 0x100_0000_0000_0000 && Pow2(59) == 0x800_0000_0000_0000
  {
    Pow2Small();
    Pow2Add(8, 16);
    Pow2Add(3, 24);
    Pow2Add(16, 16);
    Pow2Add(24, 32);
    Pow2Add(27, 32);
  }

  // A quotient and remainder within range are the quotient and remainder.
  lemma DivModUnique(x: int, d: int, q: int, r: int)
    requires d > 0 && 0 <= r < d && x == q * d + r
    ensures x / d == q && x % d == r
  {
    var q', r' := x / d, x % d;
    assert (q - q') * d == r' - r;
    if q - q' >= 1 {
      MulAtLeast(q - q', d);
    } else if q' - q >= 1 {
      MulAtLeast(q' - q, d);
    }
  }

  // Dividing twice is dividing by the product.
  lemma DivDiv(x: nat, a: nat, b: nat)
    requires a > 0 && b > 0
    ensures a * b > 0 && x / a / b == x / (a * b)
  {
    var q, r := x / a, x % a;
    var q', r' := q / b, q % b;
    assert x == q' * (a * b) + (r' * a + r) by {
      assert x == (q' * b + r') * a + r;
      assert (q' * b + r') * a == q' * (a * b) + r' * a;
    }
    assert r' * a + r < a * b by {
      MulMonotone(a, r' + 1, b);
      assert a * (r' + 1) == r' * a + a;
    }
    DivModUnique(x, a * b, q', r' * a + r);
  }

  lemma MulMonotone(q: nat, a: int, b: int)
    requires a <= b
    ensures q * a <= q * b
  {
  }

  // A product of three factors in any order.
  lemma MulGroup(a: nat, b: nat, c: nat)
    ensures (a * b) * c == a * (b * c) == a * (c * b) == b * (a * c) == (a * c) * b
  {
  }

  // Scaling dividend and divisor alike keeps the quotient.
  lemma DivScale(x: nat, d: nat, m: nat)
    requires d > 0 && m > 0
    ensures d * m > 0 && (x * m) / (d * m) == x / d
  {
    var q, r := x / d, x % d;
    assert x * m == q * (d * m) + r * m;
    assert r * m < d * m;
    DivModUnique(x * m, d * m, q, r * m);
  }

  // Bitwise AND of two naturals, bit by bit.
  function And(x: nat, y: nat): (r: nat)
    ensures r <= x
  {
    if x == 0 || y == 0 then 0 else 2 * And(x / 2, y / 2) + (x % 2) * (y % 2)
  }

  // The low n bits of x, built up bit by bit.
  function LowBits(x: nat, n: nat): nat {
    if n == 0 then 0 else 2 * LowBits(x / 2, n - 1) + x % 2
  }

  lemma {:induction false} LowBitsMod(x: nat, n: nat)
    ensures LowBits(x, n) == x % Pow2(n)
  {
    if n > 0 {
      LowBitsMod(x / 2, n - 1);
      ModDouble(x, Pow2(n - 1));
    }
  }

  // The low n + 1 bits are the low n bits of the half, and the lowest bit.
  lemma ModDouble(x: nat, p: nat)
    requires p > 0
    ensures x % (2 * p) == 2 * ((x / 2) % p) + x % 2
  {
    var q, r := (x / 2) / p, (x / 2) % p;
    assert x == q * (2 * p) + (2 * r + x % 2);
    DivModUnique(x, 2 * p, q, 2 * r + x % 2);
  }

  // AND with n low ones keeps the low n bits.
  lemma {:induction false} AndLowBits(x: nat, n: nat, m: nat)
    requires m == Pow2(n) - 1
    ensures And(x, m) == LowBits(x, n)
  {
    if n > 0 {
      AndLowBits(x / 2, n - 1, m / 2);
      AndStep(x, m);
    }
  }

  lemma AndLowMask(x: nat, n: nat, m: nat)
    requires m == Pow2(n) - 1
    ensures And(x, m) == x % Pow2(n)
  {
    AndLowBits(x, n, m);
    LowBitsMod(x, n);
  }

  // A mask and its complement within w bits split a w-bit number.
  lemma {:induction false} AndComplement(x: nat, m: nat, w: nat)
    requires x < Pow2(w) && m < Pow2(w)
    ensures And(x, m) + And(x, Pow2(w) - 1 - m) == x
    decreases w
  {
    if w > 0 && x != 0 {
      var c := Pow2(w) - 1 - m;
      var h := Pow2(w - 1);
      AndComplement(x / 2, m / 2, w - 1);
      AndStep(x, m);
      AndStep(x, c);
      HalfComplement(h, m);
      assert (x % 2) * (m % 2) + (x % 2) * (1 - m % 2) == x % 2;
    }
  }

  lemma HalfComplement(h: nat, m: nat)
    requires m < 2 * h
    ensures (2 * h - 1 - m) / 2 == h - 1 - m / 2 && (2 * h - 1 - m) % 2 == 1 - m % 2
  {
  }

  lemma AndStep(x: nat, m: nat)
    ensures And(x, m) == 2 * And(x / 2, m / 2) + (x % 2) * (m % 2)
  {
  }

  // AND with the complement of n low ones, within w bits, clears the low n bits.
  lemma AndHighMask(x: nat, n: nat, w: nat, m: nat)
    requires n <= w && x < Pow2(w) && m == Pow2(w) - Pow2(n)
    ensures And(x, m) == x - x % Pow2(n)
  {
    Pow2Monotone(n, w);
    AndComplement(x, Pow2(n) - 1, w);
    AndLowMask(x, n, Pow2(n) - 1);
  }
}
