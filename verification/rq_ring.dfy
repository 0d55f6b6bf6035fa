// The descriptor rings of the UQSSP port: ownership, visits and positions, and the
// logs that say what went through them.
module RqRing {
  import opened Arith

  datatype State = S1 | S1Wrap | S2 | S3 | S3Ppa | S3Ppb | S4 | Up | Dead

  // A ring of descriptors: where it starts, and its length and position in bytes.
  datatype Ring = Ring(base: nat, len: nat, idx: nat)

  function Advance(r: Ring): Ring {
    if r.len == 0 then r
    else if r.idx + 4 >= r.len then r.(idx := 0)
    else r.(idx := r.idx + 4)
  }

  // A descriptor: the port owns it while the top bit of its second word is set.
  datatype Desc = Desc(lo: u16, hi: u16)

  predicate Own(hi: u16) {
    hi >= 0x8000
  }

  // The packet address, 22 bits and even.
  function AddrOf(d: Desc): nat {
    d.hi % 0x40 * 0x1_0000 + (d.lo - d.lo % 2)
  }

  // Giving a descriptor back clears the owner bit and sets the flag bit.
  function Released(hi: u16): (r: u16)
    ensures !Own(r)
  {
    hi % 0x4000 + 0x4000
  }

  // The host hands over a buffer with its even 22-bit address and the owner bit; the
  // address comes back from the descriptor, and is still there on its release, with the
  // flag bit set.
  lemma DescriptorAddress(a: nat)
    requires a < 0x40_0000 && a % 2 == 0
    ensures var d := Desc(a % 0x1_0000, 0x8000 + a / 0x1_0000);
            var hi := Released(d.hi);
            && Own(d.hi) && AddrOf(d) == a
            && !Own(hi) && AddrOf(Desc(d.lo, hi)) == a && hi / 0x4000 == 1 && hi % 0x4000 == d.hi % 0x4000
  {
    var q, r := a / 0x1_0000, a % 0x1_0000;
    DivModUnique(r, 2, a / 2 - q * 0x8000, 0);
    DivModUnique(0x8000 + q, 0x40, 0x200, q);
    DivModUnique(0x8000 + q, 0x4000, 2, q);
    DivModUnique(0x4000 + q, 0x40, 0x100, q);
  }

  function Bits(v: u16, low: nat, width: nat): nat
    requires low > 0 && width > 0
  {
    v / low % width
  }

  // ---- Logs ----

  // A command taken from a slot, with its reference number.
  datatype Taken = Taken(slot: nat, refl: u16, refh: u16)

  // A response put in a slot: the end of a command, with the credits it grants, or
  // an attention.
  datatype Sent = End(slot: nat, refl: u16, refh: u16, grant: nat) | Attention(slot: nat)

  function References(log: seq<Taken>): seq<(u16, u16)> {
    if log == [] then []
    else
      var t := log[|log| - 1];
      References(log[..|log| - 1]) + [(t.refl, t.refh)]
  }

  function Ends(log: seq<Sent>): seq<(u16, u16)> {
    if log == [] then []
    else
      var s := log[|log| - 1];
      Ends(log[..|log| - 1]) + if s.End? then [(s.refl, s.refh)] else []
  }

  function Attentions(log: seq<Sent>): nat {
    if log == [] then 0
    else Attentions(log[..|log| - 1]) + if log[|log| - 1].Attention? then 1 else 0
  }

  function Granted(log: seq<Sent>): nat {
    if log == [] then 0
    else
      var s := log[|log| - 1];
      Granted(log[..|log| - 1]) + if s.End? then s.grant else 0
  }

  lemma LogEnd(cmds: seq<Taken>, log: seq<Sent>, t: Taken, s: Sent)
    requires s.End? && s.refl == t.refl && s.refh == t.refh
    ensures References(cmds + [t]) == References(cmds) + [(t.refl, t.refh)]
    ensures Ends(log + [s]) == Ends(log) + [(t.refl, t.refh)]
    ensures Granted(log + [s]) == Granted(log) + s.grant
  {
    assert (cmds + [t])[..|cmds|] == cmds && (log + [s])[..|log|] == log;
  }

  lemma LogAttention(log: seq<Sent>, s: Sent)
    requires s.Attention?
    ensures Ends(log + [s]) == Ends(log) && Granted(log + [s]) == Granted(log)
  {
    assert (log + [s])[..|log|] == log;
  }

  // How often slot k has been visited after t steps round a ring of n slots.
  function Visits(t: nat, n: nat, k: nat): nat
    requires n > 0
  {
    if t == 0 then 0 else Visits(t - 1, n, k) + if (t - 1) % n == k then 1 else 0
  }

  lemma {:induction false} LogCounts(log: seq<Sent>)
    ensures |log| == |Ends(log)| + Attentions(log)
  {
    if log != [] {
      LogCounts(log[..|log| - 1]);
    }
  }

  lemma {:induction false} ReferenceCount(log: seq<Taken>)
    ensures |References(log)| == |log|
  {
    if log != [] {
      ReferenceCount(log[..|log| - 1]);
    }
  }

  lemma {:induction false} ReferenceAt(log: seq<Taken>, i: nat)
    requires i < |log|
    ensures |References(log)| == |log| && References(log)[i] == (log[i].refl, log[i].refh)
  {
    ReferenceCount(log);
    ReferenceCount(log[..|log| - 1]);
    if i < |log| - 1 {
      ReferenceAt(log[..|log| - 1], i);
    }
  }

  // A full turn visits every slot once.
  lemma {:induction false} VisitsPerTurn(n: nat, k: nat, turns: nat, j: nat)
    requires k < n && j <= n
    ensures Visits(turns * n + j, n, k) == turns + if k < j then 1 else 0
    decreases turns, j
  {
    if j > 0 {
      VisitsPerTurn(n, k, turns, j - 1);
      DivModUnique(turns * n + (j - 1), n, turns, j - 1);
    } else if turns > 0 {
      VisitsPerTurn(n, k, turns - 1, n);
      assert turns * n == (turns - 1) * n + n;
    }
  }

  lemma VisitsAt(t: nat, n: nat, k: nat)
    requires k < n
    ensures Visits(t, n, k) == t / n + if k < t % n then 1 else 0
  {
    VisitsPerTurn(n, k, t / n, t % n);
    assert t == t / n * n + t % n;
  }

  // What serving a command does beyond the rings: the response body, its length and
  // end code, the controller flags, and the memory words that the transfer fills.
  datatype Effect = Effect(body: seq<u16>, lnt: u16, opf: u16, cflgs: u16, data: map<nat, u16>) {
    predicate Ok() {
      |body| == 32 && lnt % 2 == 0 && lnt <= 60 && opf % 0x100 >= 0x80
    }
  }

  function Apply(mem: seq<u16>, data: map<nat, u16>): (m: seq<u16>)
    ensures |m| == |mem|
  {
    seq(|mem|, i requires 0 <= i < |mem| => if i in data then data[i] else mem[i])
  }

  // The response packet: the command's reference comes back with the end code.
  function Response(cmd: seq<u16>, eff: Effect): (r: seq<u16>)
    requires |cmd| == 32 && |eff.body| == 32
    ensures |r| == 32 && r[0] == eff.lnt && r[1] == 0 && r[2] == cmd[2] && r[3] == cmd[3] && r[6] == eff.opf
  {
    eff.body[0 := eff.lnt][1 := 0][2 := cmd[2]][3 := cmd[3]][6 := eff.opf]
  }

  // ---- Rings in memory words ----

  // The word that an address reaches: addresses wrap at the size of the bus.
  function WordOf(size: nat, a: nat): nat
    requires size > 0
  {
    a % size / 2
  }

  // Outside the communication area [lo, hi).
  predicate Off(lo: int, hi: int, w: nat) {
    w < lo || w >= hi
  }

  // A packet buffer that stays clear of the communication area.
  predicate BufferOff(size: nat, lo: int, hi: int, addr: nat)
    requires size > 0
  {
    addr >= 4 ==> forall i | 0 <= i < 32 :: Off(lo, hi, WordOf(size, addr - 4 + 2 * i))
  }

  // The first k words of a packet lie in a memory of n words.
  predicate Reachable(size: nat, n: nat, addr: nat, k: nat)
    requires size > 0
  {
    addr >= 4 && forall i | 0 <= i < k :: WordOf(size, addr - 4 + 2 * i) < n
  }

  // One of the first k words of the packet at addr.
  predicate InPacket(size: nat, addr: nat, k: nat, w: nat)
    requires size > 0
  {
    addr >= 4 && exists i | 0 <= i < k :: WordOf(size, addr - 4 + 2 * i) == w
  }

  // Outside the area [lo, hi) and the packet, the words of data are in place and no
  // other word has changed.
  ghost predicate DataOnly(m: seq<u16>, m': seq<u16>, size: nat, lo: int, hi: int, addr: nat, k: nat,
                           data: map<nat, u16>)
    requires size > 0
  {
    && |m'| == |m|
    && forall w | 0 <= w < |m| && Off(lo, hi, w) && !InPacket(size, addr, k, w) ::
         m'[w] == if w in data then data[w] else m[w]
  }

  lemma DataThen(m: seq<u16>, m1: seq<u16>, m2: seq<u16>, size: nat, lo: int, hi: int, addr: nat, k: nat,
                 data: map<nat, u16>)
    requires size > 0 && DataOnly(m, m1, size, lo, hi, addr, k, data)
    requires |m2| == |m1| && forall w | 0 <= w < |m1| && Off(lo, hi, w) :: m2[w] == m1[w]
    ensures DataOnly(m, m2, size, lo, hi, addr, k, data)
  {
    hide InPacket, Off;
  }

  // n descriptors from word w.
  ghost predicate Fits(mem: seq<u16>, w: nat, n: nat) {
    n > 0 && w + 2 * n <= |mem|
  }

  // Each slot has been handed over once more than it was visited while the port owns
  // it, and as often otherwise.
  ghost predicate Hands(mem: seq<u16>, w: nat, n: nat, t: nat, handed: seq<nat>) {
    && Fits(mem, w, n) && |handed| == n
    && forall k | 0 <= k < n :: handed[k] == Visits(t, n, k) + if Own(mem[w + 2 * k + 1]) then 1 else 0
  }

  ghost predicate Buffers(mem: seq<u16>, w: nat, n: nat, size: nat, lo: int, hi: int)
    requires size > 0
  {
    && Fits(mem, w, n)
    && forall k | 0 <= k < n :: Own(mem[w + 2 * k + 1]) ==>
         BufferOff(size, lo, hi, AddrOf(Desc(mem[w + 2 * k], mem[w + 2 * k + 1])))
  }

  // The port takes the descriptor at its position and moves on.
  lemma TakeStep(mem: seq<u16>, mem': seq<u16>, w: nat, n: nat, t: nat, handed: seq<nat>, size: nat, lo: int, hi: int)
    requires size > 0 && Hands(mem, w, n, t, handed) && Buffers(mem, w, n, size, lo, hi)
    requires Own(mem[w + 2 * (t % n) + 1]) && |mem'| == |mem| && !Own(mem'[w + 2 * (t % n) + 1])
    requires forall k | 0 <= k < n && k != t % n ::
               mem'[w + 2 * k] == mem[w + 2 * k] && mem'[w + 2 * k + 1] == mem[w + 2 * k + 1]
    ensures Hands(mem', w, n, t + 1, handed) && Buffers(mem', w, n, size, lo, hi)
  {
  }

  // Nothing in the ring changes.
  lemma SameRing(mem: seq<u16>, mem': seq<u16>, w: nat, n: nat, t: nat, handed: seq<nat>, size: nat, lo: int, hi: int)
    requires size > 0 && Hands(mem, w, n, t, handed) && Buffers(mem, w, n, size, lo, hi)
    requires |mem'| == |mem| && forall i | w <= i < w + 2 * n :: mem'[i] == mem[i]
    ensures Hands(mem', w, n, t, handed) && Buffers(mem', w, n, size, lo, hi)
  {
  }

  // Releasing a descriptor of ring A keeps both rings in order: its owner word, and a
  // flag word in front of the rings, are all that changes.
  lemma ReleaseStep(m: seq<u16>, r: u16, f: nat, size: nat, lo: int, hi: int,
                    wA: nat, nA: nat, tA: nat, handedA: seq<nat>, wB: nat, nB: nat, tB: nat, handedB: seq<nat>)
    requires size > 0 && Hands(m, wA, nA, tA, handedA) && Buffers(m, wA, nA, size, lo, hi)
    requires Hands(m, wB, nB, tB, handedB) && Buffers(m, wB, nB, size, lo, hi)
    requires wA + 2 * nA <= wB || wB + 2 * nB <= wA
    requires f < wA && f < wB && !Own(r) && Own(m[wA + 2 * (tA % nA) + 1])
    ensures var m' := m[wA + 2 * (tA % nA) + 1 := r][f := 1];
            && Hands(m', wA, nA, tA + 1, handedA) && Buffers(m', wA, nA, size, lo, hi)
            && Hands(m', wB, nB, tB, handedB) && Buffers(m', wB, nB, size, lo, hi)
  {
    hide Visits, AddrOf, BufferOff;
    var k := tA % nA;
    var m' := m[wA + 2 * k + 1 := r][f := 1];
    TakeStep(m, m', wA, nA, tA, handedA, size, lo, hi);
    SameRing(m, m', wB, nB, tB, handedB, size, lo, hi);
  }

  // The host writes a word of a descriptor that it owns; this hands the slot over
  // when it sets the owner bit.
  lemma GiveStep(mem: seq<u16>, w: nat, n: nat, t: nat, handed: seq<nat>, size: nat, lo: int, hi: int,
                 k: nat, half: nat, v: u16)
    requires size > 0 && Hands(mem, w, n, t, handed) && Buffers(mem, w, n, size, lo, hi)
    requires k < n && half < 2 && !Own(mem[w + 2 * k + 1])
    requires half == 1 && Own(v) ==> BufferOff(size, lo, hi, AddrOf(Desc(mem[w + 2 * k], v)))
    ensures var mem' := mem[w + 2 * k + half := v];
            && Hands(mem', w, n, t, if half == 1 && Own(v) then handed[k := handed[k] + 1] else handed)
            && Buffers(mem', w, n, size, lo, hi)
  {
  }

  // The same, with the other ring left as it is.
  lemma GiveKeeps(m: seq<u16>, size: nat, lo: int, hi: int, w: nat, v: u16, k: nat, half: nat,
                  wA: nat, nA: nat, tA: nat, handedA: seq<nat>, wB: nat, nB: nat, tB: nat, handedB: seq<nat>)
    requires size > 0 && Hands(m, wA, nA, tA, handedA) && Buffers(m, wA, nA, size, lo, hi)
    requires Hands(m, wB, nB, tB, handedB) && Buffers(m, wB, nB, size, lo, hi)
    requires wA + 2 * nA <= wB || wB + 2 * nB <= wA
    requires k < nA && half < 2 && w == wA + 2 * k + half && !Own(m[wA + 2 * k + 1])
    requires half == 1 && Own(v) ==> BufferOff(size, lo, hi, AddrOf(Desc(m[w - 1], v)))
    ensures |handedA| == nA
    ensures Hands(m[w := v], wA, nA, tA, if half == 1 && Own(v) then handedA[k := handedA[k] + 1] else handedA)
    ensures Buffers(m[w := v], wA, nA, size, lo, hi)
    ensures Hands(m[w := v], wB, nB, tB, handedB) && Buffers(m[w := v], wB, nB, size, lo, hi)
  {
    hide Visits, AddrOf, BufferOff;
    GiveStep(m, wA, nA, tA, handedA, size, lo, hi, k, half, v);
    SameRing(m, m[w := v], wB, nB, tB, handedB, size, lo, hi);
  }

  // Positions: the byte index of step t is four times its slot.
  lemma NextIndex(r: Ring, t: nat, n: nat)
    requires n > 0 && r.len == 4 * n && r.idx == 4 * (t % n)
    ensures Advance(r).idx == 4 * ((t + 1) % n)
  {
    var q, k := t / n, t % n;
    assert q * n == n * q;
    if k + 1 == n {
      assert (q + 1) * n == q * n + n;
      DivModUnique(t + 1, n, q + 1, 0);
    } else {
      DivModUnique(t + 1, n, q, k + 1);
    }
  }

  // Addresses in a stretch that does not wrap.
  lemma WordAhead(size: nat, a: nat, off: nat)
    requires size > 0 && size % 2 == 0 && a % 2 == 0 && off % 2 == 0 && a % size + off < size
    ensures WordOf(size, a + off) == WordOf(size, a) + off / 2
  {
    var q, p := a / size, a % size;
    DivModUnique(a + off, size, q, p + off);
    var h, g := size / 2, off / 2;
    assert q * size == 2 * (q * h);
    var f := a / 2 - q * h;
    assert p == 2 * f;
  }

  // The words of a slot, off bytes into the rings, and of the flags in front of them.
  lemma SlotAt(size: nat, comm: nat, b: nat, off: nat)
    requires size > 0 && size % 2 == 0 && comm % 2 == 0 && b == WordOf(size, comm) && off % 4 == 0
    requires 2 * b + off + 4 <= size
    ensures WordOf(size, comm + off) == b + off / 2 && WordOf(size, comm + off + 2) == b + off / 2 + 1
  {
    EvenPart(size, comm, b);
    WordAhead(size, comm, off);
    WordAhead(size, comm, off + 2);
  }

  lemma FlagsAt(size: nat, comm: nat, b: nat)
    requires size > 0 && size % 2 == 0 && comm % 2 == 0 && b == WordOf(size, comm) && b >= 2
    ensures comm >= 4 && WordOf(size, comm - 4) == b - 2 && WordOf(size, comm - 2) == b - 1
  {
    Halve(size, size / 2, comm, comm / 2);
    FlagsIn(size, size / 2, comm / 2, b);
  }

  lemma FlagsIn(size: nat, h: nat, f: nat, b: nat)
    requires h > 0 && size == 2 * h && b == f % h && b >= 2
    ensures f >= 2 && WordOf(size, 2 * f - 4) == b - 2 && WordOf(size, 2 * f - 2) == b - 1
  {
    var q := f / h;
    assert f == q * h + b && q * h >= 0;
    DivModUnique(f - 2, h, q, b - 2);
    DivModUnique(f - 1, h, q, b - 1);
    Halve(size, h, 2 * f - 4, f - 2);
    Halve(size, h, 2 * f - 2, f - 1);
  }

  lemma EvenPart(size: nat, comm: nat, b: nat)
    requires size > 0 && size % 2 == 0 && comm % 2 == 0 && b == WordOf(size, comm)
    ensures comm % size == 2 * b && comm == comm / size * size + 2 * b && 2 * b + 2 <= size
  {
    var h, f := size / 2, comm / 2;
    Halve(size, h, comm, f);
    DivModUnique(comm, size, f / h, 2 * (f % h));
  }

  lemma NextWord(size: nat, a: nat)
    requires size > 0 && size % 2 == 0 && a % 2 == 0 && WordOf(size, a) + 1 < size / 2
    ensures WordOf(size, a + 2) == WordOf(size, a) + 1
  {
    var h, f := size / 2, a / 2;
    Halve(size, h, a, f);
    DivModUnique(f + 1, h, f / h, f % h + 1);
    Halve(size, h, a + 2, f + 1);
  }

  // Freshly cleared rings.
  lemma Cleared(mem: seq<u16>, w: nat, n: nat, size: nat, lo: int, hi: int)
    requires size > 0 && Fits(mem, w, n) && forall i | w <= i < w + 2 * n :: mem[i] == 0
    ensures Hands(mem, w, n, 0, seq(n, i => 0)) && Buffers(mem, w, n, size, lo, hi)
  {
    hide AddrOf, BufferOff;
  }

  lemma WordsDistinct(size: nat, a: nat, i: nat, j: nat)
    requires size >= 0x100 && size % 2 == 0 && a % 2 == 0 && i < j < 0x40
    ensures WordOf(size, a + 2 * i) != WordOf(size, a + 2 * j)
  {
    var h, f := size / 2, a / 2;
    Halve(size, h, a + 2 * i, f + i);
    Halve(size, h, a + 2 * j, f + j);
    if (f + i) % h == (f + j) % h {
      SameRemainder(f + i, f + j, h);
    }
  }

  lemma SameRemainder(x: nat, y: nat, h: nat)
    requires h > 0 && x < y && x % h == y % h
    ensures y - x >= h
  {
    var d := y / h - x / h;
    assert y - x == d * h;
    MulAtLeast(d, h);
  }

  lemma Halve(size: nat, h: nat, a: nat, f: nat)
    requires h > 0 && size == 2 * h && a == 2 * f
    ensures WordOf(size, a) == f % h
  {
    var q, r := f / h, f % h;
    assert a == q * size + 2 * r;
    DivModUnique(a, size, q, 2 * r);
  }
}
