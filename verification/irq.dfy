// Interrupt requests: the scan that grants one source, the processor's own check of
// what was granted, and the delivery loop of the DCJ11.
module Irq {
  import opened Arith

  datatype Model = Vm1 | Vm2 | Dcj11 | Other

  // Priority zero is never masked.
  datatype Source = Source(vector: u16, priority: u8)

  function Priority(psw: u16): nat {
    psw / 0x20 % 8
  }

  function Bit(v: u16, weight: nat): bool
    requires weight > 0
  {
    v / weight % 2 == 1
  }

  function Or3(a: nat, b: nat): (r: nat)
    requires a < 8 && b < 8
    ensures r < 8 && r >= a && r >= b && (b == 0 ==> r == a) && (a == 0 ==> r == b)
  {
    (if a % 2 == 1 || b % 2 == 1 then 1 else 0)
    + (if a / 2 % 2 == 1 || b / 2 % 2 == 1 then 2 else 0)
    + (if a / 4 == 1 || b / 4 == 1 then 4 else 0)
  }

  // encode_vec: the DCJ11 takes the priority in bits 9 to 11, or-ed into the vector.
  function Encode(model: Model, s: Source): (v: u16) {
    if model != Dcj11 then s.vector
    else
      var field := s.vector / 0x200 % 8;
      var high := s.vector / 0x1000;
      WordParts(high, Or3(field, s.priority % 8), s.vector % 0x200);
      high * 0x1000 + Or3(field, s.priority % 8) * 0x200 + s.vector % 0x200
  }

  lemma WordParts(high: nat, field: nat, low: nat)
    requires high < 0x10 && field < 8 && low < 0x200
    ensures var v := high * 0x1000 + field * 0x200 + low;
            v < 0x1_0000 && v % 0x200 == low && v / 0x200 % 8 == field && v / 0x1000 == high
  {
    var v := high * 0x1000 + field * 0x200 + low;
    DivModUnique(v, 0x200, high * 8 + field, low);
    DivModUnique(high * 8 + field, 8, high, field);
    DivModUnique(v, 0x1000, high, field * 0x200 + low);
  }

  // irq_accept: the vector that the processor takes, if it does.
  function Accept(model: Model, psw: u16, v: u16): Option<u16> {
    match model
    case Vm1 =>
      if Bit(psw, 0x200) || (v == 0xE002 && Bit(psw, 0x400)) || (v != 0xE002 && Bit(psw, 0x80)) then None
      else Some(v - v % 2)
    case Vm2 =>
      if Bit(psw, 0x80) then None else Some(v - v % 2)
    case _ =>
      var pri := v / 0x200 % 8;
      if pri != 0 && Priority(psw) >= pri then None else Some(v % 0x200 - v % 2)
  }

  // The mask of the scan, per source.
  predicate Unmasked(model: Model, psw: u16, s: Source) {
    model == Dcj11 && s.priority != 0 ==> Priority(psw) < s.priority
  }

  // The mask of the older processors, on the source that the scan has chosen.
  predicate Open(model: Model, psw: u16, vector: u16) {
    match model
    case Vm1 => !Bit(psw, 0x200) && (if vector == 0xE002 then !Bit(psw, 0x400) else !Bit(psw, 0x80))
    case Vm2 => !Bit(psw, 0x80)
    case _ => true
  }

  // A PSW with level n in bits 5 to 7 masks the DCJ11 levels up to n, so that 340 octal
  // masks all seven; bit 7 masks the VM2, and bit 7 or 9 the VM1, but for vector 160002.
  lemma MaskedLevels(psw: u16, n: nat, s: Source)
    requires psw % 0x100 / 0x20 == n
    ensures 1 <= s.priority <= 7 ==> (Unmasked(Dcj11, psw, s) <==> s.priority > n)
    ensures n == 7 && 1 <= s.priority <= 7 ==> !Unmasked(Dcj11, psw, s)
    ensures n >= 4 ==> !Open(Vm2, psw, s.vector) && (s.vector != 0xE002 ==> !Open(Vm1, psw, s.vector))
    ensures n < 4 ==> Open(Vm2, psw, s.vector)
    ensures psw / 0x200 % 2 == 1 ==> !Open(Vm1, psw, s.vector)
    ensures psw / 0x200 % 2 == 0 ==>
              (Open(Vm1, psw, s.vector) <==> if s.vector == 0xE002 then psw / 0x400 % 2 == 0 else n < 4)
  {
    var hi, lo := psw / 0x100, psw % 0x100;
    DivModUnique(psw, 0x20, hi * 8 + n, lo % 0x20);
    DivModUnique(hi * 8 + n, 8, hi, n);
    DivModUnique(psw, 0x80, hi * 2 + n / 4, n % 4 * 0x20 + lo % 0x20);
    DivModUnique(hi * 2 + n / 4, 2, hi, n / 4);
  }

  // A source whose vector and priority fit their fields.
  predicate Plain(model: Model, s: Source) {
    s.vector % 2 == 0 && s.priority < 8 && (model == Dcj11 || model == Other ==> s.vector < 0x200)
  }

  // The word that the DCJ11 is given has the vector below bit 9 and the priority above.
  lemma EncodedWord(s: Source)
    requires Plain(Dcj11, s)
    ensures Encode(Dcj11, s) == s.priority * 0x200 + s.vector && Encode(Vm1, s) == Encode(Vm2, s) == s.vector
  {
  }

  // The two checks agree: what the scan grants, the processor accepts under the same
  // PSW, and it recovers the vector.
  lemma GrantIsAccepted(model: Model, psw: u16, s: Source)
    requires Unmasked(model, psw, s) && Open(model, psw, s.vector) && Plain(model, s)
    ensures Accept(model, psw, Encode(model, s)) == Some(s.vector)
  {
    if model == Dcj11 {
      WordParts(s.vector / 0x1000, Or3(s.vector / 0x200 % 8, s.priority % 8), s.vector % 0x200);
    }
  }

  // Without the limits on the fields it recovers the vector only when that is even,
  // and below 1000 octal for the processors that take it from nine bits.
  lemma VectorRecovered(model: Model, psw: u16, s: Source)
    requires Accept(model, psw, Encode(model, s)).Some?
    ensures Accept(model, psw, Encode(model, s)) == Some(s.vector)
       <==> s.vector % 2 == 0 && (model == Dcj11 || model == Other ==> s.vector < 0x200)
  {
    if model == Dcj11 {
      WordParts(s.vector / 0x1000, Or3(s.vector / 0x200 % 8, s.priority % 8), s.vector % 0x200);
      EvenLow(s.vector / 0x200, s.vector % 0x200);
      EvenLow(Encode(model, s) / 0x200, s.vector % 0x200);
    } else if model == Other {
      EvenLow(s.vector / 0x200, s.vector % 0x200);
    }
  }

  lemma EvenLow(high: nat, low: nat)
    ensures (high * 0x200 + low) % 2 == low % 2
  {
    DivModUnique(high * 0x200 + low, 2, high * 0x100 + low / 2, low % 2);
  }

  // A request that was granted is refused, and lost, exactly when its priority does
  // not fit in three bits and what is left of it is masked.
  lemma LostByWidth(psw: u16, s: Source)
    requires Unmasked(Dcj11, psw, s) && s.vector < 0x200
    ensures Accept(Dcj11, psw, Encode(Dcj11, s)).None?
       <==> s.priority >= 8 && s.priority % 8 != 0 && Priority(psw) >= s.priority % 8
  {
    WordParts(0, s.priority % 8, s.vector);
  }

  // The level of the highest software request, from bits 9 to 15.
  function Highest(x: nat): nat {
    if x == 0 then 0 else 1 + Highest(x / 2)
  }

  function PirqLevel(pirq: u16): (level: nat)
    ensures level <= 7
  {
    HighestBelow(pirq / 0x200, 7);
    Highest(pirq / 0x200)
  }

  // The level is that of the highest bit that is set.
  lemma {:induction false} HighestBit(x: nat)
    ensures x > 0 ==> Highest(x) > 0 && Pow2(Highest(x) - 1) <= x < Pow2(Highest(x))
    ensures x == 0 ==> Highest(x) == 0
  {
    if x > 0 {
      HighestBit(x / 2);
    }
  }

  // Software requests are in bits 9 to 15, for the levels from 1 to 7.
  lemma PirqBits(pirq: u16, n: nat)
    requires 1 <= n <= 7
    ensures PirqLevel(pirq) == n <==> Pow2(n - 1) <= pirq / 0x200 < Pow2(n)
  {
    var x := pirq / 0x200;
    HighestBit(x);
    var h := Highest(x);
    if h < n {
      Pow2Monotone(h, n - 1);
    } else if h > n {
      Pow2Monotone(n, h - 1);
    }
  }

  lemma {:induction false} HighestBelow(x: nat, n: nat)
    requires x < Pow2(n)
    ensures Highest(x) <= n
  {
    if n == 0 {
      assert x == 0;
    } else if x > 0 {
      HighestBelow(x / 2, n - 1);
    }
  }

  // ---- The scan ----

  class Requests {
    const sources: seq<Source>
    // A level-triggered source stays pending when it is acknowledged.
    const level: seq<bool>
    var pending: seq<bool>

    ghost predicate Valid()
      reads `pending
    {
      |pending| == |level| == |sources|
    }

    constructor (sources: seq<Source>, level: seq<bool>)
      requires |sources| == |level| <= 32
      ensures Valid() && this.sources == sources && this.level == level
    {
      this.sources, this.level := sources, level;
      pending := seq(|sources|, i => false);
    }

    ghost predicate Ready(model: Model, psw: u16, i: int)
      reads `pending
      requires Valid() && 0 <= i < |sources|
    {
      pending[i] && Unmasked(model, psw, sources[i])
    }

    // Source i is the first of the highest priority among those before n that want an
    // interrupt and are not masked.
    ghost predicate Best(model: Model, psw: u16, n: int, i: int)
      reads `pending
      requires Valid() && 0 <= n <= |sources|
    {
      && 0 <= i < n && Ready(model, psw, i)
      && (forall j | 0 <= j < n && Ready(model, psw, j) :: sources[j].priority <= sources[i].priority)
      && (forall j | 0 <= j < i && Ready(model, psw, j) :: sources[j].priority < sources[i].priority)
    }

    // irq_poll. A granted source is acknowledged, and only that one; on the DCJ11 there
    // is a grant exactly when some pending source is not masked.
    method Poll(model: Model, psw: u16) returns (granted: bool, v: u16, ghost i: int)
      requires Valid()
      modifies `pending
      ensures Valid()
      ensures granted ==>
                && old(Best(model, psw, |sources|, i)) && Open(model, psw, sources[i].vector)
                && v == Encode(model, sources[i])
                && pending == old(pending)[i := level[i]]
                && (Plain(model, sources[i]) ==> Accept(model, psw, v) == Some(sources[i].vector))
      ensures !granted ==>
                && pending == old(pending)
                && forall k | 0 <= k < |sources| && old(Best(model, psw, |sources|, k)) ::
                     !Open(model, psw, sources[k].vector)
      ensures model == Dcj11 ==> granted == exists j :: 0 <= j < |sources| && old(Ready(model, psw, j))
    {
      hide Unmasked, Open, Encode, Accept, Plain;
      var best := -1;
      var pri: u8 := 0;
      granted, v, i := false, 0, 0;
      for n := 0 to |sources|
        invariant best == -1 ==> forall j | 0 <= j < n :: !Ready(model, psw, j)
        invariant best != -1 ==> Best(model, psw, n, best) && pri == sources[best].priority
        invariant -1 <= best < n
      {
        if pending[n] && Unmasked(model, psw, sources[n]) {
          if best < 0 || sources[n].priority > pri {
            best, pri := n, sources[n].priority;
          }
        }
      }
      if best < 0 {
        return;
      }
      OnlyBest(model, psw, best);
      OpenDcj(psw, sources[best].vector);
      if !Open(model, psw, sources[best].vector) {
        return;
      }
      if Plain(model, sources[best]) {
        GrantIsAccepted(model, psw, sources[best]);
      }
      granted, v, i := true, Encode(model, sources[best]), best;
      pending := pending[best := level[best]];
    }

    lemma OnlyBest(model: Model, psw: u16, i: int)
      requires Valid() && Best(model, psw, |sources|, i)
      ensures forall k | 0 <= k < |sources| && Best(model, psw, |sources|, k) :: k == i
    {
      hide Unmasked;
    }
  }

  lemma OpenDcj(psw: u16, vector: u16)
    ensures Open(Dcj11, psw, vector)
  {
  }

  lemma PirqAccepted(psw: u16, level: nat)
    requires Priority(psw) < level <= 7
    ensures Accept(Dcj11, psw, 0xA0 + level * 0x200) == Some(0xA0)
  {
    WordParts(0, level, 0xA0);
  }

  // ---- Delivery on the DCJ11 ----

  // A vector is that of the software requests while they are above the priority, and that
  // of a source above it otherwise.
  ghost predicate Taken(requests: Requests, pirq: u16, psw: u16, vector: u16) {
    if Priority(psw) < PirqLevel(pirq) then vector == 0xA0
    else
      exists i :: 0 <= i < |requests.sources|
                  && requests.sources[i].vector == vector && requests.sources[i].priority > Priority(psw)
  }

  function PswAfter(pswOf: u16 -> u16, psw0: u16, taken: seq<u16>): u16 {
    if taken == [] then psw0 else pswOf(taken[|taken| - 1])
  }

  ghost predicate AllTaken(requests: Requests, pirq: u16, pswOf: u16 -> u16, psw0: u16, taken: seq<u16>) {
    taken != [] ==>
      var before := taken[..|taken| - 1];
      && AllTaken(requests, pirq, pswOf, psw0, before)
      && Taken(requests, pirq, PswAfter(pswOf, psw0, before), taken[|taken| - 1])
  }

  // The interrupt loop at the end of an instruction. After each vector the processor
  // has the PSW of that vector, and the devices may have raised and dropped requests.
  // When every vector raises the priority to its own level at least, no run of grants
  // is longer than the levels that were left.
  method Deliver(requests: Requests, pirq: u16, pswOf: u16 -> u16, psw0: u16)
    returns (psw: u16, grants: nat, ghost taken: seq<u16>)
    requires requests.Valid()
    requires forall i | 0 <= i < |requests.sources| ::
               var s := requests.sources[i];
               Plain(Dcj11, s) && 1 <= s.priority && Priority(pswOf(s.vector)) >= s.priority
    requires Priority(pswOf(0xA0)) >= PirqLevel(pirq)
    modifies requests`pending
    ensures requests.Valid()
    ensures grants == |taken| && grants + Priority(psw0) <= Priority(psw) <= 7
    ensures psw == PswAfter(pswOf, psw0, taken) && AllTaken(requests, pirq, pswOf, psw0, taken)
    ensures PirqLevel(pirq) <= Priority(psw)
    ensures forall i | 0 <= i < |requests.sources| :: !requests.Ready(Dcj11, psw, i)
  {
    hide Accept, Encode, PirqLevel;
    psw, grants, taken := psw0, 0, [];
    while true
      invariant requests.Valid() && grants == |taken| && grants + Priority(psw0) <= Priority(psw)
      invariant psw == PswAfter(pswOf, psw0, taken) && AllTaken(requests, pirq, pswOf, psw0, taken)
      decreases 7 - Priority(psw)
    {
      var w: u16;
      if Priority(psw) < PirqLevel(pirq) {
        w := 0xA0 + PirqLevel(pirq) * 0x200;
        PirqAccepted(psw, PirqLevel(pirq));
      } else {
        var granted, v, i := requests.Poll(Dcj11, psw);
        if !granted {
          return;
        }
        w := v;
      }
      var accepted := Accept(Dcj11, psw, w);
      if accepted.None? {
        return;
      }
      var vector := accepted.value;
      assert Taken(requests, pirq, psw, vector);
      assert (taken + [vector])[..|taken|] == taken;
      psw := pswOf(vector);
      taken := taken + [vector];
      grants := grants + 1;
      assert |seq(|requests.sources|, i => false)| == |requests.sources|;
      var changed: seq<bool> :| |changed| == |requests.sources|;
      requests.pending := changed;
    }
  }

  // A source of priority zero is never masked: while it stays pending, every request for
  // it is granted and taken, so that delivery goes on for as many turns as it is given.
  method ZeroIsGrantedForEver(vector: u16, pswOf: u16 -> u16, psw0: u16, turns: nat) returns (psw: u16, grants: nat)
    requires vector % 2 == 0 && vector < 0x200
    ensures grants == turns
  {
    hide Accept, Encode;
    var requests := new Requests([Source(vector, 0)], [true]);
    requests.pending := [true];
    psw, grants := psw0, 0;
    while grants < turns
      invariant grants <= turns && requests.Valid() && requests.pending == [true]
    {
      assert requests.Ready(Dcj11, psw, 0);
      var granted, v, i := requests.Poll(Dcj11, psw);
      var accepted := Accept(Dcj11, psw, v);
      if !granted || accepted.None? {
        return;
      }
      psw, grants := pswOf(accepted.value), grants + 1;
    }
  }
}
