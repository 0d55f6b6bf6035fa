// The restart log of the DCJ11: what operand decoding records in MMR1, so that the
// registers can be wound back when an access faults.
module Restart {
  import opened Arith

  // ---- The log ----

  // An entry: a five-bit signed amount and a register number.
  function Entry(reg: nat, delta: int): (b: u8)
    requires reg < 8 && -16 <= delta < 16
  {
    (delta + if delta < 0 then 32 else 0) * 8 + reg
  }

  function Amount(b: u8): int {
    b / 8 - if b >= 0x80 then 32 else 0
  }

  // The amount that a log has for a register: the sum of its entries.
  function Recorded(log: u16, reg: nat): int {
    (if log % 0x100 % 8 == reg then Amount(log % 0x100) else 0)
    + (if log / 0x100 % 8 == reg then Amount(log / 0x100) else 0)
  }

  // The number of entries: an empty one is zero, and the low one is filled first.
  predicate Entries(log: u16, n: nat) {
    if n == 0 then log == 0
    else if n == 1 then log % 0x100 != 0 && log / 0x100 == 0
    else n == 2 && log % 0x100 != 0 && log / 0x100 != 0
  }

  lemma EntryMeans(reg: nat, delta: int)
    requires reg < 8 && -16 <= delta < 16
    ensures var b := Entry(reg, delta); b % 8 == reg && Amount(b) == delta && (delta != 0 ==> b != 0)
  {
    var d := delta + if delta < 0 then 32 else 0;
    DivModUnique(d * 8 + reg, 8, d, reg);
  }

  // The entry of the program counter moving on by two is 027 octal, that of a push 366.
  lemma KnownEntries()
    ensures Entry(7, 2) == 0x17 && Entry(6, -2) == 0xF6 && Entry(0, 1) == 8
  {
  }

  function AppendEntry(log: u16, b: u8): u16 {
    if log % 0x100 == 0 then b
    else if log / 0x100 == 0 then log + b * 0x100
    else log
  }

  // With at most one entry there is room for another, and the amounts add up.
  lemma AppendMeans(log: u16, n: nat, reg: nat, delta: int)
    requires Entries(log, n) && n <= 1 && reg < 8 && -16 <= delta < 16 && delta != 0
    ensures var log' := AppendEntry(log, Entry(reg, delta));
            && Entries(log', n + 1)
            && forall i | 0 <= i < 8 :: Recorded(log', i) == Recorded(log, i) + if i == reg then delta else 0
  {
    var b := Entry(reg, delta);
    EntryMeans(reg, delta);
    assert Amount(0) == 0;
    if n == 1 {
      var high: int := b;
      DivModUnique(log + high * 0x100, 0x100, high, log);
    }
  }

  // ---- The processor ----

  datatype Operand = Operand(mode: nat, reg: nat) {
    predicate Ok() {
      mode < 8 && reg < 8
    }
  }

  datatype Instruction =
    | Single(dst: Operand, byte: bool, gets: bool, puts: bool)
    | Double(src: Operand, dst: Operand, byte: bool, gets: bool, puts: bool)
    | Jsr(link: nat, dst: Operand)
    | FromPrevious(dst: Operand)
    | ToPrevious(dst: Operand)
  {
    predicate Ok() {
      match this
      case Single(dst, _, _, _) => dst.Ok()
      case Double(src, dst, _, _, _) => src.Ok() && dst.Ok()
      case Jsr(link, dst) => link < 8 && dst.Ok()
      case FromPrevious(dst) => dst.Ok()
      case ToPrevious(dst) => dst.Ok()
    }
  }

  // The step of an autoincrement or autodecrement.
  function Step(o: Operand, byte: bool): int {
    if byte && o.reg != 6 && o.reg != 7 && (o.mode == 2 || o.mode == 4) then 1 else 2
  }

  function Moved(v: u16, delta: int): (r: u16) {
    (v + delta) % 0x1_0000
  }

  lemma MovedTwice(v: u16, a: int, b: int)
    ensures Moved(Moved(v, a), b) == Moved(v, a + b) && Moved(v, 0) == v
  {
    var q, r := (v + a) / 0x1_0000, (v + a) % 0x1_0000;
    var q', r' := (r + b) / 0x1_0000, (r + b) % 0x1_0000;
    DivModUnique(v + a + b, 0x1_0000, q + q', r');
  }

  // ---- Memory, as an instruction meets it up to its last access ----

  datatype Space = Code | Data | Previous

  // An access gives a word, or a fault of the MMU, or a bus error.
  datatype Answer = Word(v: u16) | MmuFault | BusError

  datatype Memory = Memory(load: (Space, bool, u16) -> Answer, store: (Space, bool, u16) -> Answer)

  // ---- Operand decoding ----

  // The registers once an operand has been decoded: at most one has moved.
  function After(r: seq<u16>, o: Operand, byte: bool): (r': seq<u16>)
    requires |r| == 8 && o.Ok()
    ensures |r'| == 8
  {
    if o.mode < 2 then r
    else if o.mode < 4 then r[o.reg := Moved(r[o.reg], Step(o, byte))]
    else if o.mode < 6 then r[o.reg := Moved(r[o.reg], -Step(o, byte))]
    else r[7 := Moved(r[7], 2)]
  }

  // The address before any deferral; the index word comes from the instruction.
  function Pointer(m: Memory, r: seq<u16>, o: Operand, byte: bool): Answer
    requires |r| == 8 && o.Ok()
  {
    if o.mode < 4 then Word(r[o.reg])
    else if o.mode < 6 then Word(After(r, o, byte)[o.reg])
    else
      match m.load(Code, false, r[7])
      case Word(x) => Word(Moved(After(r, o, byte)[o.reg], x))
      case other => other
  }

  // The effective address. The odd modes above one are deferred, through the
  // instruction space for the absolute mode.
  function Effective(m: Memory, r: seq<u16>, o: Operand, byte: bool): Answer
    requires |r| == 8 && o.Ok()
  {
    var p := Pointer(m, r, o, byte);
    if !p.Word? || o.mode % 2 == 0 || o.mode == 1 then p
    else m.load(if o.mode == 3 && o.reg == 7 then Code else Data, false, p.v)
  }

  // Where the operand is read from: an immediate one is in the instruction.
  function OperandSpace(o: Operand): Space {
    if o.mode == 2 && o.reg == 7 then Code else Data
  }

  function Decoded(m: Memory, r: seq<u16>, o: Operand, byte: bool): (d: (Answer, seq<u16>))
    requires |r| == 8 && o.Ok()
    ensures |d.1| == 8
  {
    if o.mode == 0 then (Word(o.reg), r)
    else (Effective(m, r, o, byte), if Pointer(m, r, o, byte).Word? then After(r, o, byte) else r)
  }

  // A sum of sixteen bits.
  function Sum16(x: int, y: int): (r: u16)
    ensures r == (x + y) % 0x1_0000
  {
    (x + y) % 0x1_0000
  }

  function Less16(x: int, y: int): (r: u16)
    ensures r == (x - y) % 0x1_0000
  {
    (x - y) % 0x1_0000
  }

  // The addressing modes, on the registers r0 before and r after: the step of the modes
  // 2 to 5, which is one for bytes through R0 to R5 unless deferred; the register as it
  // was, or after its decrement, or with the index added after the program counter has
  // passed it; and the word that it points at where the mode is deferred.
  ghost predicate AddressedBy(m: Memory, r0: seq<u16>, r: seq<u16>, o: Operand, byte: bool, a: Answer)
    requires |r0| == |r| == 8 && o.Ok()
  {
    var step := if byte && o.reg < 6 && (o.mode == 2 || o.mode == 4) then 1 else 2;
    match o.mode
    case 0 => a == Word(o.reg) && r == r0
    case 1 => a == Word(r0[o.reg]) && r == r0
    case 2 => a == Word(r0[o.reg]) && r == r0[o.reg := Sum16(r0[o.reg], step)]
    case 3 =>
      && a == m.load(if o.reg == 7 then Code else Data, false, r0[o.reg])
      && r == r0[o.reg := Sum16(r0[o.reg], step)]
    case 4 => a == Word(r[o.reg]) && r == r0[o.reg := Less16(r0[o.reg], step)]
    case 5 => a == m.load(Data, false, r[o.reg]) && r == r0[o.reg := Less16(r0[o.reg], step)]
    case _ =>
      match m.load(Code, false, r0[7])
      case Word(x) =>
        var p := Sum16(r[o.reg], x);
        && r == r0[7 := Sum16(r0[7], 2)]
        && a == if o.mode == 6 then Word(p) else m.load(Data, false, p)
      case other => a == other && r == r0
  }

  lemma DecodedIsAddressed(m: Memory, r: seq<u16>, o: Operand, byte: bool)
    requires |r| == 8 && o.Ok()
    ensures AddressedBy(m, r, Decoded(m, r, o, byte).1, o, byte, Decoded(m, r, o, byte).0)
  {
  }

  // An index of t less the address behind it is an operand at t.
  lemma RelativeLaw(m: Memory, r0: seq<u16>, r: seq<u16>, t: u16, a: Answer)
    requires |r0| == |r| == 8 && AddressedBy(m, r0, r, Operand(6, 7), false, a)
    requires m.load(Code, false, r0[7]) == Word(Less16(t, Sum16(r0[7], 2)))
    ensures a == Word(t)
  {
    var pc: int, x: int := Sum16(r0[7], 2), Less16(t, Sum16(r0[7], 2));
    var d: int := t - pc;
    DivModUnique(pc + x, 0x1_0000, -(d / 0x1_0000), t);
  }

  // Reading and then writing an operand, as far as no access fails.
  function Accessed(m: Memory, o: Operand, byte: bool, address: u16, gets: bool, puts: bool): Answer {
    var got := if o.mode != 0 && gets then m.load(OperandSpace(o), byte, address) else Word(0);
    if got.Word? && o.mode != 0 && puts then m.store(Data, byte, address) else got
  }

  function Pushed(m: Memory, r: seq<u16>): (Answer, seq<u16>)
    requires |r| == 8
  {
    (m.store(Data, false, Moved(r[6], -2)), r[6 := Moved(r[6], -2)])
  }

  function Popped(m: Memory, r: seq<u16>, o: Operand, address: u16): (Answer, seq<u16>)
    requires |r| == 8
  {
    var got := m.load(Data, false, r[6]);
    if !got.Word? then (got, r)
    else (if o.mode == 0 then got else m.store(Previous, false, address), r[6 := Moved(r[6], 2)])
  }

  // What the accesses of an instruction come to, and the registers they leave.
  function Outcome(m: Memory, r: seq<u16>, i: Instruction): (x: (Answer, seq<u16>))
    requires |r| == 8 && i.Ok()
    ensures |x.1| == 8
  {
    match i
    case Single(dst, byte, gets, puts) =>
      var d := Decoded(m, r, dst, byte);
      if !d.0.Word? then d else (Accessed(m, dst, byte, d.0.v, gets, puts), d.1)
    case Double(src, dst, byte, gets, puts) =>
      var s := Decoded(m, r, src, byte);
      if !s.0.Word? then s
      else
        var got := Accessed(m, src, byte, s.0.v, true, false);
        var d := Decoded(m, s.1, dst, byte);
        if !got.Word? then (got, s.1)
        else if !d.0.Word? then d
        else (Accessed(m, dst, byte, d.0.v, gets, puts), d.1)
    case Jsr(_, dst) =>
      var d := Decoded(m, r, dst, false);
      if !d.0.Word? || dst.mode == 0 then d else Pushed(m, d.1)
    case FromPrevious(dst) =>
      var d := Decoded(m, r, dst, false);
      if !d.0.Word? then d
      else
        var got := if dst.mode == 0 then d.0 else m.load(Previous, false, d.0.v);
        if !got.Word? then (got, d.1) else Pushed(m, d.1)
    case ToPrevious(dst) =>
      var d := Decoded(m, r, dst, false);
      if !d.0.Word? then d else Popped(m, d.1, dst, d.0.v)
  }

  // With the instruction word, behind which the program counter moves on.
  function WithFetch(m: Memory, r: seq<u16>, i: Instruction): (x: (Answer, seq<u16>))
    requires |r| == 8 && i.Ok()
    ensures |x.1| == 8
  {
    var a := m.load(Code, false, r[7]);
    if a.Word? then Outcome(m, r[7 := Moved(r[7], 2)], i) else (a, r)
  }

  // An operand is read from the instruction if it is immediate, and from data otherwise;
  // it is written to data, after it has been read; and a register is neither.
  lemma OperandAccesses(m: Memory, o: Operand, byte: bool, address: u16, gets: bool, puts: bool)
    requires o.Ok()
    ensures var read := m.load(if o.mode == 2 && o.reg == 7 then Code else Data, byte, address);
            var wrote := m.store(Data, byte, address);
            Accessed(m, o, byte, address, gets, puts)
            == if o.mode == 0 || !(gets || puts) then Word(0)
               else if !gets then wrote
               else if !puts || !read.Word? then read else wrote
  {
  }

  // JSR, with its operand at address a, puts the link on the stack below the registers
  // that the operand has left; MFPx reads there in previous space first; and MTPx takes
  // the word off the stack and puts it there.
  lemma StackAccesses(m: Memory, r: seq<u16>, link: nat, o: Operand)
    requires |r| == 8 && link < 8 && o.Ok() && o.mode != 0 && Decoded(m, r, o, false).0.Word?
    ensures var d := Decoded(m, r, o, false);
            var a, sp := d.0.v, d.1[6];
            var below, read, popped := Less16(sp, 2), m.load(Previous, false, d.0.v), m.load(Data, false, sp);
            && Outcome(m, r, Jsr(link, o)) == (m.store(Data, false, below), d.1[6 := below])
            && Outcome(m, r, FromPrevious(o))
               == (if read.Word? then (m.store(Data, false, below), d.1[6 := below]) else (read, d.1))
            && Outcome(m, r, ToPrevious(o))
               == if popped.Word? then (m.store(Previous, false, a), d.1[6 := Sum16(sp, 2)]) else (popped, d.1)
  {
  }

  class Cpu {
    var r: seq<u16>
    var ssr1: u16
    var ssr2: u16
    var frozen: bool
    var instrPc: u16
    // The registers when the instruction started, and the log if it was frozen then.
    ghost var start: seq<u16>
    ghost var held: Option<(u16, u16)>

    // What has happened to R0 to R6 since the start is in the log, and the address of
    // the instruction beside it.
    ghost predicate Tracked(n: nat)
      reads `r, `ssr1, `ssr2, `start
    {
      && |r| == |start| == 8 && n <= 2 && Entries(ssr1, n) && ssr2 == start[7]
      && forall i | 0 <= i < 7 :: r[i] == Moved(start[i], Recorded(ssr1, i))
    }

    // Winding R0 to R6 back by the log gives the registers at the start.
    ghost predicate Restartable()
      reads `r, `ssr1, `ssr2, `start
    {
      && |r| == |start| == 8 && ssr2 == start[7]
      && forall i | 0 <= i < 7 :: start[i] == Moved(r[i], -Recorded(ssr1, i))
    }

    // The log is as it was when it was frozen, or follows the instruction.
    ghost predicate Going(n: nat)
      reads this
    {
      && |r| == |start| == 8 && instrPc == start[7]
      && match held
         case Some(log) => frozen && (ssr1, ssr2) == log
         case None => !frozen && Tracked(n)
    }

    // The same, after an access: a fault of the MMU freezes the log.
    ghost predicate Stopped(a: Answer, n: nat)
      reads this
    {
      match held
      case Some(log) => |r| == 8 && frozen && (ssr1, ssr2) == log
      case None => if a.MmuFault? then frozen && Restartable() else Going(n)
    }

    constructor ()
      ensures |r| == 8 && !frozen
    {
      r, ssr1, ssr2, frozen, instrPc, start, held := seq(8, i => 0), 0, 0, false, 0, seq(8, i => 0), None;
    }

    // mmu_mmr1_instruction_start
    method Begin()
      requires |r| == 8
      modifies `ssr1, `ssr2, `instrPc, `start, `held
      ensures start == r && held == (if frozen then Some((old(ssr1), old(ssr2))) else None) && Going(0)
    {
      start, instrPc := r, r[7];
      held := if frozen then Some((ssr1, ssr2)) else None;
      if !frozen {
        ssr2, ssr1 := r[7], 0;
        forall i | 0 <= i < 7
          ensures r[i] == Moved(start[i], Recorded(0, i))
        {
          MovedTwice(r[i], 0, 0);
        }
      }
    }

    // mmu_mmr1_record_delta
    method Record(reg: nat, delta: int)
      requires reg < 8 && -16 <= delta < 16
      modifies `ssr1
      ensures ssr1 == if frozen then old(ssr1) else AppendEntry(old(ssr1), Entry(reg, delta))
    {
      if !frozen {
        ssr1 := AppendEntry(ssr1, Entry(reg, delta));
      }
    }

    // A register is stepped and the step recorded.
    method Bump(reg: nat, delta: int, ghost n: nat)
      requires Going(n) && n <= 1 && reg < 8 && delta != 0 && -2 <= delta <= 2
      modifies `r, `ssr1
      ensures Going(n + 1) && r == old(r)[reg := Moved(old(r)[reg], delta)]
    {
      hide AppendEntry, Entry, Recorded, Entries, Moved;
      if held.None? {
        AppendMeans(ssr1, n, reg, delta);
        if reg < 7 {
          MovedTwice(start[reg], Recorded(ssr1, reg), delta);
        }
      }
      r := r[reg := Moved(r[reg], delta)];
      Record(reg, delta);
    }

    // The trap of an access that fails. The first fault of the MMU is latched, with
    // the address of the instruction.
    method Fault(a: Answer, ghost n: nat)
      requires Going(n)
      modifies `frozen, `ssr2
      ensures Stopped(a, n)
      ensures !a.MmuFault? ==> Going(n)
    {
      hide Recorded, Entries, Moved;
      if a.MmuFault? && !frozen {
        frozen, ssr2 := true, instrPc;
        forall i | 0 <= i < 7
          ensures start[i] == Moved(r[i], -Recorded(ssr1, i))
        {
          MovedTwice(start[i], Recorded(ssr1, i), -Recorded(ssr1, i));
        }
      }
    }

    method Load(m: Memory, space: Space, byte: bool, address: u16, ghost n: nat) returns (a: Answer)
      requires Going(n)
      modifies `frozen, `ssr2
      ensures a == m.load(space, byte, address) && Stopped(a, n) && (!a.MmuFault? ==> Going(n))
    {
      a := m.load(space, byte, address);
      Fault(a, n);
    }

    method Store(m: Memory, space: Space, byte: bool, address: u16, ghost n: nat) returns (a: Answer)
      requires Going(n)
      modifies `frozen, `ssr2
      ensures a == m.store(space, byte, address) && Stopped(a, n) && (!a.MmuFault? ==> Going(n))
    {
      a := m.store(space, byte, address);
      Fault(a, n);
    }

    // decode_data: the effective address. Every step of a register is recorded before
    // an access can fault.
    method Decode(m: Memory, o: Operand, byte: bool, ghost n: nat) returns (a: Answer, ghost n': nat)
      requires Going(n) && |r| == 8 && n <= 1 && o.Ok()
      modifies `r, `ssr1, `frozen, `ssr2
      ensures Stopped(a, n') && (!a.MmuFault? ==> Going(n')) && n <= n' <= n + 1
      ensures (a, r) == Decoded(m, old(r), o, byte)
      ensures AddressedBy(m, old(r), r, o, byte, a)
    {
      hide Recorded, Entries, Moved, Going, Stopped, AddressedBy;
      DecodedIsAddressed(m, r, o, byte);
      n' := n;
      var step := Step(o, byte);
      if o.mode == 0 {
        a := Word(o.reg);
        Proceed(a, n');
      } else if o.mode == 1 {
        a := Word(r[o.reg]);
        Proceed(a, n');
      } else if o.mode == 2 || o.mode == 3 {
        var offset := r[o.reg];
        Bump(o.reg, step, n);
        n' := n + 1;
        a := Word(offset);
        Proceed(a, n');
        if o.mode == 3 {
          a := Load(m, if o.reg == 7 then Code else Data, false, offset, n');
        }
      } else if o.mode == 4 || o.mode == 5 {
        Bump(o.reg, -step, n);
        n' := n + 1;
        a := Word(r[o.reg]);
        Proceed(a, n');
        if o.mode == 5 {
          a := Load(m, Data, false, r[o.reg], n');
        }
      } else {
        a := Load(m, Code, false, r[7], n);
        if !a.Word? {
          return;
        }
        Bump(7, 2, n);
        n' := n + 1;
        a := Word(Moved(r[o.reg], a.v));
        Proceed(a, n');
        if o.mode == 7 {
          a := Load(m, Data, false, a.v, n');
        }
      }
    }

    lemma Proceed(a: Answer, n: nat)
      requires Going(n) && !a.MmuFault?
      ensures Stopped(a, n)
    {
    }

    // Reading and writing an operand in memory; registers are written last, when
    // nothing can fault any more.
    method Operate(m: Memory, o: Operand, byte: bool, address: u16, gets: bool, puts: bool, ghost n: nat)
      returns (a: Answer)
      requires Going(n)
      modifies `frozen, `ssr2
      ensures Stopped(a, n) && (!a.MmuFault? ==> Going(n))
      ensures a == Accessed(m, o, byte, address, gets, puts)
    {
      a := Word(0);
      if o.mode != 0 && gets {
        a := Load(m, OperandSpace(o), byte, address, n);
      }
      if a.Word? && o.mode != 0 && puts {
        a := Store(m, Data, byte, address, n);
      }
    }

    // The instruction word; the program counter moves past it.
    method Fetch(m: Memory) returns (a: Answer)
      requires Going(0)
      modifies `r, `frozen, `ssr2
      ensures Stopped(a, 0) && (!a.MmuFault? ==> Going(0)) && a == m.load(Code, false, old(r)[7])
      ensures r == if a.Word? then old(r)[7 := Moved(old(r)[7], 2)] else old(r)
    {
      a := Load(m, Code, false, r[7], 0);
      if a.Word? {
        r := r[7 := Moved(r[7], 2)];
      }
    }

    // The stack step of JSR and of the moves between spaces, and the store behind it.
    method Push(m: Memory, ghost n: nat) returns (a: Answer, ghost n': nat)
      requires Going(n) && |r| == 8 && n <= 1
      modifies `r, `ssr1, `frozen, `ssr2
      ensures Stopped(a, n') && (!a.MmuFault? ==> Going(n'))
      ensures (a, r) == Pushed(m, old(r))
    {
      hide Recorded, Entries, Moved, Going, Stopped;
      Bump(6, -2, n);
      n' := n + 1;
      a := Store(m, Data, false, r[6], n');
    }

    // The other way: the word on the stack, its step, and the store in previous space.
    method PopTo(m: Memory, o: Operand, address: u16, ghost n: nat) returns (a: Answer, ghost n': nat)
      requires Going(n) && |r| == 8 && n <= 1
      modifies `r, `ssr1, `frozen, `ssr2
      ensures Stopped(a, n') && (!a.MmuFault? ==> Going(n'))
      ensures (a, r) == Popped(m, old(r), o, address)
    {
      hide Recorded, Entries, Moved, Going, Stopped;
      n' := n;
      a := Load(m, Data, false, r[6], n);
      if !a.Word? {
        return;
      }
      Bump(6, 2, n);
      n' := n + 1;
      Proceed(a, n');
      if o.mode != 0 {
        a := Store(m, Previous, false, address, n');
      }
    }

    // The accesses of an instruction after its word has been fetched.
    method Operands(m: Memory, i: Instruction) returns (a: Answer, ghost n: nat)
      requires Going(0) && |r| == 8 && i.Ok()
      modifies `r, `ssr1, `frozen, `ssr2
      ensures Stopped(a, n) && (!a.MmuFault? ==> Going(n))
      ensures (a, r) == Outcome(m, old(r), i)
    {
      hide Recorded, Entries, Moved, Going, Stopped, Decoded, Accessed, Pushed, Popped, AddressedBy;
      match i
      case Single(dst, byte, gets, puts) =>
        a, n := Decode(m, dst, byte, 0);
        if a.Word? {
          a := Operate(m, dst, byte, a.v, gets, puts, n);
        }
      case Double(src, dst, byte, gets, puts) =>
        a, n := Decode(m, src, byte, 0);
        if a.Word? {
          a := Operate(m, src, byte, a.v, true, false, n);
        }
        if a.Word? {
          a, n := Decode(m, dst, byte, n);
          if a.Word? {
            a := Operate(m, dst, byte, a.v, gets, puts, n);
          }
        }
      case Jsr(_, dst) =>
        a, n := Decode(m, dst, false, 0);
        if a.Word? && dst.mode != 0 {
          a, n := Push(m, n);
        }
      case FromPrevious(dst) =>
        a, n := Decode(m, dst, false, 0);
        if a.Word? && dst.mode != 0 {
          a := Load(m, Previous, false, a.v, n);
        }
        if a.Word? {
          a, n := Push(m, n);
        }
      case ToPrevious(dst) =>
        a, n := Decode(m, dst, false, 0);
        if a.Word? {
          a, n := PopTo(m, dst, a.v, n);
        }
    }

    // An instruction up to the point where it can fault no more. Wherever the MMU
    // faults, the registers can be wound back by at most two entries, and the address
    // beside the log is that of the instruction. A log that was frozen stays.
    method Execute(m: Memory, i: Instruction) returns (a: Answer, ghost n: nat)
      requires |r| == 8 && i.Ok()
      modifies this
      ensures start == old(r)
      ensures (a, r) == WithFetch(m, old(r), i)
      ensures old(frozen) ==> frozen && ssr1 == old(ssr1) && ssr2 == old(ssr2)
      ensures !old(frozen) ==> frozen == a.MmuFault?
      ensures !old(frozen) && a.MmuFault? ==> Restartable()
      ensures !old(frozen) && !a.MmuFault? ==> Tracked(n)
    {
      hide Recorded, Entries, Moved;
      Begin();
      n := 0;
      a := Fetch(m);
      if a.Word? {
        a, n := Operands(m, i);
      }
    }

    // A fault, then any instructions at all, as the handler may need: until the freeze
    // is lifted the log is that of the instruction that faulted. From it and the
    // registers at the fault the handler can restore those at the start.
    method FaultThenRecover(m: Memory, i: Instruction, ms: seq<Memory>, handler: seq<Instruction>)
      returns (a: Answer, recovered: seq<u16>)
      requires |r| == 8 && !frozen && i.Ok() && |ms| == |handler| && forall k | 0 <= k < |handler| :: handler[k].Ok()
      modifies this
      ensures a == WithFetch(m, old(r), i).0
      ensures a.MmuFault? ==> frozen && recovered == old(r)
    {
      hide Recorded, Entries, Moved, WithFetch;
      ghost var n;
      a, n := Execute(m, i);
      var at := r;
      recovered := r;
      if !a.MmuFault? {
        return;
      }
      for k := 0 to |handler|
        invariant |r| == 8 && frozen && ssr2 == old(r)[7]
        invariant forall j | 0 <= j < 7 :: old(r)[j] == Moved(at[j], -Recorded(ssr1, j))
      {
        var _, _ := Execute(ms[k], handler[k]);
      }
      var log, pc := ssr1, ssr2;
      recovered := seq(8, j requires 0 <= j < 8 => if j == 7 then pc else Moved(at[j], -Recorded(log, j)));
    }
  }
}
