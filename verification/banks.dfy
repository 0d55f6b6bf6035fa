// The DCJ11 processor status word and the registers banked behind it: a stack pointer
// for each mode, two sets of R0 to R5, trap entry, and return from interrupt.
module Banks {
  import opened Arith

  // Mode 2 counts as kernel.
  function Mode(psw: u16): (m: nat)
    ensures m == 0 || m == 1 || m == 3
  {
    if psw / 0x4000 == 2 then 0 else psw / 0x4000
  }

  function RegSet(psw: u16): (k: nat)
    ensures k < 2
  {
    psw / 0x800 % 2
  }

  // trap_psw: the vector's PSW, in kernel mode, with the old mode as previous mode.
  function TrapPsw(old_: u16, vec: u16): (psw: u16)
    ensures Mode(psw) == 0 && psw / 0x1000 % 4 == Mode(old_) && psw % 0x1000 == vec % 0x1000
    ensures RegSet(psw) == RegSet(vec)
  {
    var p := Mode(old_) * 0x1000 + vec % 0x1000;
    DivModUnique(p, 0x1000, Mode(old_), vec % 0x1000);
    DivModUnique(p, 0x800, Mode(old_) * 2 + vec % 0x1000 / 0x800, vec % 0x800);
    p
  }

  function Either(a: nat, b: nat, weight: nat): (bit: nat)
    requires weight > 0
    ensures bit < 2 && (bit == 1 <==> a / weight % 2 == 1 || b / weight % 2 == 1)
  {
    if a / weight % 2 == 1 || b / weight % 2 == 1 then 1 else 0
  }

  // The or of five-bit fields.
  function Or5(a: nat, b: nat): (r: nat)
    ensures r < 32 && r % 2 == Either(a, b, 1) && r / 8 % 2 == Either(a, b, 8) && r / 16 == Either(a, b, 16)
  {
    var low, b3, b4 := Either(a, b, 1) + 2 * Either(a, b, 2) + 4 * Either(a, b, 4), Either(a, b, 8), Either(a, b, 16);
    FieldBits(Either(a, b, 1), Either(a, b, 2) + 2 * Either(a, b, 4), b3, b4);
    low + 8 * b3 + 16 * b4
  }

  lemma FieldBits(b0: nat, mid: nat, b3: nat, b4: nat)
    requires b0 < 2 && mid < 4 && b3 < 2 && b4 < 2
    ensures var r := b0 + 2 * mid + 8 * b3 + 16 * b4; r < 32 && r % 2 == b0 && r / 8 % 2 == b3 && r / 16 == b4
  {
    var r := b0 + 2 * mid + 8 * b3 + 16 * b4;
    DivModUnique(r, 8, b3 + 2 * b4, b0 + 2 * mid);
    DivModUnique(r, 2, mid + 4 * b3 + 8 * b4, b0);
  }

  // dcj11_rti_rtt_protect_psw: outside kernel mode the top five bits can only be set,
  // and the priority stays.
  function Protected(old_: u16, new_: u16): (psw: u16)
  {
    Or5(new_ / 0x800, old_ / 0x800) * 0x800 + new_ / 0x100 % 8 * 0x100 + old_ / 0x20 % 8 * 0x20 + new_ % 0x20
  }

  // Where the PSW has its modes, register set, priority, T bit and condition codes.
  lemma PswFields(cm: nat, pm: nat, k: nat, rest: nat)
    requires cm < 4 && pm < 4 && k < 2 && rest < 0x800
    ensures var psw := cm * 0x4000 + pm * 0x1000 + k * 0x800 + rest;
            && psw < 0x1_0000 && Mode(psw) == (if cm == 2 then 0 else cm) && RegSet(psw) == k
            && psw / 0x1000 % 4 == pm
  {
    var psw := cm * 0x4000 + pm * 0x1000 + k * 0x800 + rest;
    DivModUnique(psw, 0x4000, cm, pm * 0x1000 + k * 0x800 + rest);
    DivModUnique(psw, 0x1000, cm * 4 + pm, k * 0x800 + rest);
    DivModUnique(cm * 4 + pm, 4, cm, pm);
    DivModUnique(psw, 0x800, cm * 8 + pm * 2 + k, rest);
    DivModUnique(cm * 8 + pm * 2 + k, 2, cm * 4 + pm, k);
  }

  // A return outside kernel mode cannot raise the privilege or change the priority, and
  // takes the condition codes and the T bit from the word that was popped.
  lemma ReturnKeepsPrivilege(old_: u16, new_: u16)
    requires Mode(old_) != 0
    ensures var psw := Protected(old_, new_);
            && Mode(psw) != 0 && (Mode(old_) == 3 ==> Mode(psw) == 3)
            && psw / 0x20 % 8 == old_ / 0x20 % 8
            && (RegSet(old_) == 1 ==> RegSet(psw) == 1)
            && psw % 0x20 == new_ % 0x20
  {
    var a, b := new_ / 0x800, old_ / 0x800;
    var top, low := Or5(a, b), new_ / 0x100 % 8 * 0x100 + old_ / 0x20 % 8 * 0x20 + new_ % 0x20;
    var psw := Protected(old_, new_);
    DivModUnique(psw, 0x800, top, low);
    DivModUnique(psw, 0x4000, top / 8, top % 8 * 0x800 + low);
    DivModUnique(psw, 0x20, top * 0x40 + new_ / 0x100 % 8 * 8 + old_ / 0x20 % 8, new_ % 0x20);
    DivModUnique(top * 0x40 + new_ / 0x100 % 8 * 8 + old_ / 0x20 % 8, 8, top * 8 + new_ / 0x100 % 8, old_ / 0x20 % 8);
    assert b / 8 == old_ / 0x4000;
  }

  class Cpu {
    var r: seq<u16>
    var psw: u16
    var spMode: seq<u16>
    var spInit: bool
    var bank: seq<seq<u16>>
    var bankInit: bool
    // Memory, a word for each even address, the same for every mode.
    var mem: seq<u16>
    // R6 as it was when its slot was last brought up to date.
    ghost var synced: u16

    ghost predicate Shape()
      reads `r, `spMode, `mem, `bank
    {
      && |r| == 8 && |spMode| == 4 && |mem| == 0x8000
      && |bank| == 2 && |bank[0]| == 6 && |bank[1]| == 6
    }

    // The slot of the current mode has R6 as it was when the mode was entered or its
    // stack pointer last written, and not what it has become since.
    ghost predicate Valid()
      reads this
    {
      Shape() && (spInit ==> spMode[Mode(psw)] == synced)
    }

    // The stack pointer of a mode: the register itself in the current mode, and in
    // every mode until the first change of mode.
    function StackOf(m: nat): u16
      reads `r, `psw, `spMode, `spInit
      requires |r| == 8 && |spMode| == 4 && m < 4
    {
      if m == Mode(psw) || !spInit then r[6] else spMode[m]
    }

    // R0 to R5 of a register set, likewise.
    function SetOf(k: nat): seq<u16>
      reads `r, `psw, `bank, `bankInit
      requires |r| == 8 && |bank| == 2 && k < 2
    {
      if k == RegSet(psw) || !bankInit then r[..6] else bank[k]
    }

    constructor (mem: seq<u16>)
      requires |mem| == 0x8000
      ensures Valid() && this.mem == mem && psw == 0xE0
    {
      r, psw, spInit, bankInit, this.mem, synced := seq(8, i => 0), 0xE0, false, false, mem, 0;
      spMode, bank := seq(4, i => 0), seq(2, i => seq(6, j => 0));
    }

    // dcj11_sp_mode_init
    method InitStacks()
      requires Valid()
      modifies `spMode, `spInit, `synced
      ensures Valid() && spInit
      ensures old(spInit) ==> spMode == old(spMode) && synced == old(synced)
      ensures !old(spInit) ==> synced == r[6] && forall m | 0 <= m < 4 :: spMode[m] == r[6]
    {
      if spInit {
        return;
      }
      for mode := 0 to 4
        invariant |spMode| == 4 && forall m | 0 <= m < mode :: spMode[m] == r[6]
      {
        spMode := spMode[mode := r[6]];
      }
      spInit, synced := true, r[6];
    }

    // dcj11_switch_stack_mode
    method SwitchStack(new_: u16)
      requires Valid()
      modifies `r, `spMode, `spInit, `synced
      ensures Shape() && r[..6] == old(r)[..6] && r[7] == old(r)[7]
      ensures r[6] == old(StackOf(Mode(new_))) && (old(spInit) ==> spInit)
      ensures Mode(new_) == Mode(psw) ==>
                r == old(r) && spMode == old(spMode) && spInit == old(spInit) && synced == old(synced)
      ensures Mode(new_) != Mode(psw) ==>
                && spInit && (forall m | 0 <= m < 4 && m != Mode(new_) :: spMode[m] == old(StackOf(m)))
                && spMode[Mode(new_)] == synced == r[6]
    {
      var from, to := Mode(psw), Mode(new_);
      if from == to {
        return;
      }
      InitStacks();
      spMode := spMode[from := r[6]];
      r := r[6 := spMode[to]];
      synced := r[6];
    }

    // dcj11_switch_regset
    method SwitchSet(new_: u16)
      requires Shape()
      modifies `r, `bank, `bankInit
      ensures Shape() && r[6..] == old(r)[6..]
      ensures r[..6] == old(SetOf(RegSet(new_)))
      ensures RegSet(new_) == RegSet(psw) ==> bank == old(bank) && bankInit == old(bankInit)
      ensures RegSet(new_) != RegSet(psw) ==> bankInit && bank[RegSet(psw)] == old(r)[..6]
    {
      var from, to := RegSet(psw), RegSet(new_);
      if from == to {
        return;
      }
      if !bankInit {
        bank, bankInit := [r[..6], r[..6]], true;
      }
      ghost var r0, saved := r, bank[to];
      for reg := 0 to 6
        invariant Shape() && bankInit && r[6..] == r0[6..] && bank[to] == saved
        invariant forall j | 0 <= j < 6 :: r[j] == if j < reg then saved[j] else r0[j]
        invariant forall j | 0 <= j < reg :: bank[from][j] == r0[j]
      {
        bank := bank[from := bank[from][reg := r[reg]]];
        r := r[reg := bank[to][reg]];
      }
      assert bank[from] == r0[..6];
    }

    // dcj11_set_psw: only what is visible changes.
    method SetPsw(new_: u16)
      requires Valid()
      modifies `r, `psw, `spMode, `spInit, `synced, `bank, `bankInit
      ensures Valid() && psw == new_ && r[7] == old(r)[7]
      ensures (old(spInit) || Mode(old(psw)) != Mode(new_) ==> spInit) && (old(bankInit) ==> bankInit)
      ensures synced == if Mode(old(psw)) == Mode(new_) then old(synced) else r[6]
      ensures StackOf(0) == old(StackOf(0)) && StackOf(1) == old(StackOf(1)) && StackOf(3) == old(StackOf(3))
      ensures SetOf(0) == old(SetOf(0)) && SetOf(1) == old(SetOf(1))
    {
      SwitchStack(new_);
      SwitchSet(new_);
      psw := new_;
    }

    // dcj11_read_mode_reg for the stack pointer, after initialisation: the saved slot,
    // even for the current mode. For that it is the stack pointer if and only if R6 is
    // again what it was when the mode was entered or its stack pointer last written.
    method ReadModeStack(mode: nat) returns (v: u16)
      requires Valid() && (mode == 0 || mode == 1 || mode == 3)
      modifies `spMode, `spInit, `synced
      ensures Valid() && spInit && StackOf(mode) == old(StackOf(mode))
      ensures synced == if old(spInit) then old(synced) else r[6]
      ensures v == StackOf(mode) <==> mode != Mode(psw) || r[6] == synced
      ensures mode == Mode(psw) ==> v == synced
    {
      InitStacks();
      v := spMode[mode];
    }

    // dcj11_write_mode_reg for the stack pointer keeps the slot and the register equal.
    method WriteModeStack(mode: nat, v: u16)
      requires Valid() && (mode == 0 || mode == 1 || mode == 3)
      modifies `r, `spMode, `spInit, `synced
      ensures Valid() && StackOf(mode) == v && spMode[mode] == v && (mode == Mode(psw) ==> synced == v)
      ensures old(spInit) || mode != Mode(psw) ==>
                forall m | (m == 0 || m == 1 || m == 3) && m != mode :: StackOf(m) == old(StackOf(m))
      ensures SetOf(0) == old(SetOf(0)) && SetOf(1) == old(SetOf(1))
    {
      InitStacks();
      spMode := spMode[mode := v];
      if Mode(psw) == mode {
        r := r[6 := v];
        synced := v;
      }
    }

    // A stale slot: in user mode, with user as previous mode too, after one push.
    method StaleAfterPush() returns (v: u16)
      requires Valid() && psw == 0xE0 && StackOf(3) % 2 == 0
      modifies this
      ensures Valid() && psw == 0xF000 && StackOf(3) == Down(old(StackOf(3))) && v == old(StackOf(3)) != StackOf(3)
    {
      SetPsw(0xF000);
      StackStep(r[6]);
      Push(0);
      v := ReadModeStack(3);
    }

    method Push(v: u16)
      requires Valid() && r[6] % 2 == 0
      modifies `r, `mem
      ensures Valid() && r == old(r)[6 := Down(old(r)[6])] && mem == old(mem)[Down(old(r)[6]) / 2 := v]
    {
      r := r[6 := Down(r[6])];
      mem := mem[r[6] / 2 := v];
    }

    method Pull() returns (v: u16)
      requires Valid() && r[6] % 2 == 0
      modifies `r
      ensures Valid() && r == old(r)[6 := Up(old(r)[6])] && v == mem[old(r)[6] / 2]
    {
      v := mem[r[6] / 2];
      r := r[6 := Up(r[6])];
    }

    // core_take_vector, where nothing faults: the kernel stack is even and in memory.
    method TakeVector(vec: u16)
      requires Valid() && vec % 2 == 0 && StackOf(0) % 2 == 0
      modifies this
      ensures Valid() && psw == TrapPsw(old(psw), old(mem)[Up(vec) / 2]) && r[7] == old(mem)[vec / 2]
      ensures StackOf(0) == Down(Down(old(StackOf(0))))
      ensures old(spInit) || Mode(old(psw)) != 0 ==>
                spInit && StackOf(1) == old(StackOf(1)) && StackOf(3) == old(StackOf(3))
      ensures old(bankInit) ==> bankInit
      ensures SetOf(0) == old(SetOf(0)) && SetOf(1) == old(SetOf(1))
      ensures mem == old(mem)[Down(old(StackOf(0))) / 2 := old(psw)][StackOf(0) / 2 := old(r)[7]]
    {
      var oldPsw, oldPc := psw, r[7];
      StackStep(vec);
      var newPsw := TrapPsw(oldPsw, mem[Up(vec) / 2]);
      var newPc := mem[vec / 2];
      SetPsw(newPsw);
      ghost var sp := StackOf(0);
      assert r[6] == sp;
      StackStep(sp);
      StackStep(Down(sp));
      Push(oldPsw);
      Push(oldPc);
      r := r[7 := newPc];
    }

    // RTI, where nothing faults.
    method ReturnFromInterrupt()
      requires Valid() && r[6] % 2 == 0
      modifies this
      ensures Valid() && mem == old(mem)
      ensures var sp := old(r)[6];
              && r[7] == mem[sp / 2]
              && psw == (if Mode(old(psw)) == 0 then mem[Up(sp) / 2] else Protected(old(psw), mem[Up(sp) / 2]))
              && StackOf(Mode(old(psw))) == Up(Up(sp))
      ensures old(spInit) ==>
                forall m | (m == 0 || m == 1 || m == 3) && m != Mode(old(psw)) :: StackOf(m) == old(StackOf(m))
      ensures SetOf(0) == old(SetOf(0)) && SetOf(1) == old(SetOf(1))
    {
      StackStep(r[6]);
      var pc := Pull();
      var popped := Pull();
      r := r[7 := pc];
      if Mode(psw) != 0 {
        popped := Protected(psw, popped);
      }
      SetPsw(popped);
    }

    // A trap through any vector and its return. The handler may leave memory as it
    // likes but for the frame; everything the interrupted program can see of the
    // processor is then as it was, even when the vector selects the other register set.
    method TrapAndReturn(vec: u16, handled: seq<u16>)
      requires Valid() && vec % 2 == 0 && StackOf(0) % 2 == 0 && spInit && |handled| == |mem|
      requires handled[Down(StackOf(0)) / 2] == psw && handled[Down(Down(StackOf(0))) / 2] == r[7]
      modifies this
      ensures Valid() && psw == old(psw) && r == old(r) && mem == handled
      ensures forall m | m == 0 || m == 1 || m == 3 :: StackOf(m) == old(StackOf(m))
      ensures SetOf(0) == old(SetOf(0)) && SetOf(1) == old(SetOf(1))
    {
      hide TrapPsw, Protected;
      ghost var sp, m, s := StackOf(0), Mode(psw), RegSet(psw);
      ghost var was := r;
      StackStep(sp);
      StackStep(Down(sp));
      TakeVector(vec);
      mem := handled;
      ReturnFromInterrupt();
      assert r[..6] == SetOf(s) == was[..6];
      assert r[6] == StackOf(m) == was[6];
      assert r == was;
    }
  }

  function Down(sp: u16): u16 {
    if sp < 2 then sp + 0xFFFE else sp - 2
  }

  function Up(sp: u16): u16 {
    if sp >= 0xFFFE then sp - 0xFFFE else sp + 2
  }

  lemma StackStep(sp: u16)
    ensures Up(Down(sp)) == sp && Down(Up(sp)) == sp
    ensures sp % 2 == 0 ==> Down(sp) % 2 == 0 && Up(sp) % 2 == 0
    ensures sp % 2 == 0 ==> Down(sp) / 2 != Down(Down(sp)) / 2
  {
  }
}
