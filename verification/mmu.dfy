// The DCJ11 MMU: page registers, the cached windows beside them, and the loads and
// stores that use a window when it hits and walk when it does not.
module Mmu {
  import opened Arith
  import opened MmuWalk

  // ---- Register addresses ----

  datatype Apr = Apr(mode: nat, space: nat, isPar: bool, seg: nat)

  // mmu_decode_parpdr: supervisor from 172200, kernel from 172300, user from 177600
  // (octal), each as I and D page descriptors, then I and D page addresses.
  function DecodeApr(a: u16): Option<Apr> {
    if 0xF480 <= a < 0xF4C0 then Some(AprAt(1, a - 0xF480))
    else if 0xF4C0 <= a < 0xF500 then Some(AprAt(0, a - 0xF4C0))
    else if 0xFF80 <= a < 0xFFC0 then Some(AprAt(3, a - 0xFF80))
    else None
  }

  function AprAt(mode: nat, o: nat): Apr
    requires o < 0x40
  {
    Apr(mode, (o / 0x10) % 2, o >= 0x20, (o % 0x10) / 2)
  }

  // Where the registers of a page are, by the addresses of the architecture: 172200,
  // 172300 and 177600 octal, 20 octal words a bank, data behind instruction space and
  // addresses behind descriptors.
  function AprAddress(mode: nat, space: nat, isPar: bool, seg: nat): (a: u16)
    requires (mode == 0 || mode == 1 || mode == 3) && space < 2 && seg < 8
  {
    (if mode == 1 then 0xF480 else if mode == 0 then 0xF4C0 else 0xFF80)
    + (if isPar then 0x20 else 0) + 0x10 * space + 2 * seg
  }

  lemma AprFound(mode: nat, space: nat, isPar: bool, seg: nat)
    requires (mode == 0 || mode == 1 || mode == 3) && space < 2 && seg < 8
    ensures DecodeApr(AprAddress(mode, space, isPar, seg)) == Some(Apr(mode, space, isPar, seg))
  {
    var o := (if isPar then 0x20 else 0) + 0x10 * space + 2 * seg;
    DivModUnique(o, 0x10, (if isPar then 2 else 0) + space, 2 * seg);
  }

  const SSR0 := 0xFF7A
  const SSR1 := 0xFF7C
  const SSR2 := 0xFF7E
  const SSR3 := 0xF54E
  const SSR3_ALT := 0xFF4E

  predicate IsMmuReg(a: u16) {
    a == SSR0 || a == SSR1 || a == SSR2 || a == SSR3 || a == SSR3_ALT || DecodeApr(a).Some?
  }

  // The processor's own register block, 177744 to 177776 octal.
  predicate IsCpuReg(a: u16) {
    || a == 0xFFE4 || a == 0xFFE6 || a == 0xFFE8 || a == 0xFFEA
    || a == 0xFFF6 || a == 0xFFFA || a == 0xFFFC || a == 0xFFFE
  }

  // Where a physical access goes: a register of the I/O page, or memory.
  datatype Target = Memory(pa: nat) | CpuReg(offset: u16) | MmuReg(offset: u16)

  // dcj11_io_alias_offset
  function AliasOffset(enable: bool, m22e: bool, pa: nat): Option<u16> {
    if !enable then None
    else if m22e then (if IsIoPage(pa) then Some(pa % 0x1_0000) else None)
    else if 0x3_E000 <= pa <= 0x3_FFFF then Some(0xE000 + pa % 0x2000)
    else None
  }

  // The decoding at the head of the raw physical accessors.
  function TargetOf(enable: bool, m22e: bool, pa: nat): Target {
    match AliasOffset(enable, m22e, pa)
    case None => Memory(pa)
    case Some(offset) =>
      var a := offset - offset % 2;
      if IsCpuReg(a) then CpuReg(offset) else if IsMmuReg(a) then MmuReg(offset) else Memory(pa)
  }

  // The register block has eight registers, and six words between them that are none.
  lemma CpuRegisters(a: u16)
    ensures IsCpuReg(a) <==>
              && a % 2 == 0 && 0xFFE4 <= a
              && var octal := a % 64 / 8 * 10 + a % 8;
                 octal !in {54, 56, 60, 62, 64, 70}
  {
    assert a == 0xFFC0 + a % 64 || a < 0xFFC0;
  }

  // dcj11_phys_internal_reg: no instruction comes from the register block or from a register
  // of memory management. The words of the block that are no register are shut out as well.
  predicate NotForCode(enable: bool, m22e: bool, pa: nat) {
    match AliasOffset(enable, m22e, pa)
    case None => false
    case Some(offset) =>
      var a := offset - offset % 2;
      0xFFE4 <= a || IsMmuReg(a)
  }

  // So an instruction address is refused exactly if it leads to a register or, in the 18-bit
  // or 22-bit I/O page, into the block.
  lemma NoCodeInBlock(enable: bool, m22e: bool, pa: nat)
    requires pa < 0x40_0000
    ensures var top := if m22e then 0x40_0000 else 0x4_0000;
            NotForCode(enable, m22e, pa) <==>
              || !TargetOf(enable, m22e, pa).Memory?
              || (enable && top - 28 <= pa < top)
  {
    hide IsMmuReg;
    if m22e && 0x3F_E000 <= pa {
      DivModUnique(pa, 0x1_0000, 0x3F, pa - 0x3F_0000);
    } else if !m22e && 0x3_E000 <= pa <= 0x3_FFFF {
      DivModUnique(pa, 0x2000, 31, pa - 0x3_E000);
    }
  }

  // A register is found at the same offset in the I/O page whether addresses have 16, 18
  // or 22 bits, and where there is none there is memory.
  lemma RegistersAtTop(o: u16)
    requires o >= 0xE000
    ensures var t := DirectTarget(o);
            && TargetOf(true, false, 0x3_0000 + o) == (if t.Memory? then Memory(0x3_0000 + o) else t)
            && TargetOf(true, true, 0x3F_0000 + o) == (if t.Memory? then Memory(0x3F_0000 + o) else t)
  {
    hide IsMmuReg;
    DivModUnique(0x3F_0000 + o, 0x1_0000, 0x3F, o);
    DivModUnique(0x3_0000 + o, 0x2000, 31, o - 0xE000);
  }

  // A window hit goes to memory; a walk to the same address goes to memory as well,
  // unless it lies in the 18-bit I/O window, translation is 18 bits wide, and the
  // register there exists.
  predicate Shadowed(m22e: bool, pa: nat) {
    !m22e && 0x3_E000 <= pa <= 0x3_FFFF
    && var offset := 0xE000 + pa % 0x2000;
       var a := offset - offset % 2;
       IsCpuReg(a) || IsMmuReg(a)
  }

  lemma WindowTarget(e: Entry, pdr: Pdr, par: u16, m22e: bool, ramSize: nat, po: nat, width: nat, isWrite: bool)
    requires Agrees(e, pdr, par, m22e, ramSize) && pdr.Ok() && width >= 1
    requires TlbPtr(e, po, width, isWrite).Some?
    ensures var p := TlbPtr(e, po, width, isWrite).value;
            && (TargetOf(true, m22e, p) == Memory(p) <==> !Shadowed(m22e, p))
            && (m22e || ramSize <= 0x3_E000 ==> !Shadowed(m22e, p))
  {
    WindowIsSafe(e, pdr, par, m22e, ramSize, po, width, isWrite);
  }

  // The difference exists: on an 18-bit machine with memory there, the processor
  // status register is hidden by the window.
  lemma ShadowedWitness()
    ensures var pdr := PdrOfWord(0x7F06);
            var e := Rebuild(pdr, 0xF80, false, 0x4_0000);
            && TlbPtr(e, 0x1FFE, 2, false) == Some(0x3_FFFE)
            && TargetOf(true, false, 0x3_FFFE) == CpuReg(0xFFFE)
  {
  }

  // ---- Register images ----

  function WordOfSsr0(s: Ssr0): (v: int) {
    (if s.nonres then 0x8000 else 0) + (if s.length then 0x4000 else 0) + (if s.protect then 0x2000 else 0)
    + (s.mode % 4) * 0x20 + (s.space % 2) * 0x10 + (s.seg % 8) * 2 + (if s.enable then 1 else 0)
  }

  // A write sets the fault bits and the enable; the page of the last fault stays.
  function Ssr0Written(s: Ssr0, v: u16): Ssr0 {
    s.(nonres := Bit(v, 0x8000), length := Bit(v, 0x4000), protect := Bit(v, 0x2000), enable := Bit(v, 1))
  }

  function WordOfSsr3(s: Ssr3): (v: int) {
    (if s.ud then 1 else 0) + (if s.sd then 2 else 0) + (if s.kd then 4 else 0)
    + (if s.csm then 8 else 0) + (if s.m22e then 0x10 else 0) + (if s.bme then 0x20 else 0)
  }

  function Ssr3OfWord(v: u16): Ssr3 {
    Ssr3(Bit(v, 1), Bit(v, 2), Bit(v, 4), Bit(v, 8), Bit(v, 0x10), Bit(v, 0x20))
  }

  // SSR0 read after a write has the fault bits and the enable that were written, and the
  // page that was there.
  lemma Ssr0ReadBack(s: Ssr0, v: u16)
    requires s.mode < 4 && s.space < 2 && s.seg < 8
    ensures WordOfSsr0(Ssr0Written(s, v))
         == v / 0x2000 * 0x2000 + s.mode * 0x20 + s.space * 0x10 + s.seg * 2 + v % 2
  {
    TopThree(v);
    hide Bit;
  }

  lemma TopThree(v: u16)
    ensures var t := v / 0x2000;
            && 4 * (t / 4) + 2 * (t / 2 % 2) + t % 2 == t < 8
            && Bit(v, 0x8000) == (t / 4 == 1) && Bit(v, 0x4000) == (t / 2 % 2 == 1) && Bit(v, 0x2000) == (t % 2 == 1)
            && Bit(v, 1) == (v % 2 == 1)
  {
    var t := v / 0x2000;
    DivModUnique(v, 0x4000, t / 2, t % 2 * 0x2000 + v % 0x2000);
    DivModUnique(v, 0x8000, t / 4, t % 4 * 0x2000 + v % 0x2000);
  }

  // SSR3 keeps its six implemented bits, and the low three separate the spaces of user,
  // supervisor and kernel mode.
  lemma Ssr3ReadBack(v: u16)
    ensures var s := Ssr3OfWord(v);
            && WordOfSsr3(s) == v % 0x40 && s.m22e == (v / 0x10 % 2 == 1)
            && (SplitEnabled(s, 3) <==> v % 2 == 1) && (SplitEnabled(s, 1) <==> v / 2 % 2 == 1)
            && (SplitEnabled(s, 0) <==> v / 4 % 2 == 1)
  {
    assert v / 4 == v / 2 / 2 && v / 8 == v / 4 / 2 && v / 0x10 == v / 8 / 2 && v / 0x20 == v / 0x10 / 2;
    assert v / 0x40 == v / 0x20 / 2;
  }

  // Instructions and undivided modes use the first bank, data in a divided mode the second.
  lemma SpacesOnWords(v: u16, mode: nat)
    requires mode < 4
    ensures SpaceOf(Ssr3OfWord(v), mode, false) == 0
    ensures SpaceOf(Ssr3OfWord(v), mode, true)
         == if mode == 3 then v % 2 else if mode == 1 then v / 2 % 2 else if mode == 0 then v / 4 % 2 else 0
  {
    Ssr3ReadBack(v);
  }

  // SSR1 is read without the entries of a program counter that has moved on by two, which
  // are 027 octal, and with what is left in the low byte.
  lemma PcEntriesHidden(x: u8)
    requires x != 0x17
    ensures VisibleSsr1(0x17) == 0 && VisibleSsr1(0x1717) == 0
    ensures VisibleSsr1(0x17 * 0x100 + x) == x && VisibleSsr1(x * 0x100 + 0x17) == x
  {
    DivModUnique(0x17 * 0x100 + x, 0x100, 0x17, x);
    DivModUnique(x * 0x100 + 0x17, 0x100, x, 0x17);
  }

  // The word that a first fault leaves in SSR0: the bit of the fault, the page, and the
  // enable.
  lemma FaultWord(r: Regs, f: Fault, mode: nat, space: nat, g: nat)
    requires !r.ssr0.Frozen() && mode < 4 && space < 2 && g < 8
    ensures var r' := Latch(r, f, mode, space, g);
            && WordOfSsr0(r'.ssr0) == (match f case NonResident => 0x8000 case Length => 0x4000 case Protect => 0x2000)
                                      + 2 * (16 * mode + 8 * space + g) + (if r.ssr0.enable then 1 else 0)
            && r'.ssr2 == r.pc
  {
  }

  // MMR1 as read: entries for the PC stepping by two are suppressed.
  function VisibleSsr1(v: u16): int {
    var v' := if v / 0x100 == 0x17 then v % 0x100 else v;
    if v' % 0x100 == 0x17 then v' / 0x100 else v'
  }

  // A byte written into one half of a register.
  function Merge(a: u16, w: u16, v: u8): u16 {
    if a % 2 == 1 then w % 0x100 + v * 0x100 else w - w % 0x100 + v
  }

  // ---- The register file ----

  datatype Regs = Regs(ssr0: Ssr0, ssr1: u16, ssr2: u16, ssr3: Ssr3, pc: u16, par: seq<u16>, pdr: seq<Pdr>) {
    // The page descriptors have their fields in range, and none is set up for the
    // illegal mode.
    ghost predicate Ok() {
      && |par| == |pdr| == 64
      && (forall i | 0 <= i < 64 :: pdr[i].Ok())
      && (forall i | 32 <= i < 48 :: pdr[i].acf == 0)
    }
  }

  function Slot(m: nat, s: nat, g: nat): (i: nat)
    requires m < 4 && s < 2 && g < 8
    ensures i < 64
  {
    m * 16 + s * 8 + g
  }

  // The space of an access: data space only where it is separate.
  function SpaceOf(ssr3: Ssr3, mode: nat, data: bool): (s: nat)
    ensures s < 2
  {
    if data && SplitEnabled(ssr3, mode) then 1 else 0
  }

  function PageOf(r: Regs, mode: nat, data: bool, va: u16): (i: nat)
    requires mode < 4
    ensures i < 64
  {
    Slot(mode, SpaceOf(r.ssr3, mode, data), va / 0x2000)
  }

  function WalkAt(r: Regs, mode: nat, data: bool, va: u16, isWrite: bool): WalkResult
    requires r.Ok() && mode < 4
  {
    var i := PageOf(r, mode, data, va);
    Walk(mode, r.pdr[i], r.par[i], r.ssr3.m22e, va, isWrite)
  }

  // A page is marked accessed and written.
  function Mark(r: Regs, i: nat, a: bool, w: bool): (r': Regs)
    requires r.Ok() && i < 64
    ensures r'.Ok()
  {
    r.(pdr := r.pdr[i := r.pdr[i].(a := r.pdr[i].a || a, w := r.pdr[i].w || w)])
  }

  // mmu_record_fault: the first fault is latched until the fault bits are cleared.
  function Latch(r: Regs, f: Fault, mode: nat, space: nat, g: nat): Regs {
    if r.ssr0.Frozen() then r
    else r.(ssr0 := Ssr0(f.NonResident?, f.Length?, f.Protect?, mode, space, g, r.ssr0.enable), ssr2 := r.pc)
  }

  // The start of an instruction: unless a fault is latched, SSR1 is cleared and SSR2 has
  // the address.
  function Started(r: Regs, pc: u16): Regs {
    if r.ssr0.Frozen() then r.(pc := pc) else r.(pc := pc, ssr1 := 0, ssr2 := pc)
  }

  // The registers after a walk: a success marks access, and the write on a store; an
  // abort of a store still marks the write, and is latched.
  function AfterWalk(r: Regs, mode: nat, data: bool, va: u16, isWrite: bool): (r': Regs)
    requires r.Ok() && mode < 4
    ensures r'.Ok()
  {
    var i := PageOf(r, mode, data, va);
    match WalkAt(r, mode, data, va, isWrite)
    case Phys(_) => Mark(r, i, true, isWrite)
    case Abort(f) => Latch(Mark(r, i, false, isWrite), f, mode, SpaceOf(r.ssr3, mode, data), va / 0x2000)
  }

  function ReadReg(r: Regs, a: u16): (v: u16)
    requires r.Ok() && IsMmuReg(a)
  {
    if a == SSR0 then WordOfSsr0(r.ssr0)
    else if a == SSR1 then VisibleSsr1(r.ssr1)
    else if a == SSR2 then r.ssr2
    else if a == SSR3 || a == SSR3_ALT then WordOfSsr3(r.ssr3)
    else
      var d := DecodeApr(a).value;
      var i := AprIndex(d);
      if d.isPar then r.par[i] else WordOfPdr(r.pdr[i])
  }

  function AprIndex(d: Apr): (i: nat)
    requires exists a: u16 :: DecodeApr(a) == Some(d)
    ensures i < 64 && !(32 <= i < 48)
  {
    Slot(d.mode, d.space, d.seg)
  }

  // What a register write leaves: SSR1 and SSR2 are read-only, and a write to either
  // register of a page clears its status bits.
  function WriteTo(r: Regs, a: u16, v: u16): (r': Regs)
    requires r.Ok() && IsMmuReg(a)
    ensures r'.Ok()
  {
    if a == SSR0 then r.(ssr0 := Ssr0Written(r.ssr0, v))
    else if a == SSR1 || a == SSR2 then r
    else if a == SSR3 || a == SSR3_ALT then r.(ssr3 := Ssr3OfWord(v))
    else
      var d := DecodeApr(a).value;
      var i := AprIndex(d);
      if d.isPar then r.(par := r.par[i := v], pdr := r.pdr[i := r.pdr[i].(a := false, w := false)])
      else r.(pdr := r.pdr[i := PdrOfWord(v)])
  }

  // A write to either register of a page clears its status bits and changes no other page.
  lemma AprWritten(r: Regs, mode: nat, space: nat, isPar: bool, seg: nat, v: u16)
    requires r.Ok() && (mode == 0 || mode == 1 || mode == 3) && space < 2 && seg < 8
    ensures IsMmuReg(AprAddress(mode, space, isPar, seg))
    ensures var i, r' := Slot(mode, space, seg), WriteTo(r, AprAddress(mode, space, isPar, seg), v);
            && !r'.pdr[i].a && !r'.pdr[i].w
            && (if isPar then r'.par[i] == v && r'.pdr[i].(a := true, w := true) == r.pdr[i].(a := true, w := true)
                else r'.par == r.par && WordOfPdr(r'.pdr[i]) == v / 0x100 * 0x100 + v / 8 % 2 * 8 + v / 2 % 4 * 2)
            && r' == r.(par := r'.par, pdr := r'.pdr) && |r'.par| == |r'.pdr| == 64
            && forall j | 0 <= j < 64 && j != i :: r'.par[j] == r.par[j] && r'.pdr[j] == r.pdr[j]
  {
    AprFound(mode, space, isPar, seg);
    PdrImage(v);
    hide PdrOfWord, WordOfPdr, DecodeApr;
  }

  // A page descriptor keeps bypass, length, direction and access code of what is written.
  lemma PdrImage(v: u16)
    ensures WordOfPdr(PdrOfWord(v)) == v / 0x100 * 0x100 + v / 8 % 2 * 8 + v / 2 % 4 * 2
  {
    var h := v / 0x100;
    DivModUnique(v, 0x8000, h / 0x80, h % 0x80 * 0x100 + v % 0x100);
  }

  // A store of either width: a byte goes in by way of the whole register.
  function StoreTo(r: Regs, o: u16, width: nat, v: u16): (r': Regs)
    requires r.Ok() && IsMmuReg(o - o % 2) && (width == 1 ==> v < 0x100)
    ensures r'.Ok()
  {
    WriteTo(r, o - o % 2, if width == 1 then Merge(o, ReadReg(r, o - o % 2), v) else v)
  }

  function LoadFrom(r: Regs, o: u16, width: nat): int
    requires r.Ok() && IsMmuReg(o - o % 2)
  {
    var w := ReadReg(r, o - o % 2);
    if width != 1 then w else if o % 2 == 1 then w / 0x100 else w % 0x100
  }

  // mmu_note_write_pdrw
  function Noted(r: Regs, mode: nat, data: bool, va: u16): (r': Regs)
    requires r.Ok() && mode < 4
    ensures r'.Ok()
  {
    if r.ssr0.enable then Mark(r, PageOf(r, mode, data, va), false, true) else r
  }

  datatype LoadResult = Loaded(v: int) | LoadedCpuReg(offset: u16) | LoadAbort(fault: Fault) | LoadAddressError
  datatype StoreResult = Stored | StoredCpuReg(offset: u16, v: int) | StoreAbort(fault: Fault) | StoreAddressError

  // Where an access ends up.
  datatype Reached = Fault(fault: Fault) | At(target: Target)

  // A load reaches what the walk gives, but for the memory that a window puts in
  // front of a register. Neither the cache nor its history has a part in it.
  function LoadReaches(r: Regs, ramSize: nat, mode: nat, data: bool, va: u16): (t: Reached)
    requires r.Ok() && mode < 4
  {
    if !r.ssr0.enable then At(DirectTarget(va))
    else
      match WalkAt(r, mode, data, va, false)
      case Abort(f) => Fault(f)
      case Phys(pa) =>
        var hidden := Window(r.par[PageOf(r, mode, data, va)], r.ssr3.m22e, ramSize).Some? && Shadowed(r.ssr3.m22e, pa);
        At(if hidden then Memory(pa) else TargetOf(true, r.ssr3.m22e, pa))
  }

  // With translation off the registers are found at their 16-bit addresses.
  function DirectTarget(va: u16): (t: Target)
    ensures t.Memory? ==> t.pa == va
    ensures t.MmuReg? ==> t.offset == va && IsMmuReg(va - va % 2)
  {
    var a := va - va % 2;
    if IsCpuReg(a) then CpuReg(va) else if IsMmuReg(a) then MmuReg(va) else Memory(va)
  }

  // What a walk alone would reach.
  function WalkReaches(r: Regs, mode: nat, data: bool, va: u16, isWrite: bool): Reached
    requires r.Ok() && mode < 4
  {
    match WalkAt(r, mode, data, va, isWrite)
    case Abort(f) => Fault(f)
    case Phys(pa) => At(TargetOf(true, r.ssr3.m22e, pa))
  }

  // An access that no window can keep from a register: translation is off, or the walk
  // does not end at a register with memory behind it.
  predicate Unhidden(r: Regs, ramSize: nat, mode: nat, data: bool, va: u16, isWrite: bool)
    requires r.Ok() && mode < 4
  {
    r.ssr0.enable && WalkAt(r, mode, data, va, isWrite).Phys? ==>
      !(Window(r.par[PageOf(r, mode, data, va)], r.ssr3.m22e, ramSize).Some?
        && Shadowed(r.ssr3.m22e, WalkAt(r, mode, data, va, isWrite).pa))
  }

  // A load through the cache and a walk reach the same place if and only if no window
  // hides a register from it.
  lemma LoadIsWalk(r: Regs, ramSize: nat, mode: nat, data: bool, va: u16)
    requires r.Ok() && mode < 4 && r.ssr0.enable
    ensures LoadReaches(r, ramSize, mode, data, va) == WalkReaches(r, mode, data, va, false)
       <==> Unhidden(r, ramSize, mode, data, va, false)
  {
  }

  // With 22-bit addresses, or with a memory that ends below the 18-bit window, no
  // access is hidden.
  lemma NothingHidden(r: Regs, ramSize: nat, mode: nat, data: bool, va: u16, isWrite: bool)
    requires r.Ok() && mode < 4
    requires r.ssr3.m22e || ramSize <= 0x3_E000
    ensures Unhidden(r, ramSize, mode, data, va, isWrite)
  {
    var par := r.par[PageOf(r, mode, data, va)];
    if Window(par, r.ssr3.m22e, ramSize).Some? && !r.ssr3.m22e {
      BlockOf(va);
      WindowIsLinear(par, false, ramSize, va % 0x2000);
    }
  }

  // A target is memory below 4 MB or an existing register.
  ghost predicate InReach(t: Reached) {
    t.At? ==>
      && (t.target.Memory? ==> t.target.pa < 0x40_0000)
      && (t.target.MmuReg? ==> IsMmuReg(t.target.offset - t.target.offset % 2))
  }

  lemma WalkInReach(r: Regs, mode: nat, data: bool, va: u16, isWrite: bool)
    requires r.Ok() && mode < 4
    ensures InReach(WalkReaches(r, mode, data, va, isWrite))
    ensures var w := WalkAt(r, mode, data, va, isWrite);
            w.Phys? ==> w.pa < 0x40_0000 && (va % 2 == 0 ==> w.pa % 2 == 0)
  {
    var i := PageOf(r, mode, data, va);
    PhysBelow(mode, r.pdr[i], r.par[i], r.ssr3.m22e, va, isWrite);
    match WalkAt(r, mode, data, va, isWrite)
    case Abort(_) =>
    case Phys(pa) => TargetReg(true, r.ssr3.m22e, pa);
  }

  // The registers after a load, and after a store that reached t.
  function AfterLoad(r: Regs, mode: nat, data: bool, va: u16): (r': Regs)
    requires r.Ok() && mode < 4
    ensures r'.Ok()
  {
    if r.ssr0.enable then AfterWalk(r, mode, data, va, false) else r
  }

  function AfterStore(r: Regs, t: Reached, mode: nat, data: bool, va: u16, width: nat, v: u16): (r': Regs)
    requires r.Ok() && mode < 4 && (width == 1 ==> v < 0x100)
    requires InReach(t)
    ensures r'.Ok()
  {
    var r1 := if r.ssr0.enable then AfterWalk(r, mode, data, va, true) else r;
    if t.At? && t.target.MmuReg? then
      var r2 := StoreTo(r1, t.target.offset, width, v);
      if r.ssr0.enable then r2 else Noted(r2, mode, data, va)
    else
      r1
  }

  // A store to SSR0 that turns translation on is noted in the page of its own address.
  lemma EnableIsNoted(r: Regs, mode: nat, data: bool, v: u16)
    requires r.Ok() && mode < 4 && !r.ssr0.enable && v % 2 == 1
    ensures var r' := AfterStore(r, At(DirectTarget(SSR0)), mode, data, SSR0, 2, v);
            r'.ssr0.enable && r'.pdr[PageOf(r, mode, data, SSR0)].w
  {
  }

  // One request to the processor's memory interface.
  datatype Op =
    | DoLoad(mode: nat, data: bool, va: u16, width: nat)
    | DoFetch(mode: nat, va: u16)
    | DoStore(mode: nat, data: bool, va: u16, width: nat, v: u16)
    | DoReset
    | DoCoreReset
    | DoInstruction(pc: u16)
  {
    predicate Ok() {
      match this
      case DoLoad(mode, _, _, width) => mode < 4 && (width == 1 || width == 2)
      case DoFetch(mode, _) => mode < 4
      case DoStore(mode, _, _, width, v) => mode < 4 && (width == 2 || (width == 1 && v < 0x100))
      case _ => true
    }
  }

  datatype Outcome = LoadOutcome(load: LoadResult) | StoreOutcome(store: StoreResult) | NoOutcome

  // ---- The machine without a cache ----

  datatype Machine = Machine(regs: Regs, mem: seq<u8>) {
    ghost predicate Ok() {
      regs.Ok() && |mem| == 0x40_0000
    }
  }

  // Every access walks, or goes straight to its 16-bit address.
  function PlainReaches(r: Regs, mode: nat, data: bool, va: u16, isWrite: bool): (t: Reached)
    requires r.Ok() && mode < 4
    ensures InReach(t)
  {
    WalkInReach(r, mode, data, va, isWrite);
    if r.ssr0.enable then WalkReaches(r, mode, data, va, isWrite) else At(DirectTarget(va))
  }

  // Where an instruction is not taken from.
  predicate Refused(r: Regs, t: Reached) {
    t.At? && (!t.target.Memory? || NotForCode(r.ssr0.enable, r.ssr3.m22e, t.target.pa))
  }

  // The memory accessors take the second byte of a word at the next address,
  // wrapping at 64 KB for low addresses and at 4 MB for the others.
  function NextByte(pa: nat): (n: nat)
    requires pa < 0x40_0000
    ensures n < 0x40_0000
    ensures pa % 2 == 0 ==> n == pa + 1
  {
    if pa <= 0xFFFF then (pa + 1) % 0x1_0000 else (pa + 1) % 0x40_0000
  }

  function PlainLoad(mem: seq<u8>, pa: nat, width: nat): int
    requires |mem| == 0x40_0000 && pa < |mem|
  {
    var lo: int, hi: int := mem[pa], mem[NextByte(pa)];
    if width == 1 then lo else lo + 0x100 * hi
  }

  function PlainStore(mem: seq<u8>, pa: nat, width: nat, v: u16): seq<u8>
    requires |mem| == 0x40_0000 && pa < |mem|
  {
    if width == 1 then mem[pa := v % 0x100] else mem[pa := v % 0x100][NextByte(pa) := v / 0x100]
  }

  function PlainLoaded(r: Regs, mem: seq<u8>, t: Reached, width: nat): LoadResult
    requires |mem| == 0x40_0000 && r.Ok() && InReach(t)
  {
    match t
    case Fault(f) => LoadAbort(f)
    case At(Memory(pa)) => Loaded(PlainLoad(mem, pa, width))
    case At(CpuReg(o)) => LoadedCpuReg(o)
    case At(MmuReg(o)) => Loaded(LoadFrom(r, o, width))
  }

  function PlainStored(t: Reached, v: u16): StoreResult {
    match t
    case Fault(f) => StoreAbort(f)
    case At(CpuReg(o)) => StoredCpuReg(o, v)
    case At(_) => Stored
  }

  function PlainStep(m: Machine, op: Op): (r: (Machine, Outcome))
    requires m.Ok() && op.Ok()
    ensures r.0.Ok()
  {
    match op
    case DoLoad(mode, data, va, width) =>
      if width == 2 && va % 2 == 1 then (m, LoadOutcome(LoadAddressError))
      else
        var t := PlainReaches(m.regs, mode, data, va, false);
        var regs := AfterLoad(m.regs, mode, data, va);
        (m.(regs := regs), LoadOutcome(PlainLoaded(regs, m.mem, t, width)))
    case DoFetch(mode, va) =>
      if va % 2 == 1 then (m, LoadOutcome(LoadAddressError))
      else
        var t := PlainReaches(m.regs, mode, false, va, false);
        var regs := AfterLoad(m.regs, mode, false, va);
        (m.(regs := regs), LoadOutcome(if Refused(m.regs, t) then LoadAddressError
                                       else PlainLoaded(regs, m.mem, t, 2)))
    case DoStore(mode, data, va, width, v) =>
      if width == 2 && va % 2 == 1 then (m, StoreOutcome(StoreAddressError))
      else
        var t := PlainReaches(m.regs, mode, data, va, true);
        var mem := if t.At? && t.target.Memory? then PlainStore(m.mem, t.target.pa, width, v) else m.mem;
        (Machine(AfterStore(m.regs, t, mode, data, va, width, v), mem), StoreOutcome(PlainStored(t, v)))
    case DoReset => (m.(regs := m.regs.(ssr0 := PowerUp().ssr0, ssr3 := PowerUp().ssr3)), NoOutcome)
    case DoCoreReset => (m.(regs := PowerUp().(pc := m.regs.pc)), NoOutcome)
    case DoInstruction(pc) => (m.(regs := Started(m.regs, pc)), NoOutcome)
  }

  function PlainRun(m: Machine, ops: seq<Op>): (r: (Machine, seq<Outcome>))
    requires m.Ok() && forall k | 0 <= k < |ops| :: ops[k].Ok()
    ensures r.0.Ok()
  {
    if ops == [] then (m, [])
    else
      var n := |ops| - 1;
      var (m1, outs) := PlainRun(m, ops[..n]);
      var (m2, out) := PlainStep(m1, ops[n]);
      (m2, outs + [out])
  }

  // A request that can lift the latch of a fault: a reset, or a store to SSR0.
  predicate Lifts(r: Regs, op: Op)
    requires r.Ok() && op.Ok()
  {
    match op
    case DoReset => true
    case DoCoreReset => true
    case DoStore(mode, data, va, _, _) =>
      var t := PlainReaches(r, mode, data, va, true);
      t.At? && t.target.MmuReg? && t.target.offset - t.target.offset % 2 == SSR0
    case _ => false
  }

  lemma LatchStep(m: Machine, op: Op)
    requires m.Ok() && op.Ok() && m.regs.ssr0.Frozen() && !Lifts(m.regs, op)
    ensures var r := PlainStep(m, op).0.regs;
            r.ssr0 == m.regs.ssr0 && r.ssr1 == m.regs.ssr1 && r.ssr2 == m.regs.ssr2
  {
    hide Walk, TargetOf, Bit;
  }

  ghost predicate NeverLifts(m: Machine, ops: seq<Op>)
    requires m.Ok() && forall k | 0 <= k < |ops| :: ops[k].Ok()
  {
    ops != [] ==>
      var n := |ops| - 1;
      NeverLifts(m, ops[..n]) && !Lifts(PlainRun(m, ops[..n]).0.regs, ops[n])
  }

  // A latched fault, with its page, its registers and its instruction, outlives any
  // run that does not lift it, whatever faults follow.
  lemma {:induction false} LatchHolds(m: Machine, ops: seq<Op>)
    requires m.Ok() && m.regs.ssr0.Frozen() && forall k | 0 <= k < |ops| :: ops[k].Ok()
    requires NeverLifts(m, ops)
    ensures var r := PlainRun(m, ops).0.regs;
            r.ssr0 == m.regs.ssr0 && r.ssr1 == m.regs.ssr1 && r.ssr2 == m.regs.ssr2
  {
    hide Lifts, PlainStep;
    if ops != [] {
      var n := |ops| - 1;
      LatchHolds(m, ops[..n]);
      LatchStep(PlainRun(m, ops[..n]).0, ops[n]);
    }
  }

  predicate OpUnhidden(r: Regs, ramSize: nat, op: Op)
    requires r.Ok() && op.Ok()
  {
    match op
    case DoLoad(mode, data, va, _) => Unhidden(r, ramSize, mode, data, va, false)
    case DoStore(mode, data, va, _, _) => Unhidden(r, ramSize, mode, data, va, true)
    case _ => true
  }

  lemma OpNotHidden(r: Regs, ramSize: nat, op: Op)
    requires r.Ok() && op.Ok()
    requires ramSize <= 0x3_E000 || r.ssr3.m22e || !r.ssr0.enable
    ensures OpUnhidden(r, ramSize, op)
  {
    if ramSize <= 0x3_E000 || r.ssr3.m22e {
      match op
      case DoLoad(mode, data, va, _) => NothingHidden(r, ramSize, mode, data, va, false);
      case DoStore(mode, data, va, _, _) => NothingHidden(r, ramSize, mode, data, va, true);
      case _ =>
    }
  }

  // No request of the run, made of the machine without a cache, reaches a register
  // that a window can hide.
  ghost predicate RunUnhidden(m: Machine, ramSize: nat, ops: seq<Op>)
    requires m.Ok() && forall k | 0 <= k < |ops| :: ops[k].Ok()
  {
    forall k | 0 <= k < |ops| :: OpUnhidden(PlainRun(m, ops[..k]).0.regs, ramSize, ops[k])
  }

  function PowerUp(): (r: Regs)
    ensures r.Ok()
  {
    Regs(Ssr0(false, false, false, 0, 0, 0, false), 0, 0, Ssr3(false, false, false, false, false, false), 0,
         seq(64, i => 0), seq(64, i => Pdr(false, 0, false, false, false, 0)))
  }

  class Mmu {
    var ssr0: Ssr0
    var ssr1: u16
    var ssr2: u16
    var ssr3: Ssr3
    var instrPc: u16
    var par: seq<u16>
    var pdr: seq<Pdr>
    var tlb: seq<Entry>
    const ram: array<u8>
    const ramSize: nat

    ghost function State(): Regs
      reads this
    {
      Regs(ssr0, ssr1, ssr2, ssr3, instrPc, par, pdr)
    }

    // Every cached entry agrees with its registers.
    ghost predicate Coherent()
      reads this
    {
      && |tlb| == |par| == |pdr| == 64
      && forall i | 0 <= i < 64 :: Agrees(tlb[i], pdr[i], par[i], ssr3.m22e, ramSize)
    }

    ghost predicate Valid()
      reads this
    {
      State().Ok() && Coherent() && ram.Length == 0x40_0000 && ramSize <= ram.Length
    }

    constructor (ramSize: nat)
      requires ramSize <= 0x40_0000
      ensures Valid() && fresh(ram) && State() == PowerUp() && this.ramSize == ramSize
      ensures forall i | 0 <= i < ram.Length :: ram[i] == 0
    {
      ssr0 := Ssr0(false, false, false, 0, 0, 0, false);
      ssr3 := Ssr3(false, false, false, false, false, false);
      ssr1, ssr2, instrPc := 0, 0, 0;
      par := seq(64, i => 0);
      pdr := seq(64, i => Pdr(false, 0, false, false, false, 0));
      tlb := seq(64, i => Entry(None, 0, 0, false));
      ram := new u8[0x40_0000](i => 0);
      this.ramSize := ramSize;
    }

    // ---- The cache ----

    method TlbUpdate(i: nat)
      requires |tlb| == |par| == |pdr| == 64 && i < 64
      modifies this`tlb
      ensures tlb == old(tlb)[i := Rebuild(pdr[i], par[i], ssr3.m22e, ramSize)]
    {
      tlb := tlb[i := Rebuild(pdr[i], par[i], ssr3.m22e, ramSize)];
    }

    method TlbFlushAll()
      requires |tlb| == |par| == |pdr| == 64
      modifies this`tlb
      ensures Coherent()
    {
      for mode := 0 to 4
        invariant |tlb| == 64
        invariant forall i | 0 <= i < mode * 16 :: tlb[i] == Rebuild(pdr[i], par[i], ssr3.m22e, ramSize)
      {
        for space := 0 to 2
          invariant |tlb| == 64
          invariant forall i | 0 <= i < mode * 16 + space * 8 :: tlb[i] == Rebuild(pdr[i], par[i], ssr3.m22e, ramSize)
        {
          for seg := 0 to 8
            invariant |tlb| == 64
            invariant forall i | 0 <= i < mode * 16 + space * 8 + seg ::
                        tlb[i] == Rebuild(pdr[i], par[i], ssr3.m22e, ramSize)
          {
            TlbUpdate(Slot(mode, space, seg));
          }
        }
      }
    }

    // ---- Translation ----

    method SetStatus(i: nat, a: bool, w: bool)
      requires Valid() && i < 64
      modifies this`pdr
      ensures Valid() && State() == Mark(old(State()), i, a, w)
    {
      StatusKeepsAgreement(tlb[i], pdr[i], par[i], ssr3.m22e, ramSize, a, w);
      pdr := pdr[i := pdr[i].(a := pdr[i].a || a, w := pdr[i].w || w)];
    }

    method NoteWritePdrW(mode: nat, data: bool, va: u16)
      requires Valid() && mode < 4
      modifies this`pdr
      ensures Valid() && State() == Noted(old(State()), mode, data, va)
    {
      if ssr0.enable {
        SetStatus(Slot(mode, SpaceOf(ssr3, mode, data), va / 0x2000), false, true);
      }
    }

    method RecordFault(f: Fault, mode: nat, space: nat, g: nat)
      modifies this`ssr0, this`ssr2
      ensures State() == Latch(old(State()), f, mode, space, g)
    {
      if !ssr0.Frozen() {
        ssr0 := Ssr0(f.NonResident?, f.Length?, f.Protect?, mode, space, g, ssr0.enable);
        ssr2 := instrPc;
      }
    }

    // translate_va_ex and translate_va_mode_space with translation on, and the latch
    // of mmu_fault_trap.
    method Translate(mode: nat, data: bool, va: u16, isWrite: bool) returns (w: WalkResult)
      requires Valid() && mode < 4
      modifies this`pdr, this`ssr0, this`ssr2
      ensures Valid()
      ensures w == WalkAt(old(State()), mode, data, va, isWrite)
      ensures State() == AfterWalk(old(State()), mode, data, va, isWrite)
    {
      var space := SpaceOf(ssr3, mode, data);
      var i := Slot(mode, space, va / 0x2000);
      w := Walk(mode, pdr[i], par[i], ssr3.m22e, va, isWrite);
      match w
      case Abort(f) =>
        SetStatus(i, false, isWrite);
        RecordFault(f, mode, space, va / 0x2000);
      case Phys(_) =>
        SetStatus(i, true, isWrite);
    }

    // ---- Registers ----

    method WriteReg(a: u16, v: u16)
      requires Valid() && IsMmuReg(a)
      modifies this`ssr0, this`ssr3, this`par, this`pdr, this`tlb
      ensures Valid() && State() == WriteTo(old(State()), a, v)
    {
      if a == SSR0 {
        var flip := ssr0.enable != Bit(v, 1);
        ssr0 := Ssr0Written(ssr0, v);
        if flip {
          TlbFlushAll();
        }
      } else if a == SSR1 || a == SSR2 {
      } else if a == SSR3 || a == SSR3_ALT {
        ssr3 := Ssr3OfWord(v);
        TlbFlushAll();
      } else {
        var d := DecodeApr(a).value;
        var i := AprIndex(d);
        if d.isPar {
          par := par[i := v];
          pdr := pdr[i := pdr[i].(a := false, w := false)];
        } else {
          pdr := pdr[i := PdrOfWord(v)];
        }
        TlbUpdate(i);
        RebuildAgrees(pdr[i], par[i], ssr3.m22e, ramSize);
      }
    }

    method StoreReg(o: u16, width: nat, v: u16)
      requires Valid() && IsMmuReg(o - o % 2) && (width == 1 ==> v < 0x100)
      modifies this`ssr0, this`ssr3, this`par, this`pdr, this`tlb
      ensures Valid() && State() == StoreTo(old(State()), o, width, v)
    {
      var a := o - o % 2;
      var w := v;
      if width == 1 {
        w := Merge(o, ReadReg(Regs(ssr0, ssr1, ssr2, ssr3, instrPc, par, pdr), a), v);
      }
      WriteReg(a, w);
    }

    // mmu_mmr1_instruction_start
    method Start(pc: u16)
      requires Valid()
      modifies this`instrPc, this`ssr1, this`ssr2
      ensures Valid() && State() == Started(old(State()), pc)
    {
      instrPc := pc;
      if !ssr0.Frozen() {
        ssr2, ssr1 := pc, 0;
      }
    }

    // The RESET instruction.
    method ResetInstruction()
      requires Valid()
      modifies this`ssr0, this`ssr3, this`tlb
      ensures Valid() && State() == old(State()).(ssr0 := PowerUp().ssr0, ssr3 := PowerUp().ssr3)
    {
      ssr0 := Ssr0(false, false, false, 0, 0, 0, false);
      ssr3 := Ssr3(false, false, false, false, false, false);
      TlbFlushAll();
    }

    // The MMU part of core_reset.
    method CoreReset()
      requires Valid()
      modifies this
      ensures Valid() && State() == PowerUp().(pc := old(instrPc))
    {
      ssr0 := Ssr0(false, false, false, 0, 0, 0, false);
      ssr3 := Ssr3(false, false, false, false, false, false);
      ssr1, ssr2 := 0, 0;
      par := seq(64, i => 0);
      pdr := seq(64, i => Pdr(false, 0, false, false, false, 0));
      TlbFlushAll();
    }

    // ---- Memory ----

    function RawLoad(pa: nat, width: nat): (v: int)
      reads ram
      requires ram.Length == 0x40_0000 && pa < ram.Length
      ensures v == PlainLoad(ram[..], pa, width)
    {
      var lo: int := ram[pa];
      var hi: int := ram[NextByte(pa)];
      if width == 1 then lo else lo + 0x100 * hi
    }

    method RawStore(pa: nat, width: nat, v: u16)
      requires ram.Length == 0x40_0000 && pa < ram.Length
      modifies ram
      ensures Changed(pa, width, v)
    {
      ram[pa] := v % 0x100;
      if width != 1 {
        ram[NextByte(pa)] := v / 0x100;
      }
    }

    // Exactly the bytes of the stored operand change.
    twostate predicate Changed(pa: nat, width: nat, v: int)
      reads ram
      requires ram.Length == 0x40_0000 && pa < ram.Length
    {
      forall i | 0 <= i < ram.Length ::
        ram[i] == if width != 1 && i == NextByte(pa) then v / 0x100 else if i == pa then v % 0x100 else old(ram[i])
    }

    // A hit: the walk succeeds at the same place inside the memory, where the next
    // byte is the next address; a read hits exactly when the walk succeeds on a page
    // that has a window.
    lemma HitFacts(mode: nat, data: bool, va: u16, width: nat, isWrite: bool)
      requires Valid() && mode < 4 && (width == 1 || (width == 2 && va % 2 == 0))
      ensures var i := PageOf(State(), mode, data, va);
              var hit := TlbPtr(tlb[i], va % 0x2000, width, isWrite);
              var walk := WalkAt(State(), mode, data, va, isWrite);
              && (!isWrite ==> (hit.Some? <==> walk.Phys? && Window(par[i], ssr3.m22e, ramSize).Some?))
              && (hit.Some? ==>
                    && walk == Phys(hit.value) && hit.value + width <= ramSize
                    && Window(par[i], ssr3.m22e, ramSize).Some?
                    && (width == 2 ==> NextByte(hit.value) == hit.value + 1)
                    && (TargetOf(true, ssr3.m22e, hit.value) == Memory(hit.value) <==> !Shadowed(ssr3.m22e, hit.value))
                    && (ssr3.m22e || ramSize <= 0x3_E000 ==> !Shadowed(ssr3.m22e, hit.value)))
    {
      var i := PageOf(State(), mode, data, va);
      var e, d, a := tlb[i], pdr[i], par[i];
      if mode == 2 {
        assert d.acf == 0;
      } else {
        HitIsWalk(e, mode, d, a, ssr3.m22e, ramSize, va, width, isWrite);
        if TlbPtr(e, va % 0x2000, width, isWrite).Some? {
          WindowIsSafe(e, d, a, ssr3.m22e, ramSize, va % 0x2000, width, isWrite);
          WindowTarget(e, d, a, ssr3.m22e, ramSize, va % 0x2000, width, isWrite);
          WalkInReach(State(), mode, data, va, isWrite);
        }
      }
    }

    // ---- Loads ----

    function FromTarget(r: Regs, t: Target, width: nat): LoadResult
      reads ram
      requires ram.Length == 0x40_0000 && r.Ok() && InReach(At(t))
    {
      match t
      case Memory(pa) => Loaded(RawLoad(pa, width))
      case CpuReg(o) => LoadedCpuReg(o)
      case MmuReg(o) => Loaded(LoadFrom(r, o, width))
    }

    // The result of a load that reached t, the registers being r by then.
    function LoadResultOf(r: Regs, t: Reached, width: nat): LoadResult
      reads ram
      requires ram.Length == 0x40_0000 && r.Ok() && InReach(t)
    {
      match t
      case Fault(f) => LoadAbort(f)
      case At(target) => FromTarget(r, target, width)
    }

    // A read hit reaches memory at the window, and a miss what the walk reaches.
    lemma LoadHit(mode: nat, data: bool, va: u16, width: nat)
      requires Valid() && mode < 4 && ssr0.enable && (width == 1 || (width == 2 && va % 2 == 0))
      ensures var hit := TlbPtr(tlb[PageOf(State(), mode, data, va)], va % 0x2000, width, false);
              var t := LoadReaches(State(), ramSize, mode, data, va);
              && (hit.Some? ==> t == At(Memory(hit.value)) && WalkAt(State(), mode, data, va, false).Phys?)
              && (hit.None? ==> t == WalkReaches(State(), mode, data, va, false))
    {
      HitFacts(mode, data, va, width, false);
    }

    // The part of a load after the window has missed.
    method LoadByWalk(mode: nat, data: bool, va: u16, width: nat) returns (r: LoadResult)
      requires Valid() && mode < 4
      modifies this`ssr0, this`ssr2, this`pdr
      ensures Valid()
      ensures var t := WalkReaches(old(State()), mode, data, va, false);
              && InReach(t)
              && State() == AfterWalk(old(State()), mode, data, va, false)
              && r == LoadResultOf(State(), t, width)
    {
      WalkInReach(State(), mode, data, va, false);
      var w := Translate(mode, data, va, false);
      match w
      case Abort(f) =>
        r := LoadAbort(f);
      case Phys(pa) =>
        r := FromTarget(Regs(ssr0, ssr1, ssr2, ssr3, instrPc, par, pdr), TargetOf(true, ssr3.m22e, pa), width);
    }

    // core_load_byte_ex, core_load_word_ex and core_load_word_mode_space for data: the
    // window first, the walk when it misses.
    method Load(mode: nat, data: bool, va: u16, width: nat) returns (r: LoadResult)
      requires Valid() && mode < 4 && (width == 1 || width == 2)
      modifies this`ssr0, this`ssr2, this`pdr
      ensures Valid()
      ensures width == 2 && va % 2 == 1 ==> r == LoadAddressError && State() == old(State())
      ensures width == 1 || va % 2 == 0 ==>
                && var t := LoadReaches(old(State()), ramSize, mode, data, va);
                && InReach(t)
                && State() == AfterLoad(old(State()), mode, data, va)
                && r == LoadResultOf(State(), t, width)
    {
      if width == 2 && va % 2 == 1 {
        return LoadAddressError;
      }
      if !ssr0.enable {
        r := FromTarget(Regs(ssr0, ssr1, ssr2, ssr3, instrPc, par, pdr), DirectTarget(va), width);
        return;
      }
      var i := Slot(mode, SpaceOf(ssr3, mode, data), va / 0x2000);
      LoadHit(mode, data, va, width);
      var hit := TlbPtr(tlb[i], va % 0x2000, width, false);
      if hit.None? {
        r := LoadByWalk(mode, data, va, width);
      } else {
        HitFacts(mode, data, va, width, false);
        SetStatus(i, true, false);
        var lo: int := ram[hit.value];
        r := Loaded(lo);
        if width != 1 {
          var hi: int := ram[hit.value + 1];
          r := Loaded(lo + 0x100 * hi);
        }
      }
    }

    // core_load_word_ex for an instruction: no window, and none from the registers.
    method Fetch(mode: nat, va: u16) returns (r: LoadResult)
      requires Valid() && mode < 4
      modifies this`ssr0, this`ssr2, this`pdr
      ensures Valid()
      ensures va % 2 == 1 ==> r == LoadAddressError && State() == old(State())
      ensures va % 2 == 0 ==>
                && var t := if old(ssr0.enable) then WalkReaches(old(State()), mode, false, va, false)
                            else At(DirectTarget(va));
                && InReach(t)
                && State() == AfterLoad(old(State()), mode, false, va)
                && r == if Refused(old(State()), t) then LoadAddressError else LoadResultOf(State(), t, 2)
    {
      if va % 2 == 1 {
        return LoadAddressError;
      }
      WalkInReach(State(), mode, false, va, false);
      var target := DirectTarget(va);
      if ssr0.enable {
        var w := Translate(mode, false, va, false);
        if w.Abort? {
          return LoadAbort(w.fault);
        }
        if NotForCode(true, ssr3.m22e, w.pa) {
          return LoadAddressError;
        }
        target := TargetOf(true, ssr3.m22e, w.pa);
      }
      r := if target.Memory? then Loaded(RawLoad(target.pa, 2)) else LoadAddressError;
    }

    // ---- Stores ----

    // A store reaches what the walk gives, but for the memory that a window open for
    // writing puts in front of a register.
    ghost function StoreReaches(mode: nat, data: bool, va: u16, width: nat): Reached
      reads this
      requires Valid() && mode < 4
    {
      if !ssr0.enable then At(DirectTarget(va))
      else
        var hit := TlbPtr(tlb[PageOf(State(), mode, data, va)], va % 0x2000, width, true);
        if hit.Some? && Shadowed(ssr3.m22e, hit.value) then At(Memory(hit.value))
        else WalkReaches(State(), mode, data, va, true)
    }

    // The memory after a store, and what the processor is told.
    twostate predicate StoreEffect(t: Reached, width: nat, v: u16, r: StoreResult)
      reads ram
      requires ram.Length == 0x40_0000 && InReach(t)
    {
      match t
      case Fault(f) => r == StoreAbort(f) && unchanged(ram)
      case At(Memory(pa)) => r == Stored && Changed(pa, width, v)
      case At(CpuReg(o)) => r == StoredCpuReg(o, v) && unchanged(ram)
      case At(MmuReg(_)) => r == Stored && unchanged(ram)
    }

    // raw_store_byte_phys and raw_store_word_phys
    method StoreAt(t: Target, width: nat, v: u16) returns (r: StoreResult)
      requires Valid() && InReach(At(t)) && (width == 1 ==> v < 0x100)
      modifies this`ssr0, this`ssr3, this`par, this`pdr, this`tlb, ram
      ensures Valid() && StoreEffect(At(t), width, v, r)
      ensures State() == if t.MmuReg? then StoreTo(old(State()), t.offset, width, v) else old(State())
    {
      match t
      case Memory(pa) =>
        RawStore(pa, width, v);
        r := Stored;
      case CpuReg(o) =>
        r := StoredCpuReg(o, v);
      case MmuReg(o) =>
        StoreReg(o, width, v);
        r := Stored;
    }

    // A write hit reaches memory at the window, and a miss what the walk reaches. The
    // walk always reaches the same where no register can be hidden.
    lemma StoreHit(mode: nat, data: bool, va: u16, width: nat)
      requires Valid() && mode < 4 && ssr0.enable && (width == 1 || (width == 2 && va % 2 == 0))
      ensures var hit := TlbPtr(tlb[PageOf(State(), mode, data, va)], va % 0x2000, width, true);
              var t := StoreReaches(mode, data, va, width);
              && (hit.Some? ==> t == At(Memory(hit.value)) && WalkAt(State(), mode, data, va, true).Phys?)
              && (hit.None? || Unhidden(State(), ramSize, mode, data, va, true) ==>
                    t == WalkReaches(State(), mode, data, va, true))
    {
      HitFacts(mode, data, va, width, true);
    }

    // The part of a store after the window has missed.
    method StoreByWalk(mode: nat, data: bool, va: u16, width: nat, v: u16) returns (r: StoreResult)
      requires Valid() && mode < 4 && ssr0.enable && (width == 1 ==> v < 0x100)
      modifies this`ssr0, this`ssr2, this`ssr3, this`par, this`pdr, this`tlb, ram
      ensures Valid()
      ensures var t := WalkReaches(old(State()), mode, data, va, true);
              && InReach(t)
              && State() == AfterStore(old(State()), t, mode, data, va, width, v)
              && StoreEffect(t, width, v, r)
    {
      WalkInReach(State(), mode, data, va, true);
      var w := Translate(mode, data, va, true);
      match w
      case Abort(f) =>
        r := StoreAbort(f);
      case Phys(pa) =>
        r := StoreAt(TargetOf(true, ssr3.m22e, pa), width, v);
    }

    // A store with translation off. A register store is noted in the page of its
    // address, in case it has just turned translation on.
    method StoreDirect(mode: nat, data: bool, va: u16, width: nat, v: u16) returns (r: StoreResult)
      requires Valid() && mode < 4 && !ssr0.enable && (width == 1 ==> v < 0x100)
      modifies this`ssr0, this`ssr3, this`par, this`pdr, this`tlb, ram
      ensures Valid()
      ensures var t := At(DirectTarget(va));
              && State() == AfterStore(old(State()), t, mode, data, va, width, v)
              && StoreEffect(t, width, v, r)
    {
      r := StoreAt(DirectTarget(va), width, v);
      if DirectTarget(va).MmuReg? {
        NoteWritePdrW(mode, data, va);
      }
    }

    // core_store_byte_ex, core_store_word_ex and core_store_word_mode_space
    method Store(mode: nat, data: bool, va: u16, width: nat, v: u16) returns (r: StoreResult)
      requires Valid() && mode < 4 && (width == 2 || (width == 1 && v < 0x100))
      modifies this`ssr0, this`ssr2, this`ssr3, this`par, this`pdr, this`tlb, ram
      ensures Valid()
      ensures width == 2 && va % 2 == 1 ==> r == StoreAddressError && State() == old(State()) && unchanged(ram)
      ensures width == 1 || va % 2 == 0 ==>
                && var t := old(StoreReaches(mode, data, va, width));
                && InReach(t)
                && State() == AfterStore(old(State()), t, mode, data, va, width, v)
                && StoreEffect(t, width, v, r)
                && (old(ssr0.enable) && Unhidden(old(State()), ramSize, mode, data, va, true) ==>
                      t == WalkReaches(old(State()), mode, data, va, true))
    {
      hide Walk, Window, TargetOf, Shadowed, Unhidden;
      if width == 2 && va % 2 == 1 {
        return StoreAddressError;
      }
      if !ssr0.enable {
        r := StoreDirect(mode, data, va, width, v);
        return;
      }
      var i := Slot(mode, SpaceOf(ssr3, mode, data), va / 0x2000);
      StoreHit(mode, data, va, width);
      var hit := TlbPtr(tlb[i], va % 0x2000, width, true);
      if hit.None? {
        r := StoreByWalk(mode, data, va, width, v);
      } else {
        HitFacts(mode, data, va, width, true);
        SetStatus(i, true, true);
        ram[hit.value] := v % 0x100;
        if width != 1 {
          ram[hit.value + 1] := v / 0x100;
        }
        r := Stored;
      }
    }

    // ---- A page from its register words to memory ----

    // The two registers of a page are written.
    method SetPage(mode: nat, space: nat, seg: nat, v: u16, p: u16)
      requires Valid() && (mode == 0 || mode == 1 || mode == 3) && space < 2 && seg < 8
      modifies this`ssr0, this`ssr3, this`par, this`pdr, this`tlb
      ensures Valid() && ssr0 == old(ssr0) && ssr3 == old(ssr3)
      ensures var i := Slot(mode, space, seg);
              par == old(par)[i := p] && pdr == old(pdr)[i := PdrOfWord(v)]
    {
      AprFound(mode, space, true, seg);
      AprFound(mode, space, false, seg);
      WriteReg(AprAddress(mode, space, true, seg), p);
      WriteReg(AprAddress(mode, space, false, seg), v);
    }

    // What a walk over a page with these register words gives.
    lemma WordsWalk(mode: nat, data: bool, va: u16, isWrite: bool, v: u16, p: u16)
      requires Valid() && (mode == 0 || mode == 1 || mode == 3)
      requires var i := PageOf(State(), mode, data, va); par[i] == p && pdr[i] == PdrOfWord(v)
      ensures WalkAt(State(), mode, data, va, isWrite)
           == if InPage(v, va) && Grants(v, isWrite) then Phys(Relocated(p, ssr3.m22e, va))
              else Abort(FaultOf(v, isWrite, va))
    {
      hide Walk;
      WalkOnWords(mode, v, p, ssr3.m22e, va, isWrite);
    }

    // A load through a page whose registers have just been written: what the words
    // permit is read where they say, and the page is marked; what they do not is a fault.
    method LoadThrough(mode: nat, data: bool, va: u16, width: nat, v: u16, p: u16) returns (r: LoadResult)
      requires Valid() && ssr0.enable && (mode == 0 || mode == 1 || mode == 3)
      requires width == 1 || (width == 2 && va % 2 == 0)
      modifies this`ssr0, this`ssr2, this`ssr3, this`par, this`pdr, this`tlb
      ensures Valid()
      ensures !(InPage(v, va) && Grants(v, false)) ==>
                && r == LoadAbort(FaultOf(v, false, va)) && pdr[PageOf(State(), mode, data, va)] == PdrOfWord(v)
                && (!old(ssr0).Frozen() ==> Latched(State(), FaultOf(v, false, va), mode, data, va))
      ensures InPage(v, va) && Grants(v, false) ==>
                var pa := Relocated(p, ssr3.m22e, va);
                && pdr[PageOf(State(), mode, data, va)] == PdrOfWord(v).(a := true)
                && (BelowRegisters(ssr3.m22e, pa) ==> r == Loaded(Bytes(pa, width)))
    {
      hide WalkAt, Walk, InPage, Grants, FaultOf, Relocated, TargetOf, Window, Shadowed, PdrOfWord, LoadReaches,
           AfterWalk, Latched, SpaceOf, LoadResultOf, Bytes;
      SetPage(mode, SpaceOf(ssr3, mode, data), va / 0x2000, v, p);
      WordsWalk(mode, data, va, false, v, p);
      ReachedByLoad(State(), ramSize, mode, data, va);
      RelocatedEven(p, ssr3.m22e, va);
      AfterAccess(State(), mode, data, va, false, v);
      r := Load(mode, data, va, width);
      ResultOfLoad(State(), Relocated(p, ssr3.m22e, va), width, FaultOf(v, false, va));
    }

    lemma ResultOfLoad(r: Regs, pa: nat, width: nat, f: Fault)
      requires ram.Length == 0x40_0000 && r.Ok()
      ensures LoadResultOf(r, Fault(f), width) == LoadAbort(f)
      ensures pa + 1 < 0x40_0000 && (width == 1 || (width == 2 && pa % 2 == 0)) ==>
                LoadResultOf(r, At(Memory(pa)), width) == Loaded(Bytes(pa, width))
    {
    }

    // The same for a store, where a write to memory is seen there and in W.
    method StoreThrough(mode: nat, data: bool, va: u16, width: nat, x: u16, v: u16, p: u16) returns (r: StoreResult)
      requires Valid() && ssr0.enable && (mode == 0 || mode == 1 || mode == 3)
      requires (width == 1 && x < 0x100) || (width == 2 && va % 2 == 0)
      modifies this`ssr0, this`ssr2, this`ssr3, this`par, this`pdr, this`tlb, ram
      ensures Valid()
      ensures !(InPage(v, va) && Grants(v, true)) ==>
                && r == StoreAbort(FaultOf(v, true, va)) && unchanged(ram)
                && pdr[PageOf(State(), mode, data, va)] == PdrOfWord(v).(w := true)
                && (!old(ssr0).Frozen() ==> Latched(State(), FaultOf(v, true, va), mode, data, va))
      ensures InPage(v, va) && Grants(v, true) ==>
                var pa := Relocated(p, old(ssr3).m22e, va);
                BelowRegisters(old(ssr3).m22e, pa) ==>
                  && r == Stored && pdr[PageOf(State(), mode, data, va)] == PdrOfWord(v).(a := true, w := true)
                  && pa + width <= ram.Length && ram[pa] == x % 0x100 && (width == 2 ==> ram[pa + 1] == x / 0x100)
                  && forall i | 0 <= i < ram.Length && !(pa <= i < pa + width) :: ram[i] == old(ram[i])
    {
      hide WalkAt, Walk, InPage, Grants, FaultOf, Relocated, TargetOf, Window, Shadowed, PdrOfWord, StoreReaches,
           WalkReaches, Unhidden, AfterWalk, Latched, SpaceOf;
      SetPage(mode, SpaceOf(ssr3, mode, data), va / 0x2000, v, p);
      WordsWalk(mode, data, va, true, v, p);
      ReachedByStore(State(), ramSize, mode, data, va);
      RelocatedEven(p, ssr3.m22e, va);
      AfterAccess(State(), mode, data, va, true, v);
      r := Store(mode, data, va, width, x);
    }

    function Bytes(pa: nat, width: nat): int
      reads ram
      requires pa + 1 < ram.Length
    {
      var lo: int, hi: int := ram[pa], ram[pa + 1];
      if width == 1 then lo else lo + 0x100 * hi
    }

    // ---- Runs ----

    lemma ChangedIsPlain(t: Reached, width: nat, v: u16, before: seq<u8>)
      requires ram.Length == 0x40_0000 && |before| == ram.Length && InReach(t) && t.At? && t.target.Memory?
      requires var pa := t.target.pa;
               forall i | 0 <= i < ram.Length ::
                 ram[i] == if width != 1 && i == NextByte(pa) then v / 0x100
                           else if i == pa then v % 0x100 else before[i]
      ensures ram[..] == PlainStore(before, t.target.pa, width, v)
    {
    }

    method StepStore(mode: nat, data: bool, va: u16, width: nat, v: u16) returns (out: Outcome)
      requires Valid() && mode < 4 && (width == 2 || (width == 1 && v < 0x100))
      modifies this`ssr0, this`ssr2, this`ssr3, this`par, this`pdr, this`tlb, ram
      ensures Valid()
      ensures Unhidden(old(State()), ramSize, mode, data, va, true) ==>
                (Machine(State(), ram[..]), out)
                == PlainStep(Machine(old(State()), old(ram[..])), DoStore(mode, data, va, width, v))
    {
      ghost var before := ram[..];
      ghost var t := StoreReaches(mode, data, va, width);
      var s := Store(mode, data, va, width, v);
      out := StoreOutcome(s);
      if (width == 1 || va % 2 == 0) && t.At? && t.target.Memory? {
        ChangedIsPlain(t, width, v, before);
      } else {
        assert ram[..] == before;
      }
    }

    method StepLoad(mode: nat, data: bool, va: u16, width: nat) returns (out: Outcome)
      requires Valid() && mode < 4 && (width == 1 || width == 2)
      modifies this`ssr0, this`ssr2, this`pdr
      ensures Valid()
      ensures Unhidden(old(State()), ramSize, mode, data, va, false) ==>
                (Machine(State(), ram[..]), out)
                == PlainStep(Machine(old(State()), old(ram[..])), DoLoad(mode, data, va, width))
    {
      if ssr0.enable {
        LoadIsWalk(State(), ramSize, mode, data, va);
      }
      var l := Load(mode, data, va, width);
      out := LoadOutcome(l);
    }

    method StepFetch(mode: nat, va: u16) returns (out: Outcome)
      requires Valid() && mode < 4
      modifies this`ssr0, this`ssr2, this`pdr
      ensures Valid()
      ensures (Machine(State(), ram[..]), out) == PlainStep(Machine(old(State()), old(ram[..])), DoFetch(mode, va))
    {
      hide Walk, TargetOf, Window;
      var l := Fetch(mode, va);
      out := LoadOutcome(l);
    }

    // A request that reaches no hidden register is answered as the machine without a
    // cache answers it.
    method Step(op: Op) returns (out: Outcome)
      requires Valid() && op.Ok()
      modifies this, ram
      ensures Valid()
      ensures OpUnhidden(old(State()), ramSize, op) ==>
                (Machine(State(), ram[..]), out) == PlainStep(Machine(old(State()), old(ram[..])), op)
    {
      hide Walk, TargetOf, Window, Unhidden, AfterLoad, AfterStore, PlainReaches, PlainLoaded, PlainStored, WalkAt;
      out := NoOutcome;
      match op
      case DoLoad(mode, data, va, width) =>
        out := StepLoad(mode, data, va, width);
      case DoFetch(mode, va) =>
        out := StepFetch(mode, va);
      case DoStore(mode, data, va, width, v) =>
        out := StepStore(mode, data, va, width, v);
      case DoReset =>
        ResetInstruction();
      case DoCoreReset =>
        CoreReset();
      case DoInstruction(pc) =>
        Start(pc);
    }

    // Over any run, the cached machine and the one without a cache give the same
    // answers, registers and memory, as long as the run reaches no hidden register.
    method Run(ops: seq<Op>) returns (outs: seq<Outcome>)
      requires Valid() && forall k | 0 <= k < |ops| :: ops[k].Ok()
      modifies this, ram
      ensures Valid()
      ensures RunUnhidden(Machine(old(State()), old(ram[..])), ramSize, ops) ==>
                (Machine(State(), ram[..]), outs) == PlainRun(Machine(old(State()), old(ram[..])), ops)
    {
      hide Unhidden;
      outs := [];
      ghost var m0 := Machine(State(), ram[..]);
      for k := 0 to |ops|
        invariant Valid()
        invariant RunUnhidden(m0, ramSize, ops) ==> (Machine(State(), ram[..]), outs) == PlainRun(m0, ops[..k])
      {
        var out := Step(ops[k]);
        outs := outs + [out];
        assert ops[..k + 1][..k] == ops[..k];
      }
      assert ops[..|ops|] == ops;
    }

    // With 22-bit addresses throughout, with translation off throughout, or with a
    // memory that ends below the 18-bit window, every run is one of these.
    lemma MostRuns(ops: seq<Op>)
      requires Valid() && forall k | 0 <= k < |ops| :: ops[k].Ok()
      requires forall k | 0 <= k < |ops| ::
                 var r := PlainRun(Machine(State(), ram[..]), ops[..k]).0.regs;
                 ramSize <= 0x3_E000 || r.ssr3.m22e || !r.ssr0.enable
      ensures RunUnhidden(Machine(State(), ram[..]), ramSize, ops)
    {
      hide Unhidden, PlainRun;
      forall k | 0 <= k < |ops|
        ensures OpUnhidden(PlainRun(Machine(State(), ram[..]), ops[..k]).0.regs, ramSize, ops[k])
      {
        var r := PlainRun(Machine(State(), ram[..]), ops[..k]).0.regs;
        OpNotHidden(r, ramSize, ops[k]);
      }
    }

    // The permission side of the invariant, at any byte of any page.
    lemma WindowsAreSafe(i: nat, po: nat, isWrite: bool)
      requires Valid() && i < 64 && TlbPtr(tlb[i], po, 1, isWrite).Some?
      ensures var p := TlbPtr(tlb[i], po, 1, isWrite).value;
              p < ramSize && !IsIoPage(p)
      ensures !(32 <= i < 48)
      ensures isWrite ==> pdr[i].WriteOk() && pdr[i].w
    {
      WindowIsSafe(tlb[i], pdr[i], par[i], ssr3.m22e, ramSize, po, 1, isWrite);
    }
  }

  // A walk gives a 22-bit address, even for an even virtual address.
  lemma PhysBelow(mode: nat, pdr: Pdr, par: u16, m22e: bool, va: u16, isWrite: bool)
    ensures var w := Walk(mode, pdr, par, m22e, va, isWrite);
            w.Phys? ==> w.pa < 0x40_0000 && (va % 2 == 0 ==> w.pa % 2 == 0)
  {
    var b := (par + (va / 64) % 0x80) % 0x1_0000;
    var x := b * 64 + va % 64;
    var size := if m22e then 0x40_0000 else 0x4_0000;
    var q, r := x / size, x % size;
    if va % 2 == 0 {
      var h := va / 2;
      DivModUnique(va, 64, h / 32, h % 32 * 2);
      DivModUnique(r, 2, b * 32 + h % 32 - q * (size / 2), 0);
    }
  }

  lemma TargetReg(enable: bool, m22e: bool, pa: nat)
    ensures var t := TargetOf(enable, m22e, pa);
            && (t.Memory? ==> t.pa == pa)
            && (t.MmuReg? ==> IsMmuReg(t.offset - t.offset % 2))
  {
  }

  // A relocated address is even with the virtual one, so that a word does not wrap.
  lemma RelocatedEven(p: u16, m22e: bool, va: u16)
    ensures Relocated(p, m22e, va) < 0x40_0000 && (va % 2 == 0 ==> Relocated(p, m22e, va) % 2 == 0)
  {
    var size := if m22e then 0x40_0000 else 0x4_0000;
    var x := 64 * p + va % 0x2000;
    var q, r := x / size, x % size;
    if va % 2 == 0 {
      var h := va % 0x2000 / 2;
      assert va % 0x2000 == 2 * h;
      DivModUnique(r, 2, 32 * p + h - q * (size / 2), 0);
    }
  }

  // SSR0 and SSR2 after a first fault: its bit, its page, the enable, and the address of
  // the instruction.
  ghost predicate Latched(r: Regs, f: Fault, mode: nat, data: bool, va: u16)
    requires mode < 4
  {
    && WordOfSsr0(r.ssr0) == (match f case NonResident => 0x8000 case Length => 0x4000 case Protect => 0x2000)
                             + 2 * (16 * mode + 8 * SpaceOf(r.ssr3, mode, data) + va / 0x2000) + 1
    && r.ssr2 == r.pc
  }

  // The registers after a walk over a page whose descriptor has just been written.
  lemma AfterAccess(r: Regs, mode: nat, data: bool, va: u16, isWrite: bool, v: u16)
    requires r.Ok() && mode < 4 && r.ssr0.enable && r.pdr[PageOf(r, mode, data, va)] == PdrOfWord(v)
    ensures var r', i := AfterWalk(r, mode, data, va, isWrite), PageOf(r, mode, data, va);
            && PageOf(r', mode, data, va) == i && r'.ssr3 == r.ssr3
            && match WalkAt(r, mode, data, va, isWrite)
               case Phys(_) => r'.pdr[i] == PdrOfWord(v).(a := true, w := isWrite)
               case Abort(f) =>
                 && r'.pdr[i] == PdrOfWord(v).(w := isWrite)
                 && (!r.ssr0.Frozen() ==> Latched(r', f, mode, data, va))
  {
    hide WalkAt, PdrOfWord;
    match WalkAt(r, mode, data, va, isWrite)
    case Phys(_) =>
    case Abort(f) =>
      if !r.ssr0.Frozen() {
        FaultWord(r, f, mode, SpaceOf(r.ssr3, mode, data), va / 0x2000);
      }
  }

  // Below the I/O page of the machine.
  predicate BelowRegisters(m22e: bool, pa: nat) {
    pa < if m22e then 0x3F_E000 else 0x3_E000
  }

  // An access that the walk permits below the I/O page reaches memory there, and one that
  // it does not is the fault of the walk.
  lemma ReachedByLoad(r: Regs, ramSize: nat, mode: nat, data: bool, va: u16)
    requires r.Ok() && mode < 4 && r.ssr0.enable
    ensures match WalkAt(r, mode, data, va, false)
            case Phys(pa) =>
              BelowRegisters(r.ssr3.m22e, pa) ==> LoadReaches(r, ramSize, mode, data, va) == At(Memory(pa))
            case Abort(f) => LoadReaches(r, ramSize, mode, data, va) == Fault(f)
  {
    hide WalkAt, Window;
  }

  lemma ReachedByStore(r: Regs, ramSize: nat, mode: nat, data: bool, va: u16)
    requires r.Ok() && mode < 4 && r.ssr0.enable
    ensures match WalkAt(r, mode, data, va, true)
            case Phys(pa) =>
              BelowRegisters(r.ssr3.m22e, pa) ==>
                Unhidden(r, ramSize, mode, data, va, true) && WalkReaches(r, mode, data, va, true) == At(Memory(pa))
            case Abort(f) =>
              Unhidden(r, ramSize, mode, data, va, true) && WalkReaches(r, mode, data, va, true) == Fault(f)
  {
    hide WalkAt, Window;
  }
}
