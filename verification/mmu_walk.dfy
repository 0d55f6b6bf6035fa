// The DCJ11 address translation: page registers, the segment walk, and what a
// cached window says about it.
module MmuWalk {
  import opened Arith

  // PDR fields. The access bit A is kept but not visible in the register.
  datatype Pdr = Pdr(bypass: bool, plf: nat, a: bool, w: bool, ed: bool, acf: nat) {
    predicate Ok() {
      plf < 0x80 && acf < 4
    }
    predicate ReadOk() {
      acf == 1 || acf == 3
    }
    predicate WriteOk() {
      acf == 3
    }
    predicate WriteProtect() {
      acf == 1
    }
  }

  function Bit(v: u16, weight: nat): bool
    requires weight > 0
  {
    (v / weight) % 2 == 1
  }

  // A register write: unimplemented bits are dropped, A and W are cleared.
  function PdrOfWord(v: u16): (p: Pdr)
    ensures p.Ok() && !p.a && !p.w
  {
    Pdr(Bit(v, 0x8000), (v / 0x100) % 0x80, false, false, Bit(v, 8), (v / 2) % 4)
  }

  function WordOfPdr(p: Pdr): (v: u16)
    requires p.Ok()
  {
    (if p.bypass then 0x8000 else 0) + p.plf * 0x100 + (if p.w then 0x40 else 0)
    + (if p.ed then 8 else 0) + p.acf * 2
  }

  // Reading a PDR and writing back what was read keeps everything but A and W.
  lemma PdrWordRoundTrip(p: Pdr)
    requires p.Ok()
    ensures PdrOfWord(WordOfPdr(p)) == p.(a := false, w := false)
  {
    var v := WordOfPdr(p);
    var low := (if p.w then 0x40 else 0) + (if p.ed then 8 else 0) + p.acf * 2;
    DivModUnique(v, 0x8000, if p.bypass then 1 else 0, p.plf * 0x100 + low);
    DivModUnique(v, 0x100, (if p.bypass then 0x80 else 0) + p.plf, low);
    DivModUnique((if p.bypass then 0x80 else 0) + p.plf, 0x80, if p.bypass then 1 else 0, p.plf);
    DivModUnique(v, 8, (if p.bypass then 0x1000 else 0) + p.plf * 0x20 + (if p.w then 8 else 0)
                       + (if p.ed then 1 else 0), p.acf * 2);
    DivModUnique(v, 2, (if p.bypass then 0x4000 else 0) + p.plf * 0x80 + (if p.w then 0x20 else 0)
                       + (if p.ed then 4 else 0) + p.acf, 0);
  }

  datatype Ssr3 = Ssr3(ud: bool, sd: bool, kd: bool, csm: bool, m22e: bool, bme: bool)

  // Fault bits nonres/length/protect, page of the fault, enable.
  datatype Ssr0 = Ssr0(nonres: bool, length: bool, protect: bool, mode: nat, space: nat, seg: nat, enable: bool) {
    predicate Frozen() {
      nonres || length || protect
    }
  }

  predicate SplitEnabled(ssr3: Ssr3, mode: nat) {
    if mode == 0 then ssr3.kd else if mode == 1 then ssr3.sd else if mode == 3 then ssr3.ud else false
  }

  datatype Fault = NonResident | Length | Protect
  datatype WalkResult = Phys(pa: nat) | Abort(fault: Fault)

  // mmu_phys_finalize
  function PhysFinalize(pa: nat, m22e: bool): (r: nat) {
    if m22e then pa % 0x40_0000 else pa % 0x4_0000
  }

  predicate LengthFault(pdr: Pdr, block: nat) {
    (!pdr.ed && block > pdr.plf) || (pdr.ed && block < pdr.plf)
  }

  // The checks and the address of translate_va_ex and translate_va_mode_space.
  function Walk(mode: nat, pdr: Pdr, par: u16, m22e: bool, va: u16, isWrite: bool): (r: WalkResult) {
    var block := (va / 64) % 0x80;
    if mode == 2 then Abort(NonResident)
    else if LengthFault(pdr, block) then Abort(Length)
    else if isWrite && !pdr.WriteOk() then Abort(if pdr.WriteProtect() then Protect else NonResident)
    else if !isWrite && !pdr.ReadOk() then Abort(NonResident)
    else Phys(PhysFinalize((par + block) % 0x1_0000 * 64 + va % 64, m22e))
  }

  // ---- What the register words permit ----

  // The block of an address lies in the page: up to its length, or down to it.
  predicate InPage(v: u16, va: u16) {
    if v / 8 % 2 == 1 then va % 0x2000 / 64 >= v / 0x100 % 0x80 else va % 0x2000 / 64 <= v / 0x100 % 0x80
  }

  // Access code 3 is for reading and writing, 1 for reading.
  predicate Grants(v: u16, isWrite: bool) {
    v / 2 % 4 == 3 || (v / 2 % 4 == 1 && !isWrite)
  }

  // The page address and the offset in the page, in 22 or 18 bits.
  function Relocated(p: u16, m22e: bool, va: u16): nat {
    (64 * p + va % 0x2000) % if m22e then 0x40_0000 else 0x4_0000
  }

  // The fault that comes first: the length before the access code, and a protection
  // fault only for writing to a page that can be read.
  function FaultOf(v: u16, isWrite: bool, va: u16): Fault {
    if !InPage(v, va) then Length else if isWrite && v / 2 % 4 == 1 then Protect else NonResident
  }

  // The walk on the register words.
  lemma WalkOnWords(mode: nat, v: u16, p: u16, m22e: bool, va: u16, isWrite: bool)
    requires mode != 2
    ensures Walk(mode, PdrOfWord(v), p, m22e, va, isWrite)
         == if InPage(v, va) && Grants(v, isWrite) then Phys(Relocated(p, m22e, va)) else Abort(FaultOf(v, isWrite, va))
  {
    hide PhysFinalize;
    BlockOf(va);
    var po := va % 0x2000;
    var sum := p + po / 64;
    RelocatedBlock(sum, po % 64, m22e);
    assert 64 * p + po == sum * 64 + po % 64;
  }

  lemma RelocatedBlock(sum: nat, off: nat, m22e: bool)
    requires off < 64
    ensures PhysFinalize(sum % 0x1_0000 * 64 + off, m22e) == (sum * 64 + off) % if m22e then 0x40_0000 else 0x4_0000
  {
    var q, r := sum / 0x1_0000, sum % 0x1_0000;
    var size := if m22e then 0x40_0000 else 0x4_0000;
    var k := 0x40_0000 / size;
    var x := r * 64 + off;
    assert sum * 64 + off == (q * k + x / size) * size + x % size;
    DivModUnique(sum * 64 + off, size, q * k + x / size, x % size);
  }

  // ---- The cached window ----

  datatype Entry = Entry(base: Option<nat>, min: nat, max: nat, writable: bool)

  const EMPTY := Entry(None, 0, 0, false)

  predicate IsIoPage(pa: nat) {
    0x3F_E000 <= pa <= 0x3F_FFFF
  }

  // The physical base of the 8 KB window, when it is linear, off the 22-bit I/O
  // page, and inside the directly accessible memory.
  function Window(par: u16, m22e: bool, ramSize: nat): Option<nat> {
    var base := PhysFinalize(par * 64, m22e);
    var last := PhysFinalize(par * 64 + 0x1FFF, m22e);
    if last >= base && last - base == 0x1FFF && !IsIoPage(base) && !IsIoPage(last) && base + 0x2000 <= ramSize
    then Some(base) else None
  }

  // mmu_tlb_update
  function Rebuild(pdr: Pdr, par: u16, m22e: bool, ramSize: nat): Entry {
    if !pdr.ReadOk() then EMPTY
    else
      Entry(Window(par, m22e, ramSize),
            if pdr.ed then pdr.plf * 64 else 0,
            if pdr.ed then 0x1FFF else pdr.plf * 64 + 0x3F,
            pdr.w && pdr.WriteOk())
  }

  // mmu_tlb_ptr
  function TlbPtr(e: Entry, po: nat, width: nat, isWrite: bool): Option<nat> {
    if e.base.None? || po < e.min || po + width - 1 > e.max || (isWrite && !e.writable) then None
    else Some(e.base.value + po)
  }

  // A cached entry agrees with the registers when it is what a rebuild gives, but
  // for the write permission: that was copied when W was set and W stays set until
  // a rebuild, while a W set since then has not been copied.
  predicate Agrees(e: Entry, pdr: Pdr, par: u16, m22e: bool, ramSize: nat) {
    && e.(writable := false) == Rebuild(pdr, par, m22e, ramSize).(writable := false)
    && (e.writable ==> pdr.w && pdr.WriteOk())
  }

  lemma RebuildAgrees(pdr: Pdr, par: u16, m22e: bool, ramSize: nat)
    ensures Agrees(Rebuild(pdr, par, m22e, ramSize), pdr, par, m22e, ramSize)
  {
  }

  // A page has a window exactly when its 8 KB neither wrap nor reach the 22-bit I/O page,
  // and lie in memory.
  lemma WindowWhere(par: u16, m22e: bool, ramSize: nat)
    ensures var base := 64 * par % if m22e then 0x40_0000 else 0x4_0000;
            Window(par, m22e, ramSize)
            == if base + 0x2000 <= ramSize && base + 0x2000 <= (if m22e then 0x3F_E000 else 0x4_0000) then Some(base)
               else None
  {
    var size := if m22e then 0x40_0000 else 0x4_0000;
    var q, base := 64 * par / size, 64 * par % size;
    assert par * 64 == q * size + base;
    if base + 0x1FFF < size {
      DivModUnique(par * 64 + 0x1FFF, size, q, base + 0x1FFF);
    } else {
      DivModUnique(par * 64 + 0x1FFF, size, q + 1, base + 0x1FFF - size);
    }
  }

  // Through a window that has just been rebuilt, reading hits wherever it is permitted, and
  // writing as well if the page had been written before.
  lemma RebuiltHits(v: u16, a: bool, w: bool, par: u16, m22e: bool, ramSize: nat, va: u16, isWrite: bool)
    ensures var e := Rebuild(PdrOfWord(v).(a := a, w := w), par, m22e, ramSize);
            TlbPtr(e, va % 0x2000, 1, isWrite).Some?
            <==> Window(par, m22e, ramSize).Some? && InPage(v, va) && Grants(v, isWrite) && (isWrite ==> w)
  {
    hide Window;
    BlockOf(va);
  }

  // Setting status bits keeps an entry in agreement.
  lemma StatusKeepsAgreement(e: Entry, pdr: Pdr, par: u16, m22e: bool, ramSize: nat, a: bool, w: bool)
    requires Agrees(e, pdr, par, m22e, ramSize)
    ensures Agrees(e, pdr.(a := pdr.a || a, w := pdr.w || w), par, m22e, ramSize)
  {
  }

  // Every address of a linear window is what the walk computes.
  lemma WindowIsLinear(par: u16, m22e: bool, ramSize: nat, po: nat)
    requires Window(par, m22e, ramSize).Some? && po < 0x2000
    ensures PhysFinalize((par + po / 64) % 0x1_0000 * 64 + po % 64, m22e) == Window(par, m22e, ramSize).value + po
  {
    var size := if m22e then 0x40_0000 else 0x4_0000;
    var base := Window(par, m22e, ramSize).value;
    var q := par * 64 / size;
    assert par * 64 == q * size + base;
    if base + 0x1FFF >= size {
      DivModUnique(par * 64 + 0x1FFF, size, q + 1, base + 0x1FFF - size);
    }
    assert base + 0x1FFF < size;
    NoWrap(par, q, size, base);
    DivModUnique(par + po / 64, 0x1_0000, 0, par + po / 64);
    DivModUnique(par * 64 + po, size, q, base + po);
  }

  lemma NoWrap(par: u16, q: int, size: nat, base: nat)
    requires size == 0x40_0000 || size == 0x4_0000
    requires par * 64 == q * size + base && base + 0x1FFF < size
    ensures par + 0x7F < 0x1_0000
  {
    if size == 0x4_0000 {
      assert q <= 15;
    }
  }

  // The central fact: a window hit is a walk that succeeds at the same address, and
  // a read misses only where the walk aborts or the page has no window.
  lemma HitIsWalk(e: Entry, mode: nat, pdr: Pdr, par: u16, m22e: bool, ramSize: nat, va: u16, width: nat, isWrite: bool)
    requires Agrees(e, pdr, par, m22e, ramSize) && pdr.Ok() && mode != 2
    requires width == 1 || (width == 2 && va % 2 == 0)
    ensures var hit := TlbPtr(e, va % 0x2000, width, isWrite);
            var walk := Walk(mode, pdr, par, m22e, va, isWrite);
            && (hit.Some? ==> walk == Phys(hit.value) && (isWrite ==> pdr.w) && Window(par, m22e, ramSize).Some?)
            && (!isWrite ==> (hit.Some? <==> walk.Phys? && Window(par, m22e, ramSize).Some?))
  {
    hide PhysFinalize, Window;
    var po := va % 0x2000;
    BlockOf(va);
    if Window(par, m22e, ramSize).Some? {
      WindowIsLinear(par, m22e, ramSize, po);
    }
  }

  // The block number and the offset in it depend on the page offset only.
  lemma BlockOf(va: u16)
    ensures (va / 64) % 0x80 == (va % 0x2000) / 64 && va % 64 == (va % 0x2000) % 64
  {
    var s, po := va / 0x2000, va % 0x2000;
    DivModUnique(va, 64, s * 0x80 + po / 64, po % 64);
    DivModUnique(s * 0x80 + po / 64, 0x80, s, po / 64);
  }

  // No window reaches the 22-bit I/O page or runs past the memory.
  lemma WindowIsSafe(e: Entry, pdr: Pdr, par: u16, m22e: bool, ramSize: nat, po: nat, width: nat, isWrite: bool)
    requires Agrees(e, pdr, par, m22e, ramSize) && pdr.Ok() && width >= 1
    requires TlbPtr(e, po, width, isWrite).Some?
    ensures var p := TlbPtr(e, po, width, isWrite).value;
            p + width <= ramSize && forall i :: p <= i < p + width ==> !IsIoPage(i)
    ensures isWrite ==> pdr.WriteOk() && pdr.w
  {
    var base := e.base.value;
    if m22e {
      assert base + 0x1FFF < 0x40_0000;
    }
  }
}
