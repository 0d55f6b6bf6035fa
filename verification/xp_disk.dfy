// The RH70/RM05 disk controller: geometry, and the transfer loop over a dirty sector
// buffer, against a flat disk of words.
module XpDisk {
  import opened Arith
  import opened SectorBuffer

  const CYLINDERS := 823
  const SURFACES := 19
  const SECTORS := 32
  const TOTAL := 500384
  const BUS := 0x40_0000

  // ---- Geometry ----

  // xp_da_dc_to_sector: the cylinder has ten bits, surface and sector five each.
  function ToSector(dc: u16, da: u16): (s: Option<nat>)
    ensures s.Some? ==> s.value < TOTAL
  {
    var cyl, surf, sec := dc % 0x400, da / 0x100 % 0x20, da % 0x20;
    if cyl >= CYLINDERS || surf >= SURFACES || sec >= SECTORS then None
    else
      assert cyl * SURFACES + surf < CYLINDERS * SURFACES;
      Some((cyl * SURFACES + surf) * SECTORS + sec)
  }

  // xp_sector_to_da_dc, held at the last sector.
  function FromSector(n: nat): (r: (u16, u16)) {
    var s := if n >= TOTAL then TOTAL - 1 else n;
    var rem := s % (SURFACES * SECTORS);
    (s / (SURFACES * SECTORS), rem / SECTORS * 0x100 + rem % SECTORS)
  }

  // The registers denote the sector they were made from.
  lemma SectorRoundTrip(n: nat)
    ensures var r := FromSector(n);
            ToSector(r.0, r.1) == Some(if n >= TOTAL then TOTAL - 1 else n)
  {
    var s := if n >= TOTAL then TOTAL - 1 else n;
    Geometry(s);
    var rem := s % 608;
    var surf, sec := rem / 32, rem % 32;
    DivModUnique(surf * 0x100 + sec, 0x100, surf, sec);
    DivModUnique(surf * 0x100 + sec, 0x20, surf * 8, sec);
  }

  lemma Geometry(s: nat)
    requires s < TOTAL
    ensures var cyl, rem := s / 608, s % 608;
            cyl < CYLINDERS && rem / 32 < SURFACES && (cyl * SURFACES + rem / 32) * SECTORS + rem % 32 == s
  {
  }

  // Sectors are numbered from the first of the disk: the next sector of a track is one
  // further on, the next surface a track, and the next cylinder nineteen tracks.
  lemma NumberedInOrder(cyl: nat, surf: nat, sec: nat)
    requires cyl < 823 && surf < 19 && sec < 32
    ensures var n := ToSector(cyl, surf * 0x100 + sec);
            && ToSector(0, 0) == Some(0) && n.Some?
            && (sec < 31 ==> ToSector(cyl, surf * 0x100 + sec + 1) == Some(n.value + 1))
            && (surf < 18 ==> ToSector(cyl, (surf + 1) * 0x100 + sec) == Some(n.value + 32))
            && (cyl < 822 ==> ToSector(cyl + 1, surf * 0x100 + sec) == Some(n.value + 608))
  {
    SectorOf(0, 0, 0);
    SectorOf(cyl, surf, sec);
    if sec < 31 {
      SectorOf(cyl, surf, sec + 1);
    }
    if surf < 18 {
      SectorOf(cyl, surf + 1, sec);
    }
    if cyl < 822 {
      SectorOf(cyl + 1, surf, sec);
    }
  }

  lemma SectorOf(cyl: nat, surf: nat, sec: nat)
    requires cyl < 823 && surf < 19 && sec < 32
    ensures ToSector(cyl, surf * 0x100 + sec) == Some(608 * cyl + 32 * surf + sec)
  {
    DivModUnique(surf * 0x100 + sec, 0x100, surf, sec);
    DivModUnique(surf * 0x100 + sec, 0x20, surf * 8, sec);
  }

  // And the sector fixes the registers, up to bits that are not implemented.
  lemma AddressRoundTrip(dc: u16, da: u16)
    requires ToSector(dc, da).Some?
    ensures FromSector(ToSector(dc, da).value) == (dc % 0x400, da / 0x100 % 0x20 * 0x100 + da % 0x20)
  {
    var cyl, surf, sec := dc % 0x400, da / 0x100 % 0x20, da % 0x20;
    var s := (cyl * 19 + surf) * 32 + sec;
    DivModUnique(s, 608, cyl, surf * 32 + sec);
    DivModUnique(surf * 32 + sec, 32, surf, sec);
  }

  // ---- The transfer ----

  class Controller {
    const ch: Channel
    var wc: u16
    var ba: u16
    var bae: nat
    var inhibit: bool
    var dc: u16
    var da: u16
    var cc: u16
    var readOnly: bool
    var last: bool          // last sector transferred
    var badAddress: bool    // invalid disk address
    var overflow: bool      // past the end of the disk
    var writeLock: bool

    // Addresses are even by the masks on the register writes.
    ghost predicate Valid()
      reads `ba, `bae
    {
      ba % 2 == 0 && bae < 0x40
    }

    constructor (ch: Channel, readOnly: bool)
      ensures Valid() && this.ch == ch && this.readOnly == readOnly
    {
      this.ch, this.readOnly := ch, readOnly;
      wc, ba, bae, inhibit, dc, da, cc := 0, 0, 0, false, 0, 0, 0;
      last, badAddress, overflow, writeLock := false, false, false, false;
    }

    function Base(): nat
      reads `ba, `bae
    {
      bae * 0x1_0000 + ba
    }

    // The words still to go, as the word counter says.
    function Requested(): nat
      reads `wc
    {
      (0x1_0000 - wc) % 0x1_0000
    }

    // Stepping the bus address.
    method Step(ghost base: nat, ghost k: nat)
      requires Valid() && Base() == Addr(BUS, base, inhibit, k)
      modifies `ba, `bae
      ensures Valid() && Base() == Addr(BUS, base, inhibit, k + 1)
    {
      if !inhibit {
        NextAddr(BUS, base, k);
        var ba22 := (bae * 0x1_0000 + ba + 2) % BUS;
        SplitAddress(bae, ba, ba22);
        ba, bae := ba22 % 0x1_0000 - ba22 % 2, ba22 / 0x1_0000 % 0x40;
      }
    }

    // The loop of xp_transfer, over n words from disk word s.
    method Transfer(fnc: Fnc, s: nat, n: nat) returns (i: nat, ghost ws: seq<u16>)
      requires Valid()
      modifies ch, `wc, `ba, `bae
      ensures Valid() && i <= n && |ws| == i && |ch.mem| == |old(ch.mem)|
      ensures Moved(fnc, BUS, inhibit, old(ch.mem), old(ch.disk), old(Base()), 256 * s, ws)
      ensures Refines(ch.disk, old(ch.disk), 256 * s, Over(fnc, ws))
      ensures ch.mem == if fnc.Read? then Filled(old(ch.mem), BUS, old(Base()), inhibit, ws) else old(ch.mem)
      ensures wc == Counted(old(wc), i) && Base() == Addr(BUS, old(Base()), inhibit, i)
      ensures i < n ==>
                var a := Addr(BUS, old(Base()), inhibit, i) / 2;
                && ch.noMemory == (old(ch.noMemory) || a >= |ch.mem|)
                && ch.mismatch == (old(ch.mismatch) || a < |ch.mem|)
                && (a < |ch.mem| ==> fnc.WriteCheck? && ch.mem[a] != Flat(old(ch.disk), 256 * s + i))
      ensures i == n ==> ch.noMemory == old(ch.noMemory) && ch.mismatch == old(ch.mismatch)
    {
      hide Stands, Replaced, Refines, Moved, Filled, Addr, Flat, Counted, Over;
      var buf := new u16[256](k => 0);
      var valid, dirty, lba: nat := false, false, 0;
      ghost var base, word := Base(), 256 * s;
      i, ws := 0, [];
      Untouched(ch.disk, word, buf[..]);
      SameDisk(ch.disk, word, fnc);
      DirectBase(BUS, base);
      CountStep(wc, 0);
      FilledStep(ch.mem, BUS, base, inhibit, [], 0);
      MovedNone(fnc, BUS, inhibit, ch.mem, ch.disk, base, word);
      while i < n
        invariant Valid() && i <= n && |ws| == i && |ch.mem| == |old(ch.mem)|
        invariant dirty ==> valid
        invariant Moved(fnc, BUS, inhibit, old(ch.mem), old(ch.disk), base, word, ws)
        invariant Stands(ch.disk, valid, dirty, lba, buf[..], old(ch.disk), word, Over(fnc, ws))
        invariant ch.mem == if fnc.Read? then Filled(old(ch.mem), BUS, base, inhibit, ws) else old(ch.mem)
        invariant wc == Counted(old(wc), i) && Base() == Addr(BUS, base, inhibit, i)
        invariant ch.noMemory == old(ch.noMemory) && ch.mismatch == old(ch.mismatch)
      {
        var idx := s + i / 256;
        dirty := ch.EnsureSector(buf, valid, dirty, lba, idx, true, old(ch.disk), word, Over(fnc, ws));
        valid, lba := true, idx;
        var ok;
        ghost var w;
        ok, dirty, w := ch.MoveWord(fnc, buf, dirty, lba, i % 256, bae * 0x1_0000 + ba, true, old(ch.disk), word, ws);
        if !ok {
          break;
        }
        wc := Counted(wc, 1);
        CountStep(old(wc), i);
        MovedStep(fnc, BUS, inhibit, old(ch.mem), old(ch.disk), base, word, ws, w);
        FilledStep(old(ch.mem), BUS, base, inhibit, ws, w);
        Step(base, i);
        i, ws := i + 1, ws + [w];
      }
      ch.WriteBack(buf, valid, dirty, lba, true, old(ch.disk), word, Over(fnc, ws));
    }

    // The number of words a command may move, or none when it is refused.
    function Allowed(fnc: Fnc): nat
      reads `dc, `da, `wc, `readOnly
    {
      match ToSector(dc, da)
      case None => 0
      case Some(s) => if fnc.Write? && readOnly then 0 else Min(Requested(), 256 * TOTAL - 256 * s)
    }

    // xp_transfer. Of the words allowed, i are moved: all of them, or those before the
    // first that memory does not answer for or that a check finds different. A write
    // has then replaced exactly those disk words by the memory words, a read has put
    // the disk words in memory, and the flat disk is otherwise as it was.
    method Perform(fnc: Fnc) returns (i: nat, ghost ws: seq<u16>)
      requires Valid()
      modifies ch, `wc, `ba, `bae, `badAddress, `overflow, `writeLock, `dc, `da, `cc, `last
      ensures Valid() && i <= old(Allowed(fnc)) && |ws| == i && |ch.mem| == |old(ch.mem)|
      ensures badAddress == (old(badAddress) || ToSector(old(dc), old(da)).None?)
      ensures writeLock == (old(writeLock) || old(ToSector(dc, da).Some? && Requested() > 0 && fnc.Write? && readOnly))
      ensures i == old(Allowed(fnc)) ==> ch.noMemory == old(ch.noMemory) && ch.mismatch == old(ch.mismatch)
      ensures i < old(Allowed(fnc)) ==>
                var a := Addr(BUS, old(Base()), inhibit, i) / 2;
                ch.noMemory == (old(ch.noMemory) || a >= |ch.mem|) && ch.mismatch == (old(ch.mismatch) || a < |ch.mem|)
      ensures old(ToSector(dc, da)).Some? ==>
                var s := old(ToSector(dc, da)).value;
                && Moved(fnc, BUS, inhibit, old(ch.mem), old(ch.disk), old(Base()), 256 * s, ws)
                && Refines(ch.disk, old(ch.disk), 256 * s, Over(fnc, ws))
                && ch.mem == (if fnc.Read? then Filled(old(ch.mem), BUS, old(Base()), inhibit, ws) else old(ch.mem))
                && overflow == (old(overflow) || old(Requested()) > 256 * TOTAL - 256 * s)
                && (i < old(Allowed(fnc)) ==>
                      var a := Addr(BUS, old(Base()), inhibit, i) / 2;
                      a >= |ch.mem| || (fnc.WriteCheck? && ch.mem[a] != Flat(old(ch.disk), 256 * s + i)))
                && (i > 0 ==>
                      var n := s + (i + 255) / 256;
                      && ToSector(dc, da) == Some(if n >= TOTAL then TOTAL - 1 else n)
                      && cc == dc && last == (n >= TOTAL))
      ensures i == 0 ==> dc == old(dc) && da == old(da) && cc == old(cc) && last == old(last)
      ensures old(ToSector(dc, da)).None? ==>
                ch.disk == old(ch.disk) && ch.mem == old(ch.mem) && overflow == old(overflow)
      ensures wc == Counted(old(wc), i) && Base() == Addr(BUS, old(Base()), inhibit, i)
    {
      hide Replaced, Refines, Moved, Filled, Addr, Flat, Counted, ToSector, FromSector, Over;
      ghost var base := Base();
      DirectBase(BUS, base);
      CountStep(wc, 0);
      i, ws := 0, [];
      var start := ToSector(dc, da);
      if start.None? {
        badAddress := true;
        return;
      }
      var s := start.value;
      MovedNone(fnc, BUS, inhibit, ch.mem, ch.disk, base, 256 * s);
      FilledStep(ch.mem, BUS, base, inhibit, [], 0);
      SameDisk(ch.disk, 256 * s, fnc);
      var words := Requested();
      if words == 0 {
        return;
      }
      if 256 * s + words > 256 * TOTAL {
        words := 256 * TOTAL - 256 * s;
        overflow := true;
      }
      if fnc.Write? && readOnly {
        writeLock := true;
        return;
      }
      i, ws := Transfer(fnc, s, words);
      if i > 0 {
        SetAddress(s + (i + 255) / 256);
      }
    }

    // The address registers move to sector n, or stay on the last one.
    method SetAddress(n: nat)
      modifies `dc, `da, `cc, `last
      ensures ToSector(dc, da) == Some(if n >= TOTAL then TOTAL - 1 else n) && cc == dc && last == (n >= TOTAL)
    {
      SectorRoundTrip(n);
      var r := FromSector(n);
      dc, da, last := r.0, r.1, n >= TOTAL;
      cc := dc;
    }
  }

  lemma SplitAddress(bae: nat, ba: u16, a: nat)
    requires ba % 2 == 0 && bae < 0x40 && a == (bae * 0x1_0000 + ba + 2) % BUS
    ensures a % 2 == 0 && a / 0x1_0000 < 0x40 && a / 0x1_0000 % 0x40 * 0x1_0000 + a % 0x1_0000 == a
    ensures a % 0x1_0000 % 2 == 0
  {
    var h := bae * 0x8000 + ba / 2 + 1;
    DivModUnique(2 * h, BUS, h / 0x20_0000, 2 * (h % 0x20_0000));
    var g := h % 0x20_0000;
    DivModUnique(a, 0x1_0000, g / 0x8000, 2 * (g % 0x8000));
  }
}
