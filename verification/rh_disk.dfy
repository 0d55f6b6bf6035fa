// The RH11/RK07 disk controller: the disk address that advances sector by sector, and
// the transfer loop that writes a dirty buffer back at the end of each sector.
module RhDisk {
  import opened Arith
  import opened SectorBuffer

  const HEADS := 3
  const SECTORS := 22
  const LIMIT := 0x1_0000 * 66

  // ---- The disk address ----

  function Sec(da: u16): nat {
    da % 0x20
  }

  function Head(da: u16): nat {
    da / 0x100 % 8
  }

  // rh_lba. With sectors numbered from one, zero stands for the last.
  function Lba(oneBased: bool, dc: u16, da: u16): (l: Option<nat>)
    ensures l.Some? ==> l.value < LIMIT
  {
    var sec := if !oneBased then Sec(da) else if Sec(da) == 0 then SECTORS - 1 else Sec(da) - 1;
    if sec >= SECTORS || Head(da) >= HEADS then None
    else Some((dc * HEADS + Head(da)) * SECTORS + sec)
  }

  function WithHeadSec(da: u16, head: nat, sec: nat): (d: u16)
    requires head < 8 && sec < 0x20
    ensures Sec(d) == sec && Head(d) == head
  {
    var high, mid := da / 0x800, da / 0x20 % 8;
    FieldsOf(high, head, mid, sec);
    high * 0x800 + head * 0x100 + mid * 0x20 + sec
  }

  lemma FieldsOf(high: nat, head: nat, mid: nat, sec: nat)
    requires high < 0x20 && head < 8 && mid < 8 && sec < 0x20
    ensures var d := high * 0x800 + head * 0x100 + mid * 0x20 + sec;
            d < 0x1_0000 && Sec(d) == sec && Head(d) == head
  {
    var d := high * 0x800 + head * 0x100 + mid * 0x20 + sec;
    DivModUnique(d, 0x20, high * 0x40 + head * 8 + mid, sec);
    DivModUnique(d, 0x100, high * 8 + head, mid * 0x20 + sec);
    DivModUnique(high * 8 + head, 8, high, head);
  }

  // rh_advance_sector
  function Next(dc: u16, da: u16): (r: (u16, u16)) {
    if Sec(da) + 1 < SECTORS then (dc, WithHeadSec(da, Head(da), Sec(da) + 1))
    else if Head(da) + 1 < HEADS then (dc, WithHeadSec(da, Head(da) + 1, 0))
    else (if dc == 0xFFFF then 0 else dc + 1, WithHeadSec(da, 0, 0))
  }

  // With sectors numbered from zero, the next address is the next block, until the
  // cylinder register wraps.
  lemma NextLba(dc: u16, da: u16)
    requires Lba(false, dc, da).Some?
    ensures var l, n := Lba(false, dc, da).value, Next(dc, da);
            Lba(false, n.0, n.1) == Some(if l + 1 < LIMIT then l + 1 else 0)
  {
  }

  // With sectors numbered from one the addresses are in order only inside a track:
  // the last but one and the last sector are followed by the wrong block.
  lemma OneBasedNext(dc: u16, da: u16)
    requires Lba(true, dc, da).Some?
    ensures var l, n := Lba(true, dc, da).value, Next(dc, da);
            Lba(true, n.0, n.1) == Some(l + 1) <==> 1 <= Sec(da) <= 20
  {
    var l, n := Lba(true, dc, da).value, Next(dc, da);
    if Sec(da) == 0 || Sec(da) >= 21 {
      if Lba(true, n.0, n.1).Some? && n.0 != dc {
        assert n.0 == 0 || n.0 == dc + 1;
      }
    }
  }

  // Blocks are numbered from the first of the disk: the next sector of a track is one
  // further on, the next head a track of 22, and the next cylinder three tracks.
  lemma NumberedInOrder(cyl: u16, head: nat, sec: nat)
    requires head < 3 && sec < 22
    ensures var n := Lba(false, cyl, head * 0x100 + sec);
            && Lba(false, 0, 0) == Some(0) && n.Some?
            && (sec < 21 ==> Lba(false, cyl, head * 0x100 + sec + 1) == Some(n.value + 1))
            && (head < 2 ==> Lba(false, cyl, (head + 1) * 0x100 + sec) == Some(n.value + 22))
            && (cyl < 0xFFFF ==> Lba(false, cyl + 1, head * 0x100 + sec) == Some(n.value + 66))
  {
    BlockOf(0, 0, 0);
    BlockOf(cyl, head, sec);
    if sec < 21 {
      BlockOf(cyl, head, sec + 1);
    }
    if head < 2 {
      BlockOf(cyl, head + 1, sec);
    }
    if cyl < 0xFFFF {
      BlockOf(cyl + 1, head, sec);
    }
  }

  // With sectors numbered from one, each is the one before it when numbered from zero.
  lemma BlockOf(cyl: u16, head: nat, sec: nat)
    requires head < 3 && sec < 22
    ensures Lba(false, cyl, head * 0x100 + sec) == Some(66 * cyl + 22 * head + sec)
    ensures Lba(true, cyl, head * 0x100 + sec + 1) == Some(66 * cyl + 22 * head + sec)
  {
    FieldsOf(0, head, 0, sec);
    FieldsOf(0, head, 0, sec + 1);
  }

  // The address t sectors on.
  function Ahead(dc: u16, da: u16, t: nat): (u16, u16) {
    if t == 0 then (dc, da)
    else
      var a := Ahead(dc, da, t - 1);
      Next(a.0, a.1)
  }

  // The sectors that n words touch.
  function Touched(n: nat): nat {
    (n + 255) / 256
  }

  // The first t addresses denote the blocks from l on.
  ghost predicate Consecutive(oneBased: bool, dc: u16, da: u16, t: nat) {
    && Lba(oneBased, dc, da).Some?
    && forall j | 0 <= j < t ::
         var a := Ahead(dc, da, j); Lba(oneBased, a.0, a.1) == Some(Lba(oneBased, dc, da).value + j)
  }

  // There is room for t sectors: before the cylinder register wraps, or, with sectors
  // numbered from one, in the track, whose last sector has the number zero.
  predicate Room(oneBased: bool, dc: u16, da: u16, t: nat) {
    t <= 1 || if oneBased then 1 <= Sec(da) && Sec(da) + t <= 22
              else Lba(false, dc, da).Some? && Lba(false, dc, da).value + t <= LIMIT
  }

  // Zero-based, j sectors on.
  lemma {:induction false} AheadInOrder(dc: u16, da: u16, j: nat)
    requires Lba(false, dc, da).Some? && Lba(false, dc, da).value + j < LIMIT
    ensures var a := Ahead(dc, da, j); Lba(false, a.0, a.1) == Some(Lba(false, dc, da).value + j)
  {
    hide Lba, Next;
    if j > 0 {
      AheadInOrder(dc, da, j - 1);
      var a := Ahead(dc, da, j - 1);
      NextLba(a.0, a.1);
    }
  }

  // One-based, j sectors on in the same track.
  lemma {:induction false} AheadInTrack(dc: u16, da: u16, j: nat)
    requires Lba(true, dc, da).Some? && 1 <= Sec(da) && Sec(da) + j <= 21
    ensures var a := Ahead(dc, da, j);
            && a.0 == dc && Sec(a.1) == Sec(da) + j && Head(a.1) == Head(da)
            && Lba(true, a.0, a.1) == Some(Lba(true, dc, da).value + j)
  {
    if j > 0 {
      AheadInTrack(dc, da, j - 1);
    }
  }

  // Exactly when there is room the sectors follow each other on the disk.
  lemma ConsecutiveMeansRoom(oneBased: bool, dc: u16, da: u16, t: nat)
    requires Lba(oneBased, dc, da).Some?
    ensures Consecutive(oneBased, dc, da, t) <==> Room(oneBased, dc, da, t)
  {
    hide Lba, Next, Sec;
    if Room(oneBased, dc, da, t) {
      forall j | 0 <= j < t
        ensures var a := Ahead(dc, da, j); Lba(oneBased, a.0, a.1) == Some(Lba(oneBased, dc, da).value + j)
      {
        if j > 0 {
          if oneBased {
            AheadInTrack(dc, da, j);
          } else {
            AheadInOrder(dc, da, j);
          }
        }
      }
    } else if oneBased {
      var j := BrokenAt(dc, da, t);
    } else {
      WrapsAt(dc, da, t);
    }
  }

  // Out of room, the address behind the one numbered 21 or zero is not the next block.
  lemma BrokenAt(dc: u16, da: u16, t: nat) returns (j: nat)
    requires Lba(true, dc, da).Some? && !Room(true, dc, da, t)
    ensures 0 < j < t
    ensures var a := Ahead(dc, da, j); Lba(true, a.0, a.1) != Some(Lba(true, dc, da).value + j)
  {
    hide Lba, Next;
    if Sec(da) == 0 || Sec(da) == 22 {
      j := 1;
      OneBasedNext(dc, da);
      assert Ahead(dc, da, 0) == (dc, da);
    } else {
      SecBound(dc, da);
      j := 22 - Sec(da);
      AheadInTrack(dc, da, j - 1);
      var a := Ahead(dc, da, j - 1);
      OneBasedNext(a.0, a.1);
    }
  }

  lemma SecBound(dc: u16, da: u16)
    requires Lba(true, dc, da).Some?
    ensures Sec(da) <= 22
  {
  }

  lemma WrapsAt(dc: u16, da: u16, t: nat)
    requires Lba(false, dc, da).Some? && !Room(false, dc, da, t)
    ensures !Consecutive(false, dc, da, t)
  {
    hide Lba, Next;
    var j := LIMIT - Lba(false, dc, da).value;
    var a := Ahead(dc, da, j);
    assert Lba(false, a.0, a.1).Some? ==> Lba(false, a.0, a.1).value < LIMIT;
  }

  // Two sectors from the one numbered 21 are not next to each other: the second is the
  // last of the following track.
  lemma OneBasedWitness()
    ensures Lba(true, 0, 21) == Some(20) && Ahead(0, 21, 1) == (0, 0x100) && Lba(true, 0, 0x100) == Some(43)
  {
    assert Ahead(0, 21, 0) == (0, 21);
  }

  // ---- The transfer ----

  // The bus is 18 bits wide for an RH11 and 22 for an RH70.
  function Bus(rh70: bool): nat {
    if rh70 then 0x40_0000 else 0x4_0000
  }

  // The last word of an 18-bit bus is followed by the first, and on a 22-bit bus by the
  // next one, up to its own last.
  lemma BusWraps()
    ensures Addr(Bus(false), 0x3_FFFE, false, 1) == 0
    ensures Addr(Bus(true), 0x3_FFFE, false, 1) == 0x4_0000 && Addr(Bus(true), 0x3F_FFFE, false, 1) == 0
  {
  }

  // Adding two to an even address, with the carry into the extension.
  lemma CarryOut(ext: nat, ba: u16, w: nat)
    requires ext < w && ba % 2 == 0 && (w == 4 || w == 0x40)
    ensures (ext * 0x1_0000 + ba + 2) % (w * 0x1_0000)
         == if ba == 0xFFFE then (ext + 1) % w * 0x1_0000 else ext * 0x1_0000 + ba + 2
  {
  }

  class Controller {
    const ch: Channel
    const rh70: bool
    const oneBased: bool
    var wc: u16
    var ba: u16
    var ext: nat
    var inhibit: bool
    var dc: u16
    var da: u16
    var badAddress: bool

    // Addresses are even by the mask on the register write.
    ghost predicate Valid()
      reads `ba, `ext
    {
      ba % 2 == 0 && ext < (if rh70 then 0x40 else 4)
    }

    constructor (ch: Channel, rh70: bool, oneBased: bool)
      ensures Valid() && this.ch == ch && this.rh70 == rh70 && this.oneBased == oneBased
    {
      this.ch, this.rh70, this.oneBased := ch, rh70, oneBased;
      wc, ba, ext, inhibit, dc, da, badAddress := 0, 0, 0, false, 0, 0, false;
    }

    function Base(): nat
      reads `ba, `ext
    {
      ext * 0x1_0000 + ba
    }

    // The word counter is signed: only negative counts ask for words.
    function Requested(): nat
      reads `wc
    {
      if wc >= 0x8000 then 0x1_0000 - wc else 0
    }

    // The counter, as a number with a sign, is minus the words asked for, if it is negative.
    lemma RequestedMeans()
      ensures var signed := wc - if wc / 0x8000 == 1 then 0x1_0000 else 0;
              Requested() == SectorBuffer.Positive(-signed)
    {
    }

    // rh_ba_inc_rh11 and rh_ba_inc_rh70: a carry out of the low word goes into the
    // extension, within its width.
    method Step(ghost base: nat, ghost k: nat)
      requires Valid() && Base() == Addr(Bus(rh70), base, inhibit, k)
      modifies `ba, `ext
      ensures Valid() && Base() == Addr(Bus(rh70), base, inhibit, k + 1)
    {
      if !inhibit {
        hide Addr;
        NextAddr(Bus(rh70), base, k);
        CarryOut(ext, ba, if rh70 then 0x40 else 4);
        if ba == 0xFFFE {
          ba, ext := 0, (ext + 1) % if rh70 then 0x40 else 4;
        } else {
          ba := ba + 2;
        }
      }
    }

    // The sectors that the words of a transfer touch follow each other on the disk.
    ghost predicate InOrder(dc0: u16, da0: u16, n: nat) {
      Lba(oneBased, dc0, da0).Some? && Consecutive(oneBased, dc0, da0, Touched(n))
    }

    // Where the registers are after i words.
    ghost predicate OnCourse(dc0: u16, da0: u16, dc1: u16, da1: u16, i: nat) {
      (dc1, da1) == Ahead(dc0, da0, i / 256)
    }

    // One word of a transfer, with its sector in the buffer.
    method Word(fnc: Fnc, buf: array<u16>, valid: bool, dirty: bool, lba: nat, sector: nat, offset: nat,
                ghost base: nat, ghost i: nat, ghost good: bool, ghost mem0: seq<u16>,
                ghost disk0: seq<u16>, ghost word: nat, ghost ws: seq<u16>)
      returns (ok: bool, dirty': bool, ghost w: u16)
      requires Valid() && buf.Length == 256 && offset < 256 && (dirty ==> valid && fnc.Write?) && |ws| == i
      requires Base() == Addr(Bus(rh70), base, inhibit, i) && |mem0| == |ch.mem|
      requires ch.mem == if fnc.Read? then Filled(mem0, Bus(rh70), base, inhibit, ws) else mem0
      requires good ==>
                 && word + i == 256 * sector + offset
                 && Moved(fnc, Bus(rh70), inhibit, mem0, disk0, base, word, ws)
                 && Stands(ch.disk, valid, dirty, lba, buf[..], disk0, word, Over(fnc, ws))
      modifies ch, buf, `wc, `ba, `ext
      ensures Valid() && |ch.mem| == |mem0| && (dirty' ==> fnc.Write?) && (!dirty ==> ch.disk == old(ch.disk))
      ensures var i' := if ok then i + 1 else i;
              var ws' := if ok then ws + [w] else ws;
              && wc == (if ok then Counted(old(wc), 1) else old(wc))
              && Base() == Addr(Bus(rh70), base, inhibit, i')
              && ch.mem == (if fnc.Read? then Filled(mem0, Bus(rh70), base, inhibit, ws') else mem0)
              && (good ==>
                    && Moved(fnc, Bus(rh70), inhibit, mem0, disk0, base, word, ws')
                    && Stands(ch.disk, true, dirty', sector, buf[..], disk0, word, Over(fnc, ws')))
      ensures ok ==> ch.noMemory == old(ch.noMemory) && ch.mismatch == old(ch.mismatch)
      ensures !ok ==>
                var a := Addr(Bus(rh70), base, inhibit, i) / 2;
                && ch.noMemory == (old(ch.noMemory) || a >= |ch.mem|)
                && ch.mismatch == (old(ch.mismatch) || a < |ch.mem|)
                && (a >= |ch.mem| || fnc.WriteCheck?)
                && (good && a < |ch.mem| ==> ch.mem[a] != Flat(disk0, word + i))
    {
      hide Stands, Replaced, Refines, Moved, Filled, Addr, Flat, Counted, Over;
      dirty' := ch.EnsureSector(buf, valid, dirty, lba, sector, good, disk0, word, Over(fnc, ws));
      ok, dirty', w := ch.MoveWord(fnc, buf, dirty', sector, offset, ext * 0x1_0000 + ba, good, disk0, word, ws);
      if ok {
        wc := Counted(wc, 1);
        if good {
          MovedStep(fnc, Bus(rh70), inhibit, mem0, disk0, base, word, ws, w);
        }
        FilledStep(mem0, Bus(rh70), base, inhibit, ws, w);
        Step(base, i);
      }
    }

    // The end of a sector: a dirty buffer is written, and the address moves on.
    method EndOfSector(buf: array<u16>, dirty: bool, lba: nat, ghost good: bool, ghost before: seq<u16>,
                       ghost s: nat, ghost ws: seq<u16>, ghost dc0: u16, ghost da0: u16, ghost i: nat)
      requires buf.Length == 256 && i % 256 == 255 && OnCourse(dc0, da0, dc, da, i)
      requires good ==> Stands(ch.disk, true, dirty, lba, buf[..], before, s, ws)
      modifies ch`disk, `dc, `da
      ensures !dirty ==> ch.disk == old(ch.disk)
      ensures good ==> Stands(ch.disk, false, false, 0, buf[..], before, s, ws)
      ensures OnCourse(dc0, da0, dc, da, i + 1)
    {
      hide Stands, Lba, Next;
      ch.WriteBack(buf, true, dirty, lba, good, before, s, ws);
      assert (i + 1) / 256 == i / 256 + 1;
      var n := Next(dc, da);
      dc, da := n.0, n.1;
    }

    // What a transfer of i words has done to the registers, the memory and the disk.
    ghost predicate Progress(fnc: Fnc, mem0: seq<u16>, disk0: seq<u16>, base: nat, wc0: u16, dc0: u16, da0: u16,
                             i: nat, ws: seq<u16>)
      reads ch`mem, ch`disk, `ba, `ext, `wc, `dc, `da, `inhibit
    {
      && Valid() && |ws| == i && Bus(rh70) > 0
      && wc == Counted(wc0, i) && Base() == Addr(Bus(rh70), base, inhibit, i) && OnCourse(dc0, da0, dc, da, i)
      && ch.mem == (if fnc.Read? then Filled(mem0, Bus(rh70), base, inhibit, ws) else mem0)
      && (!fnc.Write? ==> ch.disk == disk0)
    }

    // The words moved, and what the disk and the sector buffer stand for.
    ghost predicate Faithful(fnc: Fnc, mem0: seq<u16>, disk0: seq<u16>, base: nat, word: nat, ws: seq<u16>,
                             valid: bool, dirty: bool, lba: nat, buf: array<u16>)
      reads ch`disk, buf, `inhibit
    {
      && Bus(rh70) > 0 && Moved(fnc, Bus(rh70), inhibit, mem0, disk0, base, word, ws)
      && Stands(ch.disk, valid, dirty, lba, buf[..], disk0, word, Over(fnc, ws))
    }

    // One turn of the loop of rh_transfer, for word i. It stops at a bad address, at
    // missing memory, and at a difference in a check.
    method Turn(fnc: Fnc, buf: array<u16>, valid: bool, dirty: bool, lba: nat, offset: nat, ghost i: nat, ghost n: nat,
                ghost good: bool, ghost mem0: seq<u16>, ghost disk0: seq<u16>, ghost base: nat,
                ghost wc0: u16, ghost dc0: u16, ghost da0: u16, ghost word: nat, ghost ws: seq<u16>)
      returns (ok: bool, valid': bool, dirty': bool, lba': nat, offset': nat, ghost ws': seq<u16>)
      requires buf.Length == 256 && (dirty ==> valid && fnc.Write?) && i < n && offset == i % 256
      requires Progress(fnc, mem0, disk0, base, wc0, dc0, da0, i, ws)
      requires good ==> InOrder(dc0, da0, n) && word == 256 * Lba(oneBased, dc0, da0).value
                        && Faithful(fnc, mem0, disk0, base, word, ws, valid, dirty, lba, buf)
      modifies ch, buf, `wc, `ba, `ext, `dc, `da, `badAddress
      ensures dirty' ==> valid' && fnc.Write?
      ensures Progress(fnc, mem0, disk0, base, wc0, dc0, da0, if ok then i + 1 else i, ws')
      ensures good ==> Faithful(fnc, mem0, disk0, base, word, ws', valid', dirty', lba', buf)
      ensures ok ==>
                && offset' == (i + 1) % 256 && Lba(oneBased, old(dc), old(da)).Some?
                && badAddress == old(badAddress) && ch.noMemory == old(ch.noMemory) && ch.mismatch == old(ch.mismatch)
      ensures !ok && Lba(oneBased, old(dc), old(da)).None? ==>
                && !good && badAddress && ch.noMemory == old(ch.noMemory) && ch.mismatch == old(ch.mismatch)
                && ch.disk == old(ch.disk) && dirty' == dirty
      ensures !ok && Lba(oneBased, old(dc), old(da)).Some? ==>
                var a := Addr(Bus(rh70), base, inhibit, i) / 2;
                && badAddress == old(badAddress) && (a >= |ch.mem| || fnc.WriteCheck?)
                && ch.noMemory == (old(ch.noMemory) || a >= |ch.mem|)
                && ch.mismatch == (old(ch.mismatch) || a < |ch.mem|)
                && (good && a < |ch.mem| ==> ch.mem[a] != Flat(disk0, word + i))
    {
      hide Stands, Replaced, Refines, Moved, Filled, Addr, Flat, Counted, Over, Lba, Next, Bus, OnCourse, InOrder;
      valid', dirty', lba', offset', ws' := valid, dirty, lba, offset, ws;
      if good {
        SectorAt(dc0, da0, n, i);
      }
      var sector := Lba(oneBased, dc, da);
      if sector.None? {
        badAddress := true;
        ok := false;
        return;
      }
      ghost var w;
      ok, dirty', w := Word(fnc, buf, valid, dirty, lba, sector.value, offset, base, i, good, mem0, disk0, word, ws);
      valid', lba' := true, sector.value;
      if !ok {
        return;
      }
      CountStep(wc0, i);
      ws', offset' := ws + [w], offset + 1;
      if offset' >= 256 {
        EndOfSector(buf, dirty', lba', good, disk0, word, Over(fnc, ws'), dc0, da0, i);
        valid', dirty', lba', offset' := false, false, 0, 0;
      } else {
        SameSector(dc0, da0, i);
      }
    }

    // rh_transfer. Short of a bad address, of missing memory and of a difference in a
    // check, every requested word is moved, and the registers end at the sector of the
    // next word; where the sectors touched follow each other, the disk words from the
    // first one on are the ones moved.
    method Transfer(fnc: Fnc) returns (i: nat, ghost ws: seq<u16>)
      requires Valid()
      modifies ch, `wc, `ba, `ext, `dc, `da, `badAddress
      ensures Valid() && i <= old(Requested()) && |ws| == i && |ch.mem| == |old(ch.mem)|
      ensures wc == Counted(old(wc), i) && Base() == Addr(Bus(rh70), old(Base()), inhibit, i)
      ensures (dc, da) == Ahead(old(dc), old(da), i / 256)
      ensures ch.mem == if fnc.Read? then Filled(old(ch.mem), Bus(rh70), old(Base()), inhibit, ws) else old(ch.mem)
      ensures i == old(Requested()) ==>
                badAddress == old(badAddress) && ch.noMemory == old(ch.noMemory) && ch.mismatch == old(ch.mismatch)
      ensures i < old(Requested()) ==>
                if Lba(oneBased, dc, da).None? then
                  badAddress && ch.noMemory == old(ch.noMemory) && ch.mismatch == old(ch.mismatch)
                else
                  var a := Addr(Bus(rh70), old(Base()), inhibit, i) / 2;
                  && badAddress == old(badAddress) && (a >= |ch.mem| || fnc.WriteCheck?)
                  && ch.noMemory == (old(ch.noMemory) || a >= |ch.mem|)
                  && ch.mismatch == (old(ch.mismatch) || a < |ch.mem|)
      ensures Lba(oneBased, old(dc), old(da)).None? ==> i == 0 && ch.disk == old(ch.disk)
      ensures !fnc.Write? ==> ch.disk == old(ch.disk)
      ensures old(InOrder(dc, da, Requested())) ==>
                var s := Lba(oneBased, old(dc), old(da)).value;
                && Moved(fnc, Bus(rh70), inhibit, old(ch.mem), old(ch.disk), old(Base()), 256 * s, ws)
                && Refines(ch.disk, old(ch.disk), 256 * s, Over(fnc, ws))
                && badAddress == old(badAddress)
                && (i < old(Requested()) ==>
                      var a := Addr(Bus(rh70), old(Base()), inhibit, i) / 2;
                      a >= |ch.mem| || (fnc.WriteCheck? && ch.mem[a] != Flat(old(ch.disk), 256 * s + i)))
    {
      hide Stands, Replaced, Refines, Moved, Filled, Addr, Flat, Counted, Over, Lba, Next, Bus, InOrder, Ahead;
      var n := Requested();
      var buf := new u16[256](k => 0);
      var valid, dirty, lba: nat, offset := false, false, 0, 0;
      ghost var base, good := Base(), InOrder(dc, da, n);
      ghost var word := if good then 256 * First(dc, da, n) else 0;
      i, ws := 0, [];
      Begin(fnc, buf, word);
      while i < n
        invariant i <= n && offset == i % 256 && (dirty ==> valid && fnc.Write?)
        invariant i == 0 ==> !dirty && ch.disk == old(ch.disk)
        invariant i > 0 ==> Lba(oneBased, old(dc), old(da)).Some?
        invariant badAddress == old(badAddress)
        invariant ch.noMemory == old(ch.noMemory) && ch.mismatch == old(ch.mismatch)
        invariant Progress(fnc, old(ch.mem), old(ch.disk), base, old(wc), old(dc), old(da), i, ws)
        invariant good ==> Faithful(fnc, old(ch.mem), old(ch.disk), base, word, ws, valid, dirty, lba, buf)
      {
        AtFirst(old(dc), old(da));
        var ok;
        ok, valid, dirty, lba, offset, ws :=
          Turn(fnc, buf, valid, dirty, lba, offset, i, n, good, old(ch.mem), old(ch.disk), base,
               old(wc), old(dc), old(da), word, ws);
        if !ok {
          break;
        }
        i := i + 1;
      }
      ch.WriteBack(buf, valid, dirty, lba, good, old(ch.disk), word, Over(fnc, ws));
    }

    // Before the first word.
    lemma Begin(fnc: Fnc, buf: array<u16>, word: nat)
      requires Valid() && buf.Length == 256
      ensures Progress(fnc, ch.mem, ch.disk, Base(), wc, dc, da, 0, [])
      ensures Faithful(fnc, ch.mem, ch.disk, Base(), word, [], false, false, 0, buf)
    {
      hide Stands, Moved, Filled, Addr, Counted, Over;
      BusSize();
      Untouched(ch.disk, word, buf[..]);
      SameDisk(ch.disk, word, fnc);
      DirectBase(Bus(rh70), Base());
      CountStep(wc, 0);
      FilledStep(ch.mem, Bus(rh70), Base(), inhibit, [], 0);
      MovedNone(fnc, Bus(rh70), inhibit, ch.mem, ch.disk, Base(), word);
    }

    lemma BusSize()
      ensures Bus(rh70) > 0 && (Valid() ==> Base() < Bus(rh70))
    {
    }

    ghost function First(dc0: u16, da0: u16, n: nat): nat
      requires InOrder(dc0, da0, n)
    {
      Lba(oneBased, dc0, da0).value
    }

    lemma AtFirst(dc0: u16, da0: u16)
      ensures Ahead(dc0, da0, 0) == (dc0, da0)
    {
    }

    // The sector of word i, in order.
    lemma SectorAt(dc0: u16, da0: u16, n: nat, i: nat)
      requires InOrder(dc0, da0, n) && i < n && OnCourse(dc0, da0, dc, da, i)
      ensures Lba(oneBased, dc0, da0).Some? && Lba(oneBased, dc, da) == Some(Lba(oneBased, dc0, da0).value + i / 256)
    {
      hide Lba, Ahead;
      assert i / 256 < Touched(n);
    }

    lemma SameSector(dc0: u16, da0: u16, i: nat)
      requires i % 256 != 255
      ensures OnCourse(dc0, da0, dc, da, i) ==> OnCourse(dc0, da0, dc, da, i + 1)
    {
      hide Ahead;
      assert (i + 1) / 256 == i / 256;
    }
  }
}
