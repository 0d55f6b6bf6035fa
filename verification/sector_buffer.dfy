// A disk seen as a flat sequence of words, the one-sector buffer that a transfer
// works through, and the memory side of a transfer.
module SectorBuffer {
  import opened Arith

  // The word at w; an image reads as zero past its end.
  function Flat(disk: seq<u16>, w: nat): u16 {
    if w < |disk| then disk[w] else 0
  }

  function ReadSector(disk: seq<u16>, lba: nat): (buf: seq<u16>)
    ensures |buf| == 256
  {
    seq<u16>(256, j requires 0 <= j < 256 => Flat(disk, 256 * lba + j))
  }

  function WriteSector(disk: seq<u16>, lba: nat, buf: seq<u16>): (d: seq<u16>)
    requires |buf| == 256
  {
    var end := 256 * lba + 256;
    seq<u16>(if |disk| > end then |disk| else end,
        w requires 0 <= w => if 256 * lba <= w < end then buf[w - 256 * lba] else Flat(disk, w))
  }

  // Disk words [s, s + |ws|) replaced by ws, and nothing else.
  function Replaced(disk: seq<u16>, s: nat, ws: seq<u16>, w: nat): u16 {
    if s <= w < s + |ws| then ws[w - s] else Flat(disk, w)
  }

  ghost predicate Refines(disk: seq<u16>, before: seq<u16>, s: nat, ws: seq<u16>) {
    forall w: nat :: Flat(disk, w) == Replaced(before, s, ws, w)
  }

  // The disk and a sector buffer together stand for the flat disk: the buffer, when
  // valid, holds its sector, and the disk all other words, and that sector too while
  // the buffer is clean.
  ghost predicate Stands(disk: seq<u16>, valid: bool, dirty: bool, lba: nat, buf: seq<u16>,
                         before: seq<u16>, s: nat, ws: seq<u16>) {
    && |buf| == 256 && (dirty ==> valid)
    && (valid ==> forall j | 0 <= j < 256 :: buf[j] == Replaced(before, s, ws, 256 * lba + j))
    && (forall w: nat :: !(dirty && 256 * lba <= w < 256 * lba + 256) ==> Flat(disk, w) == Replaced(before, s, ws, w))
  }

  lemma Untouched(disk: seq<u16>, s: nat, buf: seq<u16>)
    requires |buf| == 256
    ensures Stands(disk, false, false, 0, buf, disk, s, [])
  {
  }

  // Writing the buffer out cleans it.
  lemma Flush(disk: seq<u16>, lba: nat, buf: seq<u16>, before: seq<u16>, s: nat, ws: seq<u16>)
    requires Stands(disk, true, true, lba, buf, before, s, ws)
    ensures Stands(WriteSector(disk, lba, buf), true, false, lba, buf, before, s, ws)
  {
    var d := WriteSector(disk, lba, buf);
    forall w: nat
      ensures Flat(d, w) == Replaced(before, s, ws, w)
    {
      if 256 * lba <= w < 256 * lba + 256 {
        assert buf[w - 256 * lba] == Replaced(before, s, ws, 256 * lba + (w - 256 * lba));
      }
    }
  }

  // Reading a sector into a clean buffer makes it valid.
  lemma Load(disk: seq<u16>, valid: bool, lba: nat, buf: seq<u16>, lba': nat, before: seq<u16>, s: nat, ws: seq<u16>)
    requires Stands(disk, valid, false, lba, buf, before, s, ws)
    ensures Stands(disk, true, false, lba', ReadSector(disk, lba'), before, s, ws)
  {
  }

  // The next word goes into the buffer.
  lemma Put(disk: seq<u16>, dirty: bool, lba: nat, buf: seq<u16>, before: seq<u16>, s: nat, ws: seq<u16>,
            off: nat, v: u16)
    requires Stands(disk, true, dirty, lba, buf, before, s, ws)
    requires off < 256 && s + |ws| == 256 * lba + off
    ensures Stands(disk, true, true, lba, buf[off := v], before, s, ws + [v])
  {
  }

  // A clean buffer can be dropped.
  lemma Drop(disk: seq<u16>, valid: bool, lba: nat, buf: seq<u16>, lba': nat, before: seq<u16>, s: nat, ws: seq<u16>)
    requires Stands(disk, valid, false, lba, buf, before, s, ws)
    ensures Stands(disk, false, false, lba', buf, before, s, ws)
    ensures Refines(disk, before, s, ws)
  {
  }

  // The word in the buffer is the word of the flat disk.
  lemma BufferWord(disk: seq<u16>, dirty: bool, lba: nat, buf: seq<u16>, before: seq<u16>, s: nat, ws: seq<u16>,
                   off: nat)
    requires Stands(disk, true, dirty, lba, buf, before, s, ws) && off < 256
    ensures buf[off] == Replaced(before, s, ws, 256 * lba + off)
  {
  }

  // ---- Memory ----

  // The address of word k of a transfer on a bus of the given size.
  function Addr(size: nat, base: nat, inhibit: bool, k: nat): nat
    requires size > 0
  {
    if inhibit then base else (base + 2 * k) % size
  }

  // Memory after the words have been put at successive addresses.
  function Filled(mem: seq<u16>, size: nat, base: nat, inhibit: bool, ws: seq<u16>): (m: seq<u16>)
    requires size > 0
    ensures |m| == |mem|
  {
    if ws == [] then mem
    else
      var n := |ws| - 1;
      var m := Filled(mem, size, base, inhibit, ws[..n]);
      var a := Addr(size, base, inhibit, n) / 2;
      if a < |m| then m[a := ws[n]] else m
  }

  lemma FilledStep(mem: seq<u16>, size: nat, base: nat, inhibit: bool, ws: seq<u16>, w: u16)
    requires size > 0
    ensures Filled(mem, size, base, inhibit, []) == mem
    ensures var a := Addr(size, base, inhibit, |ws|) / 2;
            var m := Filled(mem, size, base, inhibit, ws);
            Filled(mem, size, base, inhibit, ws + [w]) == if a < |m| then m[a := w] else m
  {
    assert (ws + [w])[..|ws|] == ws;
  }

  // Every word of a transfer that does not wrap round onto itself is found at its
  // own address, and no other address changes.
  lemma {:induction false} FilledMeans(mem: seq<u16>, size: nat, base: nat, ws: seq<u16>)
    requires size > 0 && size % 2 == 0 && base % 2 == 0 && 2 * |ws| <= size
    ensures var m := Filled(mem, size, base, false, ws);
            && (forall k | 0 <= k < |ws| ::
                  Addr(size, base, false, k) / 2 < |mem| ==> m[Addr(size, base, false, k) / 2] == ws[k])
            && (forall a | 0 <= a < |mem| ::
                  (forall k | 0 <= k < |ws| :: Addr(size, base, false, k) / 2 != a) ==> m[a] == mem[a])
  {
    if ws != [] {
      var n := |ws| - 1;
      FilledMeans(mem, size, base, ws[..n]);
      forall k | 0 <= k < n
        ensures Addr(size, base, false, k) / 2 != Addr(size, base, false, n) / 2
      {
        AddrsDiffer(size, base, k, n);
      }
    }
  }

  lemma AddrsDiffer(size: nat, base: nat, k: nat, n: nat)
    requires size > 0 && size % 2 == 0 && base % 2 == 0 && k < n && 2 * n < size + 2 * k
    ensures Addr(size, base, false, k) / 2 != Addr(size, base, false, n) / 2
  {
    var x, y := base + 2 * k, base + 2 * n;
    EvenRemainder(size, x);
    EvenRemainder(size, y);
    if x % size == y % size {
      var d := y / size - x / size;
      assert y - x == d * size;
      assert d >= 1;
      MulMonotone(size, 1, d);
    }
  }

  lemma EvenRemainder(size: nat, x: nat)
    requires size > 0 && size % 2 == 0 && x % 2 == 0
    ensures x % size % 2 == 0
  {
    var q, h := x / size, size / 2;
    assert q * size == 2 * (q * h);
    var y := x / 2 - q * h;
    assert x % size == 2 * y;
  }

  // Stepping an address by two, modulo the bus.
  lemma NextAddr(size: nat, base: nat, k: nat)
    requires size > 0
    ensures (Addr(size, base, false, k) + 2) % size == Addr(size, base, false, k + 1)
  {
    var x := base + 2 * k;
    var q, r := x / size, x % size;
    var q', r' := (r + 2) / size, (r + 2) % size;
    assert x + 2 == q * size + (r + 2);
    assert (q + q') * size == q * size + q' * size;
    DivModUnique(x + 2, size, q + q', r');
  }

  // ---- Transfers ----

  datatype Fnc = Read | Write | WriteCheck

  function Positive(x: int): (r: nat)
    ensures r == if x > 0 then x else 0
  {
    if x > 0 then x else 0
  }

  // The words that a transfer puts on the disk.
  function Over(fnc: Fnc, ws: seq<u16>): seq<u16> {
    if fnc.Write? then ws else []
  }

  // The word counter after n words.
  function Counted(wc: u16, n: nat): u16 {
    (wc + n) % 0x1_0000
  }

  lemma CountStep(wc: u16, n: nat)
    ensures Counted(wc, 0) == wc && Counted(Counted(wc, n), 1) == Counted(wc, n + 1)
  {
  }

  // What a transfer of i words has moved.
  ghost predicate Moved(fnc: Fnc, size: nat, inhibit: bool, mem0: seq<u16>, disk0: seq<u16>, base: nat, s: nat,
                        ws: seq<u16>)
    requires size > 0
  {
    && (!fnc.Read? ==> forall k | 0 <= k < |ws| ::
          Addr(size, base, inhibit, k) / 2 < |mem0| && ws[k] == mem0[Addr(size, base, inhibit, k) / 2])
    && (!fnc.Write? ==> forall k | 0 <= k < |ws| :: ws[k] == Flat(disk0, s + k))
  }

  lemma MovedNone(fnc: Fnc, size: nat, inhibit: bool, mem0: seq<u16>, disk0: seq<u16>, base: nat, s: nat)
    requires size > 0
    ensures Moved(fnc, size, inhibit, mem0, disk0, base, s, [])
  {
  }

  lemma MovedStep(fnc: Fnc, size: nat, inhibit: bool, mem0: seq<u16>, disk0: seq<u16>, base: nat, s: nat,
                  ws: seq<u16>, w: u16)
    requires size > 0
    requires Moved(fnc, size, inhibit, mem0, disk0, base, s, ws)
    requires var a := Addr(size, base, inhibit, |ws|) / 2; !fnc.Read? ==> a < |mem0| && w == mem0[a]
    requires !fnc.Write? ==> w == Flat(disk0, s + |ws|)
    ensures Moved(fnc, size, inhibit, mem0, disk0, base, s, ws + [w])
  {
    hide Addr;
  }

  lemma DirectBase(size: nat, a: nat)
    requires a < size
    ensures forall inhibit :: Addr(size, a, inhibit, 0) == a
  {
  }

  lemma SameDisk(disk: seq<u16>, s: nat, fnc: Fnc)
    ensures Over(fnc, []) == [] && Refines(disk, disk, s, [])
  {
  }

  // A disk image and the memory it exchanges words with.
  class Channel {
    var disk: seq<u16>
    var mem: seq<u16>
    var noMemory: bool
    var mismatch: bool

    constructor (disk: seq<u16>, mem: seq<u16>)
      ensures this.disk == disk && this.mem == mem && !noMemory && !mismatch
    {
      this.disk, this.mem, noMemory, mismatch := disk, mem, false, false;
    }

    // The sector buffer is made to hold sector idx, after the old one has been written
    // out if it was dirty. The view of the flat disk holds where the sectors of the
    // transfer follow each other.
    method EnsureSector(buf: array<u16>, valid: bool, dirty: bool, lba: nat, idx: nat, ghost good: bool,
                        ghost before: seq<u16>, ghost s: nat, ghost ws: seq<u16>)
      returns (dirty': bool)
      requires buf.Length == 256 && (dirty ==> valid)
      requires good ==> Stands(disk, valid, dirty, lba, buf[..], before, s, ws)
      modifies `disk, buf
      ensures good ==> Stands(disk, true, dirty', idx, buf[..], before, s, ws)
      ensures dirty' ==> dirty && valid && lba == idx
      ensures !dirty ==> disk == old(disk)
    {
      hide Replaced, Flat;
      dirty' := dirty;
      if !valid || lba != idx {
        if dirty {
          if good {
            Flush(disk, lba, buf[..], before, s, ws);
          }
          disk := WriteSector(disk, lba, buf[..]);
          dirty' := false;
        }
        if good {
          Load(disk, valid, lba, buf[..], idx, before, s, ws);
        }
        var sector := ReadSector(disk, idx);
        forall j | 0 <= j < 256 {
          buf[j] := sector[j];
        }
        assert buf[..] == sector;
      }
    }

    // One word between the sector buffer and memory. A write puts it in the buffer, a
    // read in memory, and a check compares the two.
    method MoveWord(fnc: Fnc, buf: array<u16>, dirty: bool, lba: nat, off: nat, address: nat, ghost good: bool,
                    ghost before: seq<u16>, ghost s: nat, ghost ws: seq<u16>)
      returns (ok: bool, dirty': bool, ghost w: u16)
      requires buf.Length == 256 && off < 256
      requires good ==> s + |ws| == 256 * lba + off && Stands(disk, true, dirty, lba, buf[..], before, s, Over(fnc, ws))
      modifies `mem, `noMemory, `mismatch, buf
      ensures good ==> Stands(disk, true, dirty', lba, buf[..], before, s, Over(fnc, if ok then ws + [w] else ws))
      ensures dirty' ==> dirty || fnc.Write?
      ensures var a := address / 2;
              && noMemory == (old(noMemory) || a >= |old(mem)|)
              && (ok ==> a < |old(mem)| && mismatch == old(mismatch))
              && (!ok ==> a >= |old(mem)| || (fnc.WriteCheck? && mismatch))
              && (!ok && a >= |old(mem)| ==> mismatch == old(mismatch))
              && (good && !ok && a < |old(mem)| ==> old(mem)[a] != Flat(before, s + |ws|))
              && mem == (if fnc.Read? && ok then old(mem)[a := w] else old(mem))
              && (ok && !fnc.Read? ==> w == old(mem)[a])
              && (good && ok && !fnc.Write? ==> w == Flat(before, s + |ws|))
    {
      hide Stands;
      dirty' := dirty;
      if good {
        BufferWord(disk, dirty, lba, buf[..], before, s, Over(fnc, ws), off);
      }
      w := buf[off];
      var a := address / 2;
      if a >= |mem| {
        noMemory := true;
        return false, dirty', w;
      }
      ok := true;
      match fnc
      case Read =>
        mem := mem[a := buf[off]];
      case Write =>
        if good {
          Put(disk, dirty, lba, buf[..], before, s, ws, off, mem[a]);
        }
        ghost var was := buf[..];
        buf[off] := mem[a];
        assert buf[..] == was[off := mem[a]];
        dirty', w := true, mem[a];
      case WriteCheck =>
        if mem[a] != buf[off] {
          mismatch := true;
          ok := false;
        }
    }

    // At the end of a transfer or of a sector, a dirty buffer goes to the disk.
    method WriteBack(buf: array<u16>, valid: bool, dirty: bool, lba: nat, ghost good: bool,
                     ghost before: seq<u16>, ghost s: nat, ghost ws: seq<u16>)
      requires buf.Length == 256 && (dirty ==> valid)
      requires good ==> Stands(disk, valid, dirty, lba, buf[..], before, s, ws)
      modifies `disk
      ensures good ==> Refines(disk, before, s, ws) && Stands(disk, false, false, 0, buf[..], before, s, ws)
      ensures !dirty ==> disk == old(disk)
    {
      hide Stands, Replaced, Refines;
      if dirty {
        if good {
          Flush(disk, lba, buf[..], before, s, ws);
        }
        disk := WriteSector(disk, lba, buf[..]);
      }
      if good {
        Drop(disk, valid, lba, buf[..], 0, before, s, ws);
      }
    }
  }
}
