// The BK-0010 tape reader: strobes out of a raw recording, the adaptive threshold,
// and the decoding of a recorded image.
module TapeRead {
  import opened Arith
  import opened TapeWave

  function WordAt(data: seq<u8>, pos: nat): u16
    requires pos + 1 < |data|
  {
    var hi: int, lo: int := data[pos], data[pos + 1];
    hi * 0x100 + lo
  }

  function StrobeOf(c: u16): Strobe {
    Strobe(c >= 0x8000, c % 0x8000)
  }

  // 16-bit addition.
  function Plus(a: u16, b: u16): u16 {
    var s: int := a + b;
    if s >= 0x1_0000 then s - 0x1_0000 else s
  }

  // The strobes that can still be read: the one that was read ahead comes first, and
  // a strobe of one tick or less is joined with its neighbours.
  function StrobesFrom(data: seq<u8>, pos: nat, ahead: u16): seq<Strobe>
    decreases |data| - pos
  {
    if pos + 1 >= |data| then []
    else
      var c := WordAt(data, pos);
      if c % 0x8000 > 1 then [StrobeOf(ahead)] + StrobesFrom(data, pos + 2, c)
      else if pos + 3 >= |data| then []
      else StrobesFrom(data, pos + 4, Plus(Plus(ahead, 1), WordAt(data, pos + 2) % 0x8000))
  }

  predicate AllLong(s: seq<Strobe>) {
    forall i | 0 <= i < |s| :: 1 < s[i].len < 0x8000
  }

  function CodeOf(s: Strobe): (c: u16)
    requires s.len < 0x8000
    ensures StrobeOf(c) == s && c % 0x8000 == s.len
  {
    s.len + if s.val then 0x8000 else 0
  }

  lemma WordIsCode(buf: seq<u8>, strobes: seq<Strobe>, i: nat)
    requires Encodes(buf, strobes) && i < |strobes|
    ensures WordAt(buf, 2 * i) == CodeOf(strobes[i])
  {
    assert buf[2 * i] == HighByte(strobes[i]) && buf[2 * i + 1] == LowByte(strobes[i]);
  }

  // The reader gives back what was written, one strobe late: first the empty strobe
  // it starts with, and never the last.
  lemma {:induction false} ReadBack(buf: seq<u8>, strobes: seq<Strobe>, i: nat, ahead: u16)
    requires Encodes(buf, strobes) && AllLong(strobes) && i < |strobes|
    ensures StrobesFrom(buf, 2 * i, ahead) == [StrobeOf(ahead)] + strobes[i..|strobes| - 1]
    decreases |strobes| - i
  {
    WordIsCode(buf, strobes, i);
    assert StrobesFrom(buf, 2 * i, ahead)
        == [StrobeOf(ahead)] + StrobesFrom(buf, 2 * (i + 1), CodeOf(strobes[i]));
    if i + 1 < |strobes| {
      ReadBack(buf, strobes, i + 1, CodeOf(strobes[i]));
      assert [strobes[i]] + strobes[i + 1..|strobes| - 1] == strobes[i..|strobes| - 1];
    }
  }

  // ---- Shapes of a recording ----

  // The unit lengths for which every strobe fits in one word and none is a glitch.
  predicate Unit(t: nat) {
    2 <= t <= 4095
  }

  lemma PulseShape(t: nat, k: nat)
    requires Unit(t) && 1 <= k <= 8
    ensures Pulse(true, k * t) == [Strobe(true, k * t)] && Pulse(false, k * t) == [Strobe(false, k * t)]
  {
    assert 0 < k * t <= 0x7FFF by {
      MulMonotone(k, t, 4095);
      MulMonotone(k, 2, t);
    }
  }

  lemma BitShape(t: nat, one: bool)
    requires Unit(t)
    ensures var w := if one then 2 * t else t;
            BitStrobes(t, one) == [Strobe(true, w), Strobe(false, w), Strobe(true, t), Strobe(false, t)]
  {
    PulseShape(t, 1);
    PulseShape(t, 2);
  }

  lemma {:induction false} TuneShape(t: nat, count: nat)
    requires Unit(t)
    ensures |Tune(t, count)| == 2 * count
    ensures forall i | 0 <= i < 2 * count :: Tune(t, count)[i] == Strobe(i % 2 == 0, t)
  {
    if count > 0 {
      TuneShape(t, count - 1);
      PulseShape(t, 1);
    }
  }

  lemma {:induction false} BitsLong(t: nat, b: nat, n: nat)
    requires Unit(t)
    ensures AllLong(BitsFrom(t, b, n)) && |BitsFrom(t, b, n)| == 4 * n
  {
    if n > 0 {
      BitShape(t, b % 2 == 1);
      BitsLong(t, b / 2, n - 1);
    }
  }

  lemma {:induction false} ArrayLong(t: nat, bytes: seq<u8>)
    requires Unit(t)
    ensures AllLong(Array(t, bytes))
  {
    if bytes != [] {
      BitsLong(t, bytes[0], 8);
      ArrayLong(t, bytes[1..]);
    }
  }

  lemma OutmShape(t: nat)
    requires Unit(t)
    ensures Outm(t) == [Strobe(true, 4 * t), Strobe(false, 4 * t)]
  {
    PulseShape(t, 4);
  }

  lemma GapLong(t: nat)
    requires Unit(t)
    ensures AllLong(Gap(t))
  {
    TuneShape(t, 8);
    OutmShape(t);
    BitShape(t, true);
  }

  lemma SyncLong(t: nat, count: nat)
    requires Unit(t)
    ensures AllLong(Sync(t, count)) && |Sync(t, count)| >= 2
  {
    PulseShape(t, 8);
    TuneShape(t, count);
    OutmShape(t);
    BitShape(t, true);
  }

  lemma JoinLong(a: seq<Strobe>, b: seq<Strobe>)
    requires AllLong(a) && AllLong(b)
    ensures AllLong(a + b)
  {
  }

  lemma WaveformLong(t: nat, addr: u16, name: seq<u8>, payload: seq<u8>, c: u16)
    requires Unit(t) && |payload| < 0x1_0000
    ensures AllLong(Waveform(t, addr, name, payload, c))
  {
    var header := WordBytes(addr) + WordBytes(|payload|) + name;
    var check := WordBytes(c);
    SyncLong(t, 4096);
    SyncLong(t, 256);
    GapLong(t);
    ArrayLong(t, header);
    ArrayLong(t, payload);
    ArrayLong(t, check);
    JoinLong(Gap(t), Array(t, header));
    JoinLong(Gap(t), Array(t, payload));
    JoinLong(Sync(t, 4096), Gap(t) + Array(t, header));
    JoinLong(Sync(t, 4096) + (Gap(t) + Array(t, header)), Gap(t) + Array(t, payload));
    JoinLong(Sync(t, 4096) + (Gap(t) + Array(t, header)) + (Gap(t) + Array(t, payload)), Array(t, check));
    JoinLong(Sync(t, 4096) + (Gap(t) + Array(t, header)) + (Gap(t) + Array(t, payload)) + Array(t, check),
             Sync(t, 256));
  }

  // ---- The reader ----

  // The first strobe at level p.
  function First(s: seq<Strobe>, p: bool): (i: nat)
    ensures i <= |s|
  {
    if s == [] || s[0].val == p then 0 else 1 + First(s[1..], p)
  }

  function Max(a: nat, b: nat): nat {
    if a > b then a else b
  }

  // The width of a bit cell of four strobes.
  function Width(s: seq<Strobe>): nat
    requires |s| >= 4
  {
    Max(s[0].len, s[2].len) + Max(s[1].len, s[3].len)
  }

  class Reader {
    const data: seq<u8>
    var pos: nat
    var ahead: u16

    ghost function Rest(): seq<Strobe>
      reads this
    {
      StrobesFrom(data, pos, ahead)
    }

    constructor (data: seq<u8>)
      ensures this.data == data && Rest() == StrobesFrom(data, 0, 0)
    {
      this.data := data;
      pos := 0;
      ahead := 0;
    }

    // tape_raw_get_strobe
    method GetStrobe() returns (ok: bool, len: nat, val: bool)
      modifies this
      ensures ok == (old(Rest()) != [])
      ensures ok ==> Strobe(val, len) == old(Rest())[0] && Rest() == old(Rest())[1..]
      ensures !ok ==> Rest() == []
    {
      while pos + 1 < |data|
        invariant Rest() == old(Rest())
        decreases |data| - pos
      {
        var c := WordAt(data, pos);
        pos := pos + 2;
        if c % 0x8000 > 1 {
          ok, len, val := true, ahead % 0x8000, ahead >= 0x8000;
          ahead := c;
          return;
        }
        ahead := Plus(ahead, 1);
        if pos + 1 >= |data| {
          break;
        }
        ahead := Plus(ahead, WordAt(data, pos) % 0x8000);
        pos := pos + 2;
      }
      ok, len, val := false, 0, false;
    }

    // tape_read_bit_raw: the width of the next cell that starts at level p.
    method ReadBit(p: bool) returns (ok: bool, width: nat)
      modifies this
      ensures var i := First(old(Rest()), p);
              && ok == (i + 4 <= |old(Rest())|)
              && (ok ==> width == Width(old(Rest())[i..]) && Rest() == old(Rest())[i + 4..])
      ensures |Rest()| <= |old(Rest())|
    {
      hide StrobesFrom, First;
      width := 0;
      var len1, len2, len3, len4;
      var val;
      ok, len1 := SkipToLevel(p);
      if !ok {
        return;
      }
      ok, len2, val := GetStrobe();
      if !ok {
        return;
      }
      ok, len3, val := GetStrobe();
      if !ok {
        return;
      }
      ok, len4, val := GetStrobe();
      if !ok {
        return;
      }
      width := Max(len1, len3) + Max(len2, len4);
    }

    // The next strobe at level p.
    method SkipToLevel(p: bool) returns (ok: bool, len: nat)
      modifies this
      ensures var i := First(old(Rest()), p);
              && ok == (i < |old(Rest())|)
              && (ok ==> len == old(Rest())[i].len && Rest() == old(Rest())[i + 1..])
      ensures |Rest()| <= |old(Rest())|
      ensures First(old(Rest()), p) <= |old(Rest())|
    {
      hide StrobesFrom;
      ghost var was := Rest();
      ghost var i := 0;
      var val;
      ok, len, val := GetStrobe();
      while ok && val != p
        invariant i <= First(was, p) <= |was|
        invariant ok ==> i < |was| && Rest() == was[i + 1..] && Strobe(val, len) == was[i]
        invariant ok ==> First(was, p) == i + First(was[i..], p)
        invariant !ok ==> First(was, p) == |was| && Rest() == []
        decreases ok, |Rest()|
      {
        i := i + 1;
        assert was[i - 1..][1..] == was[i..];
        ok, len, val := GetStrobe();
      }
    }

    // ReadBit, with what it gives inside a tune.
    method ReadCell(p: bool, ghost s: seq<Strobe>, ghost t: nat, ghost q: bool, ghost n: nat, ghost k0: nat)
      returns (ok: bool, width: nat, ghost k: nat)
      requires k0 <= |s| && Rest() == s[k0..]
      modifies this
      ensures ok ==> k <= |s| && Rest() == s[k..]
      ensures InTune(s, t, q, n) && 2 <= k0 && k0 + 5 <= n + 2 && (s[k0].val == p || k0 + 5 < n + 2) ==>
                && ok && width == 2 * t
                && k == (k0 + 4 + if s[k0].val == p then 0 else 1) && s[k].val == p
    {
      hide StrobesFrom, Width;
      if InTune(s, t, q, n) && 2 <= k0 && k0 + 5 <= n + 2 && (s[k0].val == p || k0 + 5 < n + 2) {
        CellInTune(s, t, q, n, k0, p);
      }
      k := k0 + First(s[k0..], p) + 4;
      ok, width := ReadBit(p);
      if ok {
        Drop(s, k0, k - k0);
      }
    }

    // The 128 cells of tape_find_header: the threshold is half as much again as their
    // mean width.
    method Measure(p: bool, ghost s: seq<Strobe>, ghost t: nat, ghost q: bool, ghost n: nat, ghost k0: nat)
      returns (ok: bool, threshold: nat, ghost k: nat)
      requires k0 <= |s| && Rest() == s[k0..]
      modifies this
      ensures ok ==> k <= |s| && Rest() == s[k..]
      ensures InTune(s, t, q, n) && 2 <= k0 && k0 + 514 <= n + 2 && s[k0].val != p ==>
                ok && threshold == 3 * t && k == k0 + 513
    {
      ghost var good := InTune(s, t, q, n) && 2 <= k0 && k0 + 514 <= n + 2 && s[k0].val != p;
      ghost var w := 2 * t;
      k := k0;
      threshold := 0;
      var sum := 0;
      for i := 0 to 128
        invariant k <= |s| && Rest() == s[k..]
        invariant good ==> k == (if i == 0 then k0 else k0 + 1 + 4 * i) && (i > 0 ==> s[k].val == p) && sum == i * w
      {
        var width;
        ok, width, k := ReadCell(p, s, t, q, n, k);
        if !ok {
          return;
        }
        sum := sum + width;
        assert (i + 1) * w == i * w + w;
      }
      sum := sum / 128;
      ok, threshold := true, sum + sum / 2;
    }

    // The strobes up to the end of the tune and the first one above the threshold.
    method SkipTune(threshold: nat, ghost s: seq<Strobe>, ghost t: nat, ghost q: bool, ghost n: nat, ghost k0: nat)
      returns (ok: bool, len: nat, p: bool, num: nat, ghost k: nat)
      requires k0 <= |s| && Rest() == s[k0..]
      modifies this
      ensures ok ==> k <= |s| && Rest() == s[k..] && num >= 1
      ensures InTune(s, t, q, n) && 2 <= k0 <= n + 2 && t < threshold && |s| > n + 2 && s[n + 2].len >= threshold ==>
                ok && k == n + 3 && num == n + 3 - k0 && Strobe(p, len) == s[n + 2]
    {
      ghost var good :=
        InTune(s, t, q, n) && 2 <= k0 <= n + 2 && t < threshold && |s| > n + 2 && s[n + 2].len >= threshold;
      ok, len, p := GetStrobe();
      num, k := 1, k0 + 1;
      while ok && len < threshold
        invariant ok ==> k <= |s| && Rest() == s[k..]
        invariant good ==> ok && k0 < k <= n + 3 && num == k - k0 && Strobe(p, len) == s[k - 1]
        decreases ok, |Rest()|
      {
        ok, len, p := GetStrobe();
        k := k + 1;
        num := num + 1;
      }
    }

    // The leader of tape_find_header: 2049 strobes none of which is much shorter than
    // the one before.
    method FindLeader(ghost s: seq<Strobe>, ghost t: nat, ghost q: bool, ghost n: nat)
      returns (ok: bool, val: bool, ghost k: nat)
      requires Rest() == s
      modifies this
      ensures ok ==> 0 < k <= |s| && Rest() == s[k..]
      ensures InTune(s, t, q, n) && n >= 2052 && s[0].len == 0 && s[1].len == 8 * t ==>
                ok && k == (if 7 * t > 150 then 2052 else 2049) && val == s[k - 1].val && s[k].val != val
    {
      ghost var good := InTune(s, t, q, n) && n >= 2052 && s[0].len == 0 && s[1].len == 8 * t;
      k := 0;
      val := false;
      var count: int, last: int := 0, 0;
      while count <= 2048
        invariant k <= |s| && Rest() == s[k..] && count <= k
        invariant good ==> Counted(t, k, count, last) && count <= 2049 && (k > 0 ==> val == s[k - 1].val)
        decreases |s| - k
      {
        var strobe;
        ok, strobe, val := GetStrobe();
        if !ok {
          return;
        }
        k := k + 1;
        var len: int := strobe;
        if last - len > 150 {
          count, last := 0, 0;
        } else {
          last := len;
          count := count + 1;
        }
      }
      ok := true;
    }

    // tape_find_header. On a lead of unit t that is long enough it finds the level at which
    // cells start and a threshold of exactly three units, and stops behind the lead. Long
    // enough are the strobes for finding it, one and 512 for measuring, and 97 more; from
    // the first two of these on, it tells exactly which lead is.
    method FindHeader(ghost t: nat, ghost q: bool, ghost n: nat) returns (ok: bool, p: bool, threshold: nat)
      modifies this
      ensures IsLead(old(Rest()), t, q, n) && n >= Found(t) + 512 ==>
                ok == (n >= Found(t) + 610)
                && (ok ==> p == q && threshold == 3 * t && Rest() == old(Rest())[n + 8..])
    {
      hide StrobesFrom, First;
      ghost var s := Rest();
      p, threshold := false, 0;
      ghost var k;
      ok, p, k := FindLeader(s, t, q, n);
      if !ok {
        return;
      }
      ok, threshold, k := Measure(p, s, t, q, n, k);
      if !ok {
        return;
      }
      var len, num;
      ok, len, p, num, k := SkipTune(threshold, s, t, q, n, k);
      if !ok {
        return;
      }
      if len > 2 * threshold || num < 100 {
        ok := false;
        return;
      }
      if IsLead(s, t, q, n) {
        Drop(s, n + 3, 5);
      }
      var _, _ := ReadBit(p);
    }

    // The gap in front of a block: up to the long strobe, and the cell behind it.
    method SkipGap(p: bool, threshold: nat, ghost t: nat, ghost tail: seq<Strobe>) returns (ok: bool)
      modifies this
      ensures Unit(t) && old(Rest()) == Level(Gap(t) + tail, p) && threshold == 3 * t ==> ok && Rest() == Level(tail, p)
    {
      ghost var s := Rest();
      ghost var good := Unit(t) && s == Level(Gap(t) + tail, p) && threshold == 3 * t;
      if good {
        GapShape(t, tail, p);
      }
      ghost var k := 0;
      var len: nat, val := 0, !p;
      while val != p || len < threshold
        invariant k <= |s| && Rest() == s[k..]
        invariant good ==> k <= 17 && (if k == 0 then val != p else Strobe(val, len) == s[k - 1])
        invariant good && k == 17 ==> val == p && len == 4 * t
        decreases |s| - k
      {
        ok, len, val := GetStrobe();
        if !ok {
          return;
        }
        k := k + 1;
      }
      if len > threshold * 2 {
        return false;
      }
      if good {
        Drop(s, 17, 5);
      }
      var width;
      ok, width := ReadBit(p);
    }

    // n cells, the lowest bit first: wider than the threshold is a one.
    method ReadBits(n: nat, p: bool, threshold: nat, ghost t: nat, ghost b: nat, ghost tail: seq<Strobe>)
      returns (ok: bool, v: nat)
      modifies this
      ensures ok ==> v < Pow2(n)
      ensures Unit(t) && b < Pow2(n) && old(Rest()) == Level(BitsFrom(t, b, n) + tail, p) && threshold == 3 * t ==>
                ok && v == b && Rest() == Level(tail, p)
    {
      hide StrobesFrom, Width, First, BitStrobes, Level;
      ghost var good := Unit(t) && b < Pow2(n) && Rest() == Level(BitsFrom(t, b, n) + tail, p) && threshold == 3 * t;
      ghost var cur := b;
      var weight := 1;
      v := 0;
      for i := 0 to n
        invariant weight == Pow2(i) && v < weight
        invariant good ==> Rest() == Level(BitsFrom(t, cur, n - i) + tail, p) && b == v + weight * cur
      {
        if good {
          CellOf(t, cur, n - i, tail, p);
        }
        var width;
        ok, width := ReadBit(p);
        if !ok {
          return;
        }
        if good {
          BitMoves(b, v, weight, cur);
          cur := cur / 2;
        }
        if width > threshold {
          v := v + weight;
        }
        weight := 2 * weight;
      }
      ok := true;
      if good && cur > 0 {
        MulAtLeast(cur, weight);
      }
      assert good ==> BitsFrom(t, cur, 0) + tail == tail;
    }

    // The bytes of a block.
    method ReadBytes(n: nat, p: bool, threshold: nat, ghost t: nat, ghost bytes: seq<u8>, ghost tail: seq<Strobe>)
      returns (ok: bool, out: seq<u8>)
      modifies this
      ensures ok ==> |out| == n
      ensures Unit(t) && |bytes| == n && old(Rest()) == Level(Array(t, bytes) + tail, p) && threshold == 3 * t ==>
                ok && out == bytes && Rest() == Level(tail, p)
    {
      ghost var good := Unit(t) && |bytes| == n && Rest() == Level(Array(t, bytes) + tail, p) && threshold == 3 * t;
      out := [];
      assert good ==> bytes[0..] == bytes;
      for i := 0 to n
        invariant |out| == i
        invariant good ==> out == bytes[..i] && Rest() == Level(Array(t, bytes[i..]) + tail, p)
      {
        ghost var b, rest := 0, [];
        if good {
          b, rest := bytes[i], Array(t, bytes[i + 1..]) + tail;
          assert bytes[i..][0] == bytes[i] && bytes[i..][1..] == bytes[i + 1..];
          Assoc(BitsFrom(t, b, 8), Array(t, bytes[i + 1..]), tail);
        }
        var v;
        Pow2Small();
        ok, v := ReadBits(8, p, threshold, t, b, rest);
        if !ok {
          return;
        }
        out := out + [v];
      }
      ok := true;
      assert good ==> bytes[n..] == [] && [] + tail == tail && bytes[..n] == bytes;
    }
  }

  lemma GapShape(t: nat, tail: seq<Strobe>, p: bool)
    requires Unit(t)
    ensures var s := Level(Gap(t) + tail, p);
            && |s| == 22 + |tail|
            && (forall j | 0 <= j < 16 :: s[j] == Strobe((j % 2 == 0) == p, t))
            && s[16] == Strobe(p, 4 * t) && First(s[17..], p) == 1 && s[22..] == Level(tail, p)
  {
    TuneShape(t, 8);
    OutmShape(t);
    BitShape(t, true);
    var s := Level(Gap(t) + tail, p);
    assert s[17..][0] == s[17] == Strobe(!p, 4 * t);
    assert s[17..][1..][0] == s[18] == Strobe(p, 2 * t);
  }

  // The first cell of a number is its lowest bit.
  lemma CellOf(t: nat, b: nat, n: nat, tail: seq<Strobe>, p: bool)
    requires Unit(t) && n > 0
    ensures var s := Level(BitsFrom(t, b, n) + tail, p);
            && |s| >= 4 && First(s, p) == 0
            && Width(s) == (if b % 2 == 1 then 4 * t else 2 * t)
            && s[4..] == Level(BitsFrom(t, b / 2, n - 1) + tail, p)
  {
    var one, rest := b % 2 == 1, BitsFrom(t, b / 2, n - 1) + tail;
    BitShape(t, one);
    Assoc(BitStrobes(t, one), BitsFrom(t, b / 2, n - 1), tail);
    hide BitStrobes;
    var w := if one then 2 * t else t;
    CellHead(w, t, rest, p);
  }

  lemma CellHead(w: nat, t: nat, rest: seq<Strobe>, p: bool)
    requires w >= t
    ensures var s := Level([Strobe(true, w), Strobe(false, w), Strobe(true, t), Strobe(false, t)] + rest, p);
            |s| >= 4 && First(s, p) == 0 && Width(s) == 2 * w && s[4..] == Level(rest, p)
  {
    var cell := [Strobe(true, w), Strobe(false, w), Strobe(true, t), Strobe(false, t)];
    var s := Level(cell + rest, p);
    assert s[0] == Strobe(p, w) && s[1] == Strobe(!p, w) && s[2] == Strobe(p, t) && s[3] == Strobe(!p, t);
    assert s[4..] == Level(rest, p);
  }

  // Moving the lowest bit of the unread part to the read part.
  lemma BitMoves(b: nat, v: nat, weight: nat, cur: nat)
    requires b == v + weight * cur
    ensures b == (v + if cur % 2 == 1 then weight else 0) + (2 * weight) * (cur / 2)
  {
    var h := cur / 2;
    assert weight * (2 * h) == (2 * weight) * h;
    assert cur % 2 == 1 ==> weight * (2 * h + 1) == weight * (2 * h) + weight;
  }

  // The lead as the reader finds it: a tune, a long strobe at level q, and from the next
  // strobe of that level a cell.
  ghost predicate IsLead(s: seq<Strobe>, t: nat, q: bool, n: nat) {
    && Unit(t) && InTune(s, t, q, n) && |s| >= n + 8
    && s[0].len == 0 && s[1].len == 8 * t && s[n + 2] == Strobe(q, 4 * t)
    && First(s[n + 3..], q) == 1
  }

  // The strobes after which a lead is found.
  function Found(t: nat): nat {
    if 7 * t > 150 then 2052 else 2049
  }

  // A tune of n strobes behind the first two.
  ghost predicate InTune(s: seq<Strobe>, t: nat, q: bool, n: nat) {
    |s| >= n + 2 && forall j | 2 <= j < n + 2 :: s[j] == Strobe((j % 2 == 0) == q, t)
  }

  lemma Drop(s: seq<Strobe>, k: nat, m: nat)
    requires k + m <= |s|
    ensures s[k..][m..] == s[k + m..]
  {
  }

  // A cell read inside the tune starts at once or one strobe later, and is two units
  // wide.
  lemma CellInTune(s: seq<Strobe>, t: nat, q: bool, n: nat, k: nat, p: bool)
    requires InTune(s, t, q, n) && 2 <= k && k + 5 <= n + 2
    ensures First(s[k..], p) == if s[k].val == p then 0 else 1
    ensures var f := First(s[k..], p); Width(s[k..][f..]) == 2 * t
  {
    var r := s[k..];
    assert r[0] == s[k] && r[1] == s[k + 1] && r[2] == s[k + 2] && r[3] == s[k + 3] && r[4] == s[k + 4];
    assert r[1..][0] == r[1];
    assert First(r[1..], p) == if r[1].val == p then 0 else 1 + First(r[1..][1..], p);
  }

  // What FindLeader has counted after k strobes of a lead: the long first strobe
  // restarts the count when it is more than 150 ticks longer than the next.
  ghost predicate Counted(t: nat, k: nat, count: int, last: int) {
    if k < 3 then count == k && last == (if k == 2 then 8 * t else 0)
    else if 7 * t > 150 then count == k - 3 && last == (if k == 3 then 0 else t)
    else count == k && last == t
  }

  // A lead as the reader sees it.
  function Lead(t: nat, q: bool): seq<Strobe> {
    [Strobe(false, 0)] + Level(Sync(t, 4096), q)
  }

  lemma LeadIsLead(t: nat, tail: seq<Strobe>, q: bool)
    requires Unit(t)
    ensures IsLead(Lead(t, q) + tail, t, q, 8192) && (Lead(t, q) + tail)[8200..] == tail
  {
    var s := Lead(t, q) + tail;
    PulseShape(t, 8);
    TuneShape(t, 4096);
    OutmShape(t);
    BitShape(t, true);
    assert |Lead(t, q)| == 8200;
    assert s[8195..][0] == s[8195] == Strobe(!q, 4 * t);
    assert s[8195..][1..][0] == s[8196] == Strobe(q, 2 * t);
    assert InTune(s, t, q, 8192) by {
      LeadTune(t, tail, q);
    }
  }

  lemma LeadTune(t: nat, tail: seq<Strobe>, q: bool)
    requires Unit(t)
    ensures InTune(Lead(t, q) + tail, t, q, 8192)
  {
    PulseShape(t, 8);
    TuneShape(t, 4096);
    var a, tune, b, c := Pulse(true, 8 * t), Tune(t, 4096), Outm(t), BitStrobes(t, true);
    TuneInside([Strobe(false, 0)], a, tune, b, c, tail, t, q);
  }

  lemma TuneInside(z: seq<Strobe>, a: seq<Strobe>, tune: seq<Strobe>, b: seq<Strobe>, c: seq<Strobe>,
                   tail: seq<Strobe>, t: nat, q: bool)
    requires |z| == |a| == 1 && |tune| == 8192
    requires forall i | 0 <= i < 8192 :: tune[i] == Strobe(i % 2 == 0, t)
    ensures InTune(z + Level(a + tune + b + c, q) + tail, t, q, 8192)
  {
    var s := z + Level(a + tune + b + c, q) + tail;
    forall j | 2 <= j < 8194
      ensures s[j] == Strobe((j % 2 == 0) == q, t)
    {
      assert (a + tune + b + c)[j - 1] == tune[j - 2];
      assert s[j] == Level(a + tune + b + c, q)[j - 1];
    }
  }
}
