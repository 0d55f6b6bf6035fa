// The BK-0010 tape waveform: a program image as a sequence of strobes, and the
// writer that appends it to a byte buffer, two bytes a strobe.
module TapeWave {
  import opened Arith

  // A level held for a number of ticks.
  datatype Strobe = Strobe(val: bool, len: nat)

  // A duration that does not fit in 15 bits is written as several strobes.
  function Chunks(val: bool, d: nat): seq<Strobe> {
    if d == 0 then []
    else if d > 0x7FFF then [Strobe(val, 0x7FFF)] + Chunks(val, d - 0x7FFF)
    else [Strobe(val, d)]
  }

  // Durations are passed as 16-bit numbers.
  function Pulse(val: bool, d: nat): seq<Strobe> {
    Chunks(val, d % 0x1_0000)
  }

  function Si(t: nat): seq<Strobe> {
    Pulse(true, t) + Pulse(false, t)
  }

  function BitStrobes(t: nat, one: bool): seq<Strobe> {
    var w := if one then 2 * t else t;
    Pulse(true, w) + Pulse(false, w) + Si(t)
  }

  function Outm(t: nat): seq<Strobe> {
    Pulse(true, 4 * t) + Pulse(false, 4 * t)
  }

  function Tune(t: nat, count: nat): seq<Strobe> {
    if count == 0 then [] else Tune(t, count - 1) + Si(t)
  }

  // The low n bits of b, lowest first.
  function BitsFrom(t: nat, b: nat, n: nat): seq<Strobe> {
    if n == 0 then [] else BitStrobes(t, b % 2 == 1) + BitsFrom(t, b / 2, n - 1)
  }

  function Array(t: nat, bytes: seq<u8>): seq<Strobe> {
    if bytes == [] then [] else BitsFrom(t, bytes[0], 8) + Array(t, bytes[1..])
  }

  // The gap in front of a block.
  function Gap(t: nat): seq<Strobe> {
    Tune(t, 8) + Outm(t) + BitStrobes(t, true)
  }

  lemma Assoc<T>(a: seq<T>, b: seq<T>, c: seq<T>)
    ensures (a + b) + c == a + (b + c)
  {
  }

  // The checksum: a sum of bytes with the carry out of 16 bits added back in.
  function Checksum(data: seq<u8>): (r: u16) {
    if data == [] then 0
    else
      var sum := Checksum(data[..|data| - 1]) + data[|data| - 1];
      if sum >= 0x1_0000 then sum - 0xFFFF else sum
  }

  function WordBytes(w: u16): seq<u8> {
    [w % 0x100, w / 0x100]
  }

  // The synchronisation in front of a recording and behind it.
  function Sync(t: nat, count: nat): seq<Strobe> {
    Pulse(true, 8 * t) + Tune(t, count) + Outm(t) + BitStrobes(t, true)
  }

  // Words are recorded with their low byte first, and so stand in an image.
  lemma LowByteFirst(lo: u8, hi: u8)
    ensures WordBytes(lo + 0x100 * hi) == [lo, hi] && ImageWord([lo, hi], 0) == lo + 0x100 * hi
  {
    DivModUnique(lo + 0x100 * hi, 0x100, hi, lo);
  }

  // A strobe is a big-endian word with its level in the top bit.
  lemma StrobeWord(s: Strobe)
    requires s.len < 0x8000
    ensures HighByte(s) * 0x100 + LowByte(s) == s.len + if s.val then 0x8000 else 0
  {
  }

  // A recording with c in the place of the checksum.
  function Waveform(t: nat, addr: u16, name: seq<u8>, payload: seq<u8>, c: u16): seq<Strobe>
    requires |payload| < 0x1_0000
  {
    Sync(t, 4096)
    + (Gap(t) + Array(t, WordBytes(addr) + WordBytes(|payload|) + name))
    + (Gap(t) + Array(t, payload))
    + Array(t, WordBytes(c))
    + Sync(t, 256)
  }

  // The same recording, or with its levels exchanged: p is the level that starts a cell.
  function Level(s: seq<Strobe>, p: bool): (r: seq<Strobe>)
    ensures |r| == |s| && forall i | 0 <= i < |s| :: r[i] == Strobe(s[i].val == p, s[i].len)
    ensures p ==> r == s
  {
    seq(|s|, i requires 0 <= i < |s| => Strobe(s[i].val == p, s[i].len))
  }

  // ---- The buffer ----

  function HighByte(s: Strobe): u8
    requires s.len < 0x8000
  {
    s.len / 0x100 + if s.val then 0x80 else 0
  }

  function LowByte(s: Strobe): u8 {
    s.len % 0x100
  }

  ghost predicate Encodes(buf: seq<u8>, strobes: seq<Strobe>) {
    && |buf| == 2 * |strobes|
    && forall i | 0 <= i < |strobes| ::
         strobes[i].len < 0x8000 && buf[2 * i] == HighByte(strobes[i]) && buf[2 * i + 1] == LowByte(strobes[i])
  }

  // What is put in the name field: the raw name padded with zeros, or else the text
  // padded with blanks or zeros, cut to sixteen bytes.
  function NameField(raw: seq<u8>, text: Option<seq<u8>>, padSpace: bool): (n: seq<u8>)
    ensures |n| == 16
    ensures forall i | 0 <= i < 16 :: n[i] ==
              if raw != [] then (if i < |raw| then raw[i] else 0)
              else if text.Some? then (if i < |text.value| then text.value[i] else Fill(padSpace))
              else 0
  {
    if |raw| > 0 then Padded(raw, 0)
    else
      match text
      case None => Padded([], 0)
      case Some(s) => Padded(s, Fill(padSpace))
  }

  function Fill(padSpace: bool): u8 {
    if padSpace then 0x20 else 0
  }

  function Padded(s: seq<u8>, fill: u8): (n: seq<u8>)
    ensures |n| == 16 && forall i | 0 <= i < 16 :: n[i] == if i < |s| then s[i] else fill
  {
    seq(16, i requires 0 <= i < 16 => if i < |s| then s[i] else fill)
  }

  // A field without its padding.
  function Stripped(n: seq<u8>, fill: u8): (s: seq<u8>)
    ensures s <= n && (s == [] || s[|s| - 1] != fill)
  {
    if n == [] || n[|n| - 1] != fill then n else Stripped(n[..|n| - 1], fill)
  }

  // A name can be read off its field if and only if it fits and does not end in padding.
  lemma NameRecovered(name: seq<u8>, padSpace: bool)
    ensures Stripped(NameField([], Some(name), padSpace), Fill(padSpace)) == name
       <==> |name| <= 16 && (name == [] || name[|name| - 1] != Fill(padSpace))
  {
    var n := NameField([], Some(name), padSpace);
    if |name| <= 16 && (name == [] || name[|name| - 1] != Fill(padSpace)) {
      StripTo(n, name, Fill(padSpace));
    }
  }

  lemma {:induction false} StripTo(n: seq<u8>, name: seq<u8>, fill: u8)
    requires name <= n && (name == [] || name[|name| - 1] != fill)
    requires forall i | |name| <= i < |n| :: n[i] == fill
    ensures Stripped(n, fill) == name
  {
    if |n| > |name| {
      StripTo(n[..|n| - 1], name, fill);
    }
  }

  class Writer {
    var synch: nat
    var buf: seq<u8>
    ghost var strobes: seq<Strobe>

    ghost predicate Valid()
      reads this
    {
      Encodes(buf, strobes)
    }

    constructor (synch: nat)
      ensures Valid() && strobes == [] && this.synch == synch
    {
      this.synch := synch;
      buf := [];
      strobes := [];
    }

    // tape_in_append
    method Append(val: bool, duration: u16)
      requires Valid()
      modifies this`buf, this`strobes
      ensures Valid() && strobes == old(strobes) + Chunks(val, duration)
    {
      var d: nat := duration;
      while d != 0
        invariant Valid()
        invariant strobes + Chunks(val, d) == old(strobes) + Chunks(val, duration)
      {
        var chunk := if d > 0x7FFF then 0x7FFF else d;
        var b1: u8 := chunk / 0x100;
        if val {
          b1 := b1 + 0x80;
        }
        buf := buf + [b1, chunk % 0x100];
        ghost var s := Strobe(val, chunk);
        assert strobes + ([s] + Chunks(val, d - chunk)) == strobes + [s] + Chunks(val, d - chunk);
        strobes := strobes + [s];
        d := d - chunk;
      }
    }

    method PutSi()
      requires Valid()
      modifies this`buf, this`strobes
      ensures Valid() && strobes == old(strobes) + Si(synch)
    {
      Append(true, synch % 0x1_0000);
      Append(false, synch % 0x1_0000);
    }

    method PutBit(one: bool)
      requires Valid()
      modifies this`buf, this`strobes
      ensures Valid() && strobes == old(strobes) + BitStrobes(synch, one)
    {
      var w := if one then 2 * synch else synch;
      Append(true, w % 0x1_0000);
      Append(false, w % 0x1_0000);
      PutSi();
    }

    method PutInm()
      requires Valid()
      modifies this`buf, this`strobes
      ensures Valid() && strobes == old(strobes) + Pulse(true, 8 * synch)
    {
      Append(true, 8 * synch % 0x1_0000);
    }

    method PutOutm()
      requires Valid()
      modifies this`buf, this`strobes
      ensures Valid() && strobes == old(strobes) + Outm(synch)
    {
      Append(true, 4 * synch % 0x1_0000);
      Append(false, 4 * synch % 0x1_0000);
    }

    method PutTune(count: nat)
      requires Valid()
      modifies this`buf, this`strobes
      ensures Valid() && strobes == old(strobes) + Tune(synch, count)
    {
      for i := 0 to count
        invariant Valid() && strobes == old(strobes) + Tune(synch, i)
      {
        PutSi();
      }
    }

    method PutByte(b: u8)
      requires Valid()
      modifies this`buf, this`strobes
      ensures Valid() && strobes == old(strobes) + BitsFrom(synch, b, 8)
    {
      var rest: nat := b;
      for i := 0 to 8
        invariant Valid()
        invariant strobes + BitsFrom(synch, rest, 8 - i) == old(strobes) + BitsFrom(synch, b, 8)
      {
        Assoc(strobes, BitStrobes(synch, rest % 2 == 1), BitsFrom(synch, rest / 2, 7 - i));
        PutBit(rest % 2 == 1);
        rest := rest / 2;
      }
    }

    method PutArray(bytes: seq<u8>)
      requires Valid()
      modifies this`buf, this`strobes
      ensures Valid() && strobes == old(strobes) + Array(synch, bytes)
    {
      for i := 0 to |bytes|
        invariant Valid()
        invariant strobes + Array(synch, bytes[i..]) == old(strobes) + Array(synch, bytes)
      {
        assert bytes[i..][1..] == bytes[i + 1..];
        Assoc(strobes, BitsFrom(synch, bytes[i], 8), Array(synch, bytes[i + 1..]));
        PutByte(bytes[i]);
      }
    }

    method PutGap()
      requires Valid()
      modifies this`buf, this`strobes
      ensures Valid() && strobes == old(strobes) + Gap(synch)
    {
      ghost var a, b, c := Tune(synch, 8), Outm(synch), BitStrobes(synch, true);
      Assoc(strobes, a, b);
      Assoc(strobes, a + b, c);
      PutTune(8);
      PutOutm();
      PutBit(true);
    }

    method PutBlock(bytes: seq<u8>)
      requires Valid()
      modifies this`buf, this`strobes
      ensures Valid() && strobes == old(strobes) + (Gap(synch) + Array(synch, bytes))
    {
      Assoc(strobes, Gap(synch), Array(synch, bytes));
      PutGap();
      PutArray(bytes);
    }

    // The lead-in and the trailer, which differ in the length of the tune.
    method PutSync(count: nat)
      requires Valid()
      modifies this`buf, this`strobes
      ensures Valid() && strobes == old(strobes) + Sync(synch, count)
    {
      ghost var a, b, c, d := Pulse(true, 8 * synch), Tune(synch, count), Outm(synch), BitStrobes(synch, true);
      Assoc(strobes, a, b);
      Assoc(strobes, a + b, c);
      Assoc(strobes, a + b + c, d);
      PutInm();
      PutTune(count);
      PutOutm();
      PutBit(true);
    }
  }

  // tape_checksum
  method ComputeChecksum(data: seq<u8>) returns (sum: u16)
    ensures sum == Checksum(data)
  {
    var s: nat := 0;
    for i := 0 to |data|
      invariant s < 0x1_0000 && s == Checksum(data[..i])
    {
      s := s + data[i];
      assert data[..i + 1][..i] == data[..i];
      if s >= 0x1_0000 {
        s := s % 0x1_0000 + 1;
      }
    }
    assert data[..|data|] == data;
    sum := s;
  }

  // A program image: address, length, and at least that many bytes.
  function ImageWord(data: seq<u8>, i: nat): u16
    requires i + 1 < |data|
  {
    var lo: int, hi: int := data[i], data[i + 1];
    lo + 0x100 * hi
  }

  predicate IsImage(data: seq<u8>) {
    |data| >= 4 && ImageWord(data, 2) <= |data| - 4
  }

  function Payload(data: seq<u8>): (p: seq<u8>)
    requires IsImage(data)
    ensures |p| == ImageWord(data, 2)
  {
    data[4..4 + ImageWord(data, 2)]
  }

  function ImageWave(t: nat, data: seq<u8>, name: seq<u8>): seq<Strobe>
    requires IsImage(data)
  {
    RecordedWave(t, data, name, Checksum(Payload(data)))
  }

  // The recording of an image with another word in the place of its checksum.
  function RecordedWave(t: nat, data: seq<u8>, name: seq<u8>, c: u16): seq<Strobe>
    requires IsImage(data)
  {
    Waveform(t, ImageWord(data, 0), name, Payload(data), c)
  }

  // tape_encode_bin_to_raw_internal
  method Encode(t: nat, data: seq<u8>, name: seq<u8>) returns (raw: Option<seq<u8>>)
    requires |name| == 16
    ensures raw.Some? <==> IsImage(data)
    ensures raw.Some? ==> Encodes(raw.value, ImageWave(t, data, name))
  {
    hide Sync, Gap, Array, Checksum, WordBytes, Encodes;
    if |data| < 4 {
      return None;
    }
    var addr, len := ImageWord(data, 0), ImageWord(data, 2);
    if len > |data| - 4 {
      return None;
    }
    var payload := data[4..4 + len];
    var sum := ComputeChecksum(payload);
    var w := new Writer(t);
    w.PutSync(4096);
    w.PutBlock(WordBytes(addr) + WordBytes(len) + name);
    w.PutBlock(payload);
    w.PutArray(WordBytes(sum));
    w.PutSync(256);
    assert [] + Sync(t, 4096) == Sync(t, 4096);
    raw := Some(w.buf);
  }
}
