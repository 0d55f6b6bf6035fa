// Decoding a BK-0010 recording: the reader undoes the writer, and the checksum sees
// every change of one byte.
module TapeCodec {
  import opened Arith
  import opened TapeWave
  import opened TapeRead

  datatype Recording = Recording(image: seq<u8>, name: seq<u8>)

  // ---- A recording in the order it is read ----

  lemma DropLast(a: seq<Strobe>, b: seq<Strobe>)
    requires b != []
    ensures (a + b)[..|a + b| - 1] == a + b[..|b| - 1]
  {
  }

  // A recording as it is written, and as it is read.
  function Written(a: seq<Strobe>, g: seq<Strobe>, h: seq<Strobe>, p: seq<Strobe>, c: seq<Strobe>, e: seq<Strobe>)
    : seq<Strobe>
  {
    a + (g + h) + (g + p) + c + e
  }

  function Remaining(g: seq<Strobe>, h: seq<Strobe>, p: seq<Strobe>, c: seq<Strobe>, d: seq<Strobe>): seq<Strobe> {
    g + (h + (g + (p + (c + d))))
  }

  lemma Reassociate(z: seq<Strobe>, a: seq<Strobe>, g: seq<Strobe>, h: seq<Strobe>, p: seq<Strobe>,
                    c: seq<Strobe>, e: seq<Strobe>)
    requires |e| >= 2
    ensures var w := Written(a, g, h, p, c, e);
            |w| >= 2 && z + w[..|w| - 1] == (z + a) + Remaining(g, h, p, c, e[..|e| - 1])
  {
    var x := a + (g + h) + (g + p) + c;
    DropLast(x, e);
    var d := e[..|e| - 1];
    Assoc(a + (g + h) + (g + p), c, d);
    Assoc(a + (g + h), g + p, c + d);
    Assoc(g, p, c + d);
    Assoc(a, g + h, g + (p + (c + d)));
    Assoc(g, h, g + (p + (c + d)));
    Assoc(z, a, g + (h + (g + (p + (c + d)))));
  }

  // What is left to read at the checksum, the payload, the header and the start.
  ghost function AfterChecksum(t: nat): seq<Strobe> {
    if Sync(t, 256) == [] then [] else Sync(t, 256)[..|Sync(t, 256)| - 1]
  }

  ghost function FromChecksum(t: nat, c: u16): seq<Strobe> {
    BitsFrom(t, c, 16) + AfterChecksum(t)
  }

  ghost function FromPayload(t: nat, payload: seq<u8>, c: u16): seq<Strobe> {
    Gap(t) + (Array(t, payload) + FromChecksum(t, c))
  }

  ghost function FromHeader(t: nat, header: seq<u8>, payload: seq<u8>, c: u16): seq<Strobe> {
    Gap(t) + (Array(t, header) + FromPayload(t, payload, c))
  }

  lemma {:induction false} BitsJoin(t: nat, b: nat, lo: nat, hi: nat, p: nat, n: nat, m: nat)
    requires lo < p && p == Pow2(n) && b == lo + p * hi
    ensures BitsFrom(t, b, n + m) == BitsFrom(t, lo, n) + BitsFrom(t, hi, m)
  {
    hide BitStrobes;
    if n == 0 {
      assert b == hi;
      assert BitsFrom(t, lo, n) == [];
    } else {
      var h := p / 2;
      assert p == 2 * Pow2(n - 1);
      JoinedHalf(b, lo, hi, h);
      BitsJoin(t, b / 2, lo / 2, hi, h, n - 1, m);
      hide Pow2;
      Assoc(BitStrobes(t, lo % 2 == 1), BitsFrom(t, lo / 2, n - 1), BitsFrom(t, hi, m));
    }
  }

  lemma JoinedHalf(b: nat, lo: nat, hi: nat, h: nat)
    requires b == lo + 2 * h * hi
    ensures b % 2 == lo % 2 && b / 2 == lo / 2 + h * hi
  {
    var half := h * hi;
    assert 2 * h * hi == 2 * half;
  }

  lemma WordIsBits(t: nat, w: u16)
    ensures Array(t, WordBytes(w)) == BitsFrom(t, w, 16)
  {
    Pow2Small();
    var bytes := WordBytes(w);
    BitsJoin(t, w, bytes[0], bytes[1], 0x100, 8, 8);
    assert Array(t, bytes) == BitsFrom(t, bytes[0], 8) + Array(t, bytes[1..]);
    assert bytes[1..][1..] == [];
    assert Array(t, bytes[1..]) == BitsFrom(t, bytes[1], 8) + [];
  }

  lemma WaveOrder(t: nat, addr: u16, name: seq<u8>, p: seq<u8>, c: u16, a: seq<Strobe>, e: seq<Strobe>)
    requires |p| < 0x1_0000 && a == Sync(t, 4096) && e == Sync(t, 256) && |e| >= 2
    ensures var w := Waveform(t, addr, name, p, c);
            |w| >= 2 && [Strobe(false, 0)] + w[..|w| - 1]
                     == ([Strobe(false, 0)] + a) + FromHeader(t, Header(addr, |p|, name), p, c)
  {
    WordIsBits(t, c);
    var h, b, bits := Array(t, Header(addr, |p|, name)), Array(t, p), BitsFrom(t, c, 16);
    assert Waveform(t, addr, name, p, c) == Written(a, Gap(t), h, b, bits, e);
    assert FromHeader(t, Header(addr, |p|, name), p, c) == Remaining(Gap(t), h, b, bits, e[..|e| - 1]);
    Reassociate([Strobe(false, 0)], a, Gap(t), h, b, bits, e);
  }

  lemma ReadAll(raw: seq<u8>, w: seq<Strobe>)
    requires Encodes(raw, w) && AllLong(w) && |w| >= 2
    ensures |raw| >= 4 && StrobesFrom(raw, 0, 0) == [Strobe(false, 0)] + w[..|w| - 1]
  {
    ReadBack(raw, w, 0, 0);
  }

  // What follows the strobe that is read first, with its levels exchanged or not.
  lemma LevelOrder(z: Strobe, w: seq<Strobe>, a: seq<Strobe>, b: seq<Strobe>, p: bool)
    requires |w| >= 1 && [z] + w[..|w| - 1] == ([z] + a) + b
    ensures [z] + Level(w, p)[..|w| - 1] == ([z] + Level(a, p)) + Level(b, p)
  {
    var x := w[..|w| - 1];
    assert ([z] + x)[1..] == x && (([z] + a) + b)[1..] == a + b;
    assert Level(w, p)[..|w| - 1] == Level(x, p);
    assert Level(a + b, p) == Level(a, p) + Level(b, p);
  }

  lemma ReadOrder(raw: seq<u8>, t: nat, data: seq<u8>, name: seq<u8>, c: u16, q: bool)
    requires Unit(t) && IsImage(data) && Encodes(raw, Level(RecordedWave(t, data, name, c), q))
    ensures |raw| >= 4
    ensures var h := Header(ImageWord(data, 0), ImageWord(data, 2), name);
            StrobesFrom(raw, 0, 0) == Lead(t, q) + Level(FromHeader(t, h, Payload(data), c), q)
  {
    hide Waveform, FromHeader, Sync, StrobesFrom;
    var p, addr := Payload(data), ImageWord(data, 0);
    var w := Waveform(t, addr, name, p, c);
    SyncLong(t, 256);
    WaveOrder(t, addr, name, p, c, Sync(t, 4096), Sync(t, 256));
    WaveformLong(t, addr, name, p, c);
    ReadAll(raw, Level(w, q));
    LevelOrder(Strobe(false, 0), w, Sync(t, 4096), FromHeader(t, Header(addr, |p|, name), p, c), q);
  }

  // ---- The header ----

  function Header(addr: u16, len: u16, name: seq<u8>): seq<u8> {
    WordBytes(addr) + WordBytes(len) + name
  }

  lemma HeaderParts(addr: u16, len: u16, name: seq<u8>)
    requires |name| == 16
    ensures var h := Header(addr, len, name);
            && |h| == 20 && ImageWord(h, 0) == addr && ImageWord(h, 2) == len
            && h[..4] == WordBytes(addr) + WordBytes(len) && h[4..] == name
  {
  }

  lemma ImageParts(data: seq<u8>)
    requires IsImage(data)
    ensures data[..4 + ImageWord(data, 2)]
         == (WordBytes(ImageWord(data, 0)) + WordBytes(ImageWord(data, 2))) + Payload(data)
  {
    SplitWord(data[0], data[1]);
    SplitWord(data[2], data[3]);
    assert data[..4] == WordBytes(ImageWord(data, 0)) + WordBytes(ImageWord(data, 2));
  }

  lemma SplitWord(lo: u8, hi: u8)
    ensures var w: int := lo + 0x100 * hi; w % 0x100 == lo && w / 0x100 == hi
  {
    DivModUnique(lo + 0x100 * hi, 0x100, hi, lo);
  }

  lemma RebuildImage(h: seq<u8>, body: seq<u8>)
    requires |h| == 20 && |body| == ImageWord(h, 2)
    ensures var image := h[..4] + body;
            IsImage(image) && ImageWord(image, 0) == ImageWord(h, 0) && ImageWord(image, 2) == ImageWord(h, 2)
  {
  }

  // ---- Decoding ----

  // The part of the decoding behind the lead. On a block sequence of unit t it gives
  // back the header and the payload, if the checksum is right, and nothing otherwise.
  method DecodeBlocks(reader: Reader, p: bool, threshold: nat,
                      ghost t: nat, ghost header: seq<u8>, ghost payload: seq<u8>, ghost c: u16)
    returns (r: Option<Recording>)
    modifies reader
    ensures r.Some? ==>
              && IsImage(r.value.image) && |r.value.image| == 4 + ImageWord(r.value.image, 2) && |r.value.name| == 16
    ensures Unit(t) && threshold == 3 * t && |header| == 20 && |payload| == ImageWord(header, 2)
            && old(reader.Rest()) == Level(FromHeader(t, header, payload, c), p) ==>
              r == if c == Checksum(payload) then Some(Recording(header[..4] + payload, header[4..])) else None
  {
    var ok := reader.SkipGap(p, threshold, t, Array(t, header) + FromPayload(t, payload, c));
    if !ok {
      return None;
    }
    var h;
    ok, h := reader.ReadBytes(20, p, threshold, t, header, FromPayload(t, payload, c));
    if !ok {
      return None;
    }
    var len := ImageWord(h, 2);
    ok := reader.SkipGap(p, threshold, t, Array(t, payload) + FromChecksum(t, c));
    if !ok {
      return None;
    }
    var body;
    ok, body := reader.ReadBytes(len, p, threshold, t, payload, FromChecksum(t, c));
    if !ok {
      return None;
    }
    Pow2Small();
    var checksum;
    ok, checksum := reader.ReadBits(16, p, threshold, t, c, AfterChecksum(t));
    if !ok {
      return None;
    }
    var sum := ComputeChecksum(body);
    if checksum != sum {
      return None;
    }
    RebuildImage(h, body);
    r := Some(Recording(h[..4] + body, h[4..]));
  }

  // bk_tape_decode_raw_to_bin. Whatever the recording, a result is a well-formed image
  // with its name; and of an image recorded with c for its checksum it gives the image,
  // cut to the length it states, if c is the checksum of the payload, and nothing
  // otherwise; and all this whichever level the recording starts its cells with.
  method Decode(raw: seq<u8>, ghost t: nat, ghost data: seq<u8>, ghost name: seq<u8>, ghost c: u16, ghost q: bool)
    returns (r: Option<Recording>)
    requires |name| == 16
    ensures r.Some? ==>
              && IsImage(r.value.image) && |r.value.image| == 4 + ImageWord(r.value.image, 2) && |r.value.name| == 16
    ensures Unit(t) && IsImage(data) && Encodes(raw, Level(RecordedWave(t, data, name, c), q)) ==>
              r == if c == Checksum(Payload(data)) then Some(Recording(data[..4 + ImageWord(data, 2)], name)) else None
  {
    ghost var good := Unit(t) && IsImage(data) && Encodes(raw, Level(RecordedWave(t, data, name, c), q));
    ghost var payload, header := [], [];
    if good {
      payload, header := Payload(data), Header(ImageWord(data, 0), ImageWord(data, 2), name);
      ReadOrder(raw, t, data, name, c, q);
      LeadIsLead(t, Level(FromHeader(t, header, payload, c), q), q);
      HeaderParts(ImageWord(data, 0), ImageWord(data, 2), name);
      ImageParts(data);
    }
    if |raw| < 4 {
      return None;
    }
    var reader := new Reader(raw);
    var ok, p, threshold := reader.FindHeader(t, q, 8192);
    if !ok {
      return None;
    }
    r := DecodeBlocks(reader, p, threshold, t, header, payload, c);
  }

  // Encoding and then decoding, at any unit the format allows, gives the image back up
  // to its stated length, with the name field.
  method RoundTrip(t: nat, data: seq<u8>, raw: seq<u8>, text: Option<seq<u8>>, padSpace: bool)
    returns (r: Option<Recording>)
    requires Unit(t)
    ensures r == if !IsImage(data) then None
                 else Some(Recording(data[..4 + ImageWord(data, 2)], NameField(raw, text, padSpace)))
  {
    var name := NameField(raw, text, padSpace);
    var wave := Encode(t, data, name);
    match wave
    case None => r := None;
    case Some(w) => r := Decode(w, t, data, name, Checksum(Payload(data)), true);
  }

  // The recording of an image in which byte k of the payload has become v, its checksum
  // still being that of the image: it is refused whenever v is another byte.
  method DecodeDamaged(raw: seq<u8>, ghost t: nat, ghost data: seq<u8>, ghost name: seq<u8>, ghost k: nat, ghost v: u8,
                       ghost q: bool)
    returns (r: Option<Recording>)
    requires Unit(t) && |name| == 16 && IsImage(data) && k < ImageWord(data, 2)
    requires Encodes(raw, Level(RecordedWave(t, data[4 + k := v], name, Checksum(Payload(data))), q))
    ensures r.None? <==> v != data[4 + k]
  {
    ghost var damaged := data[4 + k := v];
    assert Payload(damaged) == Payload(data)[k := v];
    ChecksumSeesOneByte(Payload(data), k, v);
    r := Decode(raw, t, damaged, name, Checksum(Payload(data)), q);
  }

  // ---- What a waveform measures ----

  function Ticks(w: seq<Strobe>): nat {
    if w == [] then 0 else w[0].len + Ticks(w[1..])
  }

  lemma {:induction false} TicksJoin(a: seq<Strobe>, b: seq<Strobe>)
    ensures Ticks(a + b) == Ticks(a) + Ticks(b)
  {
    if a == [] {
      assert a + b == b;
    } else {
      assert (a + b)[1..] == a[1..] + b;
      TicksJoin(a[1..], b);
    }
  }

  // The ones among the low n bits.
  function Ones(b: nat, n: nat): nat {
    if n == 0 then 0 else b % 2 + Ones(b / 2, n - 1)
  }

  function OnesIn(bytes: seq<u8>): nat {
    if bytes == [] then 0 else Ones(bytes[0], 8) + OnesIn(bytes[1..])
  }

  lemma TicksOfFew(a: Strobe, b: Strobe, c: Strobe, d: Strobe)
    ensures Ticks([a]) == a.len && Ticks([a, b]) == a.len + b.len
    ensures Ticks([a, b, c, d]) == a.len + b.len + c.len + d.len
  {
    assert [a][1..] == [] && [a, b][1..] == [b] && [b][1..] == [];
    assert [a, b, c, d][1..] == [b, c, d] && [b, c, d][1..] == [c, d] && [c, d][1..] == [d] && [d][1..] == [];
    assert Ticks([]) == 0 && Ticks([b]) == b.len && Ticks([d]) == d.len && Ticks([c, d]) == c.len + d.len;
    assert Ticks([b, c, d]) == b.len + Ticks([c, d]);
  }

  lemma Distribute(t: nat, x: nat, y: nat)
    ensures t * x + t * y == t * (x + y)
  {
  }

  // A zero takes four units of time and a one takes six.
  lemma BitTicks(t: nat, one: bool)
    requires Unit(t)
    ensures Ticks(BitStrobes(t, one)) == t * if one then 6 else 4
  {
    hide Ticks;
    BitShape(t, one);
    var w := if one then 2 * t else t;
    TicksOfFew(Strobe(true, w), Strobe(false, w), Strobe(true, t), Strobe(false, t));
  }

  lemma {:induction false} BitsTicks(t: nat, b: nat, n: nat)
    requires Unit(t)
    ensures Ticks(BitsFrom(t, b, n)) == t * (4 * n + 2 * Ones(b, n))
  {
    hide BitStrobes;
    if n > 0 {
      hide Ticks;
      var one, rest := b % 2 == 1, 4 * (n - 1) + 2 * Ones(b / 2, n - 1);
      BitTicks(t, one);
      BitsTicks(t, b / 2, n - 1);
      TicksJoin(BitStrobes(t, one), BitsFrom(t, b / 2, n - 1));
      Distribute(t, if one then 6 else 4, rest);
      assert (if one then 6 else 4) + rest == 4 * n + 2 * Ones(b, n);
    }
  }

  lemma {:induction false} ArrayTicks(t: nat, bytes: seq<u8>)
    requires Unit(t)
    ensures Ticks(Array(t, bytes)) == t * (32 * |bytes| + 2 * OnesIn(bytes))
  {
    hide BitsFrom, Ones;
    if bytes != [] {
      hide Ticks;
      var rest := bytes[1..];
      BitsTicks(t, bytes[0], 8);
      ArrayTicks(t, rest);
      TicksJoin(BitsFrom(t, bytes[0], 8), Array(t, rest));
      Distribute(t, 32 + 2 * Ones(bytes[0], 8), 32 * |rest| + 2 * OnesIn(rest));
    }
  }

  lemma SiTicks(t: nat)
    requires Unit(t)
    ensures Ticks(Si(t)) == 2 * t
  {
    PulseShape(t, 1);
    TicksOfFew(Strobe(true, t), Strobe(false, t), Strobe(true, t), Strobe(true, t));
    hide Ticks, Pulse;
  }

  lemma {:induction false} TuneTicks(t: nat, count: nat)
    requires Unit(t)
    ensures Ticks(Tune(t, count)) == t * (2 * count)
  {
    hide Si;
    if count > 0 {
      hide Ticks;
      TuneTicks(t, count - 1);
      SiTicks(t);
      TicksJoin(Tune(t, count - 1), Si(t));
      Distribute(t, 2 * (count - 1), 2);
    }
  }

  lemma EdgeTicks(t: nat)
    requires Unit(t)
    ensures Ticks(Outm(t)) == t * 8 && Ticks(Pulse(true, 8 * t)) == t * 8
  {
    hide Ticks;
    OutmShape(t);
    PulseShape(t, 8);
    TicksOfFew(Strobe(true, 4 * t), Strobe(false, 4 * t), Strobe(true, t), Strobe(true, t));
    TicksOfFew(Strobe(true, 8 * t), Strobe(true, t), Strobe(true, t), Strobe(true, t));
  }

  lemma SyncTicks(t: nat, count: nat)
    requires Unit(t)
    ensures Ticks(Sync(t, count)) == t * (22 + 2 * count)
  {
    hide Ticks, Pulse, Tune, Outm, BitStrobes;
    EdgeTicks(t);
    TuneTicks(t, count);
    BitTicks(t, true);
    TicksJoin(Pulse(true, 8 * t) + Tune(t, count) + Outm(t), BitStrobes(t, true));
    TicksJoin(Pulse(true, 8 * t) + Tune(t, count), Outm(t));
    TicksJoin(Pulse(true, 8 * t), Tune(t, count));
  }

  lemma BlockTicks(t: nat, bytes: seq<u8>)
    requires Unit(t)
    ensures Ticks(Gap(t) + Array(t, bytes)) == t * (30 + 32 * |bytes| + 2 * OnesIn(bytes))
  {
    hide Ticks, Tune, Outm, BitStrobes, Array, OnesIn;
    EdgeTicks(t);
    TuneTicks(t, 8);
    BitTicks(t, true);
    ArrayTicks(t, bytes);
    TicksJoin(Gap(t), Array(t, bytes));
    TicksJoin(Tune(t, 8) + Outm(t), BitStrobes(t, true));
    TicksJoin(Tune(t, 8), Outm(t));
  }

  // The time that the recording of an image takes.
  lemma ImageTicks(t: nat, data: seq<u8>, name: seq<u8>)
    requires Unit(t) && IsImage(data) && |name| == 16
    ensures var p := Payload(data);
            var h := Header(ImageWord(data, 0), |p|, name);
            Ticks(ImageWave(t, data, name))
            == t * (9512 + 32 * |p| + 2 * (OnesIn(h) + OnesIn(p) + OnesIn(WordBytes(Checksum(p)))))
  {
    hide Sync, Gap, Array, Ticks, OnesIn, Checksum;
    var p := Payload(data);
    var h, c := Header(ImageWord(data, 0), |p|, name), WordBytes(Checksum(p));
    SyncTicks(t, 4096);
    SyncTicks(t, 256);
    BlockTicks(t, h);
    BlockTicks(t, p);
    ArrayTicks(t, c);
    var a, b, d := Sync(t, 4096), Gap(t) + Array(t, h), Gap(t) + Array(t, p);
    TicksJoin(a + b + d + Array(t, c), Sync(t, 256));
    TicksJoin(a + b + d, Array(t, c));
    TicksJoin(a + b, d);
    TicksJoin(a, b);
  }

  // The cell of bit i of byte k, lowest bit first, starts with a pulse of two units for a
  // one and of one unit for a zero.
  lemma {:induction false} CellAt(t: nat, bytes: seq<u8>, k: nat, i: nat)
    requires Unit(t) && k < |bytes| && i < 8
    ensures |Array(t, bytes)| == 32 * |bytes|
    ensures Array(t, bytes)[32 * k + 4 * i] == Strobe(true, if bytes[k] / Pow2(i) % 2 == 1 then 2 * t else t)
  {
    hide BitsFrom, Pow2;
    ArrayLength(t, bytes);
    BitsLong(t, bytes[0], 8);
    if k > 0 {
      var rest := bytes[1..];
      CellAt(t, rest, k - 1, i);
      assert Array(t, bytes)[32 * k + 4 * i] == Array(t, rest)[32 * (k - 1) + 4 * i];
    } else {
      CellInByte(t, bytes[0], 8, i);
    }
  }

  lemma {:induction false} ArrayLength(t: nat, bytes: seq<u8>)
    requires Unit(t)
    ensures |Array(t, bytes)| == 32 * |bytes|
  {
    if bytes != [] {
      BitsLong(t, bytes[0], 8);
      ArrayLength(t, bytes[1..]);
    }
  }

  lemma {:induction false} CellInByte(t: nat, b: nat, n: nat, i: nat)
    requires Unit(t) && i < n
    ensures |BitsFrom(t, b, n)| == 4 * n
    ensures BitsFrom(t, b, n)[4 * i] == Strobe(true, if b / Pow2(i) % 2 == 1 then 2 * t else t)
  {
    BitsLong(t, b, n);
    BitShape(t, b % 2 == 1);
    if i > 0 {
      BitsLong(t, b / 2, n - 1);
      CellInByte(t, b / 2, n - 1, i - 1);
      DivDiv(b, 2, Pow2(i - 1));
    }
  }

  // ---- What the checksum detects ----

  function Sum(data: seq<u8>): nat {
    if data == [] then 0 else Sum(data[..|data| - 1]) + data[|data| - 1]
  }

  // How often a carry was added back.
  function Carries(data: seq<u8>): nat {
    if data == [] then 0
    else
      var before := data[..|data| - 1];
      Carries(before) + if Checksum(before) + data[|data| - 1] >= 0x1_0000 then 1 else 0
  }

  lemma {:induction false} ChecksumIsSum(data: seq<u8>)
    ensures Sum(data) == Checksum(data) + 0xFFFF * Carries(data)
    ensures Checksum(data) == 0 <==> Sum(data) == 0
  {
    if data != [] {
      ChecksumIsSum(data[..|data| - 1]);
    }
  }

  lemma {:induction false} SumOfChange(data: seq<u8>, k: nat, v: u8)
    requires k < |data|
    ensures Sum(data[k := v]) == Sum(data) - data[k] + v
  {
    var n := |data| - 1;
    if k == n {
      assert data[k := v][..n] == data[..n];
    } else {
      assert data[k := v][..n] == data[..n][k := v];
      SumOfChange(data[..n], k, v);
    }
  }

  // A payload with one byte changed never has the same checksum.
  lemma ChecksumSeesOneByte(data: seq<u8>, k: nat, v: u8)
    requires k < |data|
    ensures Checksum(data[k := v]) == Checksum(data) <==> v == data[k]
  {
    if v == data[k] {
      assert data[k := v] == data;
    } else {
      SumOfChange(data, k, v);
      ChecksumIsSum(data);
      ChecksumIsSum(data[k := v]);
    }
  }
}
