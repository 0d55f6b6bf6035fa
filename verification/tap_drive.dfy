// The tape drive on a SIMH image: reading with chunked delivery to host memory,
// spacing in both directions, and writing records from host memory.
module TapDrive {
  import opened Arith
  import opened TapFormat

  const CHUNK := 256

  // ---- Host memory ----

  // Bytes past the end of memory do not answer.
  function WriteBytes(mem: seq<u8>, a: nat, d: seq<u8>): (r: (seq<u8>, int))
    ensures |r.0| == |mem|
    decreases |d|
  {
    if d == [] then (mem, 0)
    else if a >= |mem| then (mem, -1)
    else WriteBytes(mem[a := d[0]], a + 1, d[1..])
  }

  function CompareBytes(mem: seq<u8>, a: nat, d: seq<u8>): int
    decreases |d|
  {
    if d == [] then 0
    else if a >= |mem| then -1
    else if mem[a] != d[0] then 1
    else CompareBytes(mem, a + 1, d[1..])
  }

  // Where the bytes of a record go.
  datatype Sink = Skip | Dma(ba: nat) | Compare(ba: nat)

  function Shift(sink: Sink, n: nat): Sink {
    match sink
    case Skip => Skip
    case Dma(ba) => Dma(ba + n)
    case Compare(ba) => Compare(ba + n)
  }

  function Deliver(mem: seq<u8>, sink: Sink, d: seq<u8>): (r: (seq<u8>, int))
    ensures |r.0| == |mem|
  {
    match sink
    case Skip => (mem, 0)
    case Dma(ba) => WriteBytes(mem, ba, d)
    case Compare(ba) => (mem, CompareBytes(mem, ba, d))
  }

  lemma {:induction false} WriteJoin(mem: seq<u8>, a: nat, d: seq<u8>, d': seq<u8>)
    ensures var r := WriteBytes(mem, a, d);
            WriteBytes(mem, a, d + d') == if r.1 != 0 then r else WriteBytes(r.0, a + |d|, d')
    decreases |d|
  {
    if d == [] {
      assert d + d' == d';
    } else if a < |mem| {
      assert (d + d')[1..] == d[1..] + d';
      WriteJoin(mem[a := d[0]], a + 1, d[1..], d');
    }
  }

  lemma {:induction false} CompareJoin(mem: seq<u8>, a: nat, d: seq<u8>, d': seq<u8>)
    ensures var r := CompareBytes(mem, a, d);
            CompareBytes(mem, a, d + d') == if r != 0 then r else CompareBytes(mem, a + |d|, d')
    decreases |d|
  {
    if d == [] {
      assert d + d' == d';
    } else if a < |mem| {
      assert (d + d')[1..] == d[1..] + d';
      CompareJoin(mem, a + 1, d[1..], d');
    }
  }

  // Delivery in pieces is delivery of the whole, stopped by the first failure.
  lemma DeliverJoin(mem: seq<u8>, sink: Sink, d: seq<u8>, d': seq<u8>)
    ensures var r := Deliver(mem, sink, d);
            Deliver(mem, sink, d + d') == if r.1 != 0 then r else Deliver(r.0, Shift(sink, |d|), d')
  {
    match sink
    case Skip =>
    case Dma(ba) => WriteJoin(mem, ba, d, d');
    case Compare(ba) => CompareJoin(mem, ba, d, d');
  }

  // A write changes exactly the bytes that fit, and succeeds when all of them do.
  lemma {:induction false} WriteMeans(mem: seq<u8>, a: nat, d: seq<u8>)
    ensures var r := WriteBytes(mem, a, d);
            && (r.1 == 0 <==> d == [] || a + |d| <= |mem|)
            && forall i | 0 <= i < |mem| :: r.0[i] == if a <= i < a + |d| then d[i - a] else mem[i]
    decreases |d|
  {
    if d != [] && a < |mem| {
      WriteMeans(mem[a := d[0]], a + 1, d[1..]);
    }
  }

  // A comparison succeeds exactly when memory holds the bytes.
  lemma {:induction false} CompareMeans(mem: seq<u8>, a: nat, d: seq<u8>)
    ensures CompareBytes(mem, a, d) == 0 <==> d == [] || Holds(mem, a, d)
    decreases |d|
  {
    if d != [] && a < |mem| {
      CompareMeans(mem, a + 1, d[1..]);
      assert d[1..] == [] ==> |d| == 1;
      if Holds(mem, a, d) {
        assert Holds(mem, a + 1, d[1..]);
      }
      if mem[a] == d[0] && (d[1..] == [] || Holds(mem, a + 1, d[1..])) {
        forall i | 0 <= i < |d|
          ensures a + |d| <= |mem| && mem[a + i] == d[i]
        {
          if i > 0 {
            assert d[1..][i - 1] == d[i];
          }
        }
      }
    }
  }

  // ---- Spacing over a list of objects ----

  // How a motion ends: its status, the objects counted, and the boundary it is at.
  datatype Motion = Motion(status: Status, done: nat, at: nat)

  function Counted(m: Motion): Motion {
    m.(done := m.done + 1)
  }

  function ForwardRecords(objs: seq<Obj>, k: nat, count: nat): (m: Motion)
    requires k <= |objs|
    ensures m.at <= |objs|
    decreases count
  {
    if count == 0 then Motion(Ok, 0, k)
    else if k == |objs| then Motion(Eom, 0, k)
    else if objs[k].TapeMark? then Motion(Mark, 0, k + 1)
    else Counted(ForwardRecords(objs, k + 1, count - 1))
  }

  function ReverseRecords(objs: seq<Obj>, k: nat, count: nat): (m: Motion)
    requires k <= |objs|
    ensures m.at <= |objs|
    decreases count
  {
    if count == 0 then Motion(Ok, 0, k)
    else if k == 0 then Motion(Bot, 0, k)
    else if objs[k - 1].TapeMark? then Motion(Mark, 0, k - 1)
    else Counted(ReverseRecords(objs, k - 1, count - 1))
  }

  function ForwardMarks(objs: seq<Obj>, k: nat, count: nat): (m: Motion)
    requires k <= |objs|
    ensures m.at <= |objs|
    decreases |objs| - k
  {
    if count == 0 then Motion(Ok, 0, k)
    else if k == |objs| then Motion(Eom, 0, k)
    else if objs[k].TapeMark? then Counted(ForwardMarks(objs, k + 1, count - 1))
    else ForwardMarks(objs, k + 1, count)
  }

  function ReverseMarks(objs: seq<Obj>, k: nat, count: nat): (m: Motion)
    requires k <= |objs|
    ensures m.at <= |objs|
    decreases k
  {
    if count == 0 then Motion(Ok, 0, k)
    else if k == 0 then Motion(Bot, 0, k)
    else if objs[k - 1].TapeMark? then Counted(ReverseMarks(objs, k - 1, count - 1))
    else ReverseMarks(objs, k - 1, count)
  }

  // Motion m is motion r after n objects have been counted.
  ghost predicate Continues(r: Motion, n: nat, m: Motion) {
    r.status == m.status && r.at == m.at && r.done + n == m.done
  }

  ghost predicate RecordsOnly(objs: seq<Obj>, k: nat, j: nat) {
    k <= j <= |objs| && forall i | k <= i < j :: objs[i].Record?
  }

  // Over a stretch without marks, n records forward and n back is the identity.
  lemma {:induction false} RecordsThereAndBack(objs: seq<Obj>, k: nat, n: nat)
    requires RecordsOnly(objs, k, k + n)
    ensures ForwardRecords(objs, k, n) == Motion(Ok, n, k + n)
    ensures ReverseRecords(objs, k + n, n) == Motion(Ok, n, k)
    decreases n
  {
    if n > 0 {
      RecordsThereAndBack(objs, k + 1, n - 1);
      ReverseJoin(objs, k + n, n - 1, k + 1);
    }
  }

  // One record further back.
  lemma {:induction false} ReverseJoin(objs: seq<Obj>, k: nat, n: nat, j: nat)
    requires k <= |objs| && ReverseRecords(objs, k, n) == Motion(Ok, n, j) && j > 0 && objs[j - 1].Record?
    ensures ReverseRecords(objs, k, n + 1) == Motion(Ok, n + 1, j - 1)
    decreases n
  {
    if n > 0 {
      ReverseJoin(objs, k - 1, n - 1, j);
    } else {
      assert ReverseRecords(objs, k - 1, 0) == Motion(Ok, 0, k - 1);
    }
  }

  function FirstMark(objs: seq<Obj>, k: nat): (j: nat)
    requires k <= |objs|
    ensures k <= j <= |objs| && RecordsOnly(objs, k, j) && (j < |objs| ==> objs[j].TapeMark?)
    decreases |objs| - k
  {
    if k == |objs| || objs[k].TapeMark? then k else FirstMark(objs, k + 1)
  }

  // After n marks forward, n marks back lands at the start of the first one passed.
  lemma {:induction false} MarksThereAndBack(objs: seq<Obj>, k: nat, n: nat)
    requires k <= |objs| && n > 0 && ForwardMarks(objs, k, n).status == Ok
    ensures var there := ForwardMarks(objs, k, n);
            there.done == n && ReverseMarks(objs, there.at, n) == Motion(Ok, n, FirstMark(objs, k))
    decreases |objs| - k
  {
    if objs[k].Record? {
      MarksThereAndBack(objs, k + 1, n);
    } else if n == 1 {
      assert ForwardMarks(objs, k + 1, 0) == Motion(Ok, 0, k + 1);
      assert ReverseMarks(objs, k, 0) == Motion(Ok, 0, k);
    } else {
      MarksThereAndBack(objs, k + 1, n - 1);
      MarkJoin(objs, ForwardMarks(objs, k + 1, n - 1).at, n - 1, FirstMark(objs, k + 1), k);
    }
  }

  // One mark further back, over a stretch of records.
  lemma {:induction false} MarkJoin(objs: seq<Obj>, k: nat, n: nat, j: nat, i: nat)
    requires k <= |objs| && ReverseMarks(objs, k, n) == Motion(Ok, n, j)
    requires i < j && objs[i].TapeMark? && RecordsOnly(objs, i + 1, j)
    ensures ReverseMarks(objs, k, n + 1) == Motion(Ok, n + 1, i)
    decreases k
  {
    if n > 0 {
      MarkJoin(objs, k - 1, if objs[k - 1].TapeMark? then n - 1 else n, j, i);
    } else if k - 1 > i {
      assert objs[k - 1].Record?;
      MarkJoin(objs, k - 1, 0, k - 1, i);
    } else {
      assert ReverseMarks(objs, k - 1, 0) == Motion(Ok, 0, k - 1);
    }
  }

  // ---- The drive ----

  class Drive {
    var file: seq<u8>
    var pos: nat   // the position the controller keeps
    var fpos: nat  // the position of the file itself, further on after a short read
    var readOnly: bool
    const mem: array<u8>

    ghost predicate Valid()
      reads this
    {
      pos <= fpos <= |file|
    }

    // At boundary k of an image.
    ghost predicate At(objs: seq<Obj>, k: nat)
      reads this
    {
      AllWellFormed(objs) && k <= |objs| && file == Image(objs) && pos == fpos == Offset(objs, k)
    }

    constructor (file: seq<u8>, readOnly: bool, mem: array<u8>)
      ensures Valid() && this.file == file && pos == fpos == 0 && this.readOnly == readOnly && this.mem == mem
    {
      this.file := file;
      this.readOnly := readOnly;
      this.mem := mem;
      pos, fpos := 0, 0;
    }

    method Seek(p: nat)
      requires p <= |file|
      modifies this`pos, this`fpos
      ensures pos == fpos == p
    {
      pos, fpos := p, p;
    }

    method ReadU32() returns (ok: bool, v: nat)
      requires Valid()
      modifies this`pos, this`fpos
      ensures Valid() && ok == (old(fpos) + 4 <= |file|)
      ensures ok ==> v == WordAt(file, old(fpos)) && fpos == old(fpos) + 4 && pos == old(pos) + 4
      ensures !ok ==> fpos == |file| && pos == old(pos)
    {
      if fpos + 4 > |file| {
        fpos := |file|;
        return false, 0;
      }
      v := WordAt(file, fpos);
      pos, fpos := pos + 4, fpos + 4;
      ok := true;
    }

    // ---- Delivery ----

    method DmaWrite(a: nat, d: seq<u8>) returns (rc: int)
      modifies mem
      ensures (mem[..], rc) == WriteBytes(old(mem[..]), a, d)
    {
      for i := 0 to |d|
        invariant WriteBytes(mem[..], a + i, d[i..]) == WriteBytes(old(mem[..]), a, d)
      {
        if a + i >= mem.Length {
          return -1;
        }
        ghost var m := mem[..];
        mem[a + i] := d[i];
        assert mem[..] == m[a + i := d[i]];
        assert d[i..][1..] == d[i + 1..];
      }
      rc := 0;
    }

    method DmaCompare(a: nat, d: seq<u8>) returns (rc: int)
      ensures rc == CompareBytes(mem[..], a, d)
    {
      for i := 0 to |d|
        invariant CompareBytes(mem[..], a + i, d[i..]) == CompareBytes(mem[..], a, d)
      {
        if a + i >= mem.Length {
          return -1;
        }
        if mem[a + i] != d[i] {
          return 1;
        }
        assert d[i..][1..] == d[i + 1..];
      }
      rc := 0;
    }

    // tq_tap_dma_sink
    method SinkChunk(sink: Sink, offset: nat, d: seq<u8>) returns (rc: int)
      modifies mem
      ensures (mem[..], rc) == Deliver(old(mem[..]), Shift(sink, offset), d)
    {
      match sink
      case Skip => rc := 0;
      case Dma(ba) => rc := DmaWrite(ba + offset, d);
      case Compare(ba) => rc := DmaCompare(ba + offset, d);
    }

    // The data part of a record: up to max bytes of it go to the sink, in chunks, until
    // the sink fails.
    method ReadData(len: nat, max: nat, sink: Sink) returns (ok: bool, rc: int)
      requires Valid()
      modifies this`pos, this`fpos, mem
      ensures Valid() && ok == (old(fpos) + len <= |file|) && pos >= old(pos)
      ensures ok ==>
                && fpos == old(fpos) + len && pos == old(pos) + len
                && (mem[..], rc) == Deliver(old(mem[..]), sink, file[old(fpos)..old(fpos) + Min(len, max)])
      ensures !ok ==> fpos == |file|
      ensures !sink.Dma? ==> mem[..] == old(mem[..])
    {
      hide WriteBytes, CompareBytes, Shift;
      ghost var m0, p0, start := mem[..], fpos, pos;
      ghost var d := file[p0..];
      var offset := 0;
      rc := 0;
      DeliverNone(m0, sink);
      assert d[..0] == [];
      while offset < len
        invariant Valid() && offset <= len && p0 + offset <= |file|
        invariant fpos == p0 + offset && pos == start + offset
        invariant (mem[..], rc) == Deliver(m0, sink, d[..Min(offset, max)])
      {
        var chunk := Min(len - offset, CHUNK);
        if fpos + chunk > |file| {
          fpos := |file|;
          return false, rc;
        }
        var deliver := if offset >= max then 0 else Min(chunk, max - offset);
        if deliver != 0 {
          NextPiece(file, p0, m0, sink, offset, deliver);
        }
        if deliver != 0 && rc == 0 {
          rc := SinkChunk(sink, offset, file[fpos..fpos + deliver]);
        }
        pos, fpos, offset := pos + chunk, fpos + chunk, offset + chunk;
      }
      ok := true;
      assert d[..Min(len, max)] == file[p0..p0 + Min(len, max)];
    }

    // ---- Reading ----

    // tq_tap_read_forward_stream
    method ReadForward(max: nat, sink: Sink) returns (st: Status, recLen: nat, xferLen: nat, rc: int)
      requires Valid()
      modifies this`pos, this`fpos, mem
      ensures Valid() && pos >= old(pos)
      ensures st == StatusAt(file, old(fpos))
      ensures st == Ok ==>
                var d := DataAt(file, old(fpos));
                && fpos == EndAt(file, old(fpos)) && pos == old(pos) + (fpos - old(fpos))
                && recLen == |d| && xferLen == Min(|d|, max)
                && (mem[..], rc) == Deliver(old(mem[..]), sink, d[..xferLen])
      ensures st == Mark ==> fpos == old(fpos) + 4 && pos == old(pos) + 4
      ensures st == Eom || st == IoErr ==> fpos == |file|
      ensures st == Eom ==> pos == old(pos)
      ensures st == InvRl ==>
                && fpos == EndAt(file, old(fpos)) && pos == old(pos) + (fpos - old(fpos))
                && recLen == (if WordAt(file, old(fpos)) > MAXLEN then 0 else WordAt(file, old(fpos))) && xferLen == 0
      ensures st == Mark || st == Eom ==> mem[..] == old(mem[..]) && recLen == xferLen == 0
      ensures !sink.Dma? ==> mem[..] == old(mem[..])
    {
      hide Deliver, Value;
      recLen, xferLen, rc := 0, 0, 0;
      var ok, n := ReadU32();
      if !ok {
        return Eom, recLen, xferLen, rc;
      }
      if n == 0 {
        return Mark, recLen, xferLen, rc;
      }
      if n > MAXLEN {
        return InvRl, recLen, xferLen, rc;
      }
      recLen := n;
      ghost var d := file[fpos..];
      ok, rc := ReadData(n, max, sink);
      if !ok {
        return IoErr, recLen, xferLen, rc;
      }
      if n % 2 == 1 {
        if fpos + 1 > |file| {
          return IoErr, recLen, xferLen, rc;
        }
        pos, fpos := pos + 1, fpos + 1;
      }
      var trailer;
      ok, trailer := ReadU32();
      if !ok {
        return IoErr, recLen, xferLen, rc;
      }
      if trailer != n {
        return InvRl, recLen, xferLen, rc;
      }
      xferLen := Min(n, max);
      st := Ok;
      TakeSlice(file, old(fpos) + 4, n, xferLen);
    }

    // tq_tap_peek_prev
    method PeekPrev() returns (st: Status, start: nat, recLen: nat)
      requires Valid()
      modifies this`pos, this`fpos
      ensures Valid() && pos == old(pos) && (pos >= 4 ==> fpos == pos) && (pos < 4 ==> fpos == old(fpos))
      ensures st == StatusBefore(file, pos) && start == StartBefore(file, pos)
      ensures recLen == if st == Ok then WordAt(file, pos - 4) else 0
    {
      start, recLen := pos, 0;
      if pos < 4 {
        return Bot, start, recLen;
      }
      Seek(pos - 4);
      var _, n := ReadU32();
      if n == 0 {
        return Mark, pos - 4, recLen;
      }
      if n > MAXLEN || pos < 8 + (n + n % 2) {
        return InvRl, start, recLen;
      }
      start, recLen := pos - 4 - (n + n % 2) - 4, n;
      st := Ok;
    }

    // ---- Boundaries ----

    // Reading forward from a boundary: the next object and the next boundary.
    lemma ForwardFrom(objs: seq<Obj>, k: nat)
      requires At(objs, k)
      ensures k == |objs| ==> StatusAt(file, fpos) == Eom && fpos == |file|
      ensures k < |objs| ==>
                && StatusAt(file, fpos) == (if objs[k].Record? then Ok else Mark)
                && EndAt(file, fpos) == Offset(objs, k + 1) <= |file| && fpos < EndAt(file, fpos)
                && (objs[k].Record? ==> DataAt(file, fpos) == objs[k].data)
                && (objs[k].TapeMark? ==> EndAt(file, fpos) == fpos + 4)
    {
      if k == |objs| {
        ImageLength(objs);
      } else {
        NextAndBack(objs, k);
      }
    }

    // Looking back from a boundary: the object before and its beginning.
    lemma BackFrom(objs: seq<Obj>, k: nat)
      requires At(objs, k) && Valid()
      ensures k == 0 ==> StatusBefore(file, pos) == Bot
      ensures k > 0 ==>
                && StatusBefore(file, pos) == (if objs[k - 1].Record? then Ok else Mark)
                && StartBefore(file, pos) == Offset(objs, k - 1) < pos
    {
      if k > 0 {
        NextAndBack(objs, k - 1);
      }
    }

    // ---- Spacing ----

    // One object forward without delivering it.
    method StepForward(ghost objs: seq<Obj>, ghost k: nat) returns (st: Status)
      requires Valid()
      modifies this`pos, this`fpos, mem
      ensures Valid() && mem[..] == old(mem[..]) && (st == Ok || st == Mark ==> fpos > old(fpos))
      ensures old(At(objs, k)) ==>
                if k == |objs| then st == Eom && At(objs, k)
                else st == (if objs[k].Record? then Ok else Mark) && At(objs, k + 1)
    {
      if At(objs, k) {
        ForwardFrom(objs, k);
      }
      var s, _, _, _ := ReadForward(0, Skip);
      st := s;
    }

    // One object back.
    method StepBack(ghost objs: seq<Obj>, ghost k: nat) returns (st: Status)
      requires Valid()
      modifies this`pos, this`fpos
      ensures Valid() && (st == Ok || st == Mark ==> pos < old(pos))
      ensures old(At(objs, k)) ==>
                if k == 0 then st == Bot && At(objs, 0)
                else st == (if objs[k - 1].Record? then Ok else Mark) && At(objs, k - 1)
    {
      if At(objs, k) {
        BackFrom(objs, k);
      }
      var s, start, _ := PeekPrev();
      st := s;
      if st == Ok || st == Mark {
        Seek(start);
      }
    }

    // tq_tap_space_forward_records
    method SpaceForwardRecords(count: nat, ghost objs: seq<Obj>, ghost k: nat) returns (st: Status, skipped: nat)
      requires Valid()
      modifies this`pos, this`fpos, mem
      ensures Valid() && skipped <= count && mem[..] == old(mem[..])
      ensures old(At(objs, k)) ==>
                var m := ForwardRecords(objs, k, count); st == m.status && skipped == m.done && At(objs, m.at)
    {
      hide Image, Offset, AllWellFormed;
      ghost var at := At(objs, k);
      ghost var j := k;
      skipped := 0;
      for i := 0 to count
        invariant Valid() && skipped == i && mem[..] == old(mem[..])
        invariant at ==> At(objs, j)
        invariant at ==> Continues(ForwardRecords(objs, j, count - i), i, ForwardRecords(objs, k, count))
      {
        st := StepForward(objs, j);
        if st != Ok {
          return;
        }
        skipped := skipped + 1;
        j := j + 1;
      }
      st := Ok;
    }

    // tq_tap_space_forward_marks. Every step moves on, on any file.
    method SpaceForwardMarks(count: nat, ghost objs: seq<Obj>, ghost k: nat) returns (st: Status, skipped: nat)
      requires Valid()
      modifies this`pos, this`fpos, mem
      ensures Valid() && skipped <= count && mem[..] == old(mem[..])
      ensures old(At(objs, k)) ==>
                var m := ForwardMarks(objs, k, count); st == m.status && skipped == m.done && At(objs, m.at)
    {
      hide Image, Offset, AllWellFormed;
      ghost var at := At(objs, k);
      ghost var j := k;
      skipped := 0;
      while skipped < count
        invariant Valid() && skipped <= count && mem[..] == old(mem[..])
        invariant at ==> At(objs, j)
        invariant at ==> Continues(ForwardMarks(objs, j, count - skipped), skipped, ForwardMarks(objs, k, count))
        decreases |file| - fpos
      {
        st := StepForward(objs, j);
        if st != Ok && st != Mark {
          return;
        }
        j := j + 1;
        if st == Mark {
          skipped := skipped + 1;
        }
      }
      st := Ok;
    }

    // tq_tap_space_reverse_records
    method SpaceReverseRecords(count: nat, ghost objs: seq<Obj>, ghost k: nat) returns (st: Status, skipped: nat)
      requires Valid()
      modifies this`pos, this`fpos
      ensures Valid() && skipped <= count
      ensures old(At(objs, k)) ==>
                var m := ReverseRecords(objs, k, count); st == m.status && skipped == m.done && At(objs, m.at)
    {
      hide Image, Offset, AllWellFormed;
      ghost var at := At(objs, k);
      ghost var j := k;
      skipped := 0;
      while skipped < count
        invariant Valid() && skipped <= count
        invariant at ==> At(objs, j)
        invariant at ==> Continues(ReverseRecords(objs, j, count - skipped), skipped, ReverseRecords(objs, k, count))
      {
        st := StepBack(objs, j);
        if st != Ok && st != Mark {
          return;
        }
        j := if at then j - 1 else j;
        if st == Mark {
          return;
        }
        skipped := skipped + 1;
      }
      st := Ok;
    }

    // tq_tap_space_reverse_marks
    method SpaceReverseMarks(count: nat, ghost objs: seq<Obj>, ghost k: nat) returns (st: Status, skipped: nat)
      requires Valid()
      modifies this`pos, this`fpos
      ensures Valid() && skipped <= count
      ensures old(At(objs, k)) ==>
                var m := ReverseMarks(objs, k, count); st == m.status && skipped == m.done && At(objs, m.at)
    {
      hide Image, Offset, AllWellFormed;
      ghost var at := At(objs, k);
      ghost var j := k;
      skipped := 0;
      while skipped < count
        invariant Valid() && skipped <= count
        invariant at ==> At(objs, j)
        invariant at ==> Continues(ReverseMarks(objs, j, count - skipped), skipped, ReverseMarks(objs, k, count))
        decreases pos
      {
        st := StepBack(objs, j);
        if st != Ok && st != Mark {
          return;
        }
        j := if at then j - 1 else j;
        if st == Mark {
          skipped := skipped + 1;
        }
      }
      st := Ok;
    }

    // ---- Writing ----

    // Bytes written at the file position replace what is there. They follow the bytes
    // w written since the file was f0 and the position p0.
    method FileWrite(b: seq<u8>, ghost f0: seq<u8>, ghost p0: nat, ghost w: seq<u8>)
      requires Valid() && p0 <= |f0| && file == Splice(f0, p0, w) && fpos == p0 + |w|
      modifies this`file, this`pos, this`fpos
      ensures Valid() && file == Splice(f0, p0, w + b)
      ensures fpos == old(fpos) + |b| && pos == old(pos) + |b|
    {
      SpliceTwice(f0, p0, w, b);
      file := Splice(file, fpos, b);
      pos, fpos := pos + |b|, fpos + |b|;
    }

    // The data part of a record, in chunks.
    method WriteData(addr: nat, len: nat, ghost f0: seq<u8>, ghost p0: nat, ghost w: seq<u8>)
      requires Valid() && addr + len <= mem.Length
      requires p0 <= |f0| && file == Splice(f0, p0, w) && fpos == p0 + |w|
      modifies this`file, this`pos, this`fpos
      ensures Valid() && file == Splice(f0, p0, w + mem[addr..addr + len])
      ensures fpos == old(fpos) + len && pos == old(pos) + len
    {
      hide Splice;
      var offset := 0;
      assert w + mem[addr..addr] == w;
      while offset < len
        invariant Valid() && offset <= len
        invariant file == Splice(f0, p0, w + mem[addr..addr + offset])
        invariant fpos == p0 + |w| + offset && pos == old(pos) + offset
      {
        var chunk := Min(len - offset, CHUNK);
        ghost var so := w + mem[addr..addr + offset];
        var piece := mem[addr + offset..addr + offset + chunk];
        Grow(mem, w, addr, offset, chunk);
        FileWrite(piece, f0, p0, so);
        offset := offset + chunk;
      }
    }

    // tq_tap_write_record_dma
    method WriteRecord(addr: nat, len: nat) returns (st: Status, dmaError: bool)
      requires Valid()
      modifies this`file, this`pos, this`fpos
      ensures Valid()
      ensures st == if readOnly then Wrp else if len > MAXLEN then InvRl
                    else if len > 0 && addr + len > mem.Length then IoErr else Ok
      ensures dmaError == (st == IoErr)
      ensures st != Ok ==> file == old(file) && pos == old(pos) && fpos == old(fpos)
      ensures st == Ok ==>
                var b := RecordBytes(Source(addr, len));
                file == Splice(old(file), old(fpos), b) && fpos == old(fpos) + |b| && pos == old(pos) + |b|
    {
      if readOnly {
        return Wrp, false;
      }
      if len > MAXLEN {
        return InvRl, false;
      }
      if len > 0 && addr + len > mem.Length {
        return IoErr, true;
      }
      ghost var f0, p0, n, d := file, fpos, Le(len, 4), Source(addr, len);
      NothingWritten(f0, p0, n);
      FileWrite(Le(len, 4), f0, p0, []);
      if len > 0 {
        WriteData(addr, len, f0, p0, n);
      } else {
        assert n + d == n;
      }
      FileWrite(Padding(len), f0, p0, n + d);
      FileWrite(Le(len, 4), f0, p0, n + d + Padding(len));
      st, dmaError := Ok, false;
    }

    // The bytes of a record in host memory.
    function Source(addr: nat, len: nat): (d: seq<u8>)
      reads mem
      requires len > 0 ==> addr + len <= mem.Length
      ensures |d| == len
    {
      if len == 0 then [] else mem[addr..addr + len]
    }

    // tq_tap_write_mark
    method WriteMark() returns (st: Status)
      requires Valid()
      modifies this`file, this`pos, this`fpos
      ensures Valid() && st == if readOnly then Wrp else Ok
      ensures st != Ok ==> file == old(file) && pos == old(pos) && fpos == old(fpos)
      ensures st == Ok ==>
                && file == Splice(old(file), old(fpos), ObjBytes(TapeMark))
                && fpos == old(fpos) + 4 && pos == old(pos) + 4
    {
      if readOnly {
        return Wrp;
      }
      ghost var f0, p0 := file, fpos;
      NothingWritten(f0, p0, Le(0, 4));
      hide Splice, Le;
      FileWrite(Le(0, 4), f0, p0, []);
      st := Ok;
    }

    // A record written at the end of an image is appended to its objects.
    method AppendRecord(addr: nat, len: nat, ghost objs: seq<Obj>)
      requires Valid() && At(objs, |objs|) && !readOnly
      requires 1 <= len <= MAXLEN && addr + len <= mem.Length
      modifies this`file, this`pos, this`fpos
      ensures Valid() && At(objs + [Record(mem[addr..addr + len])], |objs| + 1)
    {
      ghost var o := Record(mem[addr..addr + len]);
      ghost var all := objs + [o];
      ImageLength(objs);
      Append(objs, o);
      assert all[..|objs|] == objs;
      OffsetPrefix(all, |objs|, |objs|);
      var _, _ := WriteRecord(addr, len);
    }

    // One record back, and the record read with a count of bc.
    method Reread(bc: nat, sink: Sink, ghost objs: seq<Obj>, ghost o: Obj)
      returns (st: Status, recLen: nat, rc: int)
      requires Valid() && At(objs + [o], |objs| + 1) && o.Record?
      modifies this`pos, this`fpos, mem
      ensures Valid() && At(objs + [o], |objs| + 1) && st == Ok && recLen == |o.data|
      ensures (mem[..], rc) == Deliver(old(mem[..]), sink, o.data[..Min(recLen, bc)])
    {
      ghost var all := objs + [o];
      assert all[|objs|] == o;
      var _ := StepBack(all, |objs| + 1);
      ForwardFrom(all, |objs|);
      var xferLen;
      st, recLen, xferLen, rc := ReadForward(bc, sink);
    }

    // A record appended from host memory, one record back, and read again with a count
    // of bc: the same bytes are delivered, up to the count, and the tape is past the
    // record again.
    method WriteThenRead(addr: nat, len: nat, bc: nat, sink: Sink, ghost objs: seq<Obj>)
      returns (st: Status, recLen: nat, rc: int)
      requires Valid() && At(objs, |objs|) && !readOnly
      requires 1 <= len <= MAXLEN && addr + len <= mem.Length
      modifies this`file, this`pos, this`fpos, mem
      ensures var d := old(mem[addr..addr + len]);
              && Valid() && At(objs + [Record(d)], |objs| + 1)
              && st == Ok && recLen == len
              && (mem[..], rc) == Deliver(old(mem[..]), sink, d[..Min(len, bc)])
    {
      ghost var o := Record(mem[addr..addr + len]);
      AppendRecord(addr, len, objs);
      st, recLen, rc := Reread(bc, sink, objs, o);
    }
  }

  lemma Grow(mem: array<u8>, w: seq<u8>, addr: nat, offset: nat, n: nat)
    requires addr + offset + n <= mem.Length
    ensures w + mem[addr..addr + offset] + mem[addr + offset..addr + offset + n] == w + mem[addr..addr + offset + n]
  {
    assert mem[addr..addr + offset] + mem[addr + offset..addr + offset + n] == mem[addr..addr + offset + n];
  }

  lemma TakeSlice(s: seq<u8>, p: nat, n: nat, m: nat)
    requires p + n <= |s| && m <= n
    ensures s[p..p + n][..m] == s[p..p + m]
  {
  }

  lemma NothingWritten(file: seq<u8>, p: nat, b: seq<u8>)
    requires p <= |file|
    ensures Splice(file, p, []) == file && [] + b == b
  {
  }

  // The bytes of the file behind p, delivered up to offset and then n more.
  lemma NextPiece(file: seq<u8>, p: nat, mem: seq<u8>, sink: Sink, offset: nat, n: nat)
    requires p + offset + n <= |file|
    ensures var d, piece := file[p..], file[p + offset..p + offset + n];
            var r := Deliver(mem, sink, d[..offset]);
            Deliver(mem, sink, d[..offset + n]) == if r.1 != 0 then r else Deliver(r.0, Shift(sink, offset), piece)
  {
    hide Deliver, Shift;
    var d := file[p..];
    DeliverJoin(mem, sink, d[..offset], d[offset..offset + n]);
    assert d[..offset] + d[offset..offset + n] == d[..offset + n];
    assert file[p + offset..p + offset + n] == d[offset..offset + n];
  }

  lemma DeliverNone(mem: seq<u8>, sink: Sink)
    ensures Deliver(mem, sink, []) == (mem, 0)
  {
  }
}
