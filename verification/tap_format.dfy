// The SIMH magnetic tape image: records between two copies of their length, tape
// marks, and how an image is parsed in either direction.
module TapFormat {
  import opened Arith

  const MAXLEN := 0xFF_FFFF

  // Lengths have 24 bits.
  lemma LengthBits()
    ensures MAXLEN + 1 == Pow2(24)
  {
    Pow2Consts();
  }

  datatype Status = Ok | Mark | Bot | Eom | IoErr | InvRl | Wrp

  datatype Obj = Record(data: seq<u8>) | TapeMark {
    predicate WellFormed() {
      Record? ==> 1 <= |data| <= MAXLEN
    }
  }

  // n bytes of a number, lowest first.
  function Le(v: nat, n: nat): (b: seq<u8>)
    ensures |b| == n
  {
    if n == 0 then [] else [v % 0x100] + Le(v / 0x100, n - 1)
  }

  function Value(b: seq<u8>): nat {
    if b == [] then 0 else b[0] + 0x100 * Value(b[1..])
  }

  lemma {:induction false} LeRoundTrip(v: nat, n: nat)
    requires v < Pow2(8 * n)
    ensures Value(Le(v, n)) == v
  {
    if n > 0 {
      Pow2Small();
      Pow2Add(8, 8 * (n - 1));
      assert v / 0x100 < Pow2(8 * (n - 1));
      LeRoundTrip(v / 0x100, n - 1);
      assert Le(v, n)[1..] == Le(v / 0x100, n - 1);
    }
  }

  // Byte i has the weight 2^(8 * i).
  lemma {:induction false} LowestFirst(v: nat, n: nat, i: nat)
    requires i < n
    ensures Le(v, n)[i] == v / Pow2(8 * i) % 0x100
  {
    if i > 0 {
      LowestFirst(v / 0x100, n - 1, i - 1);
      Pow2Small();
      Pow2Add(8, 8 * (i - 1));
      DivDiv(v, 0x100, Pow2(8 * (i - 1)));
    } else {
      assert Pow2(0) == 1;
    }
  }

  // A mark is four zero bytes. A record has its length in front and behind, its data in
  // between, and a zero byte behind the data if their number is odd.
  lemma Layout(d: seq<u8>)
    requires 1 <= |d| <= MAXLEN
    ensures ObjBytes(TapeMark) == [0, 0, 0, 0]
    ensures var b, e := ObjBytes(Record(d)), |d| + |d| % 2;
            && |b| == 8 + e && b[4..4 + |d|] == d && (|d| % 2 == 1 ==> b[4 + |d|] == 0)
            && forall i | 0 <= i < 4 :: b[i] == b[4 + e + i] == |d| / Pow2(8 * i) % 0x100
  {
    forall i | 0 <= i < 4
      ensures Le(|d|, 4)[i] == |d| / Pow2(8 * i) % 0x100 && Le(0, 4)[i] == 0
    {
      LowestFirst(|d|, 4, i);
      LowestFirst(0, 4, i);
    }
    RecordParts(Le(|d|, 4), d, Padding(|d|));
  }

  lemma LengthRoundTrip(v: nat)
    requires v <= MAXLEN
    ensures Value(Le(v, 4)) == v
  {
    Pow2Consts();
    LeRoundTrip(v, 4);
  }

  function Pad(n: nat): nat {
    n % 2
  }

  function Padding(n: nat): (p: seq<u8>)
    ensures |p| == Pad(n)
  {
    if n % 2 == 1 then [0] else []
  }

  function ObjSize(o: Obj): nat {
    if o.Record? then 8 + |o.data| + Pad(|o.data|) else 4
  }

  function ObjBytes(o: Obj): (b: seq<u8>)
    requires o.WellFormed()
    ensures |b| == ObjSize(o)
  {
    match o
    case TapeMark => Le(0, 4)
    case Record(d) => RecordBytes(d)
  }

  function RecordBytes(d: seq<u8>): (b: seq<u8>)
    ensures |b| == 8 + |d| + Pad(|d|)
  {
    Le(|d|, 4) + d + Padding(|d|) + Le(|d|, 4)
  }

  ghost predicate AllWellFormed(objs: seq<Obj>) {
    forall i | 0 <= i < |objs| :: objs[i].WellFormed()
  }

  function Image(objs: seq<Obj>): seq<u8>
    requires AllWellFormed(objs)
  {
    if objs == [] then [] else Image(objs[..|objs| - 1]) + ObjBytes(objs[|objs| - 1])
  }

  // Where object k begins.
  function Offset(objs: seq<Obj>, k: nat): nat
    requires k <= |objs|
  {
    if k == 0 then 0 else Offset(objs, k - 1) + ObjSize(objs[k - 1])
  }

  lemma {:induction false} OffsetPrefix(objs: seq<Obj>, n: nat, k: nat)
    requires k <= n <= |objs|
    ensures Offset(objs[..n], k) == Offset(objs, k)
  {
    if k > 0 {
      OffsetPrefix(objs, n, k - 1);
    }
  }

  lemma {:induction false} ImageLength(objs: seq<Obj>)
    requires AllWellFormed(objs)
    ensures |Image(objs)| == Offset(objs, |objs|)
  {
    if objs != [] {
      var n := |objs| - 1;
      ImageLength(objs[..n]);
      OffsetPrefix(objs, n, n);
    }
  }

  // Every boundary is even.
  lemma {:induction false} BoundariesEven(objs: seq<Obj>, k: nat)
    requires k <= |objs|
    ensures Offset(objs, k) % 2 == 0
  {
    if k > 0 {
      BoundariesEven(objs, k - 1);
    }
  }

  // ---- Parsing forward ----

  function WordAt(file: seq<u8>, p: nat): nat
    requires p + 4 <= |file|
  {
    Value(file[p..p + 4])
  }

  // Where the next object would end, by its leading length.
  function EndAt(file: seq<u8>, p: nat): nat
    requires p + 4 <= |file|
  {
    var n := WordAt(file, p);
    if n == 0 || n > MAXLEN then p + 4 else p + 8 + n + Pad(n)
  }

  // What reading forward from p gives.
  function StatusAt(file: seq<u8>, p: nat): Status {
    if p + 4 > |file| then Eom
    else
      var n := WordAt(file, p);
      if n == 0 then Mark
      else if n > MAXLEN then InvRl
      else if EndAt(file, p) > |file| then IoErr
      else if WordAt(file, EndAt(file, p) - 4) != n then InvRl
      else Ok
  }

  // What is not an object: fewer than four bytes are the end of the medium, a length that
  // is too long is no record, a record cut short is an error, and so is one whose lengths
  // differ.
  lemma Malformed(file: seq<u8>, p: nat, n: nat, n': nat, e: nat)
    requires 1 <= n < 0x1_0000_0000 && n' < 0x1_0000_0000 && n' != n && e == p + 4 + n + n % 2
    ensures p <= |file| < p + 4 ==> StatusAt(file, p) == Eom
    ensures Holds(file, p, Le(n, 4)) && n > MAXLEN ==> StatusAt(file, p) == InvRl
    ensures Holds(file, p, Le(n, 4)) && n <= MAXLEN && |file| < e + 4 ==> StatusAt(file, p) == IoErr
    ensures Holds(file, p, Le(n, 4)) && n <= MAXLEN && Holds(file, e, Le(n', 4)) ==> StatusAt(file, p) == InvRl
  {
    HeldWord(file, p, n);
    HeldWord(file, e, n');
    hide Le, Value, Holds, WordAt;
  }

  lemma HeldWord(file: seq<u8>, p: nat, n: nat)
    requires n < 0x1_0000_0000
    ensures Holds(file, p, Le(n, 4)) ==> p + 4 <= |file| && WordAt(file, p) == n
  {
    Pow2Consts();
    LeRoundTrip(n, 4);
    hide Le, Value, Pow2;
    if Holds(file, p, Le(n, 4)) {
      assert file[p..p + 4] == Le(n, 4);
    }
  }

  function DataAt(file: seq<u8>, p: nat): (d: seq<u8>)
    requires StatusAt(file, p) == Ok
    ensures 1 <= |d| <= MAXLEN && p + 4 + |d| <= |file| && d == file[p + 4..p + 4 + |d|]
  {
    file[p + 4..p + 4 + WordAt(file, p)]
  }

  // ---- Parsing backward ----

  // What lies behind p, by the length in front of p, and where it would begin.
  function StatusBefore(file: seq<u8>, p: nat): Status
    requires p <= |file|
  {
    if p < 4 then Bot
    else
      var n := WordAt(file, p - 4);
      if n == 0 then Mark else if n > MAXLEN || p < 8 + n + Pad(n) then InvRl else Ok
  }

  function StartBefore(file: seq<u8>, p: nat): (s: nat)
    requires p <= |file|
    ensures StatusBefore(file, p) == Ok || StatusBefore(file, p) == Mark ==> s < p
  {
    if p < 4 then p
    else
      var n := WordAt(file, p - 4);
      if n == 0 then p - 4 else if n > MAXLEN || p < 8 + n + Pad(n) then p else p - 8 - n - Pad(n)
  }

  // ---- An object inside a file ----

  ghost predicate Holds(file: seq<u8>, p: nat, b: seq<u8>) {
    p + |b| <= |file| && forall i | 0 <= i < |b| :: file[p + i] == b[i]
  }

  lemma Slice(file: seq<u8>, p: nat, b: seq<u8>, i: nat, j: nat)
    requires Holds(file, p, b) && i <= j <= |b|
    ensures file[p + i..p + j] == b[i..j]
  {
  }

  lemma RecordParts(le: seq<u8>, d: seq<u8>, pad: seq<u8>)
    requires |le| == 4
    ensures var b := le + d + pad + le;
            b[0..4] == le && b[4..4 + |d|] == d && b[|b| - 4..|b|] == le
  {
  }

  // A record is found from either end.
  lemma RecordBothWays(file: seq<u8>, p: nat, le: seq<u8>, d: seq<u8>, pad: seq<u8>)
    requires |le| == 4 && Value(le) == |d| && 1 <= |d| <= MAXLEN && |pad| == Pad(|d|)
    requires Holds(file, p, le + d + pad + le)
    ensures var e := p + 8 + |d| + Pad(|d|);
            && StatusAt(file, p) == Ok && StatusBefore(file, e) == Ok
            && EndAt(file, p) == e && StartBefore(file, e) == p
            && DataAt(file, p) == d && WordAt(file, e - 4) == |d|
  {
    var b := le + d + pad + le;
    RecordParts(le, d, pad);
    Slice(file, p, b, 0, 4);
    Slice(file, p, b, 4, 4 + |d|);
    Slice(file, p, b, |b| - 4, |b|);
  }

  lemma MarkBothWays(file: seq<u8>, p: nat, le: seq<u8>)
    requires |le| == 4 && Value(le) == 0 && Holds(file, p, le)
    ensures StatusAt(file, p) == Mark && StatusBefore(file, p + 4) == Mark
    ensures EndAt(file, p) == p + 4 && StartBefore(file, p + 4) == p
  {
    assert file[p..p + 4] == le;
  }

  // Object o lies between p and e, whichever way it is read.
  ghost predicate Between(file: seq<u8>, p: nat, e: nat, o: Obj) {
    && p < e <= |file|
    && StatusAt(file, p) == StatusBefore(file, e) == (if o.Record? then Ok else Mark)
    && EndAt(file, p) == e && StartBefore(file, e) == p
    && (o.Record? ==> DataAt(file, p) == o.data && WordAt(file, e - 4) == |o.data|)
  }

  // Either direction finds the object that is there, and both agree on its ends.
  lemma ParsesBothWays(file: seq<u8>, p: nat, o: Obj)
    requires o.WellFormed() && Holds(file, p, ObjBytes(o))
    ensures Between(file, p, p + ObjSize(o), o)
  {
    match o
    case TapeMark =>
      LengthRoundTrip(0);
      MarkBothWays(file, p, Le(0, 4));
    case Record(d) =>
      LengthRoundTrip(|d|);
      RecordBothWays(file, p, Le(|d|, 4), d, Padding(|d|));
  }

  lemma HoldsInside(a: seq<u8>, b: seq<u8>, p: nat, x: seq<u8>)
    requires Holds(a, p, x)
    ensures Holds(a + b, p, x)
  {
  }

  lemma HoldsAtEnd(a: seq<u8>, b: seq<u8>)
    ensures Holds(a + b, |a|, b)
  {
  }

  // Object k of an image lies at its offset.
  lemma {:induction false} Locate(objs: seq<Obj>, k: nat)
    requires AllWellFormed(objs) && k < |objs|
    ensures Holds(Image(objs), Offset(objs, k), ObjBytes(objs[k]))
  {
    var n := |objs| - 1;
    var before, last := Image(objs[..n]), ObjBytes(objs[n]);
    assert Image(objs) == before + last;
    OffsetPrefix(objs, n, k);
    if k == n {
      ImageLength(objs[..n]);
      HoldsAtEnd(before, last);
    } else {
      Locate(objs[..n], k);
      HoldsInside(before, last, Offset(objs, k), ObjBytes(objs[k]));
    }
  }

  // The bidirectional law: from any boundary forward to the next, and back.
  lemma NextAndBack(objs: seq<Obj>, k: nat)
    requires AllWellFormed(objs) && k < |objs|
    ensures Between(Image(objs), Offset(objs, k), Offset(objs, k + 1), objs[k])
  {
    Locate(objs, k);
    ParsesBothWays(Image(objs), Offset(objs, k), objs[k]);
  }

  // ---- Writing ----

  // What writing b at p makes of a file.
  function Splice(file: seq<u8>, p: nat, b: seq<u8>): (f: seq<u8>)
    requires p <= |file|
    ensures p + |b| <= |f|
  {
    file[..p] + b + From(file, p + |b|)
  }

  function From(file: seq<u8>, p: nat): seq<u8> {
    if p < |file| then file[p..] else []
  }

  // A write leaves its bytes at p, and nothing else is changed.
  lemma SpliceMeans(file: seq<u8>, p: nat, b: seq<u8>)
    requires p <= |file|
    ensures var f := Splice(file, p, b);
            && Holds(f, p, b) && |f| == (if p + |b| > |file| then p + |b| else |file|)
            && forall i | 0 <= i < |file| && !(p <= i < p + |b|) :: f[i] == file[i]
  {
  }

  lemma SpliceTwice(file: seq<u8>, p: nat, a: seq<u8>, b: seq<u8>)
    requires p <= |file|
    ensures Splice(Splice(file, p, a), p + |a|, b) == Splice(file, p, a + b)
  {
    var c := file[..p] + a;
    var f := c + From(file, p + |a|);
    assert f[..p + |a|] == c;
    assert From(f, p + |a| + |b|) == From(file, p + |a| + |b|);
    assert file[..p] + (a + b) == c + b;
  }

  // Appending an object at the end of an image appends it to the list.
  lemma Append(objs: seq<Obj>, o: Obj)
    requires AllWellFormed(objs) && o.WellFormed()
    ensures Splice(Image(objs), |Image(objs)|, ObjBytes(o)) == Image(objs + [o])
  {
    var all := objs + [o];
    assert all[..|objs|] == objs && all[|objs|] == o;
    SpliceAtEnd(Image(objs), ObjBytes(o));
  }

  lemma SpliceAtEnd(file: seq<u8>, b: seq<u8>)
    ensures Splice(file, |file|, b) == file + b
  {
  }
}
