// The UQSSP port of the RQ disk controller as a state machine: the four-step
// handshake, and polls that serve the two rings it shares with the host.
module RqPort {
  import opened Arith
  import opened RqRing

  // What can happen at the port: host writes to memory and to the registers, reads of
  // the first register, interrupts being taken, polls of the emulator, and images being
  // attached and closed.
  datatype Event =
    | HostWrites(w: nat, v: u16)
    | SaWritten(v: u16)
    | IpRead
    | IpWritten
    | Polls(effs: seq<Effect>, bodies: seq<seq<u16>>)
    | Attaches(unit: nat)
    | InterruptTaken
    | ImagesClosed

  // What a turn of the poll can change: memory, the logs, and what it knows of the units
  // and of the host's wishes.
  datatype Shot = Shot(mem: seq<u16>, cmds: seq<Taken>, rsps: seq<Sent>, una: seq<bool>, cflgs: u16)

  class Port {
    const size: nat
    const caps: u16
    const model: u16
    var mem: seq<u16>
    var sa: u16
    var s1Host: u16
    var comm: nat
    var state: State
    var irqReq: bool
    var irqEn: bool
    var pollPending: bool
    var cflgs: u16
    var credits: nat
    var cmdRing: Ring
    var rspRing: Ring
    var una: seq<bool>

    // The rings in memory words, how often the host has handed each slot over, and
    // what went through them.
    ghost var b: nat
    ghost var nR: nat
    ghost var nC: nat
    ghost var handedR: seq<nat>
    ghost var handedC: seq<nat>
    ghost var cmdLog: seq<Taken>
    ghost var rspLog: seq<Sent>

    ghost predicate Shape()
      reads `mem, `una, `credits
    {
      && (size == 0x4_0000 || size == 0x40_0000) && 2 * |mem| < size
      && |una| == 4 && credits <= 7 && model < 0x100
    }

    // First word of the communication area, and the word past it.
    ghost function Lo(): int
      reads `b
    {
      b - 2
    }

    ghost function Hi(): int
      reads `b, `nR, `nC
    {
      b + 2 * nR + 2 * nC
    }

    // Two adjacent rings inside memory, each at the slot its log has reached.
    ghost predicate Placed()
      reads `b, `nR, `nC, `mem, `comm, `cmdRing, `rspRing, `cmdLog, `rspLog
    {
      && 0 < size && comm % 2 == 0 && b == WordOf(size, comm) && b >= 2
      && 1 <= nR <= 128 && 1 <= nC <= 128 && Hi() <= |mem|
      && rspRing == Ring(comm, 4 * nR, 4 * (|rspLog| % nR))
      && cmdRing == Ring(comm + 4 * nR, 4 * nC, 4 * (|cmdLog| % nC))
    }

    ghost predicate Owned()
      reads `b, `nR, `nC, `mem, `cmdLog, `rspLog, `handedR, `handedC
    {
      && 0 < size
      && Hands(mem, b, nR, |rspLog|, handedR) && Buffers(mem, b, nR, size, Lo(), Hi())
      && Hands(mem, b + 2 * nR, nC, |cmdLog|, handedC) && Buffers(mem, b + 2 * nR, nC, size, Lo(), Hi())
    }

    // Responses end the commands in order, and the credits add up.
    ghost predicate Logged()
      reads `nR, `nC, `cmdLog, `rspLog, `credits
    {
      && nR > 0 && nC > 0
      && Ends(rspLog) == References(cmdLog)
      && Granted(rspLog) + credits == |cmdLog| + 7
      && (forall j | 0 <= j < |cmdLog| :: cmdLog[j].slot == j % nC)
      && (forall j | 0 <= j < |rspLog| :: rspLog[j].slot == j % nR)
    }

    ghost predicate Valid()
      reads this
    {
      && Shape()
      && (state == S4 || state == Up ==> Placed() && Owned() && Logged())
      && (state != S4 && state != Up && state != Dead ==> credits == 7)
    }

    // ---- Memory ----

    method ReadWords(a: nat, n: nat) returns (ok: bool, words: seq<u16>)
      requires Shape()
      ensures ok <==> forall i | 0 <= i < n :: WordOf(size, a + 2 * i) < |mem|
      ensures ok ==> |words| == n && forall i | 0 <= i < n :: words[i] == mem[WordOf(size, a + 2 * i)]
    {
      words := [];
      for i := 0 to n
        invariant |words| == i
        invariant forall j | 0 <= j < i :: WordOf(size, a + 2 * j) < |mem| && words[j] == mem[WordOf(size, a + 2 * j)]
      {
        var w := WordOf(size, a + 2 * i);
        if w >= |mem| {
          return false, words;
        }
        words := words + [mem[w]];
      }
      ok := true;
    }

    // Words written one after the other; what lies inside the area [lo, hi) stays when
    // none of them reaches it.
    method WriteWords(a: nat, words: seq<u16>, ghost lo: int, ghost hi: int) returns (ok: bool)
      requires Shape() && a % 2 == 0 && |words| <= 32
      modifies this`mem
      ensures |mem| == |old(mem)|
      ensures (forall i | 0 <= i < 32 :: Off(lo, hi, WordOf(size, a + 2 * i))) ==>
                forall w | 0 <= w < |mem| && !Off(lo, hi, w) :: mem[w] == old(mem)[w]
      ensures ok <==> forall i | 0 <= i < |words| :: WordOf(size, a + 2 * i) < |mem|
      ensures ok ==> forall i | 0 <= i < |words| :: mem[WordOf(size, a + 2 * i)] == words[i]
      ensures forall w | 0 <= w < |mem| ::
                mem[w] == old(mem)[w] || exists i | 0 <= i < |words| :: WordOf(size, a + 2 * i) == w
    {
      for i := 0 to |words|
        invariant |mem| == |old(mem)|
        invariant (forall j | 0 <= j < 32 :: Off(lo, hi, WordOf(size, a + 2 * j))) ==>
                    forall w | 0 <= w < |mem| && !Off(lo, hi, w) :: mem[w] == old(mem)[w]
        invariant forall j | 0 <= j < i :: WordOf(size, a + 2 * j) < |mem| && mem[WordOf(size, a + 2 * j)] == words[j]
        invariant forall w | 0 <= w < |mem| ::
                    mem[w] == old(mem)[w] || exists j | 0 <= j < i :: WordOf(size, a + 2 * j) == w
      {
        var w := WordOf(size, a + 2 * i);
        if w >= |mem| {
          return false;
        }
        forall j | 0 <= j < i
          ensures WordOf(size, a + 2 * j) != w
        {
          WordsDistinct(size, a, j, i);
        }
        mem := mem[w := words[i]];
      }
      ok := true;
    }

    method RaiseIrq()
      modifies this`irqReq
      ensures irqReq == (old(irqReq) || irqEn)
    {
      if irqEn && !irqReq {
        irqReq := true;
      }
    }

    method Fail(code: u16)
      requires code < 0x800
      modifies this`state, this`sa, this`irqReq
      ensures state == Dead && sa == 0x8000 + code && irqReq == (old(irqReq) || irqEn)
    {
      state := Dead;
      sa := 0x8000 + code;
      RaiseIrq();
    }

    // rq_ring_peek_owned
    method PeekOwned(ring: Ring) returns (rc: int, d: Desc)
      requires Shape()
      ensures var w, w' := WordOf(size, ring.base + ring.idx), WordOf(size, ring.base + ring.idx + 2);
              && (rc == 1 <==> ring.len > 0 && w < |mem| && w' < |mem| && Own(mem[w']))
              && (rc == 1 ==> d == Desc(mem[w], mem[w']))
              && (rc == -1 <==> ring.len > 0 && (w >= |mem| || w' >= |mem|))
              && -1 <= rc <= 1
    {
      d := Desc(0, 0);
      if ring.len == 0 {
        return 0, d;
      }
      var w, w' := WordOf(size, ring.base + ring.idx), WordOf(size, ring.base + ring.idx + 2);
      if w >= |mem| || w' >= |mem| {
        return -1, d;
      }
      if !Own(mem[w']) {
        return 0, d;
      }
      rc, d := 1, Desc(mem[w], mem[w']);
    }

    // The words of the two current slots and of the interrupt flags.
    lemma SlotWords()
      requires Shape() && Placed()
      ensures var k, j := |cmdLog| % nC, |rspLog| % nR;
              && WordOf(size, cmdRing.base + cmdRing.idx) == b + 2 * nR + 2 * k
              && WordOf(size, cmdRing.base + cmdRing.idx + 2) == b + 2 * nR + 2 * k + 1
              && WordOf(size, rspRing.base + rspRing.idx) == b + 2 * j
              && WordOf(size, rspRing.base + rspRing.idx + 2) == b + 2 * j + 1
              && comm >= 4 && WordOf(size, comm - 4) == b - 2 && WordOf(size, comm - 2) == b - 1
    {
      var k, j := |cmdLog| % nC, |rspLog| % nR;
      SlotAt(size, comm, b, 4 * nR + 4 * k);
      SlotAt(size, comm, b, 4 * j);
      FlagsAt(size, comm, b);
    }

    // rq_release_desc
    method Release(isCmd: bool, slot: nat, d: Desc) returns (ok: bool)
      requires Shape()
      modifies this`mem, this`cmdRing, this`rspRing
      ensures |mem| == |old(mem)|
      ensures var w, w', f := WordOf(size, slot), WordOf(size, slot + 2), if isCmd then comm - 4 else comm - 2;
              comm >= 4 && w < |mem| && w' < |mem| && w != w' && WordOf(size, f) < |mem| ==>
                && ok && mem == old(mem)[w := d.lo][w' := Released(d.hi)][WordOf(size, f) := 1]
                && cmdRing == (if isCmd then Advance(old(cmdRing)) else old(cmdRing))
                && rspRing == (if isCmd then old(rspRing) else Advance(old(rspRing)))
    {
      var w, w' := WordOf(size, slot), WordOf(size, slot + 2);
      if w >= |mem| {
        return false;
      }
      mem := mem[w := d.lo];
      if w' >= |mem| {
        return false;
      }
      mem := mem[w' := Released(d.hi)];
      var flag := if isCmd then comm - 4 else comm - 2;
      if comm != 0 && flag >= 0 && WordOf(size, flag) < |mem| {
        mem := mem[WordOf(size, flag) := 1];
      }
      if isCmd {
        cmdRing := Advance(cmdRing);
      } else {
        rspRing := Advance(rspRing);
      }
      ok := true;
    }

    // Releasing the descriptor at the current slot of a live ring: its owner bit and
    // the interrupt flag are all that changes.
    method ReleaseCurrent(isCmd: bool, d: Desc)
      requires Shape() && Placed()
      requires var w := if isCmd then b + 2 * nR + 2 * (|cmdLog| % nC) else b + 2 * (|rspLog| % nR);
               d == Desc(mem[w], mem[w + 1])
      modifies this`mem, this`cmdRing, this`rspRing
      ensures var w := if isCmd then b + 2 * nR + 2 * (|cmdLog| % nC) else b + 2 * (|rspLog| % nR);
              mem == old(mem)[w + 1 := Released(d.hi)][if isCmd then b - 2 else b - 1 := 1]
      ensures cmdRing == (if isCmd then Advance(old(cmdRing)) else old(cmdRing))
      ensures rspRing == (if isCmd then old(rspRing) else Advance(old(rspRing)))
    {
      hide WordOf, Released, Own;
      SlotWords();
      var slot := if isCmd then cmdRing.base + cmdRing.idx else rspRing.base + rspRing.idx;
      assert mem[WordOf(size, slot) := d.lo] == mem;
      var _ := Release(isCmd, slot, d);
    }

    // rq_apply_credits for the end of a command: up to fourteen saved credits and the
    // one of the command itself.
    method ApplyCredits() returns (grant: nat)
      modifies this`credits
      ensures 1 <= grant <= 15 && grant + credits == old(credits) + 1
      ensures old(credits) <= 14 ==> credits == 0
    {
      var cr := if credits >= 14 then 14 else credits;
      credits := credits - cr;
      grant := cr + 1;
    }

    // ---- Serving the rings ----

    ghost function CmdWord(): int
      reads `b, `nR, `nC, `cmdLog
      requires nC > 0
    {
      b + 2 * nR + 2 * (|cmdLog| % nC)
    }

    ghost function RspWord(): int
      reads `b, `nR, `rspLog
      requires nR > 0
    {
      b + 2 * (|rspLog| % nR)
    }

    // The descriptors at the current slots.
    ghost function CmdDesc(): Desc
      reads `b, `nR, `nC, `cmdLog, `mem
      requires nC > 0 && 0 <= CmdWord() && CmdWord() + 1 < |mem|
    {
      Desc(mem[CmdWord()], mem[CmdWord() + 1])
    }

    ghost function RspDesc(): Desc
      reads `b, `nR, `rspLog, `mem
      requires nR > 0 && 0 <= RspWord() && RspWord() + 1 < |mem|
    {
      Desc(mem[RspWord()], mem[RspWord() + 1])
    }

    // The command descriptor at the current slot is given back.
    method TakeCommand(d: Desc, ghost refl: u16, ghost refh: u16)
      requires Shape() && Placed() && Owned() && Own(d.hi) && d == Desc(mem[CmdWord()], mem[CmdWord() + 1])
      modifies this`mem, this`cmdRing, this`rspRing, this`cmdLog
      ensures Shape() && Placed() && Owned()
      ensures mem == old(mem[CmdWord() + 1 := Released(d.hi)][b - 2 := 1])
      ensures cmdLog == old(cmdLog) + [Taken(|old(cmdLog)| % nC, refl, refh)]
    {
      hide Hands, Buffers, WordOf, Own;
      ghost var t := |cmdLog|;
      NextIndex(cmdRing, t, nC);
      ReleaseStep(mem, Released(d.hi), b - 2, size, Lo(), Hi(), b + 2 * nR, nC, t, handedC, b, nR, |rspLog|, handedR);
      ReleaseCurrent(true, d);
      cmdLog := cmdLog + [Taken(t % nC, refl, refh)];
    }

    // The response descriptor at the current slot is given back.
    method SendResponse(d: Desc, ghost sent: Sent)
      requires Shape() && Placed() && Owned() && Own(d.hi) && d == Desc(mem[RspWord()], mem[RspWord() + 1])
      requires sent.slot == |rspLog| % nR
      modifies this`mem, this`cmdRing, this`rspRing, this`rspLog
      ensures Shape() && Placed() && Owned()
      ensures mem == old(mem[RspWord() + 1 := Released(d.hi)][b - 1 := 1])
      ensures rspLog == old(rspLog) + [sent]
    {
      hide Hands, Buffers, WordOf, Own;
      ghost var t := |rspLog|;
      NextIndex(rspRing, t, nR);
      ReleaseStep(mem, Released(d.hi), b - 1, size, Lo(), Hi(), b, nR, t, handedR, b + 2 * nR, nC, |cmdLog|, handedC);
      ReleaseCurrent(false, d);
      rspLog := rspLog + [sent];
    }

    // Memory changes outside the area leave the rings as they are.
    lemma AreaKept(m: seq<u16>)
      requires Shape() && Placed() && |m| == |mem|
      requires Hands(m, b, nR, |rspLog|, handedR) && Buffers(m, b, nR, size, Lo(), Hi())
      requires Hands(m, b + 2 * nR, nC, |cmdLog|, handedC) && Buffers(m, b + 2 * nR, nC, size, Lo(), Hi())
      requires forall w | 0 <= w < |mem| && !Off(Lo(), Hi(), w) :: mem[w] == m[w]
      ensures Owned()
    {
      hide Visits, AddrOf, BufferOff, Hands, Buffers, WordOf, Ends, References, Granted, Logged;
      SameRing(m, mem, b, nR, |rspLog|, handedR, size, Lo(), Hi());
      SameRing(m, mem, b + 2 * nR, nC, |cmdLog|, handedC, size, Lo(), Hi());
    }

    // What the port sees at its current slots.
    lemma Peeked(d: Desc, isCmd: bool)
      requires Shape() && Placed() && Owned()
      requires var w := if isCmd then CmdWord() else RspWord(); d == Desc(mem[w], mem[w + 1]) && Own(d.hi)
      ensures BufferOff(size, Lo(), Hi(), AddrOf(d))
    {
      hide Visits, AddrOf, BufferOff, WordOf;
    }

    // The packet that a descriptor points to.
    ghost predicate Packet(m: seq<u16>, d: Desc, words: seq<u16>)
      requires size > 0
    {
      && AddrOf(d) >= 4
      && forall i | 0 <= i < |words| ::
           WordOf(size, AddrOf(d) - 4 + 2 * i) < |m| && words[i] == m[WordOf(size, AddrOf(d) - 4 + 2 * i)]
    }

    // A packet goes into a buffer that stays clear of the rings.
    method PutPacket(d: Desc, words: seq<u16>) returns (ok: bool)
      requires Shape() && Placed() && Owned() && AddrOf(d) >= 4 && |words| <= 32
      requires BufferOff(size, Lo(), Hi(), AddrOf(d))
      modifies this`mem
      ensures Shape() && Placed() && Owned() && |mem| == |old(mem)|
      ensures forall w | 0 <= w < |mem| && !Off(Lo(), Hi(), w) :: mem[w] == old(mem)[w]
      ensures ok == Reachable(size, |mem|, AddrOf(d), |words|)
      ensures ok ==> Packet(mem, d, words)
      ensures DataOnly(old(mem), mem, size, Lo(), Hi(), AddrOf(d), |words|, map[])
    {
      EvenAddr(d);
      hide Visits, AddrOf, WordOf, Hands, Buffers, Own;
      ghost var m := mem;
      ok := WriteWords(AddrOf(d) - 4, words, Lo(), Hi());
      AreaKept(m);
    }

    // The data of a command and its response go into memory, off the rings.
    method Transfer(eff: Effect, cmd: seq<u16>, d: Desc) returns (ok: bool, grant: nat)
      requires Shape() && Placed() && Owned() && eff.Ok() && |cmd| == 32 && AddrOf(d) >= 4
      requires forall w | w in eff.data :: Off(Lo(), Hi(), w)
      requires BufferOff(size, Lo(), Hi(), AddrOf(d))
      modifies this`mem, this`credits, this`cflgs
      ensures Shape() && Placed() && Owned() && |mem| == |old(mem)|
      ensures forall w | 0 <= w < |mem| && !Off(Lo(), Hi(), w) :: mem[w] == old(mem)[w]
      ensures 1 <= grant && grant + credits == old(credits) + 1
      ensures ok == Reachable(size, |mem|, AddrOf(d), (eff.lnt + 4) / 2)
      ensures cflgs == eff.cflgs && DataOnly(old(mem), mem, size, Lo(), Hi(), AddrOf(d), (eff.lnt + 4) / 2, eff.data)
      ensures grant < 0x1_0000 && (ok ==> Packet(mem, d, Response(cmd, eff)[1 := grant][..(eff.lnt + 4) / 2]))
    {
      hide Visits, AddrOf, WordOf, Hands, Buffers, Response, Own, BufferOff, Packet;
      ghost var m := mem;
      mem := Apply(mem, eff.data);
      cflgs := eff.cflgs;
      AreaKept(m);
      var rsp := Response(cmd, eff);
      grant := ApplyCredits();
      rsp := rsp[1 := grant];
      ok := PutPacket(d, rsp[..(eff.lnt + 4) / 2]);
    }

    // Writes inside the area do not reach a packet that stays clear of it.
    lemma PacketKept(m: seq<u16>, m': seq<u16>, d: Desc, words: seq<u16>)
      requires Shape() && b >= 2 && |m| == |m'| && |words| <= 32
      requires BufferOff(size, Lo(), Hi(), AddrOf(d)) && Packet(m, d, words)
      requires forall w | 0 <= w < |m| && Off(Lo(), Hi(), w) :: m'[w] == m[w]
      ensures Packet(m', d, words)
    {
      hide AddrOf, WordOf;
    }

    // The logs of a command about to be ended with this grant.
    ghost predicate Pending(grant: nat)
      reads `nR, `nC, `cmdLog, `rspLog, `credits
    {
      && nR > 0 && nC > 0
      && Ends(rspLog) == References(cmdLog)
      && Granted(rspLog) + grant + credits == |cmdLog| + 8
      && (forall j | 0 <= j < |cmdLog| :: cmdLog[j].slot == j % nC)
      && (forall j | 0 <= j < |rspLog| :: rspLog[j].slot == j % nR)
    }

    // Both descriptors go back, the command's first.
    method Complete(d: Desc, d': Desc, ghost refl: u16, ghost refh: u16, ghost grant: nat)
      requires Shape() && Placed() && Owned() && Pending(grant) && state == Up
      requires Own(d.hi) && d == Desc(mem[CmdWord()], mem[CmdWord() + 1])
      requires Own(d'.hi) && d' == Desc(mem[RspWord()], mem[RspWord() + 1])
      modifies this`mem, this`cmdRing, this`rspRing, this`cmdLog, this`rspLog
      ensures Valid() && |mem| == |old(mem)|
      ensures cmdLog == old(cmdLog) + [Taken(|old(cmdLog)| % nC, refl, refh)]
      ensures rspLog == old(rspLog) + [End(|old(rspLog)| % nR, refl, refh, grant)]
      ensures mem == old(mem[CmdWord() + 1 := Released(d.hi)][b - 2 := 1][RspWord() + 1 := Released(d'.hi)][b - 1 := 1])
      ensures forall w | 0 <= w < |mem| && Off(Lo(), Hi(), w) :: mem[w] == old(mem)[w]
      ensures forall w | b <= w < Hi() && w != old(CmdWord()) + 1 && w != old(RspWord()) + 1 :: mem[w] == old(mem)[w]
    {
      hide Visits, WordOf, Hands, Buffers, Released, Own, Ends, References, Granted;
      ghost var t, s := Taken(|cmdLog| % nC, refl, refh), End(|rspLog| % nR, refl, refh, grant);
      LogEnd(cmdLog, rspLog, t, s);
      TakeCommand(d, refl, refh);
      SendResponse(d', s);
    }

    ghost function Now(): Shot
      reads `mem, `cmdLog, `rspLog, `una, `cflgs
    {
      Shot(mem, cmdLog, rspLog, una, cflgs)
    }

    // From p to q one command has been served: its end is logged with its reference and is
    // in the buffer of the response descriptor; the controller flags are those of the
    // command; its data is in memory; both descriptors are given back and both interrupt
    // flags are up; and nothing else has changed.
    ghost predicate Exchanged(p: Shot, q: Shot, cmd: seq<u16>, eff: Effect, grant: nat)
      reads `b, `nR, `nC
    {
      && size > 0 && nC > 0 && nR > 0 && b >= 2 && Hi() <= |p.mem| == |q.mem|
      && |cmd| == 32 && eff.Ok() && grant < 0x1_0000
      && var c, r := b + 2 * nR + 2 * (|p.cmds| % nC), b + 2 * (|p.rsps| % nR);
      && var d' := Desc(p.mem[r], p.mem[r + 1]);
      && q.cmds == p.cmds + [Taken(|p.cmds| % nC, cmd[2], cmd[3])]
      && q.rsps == p.rsps + [End(|p.rsps| % nR, cmd[2], cmd[3], grant)]
      && q.una == p.una && q.cflgs == eff.cflgs
      && Packet(q.mem, d', Response(cmd, eff)[1 := grant][..(eff.lnt + 4) / 2])
      && DataOnly(p.mem, q.mem, size, Lo(), Hi(), AddrOf(d'), (eff.lnt + 4) / 2, eff.data)
      && q.mem[c + 1] == Released(p.mem[c + 1]) && q.mem[r + 1] == Released(p.mem[r + 1])
      && q.mem[b - 2] == 1 && q.mem[b - 1] == 1
      && forall w | b <= w < Hi() && w != c + 1 && w != r + 1 :: q.mem[w] == p.mem[w]
    }

    // The logs have grown, that of the responses by one.
    ghost predicate OneMore(p: Shot, q: Shot) {
      p.cmds <= q.cmds && p.rsps <= q.rsps && |q.rsps| == |p.rsps| + 1
    }

    // What has been served since p1 has been served since p, when only data and the
    // response have been put in memory in between.
    lemma ExchangedSince(p: Shot, p1: Shot, q: Shot, cmd: seq<u16>, eff: Effect, grant: nat)
      requires Exchanged(p1, q, cmd, eff, grant) && |p.mem| == |p1.mem|
      requires p.cmds == p1.cmds && p.rsps == p1.rsps && p.una == p1.una
      requires forall w | 0 <= w < |p.mem| && !Off(Lo(), Hi(), w) :: p1.mem[w] == p.mem[w]
      requires var r := b + 2 * (|p.rsps| % nR);
               DataOnly(p.mem, p1.mem, size, Lo(), Hi(), AddrOf(Desc(p.mem[r], p.mem[r + 1])), (eff.lnt + 4) / 2,
                        eff.data)
      ensures Exchanged(p, q, cmd, eff, grant)
    {
      hide Packet, InPacket, AddrOf, Response, Released, WordOf;
    }

    // Complete, with the packet that was put in the response buffer.
    method CompletePacket(d: Desc, d': Desc, ghost cmd: seq<u16>, ghost eff: Effect, ghost grant: nat)
      requires Shape() && Placed() && Owned() && Pending(grant) && state == Up
      requires |cmd| == 32 && eff.Ok() && grant < 0x1_0000 && cflgs == eff.cflgs
      requires Own(d.hi) && d == Desc(mem[CmdWord()], mem[CmdWord() + 1])
      requires Own(d'.hi) && d' == Desc(mem[RspWord()], mem[RspWord() + 1])
      requires Packet(mem, d', Response(cmd, eff)[1 := grant][..(eff.lnt + 4) / 2])
      requires DataOnly(mem, mem, size, Lo(), Hi(), AddrOf(d'), (eff.lnt + 4) / 2, eff.data)
      modifies this`mem, this`cmdRing, this`rspRing, this`cmdLog, this`rspLog
      ensures Valid() && Exchanged(old(Now()), Now(), cmd, eff, grant) && OneMore(old(Now()), Now())
    {
      hide Visits, AddrOf, WordOf, Hands, Buffers, Response, Released, Own, Ends, References, Granted, BufferOff,
           Packet, Off, DataOnly, Exchanged;
      Peeked(d', false);
      ghost var p, packet := Now(), Response(cmd, eff)[1 := grant][..(eff.lnt + 4) / 2];
      SlotsInside();
      Complete(d, d', cmd[2], cmd[3], grant);
      PacketKept(p.mem, mem, d', packet);
      ExchangedBy(p, d, d', cmd, eff, grant);
    }

    lemma SlotsInside()
      requires Shape() && Placed()
      ensures b + 2 * nR <= CmdWord() && CmdWord() + 1 < Hi() && b <= RspWord() && RspWord() + 1 < b + 2 * nR
    {
      hide WordOf;
    }

    // Both descriptors have been given back, and the data was in place.
    lemma ExchangedBy(p: Shot, d: Desc, d': Desc, cmd: seq<u16>, eff: Effect, grant: nat)
      requires size > 0 && nR > 0 && nC > 0 && b >= 2 && Hi() <= |p.mem|
      requires |cmd| == 32 && eff.Ok() && grant < 0x1_0000 && cflgs == eff.cflgs && una == p.una
      requires var c, r := b + 2 * nR + 2 * (|p.cmds| % nC), b + 2 * (|p.rsps| % nR);
               && b + 2 * nR <= c && c + 1 < Hi() && b <= r && r + 1 < b + 2 * nR
               && d == Desc(p.mem[c], p.mem[c + 1]) && d' == Desc(p.mem[r], p.mem[r + 1])
               && mem == p.mem[c + 1 := Released(d.hi)][b - 2 := 1][r + 1 := Released(d'.hi)][b - 1 := 1]
      requires cmdLog == p.cmds + [Taken(|p.cmds| % nC, cmd[2], cmd[3])]
      requires rspLog == p.rsps + [End(|p.rsps| % nR, cmd[2], cmd[3], grant)]
      requires Packet(mem, d', Response(cmd, eff)[1 := grant][..(eff.lnt + 4) / 2])
      requires DataOnly(p.mem, p.mem, size, Lo(), Hi(), AddrOf(d'), (eff.lnt + 4) / 2, eff.data)
      ensures Exchanged(p, Now(), cmd, eff, grant)
    {
      hide Packet, InPacket, AddrOf, Response, Released, WordOf, DataOnly;
      DataThen(p.mem, p.mem, mem, size, Lo(), Hi(), AddrOf(d'), (eff.lnt + 4) / 2, eff.data);
    }

    // The part of serving a command after its packet has been read.
    method Answer(d: Desc, d': Desc, cmd: seq<u16>, eff: Effect) returns (ok: bool, ghost grant: nat)
      requires Valid() && state == Up && eff.Ok() && |cmd| == 32 && AddrOf(d') >= 4
      requires forall w | w in eff.data :: Off(Lo(), Hi(), w)
      requires Own(d.hi) && d == Desc(mem[CmdWord()], mem[CmdWord() + 1])
      requires Own(d'.hi) && d' == Desc(mem[RspWord()], mem[RspWord() + 1])
      modifies this`mem, this`cmdRing, this`rspRing, this`credits, this`cflgs, this`irqReq, this`state, this`sa,
               this`cmdLog, this`rspLog
      ensures Valid()
      ensures ok == Reachable(size, |old(mem)|, AddrOf(d'), (eff.lnt + 4) / 2)
      ensures if ok then state == Up
              else state == Dead && sa == 0x8002 && cmdLog == old(cmdLog) && rspLog == old(rspLog)
      ensures ok ==> Exchanged(old(Now()), Now(), cmd, eff, grant) && irqReq == (old(irqReq) || irqEn)
      ensures ok ==> OneMore(old(Now()), Now())
    {
      hide Visits, AddrOf, WordOf, Hands, Buffers, Response, Own, Ends, References, Granted, BufferOff, Packet,
           Exchanged, Reachable, DataOnly;
      Peeked(d', false);
      ghost var p := Now();
      var given;
      ok, given := Transfer(eff, cmd, d');
      grant := given;
      if !ok {
        Fail(2);
        return;
      }
      ghost var p1 := Now();
      DataSettled(p.mem, p1.mem, AddrOf(d'), (eff.lnt + 4) / 2, eff.data);
      CompletePacket(d, d', cmd, eff, given);
      ExchangedSince(p, p1, Now(), cmd, eff, given);
      RaiseIrq();
    }

    lemma DataSettled(m: seq<u16>, m1: seq<u16>, addr: nat, k: nat, data: map<nat, u16>)
      requires size > 0 && DataOnly(m, m1, size, Lo(), Hi(), addr, k, data)
      ensures DataOnly(m1, m1, size, Lo(), Hi(), addr, k, data)
    {
      hide InPacket, Off;
    }

    // The descriptors at both current slots, when the port owns them.
    method PeekBoth() returns (rc: int, d: Desc, d': Desc)
      requires Valid() && state == Up
      ensures 0 <= rc <= 1
      ensures rc == 1 <==> Own(mem[CmdWord() + 1]) && Own(mem[RspWord() + 1])
      ensures rc == 1 ==>
                d == Desc(mem[CmdWord()], mem[CmdWord() + 1]) && d' == Desc(mem[RspWord()], mem[RspWord() + 1])
    {
      hide Visits, AddrOf, WordOf, Hands, Buffers, Own, Ends, References, Granted;
      SlotWords();
      d' := Desc(0, 0);
      rc, d := PeekOwned(cmdRing);
      if rc <= 0 {
        return;
      }
      rc, d' := PeekOwned(rspRing);
    }

    method ReadPacket(d: Desc) returns (ok: bool, cmd: seq<u16>)
      requires Shape() && AddrOf(d) >= 4
      ensures ok == Reachable(size, |mem|, AddrOf(d), 32)
      ensures ok ==> |cmd| == 32 && Packet(mem, d, cmd)
    {
      hide AddrOf, WordOf;
      ok, cmd := ReadWords(AddrOf(d) - 4, 32);
    }

    // rq_process_one: when the port owns a descriptor in both rings, the command is
    // taken, its end is put in the response buffer, and both descriptors go back.
    method ProcessOne(eff: Effect) returns (rc: int, ghost cmd: seq<u16>, ghost grant: nat)
      requires Valid() && state == Up && eff.Ok()
      requires forall w | w in eff.data :: Off(Lo(), Hi(), w)
      modifies this`mem, this`cmdRing, this`rspRing, this`credits, this`cflgs, this`irqReq, this`state, this`sa,
               this`cmdLog, this`rspLog
      ensures Valid() && -1 <= rc <= 1
      ensures rc == 0 <==> !old(Own(mem[CmdWord() + 1]) && Own(mem[RspWord() + 1]))
      ensures old(Own(mem[CmdWord() + 1]) && Own(mem[RspWord() + 1])) ==>
                (rc == 1 <==> (old(Reachable(size, |mem|, AddrOf(CmdDesc()), 32))
                               && old(Reachable(size, |mem|, AddrOf(RspDesc()), (eff.lnt + 4) / 2))))
      ensures rc == 0 ==> mem == old(mem) && state == Up && cmdLog == old(cmdLog) && rspLog == old(rspLog)
                          && credits == old(credits) && cflgs == old(cflgs)
      ensures rc == -1 ==>
                && state == Dead && cmdLog == old(cmdLog) && rspLog == old(rspLog)
                && sa == if old(AddrOf(CmdDesc()) < 4 || AddrOf(RspDesc()) < 4) then 0x8008
                         else if !old(Reachable(size, |mem|, AddrOf(CmdDesc()), 32)) then 0x8001 else 0x8002
      ensures rc == 1 ==>
                && state == Up && irqReq == (old(irqReq) || irqEn)
                && Packet(old(mem), old(CmdDesc()), cmd)
                && Exchanged(old(Now()), Now(), cmd, eff, grant) && OneMore(old(Now()), Now())
    {
      hide Visits, AddrOf, WordOf, Hands, Buffers, Response, Own, Ends, References, Granted, BufferOff, Exchanged,
           Packet, Off;
      cmd, grant := [], 0;
      var d, d';
      rc, d, d' := PeekBoth();
      if rc <= 0 {
        return;
      }
      if AddrOf(d) < 4 || AddrOf(d') < 4 {
        Fail(8);
        rc := -1;
        return;
      }
      var ok, words := ReadPacket(d);
      if !ok {
        Fail(1);
        rc := -1;
        return;
      }
      cmd := words;
      ok, grant := Answer(d, d', words, eff);
      rc := if ok then 1 else -1;
    }

    // Some unit wants attention, the host has enabled it, and the port owns a response.
    ghost predicate Attends()
      reads `cflgs, `una, `mem, `b, `nR, `rspLog, `cmdLog
    {
      Wants(Now())
    }

    ghost predicate Wants(p: Shot)
      reads `b, `nR
    {
      && nR > 0
      && var r := b + 2 * (|p.rsps| % nR);
      && Bits(p.cflgs, 0x80, 2) == 1 && r + 1 < |p.mem| && Own(p.mem[r + 1])
      && exists u :: 0 <= u < |p.una| && p.una[u]
    }

    // The attention response of a unit.
    function AttentionPacket(unit: u16, body: seq<u16>): (p: seq<u16>)
      requires |body| == 32
      ensures |p| == 18 && p[0] == 32 && p[1] == p[2] == p[3] == 0 && p[4] == unit && p[6] == 0x40
    {
      body[0 := 32][1 := 0][2 := 0][3 := 0][4 := unit][6 := 0x40][..18]
    }

    // From p to q unit u has got its attention response, and nothing else has changed.
    ghost predicate Announced(p: Shot, q: Shot, body: seq<u16>, u: nat)
      reads `b, `nR, `nC
    {
      && size > 0 && nR > 0 && b >= 2 && Hi() <= |p.mem| == |q.mem| && u < |p.una| && u < 4 && |body| == 32
      && var r := b + 2 * (|p.rsps| % nR);
      && var d := Desc(p.mem[r], p.mem[r + 1]);
      && q.cmds == p.cmds && q.cflgs == p.cflgs && q.rsps == p.rsps + [Attention(|p.rsps| % nR)]
      && q.una == p.una[u := false]
      && Packet(q.mem, d, AttentionPacket(u, body))
      && DataOnly(p.mem, q.mem, size, Lo(), Hi(), AddrOf(d), 18, map[])
      && q.mem[r + 1] == Released(p.mem[r + 1]) && q.mem[b - 1] == 1 && q.mem[b - 2] == p.mem[b - 2]
      && forall w | b <= w < Hi() && w != r + 1 :: q.mem[w] == p.mem[w]
    }

    // That unit is the first that wanted attention.
    ghost predicate Attended(p: Shot, q: Shot, body: seq<u16>)
      reads `b, `nR, `nC
    {
      && |p.una| == 4
      && exists u :: 0 <= u < 4 && p.una[u] && (forall j | 0 <= j < u :: !p.una[j]) && Announced(p, q, body, u)
    }

    method FirstWaiting() returns (unit: nat)
      requires |una| == 4
      ensures unit <= 4 && (forall j | 0 <= j < unit :: !una[j]) && (unit < 4 ==> una[unit])
    {
      unit := 0;
      while unit < 4 && !una[unit]
        invariant unit <= 4 && forall j | 0 <= j < unit :: !una[j]
      {
        unit := unit + 1;
      }
    }

    // rq_post_attention_una: the first unit that wants attention gets a response of
    // its own when the port owns one.
    method PostAttention(body: seq<u16>) returns (rc: int)
      requires Valid() && state == Up && |body| == 32
      modifies this`mem, this`cmdRing, this`rspRing, this`irqReq, this`state, this`sa, this`rspLog, this`una
      ensures Valid() && -1 <= rc <= 1
      ensures rc != 0 <==> old(Attends())
      ensures rc == 0 ==> mem == old(mem) && state == Up && rspLog == old(rspLog) && una == old(una)
      ensures rc == -1 ==>
                state == Dead && rspLog == old(rspLog) && sa == if old(AddrOf(RspDesc()) < 4) then 0x8008 else 0x8002
      ensures old(Attends()) ==>
                (rc == 1 <==> old(Reachable(size, |mem|, AddrOf(Desc(mem[RspWord()], mem[RspWord() + 1])), 18)))
      ensures rc == 1 ==> state == Up && irqReq == (old(irqReq) || irqEn) && Attended(old(Now()), Now(), body)
      ensures rc == 1 ==> rspLog == old(rspLog) + [Attention(|old(rspLog)| % nR)]
    {
      hide Visits, AddrOf, WordOf, Hands, Buffers, Own, Ends, References, Granted, BufferOff, Packet, Announced;
      if Bits(cflgs, 0x80, 2) == 0 {
        return 0;
      }
      var unit := FirstWaiting();
      if unit >= 4 {
        return 0;
      }
      SlotWords();
      var d;
      rc, d := PeekOwned(rspRing);
      if rc <= 0 {
        return 0;
      }
      if AddrOf(d) < 4 {
        Fail(8);
        return -1;
      }
      rc := SendAttention(d, unit, body);
    }

    method SendAttention(d: Desc, unit: nat, body: seq<u16>) returns (rc: int)
      requires Valid() && state == Up && |body| == 32 && unit < 4 && AddrOf(d) >= 4
      requires Own(d.hi) && d == Desc(mem[RspWord()], mem[RspWord() + 1])
      modifies this`mem, this`cmdRing, this`rspRing, this`irqReq, this`state, this`sa, this`rspLog, this`una
      ensures Valid() && rc == (if Reachable(size, |old(mem)|, AddrOf(d), 18) then 1 else -1)
      ensures rc == -1 ==> state == Dead && rspLog == old(rspLog) && sa == 0x8002
      ensures rc == 1 ==>
                && state == Up && irqReq == (old(irqReq) || irqEn) && Announced(old(Now()), Now(), body, unit)
                && rspLog == old(rspLog) + [Attention(|old(rspLog)| % nR)]
    {
      hide Visits, AddrOf, WordOf, Hands, Buffers, Own, Ends, References, Granted, BufferOff, Packet, Released,
           AttentionPacket, DataOnly, Reachable, Announced;
      Peeked(d, false);
      ghost var p := Now();
      var rsp := AttentionPacket(unit, body);
      var ok := PutPacket(d, rsp);
      if !ok {
        Fail(2);
        return -1;
      }
      ghost var m := mem;
      SendPacket(d, rsp);
      una := una[unit := false];
      AnnouncedBy(p, m, d, body, unit);
      RaiseIrq();
      rc := 1;
    }

    // The packet has been put in memory, giving m, and the response given back.
    lemma AnnouncedBy(p: Shot, m: seq<u16>, d: Desc, body: seq<u16>, u: nat)
      requires size > 0 && nR > 0 && b >= 2 && Hi() <= |p.mem| == |m| && |body| == 32 && u < 4 && |p.una| == 4
      requires var r := b + 2 * (|p.rsps| % nR);
               && b <= r && r + 1 < Hi() && d == Desc(p.mem[r], p.mem[r + 1])
               && mem == m[r + 1 := Released(d.hi)][b - 1 := 1]
      requires forall w | 0 <= w < |m| && !Off(Lo(), Hi(), w) :: m[w] == p.mem[w]
      requires DataOnly(p.mem, m, size, Lo(), Hi(), AddrOf(d), 18, map[]) && Packet(mem, d, AttentionPacket(u, body))
      requires cmdLog == p.cmds && cflgs == p.cflgs && rspLog == p.rsps + [Attention(|p.rsps| % nR)]
      requires una == p.una[u := false]
      ensures Announced(p, Now(), body, u)
    {
      hide AddrOf, WordOf, Packet, Released, AttentionPacket, InPacket;
      DataThen(p.mem, m, mem, size, Lo(), Hi(), AddrOf(d), 18, map[]);
    }

    // The response is given back, with the packet that was put in its buffer.
    method SendPacket(d: Desc, ghost rsp: seq<u16>)
      requires Valid() && state == Up && |rsp| == 18 && Packet(mem, d, rsp)
      requires Own(d.hi) && d == Desc(mem[RspWord()], mem[RspWord() + 1])
      modifies this`mem, this`cmdRing, this`rspRing, this`rspLog
      ensures Valid() && |mem| == |old(mem)| && Packet(mem, d, rsp)
      ensures rspLog == old(rspLog) + [Attention(|old(rspLog)| % nR)]
      ensures mem == old(mem)[old(RspWord()) + 1 := Released(d.hi)][b - 1 := 1]
      ensures forall w | 0 <= w < |mem| && Off(Lo(), Hi(), w) :: mem[w] == old(mem)[w]
    {
      hide Visits, AddrOf, WordOf, Hands, Buffers, Own, Ends, References, Granted, BufferOff, Packet, Released;
      Peeked(d, false);
      ghost var sent, m := Attention(|rspLog| % nR), mem;
      LogAttention(rspLog, sent);
      SendResponse(d, sent);
      PacketKept(m, mem, d, rsp);
    }

    // Nothing that a poll could serve.
    ghost predicate Idle()
      reads `cflgs, `una, `mem, `b, `nR, `nC, `rspLog, `cmdLog
    {
      && !Attends() && nR > 0 && nC > 0
      && 0 <= CmdWord() && CmdWord() + 1 < |mem| && 0 <= RspWord() && RspWord() + 1 < |mem|
      && !(Own(mem[CmdWord() + 1]) && Own(mem[RspWord() + 1]))
    }

    // From p to q the command at the current slot has been served with this effect.
    ghost predicate Served(p: Shot, q: Shot, eff: Effect)
      reads `b, `nR, `nC
    {
      && size > 0 && nC > 0 && nR > 0
      && var c := b + 2 * nR + 2 * (|p.cmds| % nC);
      && c + 1 < |p.mem|
      && exists cmd: seq<u16>, grant: nat ::
           Packet(p.mem, Desc(p.mem[c], p.mem[c + 1]), cmd) && Exchanged(p, q, cmd, eff, grant)
    }

    // A turn of the poll: an attention if one is wanted, or else a command.
    ghost predicate Turned(p: Shot, q: Shot, eff: Effect, body: seq<u16>)
      reads `b, `nR, `nC
    {
      if Wants(p) then Attended(p, q, body) else Served(p, q, eff)
    }

    method Serve(eff: Effect, body: seq<u16>) returns (more: bool)
      requires Valid() && state == Up && eff.Ok() && |body| == 32
      requires forall w | w in eff.data :: Off(Lo(), Hi(), w)
      modifies this`mem, this`cmdRing, this`rspRing, this`credits, this`cflgs, this`irqReq, this`state, this`sa,
               this`cmdLog, this`rspLog, this`una
      ensures Valid() && old(cmdLog) <= cmdLog && old(rspLog) <= rspLog
      ensures more <==> state == Up && !old(Idle())
      ensures more ==> |rspLog| == |old(rspLog)| + 1 && Turned(old(Now()), Now(), eff, body)
      ensures !more ==> rspLog == old(rspLog) && cmdLog == old(cmdLog)
      ensures !more ==> if state == Up then Idle() && Now() == old(Now()) else state == Dead
    {
      hide Placed, Owned, Logged, Shape, Packet, Wants, Own, AddrOf, WordOf, Reachable, AttentionPacket, Response,
           Off, DataOnly, Released, Announced, Exchanged, Attended, Served;
      Slots();
      ghost var p := Now();
      var rc := PostAttention(body);
      more := rc > 0;
      if rc == 0 {
        var done;
        ghost var cmd, grant;
        done, cmd, grant := ProcessOne(eff);
        more := done > 0;
        if more {
          ServedWith(p, cmd, eff, grant);
        }
      }
    }

    lemma ServedWith(p: Shot, cmd: seq<u16>, eff: Effect, grant: nat)
      requires Exchanged(p, Now(), cmd, eff, grant)
      requires var c := b + 2 * nR + 2 * (|p.cmds| % nC);
               c + 1 < |p.mem| && Packet(p.mem, Desc(p.mem[c], p.mem[c + 1]), cmd)
      ensures Served(p, Now(), eff)
    {
      hide Packet, DataOnly, AddrOf, WordOf, Response, Released;
    }

    lemma Slots()
      requires Valid() && state == Up
      ensures nR > 0 && nC > 0 && 0 <= CmdWord() && CmdWord() + 1 < |mem| && 0 <= RspWord() && RspWord() + 1 < |mem|
    {
      hide Owned, Logged, WordOf;
    }

    // The turns of a poll, each with its effect or its attention.
    ghost predicate Turns(shots: seq<Shot>, effs: seq<Effect>, bodies: seq<seq<u16>>)
      reads `b, `nR, `nC
    {
      && 1 <= |shots| <= |effs| + 1 && |effs| == |bodies|
      && forall i | 0 <= i < |shots| - 1 :: Turned(shots[i], shots[i + 1], effs[i], bodies[i])
    }

    // rq_service_poll and rq11_poll: up to eight responses a poll, attentions first; the
    // command served in turn i is served with effect i. A poll stops short only when there
    // is nothing that it could serve.
    method Poll(effs: seq<Effect>, bodies: seq<seq<u16>>) returns (ghost shots: seq<Shot>)
      requires Valid() && |effs| == |bodies| == 8
      requires forall i | 0 <= i < 8 :: effs[i].Ok() && |bodies[i]| == 32
      requires state == Up ==> forall i, w | 0 <= i < 8 && w in effs[i].data :: Off(Lo(), Hi(), w)
      modifies this`mem, this`cmdRing, this`rspRing, this`credits, this`cflgs, this`irqReq, this`state, this`sa,
               this`cmdLog, this`rspLog, this`una, this`pollPending
      ensures Valid()
      ensures old(cmdLog) <= cmdLog && old(rspLog) <= rspLog
      ensures if old(state) == Up then state == Up || state == Dead
              else state == old(state) && mem == old(mem) && cmdLog == old(cmdLog) && rspLog == old(rspLog)
      ensures old(state) == Up && !old(pollPending) ==> mem == old(mem) && state == Up && !pollPending
      ensures old(pollPending) && old(state) == Up ==>
                && |rspLog| <= |old(rspLog)| + 8
                && (pollPending <==> |rspLog| == |old(rspLog)| + 8)
                && (!pollPending && state == Up ==> Idle())
      ensures old(pollPending) && old(state) == Up ==>
                && Turns(shots, effs, bodies) && shots[0] == old(Now()) && |shots| == |rspLog| - |old(rspLog)| + 1
                && (state == Up ==> shots[|shots| - 1] == Now())
    {
      hide Shape, Placed, Owned, Logged, Off, Idle, Turned;
      shots := [Now()];
      if state != Up || !pollPending {
        return;
      }
      for i := 0 to 8
        invariant Valid() && state == Up && pollPending
        invariant old(cmdLog) <= cmdLog && old(rspLog) <= rspLog && |rspLog| == |old(rspLog)| + i
        invariant |shots| == i + 1 && shots[0] == old(Now()) && shots[i] == Now() && Turns(shots, effs, bodies)
      {
        pollPending := Serve(effs[i], bodies[i]);
        if !pollPending {
          return;
        }
        shots := shots + [Now()];
      }
    }

    // ---- The handshake ----

    constructor (size: nat, mem: seq<u16>, caps: u16, model: u16)
      requires (size == 0x4_0000 || size == 0x40_0000) && 2 * |mem| < size && model < 0x100
      ensures Valid() && state == S1 && this.mem == mem
    {
      this.size, this.mem, this.caps, this.model := size, mem, caps, model;
      sa, s1Host, comm, state := caps, 0, 0, S1;
      irqReq, irqEn, pollPending, cflgs, credits := false, false, false, 0x8000, 7;
      cmdRing, rspRing := Ring(0, 0, 0), Ring(0, 0, 0);
      una := [false, false, false, false];
      b, nR, nC, handedR, handedC, cmdLog, rspLog := 0, 0, 0, [], [], [], [];
    }

    // A write to the IP register resets the controller, whatever its state.
    method Reset()
      requires Valid()
      modifies this
      ensures Valid() && state == S1 && mem == old(mem) && sa == caps && !irqReq && !irqEn && !pollPending
      ensures cflgs == 0x8000 && credits == 7 && una == [false, false, false, false]
    {
      hide Placed, Owned, Logged;
      sa, s1Host, comm, state := caps, 0, 0, S1;
      irqReq, irqEn, pollPending, cflgs, credits := false, false, false, 0x8000, 7;
      cmdRing, rspRing := Ring(0, 0, 0), Ring(0, 0, 0);
      una := [false, false, false, false];
    }

    // The flags and n descriptors at the communication address lie in memory.
    ghost predicate Room(n: nat)
      reads `comm, `mem
    {
      size > 0 && comm >= 4 && WordOf(size, comm) >= 2 && WordOf(size, comm) + 2 * n <= |mem|
    }

    // rq_clear_comm_area: the words from the flags to the end of the command ring are
    // cleared, which succeeds exactly when the area lies in memory without wrapping.
    method ClearCommArea(n: nat) returns (ok: bool)
      requires Shape() && comm % 2 == 0
      modifies this`mem
      ensures |mem| == |old(mem)| && ok == Room(n)
      ensures ok ==>
                var w := WordOf(size, comm);
                && forall i | 0 <= i < |mem| :: mem[i] == if w - 2 <= i < w + 2 * n then 0 else old(mem)[i]
    {
      hide WordOf;
      if comm < 4 {
        return false;
      }
      var start, end := comm - 4, comm + 4 * n;
      ghost var w0 := WordOf(size, start);
      var addr := start;
      while addr < end
        invariant addr % 2 == 0 && start <= addr <= end && |mem| == |old(mem)|
        invariant addr > start ==> w0 < |mem| && WordOf(size, addr) == w0 + (addr - start) / 2 <= |mem|
        invariant addr == start ==> WordOf(size, addr) == w0
        invariant forall i | 0 <= i < |mem| ::
                    mem[i] == if w0 <= i < w0 + (addr - start) / 2 then 0 else old(mem)[i]
      {
        if WordOf(size, addr) >= |mem| {
          if WordOf(size, comm) >= 2 {
            FlagsAt(size, comm, WordOf(size, comm));
          }
          return false;
        }
        mem := mem[WordOf(size, addr) := 0];
        NextWord(size, addr);
        addr := addr + 2;
      }
      ok := true;
      NextWord(size, comm - 4);
      NextWord(size, comm - 2);
    }

    // The end of the handshake: rings of the sizes in the first host word, unless they
    // do not fit.
    ghost predicate Started(raised: bool)
      reads `state, `sa, `s1Host, `comm, `mem, `nR, `nC, `cmdLog, `rspLog
    {
      var r, c := Pow2(Bits(s1Host, 0x100, 8)), Pow2(Bits(s1Host, 0x800, 8));
      && raised
      && if Room(r + c) then
           state == S4 && sa == 0x4000 + model * 0x10 + 3 && nR == r && nC == c && cmdLog == [] && rspLog == []
         else state == Dead && sa == 0x8007
    }

    // rq_step4: both rings are placed behind the flags, cleared, and at their first
    // slots.
    method Step4()
      requires Valid() && (state == S3 || state == S3Ppb) && comm % 2 == 0
      modifies this`cmdRing, this`rspRing, this`mem, this`state, this`sa, this`irqReq,
               this`b, this`nR, this`nC, this`handedR, this`handedC, this`cmdLog, this`rspLog
      ensures Valid() && |mem| == |old(mem)|
      ensures Started(irqReq == (old(irqReq) || irqEn))
      ensures state == S4 ==>
                forall w | 0 <= w < |mem| && (w < b - 2 || w >= Hi()) :: mem[w] == old(mem)[w]
    {
      hide Off, WordOf, Visits, Hands, Buffers, Pow2, Ends, References, Granted, Placed, Owned, Logged, Room;
      var r, c := Bits(s1Host, 0x100, 8), Bits(s1Host, 0x800, 8);
      RingSizes(r);
      RingSizes(c);
      var ok := PlaceRings(Pow2(r), Pow2(c));
      if !ok {
        Fail(7);
        return;
      }
      sa := 0x4000 + model * 0x10 + 3;
      state := S4;
      RaiseIrq();
    }

    // The response ring behind the flags, the command ring behind it, all cleared.
    method PlaceRings(rn: nat, cn: nat) returns (ok: bool)
      requires Shape() && credits == 7 && 1 <= rn <= 128 && 1 <= cn <= 128 && comm % 2 == 0
      modifies this`cmdRing, this`rspRing, this`mem,
               this`b, this`nR, this`nC, this`handedR, this`handedC, this`cmdLog, this`rspLog
      ensures |mem| == |old(mem)| && ok == Room(rn + cn)
      ensures ok ==>
                && Placed() && Owned() && Logged()
                && nR == rn && nC == cn && cmdLog == [] && rspLog == []
                && forall w | 0 <= w < |mem| && (w < b - 2 || w >= Hi()) :: mem[w] == old(mem)[w]
    {
      hide Off, WordOf, Visits, Hands, Buffers, Ends, References, Granted, Placed, Owned, Logged;
      rspRing := Ring(comm, 4 * rn, 0);
      cmdRing := Ring(comm + 4 * rn, 4 * cn, 0);
      ok := ClearCommArea(rn + cn);
      if ok {
        StartRings(rn, cn);
      }
    }

    // Cleared rings are in order: nothing handed over and nothing taken.
    ghost method StartRings(rn: nat, cn: nat)
      requires Shape() && credits == 7 && 1 <= rn <= 128 && 1 <= cn <= 128 && comm % 2 == 0
      requires var w := WordOf(size, comm);
               w >= 2 && w + 2 * (rn + cn) <= |mem| && forall i | w - 2 <= i < w + 2 * (rn + cn) :: mem[i] == 0
      requires rspRing == Ring(comm, 4 * rn, 0) && cmdRing == Ring(comm + 4 * rn, 4 * cn, 0)
      modifies this`b, this`nR, this`nC, this`handedR, this`handedC, this`cmdLog, this`rspLog
      ensures Placed() && Owned() && Logged()
      ensures b == WordOf(size, comm) && nR == rn && nC == cn && cmdLog == [] && rspLog == []
    {
      hide WordOf, Visits, Hands, Buffers, AddrOf, BufferOff, Own;
      var w := WordOf(size, comm);
      Cleared(mem, w, rn, size, w - 2, w + 2 * rn + 2 * cn);
      Cleared(mem, w + 2 * rn, cn, size, w - 2, w + 2 * rn + 2 * cn);
      DivModUnique(0, rn, 0, 0);
      DivModUnique(0, cn, 0, 0);
      b, nR, nC := w, rn, cn;
      handedR, handedC, cmdLog, rspLog := seq(rn, i => 0), seq(cn, i => 0), [], [];
    }

    // The communication address is even from the moment it is given.
    ghost predicate Addressed()
      reads `state, `comm
    {
      state == S3 || state == S3Ppa || state == S3Ppb ==> comm % 2 == 0
    }

    // rq_handle_sa_write: each step answers with its own bit and half of the first
    // word; the step that completes the address places the rings, unless a purge is
    // asked for first.
    method SaWrite(v: u16)
      requires Valid() && Addressed()
      modifies this
      ensures Valid() && Addressed()
      ensures old(state) == S1 || old(state) == S1Wrap ==>
                mem == old(mem)
                && if Bits(v, 0x4000, 2) == 1 then state == S1Wrap && sa == v
                   else if Bits(v, 0x8000, 2) == 0 then state == old(state) && sa == old(sa)
                   else state == S2 && s1Host == v && sa == 0x1000 + v / 0x100 && irqEn == (Bits(v, 0x80, 2) == 1)
                        && irqReq == (old(irqReq) || irqEn)
      ensures old(state) == S2 ==>
                mem == old(mem) && state == S3 && comm == v - v % 2 && sa == 0x2000 + s1Host % 0x100
                && irqReq == (old(irqReq) || irqEn)
      ensures old(state) == S3 ==>
                && comm == old(comm) + v % 0x8000 * 0x1_0000
                && if v >= 0x8000 then state == S3Ppa && sa == 0 && mem == old(mem) && irqReq == (old(irqReq) || irqEn)
                   else Started(irqReq == (old(irqReq) || irqEn))
      ensures old(state) == S3Ppa ==> mem == old(mem) && state == if v == 0 then S3Ppb else S3Ppa
      ensures old(state) == S4 ==>
                mem == old(mem) && (if v % 2 == 1 then state == Up && sa == 0 else state == S4 && sa == old(sa))
                && cmdLog == old(cmdLog) && rspLog == old(rspLog)
      ensures old(state) == S3Ppb || old(state) == Up || old(state) == Dead ==>
                mem == old(mem) && state == old(state) && sa == old(sa)
                && cmdLog == old(cmdLog) && rspLog == old(rspLog) && credits == old(credits)
    {
      hide Shape, Placed, Owned, Logged, Pow2, WordOf, Started, Room;
      match state
      case S1 | S1Wrap =>
        if Bits(v, 0x4000, 2) == 1 {
          sa, state := v, S1Wrap;
        } else if Bits(v, 0x8000, 2) == 1 {
          s1Host, irqEn := v, Bits(v, 0x80, 2) == 1;
          sa, state := 0x1000 + v / 0x100, S2;
          RaiseIrq();
        }
      case S2 =>
        comm := v - v % 2;
        sa, state := 0x2000 + s1Host % 0x100, S3;
        RaiseIrq();
      case S3 =>
        EvenSum(comm, v % 0x8000);
        comm := comm + v % 0x8000 * 0x1_0000;
        if v >= 0x8000 {
          sa, state := 0, S3Ppa;
          RaiseIrq();
        } else {
          Step4();
        }
      case S3Ppa =>
        if v == 0 {
          state := S3Ppb;
        }
      case S4 =>
        if v % 2 == 1 {
          sa, state := 0, Up;
        }
      case S3Ppb | Up | Dead =>
    }

    // rq_handle_ip_read: the purge is complete, or the host asks for a poll.
    method IpRead()
      requires Valid() && Addressed()
      modifies this
      ensures Valid() && Addressed()
      ensures old(state) == S3Ppb ==> Started(irqReq == (old(irqReq) || irqEn))
      ensures old(state) != S3Ppb ==> state == old(state) && mem == old(mem)
                                      && cmdLog == old(cmdLog) && rspLog == old(rspLog)
      ensures old(state) == Up ==> pollPending
    {
      hide Placed, Owned, Logged, Started;
      if state == S3Ppb {
        Step4();
      } else if state == Up {
        pollPending := true;
      }
    }

    // ---- The host ----

    // The host writes outside the rings, or clears a flag.
    method HostWrite(w: nat, v: u16)
      requires Valid() && w < |mem| && (state == S4 || state == Up ==> w < b || w >= Hi())
      modifies this`mem
      ensures Valid() && mem == old(mem)[w := v]
    {
      hide Visits, AddrOf, BufferOff, Hands, Buffers, WordOf, Ends, References, Granted, Logged;
      ghost var m := mem;
      mem := mem[w := v];
      if state == S4 || state == Up {
        SameRing(m, mem, b, nR, |rspLog|, handedR, size, Lo(), Hi());
        SameRing(m, mem, b + 2 * nR, nC, |cmdLog|, handedC, size, Lo(), Hi());
      }
    }

    // The host writes half of a command descriptor that it owns; with the owner bit it
    // hands over a packet that stays clear of the rings.
    method HostGiveCommand(w: nat, v: u16, ghost k: nat, ghost half: nat)
      requires Valid() && (state == S4 || state == Up) && k < nC && half < 2 && w == b + 2 * nR + 2 * k + half
      requires !Own(mem[b + 2 * nR + 2 * k + 1])
      requires half == 1 && Own(v) ==> BufferOff(size, Lo(), Hi(), AddrOf(Desc(mem[w - 1], v)))
      modifies this`mem, this`handedC
      ensures Valid() && mem == old(mem)[w := v]
      ensures handedC == if half == 1 && Own(v) then old(handedC)[k := old(handedC)[k] + 1] else old(handedC)
    {
      hide Visits, AddrOf, BufferOff, Hands, Buffers, WordOf, Own, Logged;
      GiveKeeps(mem, size, Lo(), Hi(), w, v, k, half, b + 2 * nR, nC, |cmdLog|, handedC, b, nR, |rspLog|, handedR);
      mem := mem[w := v];
      if half == 1 && Own(v) {
        handedC := handedC[k := handedC[k] + 1];
      }
    }

    // The same for a response descriptor.
    method HostGiveResponse(w: nat, v: u16, ghost k: nat, ghost half: nat)
      requires Valid() && (state == S4 || state == Up) && k < nR && half < 2 && w == b + 2 * k + half
      requires !Own(mem[b + 2 * k + 1])
      requires half == 1 && Own(v) ==> BufferOff(size, Lo(), Hi(), AddrOf(Desc(mem[w - 1], v)))
      modifies this`mem, this`handedR
      ensures Valid() && mem == old(mem)[w := v]
      ensures handedR == if half == 1 && Own(v) then old(handedR)[k := old(handedR)[k] + 1] else old(handedR)
    {
      hide Visits, AddrOf, BufferOff, Hands, Buffers, WordOf, Own, Logged;
      GiveKeeps(mem, size, Lo(), Hi(), w, v, k, half, b, nR, |rspLog|, handedR, b + 2 * nR, nC, |cmdLog|, handedC);
      mem := mem[w := v];
      if half == 1 && Own(v) {
        handedR := handedR[k := handedR[k] + 1];
      }
    }

    // Attaching an image asks for an attention response.
    method Attach(unit: nat)
      requires Valid() && unit < 4
      modifies this`una, this`pollPending
      ensures Valid() && una == old(una)[unit := true] && pollPending
    {
      una := una[unit := true];
      pollPending := true;
    }

    // rq11_irq_ack
    method AckIrq()
      requires Valid()
      modifies this`irqReq
      ensures Valid() && !irqReq
    {
      irqReq := false;
    }

    // rq11_close_image: nothing is left to announce or to poll for.
    method CloseImages()
      requires Valid()
      modifies this`una, this`pollPending
      ensures Valid() && !pollPending && forall u | 0 <= u < 4 :: !una[u]
    {
      una, pollPending := [false, false, false, false], false;
    }

    // ---- Runs ----

    predicate Live()
      reads `state
    {
      state == S4 || state == Up
    }

    // The word at which the rings start, by what the port knows, and the one past them.
    function First(): nat
      reads `comm
    {
      if size > 0 then WordOf(size, comm) else 0
    }

    function Past(): nat
      reads `comm, `cmdRing, `rspRing
    {
      First() + (rspRing.len + cmdRing.len) / 2
    }

    // The host writes only descriptors that it owns, and keeps buffers off the area.
    predicate MayWrite(w: nat, v: u16)
      reads `state, `mem, `comm, `cmdRing, `rspRing
    {
      w < |mem| && size > 0
      && (Live() && First() <= w < Past() ==>
            var half := (w - First()) % 2;
            && w - half + 1 < |mem| && !Own(mem[w - half + 1])
            && (half == 1 && Own(v) ==> BufferOff(size, First() - 2, Past(), AddrOf(Desc(mem[w - 1], v)))))
    }

    predicate Fair(e: Event)
      reads `state, `mem, `comm, `cmdRing, `rspRing
    {
      match e
      case HostWrites(w, v) => MayWrite(w, v)
      case Polls(effs, bodies) =>
        && |effs| == |bodies| == 8
        && (forall i | 0 <= i < 8 :: effs[i].Ok() && |bodies[i]| == 32)
        && (Live() ==> forall i | 0 <= i < 8 :: forall w | w in effs[i].data :: Off(First() - 2, Past(), w))
      case Attaches(unit) => unit < 4
      case _ => true
    }

    lemma AreaKnown()
      requires Valid() && Live()
      ensures First() == b && Past() == Hi() && First() - 2 == Lo() && rspRing.len == 4 * nR && size > 0
    {
      hide Owned, Logged;
    }

    // A host write that is fair, wherever it goes.
    method HostWrites(w: nat, v: u16)
      requires Valid() && MayWrite(w, v)
      modifies this`mem, this`handedC, this`handedR
      ensures Valid() && mem == old(mem)[w := v]
    {
      hide Shape, Placed, Owned, Logged, BufferOff, Own;
      if Live() {
        AreaKnown();
      }
      if Live() && First() <= w < Past() {
        HostWritesRing(w, v);
      } else {
        HostWrite(w, v);
      }
    }

    method HostWritesRing(w: nat, v: u16)
      requires Valid() && MayWrite(w, v) && Live() && First() <= w < Past()
      modifies this`mem, this`handedC, this`handedR
      ensures Valid() && mem == old(mem)[w := v]
    {
      hide Shape, Placed, Owned, Logged, AddrOf, BufferOff, Own, MayWrite, WordOf;
      AreaKnown();
      RingWrite(w, v);
      var back := w - First();
      if back < rspRing.len / 2 {
        SlotOf(b, w, 0, nR);
        HostGiveResponse(w, v, back / 2, back % 2);
      } else {
        var start := rspRing.len / 2;
        SlotOf(b, w, start, nC);
        HostGiveCommand(w, v, (back - start) / 2, back % 2);
      }
    }

    // What may be written in the rings.
    lemma RingWrite(w: nat, v: u16)
      requires Valid() && MayWrite(w, v) && Live() && b <= w < Hi()
      ensures size > 0 && Hi() <= |mem|
      ensures var half := (w - b) % 2;
              && w - half + 1 < |mem| && !Own(mem[w - half + 1])
              && (half == 1 && Own(v) ==> BufferOff(size, Lo(), Hi(), AddrOf(Desc(mem[w - 1], v))))
    {
      hide Owned, Logged, AddrOf, BufferOff, Own;
      AreaKnown();
    }

    // Half and slot of a word in a ring of n slots that starts behind b.
    lemma SlotOf(b: nat, w: nat, start: nat, n: nat)
      requires start % 2 == 0 && b + start <= w < b + start + 2 * n
      ensures var half, k := (w - b) % 2, (w - b - start) / 2;
              k < n && half < 2 && b + start + 2 * k + half == w
    {
    }

    method Happen(e: Event)
      requires Valid() && Addressed() && Fair(e)
      modifies this
      ensures Valid() && Addressed()
      ensures old(state) == Dead && !e.IpWritten? ==> state == Dead && cmdLog == old(cmdLog) && rspLog == old(rspLog)
      ensures old(state) == Up && !e.IpWritten? ==>
                (state == Up || state == Dead) && old(cmdLog) <= cmdLog && old(rspLog) <= rspLog
    {
      hide Shape, Placed, Owned, Logged, Started, BufferOff, MayWrite;
      match e
      case HostWrites(w, v) => HostWrites(w, v);
      case SaWritten(v) => SaWrite(v);
      case IpRead => IpRead();
      case IpWritten => Reset();
      case Attaches(unit) => Attach(unit);
      case InterruptTaken => AckIrq();
      case ImagesClosed => CloseImages();
      case Polls(effs, bodies) =>
        if Live() {
          AreaKnown();
        }
        var _ := Poll(effs, bodies);
    }

    // Any interleaving of host and port. A step of the host that is not fair is left
    // out. From a port that is up the logs only grow, until it is reset; at the end, as
    // in between, every command taken has had its end, in order, and the credits add up.
    method Run(events: seq<Event>)
      requires Valid() && Addressed()
      modifies this
      ensures Valid() && Addressed()
      ensures old(state) == Up && IpWritten !in events ==>
                (state == Up || state == Dead) && old(cmdLog) <= cmdLog && old(rspLog) <= rspLog
      ensures Live() ==>
                && Ends(rspLog) == References(cmdLog)
                && |rspLog| == |cmdLog| + Attentions(rspLog)
                && Granted(rspLog) == |cmdLog| + 7 - credits
    {
      hide Shape, Placed, Owned, Logged;
      for k := 0 to |events|
        invariant Valid() && Addressed()
        invariant old(state) == Up && IpWritten !in events ==>
                    (state == Up || state == Dead) && old(cmdLog) <= cmdLog && old(rspLog) <= rspLog
      {
        if Fair(events[k]) {
          Happen(events[k]);
        }
      }
      if Live() {
        Accounts();
      }
    }

    // ---- What every run keeps ----

    // Every command taken has had exactly one end, in the same order; the other
    // responses are attentions; and the credits granted are one for each end and the
    // part of the initial seven that is gone.
    lemma Accounts()
      requires Valid() && (state == S4 || state == Up)
      ensures Ends(rspLog) == References(cmdLog)
      ensures |rspLog| == |cmdLog| + Attentions(rspLog)
      ensures Granted(rspLog) == |cmdLog| + 7 - credits
      ensures |Ends(rspLog)| == |cmdLog|
      ensures forall i | 0 <= i < |cmdLog| :: Ends(rspLog)[i] == (cmdLog[i].refl, cmdLog[i].refh)
    {
      LogCounts(rspLog);
      ReferenceCount(cmdLog);
      forall i | 0 <= i < |cmdLog|
        ensures Ends(rspLog)[i] == (cmdLog[i].refl, cmdLog[i].refh)
      {
        ReferenceAt(cmdLog, i);
      }
    }

    // Command k of turn t was taken from slot k, and the slot has been handed over as
    // often as it was taken, or once more while the port owns it.
    lemma TakenOnce(k: nat)
      requires Valid() && (state == S4 || state == Up) && k < nC
      ensures Visits(|cmdLog|, nC, k) == |cmdLog| / nC + if k < |cmdLog| % nC then 1 else 0
      ensures handedC[k] == Visits(|cmdLog|, nC, k) + if Own(mem[b + 2 * nR + 2 * k + 1]) then 1 else 0
      ensures forall j | 0 <= j < |cmdLog| :: cmdLog[j].slot == j % nC
    {
      hide Visits, Buffers, AddrOf, BufferOff, WordOf, Ends, References, Granted;
      VisitsAt(|cmdLog|, nC, k);
    }

    // The same for responses.
    lemma SentOnce(k: nat)
      requires Valid() && (state == S4 || state == Up) && k < nR
      ensures handedR[k] == |rspLog| / nR + (if k < |rspLog| % nR then 1 else 0)
                            + if Own(mem[b + 2 * k + 1]) then 1 else 0
      ensures forall j | 0 <= j < |rspLog| :: rspLog[j].slot == j % nR
    {
      hide Visits, Buffers, AddrOf, BufferOff, WordOf, Ends, References, Granted;
      VisitsAt(|rspLog|, nR, k);
    }

    // The rings: aligned positions inside two adjacent stretches.
    lemma RingsApart()
      requires Valid() && (state == S4 || state == Up)
      ensures rspRing.idx % 4 == 0 && rspRing.idx < rspRing.len && cmdRing.idx % 4 == 0 && cmdRing.idx < cmdRing.len
      ensures cmdRing.base == rspRing.base + rspRing.len && rspRing.base == comm
    {
      hide Owned, Logged, WordOf;
    }
  }

  lemma EvenSum(c: nat, h: nat)
    ensures (c + h * 0x1_0000) % 2 == c % 2
  {
    DivModUnique(c + h * 0x1_0000, 2, c / 2 + h * 0x8000, c % 2);
  }

  // A ring has one to 128 slots.
  lemma RingSizes(k: nat)
    requires k < 8
    ensures 1 <= Pow2(k) <= 128
  {
    Pow2Monotone(k, 7);
    assert Pow2(7) == 128;
  }

  lemma EvenAddr(d: Desc)
    ensures AddrOf(d) % 2 == 0
  {
    var h := d.lo / 2;
    assert AddrOf(d) == 2 * (d.hi % 0x40 * 0x8000 + h);
  }
}
