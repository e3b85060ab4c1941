/**
 Netmap rings as values: circular slot arrays with a cursor and a kernel-owned tail, the zero-copy
 step that moves one received packet, and what a batch of such steps amounts to.
 */
module RingModel {
  import opened Bytes

  const NS_BUF_CHANGED: bv16 := 1
  const MAX_PACKET: nat := 2048

  datatype Slot = Slot(bufIdx: nat, len: nat, flags: bv16)

  datatype Ring = Ring(slots: seq<Slot>, head: nat, cur: nat, tail: nat, flags: nat)

  predicate WellFormed(r: Ring)
  {
    0 < |r.slots| < U32 / 2 && r.head < |r.slots| && r.cur < |r.slots| && r.tail < |r.slots|
  }

  function Next(n: nat, i: nat): nat
  {
    if i + 1 == n then 0 else i + 1
  }

  /** How many slots p lies after c in a ring of n slots. */
  function Dist(c: nat, p: nat, n: nat): nat
    requires c < n && p < n
  {
    if p >= c then p - c else p - c + n
  }

  /** The slots from cur up to tail: packets to receive, or room to send. */
  function Space(r: Ring): nat
    requires WellFormed(r)
  {
    Dist(r.cur, r.tail, |r.slots|)
  }

  predicate Empty(r: Ring)
  {
    r.cur == r.tail
  }

  /** The slot i places after c in a ring of n slots. */
  function Pos(c: nat, i: nat, n: nat): (p: nat)
    requires c < n && i <= n
    ensures p < n
  {
    if c + i < n then c + i else c + i - n
  }

  lemma NextOfPos(c: nat, i: nat, n: nat)
    requires c < n && i < n
    ensures Next(n, Pos(c, i, n)) == Pos(c, i + 1, n)
  {
  }

  lemma PosInjective(c: nat, i: nat, j: nat, n: nat)
    requires c < n && i < n && j < n && Pos(c, i, n) == Pos(c, j, n)
    ensures i == j
  {
  }

  /** Space counts the slots from cur up to tail, wherever the ring wraps, and is zero exactly for an
      empty ring. */
  lemma SpaceReachesTail(r: Ring)
    requires WellFormed(r)
    ensures 0 <= Space(r) < |r.slots| && Pos(r.cur, Space(r), |r.slots|) == r.tail
    ensures Space(r) == 0 <==> Empty(r)
  {
  }

  // ---------------------------------------------------------------------------------------------
  // One packet

  /** What a packet handler decides: its own state, its packet's contents and length, send or drop. */
  datatype Verdict<H> = Verdict(h: H, buf: Buffer, len: nat, send: bool)

  type Handler<!H> = (H, Buffer, nat) -> Verdict<H>

  /** The slots of one rx and one tx ring, the two working cursors, all packet buffers by index, and
      the handler's state. */
  datatype Flow<H> = Flow(rx: seq<Slot>, tx: seq<Slot>, rc: nat, tc: nat, mem: seq<Buffer>, h: H)

  ghost predicate Sound<H>(f: Flow<H>)
  {
    && f.rc < |f.rx| && f.tc < |f.tx|
    && (forall i :: 0 <= i < |f.rx| ==> f.rx[i].bufIdx < |f.mem|)
    && (forall i :: 0 <= i < |f.tx| ==> f.tx[i].bufIdx < |f.mem|)
  }

  function Clamped(len: nat): nat
  {
    if len > MAX_PACKET then 0 else len
  }

  function Marked(flags: bv16): bv16
  {
    flags | NS_BUF_CHANGED
  }

  predicate IsMarked(flags: bv16)
  {
    flags & NS_BUF_CHANGED != 0
  }

  lemma MarkedIsMarked(flags: bv16)
    ensures IsMarked(Marked(flags))
  {
  }

  /** Marking a slot sets bit 0 of its flags and keeps the fifteen others. */
  lemma MarkedKeepsOthers(flags: bv16)
    ensures Marked(flags) & 1 == 1 && Marked(flags) & 0xFFFE == flags & 0xFFFE
  {
  }

  /** Handle the packet at the rx cursor; when it is to be sent, swap its buffer with that of the slot
      at the tx cursor. */
  ghost function Step<H>(handler: Handler<H>, f: Flow<H>): (g: Flow<H>)
    requires Sound(f)
    ensures Sound(g) && |g.rx| == |f.rx| && |g.tx| == |f.tx| && |g.mem| == |f.mem|
  {
    var r, t := f.rx[f.rc], f.tx[f.tc];
    var v := handler(f.h, f.mem[r.bufIdx], Clamped(r.len));
    var mem := f.mem[r.bufIdx := v.buf];
    var rc := Next(|f.rx|, f.rc);
    if v.send then
      Flow(f.rx[f.rc := Slot(t.bufIdx, v.len % U16, Marked(r.flags))],
           f.tx[f.tc := Slot(r.bufIdx, v.len % U16, Marked(t.flags))],
           rc, Next(|f.tx|, f.tc), mem, v.h)
    else
      Flow(f.rx[f.rc := r.(len := Clamped(r.len))], f.tx, rc, f.tc, mem, v.h)
  }

  /** Sending exchanges the two slots' buffers, gives both the length the handler left, and marks both; dropping
      leaves the tx side alone and the rx slot its buffer. */
  lemma StepExchanges<H>(handler: Handler<H>, f: Flow<H>)
    requires Sound(f)
    ensures var r, t, g := f.rx[f.rc], f.tx[f.tc], Step(handler, f);
      var v := handler(f.h, f.mem[r.bufIdx], if r.len <= 2048 then r.len else 0);
      && g.h == v.h && g.mem == f.mem[r.bufIdx := v.buf]
      && (if v.send then
            && g.rx[f.rc].bufIdx == t.bufIdx && g.tx[f.tc].bufIdx == r.bufIdx
            && g.rx[f.rc].len == g.tx[f.tc].len == v.len % 0x1_0000
            && g.rx[f.rc].flags == r.flags | 1 && g.tx[f.tc].flags == t.flags | 1
          else
            && g.tx == f.tx && g.tc == f.tc && g.rx[f.rc].bufIdx == r.bufIdx && g.rx[f.rc].flags == r.flags
            && g.rx[f.rc].len == if r.len <= 2048 then r.len else 0)
  {
  }

  ghost function Batch<H>(handler: Handler<H>, f: Flow<H>, n: nat): (g: Flow<H>)
    requires Sound(f)
    ensures Sound(g) && |g.rx| == |f.rx| && |g.tx| == |f.tx| && |g.mem| == |f.mem|
  {
    if n == 0 then f else Step(handler, Batch(handler, f, n - 1))
  }

  // ---------------------------------------------------------------------------------------------
  // What a batch should do, said without cursors: handle the arrivals in order, send some of them

  datatype Arrival = Arrival(slot: Slot, buf: Buffer)

  datatype Sent = Sent(bufIdx: nat, len: nat, buf: Buffer)

  ghost function ArrivalAt<H>(f: Flow<H>, i: nat): Arrival
    requires Sound(f) && i < |f.rx|
  {
    var s := f.rx[Pos(f.rc, i, |f.rx|)];
    Arrival(s, f.mem[s.bufIdx])
  }

  /** The handler's state before packet i. */
  ghost function StateAt<H>(handler: Handler<H>, f: Flow<H>, i: nat): H
    requires Sound(f) && i <= |f.rx|
    decreases i, 0
  {
    if i == 0 then f.h else VerdictAt(handler, f, i - 1).h
  }

  ghost function VerdictAt<H>(handler: Handler<H>, f: Flow<H>, i: nat): Verdict<H>
    requires Sound(f) && i < |f.rx|
    decreases i, 1
  {
    handler(StateAt(handler, f, i), ArrivalAt(f, i).buf, Clamped(ArrivalAt(f, i).slot.len))
  }

  /** The packets among the first n that are to be sent, in order of arrival, with their final contents. */
  ghost function Outgoing<H>(handler: Handler<H>, f: Flow<H>, n: nat): (r: seq<Sent>)
    requires Sound(f) && n <= |f.rx|
    ensures |r| <= n
  {
    if n == 0 then []
    else
      var before, v := Outgoing(handler, f, n - 1), VerdictAt(handler, f, n - 1);
      if v.send then before + [Sent(ArrivalAt(f, n - 1).slot.bufIdx, v.len % U16, v.buf)] else before
  }

  ghost predicate DistinctArrivals<H>(f: Flow<H>)
  {
    forall i, j :: 0 <= i < j < |f.rx| ==> f.rx[i].bufIdx != f.rx[j].bufIdx
  }

  /** The first n packets leave the tx ring's slots at least enough room. */
  ghost predicate Fits<H>(handler: Handler<H>, f: Flow<H>, n: nat)
    requires Sound(f) && n <= |f.rx|
  {
    forall i :: 0 <= i <= n ==> |Outgoing(handler, f, i)| <= |f.tx|
  }

  /** The rx slot i places after the cursor, once handled: a sent packet's slot has taken the buffer
      of the tx slot its packet went to, a dropped packet's slot keeps its own. */
  ghost function HandledSlot<H>(handler: Handler<H>, f: Flow<H>, i: nat): Slot
    requires Sound(f) && i < |f.rx| && |Outgoing(handler, f, i)| <= |f.tx|
  {
    var r, v := ArrivalAt(f, i).slot, VerdictAt(handler, f, i);
    if v.send then
      Slot(f.tx[Pos(f.tc, |Outgoing(handler, f, i)|, |f.tx|)].bufIdx, v.len % U16, Marked(r.flags))
    else
      r.(len := Clamped(r.len))
  }

  ghost predicate RxDone<H>(handler: Handler<H>, f: Flow<H>, g: Flow<H>, n: nat)
    requires Sound(f) && n <= |f.rx| == |g.rx| && Fits(handler, f, n)
  {
    forall i :: 0 <= i < |f.rx| ==>
      g.rx[Pos(f.rc, i, |f.rx|)] == if i < n then HandledSlot(handler, f, i) else f.rx[Pos(f.rc, i, |f.rx|)]
  }

  /** The tx slots from the cursor on hold the outgoing packets, in order; the others are untouched. */
  ghost predicate TxDone<H>(f: Flow<H>, g: Flow<H>, outgoing: seq<Sent>)
    requires Sound(f) && |g.tx| == |f.tx|
  {
    forall j :: 0 <= j < |f.tx| ==>
      var t := f.tx[Pos(f.tc, j, |f.tx|)];
      g.tx[Pos(f.tc, j, |f.tx|)] ==
        if j < |outgoing| then Slot(outgoing[j].bufIdx, outgoing[j].len, Marked(t.flags)) else t
  }

  /** Each handled packet's buffer holds what the handler left there; no other buffer is touched. */
  ghost predicate MemDone<H>(handler: Handler<H>, f: Flow<H>, g: Flow<H>, n: nat)
    requires Sound(f) && n <= |f.rx| && |g.mem| == |f.mem|
  {
    && (forall i :: 0 <= i < n ==> g.mem[ArrivalAt(f, i).slot.bufIdx] == VerdictAt(handler, f, i).buf)
    && (forall b :: 0 <= b < |f.mem| && (forall i :: 0 <= i < n ==> ArrivalAt(f, i).slot.bufIdx != b) ==>
          g.mem[b] == f.mem[b])
  }

  ghost predicate Filtered<H>(handler: Handler<H>, f: Flow<H>, g: Flow<H>, n: nat)
    requires Sound(f) && n <= |f.rx| && Fits(handler, f, n)
  {
    && |g.rx| == |f.rx| && |g.tx| == |f.tx| && |g.mem| == |f.mem|
    && g.rc == Pos(f.rc, n, |f.rx|)
    && g.tc == Pos(f.tc, |Outgoing(handler, f, n)|, |f.tx|)
    && g.h == StateAt(handler, f, n)
    && RxDone(handler, f, g, n)
    && TxDone(f, g, Outgoing(handler, f, n))
    && MemDone(handler, f, g, n)
  }

  lemma ArrivalSeen<H>(handler: Handler<H>, f: Flow<H>, g: Flow<H>, n: nat)
    requires Sound(f) && Sound(g) && DistinctArrivals(f) && n < |f.rx| && Fits(handler, f, n)
    requires Filtered(handler, f, g, n)
    ensures g.rx[g.rc] == ArrivalAt(f, n).slot && g.mem[g.rx[g.rc].bufIdx] == ArrivalAt(f, n).buf
  {
    hide TxDone, HandledSlot;
    forall i | 0 <= i < n ensures ArrivalAt(f, i).slot.bufIdx != ArrivalAt(f, n).slot.bufIdx {
      if Pos(f.rc, i, |f.rx|) == Pos(f.rc, n, |f.rx|) {
        PosInjective(f.rc, i, n, |f.rx|);
      }
    }
  }

  lemma StepSees<H>(handler: Handler<H>, f: Flow<H>, g: Flow<H>, n: nat)
    requires Sound(f) && Sound(g) && DistinctArrivals(f) && n < |f.rx| && Fits(handler, f, n + 1)
    requires Filtered(handler, f, g, n)
    ensures g.rx[g.rc] == ArrivalAt(f, n).slot && g.mem[g.rx[g.rc].bufIdx] == ArrivalAt(f, n).buf
    ensures |Outgoing(handler, f, n)| <= |f.tx|
    ensures |Outgoing(handler, f, n)| < |f.tx| ==> g.tx[g.tc] == f.tx[g.tc]
  {
    ArrivalSeen(handler, f, g, n);
  }

  lemma RxStep<H>(handler: Handler<H>, f: Flow<H>, g: Flow<H>, n: nat)
    requires Sound(f) && Sound(g) && DistinctArrivals(f) && n < |f.rx| && Fits(handler, f, n + 1)
    requires Filtered(handler, f, g, n)
    ensures RxDone(handler, f, Step(handler, g), n + 1)
  {
    hide Marked, MemDone, TxDone;
    StepSees(handler, f, g, n);
    assert |Outgoing(handler, f, n + 1)| <= |f.tx|;
    var g' := Step(handler, g);
    forall i | 0 <= i < |f.rx| ensures g'.rx[Pos(f.rc, i, |f.rx|)] ==
      if i < n + 1 then HandledSlot(handler, f, i) else f.rx[Pos(f.rc, i, |f.rx|)] {
      if i != n && Pos(f.rc, i, |f.rx|) == Pos(f.rc, n, |f.rx|) {
        PosInjective(f.rc, i, n, |f.rx|);
      }
    }
  }

  lemma TxStep<H>(handler: Handler<H>, f: Flow<H>, g: Flow<H>, n: nat)
    requires Sound(f) && Sound(g) && DistinctArrivals(f) && n < |f.rx| && Fits(handler, f, n + 1)
    requires Filtered(handler, f, g, n)
    ensures TxDone(f, Step(handler, g), Outgoing(handler, f, n + 1))
  {
    hide Marked, MemDone, RxDone;
    StepSees(handler, f, g, n);
    assert |Outgoing(handler, f, n + 1)| <= |f.tx|;
    var g' := Step(handler, g);
    var out, out' := Outgoing(handler, f, n), Outgoing(handler, f, n + 1);
    forall j | 0 <= j < |f.tx| ensures
      var t := f.tx[Pos(f.tc, j, |f.tx|)];
      g'.tx[Pos(f.tc, j, |f.tx|)] == if j < |out'| then Slot(out'[j].bufIdx, out'[j].len, Marked(t.flags)) else t {
      if j != |out| < |f.tx| && Pos(f.tc, j, |f.tx|) == Pos(f.tc, |out|, |f.tx|) {
        PosInjective(f.tc, j, |out|, |f.tx|);
      }
    }
  }

  lemma MemStep<H>(handler: Handler<H>, f: Flow<H>, g: Flow<H>, n: nat)
    requires Sound(f) && Sound(g) && DistinctArrivals(f) && n < |f.rx| && Fits(handler, f, n + 1)
    requires Filtered(handler, f, g, n)
    ensures MemDone(handler, f, Step(handler, g), n + 1)
  {
    hide Marked, RxDone, TxDone;
    StepSees(handler, f, g, n);
    var g' := Step(handler, g);
    forall i | 0 <= i < n + 1 ensures g'.mem[ArrivalAt(f, i).slot.bufIdx] == VerdictAt(handler, f, i).buf {
      if i < n && Pos(f.rc, i, |f.rx|) == Pos(f.rc, n, |f.rx|) {
        PosInjective(f.rc, i, n, |f.rx|);
      }
    }
  }

  lemma FilterStep<H>(handler: Handler<H>, f: Flow<H>, g: Flow<H>, n: nat)
    requires Sound(f) && Sound(g) && DistinctArrivals(f) && n < |f.rx| && Fits(handler, f, n + 1)
    requires Filtered(handler, f, g, n)
    ensures Filtered(handler, f, Step(handler, g), n + 1)
  {
    StepSees(handler, f, g, n);
    NextOfPos(f.rc, n, |f.rx|);
    assert |Outgoing(handler, f, n + 1)| <= |f.tx|;
    if |Outgoing(handler, f, n)| < |f.tx| {
      NextOfPos(f.tc, |Outgoing(handler, f, n)|, |f.tx|);
    }
    RxStep(handler, f, g, n);
    TxStep(handler, f, g, n);
    MemStep(handler, f, g, n);
    hide RxDone, TxDone, MemDone, Marked;
  }

  lemma FilterStart<H>(handler: Handler<H>, f: Flow<H>)
    requires Sound(f)
    ensures Filtered(handler, f, f, 0)
  {
  }

  /** A batch is an in-order filter of the arrivals, for every wrap position of both rings and every
      handler that touches only its own packet: the tx slots it fills hold, in order of arrival,
      exactly the buffers of the packets to be sent, with their final contents and lengths; dropped
      packets leave no trace in tx; every other slot and buffer is untouched. */
  lemma {:induction false} BatchIsFilter<H>(handler: Handler<H>, f: Flow<H>, n: nat)
    requires Sound(f) && DistinctArrivals(f) && n <= |f.rx| && Fits(handler, f, n)
    ensures Filtered(handler, f, Batch(handler, f, n), n)
  {
    hide Filtered, Step;
    if n == 0 {
      FilterStart(handler, f);
    } else {
      BatchIsFilter(handler, f, n - 1);
      FilterStep(handler, f, Batch(handler, f, n - 1), n - 1);
    }
  }

  /** In particular each filled tx slot's buffer, read through memory, is the packet as sent. */
  lemma {:induction false} SentInMemory<H>(handler: Handler<H>, f: Flow<H>, n: nat, j: nat)
    requires Sound(f) && DistinctArrivals(f) && n <= |f.rx| && Fits(handler, f, n)
    requires j < |Outgoing(handler, f, n)|
    ensures var g, s := Batch(handler, f, n), Outgoing(handler, f, n)[j];
      && s.bufIdx < |g.mem| && g.mem[s.bufIdx] == s.buf
      && g.tx[Pos(f.tc, j, |f.tx|)].bufIdx == s.bufIdx && g.tx[Pos(f.tc, j, |f.tx|)].len == s.len
  {
    BatchIsFilter(handler, f, n);
    var _ := OutgoingFrom(handler, f, n, j);
  }

  lemma {:induction false} OutgoingFrom<H>(handler: Handler<H>, f: Flow<H>, n: nat, j: nat) returns (i: nat)
    requires Sound(f) && n <= |f.rx| && j < |Outgoing(handler, f, n)|
    ensures i < n && VerdictAt(handler, f, i).send
    ensures Outgoing(handler, f, n)[j] ==
      Sent(ArrivalAt(f, i).slot.bufIdx, VerdictAt(handler, f, i).len % U16, VerdictAt(handler, f, i).buf)
    ensures |Outgoing(handler, f, i)| == j
  {
    if j < |Outgoing(handler, f, n - 1)| {
      i := OutgoingFrom(handler, f, n - 1, j);
    } else {
      i := n - 1;
    }
  }

  // ---------------------------------------------------------------------------------------------
  // The filter as a program over a list

  ghost function Arrivals<H>(f: Flow<H>, n: nat): seq<Arrival>
    requires Sound(f) && n <= |f.rx|
  {
    seq(n, i requires 0 <= i < n => ArrivalAt(f, i))
  }

  /** Hand the arrivals to the handler one after the other, from a first state, and list what it sends. Packets
      longer than 2048 are handed over as empty; a sent length keeps its low 16 bits. */
  ghost function FilterList<H>(handler: Handler<H>, h: H, arrivals: seq<Arrival>): (H, seq<Sent>)
  {
    if arrivals == [] then (h, [])
    else
      var a := arrivals[0];
      var v := handler(h, a.buf, if a.slot.len <= 2048 then a.slot.len else 0);
      var (last, sent) := FilterList(handler, v.h, arrivals[1..]);
      (last, (if v.send then [Sent(a.slot.bufIdx, v.len % 0x1_0000, v.buf)] else []) + sent)
  }

  lemma {:induction false} FilterListConcat<H>(handler: Handler<H>, h: H, a: seq<Arrival>, b: seq<Arrival>)
    ensures var (mid, sent) := FilterList(handler, h, a); var (last, more) := FilterList(handler, mid, b);
      FilterList(handler, h, a + b) == (last, sent + more)
  {
    if a == [] {
      assert a + b == b && [] + FilterList(handler, h, b).1 == FilterList(handler, h, b).1;
    } else {
      assert (a + b)[1..] == a[1..] + b;
      var v := handler(h, a[0].buf, if a[0].slot.len <= 2048 then a[0].slot.len else 0);
      var one := if v.send then [Sent(a[0].slot.bufIdx, v.len % 0x1_0000, v.buf)] else [];
      FilterListConcat(handler, v.h, a[1..], b);
      var (mid, sent) := FilterList(handler, v.h, a[1..]);
      var (_, more) := FilterList(handler, mid, b);
      assert one + (sent + more) == (one + sent) + more;
    }
  }

  lemma FilterListNone<H>(handler: Handler<H>, h: H)
    ensures FilterList(handler, h, []) == (h, [])
  {
  }

  lemma FilterListOne<H>(handler: Handler<H>, h: H, a: Arrival)
    ensures var v := handler(h, a.buf, Clamped(a.slot.len));
      FilterList(handler, h, [a]) ==
        (v.h, if v.send then [Sent(a.slot.bufIdx, v.len % U16, v.buf)] else [])
  {
    var v := handler(h, a.buf, Clamped(a.slot.len));
    assert [a][1..] == [] && FilterList(handler, v.h, []) == (v.h, []);
    var one := if v.send then [Sent(a.slot.bufIdx, v.len % U16, v.buf)] else [];
    assert one + [] == one;
  }

  /** The states and packets that BatchIsFilter speaks of are those of the list program: every packet is handed
      over once, in order, with the state the packet before it left, its own contents and its own length. */
  lemma {:induction false} OutgoingIsFilterList<H>(handler: Handler<H>, f: Flow<H>, n: nat)
    requires Sound(f) && n <= |f.rx|
    ensures FilterList(handler, f.h, Arrivals(f, n)) == (StateAt(handler, f, n), Outgoing(handler, f, n))
  {
    hide FilterList;
    if n == 0 {
      assert FilterList(handler, f.h, []) == (f.h, []) by { FilterListNone(handler, f.h); }
    } else {
      OutgoingIsFilterList(handler, f, n - 1);
      assert Arrivals(f, n) == Arrivals(f, n - 1) + [ArrivalAt(f, n - 1)];
      var a, h := ArrivalAt(f, n - 1), StateAt(handler, f, n - 1);
      FilterListConcat(handler, f.h, Arrivals(f, n - 1), [a]);
      FilterListOne(handler, h, a);
      assert Outgoing(handler, f, n - 1) + [] == Outgoing(handler, f, n - 1);
    }
  }
}
