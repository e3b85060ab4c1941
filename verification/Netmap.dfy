/**
 The packet loop over shared ring memory: rings as objects that are updated in place, the zero-copy
 exchange of buffers, ProcessRing and SearchValidRing. The methods are proved to compute what
 RingModel.dfy and PollModel.dfy describe.
 */
module NetmapLoop {
  import opened Bytes
  import opened RingModel
  import opened PollModel

  class NetmapRing {
    const slot: array<Slot>
    var head: nat
    var cur: nat
    var tail: nat
    var flags: nat

    constructor (slot: array<Slot>, head: nat, cur: nat, tail: nat, flags: nat)
      ensures this.slot == slot && View() == Ring(slot[..], head, cur, tail, flags)
    {
      this.slot, this.head, this.cur, this.tail, this.flags := slot, head, cur, tail, flags;
    }

    ghost function View(): Ring
      reads this, slot
    {
      Ring(slot[..], head, cur, tail, flags)
    }

    function NextSlot(i: nat): nat
    {
      Next(slot.Length, i)
    }

    predicate IsEmpty()
      reads this
    {
      cur == tail
    }

    /** nm_ring_space: an unsigned 32-bit difference read back as a signed one. On a well-formed ring it counts
        the slots from cur up to tail, wherever the ring wraps. */
    function SpaceLeft(): (n: int)
      reads this, slot
      ensures WellFormed(View()) ==>
        0 <= n < slot.Length && Pos(cur, n, slot.Length) == tail && n == Space(View()) && (n == 0 <==> IsEmpty())
    {
      var diff := (tail - cur) % U32;
      var ret := if diff >= U32 / 2 then diff - U32 else diff;
      if ret < 0 then ret + slot.Length else ret
    }
  }

  ghost function Views(rings: seq<NetmapRing>): (r: seq<Ring>)
    reads rings, set x | x in rings :: x.slot
    ensures |r| == |rings| && forall i :: 0 <= i < |r| ==> r[i] == rings[i].View()
  {
    seq(|rings|, i requires 0 <= i < |rings| reads rings, set x | x in rings :: x.slot => rings[i].View())
  }

  class Netmap<H> {
    const rxRings: seq<NetmapRing>
    const txRings: seq<NetmapRing>
    const range: Range
    const mem: array<Buffer>
    const handler: Handler<H>
    var h: H

    constructor (rxRings: seq<NetmapRing>, txRings: seq<NetmapRing>, range: Range, mem: array<Buffer>,
                 handler: Handler<H>, h: H)
      ensures this.rxRings == rxRings && this.txRings == txRings && this.range == range && this.mem == mem
      ensures this.handler == handler && this.h == h
    {
      this.rxRings, this.txRings, this.range, this.mem := rxRings, txRings, range, mem;
      this.handler, this.h := handler, h;
    }

    /** All rings and slot arrays are different objects, and the descriptor's ranges name rings. */
    ghost predicate Separate()
    {
      && (forall i, j :: 0 <= i < j < |rxRings| ==> rxRings[i] != rxRings[j] && rxRings[i].slot != rxRings[j].slot)
      && (forall i, j :: 0 <= i < j < |txRings| ==> txRings[i] != txRings[j] && txRings[i].slot != txRings[j].slot)
      && (forall i, j :: 0 <= i < |rxRings| && 0 <= j < |txRings| ==>
            rxRings[i] != txRings[j] && rxRings[i].slot != txRings[j].slot)
      && range.lastRx < |rxRings| && range.lastTx < |txRings|
    }

    ghost function Repr(): set<object>
    {
      {this, mem} + (set r | r in rxRings) + (set r | r in txRings)
      + (set r | r in rxRings :: r.slot) + (set r | r in txRings :: r.slot)
    }

    ghost function View(): (p: Port<H>)
      reads this, Repr()
      ensures |p.rx| == |rxRings| && |p.tx| == |txRings| && |p.mem| == mem.Length
    {
      Port(Views(rxRings), Views(txRings), mem[..], h)
    }

    /** Zero-copy send: exchange the two slots' buffers and mark both. */
    method Send(rxr: NetmapRing, rxslot: nat, txr: NetmapRing, txslot: nat, length: nat)
      requires rxr.slot != txr.slot && rxslot < rxr.slot.Length && txslot < txr.slot.Length
      modifies rxr.slot, txr.slot
      ensures var r, t := old(rxr.slot[rxslot]), old(txr.slot[txslot]);
        && rxr.slot[..] == old(rxr.slot[..])[rxslot := Slot(t.bufIdx, length % U16, Marked(r.flags))]
        && txr.slot[..] == old(txr.slot[..])[txslot := Slot(r.bufIdx, length % U16, Marked(t.flags))]
    {
      var tidx := txr.slot[txslot].bufIdx;
      txr.slot[txslot] := txr.slot[txslot].(bufIdx := rxr.slot[rxslot].bufIdx);
      rxr.slot[rxslot] := rxr.slot[rxslot].(bufIdx := tidx);
      rxr.slot[rxslot] := rxr.slot[rxslot].(len := length % U16);
      txr.slot[txslot] := txr.slot[txslot].(len := rxr.slot[rxslot].len);
      txr.slot[txslot] := txr.slot[txslot].(flags := txr.slot[txslot].flags | NS_BUF_CHANGED);
      rxr.slot[rxslot] := rxr.slot[rxslot].(flags := rxr.slot[rxslot].flags | NS_BUF_CHANGED);
    }

    /** One packet of ProcessRing's loop. */
    method ProcessSlot(rxr: NetmapRing, rxCur: nat, txr: NetmapRing, txCur: nat) returns (rxCur': nat, txCur': nat)
      requires rxr.slot != txr.slot
      requires Sound(Flow(rxr.slot[..], txr.slot[..], rxCur, txCur, mem[..], h))
      modifies this`h, mem, rxr.slot, txr.slot
      ensures Flow(rxr.slot[..], txr.slot[..], rxCur', txCur', mem[..], h)
           == Step(handler, old(Flow(rxr.slot[..], txr.slot[..], rxCur, txCur, mem[..], h)))
    {
      hide Marked;
      var idx := rxr.slot[rxCur].bufIdx;
      if rxr.slot[rxCur].len > MAX_PACKET {
        rxr.slot[rxCur] := rxr.slot[rxCur].(len := 0);
      }
      var v := handler(h, mem[idx], rxr.slot[rxCur].len);
      h := v.h;
      mem[idx] := v.buf;
      if v.send {
        Send(rxr, rxCur, txr, txCur, v.len);
      }
      rxCur' := rxr.NextSlot(rxCur);
      txCur' := if v.send then txr.NextSlot(txCur) else txCur;
    }

    /** The number of packets one ProcessRing call handles. */
    method BatchLimit(rxr: NetmapRing, txr: NetmapRing) returns (limit: nat)
      requires WellFormed(rxr.View()) && WellFormed(txr.View())
      ensures limit == Limit(rxr.View(), txr.View())
    {
      SpaceReachesTail(rxr.View());
      SpaceReachesTail(txr.View());
      limit := rxr.slot.Length;
      var txringSpaceWork := rxr.SpaceLeft();
      if txringSpaceWork < limit {
        limit := txringSpaceWork;
      }
      txringSpaceWork := txr.SpaceLeft();
      if txringSpaceWork < limit {
        limit := txringSpaceWork;
      }
    }

    method ProcessRing(rxr: NetmapRing, txr: NetmapRing) returns (processCount: nat)
      requires rxr != txr && rxr.slot != txr.slot
      requires Backed(rxr.View(), mem.Length) && Backed(txr.View(), mem.Length)
      modifies this`h, mem, rxr, rxr.slot, txr, txr.slot
      ensures var r := old(ProcessedRings(handler, rxr.View(), txr.View(), mem[..], h));
        rxr.View() == r.rx && txr.View() == r.tx && mem[..] == r.mem && h == r.h && processCount == r.count
    {
      hide Step, Space, Pos;
      ghost var f := FlowOf(rxr.View(), txr.View(), mem[..], h);
      var rxringCurWork: nat, txringCurWork: nat := rxr.cur, txr.cur;
      var limit := BatchLimit(rxr, txr);
      ghost var n := limit;
      if rxr.flags != 0 || txr.flags != 0 {
        rxr.flags := 0;
        txr.flags := 0;
      }
      processCount := 0;
      while limit > 0
        invariant processCount + limit == n
        invariant Flow(rxr.slot[..], txr.slot[..], rxringCurWork, txringCurWork, mem[..], h) ==
                  Batch(handler, f, processCount)
        invariant unchanged(rxr`cur, rxr`tail, txr`cur, txr`tail) && rxr.flags == txr.flags == 0
      {
        limit := limit - 1;
        rxringCurWork, txringCurWork := ProcessSlot(rxr, rxringCurWork, txr, txringCurWork);
        processCount := processCount + 1;
      }
      rxr.head, rxr.cur := rxringCurWork, rxringCurWork;
      txr.head, txr.cur := txringCurWork, txringCurWork;
    }

    /** ProcessRing on the descriptor's rings ri and ti, seen from the whole port. */
    method ProcessPair(ri: nat, ti: nat) returns (n: nat)
      requires Separate() && Valid(View()) && ri < |rxRings| && ti < |txRings|
      modifies Repr()
      ensures View() == ProcessedPair(handler, old(View()), ri, ti)
      ensures n == Limit(old(View()).rx[ri], old(View()).tx[ti])
    {
      hide ProcessedRings, Space;
      ghost var p := View();
      CountIsLimit(handler, p.rx[ri], p.tx[ti], p.mem, p.h);
      n := ProcessRing(rxRings[ri], txRings[ti]);
      forall i | 0 <= i < |rxRings| && i != ri ensures rxRings[i].View() == p.rx[i] {
      }
      forall i | 0 <= i < |txRings| && i != ti ensures txRings[i].View() == p.tx[i] {
      }
    }

    method SearchValidRing() returns (m: nat)
      requires Separate() && Valid(View())
      modifies Repr()
      ensures var s := old(Search(handler, View(), range.firstRx, range.firstTx, range.lastRx, range.lastTx));
        View() == s.port && m == s.count
    {
      RangeInside();
      hide ProcessedPair, Search, RxWork, PairSends, Limit, Separate, Valid, Views;
      ghost var p := View();
      ghost var s := Search(handler, p, range.firstRx, range.firstTx, range.lastRx, range.lastTx);
      m := 0;
      var rxringidx: nat, txringidx: nat := range.firstRx, range.firstTx;
      while rxringidx <= range.lastRx && txringidx <= range.lastTx
        invariant p == View() && Valid(p)
        invariant var t := Search(handler, p, rxringidx, txringidx, range.lastRx, range.lastTx);
          t.port == s.port && m + t.count == s.count
        decreases RxWork(p, rxringidx, range.lastRx),
                  if txringidx <= range.lastTx then range.lastTx + 1 - txringidx else 0
      {
        SearchRound(handler, p, rxringidx, txringidx, range.lastRx, range.lastTx);
        RoundWork(handler, p, rxringidx, txringidx, range.lastRx, range.lastTx);
        if rxRings[rxringidx].IsEmpty() {
          rxringidx := rxringidx + 1;
        } else if txRings[txringidx].IsEmpty() {
          txringidx := txringidx + 1;
        } else {
          var n := ProcessPair(rxringidx, txringidx);
          m := m + n;
          p := View();
        }
      }
      SearchRound(handler, p, rxringidx, txringidx, range.lastRx, range.lastTx);
    }

    lemma RangeInside()
      requires Separate()
      ensures range.lastRx < |rxRings| && range.lastTx < |txRings|
    {
    }
  }
}
