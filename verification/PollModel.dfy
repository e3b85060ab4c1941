/**
 One poll over a port's rings, as values: which ring pairs are processed, until when, and what every
 run of polls and kernel synchronisations keeps.
 */
module PollModel {
  import opened Bytes
  import opened RingModel

  // ---------------------------------------------------------------------------------------------
  // What a batch touches, whatever the buffer indices are

  function BufIndices(slots: seq<Slot>): (r: seq<nat>)
    ensures |r| == |slots|
  {
    seq(|slots|, i requires 0 <= i < |slots| => slots[i].bufIdx)
  }

  /** The buffers the slots hold. */
  function Held(slots: seq<Slot>): multiset<nat>
  {
    multiset(BufIndices(slots))
  }

  /** A slot whose buffer was exchanged carries the change mark; marks stay. */
  predicate SlotKept(s: Slot, s': Slot)
  {
    (s'.bufIdx == s.bufIdx || IsMarked(s'.flags)) && (IsMarked(s.flags) ==> IsMarked(s'.flags))
  }

  ghost predicate SlotsKept(a: seq<Slot>, b: seq<Slot>)
  {
    |a| == |b| && forall p :: 0 <= p < |a| ==> SlotKept(a[p], b[p])
  }

  ghost predicate StepSends<H>(handler: Handler<H>, f: Flow<H>)
    requires Sound(f)
  {
    var r := f.rx[f.rc];
    handler(f.h, f.mem[r.bufIdx], Clamped(r.len)).send
  }

  /** The number of packets a batch of n sends. */
  ghost function Sends<H>(handler: Handler<H>, f: Flow<H>, n: nat): (r: nat)
    requires Sound(f)
    ensures r <= n
  {
    if n == 0 then 0
    else Sends(handler, f, n - 1) + if StepSends(handler, Batch(handler, f, n - 1)) then 1 else 0
  }

  lemma HeldUpdate(slots: seq<Slot>, p: nat, s: Slot)
    requires p < |slots|
    ensures Held(slots[p := s]) == Held(slots) - multiset{slots[p].bufIdx} + multiset{s.bufIdx}
    ensures slots[p].bufIdx in Held(slots)
  {
    assert BufIndices(slots[p := s]) == BufIndices(slots)[p := s.bufIdx];
    assert BufIndices(slots)[p] in BufIndices(slots);
  }

  lemma StepConserves<H>(handler: Handler<H>, f: Flow<H>)
    requires Sound(f)
    ensures var g := Step(handler, f); Held(g.rx) + Held(g.tx) == Held(f.rx) + Held(f.tx)
  {
    hide Held, Marked;
    var r, t := f.rx[f.rc], f.tx[f.tc];
    var g := Step(handler, f);
    HeldUpdate(f.rx, f.rc, g.rx[f.rc]);
    HeldUpdate(f.tx, f.tc, g.tx[f.tc]);
    assert f.rx[f.rc := g.rx[f.rc]] == g.rx && f.tx[f.tc := g.tx[f.tc]] == g.tx;
  }

  /** A batch of n conserves the buffers of the two rings, marks each exchanged slot, advances the rx
      cursor by n and the tx cursor by the packets sent, and touches only the slots it passes. */
  ghost predicate BatchTouches<H>(handler: Handler<H>, f: Flow<H>, g: Flow<H>, n: nat)
    requires Sound(f) && n <= |f.rx| && n <= |f.tx|
  {
    && |g.rx| == |f.rx| && |g.tx| == |f.tx| && |g.mem| == |f.mem|
    && Held(g.rx) + Held(g.tx) == Held(f.rx) + Held(f.tx)
    && g.rc == Pos(f.rc, n, |f.rx|) && g.tc == Pos(f.tc, Sends(handler, f, n), |f.tx|)
    && SlotsKept(f.rx, g.rx) && SlotsKept(f.tx, g.tx)
    && (forall p :: 0 <= p < |f.rx| && Dist(f.rc, p, |f.rx|) >= n ==> g.rx[p] == f.rx[p])
    && (forall p :: 0 <= p < |f.tx| && Dist(f.tc, p, |f.tx|) >= Sends(handler, f, n) ==> g.tx[p] == f.tx[p])
  }

  lemma TouchStep<H>(handler: Handler<H>, f: Flow<H>, g: Flow<H>, n: nat)
    requires Sound(f) && Sound(g) && n < |f.rx| && n < |f.tx| && g == Batch(handler, f, n)
    requires BatchTouches(handler, f, g, n)
    ensures BatchTouches(handler, f, Step(handler, g), n + 1)
  {
    hide Held, Marked, IsMarked;
    StepConserves(handler, g);
    MarkedIsMarked(g.rx[g.rc].flags);
    MarkedIsMarked(g.tx[g.tc].flags);
    assert Sends(handler, f, n + 1) == Sends(handler, f, n) + if StepSends(handler, g) then 1 else 0;
    NextOfPos(f.rc, n, |f.rx|);
    NextOfPos(f.tc, Sends(handler, f, n), |f.tx|);
  }

  lemma {:induction false} BatchEffect<H>(handler: Handler<H>, f: Flow<H>, n: nat)
    requires Sound(f) && n <= |f.rx| && n <= |f.tx|
    ensures BatchTouches(handler, f, Batch(handler, f, n), n)
  {
    hide BatchTouches, Step;
    if n == 0 {
      assert BatchTouches(handler, f, f, 0) by { NothingTouched(handler, f); }
    } else {
      BatchEffect(handler, f, n - 1);
      TouchStep(handler, f, Batch(handler, f, n - 1), n - 1);
    }
  }

  lemma NothingTouched<H>(handler: Handler<H>, f: Flow<H>)
    requires Sound(f)
    ensures BatchTouches(handler, f, f, 0)
  {
  }

  lemma StepSendsVerdict<H>(handler: Handler<H>, f: Flow<H>, g: Flow<H>, n: nat)
    requires Sound(f) && Sound(g) && DistinctArrivals(f) && n < |f.rx| && Fits(handler, f, n)
    requires Filtered(handler, f, g, n)
    ensures StepSends(handler, g) == VerdictAt(handler, f, n).send
  {
    ArrivalSeen(handler, f, g, n);
    hide RxDone, TxDone, MemDone, Fits, Outgoing;
  }

  /** With distinct buffers among the arrivals, the packets sent are the outgoing ones. */
  lemma {:induction false} SendsAreOutgoing<H>(handler: Handler<H>, f: Flow<H>, n: nat)
    requires Sound(f) && DistinctArrivals(f) && n <= |f.rx| && Sends(handler, f, n) <= |f.tx|
    ensures Fits(handler, f, n) && Sends(handler, f, n) == |Outgoing(handler, f, n)|
  {
    hide StepSends, Batch, Filtered, DistinctArrivals, VerdictAt;
    if n > 0 {
      SendsAreOutgoing(handler, f, n - 1);
      BatchIsFilter(handler, f, n - 1);
      StepSendsVerdict(handler, f, Batch(handler, f, n - 1), n - 1);
    }
  }

  // ---------------------------------------------------------------------------------------------
  // One call of ProcessRing

  datatype Processed<H> = Processed(rx: Ring, tx: Ring, mem: seq<Buffer>, h: H, count: nat)

  /** The buffers of a ring are within the memory region. */
  ghost predicate Backed(r: Ring, size: nat)
  {
    WellFormed(r) && forall i :: 0 <= i < |r.slots| ==> r.slots[i].bufIdx < size
  }

  ghost function FlowOf<H>(rx: Ring, tx: Ring, mem: seq<Buffer>, h: H): (f: Flow<H>)
    requires Backed(rx, |mem|) && Backed(tx, |mem|)
    ensures Sound(f)
  {
    Flow(rx.slots, tx.slots, rx.cur, tx.cur, mem, h)
  }

  function Limit(rx: Ring, tx: Ring): (n: nat)
    requires WellFormed(rx) && WellFormed(tx)
    ensures n == (if Space(rx) < Space(tx) then Space(rx) else Space(tx))
    ensures n <= |rx.slots| && n <= |tx.slots|
  {
    SpaceReachesTail(rx);
    SpaceReachesTail(tx);
    var limit := if Space(rx) < |rx.slots| then Space(rx) else |rx.slots|;
    if Space(tx) < limit then Space(tx) else limit
  }

  ghost function ProcessedRings<H>(handler: Handler<H>, rx: Ring, tx: Ring, mem: seq<Buffer>, h: H): (r: Processed<H>)
    requires Backed(rx, |mem|) && Backed(tx, |mem|)
    ensures |r.mem| == |mem| && Backed(r.rx, |mem|) && Backed(r.tx, |mem|)
  {
    var n := Limit(rx, tx);
    var g := Batch(handler, FlowOf(rx, tx, mem, h), n);
    Processed(Ring(g.rx, g.rc, g.rc, rx.tail, 0), Ring(g.tx, g.tc, g.tc, tx.tail, 0), g.mem, g.h, n)
  }

  predicate Owned(r: Ring, p: nat)
    requires WellFormed(r) && p < |r.slots|
  {
    Dist(r.cur, p, |r.slots|) < Space(r)
  }

  /** Every slot the cursor has passed is given back to the kernel, and no ring flag is pending. */
  predicate Released(r: Ring)
  {
    r.head == r.cur && r.flags == 0
  }

  /** How a ring may change under this program: only slots in [cur, tail) are touched, the cursor
      moves within that range, the kernel's tail stays, and exchanged slots are marked. A ring that is
      changed at all has every slot it has passed released to the kernel, and its ring flags cleared. */
  ghost predicate RingKept(r: Ring, r': Ring)
  {
    && WellFormed(r) && WellFormed(r') && |r'.slots| == |r.slots| && r'.tail == r.tail
    && SlotsKept(r.slots, r'.slots) && (r' == r || Released(r'))
    && (forall p :: 0 <= p < |r.slots| && Owned(r', p) ==> Owned(r, p))
    && (forall p :: 0 <= p < |r.slots| && !Owned(r, p) ==> r'.slots[p] == r.slots[p])
  }

  lemma RingKeptTransitive(a: Ring, b: Ring, c: Ring)
    requires RingKept(a, b) && RingKept(b, c)
    ensures RingKept(a, c)
  {
    hide IsMarked;
  }

  lemma RingKeptSelf(r: Ring)
    requires WellFormed(r)
    ensures RingKept(r, r)
  {
    hide IsMarked;
  }

  lemma AdvancedSpace(r: Ring, r': Ring, k: nat)
    requires WellFormed(r) && k <= Space(r) && |r'.slots| == |r.slots| && r'.tail == r.tail
    requires k <= |r.slots| && r'.cur == Pos(r.cur, k, |r.slots|) && r'.head == r'.cur
    ensures WellFormed(r') && Space(r') == Space(r) - k
    ensures forall p :: 0 <= p < |r.slots| && Owned(r', p) ==> Owned(r, p) && Dist(r.cur, p, |r.slots|) >= k
  {
    SpaceReachesTail(r);
    SpaceReachesTail(r');
    hide Space;
    assert Space(r') == Space(r) - k by { SpaceUnique(r', Space(r) - k); }
  }

  lemma SpaceUnique(r: Ring, k: int)
    requires WellFormed(r) && 0 <= k < |r.slots| && Pos(r.cur, k, |r.slots|) == r.tail
    ensures Space(r) == k
  {
    SpaceReachesTail(r);
    PosInjective(r.cur, k, Space(r), |r.slots|);
  }

  /** ProcessRing consumes `count` rx slots and fills as many tx slots as it sends packets, releases exactly
      those to the kernel and clears the ring flags; it makes progress whenever neither ring is exhausted. */
  lemma ProcessedEffect<H>(handler: Handler<H>, rx: Ring, tx: Ring, mem: seq<Buffer>, h: H)
    requires Backed(rx, |mem|) && Backed(tx, |mem|)
    ensures var r, f := ProcessedRings(handler, rx, tx, mem, h), FlowOf(rx, tx, mem, h);
      && RingKept(rx, r.rx) && RingKept(tx, r.tx)
      && Held(r.rx.slots) + Held(r.tx.slots) == Held(rx.slots) + Held(tx.slots)
      && Space(r.rx) == Space(rx) - r.count
      && Space(r.tx) == Space(tx) - Sends(handler, f, r.count)
      && r.rx.head == r.rx.cur == Pos(rx.cur, r.count, |rx.slots|) && r.rx.flags == 0
      && r.tx.head == r.tx.cur == Pos(tx.cur, Sends(handler, f, r.count), |tx.slots|) && r.tx.flags == 0
      && (!Empty(rx) && !Empty(tx) ==> r.count > 0)
  {
    hide IsMarked, Held, Space;
    var r, f := ProcessedRings(handler, rx, tx, mem, h), FlowOf(rx, tx, mem, h);
    SpaceReachesTail(rx);
    SpaceReachesTail(tx);
    BatchEffect(handler, f, r.count);
    AdvancedSpace(rx, r.rx, r.count);
    AdvancedSpace(tx, r.tx, Sends(handler, f, r.count));
  }

  // ---------------------------------------------------------------------------------------------
  // One poll over all rings of a port

  datatype Port<H> = Port(rx: seq<Ring>, tx: seq<Ring>, mem: seq<Buffer>, h: H)

  ghost predicate AllBacked(rings: seq<Ring>, size: nat)
  {
    forall i :: 0 <= i < |rings| ==> Backed(rings[i], size)
  }

  ghost predicate Valid<H>(p: Port<H>)
  {
    AllBacked(p.rx, |p.mem|) && AllBacked(p.tx, |p.mem|)
  }

  /** The packets (or free slots) left in rings i to last. */
  ghost function Pending(rings: seq<Ring>, i: nat, last: nat): (n: nat)
    requires last < |rings| && forall j :: 0 <= j < |rings| ==> WellFormed(rings[j])
    decreases last + 1 - i
  {
    if i > last then 0
    else SpaceReachesTail(rings[i]); Space(rings[i]) + Pending(rings, i + 1, last)
  }

  ghost function ProcessedPair<H>(handler: Handler<H>, p: Port<H>, ri: nat, ti: nat): (r: Port<H>)
    requires Valid(p) && ri < |p.rx| && ti < |p.tx|
    ensures Valid(r) && |r.rx| == |p.rx| && |r.tx| == |p.tx| && |r.mem| == |p.mem|
  {
    var q := ProcessedRings(handler, p.rx[ri], p.tx[ti], p.mem, p.h);
    Port(p.rx[ri := q.rx], p.tx[ti := q.tx], q.mem, q.h)
  }

  lemma {:induction false} PendingUpdate(rings: seq<Ring>, k: nat, r: Ring, i: nat, last: nat)
    requires last < |rings| && (forall j :: 0 <= j < |rings| ==> WellFormed(rings[j])) && WellFormed(r)
    requires k <= last
    ensures Pending(rings[k := r], i, last) ==
      Pending(rings, i, last) + if i <= k then Space(r) - Space(rings[k]) else 0
    decreases last + 1 - i
  {
    hide Space;
    if i <= last {
      PendingUpdate(rings, k, r, i + 1, last);
    }
  }

  /** A whole poll: the packets consumed and the packets sent are counted along. */
  datatype Polled<H> = Polled(port: Port<H>, count: nat, sent: nat)

  ghost predicate InRange<H>(p: Port<H>, lastRx: nat, lastTx: nat)
  {
    Valid(p) && lastRx < |p.rx| && lastTx < |p.tx|
  }

  /** Pending rx slots plus rx rings still to visit. */
  ghost function RxWork<H>(p: Port<H>, ri: nat, lastRx: nat): nat
    requires Valid(p) && lastRx < |p.rx|
  {
    if ri <= lastRx then Pending(p.rx, ri, lastRx) + lastRx + 1 - ri else 0
  }

  /** SearchValidRing from rx ring ri and tx ring ti on: skip exhausted rings, process any other pair. */
  ghost function Search<H>(handler: Handler<H>, p: Port<H>, ri: nat, ti: nat, lastRx: nat, lastTx: nat): Polled<H>
    requires InRange(p, lastRx, lastTx)
    decreases RxWork(p, ri, lastRx), if ti <= lastTx then lastTx + 1 - ti else 0
  {
    if ri > lastRx || ti > lastTx then Polled(p, 0, 0)
    else if Empty(p.rx[ri]) then
      SpaceReachesTail(p.rx[ri]);
      Search(handler, p, ri + 1, ti, lastRx, lastTx)
    else if Empty(p.tx[ti]) then Search(handler, p, ri, ti + 1, lastRx, lastTx)
    else
      PairEffect(handler, p, ri, ti, lastRx, lastTx);
      var q := ProcessedRings(handler, p.rx[ri], p.tx[ti], p.mem, p.h);
      var rest := Search(handler, ProcessedPair(handler, p, ri, ti), ri, ti, lastRx, lastTx);
      Polled(rest.port, rest.count + q.count, rest.sent + PairSends(handler, p, ri, ti))
  }

  ghost function PairSends<H>(handler: Handler<H>, p: Port<H>, ri: nat, ti: nat): nat
    requires Valid(p) && ri < |p.rx| && ti < |p.tx|
  {
    Sends(handler, FlowOf(p.rx[ri], p.tx[ti], p.mem, p.h), Limit(p.rx[ri], p.tx[ti]))
  }

  /** One round of the search loop. */
  lemma SearchRound<H>(handler: Handler<H>, p: Port<H>, ri: nat, ti: nat, lastRx: nat, lastTx: nat)
    requires InRange(p, lastRx, lastTx)
    ensures var s := Search(handler, p, ri, ti, lastRx, lastTx);
      if ri > lastRx || ti > lastTx then s == Polled(p, 0, 0)
      else if Empty(p.rx[ri]) then s == Search(handler, p, ri + 1, ti, lastRx, lastTx)
      else if Empty(p.tx[ti]) then s == Search(handler, p, ri, ti + 1, lastRx, lastTx)
      else
        var rest := Search(handler, ProcessedPair(handler, p, ri, ti), ri, ti, lastRx, lastTx);
        s == Polled(rest.port, rest.count + Limit(p.rx[ri], p.tx[ti]), rest.sent + PairSends(handler, p, ri, ti))
  {
    hide Pending, PairSends, Space;
    if ri <= lastRx && ti <= lastTx {
      CountIsLimit(handler, p.rx[ri], p.tx[ti], p.mem, p.h);
    }
  }

  /** All buffers held by a list of rings. */
  ghost function AllHeld(rings: seq<Ring>): multiset<nat>
  {
    if rings == [] then multiset{} else AllHeld(rings[..|rings| - 1]) + Held(rings[|rings| - 1].slots)
  }

  ghost function Buffers<H>(p: Port<H>): multiset<nat>
  {
    AllHeld(p.rx) + AllHeld(p.tx)
  }

  lemma {:induction false} AllHeldUpdate(rings: seq<Ring>, k: nat, r: Ring)
    requires k < |rings|
    ensures Held(rings[k].slots) <= AllHeld(rings)
    ensures AllHeld(rings[k := r]) == AllHeld(rings) - Held(rings[k].slots) + Held(r.slots)
  {
    hide Held;
    var m := |rings| - 1;
    if k == m {
      assert rings[k := r][..m] == rings[..m];
    } else {
      AllHeldUpdate(rings[..m], k, r);
      assert rings[k := r][..m] == rings[..m][k := r];
    }
  }

  ghost predicate RingsKept(a: seq<Ring>, b: seq<Ring>)
  {
    |a| == |b| && forall i :: 0 <= i < |a| ==> RingKept(a[i], b[i])
  }

  lemma RingsKeptTransitive(a: seq<Ring>, b: seq<Ring>, c: seq<Ring>)
    requires RingsKept(a, b) && RingsKept(b, c)
    ensures RingsKept(a, c)
  {
    hide RingKept;
    forall i | 0 <= i < |a| ensures RingKept(a[i], c[i]) {
      RingKeptTransitive(a[i], b[i], c[i]);
    }
  }

  lemma RingsKeptSelf(rings: seq<Ring>)
    requires forall i :: 0 <= i < |rings| ==> WellFormed(rings[i])
    ensures RingsKept(rings, rings)
  {
    hide RingKept;
    forall i | 0 <= i < |rings| ensures RingKept(rings[i], rings[i]) {
      RingKeptSelf(rings[i]);
    }
  }

  lemma ExchangedBuffers(x: multiset<nat>, y: multiset<nat>, a: multiset<nat>, b: multiset<nat>,
                         a': multiset<nat>, b': multiset<nat>)
    requires a <= x && b <= y && a' + b' == a + b
    ensures (x - a + a') + (y - b + b') == x + y
  {
    forall v ensures ((x - a + a') + (y - b + b'))[v] == (x + y)[v] {
      assert (a' + b')[v] == (a + b)[v];
    }
  }

  lemma PairBuffers<H>(handler: Handler<H>, p: Port<H>, ri: nat, ti: nat)
    requires Valid(p) && ri < |p.rx| && ti < |p.tx|
    ensures Buffers(ProcessedPair(handler, p, ri, ti)) == Buffers(p)
  {
    hide Held, AllHeld, ProcessedRings;
    var q := ProcessedRings(handler, p.rx[ri], p.tx[ti], p.mem, p.h);
    ProcessedEffect(handler, p.rx[ri], p.tx[ti], p.mem, p.h);
    AllHeldUpdate(p.rx, ri, q.rx);
    AllHeldUpdate(p.tx, ti, q.tx);
    ExchangedBuffers(AllHeld(p.rx), AllHeld(p.tx), Held(p.rx[ri].slots), Held(p.tx[ti].slots),
                     Held(q.rx.slots), Held(q.tx.slots));
  }

  /** What a call of ProcessRing does to the port around its two rings. */
  lemma PairEffect<H>(handler: Handler<H>, p: Port<H>, ri: nat, ti: nat, lastRx: nat, lastTx: nat)
    requires InRange(p, lastRx, lastTx) && ri <= lastRx && ti <= lastTx
    ensures var q, p' := ProcessedRings(handler, p.rx[ri], p.tx[ti], p.mem, p.h), ProcessedPair(handler, p, ri, ti);
      && RingsKept(p.rx, p'.rx) && RingsKept(p.tx, p'.tx)
      && (!Empty(p.rx[ri]) && !Empty(p.tx[ti]) ==> q.count > 0)
      && Pending(p'.rx, ri, lastRx) + q.count == Pending(p.rx, ri, lastRx)
      && Pending(p'.tx, ti, lastTx) + PairSends(handler, p, ri, ti) == Pending(p.tx, ti, lastTx)
  {
    hide RingKept, Held, Space, ProcessedRings, Pending;
    var q := ProcessedRings(handler, p.rx[ri], p.tx[ti], p.mem, p.h);
    ProcessedEffect(handler, p.rx[ri], p.tx[ti], p.mem, p.h);
    CountIsLimit(handler, p.rx[ri], p.tx[ti], p.mem, p.h);
    RingsKeptSelf(p.rx);
    RingsKeptSelf(p.tx);
    PendingUpdate(p.rx, ri, q.rx, ri, lastRx);
    PendingUpdate(p.tx, ti, q.tx, ti, lastTx);
  }

  lemma CountIsLimit<H>(handler: Handler<H>, rx: Ring, tx: Ring, mem: seq<Buffer>, h: H)
    requires Backed(rx, |mem|) && Backed(tx, |mem|)
    ensures ProcessedRings(handler, rx, tx, mem, h).count == Limit(rx, tx)
  {
  }

  ghost predicate AllEmpty(rings: seq<Ring>, i: nat, last: nat)
    requires last < |rings|
  {
    forall j :: i <= j <= last ==> Empty(rings[j])
  }

  /** SearchValidRing ends, for every port with well-formed rings and every handler: afterwards every
      rx ring from ri on is empty or every tx ring from ti on is full; the count returned is the total
      drop in rx space, the total drop in tx space is the number of packets sent; no buffer is lost or
      duplicated; and every ring is changed only where this program owns it. */
  lemma {:induction false} SearchEffect<H>(handler: Handler<H>, p: Port<H>, ri: nat, ti: nat, lastRx: nat, lastTx: nat)
    requires InRange(p, lastRx, lastTx)
    ensures var s := Search(handler, p, ri, ti, lastRx, lastTx);
      && InRange(s.port, lastRx, lastTx) && |s.port.rx| == |p.rx| && |s.port.tx| == |p.tx| && |s.port.mem| == |p.mem|
      && (AllEmpty(s.port.rx, ri, lastRx) || AllEmpty(s.port.tx, ti, lastTx))
      && s.count == Pending(p.rx, ri, lastRx) - Pending(s.port.rx, ri, lastRx)
      && s.sent == Pending(p.tx, ti, lastTx) - Pending(s.port.tx, ti, lastTx)
      && Buffers(s.port) == Buffers(p)
      && RingsKept(p.rx, s.port.rx) && RingsKept(p.tx, s.port.tx)
      && (forall i :: 0 <= i < ri && i < |p.rx| ==> s.port.rx[i] == p.rx[i])
      && (forall i :: 0 <= i < ti && i < |p.tx| ==> s.port.tx[i] == p.tx[i])
    decreases RxWork(p, ri, lastRx), if ti <= lastTx then lastTx + 1 - ti else 0
  {
    hide RingKept, RingsKept, Buffers, Space, ProcessedRings, PairSends, Pending;
    if ri > lastRx || ti > lastTx {
      RingsKeptSelf(p.rx);
      RingsKeptSelf(p.tx);
    } else if Empty(p.rx[ri]) {
      PendingSkips(p.rx, ri, lastRx);
      SearchEffect(handler, p, ri + 1, ti, lastRx, lastTx);
      PendingSkips(Search(handler, p, ri + 1, ti, lastRx, lastTx).port.rx, ri, lastRx);
    } else if Empty(p.tx[ti]) {
      SearchEffect(handler, p, ri, ti + 1, lastRx, lastTx);
      PendingSkips(p.tx, ti, lastTx);
      PendingSkips(Search(handler, p, ri, ti + 1, lastRx, lastTx).port.tx, ti, lastTx);
    } else {
      PairEffect(handler, p, ri, ti, lastRx, lastTx);
      PairBuffers(handler, p, ri, ti);
      var p' := ProcessedPair(handler, p, ri, ti);
      SearchEffect(handler, p', ri, ti, lastRx, lastTx);
      var s := Search(handler, p', ri, ti, lastRx, lastTx);
      RingsKeptTransitive(p.rx, p'.rx, s.port.rx);
      RingsKeptTransitive(p.tx, p'.tx, s.port.tx);
    }
  }

  lemma PendingSkips(rings: seq<Ring>, i: nat, last: nat)
    requires last < |rings| && forall j :: 0 <= j < |rings| ==> WellFormed(rings[j])
    requires i <= last && Empty(rings[i])
    ensures Pending(rings, i, last) == Pending(rings, i + 1, last)
  {
    SpaceReachesTail(rings[i]);
  }

  /** Every round of the search loop that stays at its tx ring has less work left on the rx side. */
  lemma RoundWork<H>(handler: Handler<H>, p: Port<H>, ri: nat, ti: nat, lastRx: nat, lastTx: nat)
    requires InRange(p, lastRx, lastTx) && ri <= lastRx && ti <= lastTx
    ensures Empty(p.rx[ri]) ==> RxWork(p, ri + 1, lastRx) < RxWork(p, ri, lastRx)
    ensures !Empty(p.rx[ri]) && !Empty(p.tx[ti]) ==>
      RxWork(ProcessedPair(handler, p, ri, ti), ri, lastRx) < RxWork(p, ri, lastRx)
  {
    hide Pending, PairSends, RingsKept, Space, ProcessedRings, ProcessedPair;
    if Empty(p.rx[ri]) {
      PendingSkips(p.rx, ri, lastRx);
    } else {
      PairEffect(handler, p, ri, ti, lastRx, lastTx);
    }
  }

  // ---------------------------------------------------------------------------------------------
  // Runs of polls and kernel synchronisations

  /** The kernel may move tails and rewrite lengths, flags, ring flags and buffer contents, but leaves
      cursors and buffer indices alone. */
  ghost predicate KernelRing(r: Ring, r': Ring, size: nat)
  {
    && Backed(r', size) && BufIndices(r'.slots) == BufIndices(r.slots)
    && r'.head == r.head && r'.cur == r.cur
  }

  ghost predicate KernelStep<H>(p: Port<H>, p': Port<H>)
  {
    && |p'.rx| == |p.rx| && |p'.tx| == |p.tx| && |p'.mem| == |p.mem| && p'.h == p.h
    && (forall i :: 0 <= i < |p.rx| ==> KernelRing(p.rx[i], p'.rx[i], |p.mem|))
    && (forall i :: 0 <= i < |p.tx| ==> KernelRing(p.tx[i], p'.tx[i], |p.mem|))
  }

  /** The ring ranges of a descriptor. */
  datatype Range = Range(firstRx: nat, lastRx: nat, firstTx: nat, lastTx: nat)

  ghost predicate PollStep<H>(handler: Handler<H>, g: Range, p: Port<H>, p': Port<H>)
  {
    InRange(p, g.lastRx, g.lastTx) && p' == Search(handler, p, g.firstRx, g.firstTx, g.lastRx, g.lastTx).port
  }

  ghost predicate Run<H>(handler: Handler<H>, g: Range, ps: seq<Port<H>>)
  {
    && ps != [] && InRange(ps[0], g.lastRx, g.lastTx)
    && forall i :: 0 <= i < |ps| - 1 ==> KernelStep(ps[i], ps[i + 1]) || PollStep(handler, g, ps[i], ps[i + 1])
  }

  /** No buffer index occurs twice, in one ring or in two. */
  ghost predicate Distinct<H>(p: Port<H>)
  {
    forall b :: b in Buffers(p) ==> Buffers(p)[b] == 1
  }

  lemma {:induction false} SameIndicesSameHeld(a: seq<Ring>, b: seq<Ring>)
    requires |a| == |b| && forall i :: 0 <= i < |a| ==> BufIndices(a[i].slots) == BufIndices(b[i].slots)
    ensures AllHeld(a) == AllHeld(b)
  {
    if a != [] {
      SameIndicesSameHeld(a[..|a| - 1], b[..|b| - 1]);
    }
  }

  /** Over any number of polls and kernel synchronisations, the buffers over all rx and tx slots stay
      the same multiset, so distinct indices stay distinct and none is lost. */
  lemma {:induction false} RunConserves<H>(handler: Handler<H>, g: Range, ps: seq<Port<H>>, i: nat)
    requires Run(handler, g, ps) && i < |ps|
    ensures InRange(ps[i], g.lastRx, g.lastTx) && Buffers(ps[i]) == Buffers(ps[0])
    ensures Distinct(ps[0]) ==> Distinct(ps[i])
  {
    hide Search, BufIndices, AllHeld, WellFormed;
    if i > 0 {
      RunConserves(handler, g, ps, i - 1);
      var p, p' := ps[i - 1], ps[i];
      if PollStep(handler, g, p, p') {
        SearchEffect(handler, p, g.firstRx, g.firstTx, g.lastRx, g.lastTx);
      } else {
        assert KernelStep(p, ps[i - 1 + 1]);
        SameIndicesSameHeld(p.rx, p'.rx);
        SameIndicesSameHeld(p.tx, p'.tx);
      }
    }
  }

  lemma HeldOnce(s: seq<nat>, i: nat, j: nat)
    requires i < j < |s| && multiset(s)[s[i]] <= 1
    ensures s[i] != s[j]
  {
    assert s == s[..j] + s[j..];
    assert s[i] in multiset(s[..j]) && s[j] in multiset(s[j..]);
  }

  lemma {:induction false} HeldWithin(rings: seq<Ring>, k: nat)
    requires k < |rings|
    ensures Held(rings[k].slots) <= AllHeld(rings)
  {
    AllHeldUpdate(rings, k, rings[k]);
  }

  /** Distinct buffers make every ProcessRing call on the port an in-order filter. */
  lemma DistinctGivesArrivals<H>(p: Port<H>, ri: nat, ti: nat)
    requires Valid(p) && Distinct(p) && ri < |p.rx| && ti < |p.tx|
    ensures DistinctArrivals(FlowOf(p.rx[ri], p.tx[ti], p.mem, p.h))
  {
    var slots := p.rx[ri].slots;
    HeldWithin(p.rx, ri);
    forall i, j | 0 <= i < j < |slots| ensures slots[i].bufIdx != slots[j].bufIdx {
      var all := BufIndices(slots);
      assert all[i] in all && all[i] in Held(slots);
      assert Buffers(p)[all[i]] == 1;
      HeldOnce(all, i, j);
    }
  }

  lemma {:induction false} BatchSplits<H>(handler: Handler<H>, f: Flow<H>, a: nat, b: nat)
    requires Sound(f)
    ensures Batch(handler, f, a + b) == Batch(handler, Batch(handler, f, a), b)
  {
    hide Step;
    if b > 0 {
      BatchSplits(handler, f, a, b - 1);
    }
  }

  lemma {:induction false} SendsSplit<H>(handler: Handler<H>, f: Flow<H>, a: nat, b: nat)
    requires Sound(f)
    ensures Sends(handler, f, a + b) == Sends(handler, f, a) + Sends(handler, Batch(handler, f, a), b)
  {
    hide StepSends, Batch, Step;
    assert Batch(handler, f, a + 0) == Batch(handler, Batch(handler, f, a), 0) by { BatchSplits(handler, f, a, 0); }
    if b > 0 {
      SendsSplit(handler, f, a, b - 1);
      BatchSplits(handler, f, a, b - 1);
      assert a + (b - 1) == a + b - 1;
    }
  }

  lemma PairIsBatch<H>(handler: Handler<H>, p: Port<H>, ri: nat, ti: nat)
    requires Valid(p) && ri < |p.rx| && ti < |p.tx|
    ensures var p' := ProcessedPair(handler, p, ri, ti);
      FlowOf(p'.rx[ri], p'.tx[ti], p'.mem, p'.h)
      == Batch(handler, FlowOf(p.rx[ri], p.tx[ti], p.mem, p.h), Limit(p.rx[ri], p.tx[ti]))
  {
    hide Batch;
  }

  lemma PendingOne(rings: seq<Ring>, i: nat)
    requires i < |rings| && forall j :: 0 <= j < |rings| ==> WellFormed(rings[j])
    ensures Pending(rings, i, i) == Space(rings[i])
  {
    assert Pending(rings, i + 1, i) == 0;
  }

  lemma OnePairCounts<H>(handler: Handler<H>, p: Port<H>, ri: nat, ti: nat)
    requires InRange(p, ri, ti)
    ensures var s := Search(handler, p, ri, ti, ri, ti);
      && |s.port.rx| == |p.rx| && |s.port.tx| == |p.tx| && Valid(s.port)
      && s.count <= Space(p.rx[ri]) && s.sent <= Space(p.tx[ti])
  {
    hide Search, RingsKept, Buffers, Space, Pending;
    SearchEffect(handler, p, ri, ti, ri, ti);
    PendingOne(p.rx, ri);
    PendingOne(p.tx, ti);
  }

  /** On one ring pair, the configuration the server opens, a whole poll is a single batch over as many
      arrivals as it consumes; it releases the slots of both rings unless it finds nothing to do. */
  lemma {:induction false} OnePairIsBatch<H>(handler: Handler<H>, p: Port<H>, ri: nat, ti: nat)
    requires InRange(p, ri, ti)
    ensures var s, f := Search(handler, p, ri, ti, ri, ti), FlowOf(p.rx[ri], p.tx[ti], p.mem, p.h);
      && ri < |s.port.rx| && ti < |s.port.tx| && Valid(s.port)
      && FlowOf(s.port.rx[ri], s.port.tx[ti], s.port.mem, s.port.h) == Batch(handler, f, s.count)
      && s.sent == Sends(handler, f, s.count)
      && (if s.count == 0 then s.port == p else Released(s.port.rx[ri]) && Released(s.port.tx[ti]))
    decreases Pending(p.rx, ri, ri)
  {
    hide RingKept, RingsKept, Space, Buffers, Step, Pending, ProcessedRings, Search;
    SearchRound(handler, p, ri, ti, ri, ti);
    if Empty(p.rx[ri]) {
      SearchRound(handler, p, ri + 1, ti, ri, ti);
    } else if Empty(p.tx[ti]) {
      SearchRound(handler, p, ri, ti + 1, ri, ti);
    } else {
      hide Batch, Sends;
      PairEffect(handler, p, ri, ti, ri, ti);
      CountIsLimit(handler, p.rx[ri], p.tx[ti], p.mem, p.h);
      PairIsBatch(handler, p, ri, ti);
      ProcessedEffect(handler, p.rx[ri], p.tx[ti], p.mem, p.h);
      var f, n := FlowOf(p.rx[ri], p.tx[ti], p.mem, p.h), Limit(p.rx[ri], p.tx[ti]);
      var p' := ProcessedPair(handler, p, ri, ti);
      OnePairIsBatch(handler, p', ri, ti);
      var more := Search(handler, p', ri, ti, ri, ti).count;
      BatchSplits(handler, f, n, more);
      SendsSplit(handler, f, n, more);
    }
  }

  /** So, with distinct buffers, a whole poll on one ring pair is an in-order filter of the arrivals it
      consumes: they are the oldest ones, each is handled once, and the tx ring receives exactly those
      the handler sends, in order of arrival; the slots passed are released to the kernel. */
  lemma OnePollIsFilter<H>(handler: Handler<H>, p: Port<H>, ri: nat, ti: nat)
    requires InRange(p, ri, ti) && Distinct(p)
    ensures var s, f := Search(handler, p, ri, ti, ri, ti), FlowOf(p.rx[ri], p.tx[ti], p.mem, p.h);
      && |s.port.rx| == |p.rx| && |s.port.tx| == |p.tx| && Valid(s.port)
      && s.count <= |f.rx| && Fits(handler, f, s.count) && s.sent == |Outgoing(handler, f, s.count)|
      && Filtered(handler, f, FlowOf(s.port.rx[ri], s.port.tx[ti], s.port.mem, s.port.h), s.count)
      && (if s.count == 0 then s.port == p else Released(s.port.rx[ri]) && Released(s.port.tx[ti]))
  {
    hide Search, Space, Filtered, Sends, Batch, Outgoing;
    var s, f := Search(handler, p, ri, ti, ri, ti), FlowOf(p.rx[ri], p.tx[ti], p.mem, p.h);
    OnePairIsBatch(handler, p, ri, ti);
    OnePairCounts(handler, p, ri, ti);
    SpaceReachesTail(p.rx[ri]);
    SpaceReachesTail(p.tx[ti]);
    DistinctGivesArrivals(p, ri, ti);
    SendsAreOutgoing(handler, f, s.count);
    BatchIsFilter(handler, f, s.count);
  }
}
