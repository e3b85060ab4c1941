/**
 nm_dispatch and nm_nextpkt: delivery of received packets to a callback. nm_dispatch calls back one
 packet late, so that it can tell the callback which packet is the last one.
 */
module Dispatch {
  import opened RingModel
  import opened PollModel
  import opened NetmapLoop
  import opened Wrappers

  /** One received packet: its ring and slot, its buffer and its length. */
  datatype Pkt = Pkt(ring: nat, slot: nat, bufIdx: nat, len: nat)

  /** A callback invocation; `more` is the NM_MORE_PKTS flag. */
  datatype Call = Call(pkt: Pkt, more: bool)

  function PktAt(r: Ring, ri: nat, i: nat): Pkt
    requires i < |r.slots|
  {
    Pkt(ri, i, r.slots[i].bufIdx, r.slots[i].len)
  }

  /** The first n packets of ring ri, oldest first. */
  function Taken(r: Ring, ri: nat, n: nat): (s: seq<Pkt>)
    requires r.cur < |r.slots| && n <= |r.slots|
    ensures |s| == n
  {
    seq(n, j requires 0 <= j < n => PktAt(r, ri, Pos(r.cur, j, |r.slots|)))
  }

  function Advanced(r: Ring, n: nat): Ring
    requires r.cur < |r.slots| && n <= |r.slots|
  {
    if n == 0 then r else var p := Pos(r.cur, n, |r.slots|); r.(head := p, cur := p)
  }

  /** The calls for a list of packets: all but the last say that more follow. */
  function Calls(pkts: seq<Pkt>): (s: seq<Call>)
    ensures |s| == |pkts|
  {
    seq(|pkts|, i requires 0 <= i < |pkts| => Call(pkts[i], i < |pkts| - 1))
  }

  /** Where a dispatch stands: the rings, the packets taken so far and the ring last visited. */
  datatype Walk = Walk(rings: seq<Ring>, pkts: seq<Pkt>, at: nat)

  datatype Span = Span(first: nat, last: nat)

  ghost predicate Fit(rings: seq<Ring>, g: Span, cur: nat)
  {
    && g.first <= cur <= g.last < |rings|
    && forall i :: 0 <= i < |rings| ==> WellFormed(rings[i])
  }

  /** The ring visited at turn c, when starting from ring cur. */
  function Visited(g: Span, cur: nat, c: nat): nat
  {
    if cur + c > g.last then g.first else cur + c
  }

  /** How many packets a ring yields when got of cnt have been taken; a negative cnt is no limit. */
  ghost function Yield(r: Ring, cnt: int, got: nat): (n: nat)
    requires WellFormed(r) && (cnt < 0 || got <= cnt)
    ensures n <= Space(r) < |r.slots| && (cnt < 0 || got + n <= cnt)
  {
    SpaceReachesTail(r);
    if 0 <= cnt && cnt - got < Space(r) then cnt - got else Space(r)
  }

  /** One turn: take what ring ri yields. */
  ghost function WalkTurn(w: Walk, ri: nat, cnt: int): (w': Walk)
    requires ri < |w.rings| && (forall i :: 0 <= i < |w.rings| ==> WellFormed(w.rings[i]))
    requires cnt < 0 || |w.pkts| <= cnt
    ensures |w'.rings| == |w.rings| && (forall i :: 0 <= i < |w.rings| ==> WellFormed(w'.rings[i]))
    ensures cnt < 0 || |w'.pkts| <= cnt
    ensures w'.at == ri && w.pkts <= w'.pkts
  {
    var n := Yield(w.rings[ri], cnt, |w.pkts|);
    Walk(w.rings[ri := Advanced(w.rings[ri], n)], w.pkts + Taken(w.rings[ri], ri, n), ri)
  }

  ghost function WalkAfter(rings: seq<Ring>, g: Span, cur: nat, cnt: int, c: nat): (w: Walk)
    requires Fit(rings, g, cur)
    ensures |w.rings| == |rings| && (forall i :: 0 <= i < |rings| ==> WellFormed(w.rings[i]))
    ensures cnt < 0 || |w.pkts| <= cnt
    ensures g.first <= w.at <= g.last
  {
    if c == 0 then Walk(rings, [], cur)
    else
      var w := WalkAfter(rings, g, cur, cnt, c - 1);
      if |w.pkts| == cnt then w else WalkTurn(w, Visited(g, cur, c - 1), cnt)
  }

  /** What nm_dispatch(cnt) does; a count of 0 means no limit. */
  ghost function Dispatched(rings: seq<Ring>, g: Span, cur: nat, cnt: int): Walk
    requires Fit(rings, g, cur)
  {
    WalkAfter(rings, g, cur, if cnt == 0 then -1 else cnt, g.last - g.first + 1)
  }

  lemma AdvancedLess(r: Ring, n: nat)
    requires WellFormed(r) && n <= Space(r)
    ensures n <= |r.slots| && WellFormed(Advanced(r, n)) && Space(Advanced(r, n)) == Space(r) - n
  {
    SpaceReachesTail(r);
    if n > 0 {
      AdvancedSpace(r, Advanced(r, n), n);
    }
  }

  /** A walk that has reached its count stays where it is. */
  lemma {:induction false} WalkStops(rings: seq<Ring>, g: Span, cur: nat, cnt: int, c: nat, d: nat)
    requires Fit(rings, g, cur) && c <= d && |WalkAfter(rings, g, cur, cnt, c).pkts| == cnt
    ensures WalkAfter(rings, g, cur, cnt, d) == WalkAfter(rings, g, cur, cnt, c)
  {
    hide WalkTurn, WellFormed;
    if c < d {
      WalkStops(rings, g, cur, cnt, c, d - 1);
    }
  }

  // ---------------------------------------------------------------------------------------------
  // What a dispatch delivers

  /** Ring i is visited in the first c turns. */
  predicate VisitedBy(g: Span, cur: nat, c: nat, i: nat)
  {
    (cur <= i <= g.last && i < cur + c) || (i == g.first && cur + c > g.last + 1)
  }

  /** Without a limit, every visited ring is drained and no other ring is touched. */
  lemma {:induction false} UnlimitedDrains(rings: seq<Ring>, g: Span, cur: nat, c: nat, i: nat)
    requires Fit(rings, g, cur) && i < |rings|
    ensures Space(rings[i]) <= |rings[i].slots| && 0 <= Space(rings[i])
    ensures WalkAfter(rings, g, cur, -1, c).rings[i] ==
      if VisitedBy(g, cur, c, i) then Advanced(rings[i], Space(rings[i])) else rings[i]
    ensures Advanced(rings[i], Space(rings[i])) ==
      if Empty(rings[i]) then rings[i] else rings[i].(head := rings[i].tail, cur := rings[i].tail)
  {
    SpaceReachesTail(rings[i]);
    if c > 0 {
      UnlimitedDrains(rings, g, cur, c - 1, i);
      AdvancedLess(rings[i], Space(rings[i]));
    }
  }

  /** With no limit on the count, a dispatch leaves every ring of the range empty exactly when the rings
      it skips, those strictly between the first one and the one it starts from, were empty; started
      from the first ring it always does. */
  lemma DispatchDrainsIff(rings: seq<Ring>, g: Span, cur: nat)
    requires Fit(rings, g, cur)
    ensures AllEmpty(Dispatched(rings, g, cur, 0).rings, g.first, g.last)
      <==> forall i :: g.first < i < cur ==> Empty(rings[i])
  {
    hide Space, WalkAfter;
    var after, n := Dispatched(rings, g, cur, 0).rings, g.last - g.first + 1;
    forall i | g.first <= i <= g.last ensures Empty(after[i]) <==> (g.first < i < cur ==> Empty(rings[i])) {
      UnlimitedDrains(rings, g, cur, n, i);
      AdvancedLess(rings[i], Space(rings[i]));
      SpaceReachesTail(Advanced(rings[i], Space(rings[i])));
    }
  }

  /** A count only cuts the delivery short: the packets are the first `cnt` of those delivered without
      a limit, or all of them. */
  lemma {:induction false} CountIsPrefix(rings: seq<Ring>, g: Span, cur: nat, cnt: nat, c: nat)
    requires Fit(rings, g, cur)
    ensures var w, all := WalkAfter(rings, g, cur, cnt, c), WalkAfter(rings, g, cur, -1, c);
      && w.pkts <= all.pkts && (|w.pkts| == cnt || w == all)
  {
    hide WalkTurn, WellFormed;
    if c > 0 {
      CountIsPrefix(rings, g, cur, cnt, c - 1);
      var w, all := WalkAfter(rings, g, cur, cnt, c - 1), WalkAfter(rings, g, cur, -1, c - 1);
      if |w.pkts| == cnt {
        PrefixGrows(w.pkts, all.pkts, WalkAfter(rings, g, cur, -1, c).pkts);
      } else {
        TurnIsPrefix(w, Visited(g, cur, c - 1), cnt);
      }
    }
  }

  lemma TurnIsPrefix(w: Walk, ri: nat, cnt: nat)
    requires ri < |w.rings| && (forall i :: 0 <= i < |w.rings| ==> WellFormed(w.rings[i])) && |w.pkts| <= cnt
    ensures var a, b := WalkTurn(w, ri, cnt), WalkTurn(w, ri, -1); a.pkts <= b.pkts && (|a.pkts| == cnt || a == b)
  {
    hide Space;
    var r := w.rings[ri];
    SpaceReachesTail(r);
    assert Taken(r, ri, Yield(r, cnt, |w.pkts|)) == Taken(r, ri, Space(r))[..Yield(r, cnt, |w.pkts|)];
  }

  lemma PrefixGrows(a: seq<Pkt>, b: seq<Pkt>, c: seq<Pkt>)
    requires a <= b <= c
    ensures a <= c
  {
  }

  /** All packets pending in rings first to upto - 1, ring by ring, oldest first in each. */
  ghost function Backlog(rings: seq<Ring>, first: nat, upto: nat): seq<Pkt>
    requires upto <= |rings| && forall i :: 0 <= i < |rings| ==> WellFormed(rings[i])
  {
    if upto <= first then []
    else
      SpaceReachesTail(rings[upto - 1]);
      Backlog(rings, first, upto - 1) + Taken(rings[upto - 1], upto - 1, Space(rings[upto - 1]))
  }

  lemma {:induction false} WalkIsBacklog(rings: seq<Ring>, g: Span, c: nat)
    requires Fit(rings, g, g.first) && g.first + c <= g.last + 1
    ensures WalkAfter(rings, g, g.first, -1, c).pkts == Backlog(rings, g.first, g.first + c)
  {
    hide Space, Taken, Advanced;
    if c > 0 {
      WalkIsBacklog(rings, g, c - 1);
      UnlimitedDrains(rings, g, g.first, c - 1, g.first + c - 1);
    }
  }

  /** Started from the first ring, a dispatch delivers the pending packets of the range in ring order,
      as many as the count allows: each consumed slot once, each with its own buffer and length. */
  lemma DispatchDeliversBacklog(rings: seq<Ring>, g: Span, cnt: int)
    requires Fit(rings, g, g.first)
    ensures var backlog, pkts := Backlog(rings, g.first, g.last + 1), Dispatched(rings, g, g.first, cnt).pkts;
      pkts == if 0 < cnt < |backlog| then backlog[..cnt] else backlog
  {
    var n := g.last - g.first + 1;
    WalkIsBacklog(rings, g, n);
    if cnt > 0 {
      CountIsPrefix(rings, g, g.first, cnt, n);
    } else {
      LimitSign(rings, g, g.first, cnt, n);
    }
  }

  lemma {:induction false} LimitSign(rings: seq<Ring>, g: Span, cur: nat, cnt: int, c: nat)
    requires Fit(rings, g, cur) && cnt <= 0
    ensures WalkAfter(rings, g, cur, if cnt == 0 then -1 else cnt, c) == WalkAfter(rings, g, cur, -1, c)
  {
    hide Space;
    if c > 0 {
      LimitSign(rings, g, cur, cnt, c - 1);
    }
  }

  // ---------------------------------------------------------------------------------------------
  // What is left behind

  /** A packet taken from a ring is the slot it lay in: slots follow the cursor round the ring. */
  lemma PacketsTaken(r: Ring, ri: nat, n: nat, j: nat)
    requires WellFormed(r) && j < n <= |r.slots|
    ensures var p := (r.cur + j) % |r.slots|;
      Taken(r, ri, n)[j] == Pkt(ri, p, r.slots[p].bufIdx, r.slots[p].len)
  {
    assert (r.cur + j) % |r.slots| == Pos(r.cur, j, |r.slots|) by { WrapsOnce(r.cur + j, |r.slots|); }
  }

  lemma WrapsOnce(x: nat, n: nat)
    requires x < 2 * n
    ensures x % n == if x < n then x else x - n
  {
    if x >= n {
      assert x == n + (x - n);
    }
  }

  lemma TakenSplit(r: Ring, ri: nat, n: nat)
    requires WellFormed(r) && n <= Space(r)
    ensures n <= |r.slots| && Space(r) <= |r.slots|
    ensures WellFormed(Advanced(r, n)) && Space(Advanced(r, n)) == Space(r) - n
    ensures Space(r) - n <= |Advanced(r, n).slots|
    ensures Taken(r, ri, Space(r)) == Taken(r, ri, n) + Taken(Advanced(r, n), ri, Space(r) - n)
  {
    SpaceReachesTail(r);
    AdvancedLess(r, n);
    hide Space;
  }

  /** A dispatch, with or without a limit, takes slots only by releasing them: a ring it changes has its head at its
      cursor, and slots, tail and flags are never touched. */
  lemma {:induction false} WalkReleases(rings: seq<Ring>, g: Span, cur: nat, cnt: int, c: nat, i: nat)
    requires Fit(rings, g, cur) && i < |rings|
    ensures var r, r' := rings[i], WalkAfter(rings, g, cur, cnt, c).rings[i];
      r'.slots == r.slots && r'.tail == r.tail && r'.flags == r.flags && (r' == r || r'.head == r'.cur)
  {
    hide Space, WellFormed;
    if c > 0 {
      WalkReleases(rings, g, cur, cnt, c - 1, i);
    }
  }

  function FromRing(pkts: seq<Pkt>, i: nat): seq<Pkt>
  {
    if pkts == [] then []
    else
      var p := pkts[|pkts| - 1];
      FromRing(pkts[..|pkts| - 1], i) + if p.ring == i then [p] else []
  }

  lemma {:induction false} FromRingConcat(a: seq<Pkt>, b: seq<Pkt>, i: nat)
    ensures FromRing(a + b, i) == FromRing(a, i) + FromRing(b, i)
  {
    if b == [] {
      assert a + b == a;
    } else {
      assert (a + b)[..|a + b| - 1] == a + b[..|b| - 1];
      FromRingConcat(a, b[..|b| - 1], i);
    }
  }

  lemma {:induction false} FromOneRing(pkts: seq<Pkt>, ri: nat, i: nat)
    requires forall j :: 0 <= j < |pkts| ==> pkts[j].ring == ri
    ensures FromRing(pkts, i) == if ri == i then pkts else []
  {
    if pkts != [] {
      FromOneRing(pkts[..|pkts| - 1], ri, i);
    }
  }

  lemma TurnConserves(w: Walk, ri: nat, cnt: int, i: nat)
    requires ri < |w.rings| && (forall j :: 0 <= j < |w.rings| ==> WellFormed(w.rings[j]))
    requires (cnt < 0 || |w.pkts| <= cnt) && i < |w.rings|
    ensures var w' := WalkTurn(w, ri, cnt);
      && Space(w.rings[i]) <= |w.rings[i].slots| && Space(w'.rings[i]) <= |w'.rings[i].slots|
      && FromRing(w'.pkts, i) + Taken(w'.rings[i], i, Space(w'.rings[i])) ==
           FromRing(w.pkts, i) + Taken(w.rings[i], i, Space(w.rings[i]))
  {
    var r := w.rings[ri];
    var n := Yield(r, cnt, |w.pkts|);
    SpaceReachesTail(w.rings[i]);
    AdvancedLess(r, n);
    FromTurn(w.pkts, r, ri, n, i);
    hide Space, Taken, Advanced, FromRing, WellFormed, Yield;
  }

  lemma FromTurn(pkts: seq<Pkt>, r: Ring, ri: nat, n: nat, i: nat)
    requires WellFormed(r) && n <= Space(r)
    ensures n <= |r.slots| && Space(r) <= |r.slots|
    ensures WellFormed(Advanced(r, n)) && Space(Advanced(r, n)) == Space(r) - n
    ensures Space(r) - n <= |Advanced(r, n).slots|
    ensures if i == ri then
        FromRing(pkts + Taken(r, ri, n), i) + Taken(Advanced(r, n), ri, Space(r) - n) ==
          FromRing(pkts, i) + Taken(r, ri, Space(r))
      else FromRing(pkts + Taken(r, ri, n), i) == FromRing(pkts, i)
  {
    TakenSplit(r, ri, n);
    var taken := Taken(r, ri, n);
    FromRingConcat(pkts, taken, i);
    assert forall j :: 0 <= j < n ==> taken[j].ring == ri;
    hide Taken;
    FromOneRing(taken, ri, i);
    hide Space, Advanced, FromRing, WellFormed;
    Appended(FromRing(pkts, i), taken, Taken(Advanced(r, n), ri, Space(r) - n));
  }

  lemma Appended(a: seq<Pkt>, b: seq<Pkt>, c: seq<Pkt>)
    ensures a + b + c == a + (b + c) && a + [] == a
  {
  }

  /** Nothing is lost, repeated or reordered, wherever a dispatch starts and whatever its limit: of every ring, what
      it delivered followed by what is still pending is what was pending before. */
  lemma {:induction false} DeliveredOrPending(rings: seq<Ring>, g: Span, cur: nat, cnt: int, c: nat, i: nat)
    requires Fit(rings, g, cur) && i < |rings|
    ensures var w := WalkAfter(rings, g, cur, cnt, c);
      && Space(w.rings[i]) <= |w.rings[i].slots| && Space(rings[i]) <= |rings[i].slots|
      && FromRing(w.pkts, i) + Taken(w.rings[i], i, Space(w.rings[i])) == Taken(rings[i], i, Space(rings[i]))
  {
    SpaceReachesTail(rings[i]);
    assert FromRing([], i) == [];
    hide Space, Taken, WalkTurn, Visited, FromRing;
    if c > 0 {
      DeliveredOrPending(rings, g, cur, cnt, c - 1, i);
      TurnConserves(WalkAfter(rings, g, cur, cnt, c - 1), Visited(g, cur, c - 1), cnt, i);
    }
  }

  /** A full turn without a limit ends at the last ring of the range, or back at the first one if it did not start
      there; one that a limit stops ends at the ring of the last packet. */
  lemma DispatchEndsAt(rings: seq<Ring>, g: Span, cur: nat, cnt: int)
    requires Fit(rings, g, cur)
    ensures var w := Dispatched(rings, g, cur, cnt);
      if cnt > 0 && |w.pkts| == cnt then w.at == w.pkts[cnt - 1].ring
      else w.at == if cur == g.first then g.last else g.first
  {
    StandsAt(rings, g, cur, if cnt == 0 then -1 else cnt, g.last - g.first + 1);
  }

  lemma {:induction false} StandsAt(rings: seq<Ring>, g: Span, cur: nat, cnt: int, c: nat)
    requires Fit(rings, g, cur) && cnt != 0
    ensures var w := WalkAfter(rings, g, cur, cnt, c);
      if |w.pkts| == cnt then w.at == w.pkts[cnt - 1].ring
      else w.at == if c == 0 then cur else Visited(g, cur, c - 1)
  {
    hide Space;
    if c > 0 {
      StandsAt(rings, g, cur, cnt, c - 1);
    }
  }

  // ---------------------------------------------------------------------------------------------
  // The descriptor

  /** The calls already made while the last of pkts is held back. */
  function CallsSoFar(pkts: seq<Pkt>): seq<Call>
  {
    if pkts == [] then [] else seq(|pkts| - 1, i requires 0 <= i < |pkts| - 1 => Call(pkts[i], true))
  }

  function LastOf(pkts: seq<Pkt>): Option<Pkt>
  {
    if pkts == [] then None else Some(pkts[|pkts| - 1])
  }

  lemma StartOf(r: Ring, ri: nat)
    requires WellFormed(r)
    ensures Advanced(r, 0) == r && Taken(r, ri, 0) == []
  {
  }

  lemma OneMore(r: Ring, ri: nat, k: nat)
    requires WellFormed(r) && k < Space(r)
    ensures k + 1 <= |r.slots| && Advanced(Advanced(r, k), 1) == Advanced(r, k + 1)
    ensures Taken(r, ri, k + 1) == Taken(r, ri, k) + [PktAt(Advanced(r, k), ri, Advanced(r, k).cur)]
  {
    SpaceReachesTail(r);
    NextOfPos(r.cur, k, |r.slots|);
  }

  /** How many steps round the range lead from ring cur to ring i. */
  function Turns(g: Span, cur: nat, i: nat): int
  {
    if i >= cur then i - cur else i - cur + (g.last - g.first + 1)
  }

  /** Going round from cur, ring i comes before ring j. */
  predicate Sooner(g: Span, cur: nat, i: nat, j: nat)
  {
    Turns(g, cur, i) < Turns(g, cur, j)
  }

  class Descriptor {
    const rings: seq<NetmapRing>
    const span: Span
    var curRxRing: nat
    /** The packet held back until it is known whether another one follows. */
    var held: Option<Pkt>
    /** The callback, modelled as the list of its invocations. */
    var calls: seq<Call>

    constructor (rings: seq<NetmapRing>, span: Span)
      ensures this.rings == rings && this.span == span && curRxRing == span.first && calls == []
    {
      this.rings, this.span := rings, span;
      curRxRing, held, calls := span.first, None, [];
    }

    ghost predicate Separate()
    {
      forall i, j :: 0 <= i < j < |rings| ==> rings[i] != rings[j]
    }

    /** Take the oldest packet of a ring and hold it. */
    method TakeOne(ri: nat)
      requires ri < |rings| && WellFormed(rings[ri].View()) && !rings[ri].IsEmpty()
      modifies this`held, rings[ri]
      ensures held == Some(PktAt(old(rings[ri].View()), ri, old(rings[ri].cur)))
      ensures rings[ri].View() == old(Advanced(rings[ri].View(), 1))
    {
      var ring := rings[ri];
      var i := ring.cur;
      held := Some(Pkt(ri, i, ring.slot[i].bufIdx, ring.slot[i].len));
      ring.cur := ring.NextSlot(i);
      ring.head := ring.cur;
    }

    /** The callback for the held packet, if there is one. */
    method CallBack(more: bool)
      modifies this`calls
      ensures calls == old(calls) + if held.Some? then [Call(held.value, more)] else []
    {
      if held.Some? {
        calls := calls + [Call(held.value, more)];
      }
    }

    /** The packets taken so far: the last one is held, the others have been called back. */
    ghost predicate Delivered(pkts: seq<Pkt>, before: seq<Call>)
      reads this
    {
      held == LastOf(pkts) && calls == before + CallsSoFar(pkts)
    }

    /** One round of the inner loop of nm_dispatch. */
    method CallAndTake(ri: nat, ghost pkts: seq<Pkt>, ghost before: seq<Call>)
      requires ri < |rings| && WellFormed(rings[ri].View()) && !rings[ri].IsEmpty() && Delivered(pkts, before)
      modifies this`held, this`calls, rings[ri]
      ensures rings[ri].View() == old(Advanced(rings[ri].View(), 1))
      ensures Delivered(pkts + [PktAt(old(rings[ri].View()), ri, old(rings[ri].cur))], before)
    {
      CallBack(true);
      TakeOne(ri);
      assert CallsSoFar(pkts + [held.value]) ==
        CallsSoFar(pkts) + if pkts == [] then [] else [Call(LastOf(pkts).value, true)];
    }

    /** The inner loop of nm_dispatch: take packets from one ring. */
    method TakeFromRing(ri: nat, cnt: int, got: nat, ghost pkts: seq<Pkt>, ghost before: seq<Call>) returns (got': nat)
      requires ri < |rings| && WellFormed(rings[ri].View()) && (cnt < 0 || got <= cnt)
      requires Delivered(pkts, before)
      modifies this`held, this`calls, rings[ri]
      ensures var r := old(rings[ri].View()); var n := Yield(r, cnt, got);
        rings[ri].View() == Advanced(r, n) && got' == got + n && Delivered(pkts + Taken(r, ri, n), before)
    {
      hide Space, Advanced, Taken, Delivered;
      ghost var r := rings[ri].View();
      SpaceReachesTail(r);
      StartOf(r, ri);
      assert pkts + [] == pkts;
      ghost var k := 0;
      got' := got;
      while !rings[ri].IsEmpty() && cnt != got'
        invariant k <= Yield(r, cnt, got) && got' == got + k
        invariant rings[ri].View() == Advanced(r, k)
        invariant Delivered(pkts + Taken(r, ri, k), before)
        decreases Space(r) - k
      {
        AdvancedLess(r, k);
        SpaceReachesTail(rings[ri].View());
        OneMore(r, ri, k);
        ghost var taken := pkts + Taken(r, ri, k);
        assert taken + [PktAt(rings[ri].View(), ri, rings[ri].cur)] == pkts + Taken(r, ri, k + 1);
        CallAndTake(ri, taken, before);
        got', k := got' + 1, k + 1;
      }
      AdvancedLess(r, k);
      SpaceReachesTail(rings[ri].View());
    }

    /** Take from ring ri what it yields. */
    method TakeTurn(ri: nat, cnt: int, got: nat, ghost w: Walk, ghost before: seq<Call>) returns (got': nat)
      requires Separate() && ri < |rings| && Views(rings) == w.rings
      requires forall i :: 0 <= i < |w.rings| ==> WellFormed(w.rings[i])
      requires (cnt < 0 || got <= cnt) && got == |w.pkts| && Delivered(w.pkts, before)
      modifies this`held, this`calls, rings
      ensures var w' := WalkTurn(w, ri, cnt);
        Views(rings) == w'.rings && got' == |w'.pkts| && Delivered(w'.pkts, before)
    {
      hide Space, Advanced, Delivered, Yield, WellFormed;
      got' := TakeFromRing(ri, cnt, got, w.pkts, before);
      forall i | 0 <= i < |rings| && i != ri ensures rings[i].View() == w.rings[i] {
      }
    }

    /** Rings, calls and count are where the walk from `start` is after c turns. */
    ghost predicate At(start: seq<Ring>, cur: nat, limit: int, c: nat, got: nat, ri: nat, before: seq<Call>)
      requires Fit(start, span, cur)
      reads this, rings, set r | r in rings :: r.slot
    {
      var w := WalkAfter(start, span, cur, limit, c);
      && curRxRing == cur && Views(rings) == w.rings && got == |w.pkts| && ri == w.at && Delivered(w.pkts, before)
    }

    /** One turn of the outer loop of nm_dispatch. */
    method Turn(c: nat, limit: int, got: nat, ghost start: seq<Ring>, ghost at: nat, ghost before: seq<Call>)
      returns (got': nat, ri: nat)
      requires Separate() && Fit(start, span, curRxRing) && At(start, curRxRing, limit, c, got, at, before)
      requires limit != got
      modifies this`held, this`calls, rings
      ensures At(start, curRxRing, limit, c + 1, got', ri, before)
    {
      hide WellFormed, Delivered, WalkTurn;
      ri := curRxRing + c;
      if ri > span.last {
        ri := span.first;
      }
      got' := TakeTurn(ri, limit, got, WalkAfter(start, span, curRxRing, limit, c), before);
    }

    /** The call for the last packet. */
    method CallLast(ghost pkts: seq<Pkt>, ghost before: seq<Call>)
      requires Delivered(pkts, before)
      modifies this`calls
      ensures calls == before + Calls(pkts)
    {
      CallBack(false);
      assert Calls(pkts) == CallsSoFar(pkts) + if held.Some? then [Call(held.value, false)] else [];
    }

    /** The outer loop of nm_dispatch. */
    method TakeFromRings(limit: int, n: nat, ghost start: seq<Ring>, ghost before: seq<Call>)
      returns (got: nat, ri: nat)
      requires Separate() && Fit(start, span, curRxRing) && At(start, curRxRing, limit, 0, 0, curRxRing, before)
      modifies this`held, this`calls, rings
      ensures var w := WalkAfter(start, span, curRxRing, limit, n);
        Views(rings) == w.rings && got == |w.pkts| && ri == w.at && Delivered(w.pkts, before)
    {
      hide At, Fit, WalkAfter, Delivered;
      ri, got := curRxRing, 0;
      var c := 0;
      while c < n && limit != got
        invariant 0 <= c <= n && At(start, curRxRing, limit, c, got, ri, before)
      {
        got, ri := Turn(c, limit, got, start, ri, before);
        c := c + 1;
      }
      WalkEnds(start, curRxRing, limit, c, n, got, ri, before);
    }

    /** nm_dispatch: exactly one call per consumed packet, in the order of consumption, each but the last
        saying that more follow. */
    method NmDispatch(cnt: int) returns (got: nat)
      requires Separate() && Fit(Views(rings), span, curRxRing)
      modifies this, rings
      ensures var w := old(Dispatched(Views(rings), span, curRxRing, cnt));
        && Views(rings) == w.rings && got == |w.pkts| && curRxRing == w.at
        && old(calls) <= calls && |calls| == |old(calls)| + got
        && (forall i :: 0 <= i < got ==> calls[|old(calls)| + i] == Call(w.pkts[i], i < got - 1))
    {
      ghost var start := Views(rings);
      var limit := if cnt == 0 then -1 else cnt;
      var n := span.last - span.first + 1;
      held := None;
      hide Fit, Separate, Calls, Views;
      ghost var w := WalkAfter(start, span, curRxRing, limit, n);
      assert w == Dispatched(start, span, curRxRing, cnt);
      StartsAt(start, limit);
      hide At, Delivered, WalkAfter, Dispatched;
      var ri: nat;
      got, ri := TakeFromRings(limit, n, start, calls);
      CallLast(w.pkts, old(calls));
      curRxRing := ri;
      CallsMade(w.pkts, old(calls));
    }

    lemma StartsAt(start: seq<Ring>, limit: int)
      requires Fit(start, span, curRxRing) && Views(rings) == start && held == None
      ensures At(start, curRxRing, limit, 0, 0, curRxRing, calls)
    {
    }

    lemma CallsMade(pkts: seq<Pkt>, before: seq<Call>)
      ensures var made := before + Calls(pkts);
        && before <= made && |made| == |before| + |pkts|
        && (forall i :: 0 <= i < |pkts| ==> made[|before| + i] == Call(pkts[i], i < |pkts| - 1))
    {
    }

    lemma WalkEnds(start: seq<Ring>, cur: nat, limit: int, c: nat, n: nat, got: nat, ri: nat, before: seq<Call>)
      requires Fit(start, span, cur) && At(start, cur, limit, c, got, ri, before)
      requires c <= n && (c == n || limit == got)
      ensures var w := WalkAfter(start, span, cur, limit, n);
        Views(rings) == w.rings && got == |w.pkts| && ri == w.at && Delivered(w.pkts, before)
    {
      if c < n {
        WalkStops(start, span, cur, limit, c, n);
      }
    }

    /** nm_nextpkt: the oldest packet of the first nonempty ring, going round from the current one; None
        exactly when every ring of the range is empty. */
    method NmNextPkt() returns (r: Option<Pkt>)
      requires Separate() && Fit(Views(rings), span, curRxRing)
      modifies this`curRxRing, rings
      ensures r.None? <==> old(AllEmpty(Views(rings), span.first, span.last))
      ensures r.None? ==> Views(rings) == old(Views(rings)) && curRxRing == old(curRxRing)
      ensures r.Some? ==>
        && var ri := r.value.ring; var v := old(Views(rings));
        && span.first <= ri <= span.last && curRxRing == ri && !Empty(v[ri])
        && r.value == Pkt(ri, v[ri].cur, v[ri].slots[v[ri].cur].bufIdx, v[ri].slots[v[ri].cur].len)
        && (var next := if v[ri].cur + 1 == |v[ri].slots| then 0 else v[ri].cur + 1;
            Views(rings) == v[ri := v[ri].(head := next, cur := next)])
        && (forall i :: span.first <= i <= span.last && Sooner(span, old(curRxRing), i, ri) ==> Empty(v[i]))
    {
      ghost var v := Views(rings);
      var ri := curRxRing;
      ghost var turns := 0;
      while true
        invariant span.first <= ri <= span.last && turns <= span.last - span.first
        invariant turns == Turns(span, curRxRing, ri)
        invariant Views(rings) == v && curRxRing == old(curRxRing)
        invariant forall i :: span.first <= i <= span.last && Sooner(span, curRxRing, i, ri) ==> Empty(v[i])
        decreases span.last - span.first - turns
      {
        if !rings[ri].IsEmpty() {
          var ring := rings[ri];
          var i := ring.cur;
          r := Some(Pkt(ri, i, ring.slot[i].bufIdx, ring.slot[i].len));
          ring.cur := ring.NextSlot(i);
          ring.head := ring.cur;
          curRxRing := ri;
          assert Views(rings) == v[ri := v[ri].(head := ring.cur, cur := ring.cur)];
          return;
        }
        ri := ri + 1;
        if ri > span.last {
          ri := span.first;
        }
        if ri == curRxRing {
          break;
        }
        turns := turns + 1;
      }
      r := None;
    }
  }
}
