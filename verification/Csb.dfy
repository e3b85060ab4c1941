/**
 The cursor-sharing protocol between a guest and its host: each side publishes two cursors with two
 plain stores and reads the other side's two cursors with two plain loads, in opposite orders. Stores
 and loads interleave freely, under sequential consistency. Cursors are counted without wrapping;
 `WrappedDistance` says why the ring indices that are really shared carry the same information.
 */
module CsbProtocol {
  import RingModel

  /** A shared cursor: its value and the number of the publication it belongs to. */
  datatype Cursor = Cursor(at: nat, version: nat)

  /** What a side is in the middle of. */
  datatype Phase =
    | Idle
    | Storing(first: nat, second: nat)  // the first of two cursors is stored
    | Loading(loaded: Cursor)           // the first of two cursors is loaded

  /** The pair of cursors a side has last read. */
  datatype Seen = Seen(front: Cursor, back: Cursor)

  /** `disciplined`: each side advances only within what it last read; otherwise it stores any values.
      `headFirst`: the wrong order of the guest's two stores. The guest owns head and cur and sees hwcur and
      hwtail; the host owns hwcur and hwtail and sees head and cur. */
  datatype State = State(
    slots: nat, disciplined: bool, headFirst: bool,
    head: Cursor, cur: Cursor, hwcur: Cursor, hwtail: Cursor,
    guest: Phase, guestSeen: Seen,  // front: hwcur, back: hwtail
    host: Phase, hostSeen: Seen)    // front: head, back: cur

  datatype Label =
    | GuestStoreFirst(cur: nat, head: nat)
    | GuestStoreSecond
    | GuestLoadFirst
    | GuestLoadSecond
    | HostStoreFirst(hwcur: nat, hwtail: nat)
    | HostStoreSecond
    | HostLoadFirst
    | HostLoadSecond

  function Next(c: Cursor, at: nat): Cursor
  {
    Cursor(at, c.version + 1)
  }

  /** Each side advances its cursors, and only within what it last read; the host leaves one slot free. */
  predicate Enabled(s: State, l: Label)
  {
    match l
    case GuestStoreFirst(cur, head) =>
      s.guest.Idle? && (s.disciplined ==> s.head.at <= head <= cur && s.cur.at <= cur <= s.guestSeen.back.at)
    case GuestStoreSecond => s.guest.Storing?
    case GuestLoadFirst => s.guest.Idle?
    case GuestLoadSecond => s.guest.Loading?
    case HostStoreFirst(hwcur, hwtail) =>
      s.host.Idle? && (s.disciplined ==>
        s.hwcur.at <= hwcur <= s.hostSeen.front.at && s.hwtail.at <= hwtail < hwcur + s.slots)
    case HostStoreSecond => s.host.Storing?
    case HostLoadFirst => s.host.Idle?
    case HostLoadSecond => s.host.Loading?
  }

  function Exec(s: State, l: Label): State
    requires Enabled(s, l)
  {
    match l
    case GuestStoreFirst(cur, head) =>
      if s.headFirst then s.(head := Next(s.head, head), guest := Storing(head, cur))
      else s.(cur := Next(s.cur, cur), guest := Storing(cur, head))
    case GuestStoreSecond =>
      if s.headFirst then s.(cur := Next(s.cur, s.guest.second), guest := Idle)
      else s.(head := Next(s.head, s.guest.second), guest := Idle)
    case GuestLoadFirst => s.(guest := Loading(s.hwtail))
    case GuestLoadSecond => s.(guestSeen := Seen(s.hwcur, s.guest.loaded), guest := Idle)
    case HostStoreFirst(hwcur, hwtail) => s.(hwcur := Next(s.hwcur, hwcur), host := Storing(hwcur, hwtail))
    case HostStoreSecond => s.(hwtail := Next(s.hwtail, s.host.second), host := Idle)
    case HostLoadFirst => s.(host := Loading(s.head))
    case HostLoadSecond => s.(hostSeen := Seen(s.host.loaded, s.cur), host := Idle)
  }

  /** Both sides start from one consistent view. */
  predicate Init(s: State)
  {
    && s.guest == s.host == Idle
    && s.head.version == s.cur.version == s.hwcur.version == s.hwtail.version == 0
    && s.hwcur.at <= s.head.at <= s.cur.at <= s.hwtail.at < s.hwcur.at + s.slots
    && s.guestSeen == Seen(s.hwcur, s.hwtail) && s.hostSeen == Seen(s.head, s.cur)
  }

  predicate Behavior(ss: seq<State>, ls: seq<Label>)
  {
    && |ss| == |ls| + 1 && Init(ss[0])
    && forall i :: 0 <= i < |ls| ==> Enabled(ss[i], ls[i]) && ss[i + 1] == Exec(ss[i], ls[i])
  }

  /** The cursors of a ring in order, within one turn of the ring. */
  predicate Ordered(hwcur: nat, head: nat, cur: nat, hwtail: nat, slots: nat)
  {
    hwcur <= head <= cur <= hwtail < hwcur + slots
  }

  /** Which publications the shared cursors and the two sides' copies come from. */
  predicate VersionInv(s: State)
  {
    && !s.headFirst
    && s.cur.version == s.head.version + (if s.guest.Storing? then 1 else 0)
    && s.hwcur.version == s.hwtail.version + (if s.host.Storing? then 1 else 0)
    && (s.guest.Loading? ==> s.guest.loaded.version <= s.hwtail.version)
    && (s.host.Loading? ==> s.host.loaded.version <= s.head.version)
    && s.hostSeen.front.version <= s.hostSeen.back.version
    && s.guestSeen.back.version <= s.guestSeen.front.version
  }

  predicate OrderInv(s: State)
  {
    && Ordered(s.hwcur.at, s.head.at, s.cur.at, s.hwtail.at, s.slots)
    && (s.guest.Storing? ==> s.guest.first == s.cur.at && s.head.at <= s.guest.second <= s.cur.at)
    && (s.guest.Loading? ==> s.guestSeen.back.at <= s.guest.loaded.at <= s.hwtail.at)
    && s.guestSeen.front.at <= s.head.at && s.cur.at <= s.guestSeen.back.at <= s.hwtail.at
    && s.guestSeen.back.at < s.guestSeen.front.at + s.slots
    && (s.host.Storing? ==> s.host.first == s.hwcur.at && s.hwtail.at <= s.host.second < s.hwcur.at + s.slots)
    && (s.host.Loading? ==> s.hostSeen.front.at <= s.host.loaded.at <= s.head.at)
    && s.hwcur.at <= s.hostSeen.front.at <= s.hostSeen.back.at <= s.cur.at && s.hostSeen.front.at <= s.head.at
  }

  lemma StepInv(s: State, l: Label)
    requires VersionInv(s) && Enabled(s, l)
    ensures VersionInv(Exec(s, l))
    ensures s.disciplined && OrderInv(s) ==> OrderInv(Exec(s, l))
    ensures Exec(s, l).disciplined == s.disciplined
  {
  }

  lemma InitInv(s: State)
    requires Init(s) && !s.headFirst
    ensures VersionInv(s) && OrderInv(s)
  {
  }

  lemma {:induction false} AlwaysInv(ss: seq<State>, ls: seq<Label>, i: nat)
    requires Behavior(ss, ls) && i < |ss| && !ss[0].headFirst
    ensures VersionInv(ss[i]) && ss[i].disciplined == ss[0].disciplined
    ensures ss[0].disciplined ==> OrderInv(ss[i])
  {
    InitInv(ss[0]);
    if i > 0 {
      hide VersionInv, OrderInv, Exec, Enabled, Init;
      AlwaysInv(ss, ls, i - 1);
      StepInv(ss[i - 1], ls[i - 1]);
    }
  }

  /** In every interleaving of repeated stores and loads, whatever values are stored, the host never pairs a
      head with an older cur, and the guest never pairs an hwtail with an older hwcur. */
  lemma NeverNewer(ss: seq<State>, ls: seq<Label>, i: nat)
    requires Behavior(ss, ls) && i < |ss| && !ss[0].headFirst
    ensures ss[i].hostSeen.front.version <= ss[i].hostSeen.back.version
    ensures ss[i].guestSeen.back.version <= ss[i].guestSeen.front.version
  {
    AlwaysInv(ss, ls, i);
  }

  /** If each side advances only within what it last read, hwcur <= head <= cur <= hwtail holds within one
      turn of the ring in every reachable state: for the shared cursors, for the host's own cursors with
      those it has seen, and for the guest's own cursors with those it has seen. */
  lemma AlwaysOrdered(ss: seq<State>, ls: seq<Label>, i: nat)
    requires Behavior(ss, ls) && i < |ss| && !ss[0].headFirst && ss[0].disciplined
    ensures var s := ss[i];
      && Ordered(s.hwcur.at, s.head.at, s.cur.at, s.hwtail.at, s.slots)
      && Ordered(s.hwcur.at, s.hostSeen.front.at, s.hostSeen.back.at, s.hwtail.at, s.slots)
      && Ordered(s.guestSeen.front.at, s.head.at, s.cur.at, s.guestSeen.back.at, s.slots)
  {
    AlwaysInv(ss, ls, i);
  }

  // ---------------------------------------------------------------------------------------------
  // What is published and what is read, by the labels alone

  /** The writes that a side has begun: the value it stores first and the one it stores second, oldest first. */
  function Writes(ls: seq<Label>, guest: bool): seq<(nat, nat)>
  {
    if ls == [] then []
    else
      var before, l := Writes(ls[..|ls| - 1], guest), ls[|ls| - 1];
      match l
      case GuestStoreFirst(cur, head) => if guest then before + [(cur, head)] else before
      case HostStoreFirst(hwcur, hwtail) => if guest then before else before + [(hwcur, hwtail)]
      case _ => before
  }

  /** How many writes a side has finished. */
  function Finished(ls: seq<Label>, guest: bool): nat
  {
    if ls == [] then 0
    else
      var second := if guest then GuestStoreSecond else HostStoreSecond;
      Finished(ls[..|ls| - 1], guest) + if ls[|ls| - 1] == second then 1 else 0
  }

  /** The value that the v-th write gives to the cursor a side stores first; before the first write, `init`. */
  function First(init: nat, ws: seq<(nat, nat)>, v: nat): nat
    requires v <= |ws|
  {
    if v == 0 then init else ws[v - 1].0
  }

  function Second(init: nat, ws: seq<(nat, nat)>, v: nat): nat
    requires v <= |ws|
  {
    if v == 0 then init else ws[v - 1].1
  }

  /** A side's two cursors after the labels: the first stored by the last write begun, the second stored by the
      last write finished. */
  predicate SidePublished(ls: seq<Label>, guest: bool, p: Phase, first0: nat, first: Cursor, second0: nat,
                          second: Cursor)
  {
    var ws, n := Writes(ls, guest), Finished(ls, guest);
    && |ws| == n + (if p.Storing? then 1 else 0)
    && first == Cursor(First(first0, ws, |ws|), |ws|) && second == Cursor(Second(second0, ws, n), n)
    && (p.Storing? ==> p.second == ws[n].1)
  }

  predicate Published(s0: State, ls: seq<Label>, s: State)
  {
    && SidePublished(ls, true, s.guest, s0.cur.at, s.cur, s0.head.at, s.head)
    && SidePublished(ls, false, s.host, s0.hwcur.at, s.hwcur, s0.hwtail.at, s.hwtail)
  }

  lemma PublishedStep(s0: State, ls: seq<Label>, s: State, l: Label)
    requires Published(s0, ls, s) && Enabled(s, l) && !s.headFirst
    ensures Published(s0, ls + [l], Exec(s, l))
  {
    assert (ls + [l])[..|ls + [l]| - 1] == ls;
  }

  lemma {:induction false} AlwaysPublished(ss: seq<State>, ls: seq<Label>, i: nat)
    requires Behavior(ss, ls) && i < |ss| && !ss[0].headFirst
    ensures Published(ss[0], ls[..i], ss[i]) && !ss[i].headFirst
  {
    if i > 0 {
      AlwaysPublished(ss, ls, i - 1);
      assert ls[..i] == ls[..i - 1] + [ls[i - 1]];
      hide Published;
      PublishedStep(ss[0], ls[..i - 1], ss[i - 1], ls[i - 1]);
    } else {
      assert ls[..0] == [];
    }
  }

  lemma {:induction false} WritesGrow(ls: seq<Label>, j: nat, i: nat, guest: bool)
    requires j <= i <= |ls|
    ensures Writes(ls[..j], guest) <= Writes(ls[..i], guest)
  {
    if j < i {
      WritesGrow(ls, j, i - 1, guest);
      assert ls[..i][..i - 1] == ls[..i - 1];
    }
  }

  predicate HostLabel(l: Label)
  {
    l.HostStoreFirst? || l.HostStoreSecond? || l.HostLoadFirst? || l.HostLoadSecond?
  }

  /** The read that a side begins at j and completes at i. */
  predicate ReadFrom(ls: seq<Label>, j: nat, i: nat, guest: bool)
  {
    && j < i < |ls|
    && ls[j] == (if guest then GuestLoadFirst else HostLoadFirst)
    && ls[i] == (if guest then GuestLoadSecond else HostLoadSecond)
    && forall k :: j < k < i ==> HostLabel(ls[k]) == guest
  }

  lemma {:induction false} HostLoadPending(ss: seq<State>, ls: seq<Label>, j: nat, i: nat)
    requires Behavior(ss, ls) && j < i < |ss| && ls[j] == HostLoadFirst
    requires forall k :: j < k < i ==> !HostLabel(ls[k])
    ensures ss[i].host == Loading(ss[j].head)
  {
    if j + 1 < i {
      HostLoadPending(ss, ls, j, i - 1);
    }
  }

  lemma {:induction false} GuestLoadPending(ss: seq<State>, ls: seq<Label>, j: nat, i: nat)
    requires Behavior(ss, ls) && j < i < |ss| && ls[j] == GuestLoadFirst
    requires forall k :: j < k < i ==> HostLabel(ls[k])
    ensures ss[i].guest == Loading(ss[j].hwtail)
  {
    if j + 1 < i {
      GuestLoadPending(ss, ls, j, i - 1);
    }
  }

  /** In every interleaving, a host read from j to i returns the head of the last guest write finished before j
      and the cur of the last guest write begun before i, which is that write or a later one. */
  lemma HostReads(ss: seq<State>, ls: seq<Label>, j: nat, i: nat)
    requires Behavior(ss, ls) && !ss[0].headFirst && ReadFrom(ls, j, i, false)
    ensures var ws, n := Writes(ls[..i], true), Finished(ls[..j], true);
      && n <= |ws|
      && ss[i + 1].hostSeen ==
           Seen(Cursor(Second(ss[0].head.at, ws, n), n), Cursor(First(ss[0].cur.at, ws, |ws|), |ws|))
  {
    AlwaysPublished(ss, ls, j);
    AlwaysPublished(ss, ls, i);
    HostLoadPending(ss, ls, j, i);
    WritesGrow(ls, j, i, true);
    hide Writes, Finished;
  }

  /** Likewise a guest read returns the hwtail of the last host write finished before j and the hwcur of the last
      one begun before i. */
  lemma GuestReads(ss: seq<State>, ls: seq<Label>, j: nat, i: nat)
    requires Behavior(ss, ls) && !ss[0].headFirst && ReadFrom(ls, j, i, true)
    ensures var ws, n := Writes(ls[..i], false), Finished(ls[..j], false);
      && n <= |ws|
      && ss[i + 1].guestSeen ==
           Seen(Cursor(First(ss[0].hwcur.at, ws, |ws|), |ws|), Cursor(Second(ss[0].hwtail.at, ws, n), n))
  {
    AlwaysPublished(ss, ls, j);
    AlwaysPublished(ss, ls, i);
    GuestLoadPending(ss, ls, j, i);
    WritesGrow(ls, j, i, false);
    hide Writes, Finished;
  }

  /** Between the completions of a side's reads, what it has seen stays. */
  lemma SeenStays(ss: seq<State>, ls: seq<Label>, i: nat)
    requires Behavior(ss, ls) && i < |ls|
    ensures ls[i] != HostLoadSecond ==> ss[i + 1].hostSeen == ss[i].hostSeen
    ensures ls[i] != GuestLoadSecond ==> ss[i + 1].guestSeen == ss[i].guestSeen
  {
    assert ss[i + 1] == Exec(ss[i], ls[i]);
  }

  /** With the guest's stores in the other order the host can see a head beyond its cur. */
  lemma HeadFirstIsUnsafe() returns (ss: seq<State>, ls: seq<Label>)
    ensures Behavior(ss, ls) && ss[0].disciplined && ss[0].headFirst
    ensures var s := ss[|ls|]; s.hostSeen.front.at > s.hostSeen.back.at
  {
    var zero, three, one := Cursor(0, 0), Cursor(3, 0), Cursor(1, 1);
    var s0 := State(4, true, true, zero, zero, zero, three, Idle, Seen(zero, three), Idle, Seen(zero, zero));
    var s1 := s0.(head := one, guest := Storing(1, 1));
    var s2 := s1.(host := Loading(one));
    var s3 := s2.(host := Idle, hostSeen := Seen(one, zero));
    ss, ls := [s0, s1, s2, s3], [GuestStoreFirst(1, 1), HostLoadFirst, HostLoadSecond];
  }

  // ---------------------------------------------------------------------------------------------
  // Ring indices

  lemma {:induction false} AtLeastOneTurn(k: nat, n: nat)
    requires k > 0
    ensures k * n >= n
  {
    if k > 1 {
      AtLeastOneTurn(k - 1, n);
      assert k * n == (k - 1) * n + n;
    }
  }

  lemma FewerTurns(q: nat, r: nat, q': nat, r': nat, n: nat)
    requires r < n && q < q'
    ensures q * n + r < q' * n + r'
  {
    AtLeastOneTurn(q' - q, n);
    assert (q' - q) * n == q' * n - q * n;
  }

  lemma ModOfSum(q: nat, r: nat, n: nat)
    requires r < n
    ensures (q * n + r) % n == r
  {
    var x := q * n + r;
    var q', r' := x / n, x % n;
    assert x == q' * n + r';
    if q > q' {
      FewerTurns(q', r', q, r, n);
    } else if q < q' {
      FewerTurns(q, r, q', r', n);
    }
  }

  /** The indices that are really shared are the cursors modulo the ring size. For cursors within one turn
      of the ring, the distance between two indices is the distance between the cursors. */
  lemma WrappedDistance(a: nat, b: nat, n: nat)
    requires n > 0 && a <= b < a + n
    ensures RingModel.Dist(a % n, b % n, n) == b - a
  {
    var q, r, d := a / n, a % n, b - a;
    assert a == q * n + r;
    if r + d < n {
      ModOfSum(q, r + d, n);
      assert b == q * n + (r + d);
    } else {
      ModOfSum(q + 1, r + d - n, n);
      assert b == (q + 1) * n + (r + d - n);
    }
  }

  /** So each side can recover every distance it needs from the indices of an ordered view. */
  lemma OrderedIndices(hwcur: nat, head: nat, cur: nat, hwtail: nat, n: nat)
    requires Ordered(hwcur, head, cur, hwtail, n)
    ensures RingModel.Dist(hwcur % n, head % n, n) == head - hwcur
    ensures RingModel.Dist(head % n, cur % n, n) == cur - head
    ensures RingModel.Dist(cur % n, hwtail % n, n) == hwtail - cur
  {
    WrappedDistance(hwcur, head, n);
    WrappedDistance(head, cur, n);
    WrappedDistance(cur, hwtail, n);
  }
}
