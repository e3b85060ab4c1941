/**
 The binlog thread and the request threads on one lookup table, with no lock, under sequential
 consistency. One writer fills the hidden record of a key word by word and then flips the key's
 bit by loading and storing its 64-bit bitmap word. Readers load that word to pick a side and then
 copy words of the picked record in any order. Every load and store is a step of its own.
 */
module TableRace {
  import opened SideBits
  import TableModel

  type Rec = seq<int>

  datatype Store = Store(index: nat, value: int)

  datatype Writer =
    | Idle
    | Passed(k: nat, stores: seq<Store>)                      // clock check passed, counter not yet stored
    | Filling(k: nat, stores: seq<Store>, done: nat, base: Rec) // base: the hidden record as found
    | Loaded(k: nat, stores: seq<Store>, word: bv64, base: Rec)
    | Flipped(k: nat)

  datatype Reader =
    | Resting
    | Reading(k: nat, onA: bool, version: nat, got: seq<Store>)

  /** `history` and `begun` only record what happened: the values each key has had, oldest first,
      and how many writes to it have begun. */
  datatype Machine = Machine(
    width: nat, checked: bool,
    sideA: seq<Rec>, sideB: seq<Rec>, bmp: seq<bv64>, notice: seq<bv64>, clock: nat, prv: nat,
    writer: Writer, readers: seq<Reader>,
    history: seq<seq<Rec>>, begun: seq<nat>)

  datatype Label =
    | Begin(k: nat, stores: seq<Store>)
    | Check(k: nat, stores: seq<Store>)
    | Stamp
    | Put
    | LoadWord
    | Flip
    | Notify
    | Tick
    | Pick(r: nat, k: nat)
    | Get(r: nat, i: nat)
    | Finish(r: nat)

  ghost predicate Shape(m: Machine)
  {
    && |m.sideA| == |m.sideB| == |m.history| == |m.begun| == 64 * |m.bmp| && |m.notice| == |m.bmp|
    && m.clock < TableModel.CLOCK_RANGE
    && (forall k :: 0 <= k < |m.sideA| ==> |m.sideA[k]| == |m.sideB[k]| == m.width && |m.history[k]| >= 1)
  }

  predicate OnSideA(m: Machine, k: nat)
    requires k / 64 < |m.bmp|
  {
    Bit(m.bmp[k / 64], k)
  }

  predicate NoticeOf(m: Machine, k: nat)
    requires k / 64 < |m.notice|
  {
    Bit(m.notice[k / 64], k)
  }

  function RecordOn(m: Machine, k: nat, onA: bool): Rec
    requires k < |m.sideA| && k < |m.sideB|
  {
    if onA then m.sideA[k] else m.sideB[k]
  }

  ghost function Current(m: Machine, k: nat): Rec
    requires Shape(m) && k < |m.sideA|
  {
    RecordOn(m, k, OnSideA(m, k))
  }

  /** How many writes to key k have been published. */
  ghost function Flips(m: Machine, k: nat): nat
    requires Shape(m) && k < |m.sideA|
  {
    |m.history[k]| - 1
  }

  predicate StoresFit(stores: seq<Store>, width: nat)
  {
    forall s :: s in stores ==> s.index < width
  }

  function Applied(base: Rec, stores: seq<Store>): (r: Rec)
    requires StoresFit(stores, |base|)
    ensures |r| == |base|
  {
    if stores == [] then base
    else
      var last := stores[|stores| - 1];
      assert last in stores;
      Applied(base, stores[..|stores| - 1])[last.index := last.value]
  }

  ghost predicate Enabled(m: Machine, l: Label)
    requires Shape(m)
  {
    match l
    case Begin(k, stores) => m.writer.Idle? && !m.checked && k < |m.sideA| && StoresFit(stores, m.width)
    case Check(k, stores) =>
      m.writer.Idle? && m.checked && k < |m.sideA| && StoresFit(stores, m.width) && m.clock > m.prv
    case Stamp => m.writer.Passed? && m.writer.k < |m.sideA|
    case Put => m.writer.Filling? && m.writer.k < |m.sideA| && m.writer.done < |m.writer.stores|
                && StoresFit(m.writer.stores, m.width)
    case LoadWord => m.writer.Filling? && m.writer.k < |m.sideA| && m.writer.done == |m.writer.stores|
    case Flip => m.writer.Loaded? && m.writer.k < |m.sideA|
    case Notify => m.writer.Flipped? && m.writer.k < |m.sideA|
    case Tick => true
    case Pick(r, k) => r < |m.readers| && m.readers[r].Resting? && k < |m.sideA|
    case Get(r, i) => r < |m.readers| && m.readers[r].Reading? && m.readers[r].k < |m.sideA| && i < m.width
    case Finish(r) => r < |m.readers| && m.readers[r].Reading?
  }

  ghost function Began(m: Machine, k: nat, stores: seq<Store>): Machine
    requires Shape(m) && k < |m.sideA|
  {
    m.(writer := Filling(k, stores, 0, RecordOn(m, k, !OnSideA(m, k))), begun := m.begun[k := m.begun[k] + 1])
  }

  ghost function AfterPut(m: Machine): Machine
    requires Shape(m) && Enabled(m, Put)
  {
    var k := m.writer.k;
    var s := m.writer.stores[m.writer.done];
    var w := m.writer.(done := m.writer.done + 1);
    if OnSideA(m, k) then m.(sideB := m.sideB[k := m.sideB[k][s.index := s.value]], writer := w)
    else m.(sideA := m.sideA[k := m.sideA[k][s.index := s.value]], writer := w)
  }

  ghost function AfterFlip(m: Machine): Machine
    requires Shape(m) && Enabled(m, Flip)
  {
    var k := m.writer.k;
    m.(bmp := m.bmp[k / 64 := m.writer.word ^ Mask(k)], writer := Flipped(k),
       history := m.history[k := m.history[k] + [RecordOn(m, k, !OnSideA(m, k))]])
  }

  ghost function AfterNotify(m: Machine): Machine
    requires Shape(m) && Enabled(m, Notify)
  {
    var k := m.writer.k;
    m.(notice := m.notice[k / 64 := m.notice[k / 64] ^ Mask(k)], writer := Idle)
  }

  ghost function AfterGet(m: Machine, r: nat, i: nat): Machine
    requires Shape(m) && Enabled(m, Get(r, i))
  {
    var rd := m.readers[r];
    var x := Store(i, RecordOn(m, rd.k, rd.onA)[i]);
    m.(readers := m.readers[r := rd.(got := rd.got + [x])])
  }

  ghost function Exec(m: Machine, l: Label): Machine
    requires Shape(m) && Enabled(m, l)
  {
    match l
    case Begin(k, stores) => Began(m, k, stores)
    case Check(k, stores) => m.(writer := Passed(k, stores))
    case Stamp => Began(m, m.writer.k, m.writer.stores).(prv := m.clock)
    case Put => AfterPut(m)
    case LoadWord => m.(writer := Loaded(m.writer.k, m.writer.stores, m.bmp[m.writer.k / 64], m.writer.base))
    case Flip => AfterFlip(m)
    case Notify => AfterNotify(m)
    case Tick => m.(clock := (m.clock + 1) % TableModel.CLOCK_RANGE)
    case Pick(r, k) => m.(readers := m.readers[r := Reading(k, OnSideA(m, k), Flips(m, k), [])])
    case Get(r, i) => AfterGet(m, r, i)
    case Finish(r) => m.(readers := m.readers[r := Resting])
  }

  /** A table with its records in place, every bit clear, nobody at work. */
  ghost predicate Init(m: Machine)
  {
    && Shape(m) && m.writer == Idle
    && (forall r :: 0 <= r < |m.readers| ==> m.readers[r] == Resting)
    && (forall j :: 0 <= j < |m.bmp| ==> m.bmp[j] == 0 && m.notice[j] == 0)
    && (forall k :: 0 <= k < |m.sideA| ==> m.history[k] == [m.sideB[k]] && m.begun[k] == 0)
  }

  ghost predicate Behavior(ms: seq<Machine>, ls: seq<Label>)
  {
    && |ms| == |ls| + 1 && Init(ms[0])
    && (forall i :: 0 <= i < |ls| ==> Shape(ms[i]) && Enabled(ms[i], ls[i]) && ms[i + 1] == Exec(ms[i], ls[i]))
  }

  // ---------------------------------------------------------------------------------------------
  // The invariant

  /** The writer has begun a write to key k that is not published yet. */
  predicate InFlight(w: Writer, k: nat)
  {
    (w.Filling? || w.Loaded?) && w.k == k
  }

  ghost predicate KeyInv(m: Machine, k: nat)
    requires Shape(m) && k < |m.sideA|
  {
    && m.history[k][Flips(m, k)] == Current(m, k)
    && m.begun[k] == Flips(m, k) + if InFlight(m.writer, k) then 1 else 0
  }

  ghost predicate WriterInv(m: Machine)
    requires Shape(m)
  {
    && (m.writer != Idle ==> m.writer.k < |m.sideA|)
    && (m.writer.Passed? || m.writer.Filling? || m.writer.Loaded? ==> StoresFit(m.writer.stores, m.width))
    && (m.writer.Passed? ==> m.checked)
    && (m.writer.Loaded? ==>
          && m.writer.word == m.bmp[m.writer.k / 64] && |m.writer.base| == m.width
          && RecordOn(m, m.writer.k, !OnSideA(m, m.writer.k)) == Applied(m.writer.base, m.writer.stores))
    && (m.writer.Filling? ==>
          && |m.writer.base| == m.width && m.writer.done <= |m.writer.stores|
          && RecordOn(m, m.writer.k, !OnSideA(m, m.writer.k)) ==
               Applied(m.writer.base, m.writer.stores[..m.writer.done]))
  }

  /** A picked record is on the side that was current at the pick, and holds the picked version
      until the second write after that version begins. */
  ghost predicate ReaderInv(m: Machine, rd: Reader)
    requires Shape(m)
  {
    rd.Reading? ==>
      && rd.k < |m.sideA| && rd.version <= Flips(m, rd.k)
      && (rd.onA == OnSideA(m, rd.k) <==> (Flips(m, rd.k) - rd.version) % 2 == 0)
      && (m.begun[rd.k] <= rd.version + 1 ==>
            && RecordOn(m, rd.k, rd.onA) == m.history[rd.k][rd.version]
            && GotFrom(rd.got, m.history[rd.k][rd.version]))
  }

  predicate GotFrom(got: seq<Store>, rec: Rec)
  {
    forall s :: s in got ==> s.index < |rec| && s.value == rec[s.index]
  }

  ghost predicate Inv(m: Machine)
  {
    && Shape(m) && WriterInv(m)
    && (forall k :: 0 <= k < |m.sideA| ==> KeyInv(m, k))
    && (forall r :: 0 <= r < |m.readers| ==> ReaderInv(m, m.readers[r]))
  }

  lemma InitInv(m: Machine)
    requires Init(m)
    ensures Inv(m)
  {
    forall k | 0 <= k < |m.sideA| ensures KeyInv(m, k) {
      ClearedWord(k);
    }
  }

  lemma SidesAfterFlip(m: Machine, k: nat)
    requires Shape(m) && Enabled(m, Flip) && k < |m.sideA|
    requires m.writer.word == m.bmp[m.writer.k / 64]
    ensures OnSideA(AfterFlip(m), k) == (OnSideA(m, k) != (k == m.writer.k))
  {
    hide Mask, Bit, Applied;
    FlipInBitmap(m.bmp, m.writer.k, k);
  }

  lemma FlipInv(m: Machine)
    requires Inv(m) && m.writer.Loaded?
    ensures Inv(AfterFlip(m))
  {
    hide Mask, Bit;
    var m' := AfterFlip(m);
    forall k | 0 <= k < |m.sideA| ensures KeyInv(m', k) {
      assert KeyInv(m, k);
      SidesAfterFlip(m, k);
    }
    forall r | 0 <= r < |m.readers| ensures ReaderInv(m', m'.readers[r]) {
      var rd := m.readers[r];
      assert ReaderInv(m, rd);
      if rd.Reading? {
        SidesAfterFlip(m, rd.k);
        assert KeyInv(m, rd.k);
      }
    }
  }

  lemma PutWriterInv(m: Machine)
    requires Inv(m) && Enabled(m, Put)
    ensures Shape(AfterPut(m)) && WriterInv(AfterPut(m))
  {
    hide Mask, Bit, KeyInv, ReaderInv;
    var w := m.writer;
    assert w.stores[..w.done + 1][..w.done] == w.stores[..w.done];
  }

  /** Filling writes a record that no reader inside its safe window has picked. */
  lemma PutReaderInv(m: Machine, rd: Reader)
    requires Inv(m) && Enabled(m, Put) && ReaderInv(m, rd)
    ensures Shape(AfterPut(m)) && ReaderInv(AfterPut(m), rd)
  {
    hide Mask, Bit, Applied;
    if rd.Reading? {
      assert KeyInv(m, rd.k);
    }
  }

  lemma PutInv(m: Machine)
    requires Inv(m) && Enabled(m, Put)
    ensures Inv(AfterPut(m))
  {
    hide Mask, Bit, Applied;
    PutWriterInv(m);
    var m' := AfterPut(m);
    forall k | 0 <= k < |m.sideA| ensures KeyInv(m', k) {
      assert KeyInv(m, k);
    }
    forall r | 0 <= r < |m.readers| ensures ReaderInv(m', m'.readers[r]) {
      PutReaderInv(m, m.readers[r]);
    }
  }

  /** A step that leaves the table alone keeps what its readers know. */
  lemma ReaderFrame(m: Machine, m': Machine, rd: Reader)
    requires Shape(m) && Shape(m') && ReaderInv(m, rd)
    requires m'.sideA == m.sideA && m'.sideB == m.sideB && m'.bmp == m.bmp && m'.history == m.history
    requires forall k :: 0 <= k < |m.begun| ==> m.begun[k] <= m'.begun[k]
    ensures ReaderInv(m', rd)
  {
    hide Mask, Bit;
  }

  lemma BeganInv(m: Machine, l: Label)
    requires Inv(m) && Enabled(m, l) && (l.Begin? || l.Stamp?)
    ensures Inv(Exec(m, l))
  {
    hide Mask, Bit;
    var m' := Exec(m, l);
    forall k | 0 <= k < |m.sideA| ensures KeyInv(m', k) && m.begun[k] <= m'.begun[k] {
      assert KeyInv(m, k);
    }
    hide KeyInv, ReaderInv;
    forall r | 0 <= r < |m.readers| ensures ReaderInv(m', m'.readers[r]) {
      ReaderFrame(m, m', m.readers[r]);
    }
  }

  lemma WriterOnlyInv(m: Machine, l: Label)
    requires Inv(m) && Enabled(m, l)
    requires l.Check? || l.LoadWord? || l.Notify? || l.Tick?
    ensures Inv(Exec(m, l))
  {
    hide Mask, Bit, ReaderInv;
    var m' := Exec(m, l);
    if l.LoadWord? {
      assert m.writer.stores[..m.writer.done] == m.writer.stores;
    }
    forall k | 0 <= k < |m.sideA| ensures KeyInv(m', k) {
      assert KeyInv(m, k);
    }
    forall r | 0 <= r < |m.readers| ensures ReaderInv(m', m'.readers[r]) {
      ReaderFrame(m, m', m.readers[r]);
    }
  }

  lemma GetInv(m: Machine, r: nat, i: nat)
    requires Inv(m) && Enabled(m, Get(r, i))
    ensures Inv(AfterGet(m, r, i))
  {
    hide Mask, Bit, Applied;
    var m' := AfterGet(m, r, i);
    forall k | 0 <= k < |m.sideA| ensures KeyInv(m', k) {
      assert KeyInv(m, k);
    }
    forall q | 0 <= q < |m.readers| ensures ReaderInv(m', m'.readers[q]) {
      assert ReaderInv(m, m.readers[q]);
    }
  }

  lemma PickInv(m: Machine, r: nat, k: nat)
    requires Inv(m) && Enabled(m, Pick(r, k))
    ensures Inv(Exec(m, Pick(r, k)))
  {
    hide Mask, Bit, Applied;
    var m' := Exec(m, Pick(r, k));
    assert KeyInv(m, k);
    assert ReaderInv(m', m'.readers[r]);
    hide ReaderInv;
    forall j | 0 <= j < |m.sideA| ensures KeyInv(m', j) {
      assert KeyInv(m, j);
    }
    forall q | 0 <= q < |m.readers| && q != r ensures ReaderInv(m', m'.readers[q]) {
      ReaderFrame(m, m', m.readers[q]);
    }
  }

  lemma FinishInv(m: Machine, r: nat)
    requires Inv(m) && Enabled(m, Finish(r))
    ensures Inv(Exec(m, Finish(r)))
  {
    hide Mask, Bit, Applied;
    var m' := Exec(m, Finish(r));
    forall j | 0 <= j < |m.sideA| ensures KeyInv(m', j) {
      assert KeyInv(m, j);
    }
    forall q | 0 <= q < |m.readers| ensures ReaderInv(m', m'.readers[q]) {
      if q != r {
        ReaderFrame(m, m', m.readers[q]);
      }
    }
  }

  lemma StepInv(m: Machine, l: Label)
    requires Inv(m) && Enabled(m, l)
    ensures Inv(Exec(m, l))
  {
    if l.Flip? {
      FlipInv(m);
    } else if l.Put? {
      PutInv(m);
    } else if l.Get? {
      GetInv(m, l.r, l.i);
    } else if l.Pick? {
      PickInv(m, l.r, l.k);
    } else if l.Finish? {
      FinishInv(m, l.r);
    } else if l.Begin? || l.Stamp? {
      BeganInv(m, l);
    } else {
      WriterOnlyInv(m, l);
    }
  }

  lemma {:induction false} AlwaysInv(ms: seq<Machine>, ls: seq<Label>, i: nat)
    requires Behavior(ms, ls) && i < |ms|
    ensures Inv(ms[i])
  {
    if i == 0 {
      InitInv(ms[0]);
    } else {
      AlwaysInv(ms, ls, i - 1);
      StepInv(ms[i - 1], ls[i - 1]);
    }
  }

  /** How many writes to key k have been published and notified. */
  ghost function Notified(m: Machine, k: nat): int
    requires Shape(m) && k < |m.sideA|
  {
    Flips(m, k) - if m.writer.Flipped? && m.writer.k == k then 1 else 0
  }

  ghost predicate NoticeInv(m: Machine, k: nat)
    requires Shape(m) && k < |m.sideA|
  {
    0 <= Notified(m, k) && (NoticeOf(m, k) <==> Notified(m, k) % 2 == 1)
  }

  lemma NoticeFrame(m: Machine, l: Label)
    requires Shape(m) && Enabled(m, l) && !l.Flip? && !l.Notify?
    ensures var m' := Exec(m, l);
      && m'.notice == m.notice && m'.history == m.history
      && (m'.writer == m.writer || (!m'.writer.Flipped? && !m.writer.Flipped?))
  {
    hide Mask, Bit, Applied;
  }

  lemma NoticesAfterNotify(m: Machine, k: nat)
    requires Shape(m) && Enabled(m, Notify) && k < |m.sideA|
    ensures |AfterNotify(m).notice| == |m.notice|
    ensures NoticeOf(AfterNotify(m), k) == (NoticeOf(m, k) != (k == m.writer.k))
  {
    hide Mask, Bit, Applied;
    var n, j := m.notice, m.writer.k;
    assert j / 64 < |n| && k / 64 < |n|;
    hide Shape, Enabled;
    FlipInBitmap(n, j, k);
    assert AfterNotify(m).notice == n[j / 64 := n[j / 64] ^ Mask(j)];
  }

  lemma NotifiedAfterNotify(m: Machine, k: nat)
    requires Shape(m) && Enabled(m, Notify) && k < |m.sideA|
    ensures Shape(AfterNotify(m)) && |AfterNotify(m).sideA| == |m.sideA|
    ensures Notified(AfterNotify(m), k) == Notified(m, k) + if k == m.writer.k then 1 else 0
  {
    hide Mask, Bit, Applied;
  }

  lemma NoticeAfterNotify(m: Machine, k: nat)
    requires Shape(m) && Enabled(m, Notify) && k < |m.sideA| && NoticeInv(m, k)
    ensures Shape(AfterNotify(m)) && |AfterNotify(m).sideA| == |m.sideA| && NoticeInv(AfterNotify(m), k)
  {
    NoticesAfterNotify(m, k);
    NotifiedAfterNotify(m, k);
    hide Mask, Bit, Applied, AfterNotify, Shape, Enabled, Notified;
    NextParity(Notified(m, k));
  }

  lemma NextParity(x: int)
    ensures (x + 1) % 2 == 1 <==> x % 2 != 1
  {
  }

  lemma NoticeAfterFlip(m: Machine, k: nat)
    requires Shape(m) && Enabled(m, Flip) && k < |m.sideA| && NoticeInv(m, k)
    ensures Shape(AfterFlip(m)) && NoticeInv(AfterFlip(m), k)
  {
    hide Mask, Bit;
  }

  lemma NoticeStep(m: Machine, l: Label, k: nat)
    requires Inv(m) && Enabled(m, l) && k < |m.sideA| && NoticeInv(m, k)
    ensures var m' := Exec(m, l); Shape(m') && |m'.sideA| == |m.sideA| && NoticeInv(m', k)
  {
    StepInv(m, l);
    if l.Notify? {
      NoticeAfterNotify(m, k);
    } else if l.Flip? {
      NoticeAfterFlip(m, k);
    } else {
      NoticeFrame(m, l);
    }
    hide Mask, Bit, Applied, KeyInv, ReaderInv, WriterInv, Exec, Enabled;
  }

  /** In every interleaving a notice bit is the parity of the published and notified writes of its key: between the
      flip and the notice of a write the new record is current and the notice still says the old one. */
  lemma {:induction false} NoticeIsParity(ms: seq<Machine>, ls: seq<Label>, i: nat, k: nat)
    requires Behavior(ms, ls) && i < |ms| && k < |ms[0].sideA|
    ensures Inv(ms[i]) && |ms[i].sideA| == |ms[0].sideA| && NoticeInv(ms[i], k)
  {
    AlwaysInv(ms, ls, i);
    if i == 0 {
      ClearedWord(k);
    } else {
      hide Mask, Bit, Applied, Inv, NoticeInv, Exec, Enabled, Init;
      NoticeIsParity(ms, ls, i - 1, k);
      NoticeStep(ms[i - 1], ls[i - 1], k);
    }
  }

  // ---------------------------------------------------------------------------------------------
  // What writers publish and readers get

  /** The stores write item and nothing else, every word of it, in any order. */
  predicate Covers(stores: seq<Store>, item: Rec)
  {
    && (forall s :: s in stores ==> s.index < |item| && s.value == item[s.index])
    && (forall i :: 0 <= i < |item| ==> Store(i, item[i]) in stores)
  }

  lemma {:induction false} CoveredWord(base: Rec, stores: seq<Store>, item: Rec, i: nat)
    requires |base| == |item| && i < |item|
    requires forall s :: s in stores ==> s.index < |item| && s.value == item[s.index]
    requires Store(i, item[i]) in stores
    ensures Applied(base, stores)[i] == item[i]
  {
    var last := stores[|stores| - 1];
    assert last in stores;
    if last.index != i {
      CoveredWord(base, stores[..|stores| - 1], item, i);
    }
  }

  /** A flip publishes exactly the stores of its write, laid over the record the write found hidden;
      a copy that covers the record, in any order, publishes the item as a whole. */
  lemma FlipPublishes(ms: seq<Machine>, ls: seq<Label>, i: nat, item: Rec)
    requires Behavior(ms, ls) && i < |ls| && ls[i] == Flip
    requires |item| == ms[i].width
    ensures var w := ms[i].writer;
      && Inv(ms[i]) && Inv(ms[i + 1]) && |w.base| == ms[i].width && StoresFit(w.stores, ms[i].width)
      && Current(ms[i + 1], w.k) == Applied(w.base, w.stores)
      && (Covers(w.stores, item) ==> Current(ms[i + 1], w.k) == item)
  {
    hide Mask, Bit;
    AlwaysInv(ms, ls, i);
    AlwaysInv(ms, ls, i + 1);
    var w := ms[i].writer;
    SidesAfterFlip(ms[i], w.k);
    if Covers(w.stores, item) {
      forall j | 0 <= j < |item| ensures Applied(w.base, w.stores)[j] == item[j] {
        CoveredWord(w.base, w.stores, item, j);
      }
    }
  }

  /** From the pick at p to e, reader r goes on with the one read it started at p. */
  predicate SameRead(ls: seq<Label>, p: nat, e: nat, r: nat, k: nat)
  {
    p < e <= |ls| && ls[p] == Pick(r, k) && forall i :: p < i < e ==> ls[i] != Finish(r)
  }

  lemma {:induction false} SizeKept(ms: seq<Machine>, ls: seq<Label>, i: nat, j: nat)
    requires Behavior(ms, ls) && i <= j < |ms|
    ensures |ms[i].sideA| == |ms[j].sideA|
  {
    hide Mask, Bit, Applied;
    if i < j {
      SizeKept(ms, ls, i, j - 1);
    }
  }

  lemma {:induction false} HistoryGrows(ms: seq<Machine>, ls: seq<Label>, i: nat, j: nat, k: nat)
    requires Behavior(ms, ls) && i <= j < |ms| && k < |ms[i].sideA|
    ensures Inv(ms[i]) && Inv(ms[j])
    ensures |ms[j].sideA| == |ms[i].sideA| && ms[i].history[k] <= ms[j].history[k]
  {
    hide Mask, Bit, Applied, WriterInv, KeyInv, ReaderInv;
    AlwaysInv(ms, ls, i);
    AlwaysInv(ms, ls, j);
    if i < j {
      HistoryGrows(ms, ls, i, j - 1, k);
    }
  }

  lemma {:induction false} ReadContinues(ms: seq<Machine>, ls: seq<Label>, p: nat, e: nat, r: nat, k: nat)
    requires Behavior(ms, ls) && SameRead(ls, p, e, r, k)
    ensures Inv(ms[p]) && Inv(ms[e]) && r < |ms[e].readers| && k < |ms[p].sideA|
    ensures var rd := ms[e].readers[r];
      rd.Reading? && rd.k == k && rd.onA == OnSideA(ms[p], k) && rd.version == Flips(ms[p], k)
  {
    hide Mask, Bit, Applied, WriterInv, KeyInv, ReaderInv;
    AlwaysInv(ms, ls, p);
    AlwaysInv(ms, ls, e);
    if p + 1 < e {
      assert SameRead(ls, p, e - 1, r, k);
      ReadContinues(ms, ls, p, e - 1, r, k);
    }
  }

  /** In every interleaving: until the second write to k after those published at the pick begins,
      the picked record is not written, so everything the read has copied by then, word by word and
      in any order, comes from the one version that was current at the pick. */
  lemma UntornRead(ms: seq<Machine>, ls: seq<Label>, p: nat, e: nat, r: nat, k: nat)
    requires Behavior(ms, ls) && SameRead(ls, p, e, r, k)
    requires k < |ms[p].sideA| && k < |ms[e].begun| && Shape(ms[p])
    requires ms[e].begun[k] <= Flips(ms[p], k) + 1
    ensures r < |ms[e].readers| && ms[e].readers[r].Reading? && Shape(ms[e]) && |ms[e].sideA| == |ms[p].sideA|
    ensures RecordOn(ms[e], k, OnSideA(ms[p], k)) == Current(ms[p], k)
    ensures GotFrom(ms[e].readers[r].got, Current(ms[p], k))
  {
    hide Mask, Bit, Applied;
    ReadContinues(ms, ls, p, e, r, k);
    HistoryGrows(ms, ls, p, e, k);
    assert KeyInv(ms[p], k);
    assert ReaderInv(ms[e], ms[e].readers[r]);
  }

  /** The bound is sharp: each store of that second write lands in the very record the reader is
      still copying. */
  lemma SecondWriteHitsPicked(ms: seq<Machine>, ls: seq<Label>, p: nat, e: nat, r: nat, k: nat)
    requires Behavior(ms, ls) && SameRead(ls, p, e, r, k) && e < |ls|
    requires ls[e] == Put && ms[e].writer.k == k
    requires Shape(ms[p]) && k < |ms[p].sideA| && Flips(ms[e], k) == Flips(ms[p], k) + 1
    ensures var onA, w := OnSideA(ms[p], k), ms[e].writer;
      && Shape(ms[e + 1]) && w.done < |w.stores| && w.stores[w.done].index < ms[e].width
      && RecordOn(ms[e + 1], k, onA) == RecordOn(ms[e], k, onA)[w.stores[w.done].index := w.stores[w.done].value]
      && r < |ms[e].readers| && ms[e].readers[r].Reading? && ms[e].readers[r].onA == onA
  {
    hide Mask, Bit, Applied;
    ReadContinues(ms, ls, p, e, r, k);
    AlwaysInv(ms, ls, e + 1);
    assert ReaderInv(ms[e], ms[e].readers[r]);
    assert ms[e].writer.stores[ms[e].writer.done] in ms[e].writer.stores;
  }

  // ---------------------------------------------------------------------------------------------
  // A torn read

  ghost predicate Leads(m: Machine, l: Label, m': Machine)
  {
    Shape(m) && Enabled(m, l) && m' == Exec(m, l)
  }

  /** A table of 64 two-word records with one reader; key 0 has the records a and b and the values published. */
  function Small(a: Rec, b: Rec, bit: bv64, note: bv64, w: Writer, rd: Reader, published: seq<Rec>, begun: nat): Machine
  {
    Machine(2, false, seq(64, i => if i == 0 then a else [0, 0]), seq(64, i => if i == 0 then b else [0, 0]),
            [bit], [note], 0, 0, w, [rd],
            seq(64, i => if i == 0 then published else [[0, 0]]), seq(64, i => if i == 0 then begun else 0))
  }

  function Both(x: int): seq<Store>
  {
    [Store(0, x), Store(1, x)]
  }

  lemma FirstBit()
    ensures 0 ^ Mask(0) == 1 && Bit(1, 0) && !Bit(0, 0)
  {
  }

  lemma PickSmall(a: Rec, b: Rec, published: seq<Rec>)
    requires |a| == |b| == 2 && published != []
    ensures Leads(Small(a, b, 0, 0, Idle, Resting, published, 0), Pick(0, 0),
                  Small(a, b, 0, 0, Idle, Reading(0, false, |published| - 1, []), published, 0))
  {
    hide Mask, Bit;
    FirstBit();
  }

  lemma GetSmall(a: Rec, b: Rec, bit: bv64, note: bv64, w: Writer, v: nat, got: seq<Store>, i: nat, published: seq<Rec>,
                 begun: nat)
    requires |a| == |b| == 2 && published != [] && i < 2
    ensures Leads(Small(a, b, bit, note, w, Reading(0, false, v, got), published, begun), Get(0, i),
                  Small(a, b, bit, note, w, Reading(0, false, v, got + [Store(i, b[i])]), published, begun))
  {
    hide Mask, Bit;
  }

  lemma BeginSmall(a: Rec, b: Rec, bit: bv64, note: bv64, rd: Reader, published: seq<Rec>, begun: nat, x: int)
    requires |a| == |b| == 2 && published != []
    ensures Leads(Small(a, b, bit, note, Idle, rd, published, begun), Begin(0, Both(x)),
                  Small(a, b, bit, note, Filling(0, Both(x), 0, if Bit(bit, 0) then b else a), rd, published,
                        begun + 1))
  {
    hide Mask, Bit;
    var m := Small(a, b, bit, note, Idle, rd, published, begun);
    assert m.begun[0 := begun + 1] == Small(a, b, bit, note, Idle, rd, published, begun + 1).begun;
  }

  lemma PutSmall(a: Rec, b: Rec, bit: bv64, note: bv64, base: Rec, n: nat, rd: Reader, published: seq<Rec>, begun: nat,
                 x: int)
    requires |a| == |b| == 2 && published != [] && n < 2
    ensures Leads(Small(a, b, bit, note, Filling(0, Both(x), n, base), rd, published, begun), Put,
                  Small(if Bit(bit, 0) then a else a[n := x], if Bit(bit, 0) then b[n := x] else b, bit, note,
                        Filling(0, Both(x), n + 1, base), rd, published, begun))
  {
    hide Mask, Bit;
    var m := Small(a, b, bit, note, Filling(0, Both(x), n, base), rd, published, begun);
    assert m.sideA[0 := a[n := x]] == Small(a[n := x], b, bit, note, Idle, rd, published, begun).sideA;
    assert m.sideB[0 := b[n := x]] == Small(a, b[n := x], bit, note, Idle, rd, published, begun).sideB;
  }

  lemma PublishSmall(a: Rec, b: Rec, base: Rec, rd: Reader, published: seq<Rec>, begun: nat, x: int)
    requires |a| == |b| == 2 && published != []
    ensures var w1, w2 := Filling(0, Both(x), 2, base), Loaded(0, Both(x), 0, base);
      && Leads(Small(a, b, 0, 0, w1, rd, published, begun), LoadWord, Small(a, b, 0, 0, w2, rd, published, begun))
      && Leads(Small(a, b, 0, 0, w2, rd, published, begun), Flip,
               Small(a, b, 1, 0, Flipped(0), rd, published + [a], begun))
      && Leads(Small(a, b, 1, 0, Flipped(0), rd, published + [a], begun), Notify,
               Small(a, b, 1, 1, Idle, rd, published + [a], begun))
  {
    hide Mask, Bit;
    FirstBit();
    var m := Small(a, b, 0, 0, Loaded(0, Both(x), 0, base), rd, published, begun);
    assert m.history[0 := published + [a]] == Small(a, b, 1, 0, Flipped(0), rd, published + [a], begun).history;
  }

  /** A run from an initial state to m that starts with reader 0's pick of key 0 and never finishes it. */
  ghost predicate Reaches(ms: seq<Machine>, ls: seq<Label>, m: Machine)
  {
    && |ms| == |ls| + 1 && ls != [] && Init(ms[0]) && ls[0] == Pick(0, 0) && ms[|ls|] == m
    && (forall i :: 0 <= i < |ls| ==> Leads(ms[i], ls[i], ms[i + 1]) && !ls[i].Finish?)
  }

  lemma Then(ms: seq<Machine>, ls: seq<Label>, m: Machine, l: Label, m': Machine)
    returns (ms': seq<Machine>, ls': seq<Label>)
    requires Reaches(ms, ls, m) && Leads(m, l, m') && !l.Finish?
    ensures Reaches(ms', ls', m')
  {
    hide Leads, Init;
    ms', ls' := ms + [m'], ls + [l];
  }

  lemma ReachedIsBehavior(ms: seq<Machine>, ls: seq<Label>, m: Machine)
    requires Reaches(ms, ls, m)
    ensures Behavior(ms, ls) && SameRead(ls, 0, |ls|, 0, 0) && ms[|ls|] == m
  {
    hide Init, Enabled, Exec, Shape;
    forall i | 0 <= i < |ls| ensures Shape(ms[i]) && Enabled(ms[i], ls[i]) && ms[i + 1] == Exec(ms[i], ls[i]) {
      assert Leads(ms[i], ls[i], ms[i + 1]);
    }
  }

  lemma FirstWord() returns (ms: seq<Machine>, ls: seq<Label>)
    ensures Reaches(ms, ls, Small([0, 0], [1, 1], 0, 0, Idle, Reading(0, false, 0, [Store(0, 1)]), [[1, 1]], 0))
  {
    var z, o := [0, 0], [1, 1];
    var m0, m1 := Small(z, o, 0, 0, Idle, Resting, [o], 0), Small(z, o, 0, 0, Idle, Reading(0, false, 0, []), [o], 0);
    assert Init(m0);
    hide Small, Init, Leads;
    PickSmall(z, o, [o]);
    ms, ls := [m0, m1], [Pick(0, 0)];
    assert [] + [Store(0, o[0])] == [Store(0, 1)];
    GetSmall(z, o, 0, 0, Idle, 0, [], 0, [o], 0);
    ms, ls := Then(ms, ls, m1, Get(0, 0), Small(z, o, 0, 0, Idle, Reading(0, false, 0, [Store(0, 1)]), [o], 0));
  }

  /** Filling the hidden record with x in both words. */
  lemma Filled(ms: seq<Machine>, ls: seq<Label>, a: Rec, b: Rec, bit: bv64, rd: Reader, published: seq<Rec>, begun: nat,
               x: int) returns (ms': seq<Machine>, ls': seq<Label>)
    requires |a| == |b| == 2 && published != []
    requires Reaches(ms, ls, Small(a, b, bit, bit, Idle, rd, published, begun))
    ensures var base := if Bit(bit, 0) then b else a;
      Reaches(ms', ls', Small(if Bit(bit, 0) then a else [x, x], if Bit(bit, 0) then [x, x] else b, bit, bit,
                              Filling(0, Both(x), 2, base), rd, published, begun + 1))
  {
    hide Small, Leads, Reaches, Bit, Both;
    var onA := Bit(bit, 0);
    var base := if onA then b else a;
    var half := base[0 := x];
    assert half[1 := x] == [x, x];
    var w0, w1, w2 := Filling(0, Both(x), 0, base), Filling(0, Both(x), 1, base), Filling(0, Both(x), 2, base);
    var m0 := Small(a, b, bit, bit, w0, rd, published, begun + 1);
    var a1, b1 := if onA then a else half, if onA then half else b;
    var m1 := Small(a1, b1, bit, bit, w1, rd, published, begun + 1);
    var a2, b2 := if onA then a else [x, x], if onA then [x, x] else b;
    BeginSmall(a, b, bit, bit, rd, published, begun, x);
    ms', ls' := Then(ms, ls, Small(a, b, bit, bit, Idle, rd, published, begun), Begin(0, Both(x)), m0);
    PutSmall(a, b, bit, bit, base, 0, rd, published, begun + 1, x);
    ms', ls' := Then(ms', ls', m0, Put, m1);
    PutSmall(a1, b1, bit, bit, base, 1, rd, published, begun + 1, x);
    ms', ls' := Then(ms', ls', m1, Put, Small(a2, b2, bit, bit, w2, rd, published, begun + 1));
  }

  lemma Published(ms: seq<Machine>, ls: seq<Label>, a: Rec, b: Rec, base: Rec, rd: Reader, published: seq<Rec>,
                  begun: nat, x: int) returns (ms': seq<Machine>, ls': seq<Label>)
    requires |a| == |b| == 2 && published != []
    requires Reaches(ms, ls, Small(a, b, 0, 0, Filling(0, Both(x), 2, base), rd, published, begun))
    ensures Reaches(ms', ls', Small(a, b, 1, 1, Idle, rd, published + [a], begun))
  {
    hide Small, Leads, Reaches, Both;
    PublishSmall(a, b, base, rd, published, begun, x);
    var m0 := Small(a, b, 0, 0, Filling(0, Both(x), 2, base), rd, published, begun);
    var m1 := Small(a, b, 0, 0, Loaded(0, Both(x), 0, base), rd, published, begun);
    var m2 := Small(a, b, 1, 0, Flipped(0), rd, published + [a], begun);
    ms', ls' := Then(ms, ls, m0, LoadWord, m1);
    ms', ls' := Then(ms', ls', m1, Flip, m2);
    ms', ls' := Then(ms', ls', m2, Notify, Small(a, b, 1, 1, Idle, rd, published + [a], begun));
  }

  lemma SecondWord(ms: seq<Machine>, ls: seq<Label>, w: Writer) returns (ms': seq<Machine>, ls': seq<Label>)
    requires Reaches(ms, ls, Small([2, 2], [3, 3], 1, 1, w, Reading(0, false, 0, [Store(0, 1)]), [[1, 1], [2, 2]], 2))
    ensures Reaches(ms', ls', Small([2, 2], [3, 3], 1, 1, w, Reading(0, false, 0, [Store(0, 1), Store(1, 3)]),
                                    [[1, 1], [2, 2]], 2))
  {
    hide Small, Leads, Reaches;
    var t, h, got, published := [2, 2], [3, 3], [Store(0, 1)], [[1, 1], [2, 2]];
    assert got + [Store(1, h[1])] == [Store(0, 1), Store(1, 3)];
    GetSmall(t, h, 1, 1, w, 0, got, 1, published, 2);
    ms', ls' := Then(ms, ls, Small(t, h, 1, 1, w, Reading(0, false, 0, got), published, 2), Get(0, 1),
                     Small(t, h, 1, 1, w, Reading(0, false, 0, [Store(0, 1), Store(1, 3)]), published, 2));
  }

  /** A read across two writes of its key can be torn: here reader 0 picks key 0 while it is [1, 1] and copies the
      first word; [2, 2] is published, [3, 3] is filled in over the picked record, and the reader copies the second
      word. What it got is neither a published value nor the one on its way. */
  lemma ReadCanBeTorn() returns (ms: seq<Machine>, ls: seq<Label>)
    ensures Behavior(ms, ls) && SameRead(ls, 0, |ls|, 0, 0)
    ensures var m := ms[|ls|];
      && m.readers == [Reading(0, false, 0, [Store(0, 1), Store(1, 3)])]
      && |m.history| == |m.begun| == 64 && m.history[0] == [[1, 1], [2, 2]] && m.begun[0] == 2
      && (forall v :: v in m.history[0] + [[3, 3]] ==> !GotFrom(m.readers[0].got, v))
  {
    var z, o, t, h, got := [0, 0], [1, 1], [2, 2], [3, 3], [Store(0, 1), Store(1, 3)];
    var w := Filling(0, Both(3), 2, o);
    var end := Small(t, h, 1, 1, w, Reading(0, false, 0, got), [o, t], 2);
    assert end.readers == [Reading(0, false, 0, got)] && |end.history| == |end.begun| == 64;
    assert end.history[0] == [o, t] && end.begun[0] == 2;
    FirstBit();
    NotFrom(got);
    assert [o] + [t] == [o, t] && [o, t] + [h] == [o, t, h];
    {
      hide Small, Bit, Both;
      var r1 := Reading(0, false, 0, [Store(0, 1)]);
      ms, ls := FirstWord();
      ms, ls := Filled(ms, ls, z, o, 0, r1, [o], 0, 2);
      ms, ls := Published(ms, ls, t, o, z, r1, [o], 1, 2);
      ms, ls := Filled(ms, ls, t, o, 1, r1, [o, t], 1, 3);
      ms, ls := SecondWord(ms, ls, w);
      ReachedIsBehavior(ms, ls, end);
    }
  }

  lemma NotFrom(got: seq<Store>)
    requires got == [Store(0, 1), Store(1, 3)]
    ensures forall v :: v in [[1, 1], [2, 2], [3, 3]] ==> !GotFrom(got, v)
  {
    assert got[0] in got && got[1] in got;
  }

  // ---------------------------------------------------------------------------------------------
  // The virtual clock

  /** No tick falls between states t and e. */
  predicate NoTick(ls: seq<Label>, t: nat, e: nat)
  {
    t <= e <= |ls| && forall i :: t <= i < e ==> !ls[i].Tick?
  }

  /** The writes begun are those of `before`, and possibly one more, of any one key. */
  predicate OneMoreAtMost(before: seq<nat>, after: seq<nat>)
  {
    after == before || exists k :: 0 <= k < |before| && after == before[k := before[k] + 1]
  }

  lemma CheckedStep(m: Machine, l: Label)
    requires Inv(m) && Enabled(m, l) && m.checked && !l.Tick?
    ensures var m' := Exec(m, l);
      && m'.checked && m'.clock == m.clock
      && (m'.begun == m.begun
          || (m.writer.Passed? && OneMoreAtMost(m.begun, m'.begun) && m'.prv == m.clock && !m'.writer.Passed?))
      && (m.prv == m.clock && !m.writer.Passed? ==>
            m'.begun == m.begun && m'.prv == m'.clock && !m'.writer.Passed?)
  {
    hide Mask, Bit, Applied, KeyInv, ReaderInv;
  }

  /** With the clock check on, at most one write, of whatever key, can begin until the next tick, and only the
      one that carries the previous-write counter up to the clock. */
  lemma {:induction false} OneWritePerTick(ms: seq<Machine>, ls: seq<Label>, t: nat, e: nat)
    requires Behavior(ms, ls) && NoTick(ls, t, e)
    requires ms[t].checked && ms[t].writer.Idle?
    ensures Inv(ms[t]) && Inv(ms[e]) && |ms[e].sideA| == |ms[t].sideA| && ms[e].clock == ms[t].clock
    ensures ms[e].checked && OneMoreAtMost(ms[t].begun, ms[e].begun)
    ensures ms[e].begun != ms[t].begun ==> ms[e].prv == ms[e].clock && !ms[e].writer.Passed?
  {
    hide Mask, Bit, Applied, WriterInv, KeyInv, ReaderInv, Exec;
    AlwaysInv(ms, ls, e);
    AlwaysInv(ms, ls, t);
    if t < e {
      assert NoTick(ls, t, e - 1);
      OneWritePerTick(ms, ls, t, e - 1);
      CheckedStep(ms[e - 1], ls[e - 1]);
      SizeKept(ms, ls, t, e);
    }
  }

  /** With the clock check on, a read that lies between two ticks, the first of them taken while no
      write is in progress, is never torn. */
  lemma UntornBetweenTicks(ms: seq<Machine>, ls: seq<Label>, t: nat, p: nat, e: nat, r: nat, k: nat)
    requires Behavior(ms, ls) && t < p && SameRead(ls, p, e, r, k)
    requires ls[t] == Tick && ms[t].checked && ms[t].writer.Idle?
    requires NoTick(ls, t + 1, e)
    ensures Inv(ms[p]) && k < |ms[p].sideA| && r < |ms[e].readers| && ms[e].readers[r].Reading?
    ensures GotFrom(ms[e].readers[r].got, Current(ms[p], k))
  {
    hide Mask, Bit, Applied;
    ReadContinues(ms, ls, p, e, r, k);
    AlwaysInv(ms, ls, t + 1);
    assert ms[t + 1].writer.Idle?;
    assert NoTick(ls, t + 1, p);
    SizeKept(ms, ls, t + 1, p);
    OneWritePerTick(ms, ls, t + 1, p);
    OneWritePerTick(ms, ls, t + 1, e);
    HistoryGrows(ms, ls, t + 1, p, k);
    assert KeyInv(ms[t + 1], k);
    UntornRead(ms, ls, p, e, r, k);
  }
}
