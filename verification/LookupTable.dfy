/**
 The double-buffered lookup table itself: two arrays of records, one packed bitmap that says which
 of the two is current for each key, one packed bitmap of change notices, and the virtual clock.
 Every method is proved to do to the plain model of TableModel.dfy what the model's function of
 the same purpose does.
 */
module LookupTables {
  import opened SideBits
  import opened TableModel
  import opened Wrappers

  /** A pointer into the table: a record of side A or B, or the end marker. */
  datatype Iterator = InA(k: nat) | InB(k: nat) | End

  class LookupTable<T> {
    const size: nat
    const zero: T
    const dataSideA: array<Record<T>>
    const dataSideB: array<Record<T>>
    const dataSideBmp: array<bv64>
    const dataNoticeBmp: array<bv64>
    var clock: nat
    var clockPrv: nat

    ghost predicate Shape()
    {
      && 0 < size && size % 64 == 0
      && dataSideA.Length == dataSideB.Length == size
      && dataSideBmp.Length == dataNoticeBmp.Length == size / 64
      && dataSideA != dataSideB && dataSideBmp != dataNoticeBmp
    }

    ghost predicate Valid()
      reads this
    {
      Shape() && clock < CLOCK_RANGE && clockPrv < CLOCK_RANGE
    }

    ghost function Repr(): set<object>
    {
      {this, dataSideA, dataSideB, dataSideBmp, dataNoticeBmp}
    }

    predicate OnSideA(k: nat)
      requires k / 64 < dataSideBmp.Length
      reads dataSideBmp
    {
      Bit(dataSideBmp[k / 64], k)
    }

    ghost function CellOf(k: nat): Cell<T>
      requires Shape() && k < size
      reads dataSideA, dataSideB, dataSideBmp
    {
      if OnSideA(k) then Cell(dataSideA[k], dataSideB[k]) else Cell(dataSideB[k], dataSideA[k])
    }

    ghost function NoticeOf(k: nat): bool
      requires Shape() && k < size
      reads dataNoticeBmp
    {
      Bit(dataNoticeBmp[k / 64], k)
    }

    /** The table as the plain model sees it. */
    ghost function View(): (t: Table<T>)
      requires Valid()
      reads this, Repr()
      ensures WellFormed(t) && |t.cells| == size
    {
      Table(seq(size, k requires Shape() && 0 <= k < size reads Repr() => CellOf(k)),
            seq(size, k requires Shape() && 0 <= k < size reads Repr() => NoticeOf(k)), clock, clockPrv)
    }

    constructor (size: nat, zero: T)
      requires 0 < size && size % 64 == 0
      ensures Valid() && fresh(Repr()) && this.size == size && this.zero == zero
      ensures View() == Cleared(size, zero)
    {
      this.size := size;
      this.zero := zero;
      dataSideA := new Record<T>[size](_ => Record(STAT_ON, zero));
      dataSideB := new Record<T>[size](_ => Record(STAT_ON, zero));
      dataSideBmp := new bv64[size / 64];
      dataNoticeBmp := new bv64[size / 64];
      clock, clockPrv := 0, 0;
      new;
      Clear();
    }

    method Clock()
      requires Valid()
      modifies this
      ensures Valid() && View() == Ticked(old(View()))
    {
      clock := (clock + 1) % CLOCK_RANGE;
    }

    method Clear()
      requires Valid()
      modifies Repr()
      ensures Valid() && View() == Cleared(size, zero)
    {
      hide Mask, Bit;
      for i := 0 to size / 64
        invariant forall j :: 0 <= j < i ==> dataSideBmp[j] == 0
      {
        dataSideBmp[i] := 0;
      }
      for i := 0 to size / 64
        invariant forall j :: 0 <= j < size / 64 ==> dataSideBmp[j] == 0
        invariant forall j :: 0 <= j < i ==> dataNoticeBmp[j] == 0
      {
        dataNoticeBmp[i] := 0;
      }
      for n := 0 to size
        invariant forall j :: 0 <= j < size / 64 ==> dataSideBmp[j] == 0 && dataNoticeBmp[j] == 0
        invariant forall j :: 0 <= j < n ==> dataSideA[j] == dataSideB[j] == Record(STAT_ON, zero)
      {
        dataSideA[n] := Record(STAT_ON, zero);
        dataSideB[n] := Record(STAT_ON, zero);
      }
      clock, clockPrv := 0, 0;
      forall k | 0 <= k < size ensures !NoticeOf(k) {
        ClearedWord(k);
      }
    }

    /** `flag` asks for the hidden record; otherwise the current one, if present. */
    function Find(gcnt: nat, flag: bool): (it: Iterator)
      requires Valid()
      reads this, Repr()
      ensures it == End || (it.k == gcnt < size && it.InA? == (OnSideA(gcnt) != flag))
      ensures flag ==> (it == End <==> gcnt >= size)
      ensures !flag ==> (if it == End then Lookup(View(), gcnt) == None else Lookup(View(), gcnt) == Some(Get(it)))
      ensures flag && it != End ==> Get(it) == View().cells[gcnt].spare
    {
      if gcnt > size - 1 then
        End
      else if flag then
        if !OnSideA(gcnt) then InA(gcnt) else InB(gcnt)
      else if OnSideA(gcnt) then
        if dataSideA[gcnt].valid == STAT_ON then InA(gcnt) else End
      else
        if dataSideB[gcnt].valid == STAT_ON then InB(gcnt) else End
    }

    function Get(it: Iterator): Record<T>
      requires Shape() && it != End && it.k < size
      reads dataSideA, dataSideB
    {
      if it.InA? then dataSideA[it.k] else dataSideB[it.k]
    }

    method Set(it: Iterator, r: Record<T>)
      requires Shape() && it != End && it.k < size
      modifies dataSideA, dataSideB
      ensures Get(it) == r
      ensures forall k :: 0 <= k < size && (it.InB? || k != it.k) ==> dataSideA[k] == old(dataSideA[k])
      ensures forall k :: 0 <= k < size && (it.InA? || k != it.k) ==> dataSideB[k] == old(dataSideB[k])
    {
      if it.InA? {
        dataSideA[it.k] := r;
      } else {
        dataSideB[it.k] := r;
      }
    }

    function FindNoticeBmp64(gcnt: nat): (w: bv64)
      requires Valid()
      reads this, Repr()
      ensures gcnt >= size ==> w == 0
      ensures gcnt < size ==> forall j :: 0 <= j < size && j / 64 == gcnt / 64 ==> Bit(w, j) == View().notice[j]
    {
      if gcnt > size - 1 then 0 else dataNoticeBmp[gcnt / 64]
    }

    method ClearNoticeBmp64(gcnt: nat)
      requires Valid() && gcnt != size
      modifies dataNoticeBmp
      ensures View() == if gcnt < size then NoticeWordCleared(old(View()), gcnt) else old(View())
    {
      hide Mask, Bit;
      if gcnt <= size {
        dataNoticeBmp[gcnt / 64] := 0;
        forall j | 0 <= j < size ensures NoticeOf(j) == (old(NoticeOf(j)) && j / 64 != gcnt / 64) {
          ClearedWord(j);
        }
      }
    }

    /** Exchange current and spare of one key. */
    method SwapSide(gcnt: nat)
      requires Valid() && gcnt < size
      modifies dataSideBmp
      ensures forall k :: 0 <= k < size ==>
        CellOf(k) == var c := old(CellOf(k)); if k == gcnt then Cell(c.spare, c.current) else c
    {
      hide Mask, Bit;
      ghost var was := dataSideBmp[..];
      dataSideBmp[gcnt / 64] := dataSideBmp[gcnt / 64] ^ Mask(gcnt);
      assert dataSideBmp[..] == was[gcnt / 64 := was[gcnt / 64] ^ Mask(gcnt)];
      forall k | 0 <= k < size ensures OnSideA(k) == (Bit(was[k / 64], k) != (k == gcnt)) {
        FlipInBitmap(was, gcnt, k);
      }
    }

    method NotifyChange(gcnt: nat)
      requires Valid() && gcnt < size
      modifies dataNoticeBmp
      ensures forall k :: 0 <= k < size ==> NoticeOf(k) == (old(NoticeOf(k)) != (k == gcnt))
    {
      hide Mask, Bit;
      ghost var was := dataNoticeBmp[..];
      dataNoticeBmp[gcnt / 64] := dataNoticeBmp[gcnt / 64] ^ Mask(gcnt);
      assert dataNoticeBmp[..] == was[gcnt / 64 := was[gcnt / 64] ^ Mask(gcnt)];
      forall k | 0 <= k < size ensures NoticeOf(k) == (Bit(was[k / 64], k) != (k == gcnt)) {
        FlipInBitmap(was, gcnt, k);
      }
    }

    /** operator[]; None stands for the exception on a key out of range. */
    method Index(gcnt: nat) returns (r: Option<Iterator>)
      requires Valid()
      modifies Repr()
      ensures Valid() && View() == Indexed(old(View()), gcnt)
      ensures r.None? <==> gcnt >= size
      ensures r.Some? ==> r.value == Find(gcnt, false) != End
    {
      hide Mask, Bit;
      if gcnt > size - 1 {
        return None;
      }
      var itr := Find(gcnt, false);
      if itr != End {
        Set(itr, Get(itr).(valid := STAT_ON));
        assert forall k :: 0 <= k < size ==> CellOf(k) == old(CellOf(k));
        return Some(itr);
      }
      itr := Find(gcnt, true);
      Set(itr, Get(itr).(valid := STAT_ON));
      SwapSide(gcnt);
      return Some(itr);
    }

    /** The common end of Add and Del: fill the hidden record, flip the side, notify. */
    method Publish(gcnt: nat, itr: Iterator, r: Record<T>)
      requires Valid() && gcnt < size && itr == Find(gcnt, true)
      modifies dataSideA, dataSideB, dataSideBmp, dataNoticeBmp
      ensures View() == Changed(old(View()), gcnt, Cell(r, old(View()).cells[gcnt].current), false)
    {
      hide Mask, Bit;
      Set(itr, r);
      SwapSide(gcnt);
      NotifyChange(gcnt);
    }

    /** Also returns the caller's record as Add leaves it. */
    method Add(gcnt: nat, itm: Record<T>, nochkCounter: bool) returns (r: Outcome, itm': Record<T>)
      requires Valid()
      modifies Repr()
      ensures Valid() && View() == Added(old(View()), gcnt, itm, nochkCounter)
      ensures r == Written(old(View()), gcnt, nochkCounter)
      ensures itm' == if r == Err then itm else itm.(valid := STAT_ON)
    {
      hide Mask, Bit;
      itm' := itm;
      if nochkCounter {
        if clock <= clockPrv {
          return Err, itm';
        }
        clockPrv := clock;
      }
      itm' := itm'.(valid := STAT_ON);
      var itr := Find(gcnt, true);
      if itr == End {
        return Threw, itm';
      }
      Publish(gcnt, itr, itm');
      return Done, itm';
    }

    method Del(gcnt: nat, nochkCounter: bool) returns (r: Outcome)
      requires Valid()
      modifies Repr()
      ensures Valid() && View() == Deleted(old(View()), gcnt, nochkCounter)
      ensures r == Written(old(View()), gcnt, nochkCounter)
    {
      hide Mask, Bit;
      if nochkCounter {
        if clock <= clockPrv {
          return Err;
        }
        clockPrv := clock;
      }
      var itr := Find(gcnt, true);
      if itr == End {
        return Threw;
      }
      Publish(gcnt, itr, Get(itr).(valid := STAT_OFF));
      return Done;
    }

    /** Copy the current record of one key to the hidden side and let func rewrite the copy. */
    method UpdateHidden<U>(gcnt: nat, func: Updater<T, U>, udata: U) returns (u: U)
      requires Valid() && gcnt < size
      modifies dataSideA, dataSideB
      ensures forall k :: 0 <= k < size && k != gcnt ==> CellOf(k) == old(CellOf(k))
      ensures var c := old(CellOf(gcnt)).current;
        CellOf(gcnt) == Cell(c, func(c, udata).0.(valid := STAT_ON)) && u == func(c, udata).1
    {
      hide Mask, Bit;
      if OnSideA(gcnt) {
        dataSideB[gcnt] := dataSideA[gcnt];
        var (r, u') := func(dataSideB[gcnt], udata);
        dataSideB[gcnt], u := r, u';
        dataSideB[gcnt] := dataSideB[gcnt].(valid := STAT_ON);
      } else {
        dataSideA[gcnt] := dataSideB[gcnt];
        var (r, u') := func(dataSideA[gcnt], udata);
        dataSideA[gcnt], u := r, u';
        dataSideA[gcnt] := dataSideA[gcnt].(valid := STAT_ON);
      }
    }

    /** Flip the side of every key, one whole word at a time. */
    method FlipAllWords()
      requires Valid()
      modifies dataSideBmp
      ensures forall k :: 0 <= k < size ==> CellOf(k) == var c := old(CellOf(k)); Cell(c.spare, c.current)
    {
      hide Mask, Bit;
      for w := 0 to size / 64
        invariant forall j :: 0 <= j < size / 64 ==>
          dataSideBmp[j] == if j < w then old(dataSideBmp[j]) ^ ALL_ONES else old(dataSideBmp[j])
      {
        dataSideBmp[w] := dataSideBmp[w] ^ ALL_ONES;
      }
      forall k | 0 <= k < size ensures OnSideA(k) == !old(OnSideA(k)) {
        FlipEvery(old(dataSideBmp[k / 64]), k);
      }
    }

    /** Give func a copy of every current record from key 1 on, hidden until the final flip of whole
        words, which takes key 0 along. */
    method EnumerateForUpdate<U>(func: Updater<T, U>, udata: U) returns (u: U)
      requires Valid()
      modifies Repr()
      ensures Valid() && View() == Enumerated(old(View()), func, udata)
      ensures u == UserDataAt(old(View()).cells, func, udata, size)
    {
      hide Mask, Bit;
      ghost var cells := View().cells;
      u := udata;
      for gcnt := 1 to size
        invariant unchanged(this) && unchanged(dataSideBmp) && unchanged(dataNoticeBmp)
        invariant u == UserDataAt(cells, func, udata, gcnt)
        invariant forall k :: 0 <= k < size ==> CellOf(k) == HiddenUpdated(cells, func, udata, k, gcnt)
      {
        u := UpdateHidden(gcnt, func, u);
      }
      FlipAllWords();
    }
  }

  /** The cell of key k while an enumeration has reached key `reached` and not yet flipped. */
  ghost function HiddenUpdated<T, U>(cells: seq<Cell<T>>, f: Updater<T, U>, u: U, k: nat, reached: nat): Cell<T>
    requires k < |cells|
  {
    if 0 < k < reached then Cell(cells[k].current, EnumeratedCell(cells, f, u, k).current) else cells[k]
  }
}
