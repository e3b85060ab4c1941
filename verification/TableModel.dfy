/**
 The plain model of the double-buffered lookup table: one current and one spare record per key,
 a notice bit per key and the two counters of the virtual clock. LookupTable.dfy proves that the
 packed-bitmap table behaves like this model; the lemmas here say what that behaviour is over
 whole runs.
 */
module TableModel {
  import opened Wrappers

  const STAT_ON: bv1 := 0
  const STAT_OFF: bv1 := 1

  /** The virtual clock counters are unsigned 64-bit words. */
  const CLOCK_RANGE: nat := 0x1_0000_0000_0000_0000

  datatype Record<T> = Record(valid: bv1, body: T)

  datatype Cell<T> = Cell(current: Record<T>, spare: Record<T>)

  datatype Table<T> = Table(cells: seq<Cell<T>>, notice: seq<bool>, clock: nat, prv: nat)

  /** What Add and Del report: OK, ERR, or an exception for a key out of range. */
  datatype Outcome = Done | Err | Threw

  ghost predicate WellFormed<T>(t: Table<T>)
  {
    |t.cells| == |t.notice| && t.clock < CLOCK_RANGE && t.prv < CLOCK_RANGE
  }

  function Cleared<T>(size: nat, zero: T): Table<T>
  {
    var blank := Record(STAT_ON, zero);
    Table(seq(size, _ => Cell(blank, blank)), seq(size, _ => false), 0, 0)
  }

  /** What a plain lookup sees. */
  function Lookup<T>(t: Table<T>, k: nat): Option<Record<T>>
  {
    if k < |t.cells| && t.cells[k].current.valid == STAT_ON then Some(t.cells[k].current) else None
  }

  function Ticked<T>(t: Table<T>): Table<T>
  {
    t.(clock := (t.clock + 1) % CLOCK_RANGE)
  }

  /** The clock check at the head of Add and Del. */
  predicate ClockRefuses<T>(t: Table<T>, checked: bool)
  {
    checked && t.clock <= t.prv
  }

  /** Install c as key k's cell and flip its notice bit. */
  function Changed<T>(t: Table<T>, k: nat, c: Cell<T>, checked: bool): Table<T>
    requires WellFormed(t) && k < |t.cells|
  {
    t.(cells := t.cells[k := c], notice := t.notice[k := !t.notice[k]],
       prv := if checked then t.clock else t.prv)
  }

  function Written<T>(t: Table<T>, k: nat, checked: bool): Outcome
  {
    if ClockRefuses(t, checked) then Err else if k < |t.cells| then Done else Threw
  }

  function Added<T>(t: Table<T>, k: nat, itm: Record<T>, checked: bool): Table<T>
    requires WellFormed(t)
  {
    match Written(t, k, checked)
    case Err => t
    case Threw => t.(prv := if checked then t.clock else t.prv)
    case Done => Changed(t, k, Cell(itm.(valid := STAT_ON), t.cells[k].current), checked)
  }

  function Deleted<T>(t: Table<T>, k: nat, checked: bool): Table<T>
    requires WellFormed(t)
  {
    match Written(t, k, checked)
    case Err => t
    case Threw => t.(prv := if checked then t.clock else t.prv)
    case Done => Changed(t, k, Cell(t.cells[k].spare.(valid := STAT_OFF), t.cells[k].current), checked)
  }

  /** operator[]: revive the spare record unless the current one is valid; no notice is given. */
  function Indexed<T>(t: Table<T>, k: nat): Table<T>
  {
    if k < |t.cells| && t.cells[k].current.valid != STAT_ON then
      t.(cells := t.cells[k := Cell(t.cells[k].spare.(valid := STAT_ON), t.cells[k].current)])
    else
      t
  }

  type Updater<!T, !U> = (Record<T>, U) -> (Record<T>, U)

  /** The user data an enumeration has accumulated when it reaches key k. */
  function UserDataAt<T, U>(cells: seq<Cell<T>>, f: Updater<T, U>, u: U, k: nat): U
    requires k <= |cells|
  {
    if k <= 1 then u else f(cells[k - 1].current, UserDataAt(cells, f, u, k - 1)).1
  }

  /** The cell of key k after an enumeration: key 0 only changes sides. */
  function EnumeratedCell<T, U>(cells: seq<Cell<T>>, f: Updater<T, U>, u: U, k: nat): Cell<T>
    requires k < |cells|
  {
    var c := cells[k];
    if k == 0 then Cell(c.spare, c.current)
    else Cell(f(c.current, UserDataAt(cells, f, u, k)).0.(valid := STAT_ON), c.current)
  }

  function Enumerated<T, U>(t: Table<T>, f: Updater<T, U>, u: U): Table<T>
  {
    t.(cells := seq(|t.cells|, k requires 0 <= k < |t.cells| => EnumeratedCell(t.cells, f, u, k)))
  }

  function NoticeWordCleared<T>(t: Table<T>, k: nat): Table<T>
  {
    t.(notice := seq(|t.notice|, j requires 0 <= j < |t.notice| => t.notice[j] && j / 64 != k / 64))
  }

  // ---------------------------------------------------------------------------------------------
  // Runs

  datatype Op<!T, !U> =
    | OpAdd(k: nat, itm: Record<T>, checked: bool)
    | OpDel(k: nat, checked: bool)
    | OpIndex(k: nat)
    | OpEnumerate(f: Updater<T, U>, u: U)
    | OpTick
    | OpClear(zero: T)
    | OpClearNotice(k: nat)

  function Step<T, U>(t: Table<T>, op: Op<T, U>): (r: Table<T>)
    requires WellFormed(t)
    ensures WellFormed(r) && |r.cells| == |t.cells|
  {
    match op
    case OpAdd(k, itm, checked) => Added(t, k, itm, checked)
    case OpDel(k, checked) => Deleted(t, k, checked)
    case OpIndex(k) => Indexed(t, k)
    case OpEnumerate(f, u) => Enumerated(t, f, u)
    case OpTick => Ticked(t)
    case OpClear(zero) => Cleared(|t.cells|, zero)
    case OpClearNotice(k) => NoticeWordCleared(t, k)
  }

  function Run<T, U>(t: Table<T>, ops: seq<Op<T, U>>): (r: Table<T>)
    requires WellFormed(t)
    ensures WellFormed(r) && |r.cells| == |t.cells|
  {
    if ops == [] then t else Step(Run(t, ops[..|ops| - 1]), ops[|ops| - 1])
  }

  lemma {:induction false} RunConcat<T, U>(t: Table<T>, a: seq<Op<T, U>>, b: seq<Op<T, U>>)
    requires WellFormed(t)
    ensures Run(t, a + b) == Run(Run(t, a), b)
  {
    if b == [] {
      assert a + b == a;
    } else {
      var m := |b| - 1;
      assert (a + b)[..|a + b| - 1] == a + b[..m];
      RunConcat(t, a, b[..m]);
    }
  }

  // ---------------------------------------------------------------------------------------------
  // Side and notice bits

  /** op is an Add or Del of key k that t accepts. */
  predicate Changes<T, U>(t: Table<T>, op: Op<T, U>, k: nat)
  {
    (op.OpAdd? || op.OpDel?) && op.k == k && Written(t, k, op.checked) == Done
  }

  predicate ResetsNotice<T, U>(op: Op<T, U>, k: nat)
  {
    op.OpClear? || (op.OpClearNotice? && op.k / 64 == k / 64)
  }

  /** How often key k was changed since its notice word was last cleared. */
  function ChangesSinceReset<T, U>(t: Table<T>, ops: seq<Op<T, U>>, k: nat): nat
    requires WellFormed(t)
  {
    if ops == [] then 0
    else
      var before, op := ops[..|ops| - 1], ops[|ops| - 1];
      if ResetsNotice(op, k) then 0
      else ChangesSinceReset(t, before, k) + if Changes(Run(t, before), op, k) then 1 else 0
  }

  lemma NoticeStep<T, U>(t: Table<T>, op: Op<T, U>, k: nat)
    requires WellFormed(t) && k < |t.cells|
    ensures Step(t, op).notice[k] <==> !ResetsNotice(op, k) && t.notice[k] != Changes(t, op, k)
  {
  }

  /** In every run from a cleared table, a notice bit is the parity of the changes of its key
      since its word was last cleared. */
  lemma {:induction false} NoticeIsParity<T, U>(size: nat, zero: T, ops: seq<Op<T, U>>, k: nat)
    requires k < size
    ensures Run(Cleared(size, zero), ops).notice[k] <==> ChangesSinceReset(Cleared(size, zero), ops, k) % 2 == 1
  {
    hide Step;
    if ops != [] {
      var before, op := ops[..|ops| - 1], ops[|ops| - 1];
      NoticeIsParity(size, zero, before, k);
      NoticeStep(Run(Cleared(size, zero), before), op, k);
    }
  }

  /** Add, Del and operator[] of one key leave every other key's records and notice bit alone,
      even when another key shares the 64-bit word. */
  lemma OtherKeysUntouched<T, U>(t: Table<T>, op: Op<T, U>, j: nat)
    requires WellFormed(t) && j < |t.cells|
    requires op.OpAdd? || op.OpDel? || op.OpIndex?
    requires op.k != j
    ensures Step(t, op).cells[j] == t.cells[j] && Step(t, op).notice[j] == t.notice[j]
  {
  }

  // ---------------------------------------------------------------------------------------------
  // What lookups see

  /** Key k's versions after op: an Add appends its record, a Del the previous version marked off, operator[] on a
      version marked off the previous one marked on, an enumeration the rewritten record (for key 0 the previous
      version). */
  function NextVersions<T, U>(v: seq<Record<T>>, now: Table<T>, op: Op<T, U>, k: nat): (w: seq<Record<T>>)
    requires |v| >= 2 && k < |now.cells|
    ensures |w| >= 2
  {
    var last, previous := v[|v| - 1], v[|v| - 2];
    match op
    case OpAdd(_, itm, _) => if Changes(now, op, k) then v + [itm.(valid := STAT_ON)] else v
    case OpDel(_, _) => if Changes(now, op, k) then v + [previous.(valid := STAT_OFF)] else v
    case OpIndex(j) => if j == k && last.valid != STAT_ON then v + [previous.(valid := STAT_ON)] else v
    case OpEnumerate(f, u) =>
      v + [if k == 0 then previous else f(last, UserDataAt(now.cells, f, u, k)).0.(valid := STAT_ON)]
    case OpClear(zero) => [Record(STAT_ON, zero), Record(STAT_ON, zero)]
    case _ => v
  }

  /** The records that have been current for key k, oldest first, behind the one that was spare at the start. */
  function Versions<T, U>(t: Table<T>, ops: seq<Op<T, U>>, k: nat): (v: seq<Record<T>>)
    requires WellFormed(t) && k < |t.cells|
    ensures |v| >= 2
  {
    if ops == [] then [t.cells[k].spare, t.cells[k].current]
    else
      var before, op := ops[..|ops| - 1], ops[|ops| - 1];
      NextVersions(Versions(t, before, k), Run(t, before), op, k)
  }

  function LastTwo<T>(v: seq<Record<T>>): Cell<T>
    requires |v| >= 2
  {
    Cell(v[|v| - 1], v[|v| - 2])
  }

  lemma VersionStep<T, U>(v: seq<Record<T>>, t: Table<T>, op: Op<T, U>, k: nat)
    requires WellFormed(t) && k < |t.cells| && |v| >= 2 && t.cells[k] == LastTwo(v)
    ensures Step(t, op).cells[k] == LastTwo(NextVersions(v, t, op, k))
  {
  }

  /** Over every run of all the operations, whatever happens to other keys: a key's two records are its last two
      versions, the last one current, and a lookup sees the last version unless it is marked off. */
  lemma {:induction false} LookupSeesLastVersion<T, U>(t: Table<T>, ops: seq<Op<T, U>>, k: nat)
    requires WellFormed(t) && k < |t.cells|
    ensures var v := Versions(t, ops, k); var last := v[|v| - 1];
      && Run(t, ops).cells[k] == LastTwo(v)
      && Lookup(Run(t, ops), k) == if last.valid == STAT_ON then Some(last) else None
  {
    hide Step, NextVersions;
    if ops != [] {
      var before := ops[..|ops| - 1];
      LookupSeesLastVersion(t, before, k);
      VersionStep(Versions(t, before, k), Run(t, before), ops[|ops| - 1], k);
    }
  }

  /** The last accepted Add or Del of key k decides what a lookup sees. */
  function LastWrite<T, U>(t: Table<T>, ops: seq<Op<T, U>>, k: nat): Option<Record<T>>
    requires WellFormed(t)
  {
    if ops == [] then Lookup(t, k)
    else
      var before, op := ops[..|ops| - 1], ops[|ops| - 1];
      if !Changes(Run(t, before), op, k) then LastWrite(t, before, k)
      else if op.OpAdd? then Some(op.itm.(valid := STAT_ON)) else None
  }

  /** In particular over every run of Add, Del, ticks and notice clearing, each lookup sees the last accepted
      write of its key. */
  lemma {:induction false} LookupSeesLastWrite<T, U>(t: Table<T>, ops: seq<Op<T, U>>, k: nat)
    requires WellFormed(t)
    requires forall op :: op in ops ==> op.OpAdd? || op.OpDel? || op.OpTick? || op.OpClearNotice?
    ensures Lookup(Run(t, ops), k) == LastWrite(t, ops, k)
  {
    if ops != [] {
      var before, op := ops[..|ops| - 1], ops[|ops| - 1];
      assert op in ops;
      LookupSeesLastWrite(t, before, k);
    }
  }

  /** Del followed by operator[] brings the deleted record back and touches no other key. */
  lemma DelThenIndexRestores<T>(t: Table<T>, k: nat)
    requires WellFormed(t) && k < |t.cells|
    ensures var r := Indexed(Deleted(t, k, false), k);
      && r.cells[k].current == t.cells[k].current.(valid := STAT_ON)
      && (forall j :: 0 <= j < |t.cells| && j != k ==> r.cells[j] == t.cells[j])
      && (Lookup(t, k).Some? ==> Lookup(r, k) == Lookup(t, k))
  {
  }

  /** A record that was only cleared counts as present, because STAT_ON is 0. */
  lemma ClearedRecordsArePresent<T>(size: nat, zero: T, k: nat)
    ensures Lookup(Cleared(size, zero), k) == if k < size then Some(Record(STAT_ON, zero)) else None
  {
  }

  /** An enumeration rewrites every key from 1 on from its old current record, keeps that record as
      the spare, and makes every one of them present; key 0 shows its spare record instead, so that
      only a second enumeration brings key 0's record back. */
  lemma EnumerationEffect<T, U>(t: Table<T>, f: Updater<T, U>, u: U, g: Updater<T, U>, v: U, k: nat)
    requires WellFormed(t) && k < |t.cells|
    ensures var r := Enumerated(t, f, u);
      if k == 0 then
        && r.cells[0] == Cell(t.cells[0].spare, t.cells[0].current)
        && Enumerated(r, g, v).cells[0] == t.cells[0]
      else
        && Lookup(r, k) == Some(f(t.cells[k].current, UserDataAt(t.cells, f, u, k)).0.(valid := STAT_ON))
        && r.cells[k].spare == t.cells[k].current
  {
  }

  /** Hand the records to f one after the other, from a first user data on. */
  function UserDataOver<T, U>(records: seq<Record<T>>, f: Updater<T, U>, u: U): U
    decreases |records|
  {
    if records == [] then u else UserDataOver(records[1..], f, f(records[0], u).1)
  }

  lemma {:induction false} UserDataLast<T, U>(records: seq<Record<T>>, f: Updater<T, U>, u: U, r: Record<T>)
    ensures UserDataOver(records + [r], f, u) == f(r, UserDataOver(records, f, u)).1
    decreases |records|
  {
    var all := records + [r];
    if records == [] {
      assert all[0] == r && all[1..] == [];
    } else {
      assert all[0] == records[0] && all[1..] == records[1..] + [r];
      UserDataLast(records[1..], f, f(records[0], u).1, r);
    }
  }

  /** An enumeration visits the current records of keys 1, 2, 3 and so on, each once, in this order. */
  lemma {:induction false} UserDataInOrder<T, U>(cells: seq<Cell<T>>, f: Updater<T, U>, u: U, k: nat)
    requires 1 <= k <= |cells|
    ensures UserDataAt(cells, f, u, k) ==
      UserDataOver(seq(k - 1, i requires 0 <= i < k - 1 => cells[i + 1].current), f, u)
  {
    if k > 1 {
      UserDataInOrder(cells, f, u, k - 1);
      var before := seq(k - 2, i requires 0 <= i < k - 2 => cells[i + 1].current);
      var all := seq(k - 1, i requires 0 <= i < k - 1 => cells[i + 1].current);
      assert all == before + [cells[k - 1].current];
      UserDataLast(before, f, u, cells[k - 1].current);
    }
  }

  // ---------------------------------------------------------------------------------------------
  // The virtual clock

  function Ticks<T, U>(ops: seq<Op<T, U>>): nat
  {
    if ops == [] then 0
    else Ticks(ops[..|ops| - 1]) + if ops[|ops| - 1].OpTick? then 1 else 0
  }

  /** op is a clock-checked write that t lets past the check. */
  predicate PassesCheck<T, U>(t: Table<T>, op: Op<T, U>)
  {
    (op.OpAdd? || op.OpDel?) && op.checked && !ClockRefuses(t, true)
  }

  function CheckedWrites<T, U>(t: Table<T>, ops: seq<Op<T, U>>): nat
    requires WellFormed(t)
  {
    if ops == [] then 0
    else
      var before, op := ops[..|ops| - 1], ops[|ops| - 1];
      CheckedWrites(t, before) + if PassesCheck(Run(t, before), op) then 1 else 0
  }

  lemma ClockStep<T, U>(t: Table<T>, op: Op<T, U>)
    requires WellFormed(t)
    ensures var r := Step(t, op);
      && r.clock == (if op.OpTick? then (if t.clock == CLOCK_RANGE - 1 then 0 else t.clock + 1)
                     else if op.OpClear? then 0 else t.clock)
      && r.prv == (if op.OpClear? then 0 else if PassesCheck(t, op) then t.clock else t.prv)
  {
  }

  /** In every run, checked writes that pass never outnumber ticks, wrap-around included: after any
      run that ends with the clock not ahead, each passed write has used up a tick of its own. */
  lemma {:induction false} ChecksWithinTicks<T, U>(size: nat, zero: T, ops: seq<Op<T, U>>)
    ensures var t := Cleared(size, zero);
      CheckedWrites(t, ops) + (if Run(t, ops).clock > Run(t, ops).prv then 1 else 0) <= Ticks(ops)
  {
    hide Step;
    if ops != [] {
      ChecksWithinTicks(size, zero, ops[..|ops| - 1]);
      ClockStep(Run(Cleared(size, zero), ops[..|ops| - 1]), ops[|ops| - 1]);
    }
  }

  /** After a passed check and without a tick since, every further check is refused. */
  lemma {:induction false} NoPassWithoutTick<T, U>(t: Table<T>, w: Op<T, U>, ops: seq<Op<T, U>>, next: Op<T, U>)
    requires WellFormed(t) && PassesCheck(t, w)
    requires forall op :: op in ops ==> !op.OpTick?
    ensures var s := Run(Step(t, w), ops);
      s.clock <= s.prv && !PassesCheck(s, next)
  {
    hide Step;
    ClockStep(t, w);
    if ops != [] {
      var before, op := ops[..|ops| - 1], ops[|ops| - 1];
      assert op in ops;
      NoPassWithoutTick(t, w, before, next);
      ClockStep(Run(Step(t, w), before), op);
    }
  }

  /** Fewer than 2^64 ticks keep the previous-write counter at or below the clock. */
  lemma {:induction false} PreviousNotAhead<T, U>(size: nat, zero: T, ops: seq<Op<T, U>>)
    requires Ticks(ops) < CLOCK_RANGE
    ensures Run(Cleared(size, zero), ops).prv <= Run(Cleared(size, zero), ops).clock <= Ticks(ops)
  {
    hide Step;
    if ops != [] {
      PreviousNotAhead(size, zero, ops[..|ops| - 1]);
      ClockStep(Run(Cleared(size, zero), ops[..|ops| - 1]), ops[|ops| - 1]);
    }
  }

  /** A checked write right after a tick passes, as long as the 64-bit counter has not wrapped; so does every write
      that is not checked. Either is done for a key in range and throws for any other. */
  lemma TickLetsWrite<T, U>(size: nat, zero: T, ops: seq<Op<T, U>>, k: nat, checked: bool)
    requires Ticks(ops) + 1 < CLOCK_RANGE
    ensures Written(Ticked(Run(Cleared(size, zero), ops)), k, checked) == if k < size then Done else Threw
  {
    PreviousNotAhead(size, zero, ops);
  }

  /** A tick loses that order exactly when the 64-bit counter wraps after a checked write. */
  lemma TickKeepsOrder<T>(t: Table<T>)
    requires WellFormed(t) && t.prv <= t.clock
    ensures Ticked(t).prv <= Ticked(t).clock <==> t.clock != CLOCK_RANGE - 1 || t.prv == 0
  {
  }
}
