/**
 When a replayed cache is stale: the master database that writes the log, the rows that the cache answers from,
 and the exact condition, over every log the master can write, under which every answer is "not found" or the
 master's current value.
 */
module Staleness {
  import opened BinlogReplay
  import opened Bytes
  import opened Items
  import opened TableModel
  import opened Wrappers

  // ---------------------------------------------------------------------------------------------
  // The master database

  type Rowset = map<int, Option<seq<byte>>>

  /** Table contents by name, and the table that rows events currently refer to. */
  datatype Master = Master(tables: map<string, Rowset>, current: string)

  function TableNamed(m: Master, name: string): Rowset
  {
    if name in m.tables then m.tables[name] else map[]
  }

  /** Update events are pairs of images: the row before and after, possibly with another key. */
  function RowsMastered(t: Rowset, kind: RowKind, rows: seq<Row>): Rowset
  {
    if rows == [] then t
    else
      var m := |rows| - 1;
      match kind
      case WriteRows => RowsMastered(t, kind, rows[..m])[rows[m].key := rows[m].val]
      case UpdateRows =>
        if m == 0 then t
        else (RowsMastered(t, kind, rows[..m - 1]) - {rows[m - 1].key})[rows[m].key := rows[m].val]
      case DeleteRows => RowsMastered(t, kind, rows[..m]) - {rows[m].key}
  }

  /** The rows fit the contents: inserts are of new keys, the first image of every update is a row as it
      stands and the second one does not take another row's key, and deletes are of keys that are there. */
  predicate RowsFit(t: Rowset, kind: RowKind, rows: seq<Row>)
  {
    rows == [] ||
    var m := |rows| - 1;
    match kind
    case WriteRows => RowsFit(t, kind, rows[..m]) && rows[m].key !in RowsMastered(t, kind, rows[..m])
    case UpdateRows =>
      && 1 <= m && RowsFit(t, kind, rows[..m - 1])
      && var now := RowsMastered(t, kind, rows[..m - 1]);
         && rows[m - 1].key in now && now[rows[m - 1].key] == rows[m - 1].val
         && (rows[m].key == rows[m - 1].key || rows[m].key !in now)
    case DeleteRows => RowsFit(t, kind, rows[..m]) && rows[m].key in RowsMastered(t, kind, rows[..m])
  }

  function EventMastered(m: Master, e: Event): Master
  {
    match e
    case TableMap(name) => m.(current := name)
    case Rows(kind, rows) => m.(tables := m.tables[m.current := RowsMastered(TableNamed(m, m.current), kind, rows)])
    case Other => m
  }

  function MasterAfter(events: seq<Event>): Master
  {
    if events == [] then Master(map[], "")
    else EventMastered(MasterAfter(events[..|events| - 1]), events[|events| - 1])
  }

  predicate EventFits(m: Master, e: Event)
  {
    e.Rows? && NamesKvs(m.current) ==> RowsFit(TableNamed(m, m.current), e.kind, e.rows)
  }

  /** The log is one the master can have written, with any number of kvs-named tables. */
  predicate LogFits(events: seq<Event>)
  {
    forall i :: 0 <= i < |events| ==> EventFits(MasterAfter(events[..i]), events[i])
  }

  // ---------------------------------------------------------------------------------------------
  // Which logs the thread survives

  /** Every row that is looked at, which leaves out the first image of an update event, has a key in range. */
  predicate HandledInRange(size: nat, kind: RowKind, rows: seq<Row>)
  {
    forall i :: 0 <= i < |rows| && (kind != UpdateRows || i > 0) ==> TableKey(rows[i].key) < size
  }

  predicate EventInRange(size: nat, m: Master, e: Event)
  {
    e.Rows? && NamesKvs(m.current) ==> HandledInRange(size, e.kind, e.rows)
  }

  predicate LogInRange(size: nat, events: seq<Event>)
  {
    forall i :: 0 <= i < |events| ==> EventInRange(size, MasterAfter(events[..i]), events[i])
  }

  /** Every key in the log is a table key as it is. */
  predicate KeysIn(size: nat, m: Master, e: Event)
  {
    e.Rows? && NamesKvs(m.current) ==> forall r :: r in e.rows ==> 0 <= r.key < size
  }

  predicate LogKeysIn(size: nat, events: seq<Event>)
  {
    forall i :: 0 <= i < |events| ==> KeysIn(size, MasterAfter(events[..i]), events[i])
  }

  lemma RowSurvivesIff(p: Replica, kind: RowKind, first: bool, row: Row)
    ensures var q := RowApplied(p, kind, first, row);
      && (!q.dead <==> !p.dead && ((kind == UpdateRows && first) || TableKey(row.key) < |p.table.cells|))
      && q.mapped == p.mapped && |q.table.cells| == |p.table.cells|
  {
    hide TableKey, ItemOf;
  }

  lemma {:induction false} RowsSurviveIff(p: Replica, kind: RowKind, rows: seq<Row>)
    requires !p.dead
    ensures var q := RowsApplied(p, kind, rows);
      && (!q.dead <==> HandledInRange(|p.table.cells|, kind, rows))
      && q.mapped == p.mapped && |q.table.cells| == |p.table.cells|
  {
    if rows != [] {
      var m := |rows| - 1;
      RowsSurviveIff(p, kind, rows[..m]);
      RowSurvivesIff(RowsApplied(p, kind, rows[..m]), kind, m == 0, rows[m]);
      HandledPrefix(|p.table.cells|, kind, rows);
      hide RowApplied, TableKey, HandledInRange;
    }
  }

  lemma HandledPrefix(size: nat, kind: RowKind, rows: seq<Row>)
    requires rows != []
    ensures var m := |rows| - 1;
      HandledInRange(size, kind, rows) <==>
        HandledInRange(size, kind, rows[..m]) && ((kind == UpdateRows && m == 0) || TableKey(rows[m].key) < size)
  {
    hide TableKey;
    var m := |rows| - 1;
    assert forall i :: 0 <= i < m ==> rows[..m][i] == rows[i];
  }

  lemma LogPrefix(events: seq<Event>, size: nat)
    requires events != []
    ensures var before, e := events[..|events| - 1], events[|events| - 1];
      && (LogFits(events) <==> LogFits(before) && EventFits(MasterAfter(before), e))
      && (LogInRange(size, events) <==> LogInRange(size, before) && EventInRange(size, MasterAfter(before), e))
      && (LogKeysIn(size, events) <==> LogKeysIn(size, before) && KeysIn(size, MasterAfter(before), e))
  {
    hide EventFits, EventInRange, KeysIn, MasterAfter;
    var before := events[..|events| - 1];
    assert forall i :: 0 <= i < |before| ==> before[..i] == events[..i] && before[i] == events[i];
  }

  /** The thread survives a log exactly when every key it looks at is in range after the cut to 32 bits. */
  lemma {:induction false} SurvivesIff(size: nat, events: seq<Event>)
    ensures var p := Replay(size, events);
      && (!p.dead <==> LogInRange(size, events)) && |p.table.cells| == size
      && (!p.dead ==> (p.mapped <==> NamesKvs(MasterAfter(events).current)))
  {
    hide HandledInRange, RowsApplied, LogInRange;
    if events == [] {
      assert LogInRange(size, events) by { NothingInLog(size); }
    } else {
      var before, e := events[..|events| - 1], events[|events| - 1];
      SurvivesIff(size, before);
      LogPrefix(events, size);
      var p := Replay(size, before);
      if e.Rows? && !p.dead {
        RowsSurviveIff(p, e.kind, e.rows);
      } else if e.Rows? {
        DeadStays(p, e.kind, e.rows);
      }
    }
  }

  lemma NothingInLog(size: nat)
    ensures LogInRange(size, [])
  {
  }

  // ---------------------------------------------------------------------------------------------
  // Which rows the cache answers from

  /** A row the cache holds: the table and key it was inserted with, and whether an update has since given it
      another key without the cache noticing. */
  datatype Entry = Entry(table: string, key: int, val: Option<seq<byte>>, moved: bool)

  /** Rows by table key, whichever kvs-named table they come from. */
  type Merged = map<nat, Entry>

  /** The first row of an update event: its image before the update is skipped. */
  function FirstUpdated(c: Merged, name: string, before: int, after: int): Merged
  {
    var j := TableKey(before);
    var d := if before != after && j in c && c[j].table == name && c[j].key == before then
               c[j := c[j].(moved := true)]
             else c;
    d - {TableKey(after)}
  }

  function RowsMerged(c: Merged, name: string, kind: RowKind, rows: seq<Row>): Merged
  {
    if rows == [] then c
    else
      var m := |rows| - 1;
      match kind
      case WriteRows =>
        RowsMerged(c, name, kind, rows[..m])[TableKey(rows[m].key) := Entry(name, rows[m].key, rows[m].val, false)]
      case UpdateRows =>
        if m == 0 then c
        else if m == 1 then FirstUpdated(c, name, rows[0].key, rows[1].key)
        else RowsMerged(c, name, kind, rows[..m - 1]) - {TableKey(rows[m - 1].key), TableKey(rows[m].key)}
      case DeleteRows => RowsMerged(c, name, kind, rows[..m]) - {TableKey(rows[m].key)}
  }

  function MergedAfter(events: seq<Event>): Merged
  {
    if events == [] then map[]
    else
      var before, e := events[..|events| - 1], events[|events| - 1];
      var c, name := MergedAfter(before), MasterAfter(before).current;
      if e.Rows? && NamesKvs(name) then RowsMerged(c, name, e.kind, e.rows) else c
  }

  function Expected(c: Merged, k: nat): Option<seq<byte>>
  {
    if k in c then Shown(c[k].val) else None
  }

  /** p's table answers from c: every key in range reads as the blob of c's row. */
  ghost predicate Agrees(p: Replica, c: Merged)
  {
    forall k :: 0 <= k < |p.table.cells| ==> Answer(p.table, k) == Expected(c, k)
  }

  lemma AddAgrees(p: Replica, c: Merged, name: string, first: bool, row: Row)
    requires Agrees(p, c) && !RowApplied(p, WriteRows, first, row).dead
    ensures Agrees(RowApplied(p, WriteRows, first, row), c[TableKey(row.key) := Entry(name, row.key, row.val, false)])
  {
    hide TableKey, ItemOf, ValueOf;
    var p' := RowApplied(p, WriteRows, first, row);
    var c' := c[TableKey(row.key) := Entry(name, row.key, row.val, false)];
    forall k | 0 <= k < |p'.table.cells| ensures Answer(p'.table, k) == Expected(c', k) {
      assert Answer(p.table, k) == Expected(c, k);
    }
  }

  lemma DelAgrees(p: Replica, c: Merged, kind: RowKind, first: bool, row: Row)
    requires Agrees(p, c) && !RowApplied(p, kind, first, row).dead
    requires kind == DeleteRows || (kind == UpdateRows && !first)
    ensures Agrees(RowApplied(p, kind, first, row), c - {TableKey(row.key)})
  {
    hide TableKey, ItemOf, ValueOf;
    var p' := RowApplied(p, kind, first, row);
    forall k | 0 <= k < |p'.table.cells| ensures Answer(p'.table, k) == Expected(c - {TableKey(row.key)}, k) {
      assert Answer(p.table, k) == Expected(c, k);
    }
  }

  lemma MovedAgrees(p: Replica, c: Merged, j: nat)
    requires Agrees(p, c) && j in c
    ensures Agrees(p, c[j := c[j].(moved := true)])
  {
    hide Answer, ItemOf, ValueOf;
    forall k | 0 <= k < |p.table.cells| ensures Answer(p.table, k) == Expected(c[j := c[j].(moved := true)], k) {
      assert Answer(p.table, k) == Expected(c, k);
    }
  }

  /** The second image of an event's first update, after the first one was skipped. */
  lemma FirstUpdateAgrees(p: Replica, c: Merged, name: string, before: int, after: Row)
    requires Agrees(p, c) && !RowApplied(p, UpdateRows, false, after).dead
    ensures Agrees(RowApplied(p, UpdateRows, false, after), FirstUpdated(c, name, before, after.key))
  {
    var j := TableKey(before);
    hide Agrees, RowApplied, TableKey;
    if before != after.key && j in c && c[j].table == name && c[j].key == before {
      MovedAgrees(p, c, j);
      DelAgrees(p, c[j := c[j].(moved := true)], UpdateRows, false, after);
    } else {
      DelAgrees(p, c, UpdateRows, false, after);
    }
  }

  /** A later update of an event: both images are taken for changed rows. */
  lemma PairAgrees(p: Replica, c: Merged, before: Row, after: Row)
    requires Agrees(p, c) && !RowApplied(RowApplied(p, UpdateRows, false, before), UpdateRows, false, after).dead
    ensures Agrees(RowApplied(RowApplied(p, UpdateRows, false, before), UpdateRows, false, after),
                   c - {TableKey(before.key), TableKey(after.key)})
  {
    var q := RowApplied(p, UpdateRows, false, before);
    assert !q.dead;
    hide Agrees, RowApplied, TableKey;
    DelAgrees(p, c, UpdateRows, false, before);
    DelAgrees(q, c - {TableKey(before.key)}, UpdateRows, false, after);
    assert c - {TableKey(before.key)} - {TableKey(after.key)} == c - {TableKey(before.key), TableKey(after.key)};
  }

  lemma UpdatesApplied(p: Replica, rows: seq<Row>)
    requires |rows| >= 2
    ensures var m := |rows| - 1;
      RowsApplied(p, UpdateRows, rows) == RowApplied(
        if m == 1 then p else RowApplied(RowsApplied(p, UpdateRows, rows[..m - 1]), UpdateRows, false, rows[m - 1]),
        UpdateRows, false, rows[m])
  {
    var m := |rows| - 1;
    assert rows[..m][..m - 1] == rows[..m - 1];
    assert RowsApplied(p, UpdateRows, rows[..m]) ==
      RowApplied(RowsApplied(p, UpdateRows, rows[..m - 1]), UpdateRows, m == 1, rows[m - 1]);
    if m == 1 {
      assert rows[..0] == [] && RowsApplied(p, UpdateRows, []) == p;
    }
  }

  /** Whatever rows event is replayed, the table answers from the merged rows after it. */
  lemma {:induction false} RowsAgree(p: Replica, c: Merged, name: string, kind: RowKind, rows: seq<Row>)
    requires Agrees(p, c) && !RowsApplied(p, kind, rows).dead && (kind == UpdateRows ==> |rows| % 2 == 0)
    ensures Agrees(RowsApplied(p, kind, rows), RowsMerged(c, name, kind, rows))
  {
    hide RowApplied, Agrees, TableKey, FirstUpdated;
    if rows != [] {
      var m := |rows| - 1;
      if kind == UpdateRows {
        UpdatesApplied(p, rows);
        if m == 1 {
          FirstUpdateAgrees(p, c, name, rows[0].key, rows[1]);
        } else {
          var q := RowsApplied(p, kind, rows[..m - 1]);
          RowDead(q, kind, false, rows[m - 1]);
          RowDead(RowApplied(q, kind, false, rows[m - 1]), kind, false, rows[m]);
          RowsAgree(p, c, name, kind, rows[..m - 1]);
          PairAgrees(q, RowsMerged(c, name, kind, rows[..m - 1]), rows[m - 1], rows[m]);
        }
      } else {
        var q := RowsApplied(p, kind, rows[..m]);
        RowDead(q, kind, m == 0, rows[m]);
        RowsAgree(p, c, name, kind, rows[..m]);
        if kind == WriteRows {
          AddAgrees(q, RowsMerged(c, name, kind, rows[..m]), name, m == 0, rows[m]);
        } else {
          DelAgrees(q, RowsMerged(c, name, kind, rows[..m]), kind, m == 0, rows[m]);
        }
      }
    }
  }

  lemma RowDead(p: Replica, kind: RowKind, first: bool, row: Row)
    ensures p.dead ==> RowApplied(p, kind, first, row) == p
  {
  }

  lemma {:induction false} FittingUpdatesPair(t: Rowset, rows: seq<Row>)
    requires RowsFit(t, UpdateRows, rows)
    ensures |rows| % 2 == 0
  {
    if rows != [] {
      FittingUpdatesPair(t, rows[..|rows| - 2]);
    }
  }

  /** Replaying any log that fits and that the thread survives: GET answers exactly from the merged rows. */
  lemma {:induction false} ReplayAnswers(size: nat, events: seq<Event>)
    requires LogFits(events) && LogInRange(size, events)
    ensures Agrees(Replay(size, events), MergedAfter(events)) && |Replay(size, events).table.cells| == size
  {
    SurvivesIff(size, events);
    if events != [] {
      hide LogFits, LogInRange, RowsFit, NamesKvs, RowsMerged, Agrees, RowsApplied;
      var before, e := events[..|events| - 1], events[|events| - 1];
      LogPrefix(events, size);
      SurvivesIff(size, before);
      ReplayAnswers(size, before);
      var m := MasterAfter(before);
      if e.Rows? && NamesKvs(m.current) {
        if e.kind == UpdateRows {
          FittingUpdatesPair(TableNamed(m, m.current), e.rows);
        }
        RowsAgree(Replay(size, before), MergedAfter(before), m.current, e.kind, e.rows);
      } else {
        SameTableAgrees(Replay(size, before), Replay(size, events), MergedAfter(before));
      }
    } else {
      assert Agrees(Replay(size, events), map[]);
    }
  }

  lemma SameTableAgrees(p: Replica, q: Replica, c: Merged)
    requires Agrees(p, c) && q.table == p.table
    ensures Agrees(q, c)
  {
  }

  // ---------------------------------------------------------------------------------------------
  // What the master says about the merged rows

  /** Each of c's rows from table `name` is still there, or has been moved and its key is gone. */
  predicate Holds(c: Merged, name: string, t: Rowset)
  {
    forall j :: j in c ==> TableKey(c[j].key) == j && (c[j].table == name ==>
      if c[j].moved then c[j].key !in t else c[j].key in t && t[c[j].key] == c[j].val)
  }

  lemma {:induction false} RowsHold(c: Merged, name: string, t: Rowset, kind: RowKind, rows: seq<Row>)
    requires Holds(c, name, t) && RowsFit(t, kind, rows)
    ensures Holds(RowsMerged(c, name, kind, rows), name, RowsMastered(t, kind, rows))
  {
    hide TableKey;
    if rows != [] {
      var m := |rows| - 1;
      if kind != UpdateRows {
        RowsHold(c, name, t, kind, rows[..m]);
      } else if m == 1 {
        assert rows[..0] == [] && RowsMastered(t, kind, []) == t;
      } else {
        RowsHold(c, name, t, kind, rows[..m - 1]);
      }
    }
  }

  lemma {:induction false} OtherTablesHold(c: Merged, name: string, kind: RowKind, rows: seq<Row>, other: string,
                                           t: Rowset)
    requires Holds(c, other, t) && other != name
    ensures Holds(RowsMerged(c, name, kind, rows), other, t)
  {
    hide TableKey;
    if rows != [] {
      OtherTablesHold(c, name, kind, rows[..|rows| - 1], other, t);
      if kind == UpdateRows && |rows| >= 2 {
        OtherTablesHold(c, name, kind, rows[..|rows| - 2], other, t);
      }
    }
  }

  /** After any log that fits, every merged row stands in its own table as inserted, unless it was moved; then
      that table has no row of its key. */
  lemma {:induction false} MergedHolds(events: seq<Event>, name: string)
    requires LogFits(events)
    ensures Holds(MergedAfter(events), name, TableNamed(MasterAfter(events), name))
  {
    if events != [] {
      hide LogFits, RowsFit, NamesKvs, RowsMerged, RowsMastered, Holds;
      var before, e := events[..|events| - 1], events[|events| - 1];
      LogPrefix(events, 0);
      MergedHolds(before, name);
      var m, c := MasterAfter(before), MergedAfter(before);
      if e.Rows? && NamesKvs(m.current) {
        if m.current == name {
          RowsHold(c, name, TableNamed(m, name), e.kind, e.rows);
        } else {
          OtherTablesHold(c, m.current, e.kind, e.rows, name, TableNamed(m, name));
        }
      } else if e.Rows? && m.current == name {
        ForeignHold(before, name, TableNamed(m, name), TableNamed(MasterAfter(events), name));
      }
    }
  }

  lemma ForeignHold(events: seq<Event>, name: string, t: Rowset, t': Rowset)
    requires !NamesKvs(name) && Holds(MergedAfter(events), name, t)
    ensures Holds(MergedAfter(events), name, t')
  {
    hide NamesKvs, TableKey;
    EntriesNamed(events);
  }

  lemma {:induction false} RowsNamed(c: Merged, name: string, kind: RowKind, rows: seq<Row>)
    ensures var d := RowsMerged(c, name, kind, rows);
      forall j :: j in d ==> d[j].table == name || (j in c && d[j].table == c[j].table)
  {
    hide TableKey;
    if rows != [] {
      RowsNamed(c, name, kind, rows[..|rows| - 1]);
      if kind == UpdateRows && |rows| >= 2 {
        RowsNamed(c, name, kind, rows[..|rows| - 2]);
      }
    }
  }

  lemma {:induction false} EntriesNamed(events: seq<Event>)
    ensures forall j :: j in MergedAfter(events) ==> NamesKvs(MergedAfter(events)[j].table)
  {
    hide NamesKvs, RowsMerged;
    if events != [] {
      var before, e := events[..|events| - 1], events[|events| - 1];
      EntriesNamed(before);
      if e.Rows? {
        RowsNamed(MergedAfter(before), MasterAfter(before).current, e.kind, e.rows);
      }
    }
  }

  // ---------------------------------------------------------------------------------------------
  // Staleness

  /** An answer that is "not found" or exactly the master's current value. */
  predicate NotStale(answer: Option<seq<byte>>, t: Rowset, k: nat)
  {
    answer == None || (k in t && answer == t[k])
  }

  ghost predicate NeverStale(size: nat, name: string, events: seq<Event>)
  {
    forall k :: 0 <= k < size ==>
      NotStale(Answer(Replay(size, events).table, k), TableNamed(MasterAfter(events), name), k)
  }

  /** A merged row at k that shows nothing wrong about table `name`. The table's own row at k must have a length
      the record can hold, and show nothing once it was moved; a row that comes from another table, or whose key
      was cut to k, must show nothing or happen to show what the table holds at k. */
  predicate Harmless(e: Entry, name: string, t: Rowset, k: nat)
  {
    if e.table == name && e.key == k then
      if e.moved then Hidden(e.val) else Storable(e.val)
    else
      Hidden(e.val) || (k in t && t[k] == Shown(e.val))
  }

  /** For every log, every kvs-named table and every key: the answer is not stale exactly when there is no merged
      row or it is harmless; a row of the table's own with 1 to 1024 bytes that was not moved is always found. */
  lemma NotStaleIff(size: nat, name: string, events: seq<Event>, k: nat)
    requires LogFits(events) && LogInRange(size, events) && k < size
    ensures var c, t := MergedAfter(events), TableNamed(MasterAfter(events), name);
      var answer := Answer(Replay(size, events).table, k);
      && (NotStale(answer, t, k) <==> (k in c ==> Harmless(c[k], name, t, k)))
      && (k in c && c[k].val.Some? && 1 <= |c[k].val.value| <= ITEM_LEN ==> answer == c[k].val)
  {
    hide LogFits, LogInRange, MergedAfter, MasterAfter, Replay, Shown, Answer;
    ReplayAnswers(size, events);
    MergedHolds(events, name);
    var c := MergedAfter(events);
    assert Answer(Replay(size, events).table, k) == Expected(c, k);
    if k in c {
      StoredReadsBack(c[k].val);
    }
  }

  /** Every merged row in range is harmless to a table. */
  predicate AllHarmless(size: nat, c: Merged, name: string, t: Rowset)
  {
    forall k :: 0 <= k < size && k in c ==> Harmless(c[k], name, t, k)
  }

  /** The cache is never stale about a table exactly when every merged row is harmless to it. */
  lemma NeverStaleIff(size: nat, name: string, events: seq<Event>)
    requires LogFits(events) && LogInRange(size, events)
    ensures var c, t := MergedAfter(events), TableNamed(MasterAfter(events), name);
      NeverStale(size, name, events) <==> AllHarmless(size, c, name, t)
  {
    hide LogFits, LogInRange, Replay, Answer, MasterAfter, MergedAfter, NotStale, Harmless;
    var c, t := MergedAfter(events), TableNamed(MasterAfter(events), name);
    forall k | 0 <= k < size
      ensures NotStale(Answer(Replay(size, events).table, k), t, k) <==> (k in c ==> Harmless(c[k], name, t, k)) {
      NotStaleIff(size, name, events, k);
    }
    if NeverStale(size, name, events) {
      forall k | 0 <= k < size && k in c ensures Harmless(c[k], name, t, k) {
        assert NotStale(Answer(Replay(size, events).table, k), t, k);
      }
      assert AllHarmless(size, c, name, t);
    }
    if AllHarmless(size, c, name, t) {
      forall k | 0 <= k < size ensures NotStale(Answer(Replay(size, events).table, k), t, k) {
        assert k in c ==> Harmless(c[k], name, t, k);
      }
      assert NeverStale(size, name, events);
    }
  }

  // ---------------------------------------------------------------------------------------------
  // Logs with a single kvs-named table

  predicate OneTable(name: string, events: seq<Event>)
  {
    forall e :: e in events && e.TableMap? && NamesKvs(e.name) ==> e.name == name
  }

  lemma KeysInRange(size: nat, events: seq<Event>)
    requires size <= U32 && LogKeysIn(size, events)
    ensures LogInRange(size, events)
  {
    hide MasterAfter;
    forall i | 0 <= i < |events| ensures EventInRange(size, MasterAfter(events[..i]), events[i]) {
      assert KeysIn(size, MasterAfter(events[..i]), events[i]);
    }
  }

  lemma {:induction false} CurrentNamed(name: string, events: seq<Event>)
    requires OneTable(name, events)
    ensures NamesKvs(MasterAfter(events).current) ==> MasterAfter(events).current == name
  {
    if events != [] {
      hide NamesKvs;
      var before, e := events[..|events| - 1], events[|events| - 1];
      assert e in events && forall d :: d in before ==> d in events;
      CurrentNamed(name, before);
    }
  }

  /** Every merged row comes from table `name`, with the key it is found under. */
  predicate Own(c: Merged, name: string)
  {
    forall j :: j in c ==> c[j].table == name && c[j].key == j
  }

  lemma {:induction false} RowsOwn(size: nat, c: Merged, name: string, kind: RowKind, rows: seq<Row>)
    requires size <= U32 && Own(c, name) && forall r :: r in rows ==> 0 <= r.key < size
    ensures Own(RowsMerged(c, name, kind, rows), name)
  {
    if rows != [] {
      var m := |rows| - 1;
      assert rows[m] in rows && forall r :: r in rows[..m] ==> r in rows;
      RowsOwn(size, c, name, kind, rows[..m]);
      if kind == UpdateRows && |rows| >= 2 {
        assert forall r :: r in rows[..m - 1] ==> r in rows;
        RowsOwn(size, c, name, kind, rows[..m - 1]);
      }
    }
  }

  lemma {:induction false} OwnEntries(size: nat, name: string, events: seq<Event>)
    requires size <= U32 && OneTable(name, events) && LogKeysIn(size, events)
    ensures Own(MergedAfter(events), name)
  {
    if events != [] {
      hide NamesKvs, RowsMerged, Own, LogKeysIn, MasterAfter;
      var before, e := events[..|events| - 1], events[|events| - 1];
      LogPrefix(events, size);
      assert forall d :: d in before ==> d in events;
      OwnEntries(size, name, before);
      CurrentNamed(name, before);
      if e.Rows? && NamesKvs(MasterAfter(before).current) {
        RowsOwn(size, MergedAfter(before), name, e.kind, e.rows);
      }
    }
  }

  /** With one kvs-named table and keys in the table's range, the cache is never stale exactly when each merged
      row has a length the record can hold and, if it was moved, one that it shows as absent. */
  lemma OneTableIff(size: nat, name: string, events: seq<Event>)
    requires size <= U32 && LogFits(events) && OneTable(name, events) && LogKeysIn(size, events)
    ensures LogInRange(size, events)
    ensures var c := MergedAfter(events);
      NeverStale(size, name, events) <==>
      forall k :: 0 <= k < size && k in c ==> if c[k].moved then Hidden(c[k].val) else Storable(c[k].val)
  {
    hide LogFits, LogKeysIn, LogInRange, OneTable, MergedAfter, MasterAfter, NeverStale, Hidden, Storable, Shown;
    KeysInRange(size, events);
    NeverStaleIff(size, name, events);
    OwnEntries(size, name, events);
  }

  predicate InsertsStorable(e: Event)
  {
    e.Rows? && e.kind == WriteRows ==> forall r :: r in e.rows ==> Storable(r.val)
  }

  /** The first row of an update event keeps its key; for the others both images are looked at. */
  predicate FirstKeepsKey(e: Event)
  {
    e.Rows? && e.kind == UpdateRows && |e.rows| >= 2 ==> e.rows[0].key == e.rows[1].key
  }

  predicate Clean(c: Merged)
  {
    forall j :: j in c ==> Storable(c[j].val) && !c[j].moved
  }

  lemma {:induction false} RowsClean(c: Merged, name: string, kind: RowKind, rows: seq<Row>)
    requires Clean(c) && InsertsStorable(Rows(kind, rows)) && FirstKeepsKey(Rows(kind, rows))
    ensures Clean(RowsMerged(c, name, kind, rows))
  {
    hide Storable, TableKey;
    if rows != [] {
      var m := |rows| - 1;
      assert rows[m] in rows && forall r :: r in rows[..m] ==> r in rows;
      if kind != UpdateRows {
        RowsClean(c, name, kind, rows[..m]);
      } else if m > 1 {
        RowsClean(c, name, kind, rows[..m - 1]);
      }
    }
  }

  lemma {:induction false} AnswersClean(events: seq<Event>)
    requires forall e :: e in events ==> InsertsStorable(e) && FirstKeepsKey(e)
    ensures Clean(MergedAfter(events))
  {
    hide InsertsStorable, FirstKeepsKey, RowsMerged, NamesKvs;
    if events != [] {
      var before, e := events[..|events| - 1], events[|events| - 1];
      assert e in events && forall d :: d in before ==> d in events;
      AnswersClean(before);
      if e.Rows? {
        RowsClean(MergedAfter(before), MasterAfter(before).current, e.kind, e.rows);
      }
    }
  }

  /** Replaying any log of one kvs-named table whose inserted values have at most 1024 bytes, and whose update
      events do not change the key of their first row, keeps the cache never stale; a value of 1 to 1024 bytes
      inserted and neither updated nor deleted since is always found. */
  lemma ReplayNeverStale(size: nat, name: string, events: seq<Event>, k: nat)
    requires size <= U32 && LogFits(events) && OneTable(name, events) && LogKeysIn(size, events) && k < size
    requires forall e :: e in events ==> InsertsStorable(e) && FirstKeepsKey(e)
    ensures NeverStale(size, name, events)
    ensures var c := MergedAfter(events);
      k in c && c[k].val.Some? && 1 <= |c[k].val.value| <= ITEM_LEN ==>
        Answer(Replay(size, events).table, k) == c[k].val
  {
    hide LogFits, LogKeysIn, LogInRange, OneTable, InsertsStorable, FirstKeepsKey, MergedAfter, MasterAfter;
    hide Replay, NeverStale;
    AnswersClean(events);
    OneTableIff(size, name, events);
    NotStaleIff(size, name, events, k);
  }

  /** An update never refreshes the cache: GET answers "not found" for the row's key right after. */
  lemma UpdateHides(size: nat, events: seq<Event>, before: Row, after: Row)
    requires LogFits(events + [Rows(UpdateRows, [before, after])])
    requires LogInRange(size, events + [Rows(UpdateRows, [before, after])]) && NamesKvs(MasterAfter(events).current)
    ensures TableKey(after.key) < size
    ensures Answer(Replay(size, events + [Rows(UpdateRows, [before, after])]).table, TableKey(after.key)) == None
  {
    hide TableKey, Answer;
    var log := events + [Rows(UpdateRows, [before, after])];
    assert log[..|events|] == events;
    assert EventInRange(size, MasterAfter(log[..|events|]), log[|events|]);
    assert TableKey([before, after][1].key) < size;
    ReplayAnswers(size, log);
    assert TableKey(after.key) !in MergedAfter(log);
    assert Answer(Replay(size, log).table, TableKey(after.key)) == Expected(MergedAfter(log), TableKey(after.key));
  }

  // ---------------------------------------------------------------------------------------------
  // Logs that do make the cache stale

  lemma Appended(events: seq<Event>, e: Event, size: nat)
    ensures var log := events + [e];
      && MasterAfter(log) == EventMastered(MasterAfter(events), e)
      && MergedAfter(log) == (var c, name := MergedAfter(events), MasterAfter(events).current;
           if e.Rows? && NamesKvs(name) then RowsMerged(c, name, e.kind, e.rows) else c)
      && (LogFits(log) <==> LogFits(events) && EventFits(MasterAfter(events), e))
      && (LogInRange(size, log) <==> LogInRange(size, events) && EventInRange(size, MasterAfter(events), e))
      && (LogKeysIn(size, log) <==> LogKeysIn(size, events) && KeysIn(size, MasterAfter(events), e))
  {
    hide LogFits, LogInRange, LogKeysIn, EventFits, EventInRange, KeysIn, NamesKvs, RowsMerged, EventMastered;
    var log := events + [e];
    assert log[..|log| - 1] == events;
    LogPrefix(log, size);
  }

  /** One inserted row, from an empty log or after another table map. */
  lemma Inserted(events: seq<Event>, name: string, row: Row, size: nat)
    requires NamesKvs(name) && TableKey(row.key) < size
    requires LogFits(events) && LogInRange(size, events) && row.key !in TableNamed(MasterAfter(events), name)
    ensures var m, log := MasterAfter(events), events + [TableMap(name)] + [Rows(WriteRows, [row])];
      && LogFits(log) && LogInRange(size, log)
      && (LogKeysIn(size, events) && 0 <= row.key < size ==> LogKeysIn(size, log))
      && MasterAfter(log) == Master(m.tables[name := TableNamed(m, name)[row.key := row.val]], name)
      && MergedAfter(log) == MergedAfter(events)[TableKey(row.key) := Entry(name, row.key, row.val, false)]
  {
    hide LogFits, LogInRange, LogKeysIn, NamesKvs, TableKey;
    var e1, e2 := TableMap(name), Rows(WriteRows, [row]);
    Appended(events, e1, size);
    Appended(events + [e1], e2, size);
    var t := TableNamed(MasterAfter(events), name);
    assert [row][..0] == [] && RowsMastered(t, WriteRows, []) == t && RowsFit(t, WriteRows, []);
    assert RowsFit(t, WriteRows, [row]);
    assert HandledInRange(size, WriteRows, [row]);
    assert RowsMerged(MergedAfter(events), name, WriteRows, []) == MergedAfter(events);
  }

  /** The log that inserts one row into a table. */
  function InsertOf(name: string, row: Row): seq<Event>
  {
    [] + [TableMap(name)] + [Rows(WriteRows, [row])]
  }

  lemma InsertedFirst(name: string, row: Row, size: nat)
    requires NamesKvs(name) && TableKey(row.key) < size
    ensures var log, j := InsertOf(name, row), TableKey(row.key);
      && LogFits(log) && LogInRange(size, log) && (0 <= row.key < size ==> LogKeysIn(size, log))
      && MasterAfter(log) == Master(map[name := map[row.key := row.val]], name)
      && MergedAfter(log) == map[j := Entry(name, row.key, row.val, false)]
  {
    hide TableKey, NamesKvs;
    assert MasterAfter([]) == Master(map[], "") && MergedAfter([]) == map[];
    Inserted([], name, row, size);
  }

  /** The name test is a prefix test, so two kvs-named tables share the cache: after these events, which the
      master can have written, GET answers with the row of the second table for a key of the first. */
  lemma SecondTableMakesStale() returns (events: seq<Event>)
    ensures LogFits(events) && LogKeysIn(64, events) && LogInRange(64, events)
    ensures forall e :: e in events ==> InsertsStorable(e) && FirstKeepsKey(e)
    ensures !NeverStale(64, "kvs", events)
  {
    hide LogFits, LogKeysIn, LogInRange, NeverStale, MasterAfter, MergedAfter, RowsMastered, RowsMerged, ItemOf;
    var a, b := Row(1, 5, Some([1])), Row(1, 5, Some([2]));
    var first := InsertOf("kvs", a);
    events := first + [TableMap("kvs_old")] + [Rows(WriteRows, [b])];
    InsertedFirst("kvs", a, 64);
    Inserted(first, "kvs_old", b, 64);
    NeverStaleIff(64, "kvs", events);
    StoredReadsBack(b.val);
    assert !Harmless(MergedAfter(events)[5], "kvs", TableNamed(MasterAfter(events), "kvs"), 5);
  }

  /** Moving a table's only row to another key, seen by the master and by the cache. */
  lemma MovedOnly(name: string, a: Row, b: Row)
    requires a.key != b.key && TableKey(a.key) != TableKey(b.key)
    ensures var t, rows, e := map[a.key := a.val], [a, b], Entry(name, a.key, a.val, false);
      && RowsFit(t, UpdateRows, rows) && RowsMastered(t, UpdateRows, rows) == map[b.key := b.val]
      && RowsMerged(map[TableKey(a.key) := e], name, UpdateRows, rows) == map[TableKey(a.key) := e.(moved := true)]
  {
    hide TableKey;
    var t, rows := map[a.key := a.val], [a, b];
    assert rows[..0] == [] && RowsFit(t, UpdateRows, []) && RowsMastered(t, UpdateRows, []) == t;
    assert t - {a.key} == map[];
  }

  /** An update that changes its row's key leaves the old key's entry: GET still answers with a row that the
      master no longer has, although there is one table and every value and key fits. */
  lemma MovedRowMakesStale() returns (events: seq<Event>)
    ensures LogFits(events) && LogKeysIn(64, events) && OneTable("kvs", events)
    ensures forall e :: e in events ==> InsertsStorable(e)
    ensures !NeverStale(64, "kvs", events)
  {
    hide LogFits, LogKeysIn, LogInRange, NeverStale, MasterAfter, MergedAfter, RowsMastered, RowsMerged;
    hide RowsFit, ItemOf;
    var a, b := Row(1, 5, Some([1])), Row(1, 6, Some([1]));
    var first, update := InsertOf("kvs", a), Rows(UpdateRows, [a, b]);
    events := first + [update];
    InsertedFirst("kvs", a, 64);
    Appended(first, update, 64);
    MovedOnly("kvs", a, b);
    assert MasterAfter(events) == Master(map["kvs" := map[6 := b.val]], "kvs");
    NeverStaleIff(64, "kvs", events);
    assert !Harmless(MergedAfter(events)[5], "kvs", TableNamed(MasterAfter(events), "kvs"), 5);
  }

  /** A key of 2^32 or more is cut to the key it shows up under, where the master has no row. */
  lemma CutKeyMakesStale() returns (events: seq<Event>)
    ensures LogFits(events) && LogInRange(64, events) && OneTable("kvs", events)
    ensures forall e :: e in events ==> InsertsStorable(e) && FirstKeepsKey(e)
    ensures !NeverStale(64, "kvs", events)
  {
    hide LogFits, LogInRange, NeverStale, MasterAfter, MergedAfter, ItemOf;
    var a := Row(1, U32 + 5, Some([1]));
    events := InsertOf("kvs", a);
    InsertedFirst("kvs", a, 64);
    NeverStaleIff(64, "kvs", events);
    assert !Harmless(MergedAfter(events)[5], "kvs", TableNamed(MasterAfter(events), "kvs"), 5);
  }
}
