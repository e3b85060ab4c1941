/**
 The binlog thread: it replays the master database's row events into the lookup table. Only
 inserts fill an entry; updates and deletes invalidate it, because the record decoded from a row
 is zeroed first and a zero status word reads as "valid flag not set" at the update branch.
 */
module BinlogReplay {
  import opened Bytes
  import opened TableModel
  import opened Items
  import opened LookupTables
  import opened Wrappers

  datatype Row = Row(id: int, key: int, val: Option<seq<byte>>)

  datatype RowKind = WriteRows | UpdateRows | DeleteRows

  /** A rows event belongs to the table named by the last table-map event before it. */
  datatype Event = TableMap(name: string) | Rows(kind: RowKind, rows: seq<Row>) | Other

  function Lower(c: char): char
  {
    if 'A' <= c <= 'Z' then c - 'A' + 'a' else c
  }

  /** strncasecmp("kvs", name, 3) == 0 */
  predicate NamesKvs(name: string)
  {
    3 <= |name| && Lower(name[0]) == 'k' && Lower(name[1]) == 'v' && Lower(name[2]) == 's'
  }

  /** The conversion of the decoded 64-bit key to the table's unsigned 32-bit key. */
  function TableKey(key: int): (k: nat)
    ensures k < U32 && (key - k) % U32 == 0
  {
    key % U32
  }

  // ---------------------------------------------------------------------------------------------
  // What the replay does to the table

  /** `mapped`: the last table map named a kvs table. `dead`: a key out of range threw. */
  datatype Replica = Replica(table: ItemTable, mapped: bool, dead: bool)

  function RowApplied(p: Replica, kind: RowKind, first: bool, row: Row): Replica
  {
    var k := TableKey(row.key);
    if p.dead || (kind == UpdateRows && first) then p
    else if k >= |p.table.cells| then p.(dead := true)
    else if kind == WriteRows then p.(table := Added(p.table, k, ItemOf(row.val), false))
    else p.(table := Deleted(p.table, k, false))
  }

  function RowsApplied(p: Replica, kind: RowKind, rows: seq<Row>): Replica
  {
    if rows == [] then p
    else
      var m := |rows| - 1;
      RowApplied(RowsApplied(p, kind, rows[..m]), kind, m == 0, rows[m])
  }

  function EventApplied(p: Replica, e: Event): Replica
  {
    if p.dead then p else
    match e
    case TableMap(name) => p.(mapped := NamesKvs(name))
    case Rows(kind, rows) => if p.mapped then RowsApplied(p, kind, rows) else p
    case Other => p
  }

  function Replay(size: nat, events: seq<Event>): Replica
  {
    if events == [] then Replica(Cleared(size, Blank()), false, false)
    else EventApplied(Replay(size, events[..|events| - 1]), events[|events| - 1])
  }

  // ---------------------------------------------------------------------------------------------
  // The thread itself

  class BinlogReader {
    const table: LookupTable<Item>
    var mapped: bool
    var dead: bool

    ghost predicate Valid()
      reads this, table.Repr()
    {
      this !in table.Repr() && table.Valid()
    }

    ghost function View(): Replica
      requires Valid()
      reads this, table.Repr()
    {
      Replica(table.View(), mapped, dead)
    }

    constructor (size: nat)
      requires 0 < size && size % 64 == 0
      ensures Valid() && fresh(table.Repr()) && View() == Replay(size, [])
    {
      table := new LookupTable<Item>(size, Blank());
      mapped, dead := false, false;
    }

    /** One row; updateIdx counts the rows of an update event seen so far. */
    method OnRow(kind: RowKind, row: Row, updateIdx: nat) returns (updateIdx': nat)
      requires Valid() && !dead
      modifies this, table.Repr()
      ensures Valid() && View() == RowApplied(old(View()), kind, updateIdx == 0, row)
      ensures updateIdx' == if kind == UpdateRows then updateIdx + 1 else updateIdx
    {
      updateIdx' := updateIdx;
      var itm := ItemOf(row.val);
      var r := Done;
      if kind == WriteRows {
        r, itm := table.Add(TableKey(row.key), itm, false);
      } else if kind == UpdateRows {
        updateIdx' := updateIdx + 1;
        if updateIdx != 0 {
          if itm.valid == 0 {
            r := table.Del(TableKey(row.key), false);
          } else {
            assert false; // refreshing the entry: never reached
          }
        }
      } else {
        r := table.Del(TableKey(row.key), false);
      }
      dead := r == Threw;
    }

    /** The loop over the rows of one event. */
    method OnRows(kind: RowKind, rows: seq<Row>)
      requires Valid() && !dead && rows != []
      modifies this, table.Repr()
      ensures Valid() && View() == RowsApplied(old(View()), kind, rows)
    {
      hide RowApplied;
      var updateIdx := 0;
      var i := 0;
      while i < |rows|
        invariant Valid() && 0 <= i <= |rows| && !dead
        invariant kind == UpdateRows ==> updateIdx == i
        invariant View() == RowsApplied(old(View()), kind, rows[..i])
      {
        assert rows[..i + 1][..i] == rows[..i];
        UpdateIndexOnlyForUpdates(View(), kind, updateIdx == 0, i == 0, rows[i]);
        updateIdx := OnRow(kind, rows[i], updateIdx);
        i := i + 1;
        if dead {
          RowsAfterDeath(old(View()), kind, rows, i);
          return;
        }
      }
      assert rows[..|rows|] == rows;
    }

    method OnEvent(e: Event)
      requires Valid() && !dead && (e.Rows? ==> e.rows != [])
      modifies this, table.Repr()
      ensures Valid() && View() == EventApplied(old(View()), e)
    {
      match e
      case TableMap(name) =>
        mapped := NamesKvs(name);
      case Rows(kind, rows) =>
        if mapped {
          OnRows(kind, rows);
        }
      case Other =>
    }

    /** Replay a log from its start; an exception on a key out of range ends the thread. */
    method BinLogLoop(events: seq<Event>)
      requires Valid() && View() == Replay(table.size, [])
      requires forall e :: e in events && e.Rows? ==> e.rows != []
      modifies this, table.Repr()
      ensures Valid() && View() == Replay(table.size, events)
    {
      for i := 0 to |events|
        invariant Valid() && View() == Replay(table.size, events[..i])
      {
        assert events[..i + 1][..i] == events[..i];
        if !dead {
          OnEvent(events[i]);
        }
      }
      assert events[..|events|] == events;
    }
  }

  lemma UpdateIndexOnlyForUpdates(p: Replica, kind: RowKind, a: bool, b: bool, row: Row)
    requires kind == UpdateRows ==> a == b
    ensures RowApplied(p, kind, a, row) == RowApplied(p, kind, b, row)
  {
  }

  lemma {:induction false} RowsAfterDeath(p: Replica, kind: RowKind, rows: seq<Row>, i: nat)
    requires i <= |rows| && RowsApplied(p, kind, rows[..i]).dead
    ensures RowsApplied(p, kind, rows) == RowsApplied(p, kind, rows[..i])
    decreases |rows|
  {
    if i == |rows| {
      assert rows[..i] == rows;
    } else {
      var m := |rows| - 1;
      assert rows[..m][..i] == rows[..i];
      RowsAfterDeath(p, kind, rows[..m], i);
    }
  }

  lemma {:induction false} DeadStays(p: Replica, kind: RowKind, rows: seq<Row>)
    requires p.dead
    ensures RowsApplied(p, kind, rows) == p
  {
    if rows != [] {
      DeadStays(p, kind, rows[..|rows| - 1]);
    }
  }

  /** Rows are replayed exactly when the name of their table starts with the letters k, v, s in either case; the
      rows of any other table change nothing. */
  lemma ForeignRowsIgnored(size: nat, events: seq<Event>, name: string, kind: RowKind, rows: seq<Row>)
    ensures var p := Replay(size, events);
      Replay(size, events + [TableMap(name), Rows(kind, rows)]).table ==
        if |name| >= 3 && name[0] in "kK" && name[1] in "vV" && name[2] in "sS" then
          RowsApplied(p.(mapped := true), kind, rows).table
        else p.table
  {
    hide RowsApplied, ItemOf;
    var log := events + [TableMap(name), Rows(kind, rows)];
    assert log[..|log| - 1] == events + [TableMap(name)];
    assert (events + [TableMap(name)])[..|events|] == events;
    var p := Replay(size, events);
    if p.dead {
      DeadStays(p.(mapped := true), kind, rows);
    } else {
      NameLetters(name);
    }
  }

  lemma NameLetters(name: string)
    ensures NamesKvs(name) <==> |name| >= 3 && name[0] in "kK" && name[1] in "vV" && name[2] in "sS"
  {
  }
}
