/**
 The whole path of a value: a SET request becomes a statement with a hex literal, the master database
 inserts the row and logs it, the binlog thread replays the log into the table, a GET reads it back.
 */
module SetThenGet {
  import opened BinlogReplay
  import opened Bytes
  import opened HexText
  import opened Items
  import opened Memcached
  import opened Packets
  import opened ProtocolHeader
  import opened SetStatement
  import opened Staleness
  import opened TableModel
  import opened Wrappers

  ghost predicate ServableReplica(p: Replica)
  {
    Servable(p.table)
  }

  lemma StorableFits(val: Option<seq<byte>>)
    requires Storable(val)
    ensures ItemFits(ItemOf(val).body)
  {
  }

  lemma RowServable(p: Replica, kind: RowKind, first: bool, row: Row)
    requires ServableReplica(p) && (kind == WriteRows ==> Storable(row.val))
    ensures ServableReplica(RowApplied(p, kind, first, row))
  {
    if kind == WriteRows {
      StorableFits(row.val);
    }
    hide ItemFits, ItemOf, Storable;
    var q := RowApplied(p, kind, first, row).table;
    var k := TableKey(row.key);
    forall j | 0 <= j < |q.cells| ensures ItemFits(q.cells[j].current.body) && ItemFits(q.cells[j].spare.body) {
      assert ItemFits(p.table.cells[j].current.body) && ItemFits(p.table.cells[j].spare.body);
    }
  }

  lemma {:induction false} RowsServable(p: Replica, kind: RowKind, rows: seq<Row>)
    requires ServableReplica(p) && (kind == WriteRows ==> forall r :: r in rows ==> Storable(r.val))
    ensures ServableReplica(RowsApplied(p, kind, rows))
  {
    hide RowApplied, ServableReplica, Storable;
    if rows != [] {
      var m := |rows| - 1;
      assert rows[m] in rows && forall r :: r in rows[..m] ==> r in rows;
      RowsServable(p, kind, rows[..m]);
      RowServable(RowsApplied(p, kind, rows[..m]), kind, m == 0, rows[m]);
    }
  }

  /** Whatever else a log does, if its inserted values are storable the table it leaves can be served: every
      record on either side keeps its length within its data area. */
  lemma {:induction false} ReplayServable(size: nat, events: seq<Event>)
    requires forall e :: e in events ==> InsertsStorable(e)
    ensures Servable(Replay(size, events).table)
  {
    if events != [] {
      hide RowsApplied, Servable;
      var before, e := events[..|events| - 1], events[|events| - 1];
      assert e in events && forall d :: d in before ==> d in events;
      ReplayServable(size, before);
      if e.Rows? {
        RowsServable(Replay(size, before), e.kind, e.rows);
      }
    }
  }

  /** The row that the master inserts for a statement. */
  function InsertedRow(id: int, st: Statement): Row
  {
    Row(id, st.key, Some(st.inserted))
  }

  /** Replaying the insert of a new row into a kvs-named table makes it the answer for its key. */
  lemma InsertAnswers(size: nat, events: seq<Event>, name: string, row: Row)
    requires NamesKvs(name) && TableKey(row.key) < size && row.val.Some? && 1 <= |row.val.value| <= ITEM_LEN
    requires LogFits(events) && LogInRange(size, events) && row.key !in TableNamed(MasterAfter(events), name)
    ensures var log := events + [TableMap(name)] + [Rows(WriteRows, [row])];
      Answer(Replay(size, log).table, TableKey(row.key)) == row.val
  {
    hide LogFits, LogInRange, NamesKvs, TableKey, Replay, Answer, MasterAfter, MergedAfter;
    Inserted(events, name, row, size);
    NotStaleIff(size, name, events + [TableMap(name)] + [Rows(WriteRows, [row])], TableKey(row.key));
  }

  /** The reply to the GET q from t is well framed and reports a hit. */
  ghost predicate HitFramed(t: Table<Item>, q: Buffer)
    requires |q| >= MESSAGE_ROOM && Servable(t)
  {
    var (r, ln) := GetReply(q, t);
    && ln == HEADER + DecodedHeader(r).bodylen <= |r| && DecodedHeader(r).status == 0
    && ValueAt(r) + ValueLength(r) == ln
  }

  /** That reply carries v. */
  ghost predicate HitCarries(t: Table<Item>, q: Buffer, v: Buffer)
    requires |q| >= MESSAGE_ROOM && Servable(t)
  {
    HitFramed(t, q) && Value(GetReply(q, t).0) == v
  }

  /** The log after a statement inserted a row into table kvs. */
  function LogOfInsert(events: seq<Event>, id: int, st: Statement): seq<Event>
  {
    events + [TableMap("kvs")] + [Rows(WriteRows, [InsertedRow(id, st)])]
  }

  /** The log after a statement met the row `row` and updated its value. */
  function LogOfUpdate(events: seq<Event>, row: Row, st: Statement): seq<Event>
  {
    events + [TableMap("kvs")] + [Rows(UpdateRows, [row, row.(val := Some(st.updated))])]
  }

  /** Any GET of key from t gets a reply that is well framed and carries val if and only if every byte of val after
      its first is at least 0x10. */
  ghost predicate AnswersIff(t: Table<Item>, key: nat, val: Buffer)
    requires Servable(t)
  {
    forall q :: |q| >= MESSAGE_ROOM && KeyId(q) == key ==>
      HitFramed(t, q) && (HitCarries(t, q, val) <==> HighAfterFirst(val))
  }

  lemma InsertThenGet(events: seq<Event>, id: int, st: Statement, val: Buffer)
    requires 1 <= |val| <= ITEM_LEN && st.key < TABLE_SIZE && st.key !in TableNamed(MasterAfter(events), "kvs")
    requires LogFits(events) && LogInRange(TABLE_SIZE, events) && forall e :: e in events ==> InsertsStorable(e)
    requires st.inserted == HexLiteral(HexOf(val))
    ensures var t := Replay(TABLE_SIZE, LogOfInsert(events, id, st)).table; Servable(t) && AnswersIff(t, st.key, val)
  {
    hide HexOf, HexLiteral, Replay, MasterAfter, LogFits, LogInRange, TableNamed, Answer, KeyId;
    hide InsertsStorable, Servable, MergedAfter, HighAfterFirst, GetReply, DecodedHeader, ValueAt, ValueLength;
    HexLength(val);
    LiteralSize(val);
    assert NamesKvs("kvs");
    InsertServable(events, id, st);
    InsertAnswers(TABLE_SIZE, events, "kvs", InsertedRow(id, st));
    HexReadsBackIff(val);
    var t := Replay(TABLE_SIZE, LogOfInsert(events, id, st)).table;
    forall q | |q| >= MESSAGE_ROOM && KeyId(q) == st.key
      ensures HitFramed(t, q) && (HitCarries(t, q, val) <==> HighAfterFirst(val)) {
      GetReplyReads(q, t);
    }
  }

  /** The master reads the statement of a SET of a new key with a value of 1 to 1024 bytes and logs the row it
      inserts; once the log is replayed, any GET of that key is answered with exactly the value that was set if and
      only if every byte of the value after its first is at least 0x10. */
  lemma SetThenGetIff(events: seq<Event>, id: int, key: nat, val: Buffer)
    requires 1 <= |val| <= ITEM_LEN && key < TABLE_SIZE && key !in TableNamed(MasterAfter(events), "kvs")
    requires LogFits(events) && LogInRange(TABLE_SIZE, events) && forall e :: e in events ==> InsertsStorable(e)
    ensures var st := ReadStatement(InsertStatement(key, val));
      && st.Some?
      && var t := Replay(TABLE_SIZE, LogOfInsert(events, id, st.value)).table;
         Servable(t) && AnswersIff(t, key, val)
  {
    hide ReadStatement, InsertStatement, HexOf, HexLiteral, Replay, MasterAfter, LogFits, LogInRange, TableNamed;
    hide InsertsStorable, AnswersIff, Servable, LogOfInsert;
    StatementReads(key, val);
    InsertThenGet(events, id, ReadStatement(InsertStatement(key, val)).value, val);
  }

  lemma InsertServable(events: seq<Event>, id: int, st: Statement)
    requires |st.inserted| <= ITEM_LEN && forall e :: e in events ==> InsertsStorable(e)
    ensures Servable(Replay(TABLE_SIZE, LogOfInsert(events, id, st)).table)
  {
    hide Servable, Replay;
    RowStorable(InsertedRow(id, st));
    ReplayServable(TABLE_SIZE, LogOfInsert(events, id, st));
  }

  lemma UpdateThenGet(events: seq<Event>, row: Row, st: Statement)
    requires LogFits(events) && LogInRange(TABLE_SIZE, events) && 0 <= row.key < TABLE_SIZE
    requires var t := TableNamed(MasterAfter(events), "kvs"); row.key in t && t[row.key] == row.val
    ensures LogFits(LogOfUpdate(events, row, st))
    ensures Answer(Replay(TABLE_SIZE, LogOfUpdate(events, row, st)).table, row.key) == None
  {
    hide RowsFit, HandledInRange, NamesKvs, LogFits, LogInRange, MasterAfter, MergedAfter, Replay, Answer, TableKey;
    var now := row.(val := Some(st.updated));
    var first, update := TableMap("kvs"), Rows(UpdateRows, [row, now]);
    assert NamesKvs("kvs") by { NamedKvs(); }
    ValueUpdateFits(TableNamed(MasterAfter(events), "kvs"), row, now);
    Appended(events, first, TABLE_SIZE);
    Appended(events + [first], update, TABLE_SIZE);
    UpdateHides(TABLE_SIZE, events + [first], row, now);
  }

  lemma NamedKvs()
    ensures NamesKvs("kvs")
  {
  }

  lemma ValueUpdateFits(t: Rowset, row: Row, now: Row)
    requires row.key in t && t[row.key] == row.val && now.key == row.key && 0 <= row.key < TABLE_SIZE
    ensures RowsFit(t, UpdateRows, [row, now]) && HandledInRange(TABLE_SIZE, UpdateRows, [row, now])
    ensures TableKey(row.key) == row.key
  {
    var rows := [row, now];
    assert rows[..0] == [] && RowsFit(t, UpdateRows, []) && RowsMastered(t, UpdateRows, []) == t;
  }

  /** A SET of a key that is there updates its row; once that is replayed, no value is found for the key. */
  lemma SetAgainHides(events: seq<Event>, row: Row, key: nat, val: Buffer)
    requires val != [] && key < TABLE_SIZE && row.key == key
    requires LogFits(events) && LogInRange(TABLE_SIZE, events)
    requires var t := TableNamed(MasterAfter(events), "kvs"); key in t && t[key] == row.val
    ensures var st := ReadStatement(InsertStatement(key, val));
      && st.Some? && st.value.key == key
      && LogFits(LogOfUpdate(events, row, st.value))
      && Answer(Replay(TABLE_SIZE, LogOfUpdate(events, row, st.value)).table, key) == None
  {
    hide ReadStatement, InsertStatement, HexOf, HexLiteral, Replay, MasterAfter, LogFits, LogInRange, TableNamed;
    hide LogOfUpdate, Answer;
    StatementReads(key, val);
    UpdateThenGet(events, row, ReadStatement(InsertStatement(key, val)).value);
  }

  lemma RowStorable(row: Row)
    requires row.val.Some? && |row.val.value| <= ITEM_LEN
    ensures InsertsStorable(Rows(WriteRows, [row]))
  {
  }

  /** A literal has at least one byte and no more than the value it was printed from. */
  lemma {:induction false} LiteralSize(v: Buffer)
    requires v != []
    ensures 1 <= |HexLiteral(HexOf(v))| <= |v|
  {
    HexLength(v);
    assert |HexOf(v)| >= |ByteHex(v[|v| - 1])| >= 1;
  }
}
