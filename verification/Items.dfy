/** The server's item record: an 11-bit data length, an expiry and a fixed 1024-byte data area. */
module Items {
  import opened Bytes
  import opened TableModel
  import opened Wrappers

  const ITEM_LEN: nat := 1024
  const DATALEN_RANGE: nat := 2048
  const TABLE_SIZE: nat := 0x10_0000

  datatype Item = Item(datalen: nat, expire: nat, data: seq<byte>)

  type ItemTable = t: Table<Item> | WellFormed(t) witness Cleared(0, Blank())

  function Blank(): Item
  {
    Item(0, 0, seq(ITEM_LEN, _ => 0))
  }

  /** The zeroed record with a blob copied in: at most ITEM_LEN bytes are copied, and the length
      keeps the low 11 bits of the blob's length. NULL leaves the record zeroed. */
  function ItemOf(val: Option<seq<byte>>): Record<Item>
  {
    match val
    case None => Record(STAT_ON, Blank())
    case Some(v) =>
      var n := if |v| < ITEM_LEN then |v| else ITEM_LEN;
      Record(STAT_ON, Item(|v| % DATALEN_RANGE, 0, v[..n] + seq(ITEM_LEN - n, _ => 0)))
  }

  /** The value a GET answers with; a zero length counts as not found. */
  function ValueOf(itm: Item): Option<seq<byte>>
  {
    if itm.datalen == 0 then None
    else Some(itm.data[..if itm.datalen < |itm.data| then itm.datalen else |itm.data|])
  }

  function Answer(t: Table<Item>, k: nat): Option<seq<byte>>
  {
    match Lookup(t, k)
    case None => None
    case Some(r) => ValueOf(r.body)
  }

  /** The lengths the record can represent without serving something else. */
  predicate Storable(val: Option<seq<byte>>)
  {
    val.Some? && |val.value| > ITEM_LEN ==> |val.value| % DATALEN_RANGE == 0
  }

  /** The lengths the record represents as zero, so that GET answers "not found". */
  predicate Hidden(val: Option<seq<byte>>)
  {
    val.Some? ==> |val.value| % DATALEN_RANGE == 0
  }

  /** What GET shows of a stored blob. */
  function Shown(val: Option<seq<byte>>): Option<seq<byte>>
  {
    ValueOf(ItemOf(val).body)
  }

  /** A stored blob reads back as itself or as absent exactly when its length is at most 1024 or the
      11-bit length field cuts it to zero; it reads back as itself for 1 to 1024 bytes. */
  lemma StoredReadsBack(val: Option<seq<byte>>)
    ensures var r := Shown(val);
      && ItemOf(val).valid == STAT_ON && ItemOf(val).body.expire == 0
      && (r == None <==> Hidden(val))
      && (r == None || r == val <==> Storable(val))
      && (r == val <==> val == None || 1 <= |val.value| <= ITEM_LEN)
  {
    if val.Some? {
      var v := val.value;
      if |v| <= ITEM_LEN {
        assert (v[..|v|] + seq(ITEM_LEN - |v|, _ => 0))[..|v|] == v;
      } else {
        assert |ItemOf(val).body.data| == ITEM_LEN;
      }
    }
  }
}
