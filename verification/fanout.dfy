/** The picking-event fan-out of the ingestion client
    (services/ingestion_service/api_client.py, `_create_picking_events_fast`):
    order items are indexed by (pick-list group, SKU), and each picking
    record becomes one event per order item under its key. */
module Fanout {
  import opened Basics
  import opened Store

  /** One picking record of the reply (`Listone`, `CodiceArticolo`, `UDC`,
      `Quantita`); the other fields (cart, operator, timestamp) are copied
      through unchanged and are not modelled. */
  datatype PickRecord = PickRecord(listone: Option<int>, sku: Option<string>, udc: Option<string>, quantita: Option<Qty>)

  datatype IndexKey = IndexKey(listone: int, sku: string)

  /** The key an order item is indexed under: none when its listone or SKU
      is falsy. */
  function ItemKeyOf(it: OrderItem): Option<IndexKey> {
    if Truthy(it.listone) && it.sku != "" then Some(IndexKey(it.listone.value, it.sku)) else None
  }

  /** Reference: the ids of the order items indexed under `k`, in query
      order. */
  function IdsFor(items: seq<OrderItem>, k: IndexKey): (ids: seq<Id>)
    ensures forall id :: id in ids <==> exists it :: it in items && it.id == id && ItemKeyOf(it) == Some(k)
  {
    if |items| == 0 then []
    else
      var pre := items[..|items| - 1];
      var last := items[|items| - 1];
      assert items == pre + [last];
      IdsFor(pre, k) + (if ItemKeyOf(last) == Some(k) then [last.id] else [])
  }

  /** The key a record is looked up under: none when its listone, SKU or
      unit-load is falsy. */
  function RecordKey(rec: PickRecord): Option<IndexKey> {
    if Truthy(rec.listone) && TruthyText(rec.sku) && TruthyText(rec.udc)
    then Some(IndexKey(rec.listone.value, rec.sku.value)) else None
  }

  /** `Quantita` when truthy, else 0. */
  function QtyOf(rec: PickRecord): Qty {
    if Truthy(rec.quantita) then rec.quantita.value else 0
  }

  function EventFor(rec: PickRecord, company: string, id: Id): PickingEvent {
    PickingEvent(company, id, rec.udc, QtyOf(rec))
  }

  /** Reference: the events one record yields, one per indexed order item
      under its key, in index order. `company` is the value the store gives
      the column the insert leaves unset. */
  function EventsOf(items: seq<OrderItem>, rec: PickRecord, company: string): (r: seq<PickingEvent>)
    ensures RecordKey(rec).None? ==> r == []
    ensures RecordKey(rec).Some? ==> |r| == |IdsFor(items, RecordKey(rec).value)|
    ensures forall i :: 0 <= i < |r| ==>
      && r[i].udc == rec.udc && r[i].qtyPicked == QtyOf(rec) && r[i].company == company
      && exists it :: it in items && it.id == r[i].orderItemId && ItemKeyOf(it) == RecordKey(rec)
  {
    match RecordKey(rec)
    case None => []
    case Some(k) =>
      var ids := IdsFor(items, k);
      var r := seq(|ids|, i requires 0 <= i < |ids| => EventFor(rec, company, ids[i]));
      assert forall i :: 0 <= i < |r| ==> ids[i] in ids;
      r
  }

  /** Reference: the events of all records, in record order. */
  function ExpectedEvents(items: seq<OrderItem>, records: seq<PickRecord>, company: string): seq<PickingEvent> {
    if |records| == 0 then []
    else ExpectedEvents(items, records[..|records| - 1], company) + EventsOf(items, records[|records| - 1], company)
  }

  /** The `item_map` loop: each key that some order item is indexed under
      maps to the ids of those items, in query order. */
  method BuildIndex(items: seq<OrderItem>) returns (m: map<IndexKey, seq<Id>>)
    ensures forall k :: k in m <==> |IdsFor(items, k)| > 0
    ensures forall k :: k in m ==> m[k] == IdsFor(items, k)
  {
    m := map[];
    var i := 0;
    while i < |items|
      invariant 0 <= i <= |items|
      invariant forall k :: k in m <==> |IdsFor(items[..i], k)| > 0
      invariant forall k :: k in m ==> m[k] == IdsFor(items[..i], k)
    {
      var it := items[i];
      assert items[..i + 1][..i] == items[..i] && items[..i + 1][i] == it;
      if ItemKeyOf(it).Some? {
        var k := ItemKeyOf(it).value;
        var ids := if k in m then m[k] else [];
        m := m[k := ids + [it.id]];
      }
      i := i + 1;
    }
    assert items[..i] == items;
  }

  /** `_create_picking_events_fast`: the events built and their number. */
  method CreatePickingEvents(items: seq<OrderItem>, records: seq<PickRecord>, company: string)
    returns (events: seq<PickingEvent>, count: nat)
    ensures events == ExpectedEvents(items, records, company)
    ensures count == |events|
  {
    var index := BuildIndex(items);
    events := [];
    var i := 0;
    while i < |records|
      invariant 0 <= i <= |records|
      invariant events == ExpectedEvents(items, records[..i], company)
    {
      var rec := records[i];
      assert records[..i + 1][..i] == records[..i] && records[..i + 1][i] == rec;
      var key := RecordKey(rec);
      if key.Some? && key.value in index {
        var ids := index[key.value];
        var j := 0;
        var start := events;
        while j < |ids|
          invariant 0 <= j <= |ids|
          invariant events == start + EventsOf(items, rec, company)[..j]
        {
          assert EventsOf(items, rec, company)[..j + 1] == EventsOf(items, rec, company)[..j] + [EventFor(rec, company, ids[j])];
          events := events + [EventFor(rec, company, ids[j])];
          j := j + 1;
        }
        assert EventsOf(items, rec, company)[..j] == EventsOf(items, rec, company);
      } else if key.Some? {
        assert EventsOf(items, rec, company) == [];
      }
      i := i + 1;
    }
    assert records[..i] == records;
    count := |events|;
  }

  /** A record whose key indexes no order item yields no event, however
      many records there are. */
  lemma {:induction false} UnindexedRecordsYieldNothing(items: seq<OrderItem>, records: seq<PickRecord>, company: string)
    requires forall i :: 0 <= i < |records| ==> RecordKey(records[i]).None? || |IdsFor(items, RecordKey(records[i]).value)| == 0
    ensures ExpectedEvents(items, records, company) == []
  {
    if |records| > 0 {
      UnindexedRecordsYieldNothing(items, records[..|records| - 1], company);
    }
  }
}
