/** The missing-item resolver of the mission creator: shipped quantities
    summed per (order number, pick-list, SKU), then diffed against the order
    items of the basket (services/mission_service/mission_creator.py,
    `_find_missing_items`). */
module Shortfall {
  import opened Basics
  import opened Store
  import Sorting

  /** One record of the shipment-confirmation reply (`nOrdine`, `nLista`,
      `CodiceArticolo`, `Quantita`), after the `str`/`int`/`Decimal`
      conversions. */
  datatype ShippedRecord = ShippedRecord(nOrdine: string, nLista: int, sku: string, quantita: Qty)

  /** The key shipped and ordered quantities are matched on. */
  datatype LineKey = LineKey(nOrdine: string, nLista: int, sku: string)

  function KeyOf(r: ShippedRecord): LineKey {
    LineKey(r.nOrdine, r.nLista, r.sku)
  }

  /** One shortfall line: an order item that was shipped short. */
  datatype ShortfallLine = ShortfallLine(
    nOrdine: string,
    nLista: int,
    listone: Option<int>,
    sku: string,
    qtyOrdered: Qty,
    qtyShipped: Qty,
    qtyMissing: Qty)

  /** Reference: the total quantity shipped under `k` (0 when nothing was). */
  function ShippedTotal(shipped: seq<ShippedRecord>, k: LineKey): Qty {
    if |shipped| == 0 then 0
    else
      var last := shipped[|shipped| - 1];
      ShippedTotal(shipped[..|shipped| - 1], k) + (if KeyOf(last) == k then last.quantita else 0)
  }

  /** `shipped_map.get(key, Decimal('0'))`. */
  function ShippedOf(m: map<LineKey, Qty>, k: LineKey): Qty {
    if k in m then m[k] else 0
  }

  /** The `shipped_map` dictionary: repeated keys are summed, and looking up
      any key (present or not) gives that key's shipped total. */
  function ShippedMap(shipped: seq<ShippedRecord>): (m: map<LineKey, Qty>)
    ensures m.Keys == set r | r in shipped :: KeyOf(r)
    ensures forall k :: ShippedOf(m, k) == ShippedTotal(shipped, k)
  {
    if |shipped| == 0 then map[]
    else
      var pre := shipped[..|shipped| - 1];
      var last := shipped[|shipped| - 1];
      var m0 := ShippedMap(pre);
      assert shipped == pre + [last];
      m0[KeyOf(last) := ShippedOf(m0, KeyOf(last)) + last.quantita]
  }

  /** The line order item `it` contributes, given the shipped totals `sm`:
      none when its order is missing or nothing is short. */
  function LineFor(orders: seq<Order>, sm: map<LineKey, Qty>, it: OrderItem): Option<ShortfallLine> {
    match FindOrder(orders, it.orderId)
    case None => None
    case Some(o) =>
      var ordered := it.qtyOrdered.GetOr(0);
      var shippedQty := ShippedOf(sm, LineKey(o.orderNumber, it.nLista, it.sku));
      if ordered - shippedQty > 0 then
        Some(ShortfallLine(o.orderNumber, it.nLista, it.listone, it.sku, ordered, shippedQty, ordered - shippedQty))
      else None
  }

  /** The lines of `candidates`, in query order. */
  function MissingLines(orders: seq<Order>, sm: map<LineKey, Qty>, candidates: seq<OrderItem>): (r: seq<ShortfallLine>)
    ensures |r| <= |candidates|
    ensures forall l :: l in r <==> exists it :: it in candidates && LineFor(orders, sm, it) == Some(l)
  {
    if |candidates| == 0 then []
    else
      var rest := MissingLines(orders, sm, candidates[1..]);
      assert candidates == [candidates[0]] + candidates[1..];
      match LineFor(orders, sm, candidates[0])
      case Some(l) => [l] + rest
      case None => rest
  }

  predicate InBasket(it: OrderItem, cesta: string) {
    it.cesta == Some(cesta)
  }

  /** `filter(OrderItem.cesta == cesta)`. */
  function OfBasket(cesta: string): OrderItem -> bool {
    (it: OrderItem) => InBasket(it, cesta)
  }

  /** `_find_missing_items(db, cesta, shipped_items)`: the order items whose
      `cesta` is the basket, diffed against the shipped quantities. */
  function FindMissing(db: Db, cesta: string, shipped: seq<ShippedRecord>): (r: seq<ShortfallLine>)
    ensures |r| <= |db.orderItems|
    ensures forall l :: l in r ==>
      && l.qtyShipped == ShippedTotal(shipped, LineKey(l.nOrdine, l.nLista, l.sku))
      && l.qtyMissing == l.qtyOrdered - l.qtyShipped
      && l.qtyMissing > 0
  {
    var candidates := Sorting.Filter(db.orderItems, OfBasket(cesta));
    MissingLines(db.orders, ShippedMap(shipped), candidates)
  }

  /** Reference: the line the resolver promises for one order item, stated
      with the shipped total directly rather than through the map. */
  function ExpectedLine(orders: seq<Order>, cesta: string, shipped: seq<ShippedRecord>, it: OrderItem): Option<ShortfallLine> {
    if !InBasket(it, cesta) then None
    else
      match FindOrder(orders, it.orderId)
      case None => None
      case Some(o) =>
        var ordered := it.qtyOrdered.GetOr(0);
        var total := ShippedTotal(shipped, LineKey(o.orderNumber, it.nLista, it.sku));
        if ordered > total then
          Some(ShortfallLine(o.orderNumber, it.nLista, it.listone, it.sku, ordered, total, ordered - total))
        else None
  }

  /** Reference: the lines of `items` in query order, one for each item
      whose expected line exists. */
  function ExpectedLines(orders: seq<Order>, cesta: string, shipped: seq<ShippedRecord>, items: seq<OrderItem>): seq<ShortfallLine> {
    if |items| == 0 then []
    else
      (match ExpectedLine(orders, cesta, shipped, items[0])
       case Some(l) => [l]
       case None => [])
      + ExpectedLines(orders, cesta, shipped, items[1..])
  }

  /** The resolver emits, in the query order of the order items, exactly one
      line for each basket item that is short, and nothing else. */
  lemma FindMissingInOrder(db: Db, cesta: string, shipped: seq<ShippedRecord>)
    ensures FindMissing(db, cesta, shipped) == ExpectedLines(db.orders, cesta, shipped, db.orderItems)
  {
    MissingLinesInOrder(db.orders, cesta, shipped, db.orderItems);
  }

  lemma {:induction false} MissingLinesInOrder(orders: seq<Order>, cesta: string, shipped: seq<ShippedRecord>, items: seq<OrderItem>)
    ensures MissingLines(orders, ShippedMap(shipped), Sorting.Filter(items, OfBasket(cesta))) ==
            ExpectedLines(orders, cesta, shipped, items)
  {
    if |items| > 0 {
      var x := items[0];
      var rest := Sorting.Filter(items[1..], OfBasket(cesta));
      MissingLinesInOrder(orders, cesta, shipped, items[1..]);
      ExpectedLineIsLineFor(orders, cesta, shipped, x);
      if InBasket(x, cesta) {
        assert Sorting.Filter(items, OfBasket(cesta)) == [x] + rest;
        MissingLinesCons(orders, ShippedMap(shipped), x, rest);
      }
    }
  }

  lemma MissingLinesCons(orders: seq<Order>, sm: map<LineKey, Qty>, x: OrderItem, rest: seq<OrderItem>)
    ensures MissingLines(orders, sm, [x] + rest) ==
      (match LineFor(orders, sm, x) case Some(l) => [l] case None => []) + MissingLines(orders, sm, rest)
  {
    assert ([x] + rest)[1..] == rest;
  }

  /** The map lookup agrees with the shipped total, so the resolver's line
      for a basket item is the reference line. */
  lemma ExpectedLineIsLineFor(orders: seq<Order>, cesta: string, shipped: seq<ShippedRecord>, x: OrderItem)
    ensures ExpectedLine(orders, cesta, shipped, x) == (if InBasket(x, cesta) then LineFor(orders, ShippedMap(shipped), x) else None)
  {
    match FindOrder(orders, x.orderId)
    case None =>
    case Some(o) =>
      assert ShippedOf(ShippedMap(shipped), LineKey(o.orderNumber, x.nLista, x.sku)) ==
             ShippedTotal(shipped, LineKey(o.orderNumber, x.nLista, x.sku));
  }

  /** A line is emitted exactly when some order item of the basket, whose
      order exists, was ordered (null counting as 0) in a larger quantity
      than the total shipped under its key; the line carries that item's
      quantities and the exact difference. */
  lemma FindMissingIff(db: Db, cesta: string, shipped: seq<ShippedRecord>, l: ShortfallLine)
    ensures l in FindMissing(db, cesta, shipped) <==>
            exists it :: it in db.orderItems && ExpectedLine(db.orders, cesta, shipped, it) == Some(l)
  {
    var sm := ShippedMap(shipped);
    var candidates := Sorting.Filter(db.orderItems, OfBasket(cesta));
    forall it | it in db.orderItems
      ensures ExpectedLine(db.orders, cesta, shipped, it) ==
              (if it in candidates then LineFor(db.orders, sm, it) else None)
    {
      match FindOrder(db.orders, it.orderId)
      case None =>
      case Some(o) =>
        assert ShippedOf(sm, LineKey(o.orderNumber, it.nLista, it.sku)) ==
               ShippedTotal(shipped, LineKey(o.orderNumber, it.nLista, it.sku));
    }
  }

  /** A basket none of whose order items has a shortfall yields no lines;
      in particular a shipment that covers every ordered quantity. */
  lemma {:induction false} NoShortfallWhenFullyShipped(db: Db, cesta: string, shipped: seq<ShippedRecord>)
    requires forall it, o :: it in db.orderItems && InBasket(it, cesta) && o in db.orders && o.id == it.orderId ==>
               it.qtyOrdered.GetOr(0) <= ShippedTotal(shipped, LineKey(o.orderNumber, it.nLista, it.sku))
    ensures FindMissing(db, cesta, shipped) == []
  {
    var sm := ShippedMap(shipped);
    var candidates := Sorting.Filter(db.orderItems, OfBasket(cesta));
    forall it | it in candidates ensures LineFor(db.orders, sm, it) == None {
      match FindOrder(db.orders, it.orderId)
      case None =>
      case Some(o) => assert o in db.orders && o.id == it.orderId;
    }
    NoLinesWhenNothingShort(db.orders, sm, candidates);
  }

  lemma {:induction false} NoLinesWhenNothingShort(orders: seq<Order>, sm: map<LineKey, Qty>, candidates: seq<OrderItem>)
    requires forall it :: it in candidates ==> LineFor(orders, sm, it) == None
    ensures MissingLines(orders, sm, candidates) == []
  {
    if |candidates| > 0 {
      assert candidates[0] in candidates;
      NoLinesWhenNothingShort(orders, sm, candidates[1..]);
    }
  }
}
