/** The relational store the reconciliation engine works on, as immutable
    records. Each table is a sequence of rows in query order (so "the first
    row whose id is k" is SQLAlchemy's `.filter(id == k).first()`), except
    `udc_locations`, whose primary key is the unit-load code and which is
    therefore a map. Quantities (`Numeric(18,3)`) are integers counting
    thousandths; clock readings are opaque integers supplied by the caller. */
module Store {
  import opened Basics

  /** A `Numeric(18,3)` quantity, in thousandths. */
  type Qty = int

  /** A `datetime.utcnow()` / `datetime.now()` reading, treated as opaque. */
  type Time = int

  type Id = nat

  /** The quantity 1 (`Decimal('1')`), in thousandths. */
  const OneUnit: Qty := 1000

  /** The position code used when nothing better is known. */
  const Unknown: string := "UNKNOWN"

  // ---------------------------------------------------------------------
  // Orders and picking
  // ---------------------------------------------------------------------

  datatype Order = Order(id: Id, orderNumber: string)

  /** One ordered SKU line of one pick-list (`n_lista`); `listone` is the
      pick-list group and `cesta` the basket. `company` is the tenant key the
      inventory rebuild filters on. */
  datatype OrderItem = OrderItem(
    id: Id,
    company: string,
    orderId: Id,
    nLista: int,
    listone: Option<int>,
    sku: string,
    qtyOrdered: Option<Qty>,
    cesta: Option<string>)

  /** "This much of this order item was picked into this unit-load." */
  datatype PickingEvent = PickingEvent(
    company: string,
    orderItemId: Id,
    udc: Option<string>,
    qtyPicked: Qty)

  /** A derived row: unit-load `udc` holds `qty` of `sku` for pick-list
      group `listone`. */
  datatype InventoryRow = InventoryRow(
    company: string,
    udc: string,
    sku: string,
    listone: int,
    qty: Qty)

  /** Last known slot of a unit-load (the map key) and its composed code. */
  datatype Location = Location(
    mag: Option<string>,
    scaf: Option<string>,
    col: Option<string>,
    pia: Option<string>,
    sc: Option<string>,
    comp: Option<string>,
    positionCode: string,
    lastMovement: Option<string>,
    lastUpdated: Option<Time>)

  // ---------------------------------------------------------------------
  // Missions
  // ---------------------------------------------------------------------

  datatype MissionStatus = Open | InProgress | Completed | Cancelled

  /** `Pending` stands for both spellings the code uses for an unchecked
      position: 'PENDING' (written at creation, required by the handler) and
      'TO_CHECK' (the column default, accepted by the route code). */
  datatype CheckStatus = Pending | Found | NotFound | SkippedAuto

  datatype Mission = Mission(
    id: Id,
    code: string,
    cesta: string,
    status: MissionStatus,
    createdBy: string,
    createdAt: Time,
    startedAt: Option<Time>,
    completedAt: Option<Time>)

  /** One shortfall line of a mission. */
  datatype MissionItem = MissionItem(
    id: Id,
    missionId: Id,
    cesta: Option<string>,
    nOrdine: string,
    nLista: int,
    sku: string,
    listone: Option<int>,
    qtyOrdered: Qty,
    qtyShipped: Qty,
    qtyMissing: Qty,
    qtyFound: Qty,
    isResolved: bool,
    resolvedAt: Option<Time>)

  /** One candidate unit-load an operator must inspect for a mission item. */
  datatype PositionCheck = PositionCheck(
    id: Id,
    missionId: Id,
    itemId: Id,
    positionCode: string,
    udc: Option<string>,
    listone: Option<int>,
    status: CheckStatus,
    foundInPosition: Option<bool>,
    qtyFound: Option<Qty>,
    checkedAt: Option<Time>,
    checkedBy: Option<string>,
    notes: Option<string>)

  /** The whole store. */
  datatype Db = Db(
    orders: seq<Order>,
    orderItems: seq<OrderItem>,
    events: seq<PickingEvent>,
    inventory: seq<InventoryRow>,
    locations: map<string, Location>,
    missions: seq<Mission>,
    items: seq<MissionItem>,
    checks: seq<PositionCheck>)

  // ---------------------------------------------------------------------
  // Lookups by id (`.filter(X.id == k).first()`)
  // ---------------------------------------------------------------------

  function FindOrder(orders: seq<Order>, id: Id): (r: Option<Order>)
    ensures r.Some? ==> r.value in orders && r.value.id == id
    ensures r.None? ==> forall o :: o in orders ==> o.id != id
  {
    if |orders| == 0 then None
    else if orders[0].id == id then Some(orders[0])
    else FindOrder(orders[1..], id)
  }

  /** The position of the first element whose key is `id`, if any. */
  function IndexOf<T>(xs: seq<T>, key: T -> Id, id: Id): (r: Option<nat>)
    ensures r.Some? ==> r.value < |xs| && key(xs[r.value]) == id
    ensures r.Some? ==> forall j :: 0 <= j < r.value ==> key(xs[j]) != id
    ensures r.None? ==> forall j :: 0 <= j < |xs| ==> key(xs[j]) != id
  {
    if |xs| == 0 then None
    else if key(xs[0]) == id then Some(0)
    else
      match IndexOf(xs[1..], key, id)
      case None => None
      case Some(k) => Some(k + 1)
  }

  function MissionIndex(missions: seq<Mission>, id: Id): (r: Option<nat>)
    ensures r.Some? ==> r.value < |missions| && missions[r.value].id == id
    ensures r.Some? ==> forall j :: 0 <= j < r.value ==> missions[j].id != id
    ensures r.None? ==> forall j :: 0 <= j < |missions| ==> missions[j].id != id
  {
    IndexOf(missions, (m: Mission) => m.id, id)
  }

  function ItemIndex(items: seq<MissionItem>, id: Id): (r: Option<nat>)
    ensures r.Some? ==> r.value < |items| && items[r.value].id == id
    ensures r.Some? ==> forall j :: 0 <= j < r.value ==> items[j].id != id
    ensures r.None? ==> forall j :: 0 <= j < |items| ==> items[j].id != id
  {
    IndexOf(items, (i: MissionItem) => i.id, id)
  }

  function CheckIndex(checks: seq<PositionCheck>, id: Id): (r: Option<nat>)
    ensures r.Some? ==> r.value < |checks| && checks[r.value].id == id
    ensures r.Some? ==> forall j :: 0 <= j < r.value ==> checks[j].id != id
    ensures r.None? ==> forall j :: 0 <= j < |checks| ==> checks[j].id != id
  {
    IndexOf(checks, (c: PositionCheck) => c.id, id)
  }

  function FindItem(items: seq<MissionItem>, id: Id): (r: Option<MissionItem>)
    ensures r.Some? ==> r.value in items && r.value.id == id
    ensures r.None? ==> forall it :: it in items ==> it.id != id
  {
    match ItemIndex(items, id)
    case None => None
    case Some(k) => Some(items[k])
  }

  // ---------------------------------------------------------------------
  // Fresh ids (autoincrement)
  // ---------------------------------------------------------------------

  /** The largest key of the elements (0 when there are none): the last id
      an autoincrement column has handed out. */
  function MaxKey<T>(xs: seq<T>, key: T -> nat): (m: nat)
    ensures forall j :: 0 <= j < |xs| ==> key(xs[j]) <= m
    ensures |xs| > 0 ==> exists j :: 0 <= j < |xs| && key(xs[j]) == m
  {
    if |xs| == 0 then 0
    else Basics.Max(key(xs[0]), MaxKey(xs[1..], key))
  }

  function MaxMissionId(missions: seq<Mission>): (m: nat)
    ensures forall j :: 0 <= j < |missions| ==> missions[j].id <= m
  {
    MaxKey(missions, (m: Mission) => m.id)
  }

  function MaxItemId(items: seq<MissionItem>): (m: nat)
    ensures forall j :: 0 <= j < |items| ==> items[j].id <= m
  {
    MaxKey(items, (i: MissionItem) => i.id)
  }

  function MaxCheckId(checks: seq<PositionCheck>): (m: nat)
    ensures forall j :: 0 <= j < |checks| ==> checks[j].id <= m
  {
    MaxKey(checks, (c: PositionCheck) => c.id)
  }
}
