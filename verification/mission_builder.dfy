/** Mission construction from a basket (services/mission_service/
    mission_creator.py, `create_mission_from_cesta` and
    `_generate_position_checks`): the shortfall lines of the basket become an
    OPEN mission with one item per line, and every line with a pick-list
    group is fanned out to one PENDING position check per unit-load that
    holds its SKU for that group. */
module MissionBuilder {
  import opened Basics
  import opened Store
  import opened Shortfall
  import MissionCode

  /** The answer of the shipment-confirmation call (`call_get_spedito2`). */
  datatype ShipmentReply = ApiFailed(message: string) | Shipped(records: seq<ShippedRecord>)

  /** Why `create_mission_from_cesta` fails: the shipment call failed, the
      basket shipped nothing, or the flush of the new mission violated the
      uniqueness of `mission_code` (the failure the `except` reports). */
  datatype CreateError = ApiError(message: string) | NoShippedItems | DuplicateCode(code: string)

  /** The result dictionary of `create_mission_from_cesta`. */
  datatype CreateOutcome =
    | CreateFailed(error: CreateError)
    | NothingMissing
    | Created(missionId: Id, code: string, totalMissing: nat, checksCreated: nat)
  {
    predicate Success() {
      !CreateFailed?
    }
  }

  /** The `(sku, listone)` key position checks are attached through. */
  datatype ItemKey = ItemKey(sku: string, listone: int)

  /** The key a mission item is entered under, when its listone is truthy. */
  function KeyOfItem(it: MissionItem): Option<ItemKey> {
    if Truthy(it.listone) then Some(ItemKey(it.sku, it.listone.value)) else None
  }

  /** The key a shortfall line is looked up under, when its listone is
      truthy. */
  function KeyOfLine(l: ShortfallLine): Option<ItemKey> {
    if Truthy(l.listone) then Some(ItemKey(l.sku, l.listone.value)) else None
  }

  // ---------------------------------------------------------------------
  // Mission items
  // ---------------------------------------------------------------------

  /** `it` is the item written for line `l` of mission `missionId`. */
  predicate CopiesLine(it: MissionItem, l: ShortfallLine, missionId: Id) {
    && it.missionId == missionId
    && it.nOrdine == l.nOrdine && it.nLista == l.nLista && it.sku == l.sku
    && it.listone == l.listone
    && it.qtyOrdered == l.qtyOrdered && it.qtyShipped == l.qtyShipped
    && it.qtyMissing == l.qtyMissing
    && it.qtyFound == 0 && !it.isResolved && it.resolvedAt.None?
  }

  function ItemOf(l: ShortfallLine, missionId: Id, id: Id): (it: MissionItem)
    ensures CopiesLine(it, l, missionId) && it.id == id
  {
    MissionItem(id, missionId, None, l.nOrdine, l.nLista, l.sku, l.listone,
                l.qtyOrdered, l.qtyShipped, l.qtyMissing, 0, false, None)
  }

  /** One item per line, in line order, with consecutive ids from `firstId`. */
  function ItemsFor(lines: seq<ShortfallLine>, missionId: Id, firstId: Id): (r: seq<MissionItem>)
    ensures |r| == |lines|
    ensures forall i :: 0 <= i < |r| ==> r[i].id == firstId + i && CopiesLine(r[i], lines[i], missionId)
    ensures forall i :: 0 <= i < |r| ==> KeyOfItem(r[i]) == KeyOfLine(lines[i])
  {
    seq(|lines|, i requires 0 <= i < |lines| => ItemOf(lines[i], missionId, firstId + i))
  }

  // ---------------------------------------------------------------------
  // The (sku, listone) -> item id map
  // ---------------------------------------------------------------------

  /** Reference: the position of the last item entered under `k`. */
  function LastWithKey(items: seq<MissionItem>, k: ItemKey): (r: Option<nat>)
    ensures r.Some? ==> r.value < |items| && KeyOfItem(items[r.value]) == Some(k)
    ensures r.Some? ==> forall j :: r.value < j < |items| ==> KeyOfItem(items[j]) != Some(k)
    ensures r.None? ==> forall j :: 0 <= j < |items| ==> KeyOfItem(items[j]) != Some(k)
  {
    if |items| == 0 then None
    else if KeyOfItem(items[|items| - 1]) == Some(k) then Some(|items| - 1)
    else
      var r := LastWithKey(items[..|items| - 1], k);
      assert forall j :: 0 <= j < |items| - 1 ==> items[..|items| - 1][j] == items[j];
      r
  }

  /** `mission_items_map`: built in query order, so when several items share
      a key the last one wins; items with a falsy listone are not entered. */
  function ItemMap(items: seq<MissionItem>): (m: map<ItemKey, Id>)
    ensures forall k :: k in m <==> LastWithKey(items, k).Some?
    ensures forall k :: k in m ==> m[k] == items[LastWithKey(items, k).value].id
  {
    if |items| == 0 then map[]
    else
      var pre := items[..|items| - 1];
      var last := items[|items| - 1];
      var m0 := ItemMap(pre);
      match KeyOfItem(last)
      case None => m0
      case Some(k) => m0[k := last.id]
  }

  /** The item a key resolves to over `a + b` lies in `b` when `b` holds an
      item with that key. */
  lemma ItemMapSuffixWins(a: seq<MissionItem>, b: seq<MissionItem>, n: nat)
    requires n < |b| && KeyOfItem(b[n]).Some?
    ensures KeyOfItem(b[n]).value in ItemMap(a + b)
    ensures exists i :: 0 <= i < |b| && KeyOfItem(b[i]) == KeyOfItem(b[n]) && ItemMap(a + b)[KeyOfItem(b[n]).value] == b[i].id
  {
    var s := a + b;
    var k := KeyOfItem(b[n]).value;
    assert s[|a| + n] == b[n];
    var i := LastWithKey(s, k).value;
    assert i >= |a|;
    assert s[i] == b[i - |a|];
  }

  /** Lines that share a SKU and a truthy listone collapse onto one item:
      the map sends the key of the earlier item to the id of the later one. */
  lemma SharedKeyCollapses(items: seq<MissionItem>, i: nat, j: nat)
    requires i < j < |items|
    requires KeyOfItem(items[i]).Some? && KeyOfItem(items[i]) == KeyOfItem(items[j])
    requires forall n :: j < n < |items| ==> KeyOfItem(items[n]) != KeyOfItem(items[j])
    requires items[i].id != items[j].id
    ensures ItemMap(items)[KeyOfItem(items[i]).value] == items[j].id
    ensures ItemMap(items)[KeyOfItem(items[i]).value] != items[i].id
  {
    var k := KeyOfItem(items[i]).value;
    var n := LastWithKey(items, k).value;
    assert n == j;
  }

  // ---------------------------------------------------------------------
  // Position checks
  // ---------------------------------------------------------------------

  /** `UDCInventory.listone == listone, UDCInventory.sku == sku,
      UDCInventory.qty > 0`. */
  predicate RowMatches(row: InventoryRow, k: ItemKey) {
    row.listone == k.listone && row.sku == k.sku && row.qty > 0
  }

  /** The inventory rows a key matches, in table order. */
  function MatchingRows(rows: seq<InventoryRow>, k: ItemKey): (r: seq<InventoryRow>)
    ensures forall row :: row in r <==> row in rows && RowMatches(row, k)
  {
    if |rows| == 0 then []
    else
      assert forall row :: row in rows <==> row == rows[0] || row in rows[1..];
      (if RowMatches(rows[0], k) then [rows[0]] else []) + MatchingRows(rows[1..], k)
  }

  /** The stored location code of a unit-load, or UNKNOWN. */
  function PositionCodeOf(locations: map<string, Location>, udc: string): string {
    if udc in locations then locations[udc].positionCode else Unknown
  }

  /** A freshly written, unchecked position check of `missionId` for item
      `itemId` and pick-list group `listone`. */
  predicate NewCheck(c: PositionCheck, missionId: Id, itemId: Id, listone: int) {
    && c.missionId == missionId && c.itemId == itemId && c.listone == Some(listone)
    && c.status == Pending && c.foundInPosition.None? && c.qtyFound.None?
    && c.checkedAt.None? && c.checkedBy.None? && c.notes.None?
  }

  /** `c` inspects unit-load `row.udc` at its stored position. */
  predicate InspectsRow(c: PositionCheck, row: InventoryRow, locations: map<string, Location>) {
    c.udc == Some(row.udc) && c.positionCode == PositionCodeOf(locations, row.udc)
  }

  /** `c` inspects some unit-load of `inventory` that holds key `k`. */
  predicate InspectsMatchingRow(c: PositionCheck, inventory: seq<InventoryRow>, locations: map<string, Location>, k: ItemKey) {
    exists row :: row in inventory && RowMatches(row, k) && InspectsRow(c, row, locations)
  }

  /** The PENDING check a matching row gets. */
  function CheckOfRow(row: InventoryRow, k: ItemKey, itemId: Id, missionId: Id,
                      locations: map<string, Location>, id: Id): (c: PositionCheck)
    ensures c.id == id && NewCheck(c, missionId, itemId, k.listone) && InspectsRow(c, row, locations)
  {
    PositionCheck(id, missionId, itemId, PositionCodeOf(locations, row.udc), Some(row.udc),
                  Some(k.listone), Pending, None, None, None, None, None)
  }

  /** One check per matching inventory row, in row order, ids from `nextId`. */
  function ChecksForRows(rows: seq<InventoryRow>, k: ItemKey, itemId: Id, missionId: Id,
                         locations: map<string, Location>, nextId: Id): (r: seq<PositionCheck>)
    ensures var mr := MatchingRows(rows, k);
      && |r| == |mr|
      && forall i :: 0 <= i < |r| ==> r[i] == CheckOfRow(mr[i], k, itemId, missionId, locations, nextId + i)
  {
    if |rows| == 0 then []
    else
      var row := rows[0];
      if RowMatches(row, k) then
        var rest := ChecksForRows(rows[1..], k, itemId, missionId, locations, nextId + 1);
        [CheckOfRow(row, k, itemId, missionId, locations, nextId)] + rest
      else
        ChecksForRows(rows[1..], k, itemId, missionId, locations, nextId)
  }

  /** Every check of a key inspects a unit-load holding that key, and every
      such unit-load gets a check. */
  lemma ChecksCoverMatchingRows(rows: seq<InventoryRow>, k: ItemKey, itemId: Id, missionId: Id,
                                locations: map<string, Location>, nextId: Id)
    ensures var r := ChecksForRows(rows, k, itemId, missionId, locations, nextId);
      && (forall c :: c in r ==> exists row :: row in rows && RowMatches(row, k) && InspectsRow(c, row, locations))
      && (forall row :: row in rows && RowMatches(row, k) ==> exists c :: c in r && InspectsRow(c, row, locations))
  {
    var r := ChecksForRows(rows, k, itemId, missionId, locations, nextId);
    var mr := MatchingRows(rows, k);
    forall c | c in r ensures exists row :: row in rows && RowMatches(row, k) && InspectsRow(c, row, locations) {
      var i :| 0 <= i < |r| && r[i] == c;
      assert mr[i] in mr;
    }
    forall row | row in rows && RowMatches(row, k) ensures exists c :: c in r && InspectsRow(c, row, locations) {
      var i :| 0 <= i < |mr| && mr[i] == row;
      assert r[i] in r;
    }
  }

  /** The checks one shortfall line contributes: none when its listone is
      falsy or its key has no item, else one per matching inventory row. */
  function ChecksForLine(l: ShortfallLine, inventory: seq<InventoryRow>, locations: map<string, Location>,
                         itemMap: map<ItemKey, Id>, missionId: Id, nextId: Id): (r: seq<PositionCheck>)
    ensures !Truthy(l.listone) ==> r == []
    ensures KeyOfLine(l).Some? && KeyOfLine(l).value !in itemMap ==> r == []
    ensures KeyOfLine(l).Some? && KeyOfLine(l).value in itemMap ==>
              r == ChecksForRows(inventory, KeyOfLine(l).value, itemMap[KeyOfLine(l).value], missionId, locations, nextId)
    ensures forall c :: c in r ==>
              (KeyOfLine(l).Some? && KeyOfLine(l).value in itemMap &&
               NewCheck(c, missionId, itemMap[KeyOfLine(l).value], l.listone.value) &&
               InspectsMatchingRow(c, inventory, locations, KeyOfLine(l).value))
  {
    match KeyOfLine(l)
    case None => []
    case Some(k) =>
      if k in itemMap then
        var r := ChecksForRows(inventory, k, itemMap[k], missionId, locations, nextId);
        ChecksCoverMatchingRows(inventory, k, itemMap[k], missionId, locations, nextId);
        r
      else []
  }

  /** Reference: the number of checks the lines call for. */
  function ExpectedChecks(lines: seq<ShortfallLine>, inventory: seq<InventoryRow>, itemMap: map<ItemKey, Id>): nat {
    if |lines| == 0 then 0
    else
      (match KeyOfLine(lines[0])
       case None => 0
       case Some(k) => if k in itemMap then |MatchingRows(inventory, k)| else 0)
      + ExpectedChecks(lines[1..], inventory, itemMap)
  }

  /** A check written for a line with a truthy listone whose key resolves
      in the item map, inspecting a unit-load that holds the line's key. */
  predicate CheckForSomeLine(c: PositionCheck, lines: seq<ShortfallLine>, itemMap: map<ItemKey, Id>, missionId: Id,
                             inventory: seq<InventoryRow>, locations: map<string, Location>) {
    exists i :: 0 <= i < |lines| && KeyOfLine(lines[i]).Some? && KeyOfLine(lines[i]).value in itemMap &&
      NewCheck(c, missionId, itemMap[KeyOfLine(lines[i]).value], KeyOfLine(lines[i]).value.listone) &&
      InspectsMatchingRow(c, inventory, locations, KeyOfLine(lines[i]).value)
  }

  /** `_generate_position_checks`: the checks of every line, in line order,
      with consecutive ids from `nextId`. */
  function GenerateChecks(lines: seq<ShortfallLine>, inventory: seq<InventoryRow>, locations: map<string, Location>,
                          itemMap: map<ItemKey, Id>, missionId: Id, nextId: Id): (r: seq<PositionCheck>)
    ensures |r| == ExpectedChecks(lines, inventory, itemMap)
    ensures forall i :: 0 <= i < |r| ==> r[i].id == nextId + i
    ensures forall i :: 0 <= i < |r| ==> CheckForSomeLine(r[i], lines, itemMap, missionId, inventory, locations)
  {
    if |lines| == 0 then []
    else
      var here := ChecksForLine(lines[0], inventory, locations, itemMap, missionId, nextId);
      var rest := GenerateChecks(lines[1..], inventory, locations, itemMap, missionId, nextId + |here|);
      var r := here + rest;
      forall i | 0 <= i < |r| ensures CheckForSomeLine(r[i], lines, itemMap, missionId, inventory, locations) {
        if i < |here| {
          assert r[i] == here[i] && here[i] in here;
        } else {
          assert r[i] == rest[i - |here|];
          CheckForLaterLine(r[i], lines, itemMap, missionId, inventory, locations);
        }
      }
      r
  }

  lemma CheckForLaterLine(c: PositionCheck, lines: seq<ShortfallLine>, itemMap: map<ItemKey, Id>, missionId: Id,
                          inventory: seq<InventoryRow>, locations: map<string, Location>)
    requires |lines| > 0 && CheckForSomeLine(c, lines[1..], itemMap, missionId, inventory, locations)
    ensures CheckForSomeLine(c, lines, itemMap, missionId, inventory, locations)
  {
    var j :| 0 <= j < |lines[1..]| && KeyOfLine(lines[1..][j]).Some? && KeyOfLine(lines[1..][j]).value in itemMap &&
             NewCheck(c, missionId, itemMap[KeyOfLine(lines[1..][j]).value], KeyOfLine(lines[1..][j]).value.listone) &&
             InspectsMatchingRow(c, inventory, locations, KeyOfLine(lines[1..][j]).value);
    assert lines[1..][j] == lines[j + 1];
  }

  // ---------------------------------------------------------------------
  // create_mission_from_cesta
  // ---------------------------------------------------------------------

  function CodesOf(missions: seq<Mission>): (codes: seq<string>)
    ensures |codes| == |missions|
    ensures forall i :: 0 <= i < |missions| ==> codes[i] == missions[i].code
  {
    seq(|missions|, i requires 0 <= i < |missions| => missions[i].code)
  }

  /** The items of one mission, in table order
      (`filter(MissionItem.mission_id == mission.id)`). */
  function ItemsOfMission(items: seq<MissionItem>, missionId: Id): (r: seq<MissionItem>)
    ensures forall it :: it in r <==> it in items && it.missionId == missionId
  {
    if |items| == 0 then []
    else
      assert forall it :: it in items <==> it == items[0] || it in items[1..];
      (if items[0].missionId == missionId then [items[0]] else []) + ItemsOfMission(items[1..], missionId)
  }

  lemma {:induction false} ItemsOfMissionAppend(a: seq<MissionItem>, b: seq<MissionItem>, missionId: Id)
    requires forall i :: 0 <= i < |b| ==> b[i].missionId == missionId
    ensures ItemsOfMission(a + b, missionId) == ItemsOfMission(a, missionId) + b
  {
    if |a| == 0 {
      assert a + b == b;
      ItemsOfMissionAll(b, missionId);
    } else {
      assert (a + b)[1..] == a[1..] + b;
      assert (a + b)[0] == a[0];
      ItemsOfMissionAppend(a[1..], b, missionId);
    }
  }

  lemma {:induction false} ItemsOfMissionAll(b: seq<MissionItem>, missionId: Id)
    requires forall i :: 0 <= i < |b| ==> b[i].missionId == missionId
    ensures ItemsOfMission(b, missionId) == b
  {
    if |b| > 0 {
      ItemsOfMissionAll(b[1..], missionId);
    }
  }

  /** The id the new mission gets (autoincrement). */
  function NewMissionId(db: Db): (id: Id)
    ensures forall j :: 0 <= j < |db.missions| ==> db.missions[j].id < id
  {
    MaxMissionId(db.missions) + 1
  }

  /** The new items, one per line, under ids above every existing one. */
  function NewItems(db: Db, lines: seq<ShortfallLine>, missionId: Id): (r: seq<MissionItem>)
    ensures |r| == |lines|
    ensures forall i :: 0 <= i < |r| ==> CopiesLine(r[i], lines[i], missionId) && KeyOfItem(r[i]) == KeyOfLine(lines[i])
    ensures forall i, j :: 0 <= i < |r| && 0 <= j < |db.items| ==> db.items[j].id < r[i].id
  {
    ItemsFor(lines, missionId, MaxItemId(db.items) + 1)
  }

  /** The checks written once the items are in the table `items'`. */
  function NewChecks(db: Db, lines: seq<ShortfallLine>, missionId: Id, items': seq<MissionItem>): seq<PositionCheck> {
    GenerateChecks(lines, db.inventory, db.locations, ItemMap(ItemsOfMission(items', missionId)), missionId,
                   MaxCheckId(db.checks) + 1)
  }

  /** The store after a mission is created for `lines` under `code`, and
      its outcome. */
  function Build(db: Db, cesta: string, createdBy: string, lines: seq<ShortfallLine>,
                 code: string, now: Time): (r: (Db, CreateOutcome))
    ensures r.1.Created? && r.1.code == code
  {
    var missionId := NewMissionId(db);
    var mission := Mission(missionId, code, cesta, Open, createdBy, now, None, None);
    var items' := db.items + NewItems(db, lines, missionId);
    var newChecks := NewChecks(db, lines, missionId, items');
    var db' := db.(missions := db.missions + [mission], items := items', checks := db.checks + newChecks);
    (db', Created(missionId, code, |lines|, |newChecks|))
  }

  /** The code `_generate_mission_code` gives the next mission of `today`,
      numbered after the text-greatest code of the day. */
  function NextCode(db: Db, today: MissionCode.Date): string {
    MissionCode.GenerateCodeAsWritten(CodesOf(db.missions), today)
  }

  /** `create_mission_from_cesta`, with the shipment reply, the day and the
      clock as inputs. A mission whose code is already taken fails the
      flush, and the whole creation is rolled back and reported failed. */
  function CreateMission(db: Db, cesta: string, createdBy: string, reply: ShipmentReply,
                         today: MissionCode.Date, now: Time): (r: (Db, CreateOutcome))
    ensures reply.ApiFailed? ==> r == (db, CreateFailed(ApiError(reply.message)))
    ensures reply.Shipped? && reply.records == [] ==> r == (db, CreateFailed(NoShippedItems))
    ensures reply.Shipped? && reply.records != [] && FindMissing(db, cesta, reply.records) == [] ==>
              r == (db, NothingMissing) && r.1.Success()
    ensures reply.Shipped? && reply.records != [] && FindMissing(db, cesta, reply.records) != [] &&
            NextCode(db, today) in CodesOf(db.missions) ==>
              r == (db, CreateFailed(DuplicateCode(NextCode(db, today))))
    ensures r.1.Created? <==>
              && reply.Shipped? && reply.records != [] && FindMissing(db, cesta, reply.records) != []
              && NextCode(db, today) !in CodesOf(db.missions)
    ensures r.1.Created? ==> r == Build(db, cesta, createdBy, FindMissing(db, cesta, reply.records), NextCode(db, today), now)
    ensures r.1.Created? ==> forall j :: 0 <= j < |db.missions| ==> db.missions[j].code != r.1.code
  {
    match reply
    case ApiFailed(msg) => (db, CreateFailed(ApiError(msg)))
    case Shipped(records) =>
      if |records| == 0 then (db, CreateFailed(NoShippedItems))
      else
        var lines := FindMissing(db, cesta, records);
        var code := NextCode(db, today);
        if |lines| == 0 then (db, NothingMissing)
        else if code in CodesOf(db.missions) then (db, CreateFailed(DuplicateCode(code)))
        else
          assert forall j :: 0 <= j < |db.missions| ==> CodesOf(db.missions)[j] == db.missions[j].code;
          Build(db, cesta, createdBy, lines, code, now)
  }

  /** Once the day holds codes 999 and 1000, a basket with a shortfall
      cannot get a mission: the code generated is 1000 again, and the
      creation fails on the duplicate. */
  lemma CreateFailsAfterThousand(db: Db, cesta: string, createdBy: string, reply: ShipmentReply,
                                 today: MissionCode.Date, now: Time)
    requires CodesOf(db.missions) == [MissionCode.CodeFor(today, 999), MissionCode.CodeFor(today, 1000)]
    requires reply.Shipped? && reply.records != [] && FindMissing(db, cesta, reply.records) != []
    ensures CreateMission(db, cesta, createdBy, reply, today, now) ==
              (db, CreateFailed(DuplicateCode(MissionCode.CodeFor(today, 1000))))
  {
    MissionCode.AsWrittenRepeatsAfterThousand(today);
  }

  /** While every code of the day is numbered below 1000, creation never
      fails on the code: a basket with a shortfall always gets its mission. */
  lemma CreateSucceedsBelowThousand(db: Db, cesta: string, createdBy: string, reply: ShipmentReply,
                                    today: MissionCode.Date, now: Time)
    requires forall c :: c in CodesOf(db.missions) && MissionCode.HasPrefix(c, MissionCode.CodePrefix(today)) ==>
               MissionCode.NumberedBelowThousand(c, today)
    ensures CreateMission(db, cesta, createdBy, reply, today, now).1.Created? <==>
              reply.Shipped? && reply.records != [] && FindMissing(db, cesta, reply.records) != []
  {
    MissionCode.AsWrittenAgreesBelowThousand(CodesOf(db.missions), today);
  }

  // ---------------------------------------------------------------------
  // What a created mission looks like
  // ---------------------------------------------------------------------

  /** The mission row: a new OPEN mission under a fresh id, appended to the
      table. */
  predicate MissionWritten(db: Db, db': Db, out: CreateOutcome, cesta: string, createdBy: string, now: Time)
    requires out.Created?
  {
    && |db'.missions| == |db.missions| + 1 && db'.missions[..|db.missions|] == db.missions
    && var m := db'.missions[|db.missions|];
    && m.id == out.missionId && m.code == out.code && m.cesta == cesta
    && m.status == Open && m.createdBy == createdBy && m.createdAt == now
    && m.startedAt.None? && m.completedAt.None?
    && (forall j :: 0 <= j < |db.missions| ==> db.missions[j].id != m.id)
  }

  /** The item rows: exactly one unresolved item per line, quantities copied,
      appended under ids no earlier item has. */
  predicate ItemsWritten(items: seq<MissionItem>, items': seq<MissionItem>, lines: seq<ShortfallLine>, missionId: Id) {
    && |items'| == |items| + |lines| && items'[..|items|] == items
    && (forall i :: 0 <= i < |lines| ==> CopiesLine(items'[|items| + i], lines[i], missionId))
    && (forall j, n :: 0 <= j < |items| <= n < |items'| ==> items[j].id != items'[n].id)
  }

  /** The check rows: only new PENDING checks of the mission are appended,
      `count` of them, each attached to one of the newly appended items,
      carrying that item's listone and inspecting a unit-load of the
      inventory that holds the item's SKU for that listone. */
  predicate ChecksWritten(checks: seq<PositionCheck>, checks': seq<PositionCheck>, items: seq<MissionItem>,
                          items': seq<MissionItem>, missionId: Id, count: nat,
                          inventory: seq<InventoryRow>, locations: map<string, Location>) {
    && |checks'| == |checks| + count && checks'[..|checks|] == checks
    && (forall i :: |checks| <= i < |checks'| ==> AttachedNewCheck(checks'[i], items, items', missionId, inventory, locations))
  }

  /** A new PENDING check of the mission, attached to one of the items
      appended after `items`, carrying that item's listone, and inspecting a
      unit-load that holds the item's key. */
  predicate AttachedNewCheck(c: PositionCheck, items: seq<MissionItem>, items': seq<MissionItem>, missionId: Id,
                             inventory: seq<InventoryRow>, locations: map<string, Location>) {
    && c.missionId == missionId && c.status == Pending
    && c.listone.Some? && c.foundInPosition.None? && c.qtyFound.None?
    && exists j :: |items| <= j < |items'| && items'[j].id == c.itemId && items'[j].listone == c.listone &&
         InspectsMatchingRow(c, inventory, locations, ItemKey(items'[j].sku, c.listone.value))
  }

  predicate OtherTablesKept(db: Db, db': Db) {
    && db'.orders == db.orders && db'.orderItems == db.orderItems && db'.events == db.events
    && db'.inventory == db.inventory && db'.locations == db.locations
  }

  lemma BuildWritesMission(db: Db, cesta: string, createdBy: string, lines: seq<ShortfallLine>,
                           code: string, now: Time)
    ensures var r := Build(db, cesta, createdBy, lines, code, now);
      MissionWritten(db, r.0, r.1, cesta, createdBy, now) && OtherTablesKept(db, r.0)
  {
  }

  lemma ItemsAppended(db: Db, lines: seq<ShortfallLine>, missionId: Id)
    ensures ItemsWritten(db.items, db.items + NewItems(db, lines, missionId), lines, missionId)
  {
    var newItems := NewItems(db, lines, missionId);
    AppendedItemsWritten(db.items, newItems, lines, missionId);
  }

  lemma AppendedItemsWritten(items: seq<MissionItem>, newItems: seq<MissionItem>, lines: seq<ShortfallLine>, missionId: Id)
    requires |newItems| == |lines|
    requires forall i :: 0 <= i < |newItems| ==> CopiesLine(newItems[i], lines[i], missionId)
    requires forall i, j :: 0 <= i < |newItems| && 0 <= j < |items| ==> items[j].id < newItems[i].id
    ensures ItemsWritten(items, items + newItems, lines, missionId)
  {
    var items' := items + newItems;
    forall i | 0 <= i < |lines| ensures CopiesLine(items'[|items| + i], lines[i], missionId) {
      assert items'[|items| + i] == newItems[i];
    }
    forall j, n | 0 <= j < |items| <= n < |items'| ensures items[j].id != items'[n].id {
      assert items'[n] == newItems[n - |items|];
    }
    assert items'[..|items|] == items;
  }

  lemma ChecksAppended(db: Db, newItems: seq<MissionItem>, lines: seq<ShortfallLine>, missionId: Id)
    requires |newItems| == |lines|
    requires forall i :: 0 <= i < |newItems| ==> KeyOfItem(newItems[i]) == KeyOfLine(lines[i]) && newItems[i].missionId == missionId
    ensures var items' := db.items + newItems;
      var newChecks := NewChecks(db, lines, missionId, items');
      ChecksWritten(db.checks, db.checks + newChecks, db.items, items', missionId, |newChecks|, db.inventory, db.locations)
  {
    var checks, items := db.checks, db.items;
    var items' := items + newItems;
    var before := ItemsOfMission(items, missionId);
    ItemsOfMissionAppend(items, newItems, missionId);
    assert ItemMap(ItemsOfMission(items', missionId)) == ItemMap(before + newItems);
    var newChecks := NewChecks(db, lines, missionId, items');
    ChecksAttached(checks, items, before, newItems, lines, missionId, newChecks, db.inventory, db.locations);
  }

  /** Checks written for the lines are attached to the items appended for
      them. */
  lemma ChecksAttached(checks: seq<PositionCheck>, items: seq<MissionItem>, before: seq<MissionItem>,
                       newItems: seq<MissionItem>, lines: seq<ShortfallLine>, missionId: Id, newChecks: seq<PositionCheck>,
                       inventory: seq<InventoryRow>, locations: map<string, Location>)
    requires |newItems| == |lines|
    requires forall i :: 0 <= i < |newItems| ==> KeyOfItem(newItems[i]) == KeyOfLine(lines[i])
    requires forall k :: 0 <= k < |newChecks| ==>
               CheckForSomeLine(newChecks[k], lines, ItemMap(before + newItems), missionId, inventory, locations)
    ensures ChecksWritten(checks, checks + newChecks, items, items + newItems, missionId, |newChecks|, inventory, locations)
  {
    var checks' := checks + newChecks;
    forall i | |checks| <= i < |checks'| ensures AttachedNewCheck(checks'[i], items, items + newItems, missionId, inventory, locations) {
      assert checks'[i] == newChecks[i - |checks|];
      CheckOfNewItem(items, before, newItems, lines, missionId, newChecks[i - |checks|], inventory, locations);
    }
    assert checks'[..|checks|] == checks;
  }

  /** A check written for one of the lines is attached to one of the items
      appended for them, and carries that item's listone. */
  lemma CheckOfNewItem(items: seq<MissionItem>, before: seq<MissionItem>, newItems: seq<MissionItem>,
                       lines: seq<ShortfallLine>, missionId: Id, c: PositionCheck,
                       inventory: seq<InventoryRow>, locations: map<string, Location>)
    requires |newItems| == |lines|
    requires forall i :: 0 <= i < |newItems| ==> KeyOfItem(newItems[i]) == KeyOfLine(lines[i])
    requires CheckForSomeLine(c, lines, ItemMap(before + newItems), missionId, inventory, locations)
    ensures AttachedNewCheck(c, items, items + newItems, missionId, inventory, locations)
  {
    var itemMap := ItemMap(before + newItems);
    var l :| 0 <= l < |lines| && KeyOfLine(lines[l]).Some? && KeyOfLine(lines[l]).value in itemMap &&
             NewCheck(c, missionId, itemMap[KeyOfLine(lines[l]).value], KeyOfLine(lines[l]).value.listone) &&
             InspectsMatchingRow(c, inventory, locations, KeyOfLine(lines[l]).value);
    ItemMapSuffixWins(before, newItems, l);
    var n :| 0 <= n < |newItems| && KeyOfItem(newItems[n]) == KeyOfItem(newItems[l]) &&
             itemMap[KeyOfLine(lines[l]).value] == newItems[n].id;
    assert (items + newItems)[|items| + n] == newItems[n];
  }

  lemma BuildWritesChecks(db: Db, cesta: string, createdBy: string, lines: seq<ShortfallLine>,
                          code: string, now: Time)
    ensures var r := Build(db, cesta, createdBy, lines, code, now);
      ChecksWritten(db.checks, r.0.checks, db.items, r.0.items, r.1.missionId, r.1.checksCreated, db.inventory, db.locations)
  {
    var missionId := NewMissionId(db);
    var newItems := NewItems(db, lines, missionId);
    var items' := db.items + newItems;
    ChecksAppended(db, newItems, lines, missionId);
  }

  lemma BuildShape(db: Db, cesta: string, createdBy: string, lines: seq<ShortfallLine>,
                   code: string, now: Time)
    ensures var r := Build(db, cesta, createdBy, lines, code, now);
      && MissionWritten(db, r.0, r.1, cesta, createdBy, now)
      && r.1.totalMissing == |lines|
      && ItemsWritten(db.items, r.0.items, lines, r.1.missionId)
      && ChecksWritten(db.checks, r.0.checks, db.items, r.0.items, r.1.missionId, r.1.checksCreated, db.inventory, db.locations)
      && OtherTablesKept(db, r.0)
  {
    BuildWritesMission(db, cesta, createdBy, lines, code, now);
    ItemsAppended(db, lines, NewMissionId(db));
    BuildWritesChecks(db, cesta, createdBy, lines, code, now);
  }

  /** A created mission: the mission row, one item per shortfall line and
      only new PENDING checks attached to those items, with the reported
      counts; the other tables are untouched. */
  lemma CreatedMissionShape(db: Db, cesta: string, createdBy: string, reply: ShipmentReply,
                            today: MissionCode.Date, now: Time)
    ensures var (db', out) := CreateMission(db, cesta, createdBy, reply, today, now);
      out.Created? ==>
        && MissionWritten(db, db', out, cesta, createdBy, now)
        && out.code == NextCode(db, today)
        && (forall j :: 0 <= j < |db.missions| ==> db.missions[j].code != out.code)
        && out.totalMissing == |FindMissing(db, cesta, reply.records)|
        && ItemsWritten(db.items, db'.items, FindMissing(db, cesta, reply.records), out.missionId)
        && ChecksWritten(db.checks, db'.checks, db.items, db'.items, out.missionId, out.checksCreated, db.inventory, db.locations)
        && OtherTablesKept(db, db')
  {
    if reply.Shipped? {
      BuildShape(db, cesta, createdBy, FindMissing(db, cesta, reply.records), NextCode(db, today), now);
    }
  }

  /** Reference: the inventory rows matching the key of each line that has
      one, counted with multiplicity. */
  function MatchingRowsOfLines(lines: seq<ShortfallLine>, inventory: seq<InventoryRow>): nat {
    if |lines| == 0 then 0
    else
      (match KeyOfLine(lines[0])
       case None => 0
       case Some(k) => |MatchingRows(inventory, k)|)
      + MatchingRowsOfLines(lines[1..], inventory)
  }

  lemma {:induction false} ExpectedChecksAllKeyed(lines: seq<ShortfallLine>, inventory: seq<InventoryRow>, itemMap: map<ItemKey, Id>)
    requires forall l :: 0 <= l < |lines| && KeyOfLine(lines[l]).Some? ==> KeyOfLine(lines[l]).value in itemMap
    ensures ExpectedChecks(lines, inventory, itemMap) == MatchingRowsOfLines(lines, inventory)
  {
    if |lines| > 0 {
      assert forall l :: 0 <= l < |lines[1..]| ==> lines[1..][l] == lines[l + 1];
      ExpectedChecksAllKeyed(lines[1..], inventory, itemMap);
    }
  }

  /** Every shortfall line with a truthy listone finds its item in the map,
      so a line is skipped only for want of a listone: the number of checks
      is the number of inventory rows matching the keys of those lines. */
  lemma CheckCountOfCreatedMission(db: Db, cesta: string, createdBy: string, lines: seq<ShortfallLine>,
                                   code: string, now: Time)
    ensures Build(db, cesta, createdBy, lines, code, now).1.checksCreated == MatchingRowsOfLines(lines, db.inventory)
  {
    var missionId := NewMissionId(db);
    var newItems := NewItems(db, lines, missionId);
    var before := ItemsOfMission(db.items, missionId);
    ItemsOfMissionAppend(db.items, newItems, missionId);
    var itemMap := ItemMap(before + newItems);
    forall l | 0 <= l < |lines| && KeyOfLine(lines[l]).Some? ensures KeyOfLine(lines[l]).value in itemMap {
      assert KeyOfItem(newItems[l]) == KeyOfLine(lines[l]);
      ItemMapSuffixWins(before, newItems, l);
    }
    ExpectedChecksAllKeyed(lines, db.inventory, itemMap);
  }
}
