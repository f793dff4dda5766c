/** The unit-load inventory rebuild (services/ingestion_service/
    rebuild_udc_inventory.py): for one company, the inventory rows are
    cleared and recomputed as the sum of picked quantities per
    (unit-load, SKU, pick-list group), from picking events joined to their
    order items. */
module Inventory {
  import opened Basics
  import opened Store
  import opened Text
  import Grouping
  import Sorting

  /** `(company or DEFAULT_COMPANY).strip().lower()`; the default company
      setting is a parameter. */
  function CompanyKey(company: Option<string>, defaultCompany: string): (k: string)
    ensures Trimmed(k) && Lower(k) == k
  {
    var raw := if TruthyText(company) then company.value else defaultCompany;
    var t := Strip(raw);
    LowerStable(t);
    Lower(t)
  }

  /** Passing a (non-empty) key back in as the company gives the same key. */
  lemma CompanyKeyStable(company: Option<string>, defaultCompany: string)
    requires CompanyKey(company, defaultCompany) != ""
    ensures CompanyKey(Some(CompanyKey(company, defaultCompany)), defaultCompany) == CompanyKey(company, defaultCompany)
  {
    var k := CompanyKey(company, defaultCompany);
    assert TruthyText(Some(k));
    StripTrimmed(k);
    assert Strip(k) == k && Lower(k) == k;
  }

  /** Leading separators are stripped like spaces: `" \x1cACME"` keys as
      `acme`. */
  lemma CompanyKeySkipsSeparator(defaultCompany: string)
    ensures CompanyKey(Some(" \U{1C}ACME"), defaultCompany) == "acme"
  {
    assert TruthyText(Some(" \U{1C}ACME"));
    SeparatorPrefixStrips();
    LowerAcme();
  }

  lemma SeparatorPrefixStrips()
    ensures Strip(" \U{1C}ACME") == "ACME"
  {
    assert " \U{1C}ACME" == " \U{1C}" + "ACME";
    StripLeadingBlank(" \U{1C}", "ACME");
  }

  lemma LowerAcme()
    ensures Lower("ACME") == "acme"
  {
    var l := Lower("ACME");
    assert l[0] == 'a' && l[1] == 'c' && l[2] == 'm' && l[3] == 'e';
  }

  /** The `GROUP BY` key of the aggregation. */
  datatype InvKey = InvKey(udc: string, sku: string, listone: int)

  function KeyOfRow(row: InventoryRow): InvKey {
    InvKey(row.udc, row.sku, row.listone)
  }

  /** The join and filter of the aggregation query: the event belongs to the
      order item, both to the company, the unit-load and pick-list group are
      set, and something was picked. (The SKU column is never null here.) */
  predicate Joins(e: PickingEvent, it: OrderItem, key: string) {
    && e.orderItemId == it.id && e.company == key && it.company == key
    && e.udc.Some? && it.listone.Some? && e.qtyPicked > 0
  }

  function JoinKey(e: PickingEvent, it: OrderItem): InvKey
    requires e.udc.Some? && it.listone.Some?
  {
    InvKey(e.udc.value, it.sku, it.listone.value)
  }

  /** The joined rows of one event. */
  function JoinedWith(e: PickingEvent, items: seq<OrderItem>, key: string): (r: seq<(InvKey, int)>)
    ensures forall row :: row in r <==>
      exists it :: it in items && Joins(e, it, key) && row == (JoinKey(e, it), e.qtyPicked)
  {
    if |items| == 0 then []
    else
      var rest := JoinedWith(e, items[1..], key);
      assert items == [items[0]] + items[1..];
      if Joins(e, items[0], key) then [(JoinKey(e, items[0]), e.qtyPicked)] + rest else rest
  }

  /** The (key, picked quantity) rows the aggregation sums: one per joined
      (event, order item) pair, every quantity positive. */
  function Joined(events: seq<PickingEvent>, items: seq<OrderItem>, key: string): (r: seq<(InvKey, int)>)
    ensures forall row :: row in r <==>
      exists e, it :: e in events && it in items && Joins(e, it, key) && row == (JoinKey(e, it), e.qtyPicked)
    ensures forall i :: 0 <= i < |r| ==> r[i].1 > 0
  {
    if |events| == 0 then []
    else
      var head := JoinedWith(events[0], items, key);
      var rest := Joined(events[1..], items, key);
      assert events == [events[0]] + events[1..];
      assert forall i :: 0 <= i < |head| ==> head[i].1 > 0 by {
        forall i | 0 <= i < |head| ensures head[i].1 > 0 {
          assert head[i] in head;
        }
      }
      head + rest
  }

  /** The `if row.total_qty and row.total_qty > 0` loop: one company row per
      group with a positive total. */
  function RowsOf(groups: seq<(InvKey, int)>, key: string): (r: seq<InventoryRow>)
    ensures |r| <= |groups|
    ensures forall row :: row in r <==>
      row.company == key && row.qty > 0 && (KeyOfRow(row), row.qty) in groups
  {
    if |groups| == 0 then []
    else
      var g := groups[0];
      var rest := RowsOf(groups[1..], key);
      assert groups == [g] + groups[1..];
      if g.1 > 0 then [InventoryRow(key, g.0.udc, g.0.sku, g.0.listone, g.1)] + rest else rest
  }

  /** When every total is positive nothing is filtered out and the rows
      follow the groups one for one. */
  lemma {:induction false} RowsOfPositive(groups: seq<(InvKey, int)>, key: string)
    requires forall i :: 0 <= i < |groups| ==> groups[i].1 > 0
    ensures |RowsOf(groups, key)| == |groups|
    ensures forall i :: 0 <= i < |groups| ==> KeyOfRow(RowsOf(groups, key)[i]) == groups[i].0
  {
    if |groups| > 0 {
      RowsOfPositive(groups[1..], key);
      var rest := RowsOf(groups[1..], key);
      var r := RowsOf(groups, key);
      forall i | 0 <= i < |groups| ensures KeyOfRow(r[i]) == groups[i].0 {
        if i > 0 { assert r[i] == rest[i - 1] && groups[i] == groups[1..][i - 1]; }
      }
    }
  }

  /** The rows the rebuild writes for the company. */
  function NewRows(events: seq<PickingEvent>, items: seq<OrderItem>, key: string): seq<InventoryRow> {
    RowsOf(Grouping.Group(Joined(events, items, key)), key)
  }

  predicate OtherCompany(row: InventoryRow, key: string) {
    row.company != key
  }

  /** The rows a rebuild for `key` keeps. */
  function Others(key: string): InventoryRow -> bool {
    row => OtherCompany(row, key)
  }

  /** The rows a rebuild for `key` replaces. */
  function Ours(key: string): InventoryRow -> bool {
    row => !OtherCompany(row, key)
  }

  /** `rebuild_udc_inventory`: the company's rows are deleted and replaced
      by the aggregation; the count is the number of rows written. Nothing
      but the inventory changes. */
  function Rebuild(db: Db, company: Option<string>, defaultCompany: string): (r: (Db, nat))
    ensures r.0 == db.(inventory := r.0.inventory)
    ensures var key := CompanyKey(company, defaultCompany);
      forall row :: OtherCompany(row, key) ==> (row in r.0.inventory <==> row in db.inventory)
    ensures var key := CompanyKey(company, defaultCompany);
      forall row :: row in r.0.inventory && !OtherCompany(row, key) ==>
        row.qty > 0 && row.qty == Grouping.Total(Joined(db.events, db.orderItems, key), KeyOfRow(row))
  {
    var key := CompanyKey(company, defaultCompany);
    var kept := Sorting.Filter(db.inventory, Others(key));
    var joined := Joined(db.events, db.orderItems, key);
    var rows := NewRows(db.events, db.orderItems, key);
    assert forall row :: row in rows ==> !OtherCompany(row, key) && row.qty == Grouping.Total(joined, KeyOfRow(row)) by {
      var g := Grouping.Group(joined);
      forall row | row in rows ensures !OtherCompany(row, key) && row.qty == Grouping.Total(joined, KeyOfRow(row)) {
        var i :| 0 <= i < |g| && g[i] == (KeyOfRow(row), row.qty);
      }
    }
    (db.(inventory := kept + rows), |rows|)
  }

  /** The positive totals of the grouping: every group's key occurs. */
  lemma GroupsPositive(joined: seq<(InvKey, int)>)
    requires forall i :: 0 <= i < |joined| ==> joined[i].1 > 0
    ensures forall i :: 0 <= i < |Grouping.Group(joined)| ==> Grouping.Group(joined)[i].1 > 0
  {
    var g := Grouping.Group(joined);
    forall i | 0 <= i < |g| ensures g[i].1 > 0 {
      assert Grouping.HasKey(g, g[i].0);
      Grouping.TotalOfPresentKeyPositive(joined, g[i].0);
    }
  }

  /** The new rows carry exactly the keys of the joined rows, one row per key. */
  lemma NewRowsKeys(events: seq<PickingEvent>, items: seq<OrderItem>, key: string)
    ensures forall k :: Grouping.HasKey(Joined(events, items, key), k) <==>
      exists row :: row in NewRows(events, items, key) && KeyOfRow(row) == k
    ensures forall i, j :: 0 <= i < j < |NewRows(events, items, key)| ==>
      KeyOfRow(NewRows(events, items, key)[i]) != KeyOfRow(NewRows(events, items, key)[j])
  {
    GroupedRowsKeys(Joined(events, items, key), key);
  }

  /** The rows of the groups of positive joined rows carry exactly the
      joined keys, one row per key. */
  lemma GroupedRowsKeys(joined: seq<(InvKey, int)>, key: string)
    requires forall i :: 0 <= i < |joined| ==> joined[i].1 > 0
    ensures forall k :: Grouping.HasKey(joined, k) <==>
      exists row :: row in RowsOf(Grouping.Group(joined), key) && KeyOfRow(row) == k
    ensures forall i, j :: 0 <= i < j < |RowsOf(Grouping.Group(joined), key)| ==>
      KeyOfRow(RowsOf(Grouping.Group(joined), key)[i]) != KeyOfRow(RowsOf(Grouping.Group(joined), key)[j])
  {
    var g := Grouping.Group(joined);
    var rows := RowsOf(g, key);
    GroupsPositive(joined);
    RowsOfPositive(g, key);
    forall k ensures Grouping.HasKey(joined, k) <==> exists row :: row in rows && KeyOfRow(row) == k {
      if Grouping.HasKey(joined, k) {
        assert Grouping.HasKey(g, k);
        var i :| 0 <= i < |g| && g[i].0 == k;
        assert rows[i] in rows && KeyOfRow(rows[i]) == k;
      }
      if exists row :: row in rows && KeyOfRow(row) == k {
        var row :| row in rows && KeyOfRow(row) == k;
        var i :| 0 <= i < |rows| && rows[i] == row;
        assert g[i].0 == k;
        assert Grouping.HasKey(g, k);
      }
    }
  }

  /** No two new rows share a key. */
  lemma NewRowsUnique(events: seq<PickingEvent>, items: seq<OrderItem>, key: string)
    ensures forall row, row' ::
      (row in NewRows(events, items, key) && row' in NewRows(events, items, key) && KeyOfRow(row) == KeyOfRow(row')) ==> row == row'
  {
    var rows := NewRows(events, items, key);
    NewRowsKeys(events, items, key);
    forall row, row' | row in rows && row' in rows && KeyOfRow(row) == KeyOfRow(row') ensures row == row' {
      var i :| 0 <= i < |rows| && rows[i] == row;
      var j :| 0 <= j < |rows| && rows[j] == row';
      assert !(i < j) && !(j < i);
    }
  }

  /** The inventory after a rebuild: the other companies' rows in their
      order, then the new rows. */
  lemma RebuildInventory(db: Db, company: Option<string>, defaultCompany: string)
    ensures var key := CompanyKey(company, defaultCompany);
      && Rebuild(db, company, defaultCompany).0.inventory ==
           Sorting.Filter(db.inventory, Others(key)) + NewRows(db.events, db.orderItems, key)
      && Rebuild(db, company, defaultCompany).1 == |NewRows(db.events, db.orderItems, key)|
  {
  }

  /** The company's rows after a rebuild are exactly the new rows, and
      there are as many as the count returned. */
  lemma RebuildCompanyRows(db: Db, company: Option<string>, defaultCompany: string)
    ensures var key := CompanyKey(company, defaultCompany);
      && (forall row :: row in Rebuild(db, company, defaultCompany).0.inventory && !OtherCompany(row, key) <==>
                         row in NewRows(db.events, db.orderItems, key))
      && Rebuild(db, company, defaultCompany).1 ==
           |Sorting.Filter(Rebuild(db, company, defaultCompany).0.inventory, Ours(key))|
  {
    var key := CompanyKey(company, defaultCompany);
    var q := Ours(key);
    var kept := Sorting.Filter(db.inventory, Others(key));
    var rows := NewRows(db.events, db.orderItems, key);
    RebuildInventory(db, company, defaultCompany);
    NewRowsKeys(db.events, db.orderItems, key);
    Sorting.FilterAppend(kept, rows, q);
    Sorting.FilterDropsAll(kept, q);
    Sorting.FilterKeepsAll(rows, q);
  }

  /** The rows written for the company: one per (unit-load, SKU, pick-list
      group) that some joined event contributes to, never two for one key. */
  lemma RebuildRows(db: Db, company: Option<string>, defaultCompany: string)
    ensures var key := CompanyKey(company, defaultCompany);
      && (forall k :: Grouping.HasKey(Joined(db.events, db.orderItems, key), k) <==>
            exists row :: row in Rebuild(db, company, defaultCompany).0.inventory && !OtherCompany(row, key) && KeyOfRow(row) == k)
      && (forall row, row' ::
            (&& row in Rebuild(db, company, defaultCompany).0.inventory
             && row' in Rebuild(db, company, defaultCompany).0.inventory
             && !OtherCompany(row, key) && !OtherCompany(row', key) && KeyOfRow(row) == KeyOfRow(row')) ==> row == row')
  {
    var key := CompanyKey(company, defaultCompany);
    var rows := NewRows(db.events, db.orderItems, key);
    var inv := Rebuild(db, company, defaultCompany).0.inventory;
    var joined := Joined(db.events, db.orderItems, key);
    RebuildCompanyRows(db, company, defaultCompany);
    NewRowsKeys(db.events, db.orderItems, key);
    forall k ensures Grouping.HasKey(joined, k) <==> exists row :: row in inv && !OtherCompany(row, key) && KeyOfRow(row) == k {
      if Grouping.HasKey(joined, k) {
        var row :| row in rows && KeyOfRow(row) == k;
        assert row in inv && !OtherCompany(row, key);
      }
    }
    NewRowsUnique(db.events, db.orderItems, key);
  }

  /** Rebuilding again without new events changes nothing: the second run
      deletes exactly the rows the first wrote and writes them again. */
  lemma RebuildIdempotent(db: Db, company: Option<string>, defaultCompany: string)
    ensures var r := Rebuild(db, company, defaultCompany);
      Rebuild(r.0, company, defaultCompany) == r
  {
    var key := CompanyKey(company, defaultCompany);
    var p := Others(key);
    var kept := Sorting.Filter(db.inventory, p);
    var rows := NewRows(db.events, db.orderItems, key);
    RebuildInventory(db, company, defaultCompany);
    Sorting.FilterAppend(kept, rows, p);
    Sorting.FilterKeepsAll(kept, p);
    Sorting.FilterDropsAll(rows, p);
    assert Sorting.Filter(kept + rows, p) == kept;
  }
}
