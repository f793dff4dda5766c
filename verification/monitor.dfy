/** The location-directory update of the position-snapshot importer
    (services/ingestion_service/monitor_importer.py, `_update_positions_fast`
    and `_extract_date_from_filename`): the newest snapshot row of each
    pallet gives that unit-load's slot, whose position code is composed from
    its non-blank parts, and the location is overwritten unconditionally. */
module Monitor {
  import opened Basics
  import opened Store
  import opened Text
  import Sorting
  import MissionCode

  /** One snapshot row: the pallet (unit-load) code, the slot fields, and
      the raw `DataOra` text as the CSV reader leaves it. */
  datatype MonitorRow = MonitorRow(
    pallet: Option<string>,
    mag: Option<string>,
    scaf: Option<string>,
    col: Option<string>,
    pia: Option<string>,
    sc: Option<string>,
    comp: Option<string>,
    dataOra: Option<string>)

  // ---------------------------------------------------------------------
  // Position code
  // ---------------------------------------------------------------------

  /** `pd.notna(val) and str(val).strip()`. */
  predicate Present(v: Option<string>) {
    v.Some? && Strip(v.value) != ""
  }

  function Keep(v: Option<string>): (r: seq<string>)
    ensures |r| <= 1
    ensures r == [] <==> !Present(v)
  {
    if Present(v) then [v.value] else []
  }

  /** A cell holding only a separator character is blank and dropped. */
  lemma SeparatorCellDropped()
    ensures Keep(Some("\U{1C}")) == []
  {
    SeparatorsStripToNothing();
  }

  /** The present parts of the slot, in the order Mag, Scaf, Col, Pia, each
      as given (unstripped). */
  function PartsOf(row: MonitorRow): (parts: seq<string>)
    ensures |parts| <= 4
    ensures parts == [] <==> !Present(row.mag) && !Present(row.scaf) && !Present(row.col) && !Present(row.pia)
  {
    Keep(row.mag) + Keep(row.scaf) + Keep(row.col) + Keep(row.pia)
  }

  /** `'-'.join(position_parts) if position_parts else 'UNKNOWN'`: UNKNOWN
      when every part is blank; otherwise splitting the code on '-' gives the
      present parts back, provided none of them holds a '-'. */
  function PositionCode(row: MonitorRow): (code: string)
    ensures PartsOf(row) == [] ==> code == Unknown
    ensures PartsOf(row) != [] && (forall i :: 0 <= i < |PartsOf(row)| ==> '-' !in PartsOf(row)[i]) ==>
      Split(code, '-') == PartsOf(row)
  {
    var parts := PartsOf(row);
    if |parts| > 0 then
      assert (forall i :: 0 <= i < |parts| ==> '-' !in parts[i]) ==> Split(Join(parts, '-'), '-') == parts by {
        if forall i :: 0 <= i < |parts| ==> '-' !in parts[i] {
          SplitJoin(parts, '-');
        }
      }
      Join(parts, '-')
    else Unknown
  }

  // ---------------------------------------------------------------------
  // The newest row per pallet
  // ---------------------------------------------------------------------

  /** The pallet values occurring in `s`. */
  function Pallets(s: seq<MonitorRow>): set<Option<string>> {
    set x | x in s :: x.pallet
  }

  /** Holds of the rows whose pallet is not `q`. */
  function NotPallet(q: Option<string>): MonitorRow -> bool {
    (x: MonitorRow) => x.pallet != q
  }

  /** No two rows share a pallet. */
  predicate DistinctPallets(s: seq<MonitorRow>) {
    forall i, j :: 0 <= i < j < |s| ==> s[i].pallet != s[j].pallet
  }

  lemma PalletsCons(x: MonitorRow, s: seq<MonitorRow>)
    ensures forall y :: y in [x] + s <==> y == x || y in s
    ensures Pallets([x] + s) == {x.pallet} + Pallets(s)
  {
    assert forall y :: y in [x] + s <==> y == x || y in s;
  }

  /** The pallets of a table are its first row's and those of the later
      rows of other pallets. */
  lemma PalletsDropFirst(s: seq<MonitorRow>)
    requires |s| > 0
    ensures Pallets(s) == {s[0].pallet} + Pallets(Sorting.Filter(s[1..], NotPallet(s[0].pallet)))
  {
    var rest := Sorting.Filter(s[1..], NotPallet(s[0].pallet));
    assert s == [s[0]] + s[1..];
    PalletsCons(s[0], s[1..]);
    forall q | q in Pallets(s[1..]) && q != s[0].pallet ensures q in Pallets(rest) {
      var x :| x in s[1..] && x.pallet == q;
      assert NotPallet(s[0].pallet)(x);
      assert x in rest;
    }
  }

  lemma DistinctCons(x: MonitorRow, s: seq<MonitorRow>)
    requires DistinctPallets(s) && x.pallet !in Pallets(s)
    ensures DistinctPallets([x] + s)
  {
    var r := [x] + s;
    forall i, j | 0 <= i < j < |r| ensures r[i].pallet != r[j].pallet {
      assert r[j] == s[j - 1] && s[j - 1] in s;
      if i > 0 { assert r[i] == s[i - 1]; }
    }
  }

  /** `drop_duplicates(subset=['Pallet'], keep='first')`: the first row of
      each pallet, in order. */
  function Dedup(s: seq<MonitorRow>): (r: seq<MonitorRow>)
    ensures |r| <= |s|
    ensures forall x :: x in r ==> x in s
    ensures Pallets(r) == Pallets(s)
    ensures DistinctPallets(r)
    decreases |s|
  {
    if |s| == 0 then []
    else
      var rest := Sorting.Filter(s[1..], NotPallet(s[0].pallet));
      var r0 := Dedup(rest);
      PalletsDropFirst(s);
      PalletsCons(s[0], r0);
      assert forall x :: x in rest ==> x.pallet != s[0].pallet;
      assert s[0].pallet !in Pallets(r0);
      DistinctCons(s[0], r0);
      assert forall x :: x in rest ==> x in s[1..];
      [s[0]] + r0
  }

  /** In a `newer`-sorted table the row kept for a pallet is at least as
      new as every row of that pallet. */
  lemma {:induction false} DedupKeepsNewest(s: seq<MonitorRow>, newer: (MonitorRow, MonitorRow) -> bool)
    requires Sorting.TotalPreorder(newer) && Sorting.SortedBy(s, newer)
    ensures forall y, x :: y in Dedup(s) && x in s && x.pallet == y.pallet ==> newer(y, x)
    decreases |s|
  {
    if |s| > 0 {
      var rest := Sorting.Filter(s[1..], NotPallet(s[0].pallet));
      assert Sorting.SortedBy(s[1..], newer);
      Sorting.FilterSorted(s[1..], NotPallet(s[0].pallet), newer);
      DedupKeepsNewest(rest, newer);
      assert Dedup(s) == [s[0]] + Dedup(rest);
      forall y, x | y in Dedup(s) && x in s && x.pallet == y.pallet ensures newer(y, x) {
        var k :| 0 <= k < |s| && s[k] == x;
        if y == s[0] {
          if k > 0 { assert newer(s[0], s[k]); } else { assert newer(s[0], s[0]); }
        } else {
          assert y in Dedup(rest) && y in rest;
          assert NotPallet(s[0].pallet)(y);
          assert x in s[1..] by { assert k > 0 && s[1..][k - 1] == x; }
          assert x in rest;
        }
      }
    }
  }

  /** The first row's pallet is not repeated after it. */
  lemma DistinctTail(s: seq<MonitorRow>)
    requires |s| > 0 && DistinctPallets(s)
    ensures DistinctPallets(s[1..]) && s[0].pallet !in Pallets(s[1..])
  {
    var t := s[1..];
    forall x | x in t ensures x.pallet != s[0].pallet {
      var k :| 0 <= k < |t| && t[k] == x;
      assert s[k + 1] == x;
    }
    forall i, j | 0 <= i < j < |t| ensures t[i].pallet != t[j].pallet {
      assert t[i] == s[i + 1] && t[j] == s[j + 1];
    }
  }

  /** Null pallets are skipped; the others keep their order. */
  function NonNull(s: seq<MonitorRow>): (r: seq<MonitorRow>)
    ensures forall x :: x in r <==> x in s && x.pallet.Some?
    ensures DistinctPallets(s) ==> DistinctPallets(r)
  {
    if |s| == 0 then []
    else
      var rest := NonNull(s[1..]);
      assert forall x :: x in s <==> x == s[0] || x in s[1..] by {
        assert s == [s[0]] + s[1..];
      }
      var r := (if s[0].pallet.Some? then [s[0]] else []) + rest;
      assert DistinctPallets(s) ==> DistinctPallets(r) by {
        if DistinctPallets(s) {
          DistinctTail(s);
          if s[0].pallet.Some? {
            assert s[0].pallet !in Pallets(rest);
            DistinctCons(s[0], rest);
          } else {
            assert r == rest;
          }
        }
      }
      r
  }

  /** The rows that update a location: the table sorted by `newer`, the first
      row of each pallet, null pallets skipped. */
  function Latest(rows: seq<MonitorRow>, newer: (MonitorRow, MonitorRow) -> bool): (r: seq<MonitorRow>)
    ensures forall x :: x in r ==> x.pallet.Some? && x in rows
    ensures DistinctPallets(r)
    ensures Pallets(r) == Pallets(rows) - {None}
  {
    var sorted := Sorting.Sort(rows, newer);
    var d := Dedup(sorted);
    var r := NonNull(d);
    assert Pallets(sorted) == Pallets(rows);
    assert Pallets(r) == Pallets(d) - {None} by {
      forall q | q in Pallets(d) - {None} ensures q in Pallets(r) {
        var x :| x in d && x.pallet == q;
        assert x in r;
      }
    }
    r
  }

  /** The row kept for each pallet is at least as new as every row of that
      pallet, whatever (total, transitive) order `newer` is. */
  lemma LatestIsNewest(rows: seq<MonitorRow>, newer: (MonitorRow, MonitorRow) -> bool)
    requires Sorting.TotalPreorder(newer)
    ensures forall y, x :: y in Latest(rows, newer) && x in rows && x.pallet == y.pallet ==> newer(y, x)
  {
    var sorted := Sorting.Sort(rows, newer);
    Sorting.SortSorted(rows, newer);
    DedupKeepsNewest(sorted, newer);
    var d := Dedup(sorted);
    forall y, x | y in Latest(rows, newer) && x in rows && x.pallet == y.pallet ensures newer(y, x) {
      assert y in d;
      var i :| 0 <= i < |d| && d[i] == y;
      assert x in sorted;
    }
  }

  /** Distinct pallets: as many pallets as rows. */
  lemma {:induction false} DistinctPalletsCount(s: seq<MonitorRow>)
    requires DistinctPallets(s)
    ensures |Pallets(s)| == |s|
  {
    if |s| > 0 {
      var tail := s[1..];
      DistinctPalletsCount(tail);
      assert forall x :: x in s <==> x == s[0] || x in tail by {
        assert s == [s[0]] + tail;
      }
      assert Pallets(s) == {s[0].pallet} + Pallets(tail);
      assert s[0].pallet !in Pallets(tail);
    }
  }

  // ---------------------------------------------------------------------
  // The order of `sort_values('DataOra', ascending=False)`
  // ---------------------------------------------------------------------

  /** As written: `DataOra` is left as the CSV text, so the descending sort
      compares the raw strings (code-point order); rows without one sort
      last. `TextNewer(a, b)`: `a` may come before `b`. */
  predicate TextNewer(a: MonitorRow, b: MonitorRow) {
    b.dataOra.None? || (a.dataOra.Some? && LexLe(b.dataOra.value, a.dataOra.value))
  }

  lemma TextNewerIsPreorder()
    ensures Sorting.TotalPreorder(TextNewer)
  {
    forall a, b ensures TextNewer(a, b) || TextNewer(b, a) {
      if a.dataOra.Some? && b.dataOra.Some? {
        LexLeTotal(a.dataOra.value, b.dataOra.value);
      }
    }
    forall a, b, c | TextNewer(a, b) && TextNewer(b, c) ensures TextNewer(a, c) {
      if c.dataOra.Some? {
        LexLeTrans(c.dataOra.value, b.dataOra.value, a.dataOra.value);
      }
    }
  }

  /** The instant a row's `DataOra` denotes, read by `stamp` (the day-first
      timestamp parse); none when the cell is empty or does not parse. */
  function StampOf(row: MonitorRow, stamp: string -> Option<int>): Option<int> {
    if row.dataOra.Some? then stamp(row.dataOra.value) else None
  }

  /** Descending by instant, unparsed last. */
  predicate LaterOrUnknown(a: Option<int>, b: Option<int>) {
    b.None? || (a.Some? && b.value <= a.value)
  }

  /** Corrected: newest instant first, rows without a parseable timestamp
      last. */
  function StampNewer(stamp: string -> Option<int>): (MonitorRow, MonitorRow) -> bool {
    (a: MonitorRow, b: MonitorRow) => LaterOrUnknown(StampOf(a, stamp), StampOf(b, stamp))
  }

  lemma StampNewerIsPreorder(stamp: string -> Option<int>)
    ensures Sorting.TotalPreorder(StampNewer(stamp))
  {
    var le := StampNewer(stamp);
    forall a, b ensures le(a, b) || le(b, a) {
      assert le(a, b) == LaterOrUnknown(StampOf(a, stamp), StampOf(b, stamp));
    }
    forall a, b, c | le(a, b) && le(b, c) ensures le(a, c) {
      assert le(a, b) == LaterOrUnknown(StampOf(a, stamp), StampOf(b, stamp));
      assert le(b, c) == LaterOrUnknown(StampOf(b, stamp), StampOf(c, stamp));
      assert le(a, c) == LaterOrUnknown(StampOf(a, stamp), StampOf(c, stamp));
    }
  }

  // ---------------------------------------------------------------------
  // The upsert
  // ---------------------------------------------------------------------

  /** The slot a row writes: each field as given when present (a blank cell
      is kept, only a missing one becomes none), the composed code, the
      movement time as its `DataOra` text, and `now` as the update time
      (set on update, and the column default on insert). */
  function LocationOf(row: MonitorRow, now: Time): (l: Location)
    ensures l.mag == row.mag && l.scaf == row.scaf && l.col == row.col && l.pia == row.pia
    ensures l.sc == row.sc && l.comp == row.comp && l.lastMovement == row.dataOra
    ensures l.positionCode == PositionCode(row) && l.lastUpdated == Some(now)
  {
    Location(row.mag, row.scaf, row.col, row.pia, row.sc, row.comp, PositionCode(row), row.dataOra, Some(now))
  }

  /** The loop over the kept rows: each row with a pallet overwrites (or
      creates) the location of that pallet, whatever it held before. */
  function Apply(locs: map<string, Location>, rows: seq<MonitorRow>, now: Time): (m: map<string, Location>)
    ensures forall k :: k in m <==> k in locs || Some(k) in Pallets(rows)
    ensures forall k :: k in locs && Some(k) !in Pallets(rows) ==> m[k] == locs[k]
    ensures forall x :: x in rows && x.pallet.Some? ==> x.pallet.value in m
  {
    if |rows| == 0 then locs
    else
      var pre := rows[..|rows| - 1];
      var last := rows[|rows| - 1];
      PalletsSnoc(pre, last);
      assert rows == pre + [last];
      var m0 := Apply(locs, pre, now);
      if last.pallet.None? then m0 else m0[last.pallet.value := LocationOf(last, now)]
  }

  /** With distinct pallets, every row with a pallet leaves its own location
      in the directory. */
  lemma {:induction false} ApplyWritesEach(locs: map<string, Location>, rows: seq<MonitorRow>, now: Time)
    requires forall i, j :: 0 <= i < j < |rows| ==> rows[i].pallet != rows[j].pallet
    ensures forall x :: x in rows && x.pallet.Some? ==> Apply(locs, rows, now)[x.pallet.value] == LocationOf(x, now)
  {
    if |rows| > 0 {
      var pre := rows[..|rows| - 1];
      var last := rows[|rows| - 1];
      PalletsSnoc(pre, last);
      assert rows == pre + [last];
      ApplyWritesEach(locs, pre, now);
      forall x | x in rows && x.pallet.Some? ensures Apply(locs, rows, now)[x.pallet.value] == LocationOf(x, now) {
        if x != last {
          var k :| 0 <= k < |pre| && pre[k] == x;
          assert rows[k] == x;
        }
      }
    }
  }

  lemma PalletsSnoc(pre: seq<MonitorRow>, last: MonitorRow)
    ensures Pallets(pre + [last]) == Pallets(pre) + {last.pallet}
    ensures forall x :: x in pre + [last] <==> x in pre || x == last
  {
    assert forall x :: x in pre + [last] <==> x in pre || x == last;
  }

  /** `_update_positions_fast` with the rows ordered by `newer`: the new
      location directory and the number of locations written. */
  function UpdateBy(locs: map<string, Location>, rows: seq<MonitorRow>, newer: (MonitorRow, MonitorRow) -> bool, now: Time): (r: (map<string, Location>, nat))
    requires Sorting.TotalPreorder(newer)
    ensures r.1 == |Pallets(rows) - {None}|
    ensures forall k :: k in r.0 <==> k in locs || Some(k) in Pallets(rows)
    ensures forall k :: k in locs && Some(k) !in Pallets(rows) ==> r.0[k] == locs[k]
    ensures forall k :: Some(k) in Pallets(rows) ==>
      exists x :: (x in rows && x.pallet == Some(k) && r.0[k] == LocationOf(x, now) &&
        forall y :: y in rows && y.pallet == Some(k) ==> newer(x, y))
  {
    var latest := Latest(rows, newer);
    var m := Apply(locs, latest, now);
    DistinctPalletsCount(latest);
    LatestIsNewest(rows, newer);
    ApplyWritesEach(locs, latest, now);
    forall k | Some(k) in Pallets(rows)
      ensures exists x :: (x in rows && x.pallet == Some(k) && m[k] == LocationOf(x, now) &&
        forall y :: y in rows && y.pallet == Some(k) ==> newer(x, y))
    {
      assert Some(k) in Pallets(latest);
      var x :| x in latest && x.pallet == Some(k);
      assert m[k] == LocationOf(x, now);
    }
    (m, |latest|)
  }

  /** The importer as written: the rows ordered by their `DataOra` text. */
  function UpdatePositionsAsWritten(locs: map<string, Location>, rows: seq<MonitorRow>, now: Time): (r: (map<string, Location>, nat))
    ensures r.1 == |Pallets(rows) - {None}|
    ensures forall k :: k in r.0 <==> k in locs || Some(k) in Pallets(rows)
    ensures forall k :: k in locs && Some(k) !in Pallets(rows) ==> r.0[k] == locs[k]
    ensures forall k :: Some(k) in Pallets(rows) ==>
      exists x :: (x in rows && x.pallet == Some(k) && r.0[k] == LocationOf(x, now) &&
        forall y :: y in rows && y.pallet == Some(k) ==> TextNewer(x, y))
  {
    TextNewerIsPreorder();
    UpdateBy(locs, rows, TextNewer, now)
  }

  /** The importer as intended: the rows ordered by the instant their
      `DataOra` denotes, read day-first by `stamp`; the location of each
      pallet comes from one of its rows with the latest instant. */
  function UpdatePositions(locs: map<string, Location>, rows: seq<MonitorRow>, stamp: string -> Option<int>, now: Time): (r: (map<string, Location>, nat))
    ensures r.1 == |Pallets(rows) - {None}|
    ensures forall k :: k in r.0 <==> k in locs || Some(k) in Pallets(rows)
    ensures forall k :: k in locs && Some(k) !in Pallets(rows) ==> r.0[k] == locs[k]
    ensures forall k :: Some(k) in Pallets(rows) ==>
      exists x :: (x in rows && x.pallet == Some(k) && r.0[k] == LocationOf(x, now) &&
        forall y :: y in rows && y.pallet == Some(k) ==> LaterOrUnknown(StampOf(x, stamp), StampOf(y, stamp)))
  {
    StampNewerIsPreorder(stamp);
    var r := UpdateBy(locs, rows, StampNewer(stamp), now);
    forall k | Some(k) in Pallets(rows)
      ensures exists x :: (x in rows && x.pallet == Some(k) && r.0[k] == LocationOf(x, now) &&
        forall y :: y in rows && y.pallet == Some(k) ==> LaterOrUnknown(StampOf(x, stamp), StampOf(y, stamp)))
    {
      var x :| x in rows && x.pallet == Some(k) && r.0[k] == LocationOf(x, now) &&
        forall y :: y in rows && y.pallet == Some(k) ==> StampNewer(stamp)(x, y);
      forall y | y in rows && y.pallet == Some(k) ensures LaterOrUnknown(StampOf(x, stamp), StampOf(y, stamp)) {
        assert StampNewer(stamp)(x, y);
      }
    }
    r
  }

  // ---------------------------------------------------------------------
  // Finding: the newest row is chosen by the text of `DataOra`
  // ---------------------------------------------------------------------

  /** A count of seconds that orders date-times as the calendar does
      (months taken as 31 days, which keeps the order). */
  function Seconds(year: nat, month: nat, day: nat, hour: nat, minute: nat, second: nat): int {
    ((((year * 12 + month) * 31 + day) * 24 + hour) * 60 + minute) * 60 + second
  }

  /** `dd/mm/yyyy HH:MM`, optionally followed by `:SS`. */
  predicate DayFirstShape(s: string) {
    && (|s| == 16 || (|s| == 19 && s[16] == ':' && AllDigits(s[17..19])))
    && AllDigits(s[0..2]) && s[2] == '/' && AllDigits(s[3..5]) && s[5] == '/'
    && AllDigits(s[6..10]) && s[10] == ' ' && AllDigits(s[11..13]) && s[13] == ':' && AllDigits(s[14..16])
  }

  /** An order-preserving reading of the day-first form `dd/mm/yyyy HH:MM`
      (seconds optional), as `pd.to_datetime(..., dayfirst=True)` reads it;
      any other text does not parse. */
  function DayFirstStamp(s: string): Option<int> {
    if DayFirstShape(s) then
      Some(Seconds(DigitsValue(s[6..10]), DigitsValue(s[3..5]), DigitsValue(s[0..2]),
                   DigitsValue(s[11..13]), DigitsValue(s[14..16]), if |s| == 19 then DigitsValue(s[17..19]) else 0))
    else None
  }

  /** The text `dd/mm/yyyy HH:MM`. */
  function DayFirstText(dd: string, mm: string, yyyy: string, hh: string, mi: string): string {
    dd + ("/" + (mm + ("/" + (yyyy + (" " + (hh + (":" + mi)))))))
  }

  /** A field followed by a separator and the rest of the text. */
  lemma FieldThen(a: string, c: char, b: string)
    ensures (a + ([c] + b))[..|a|] == a && (a + ([c] + b))[|a|] == c && (a + ([c] + b))[|a| + 1..] == b
  {
  }

  lemma SliceOfSuffix(s: string, i: nat, j: nat, k: nat)
    requires i <= j <= k <= |s|
    ensures s[j..k] == s[i..][j - i..k - i]
  {
  }

  /** Where each field sits in the day-first text. */
  lemma DayFirstTextFields(dd: string, mm: string, yyyy: string, hh: string, mi: string)
    requires |dd| == 2 && |mm| == 2 && |yyyy| == 4 && |hh| == 2 && |mi| == 2
    ensures var s := DayFirstText(dd, mm, yyyy, hh, mi);
      && |s| == 16 && s[0..2] == dd && s[2] == '/' && s[3..5] == mm && s[5] == '/'
      && s[6..10] == yyyy && s[10] == ' ' && s[11..13] == hh && s[13] == ':' && s[14..16] == mi
  {
    var t4 := hh + (":" + mi);
    var t3 := yyyy + (" " + t4);
    var t2 := mm + ("/" + t3);
    var s := dd + ("/" + t2);
    FieldThen(dd, '/', t2);
    FieldThen(mm, '/', t3);
    FieldThen(yyyy, ' ', t4);
    FieldThen(hh, ':', mi);
    SliceOfSuffix(s, 3, 3, 5);
    SliceOfSuffix(s, 3, 5, 5 + 1);
    SliceOfSuffix(s, 3, 6, 10);
    SliceOfSuffix(t2, 3, 3, 7);
    SliceOfSuffix(s, 6, 10, 11);
    assert s[6..] == t3;
    SliceOfSuffix(s, 6, 11, 13);
    SliceOfSuffix(t3, 5, 5, 7);
    SliceOfSuffix(s, 11, 14, 16);
    assert s[11..] == t4;
  }

  /** Reading the day-first form back gives the fields it was written
      from. */
  lemma DayFirstStampOfText(dd: string, mm: string, yyyy: string, hh: string, mi: string)
    requires |dd| == 2 && |mm| == 2 && |yyyy| == 4 && |hh| == 2 && |mi| == 2
    requires AllDigits(dd) && AllDigits(mm) && AllDigits(yyyy) && AllDigits(hh) && AllDigits(mi)
    ensures DayFirstStamp(DayFirstText(dd, mm, yyyy, hh, mi)) ==
      Some(Seconds(DigitsValue(yyyy), DigitsValue(mm), DigitsValue(dd), DigitsValue(hh), DigitsValue(mi), 0))
  {
    DayFirstTextFields(dd, mm, yyyy, hh, mi);
    assert DayFirstShape(DayFirstText(dd, mm, yyyy, hh, mi));
  }

  function SnapshotRow(pallet: string, mag: string, dataOra: string): MonitorRow {
    MonitorRow(Some(pallet), Some(mag), None, None, None, None, None, Some(dataOra))
  }

  lemma TwoDigits(a: char, b: char)
    requires IsDigit(a) && IsDigit(b)
    ensures DigitsValue([a, b]) == DigitValue(a) * 10 + DigitValue(b)
  {
    var s := [a, b];
    assert s[..1] == [a] && s[..1][..0] == [];
    assert DigitsValue(s[..1]) == DigitValue(a);
  }

  /** Of two rows of one pallet, the as-written import keeps the second
      when the first does not sort before it by text. */
  lemma AsWrittenPicksOfTwo(first: MonitorRow, second: MonitorRow, now: Time)
    requires first.pallet.Some? && second.pallet == first.pallet
    requires !TextNewer(first, second)
    ensures UpdatePositionsAsWritten(map[], [first, second], now).0[first.pallet.value] == LocationOf(second, now)
  {
    var rows := [first, second];
    assert first in rows && second in rows && forall x :: x in rows ==> x == first || x == second;
    assert first.pallet in Pallets(rows);
    var k := first.pallet.value;
    var r := UpdatePositionsAsWritten(map[], rows, now);
    var x :| x in rows && x.pallet == Some(k) && r.0[k] == LocationOf(x, now) &&
      forall y :: y in rows && y.pallet == Some(k) ==> TextNewer(x, y);
    assert x != first;
  }

  /** Of two rows of one pallet, the corrected import keeps the first when
      the second is not at least as new. */
  lemma CorrectedPicksOfTwo(first: MonitorRow, second: MonitorRow, stamp: string -> Option<int>, now: Time)
    requires first.pallet.Some? && second.pallet == first.pallet
    requires !LaterOrUnknown(StampOf(second, stamp), StampOf(first, stamp))
    ensures UpdatePositions(map[], [first, second], stamp, now).0[first.pallet.value] == LocationOf(first, now)
  {
    var rows := [first, second];
    assert first in rows && second in rows && forall x :: x in rows ==> x == first || x == second;
    assert first.pallet in Pallets(rows);
    var k := first.pallet.value;
    var r := UpdatePositions(map[], rows, stamp, now);
    var x :| x in rows && x.pallet == Some(k) && r.0[k] == LocationOf(x, now) &&
      forall y :: y in rows && y.pallet == Some(k) ==> LaterOrUnknown(StampOf(x, stamp), StampOf(y, stamp));
    assert x != second;
  }

  /** 1 February 2025, 08:00, written day-first. */
  function FirstOfFebruary(): string {
    DayFirstText("01", "02", "2025", "08", "00")
  }

  /** 31 January 2025, 08:00, written day-first. */
  function LastOfJanuary(): string {
    DayFirstText("31", "01", "2025", "08", "00")
  }

  /** The two-digit fields of the example stamps. */
  lemma ExampleFields()
    ensures DigitsValue("31") == 31 && DigitsValue("01") == 1 && DigitsValue("02") == 2
    ensures DigitsValue("08") == 8 && DigitsValue("00") == 0
  {
    TwoDigits('3', '1');
    TwoDigits('0', '1');
    TwoDigits('0', '2');
    TwoDigits('0', '8');
    TwoDigits('0', '0');
  }

  lemma StampOfLastOfJanuary()
    ensures DayFirstStamp(LastOfJanuary()) == Some(Seconds(DigitsValue("2025"), 1, 31, 8, 0, 0))
  {
    DayFirstStampOfText("31", "01", "2025", "08", "00");
    ExampleFields();
  }

  lemma StampOfFirstOfFebruary()
    ensures DayFirstStamp(FirstOfFebruary()) == Some(Seconds(DigitsValue("2025"), 2, 1, 8, 0, 0))
  {
    DayFirstStampOfText("01", "02", "2025", "08", "00");
    ExampleFields();
  }

  /** The two timestamps of the example: by instant, 31 January is the
      older; by text, "01/02/..." sorts before "31/01/...". */
  lemma ExampleStamps()
    ensures DayFirstStamp(LastOfJanuary()).Some? && DayFirstStamp(FirstOfFebruary()).Some?
    ensures DayFirstStamp(LastOfJanuary()).value < DayFirstStamp(FirstOfFebruary()).value
    ensures !LexLe(LastOfJanuary(), FirstOfFebruary())
  {
    StampOfLastOfJanuary();
    StampOfFirstOfFebruary();
    assert LastOfJanuary()[0] == '3' && FirstOfFebruary()[0] == '0';
  }

  /** The as-written import leaves the example pallet in slot B. */
  lemma AsWrittenOnExample(now: Time)
    ensures UpdatePositionsAsWritten(map[], [SnapshotRow("P", "A", FirstOfFebruary()), SnapshotRow("P", "B", LastOfJanuary())], now).0["P"].mag == Some("B")
  {
    var newer, older := SnapshotRow("P", "A", FirstOfFebruary()), SnapshotRow("P", "B", LastOfJanuary());
    ExampleStamps();
    assert !TextNewer(newer, older);
    AsWrittenPicksOfTwo(newer, older, now);
  }

  /** The corrected import leaves the example pallet in slot A. */
  lemma CorrectedOnExample(now: Time)
    ensures UpdatePositions(map[], [SnapshotRow("P", "A", FirstOfFebruary()), SnapshotRow("P", "B", LastOfJanuary())], DayFirstStamp, now).0["P"].mag == Some("A")
  {
    var newer, older := SnapshotRow("P", "A", FirstOfFebruary()), SnapshotRow("P", "B", LastOfJanuary());
    ExampleStamps();
    CorrectedPicksOfTwo(newer, older, DayFirstStamp, now);
  }

  /** Two snapshot rows of one pallet, a day apart: the newer one (1 February
      2025, in slot A) sorts before the older one (31 January 2025, in slot B)
      by instant, but after it by text, since '0' < '3'. The importer as
      written leaves the pallet in the older slot B; the corrected order
      leaves it in slot A. */
  lemma AsWrittenKeepsOlderSlot(now: Time)
    ensures var newer, older := SnapshotRow("P", "A", FirstOfFebruary()), SnapshotRow("P", "B", LastOfJanuary());
      && DayFirstStamp(older.dataOra.value).Some? && DayFirstStamp(newer.dataOra.value).Some?
      && DayFirstStamp(older.dataOra.value).value < DayFirstStamp(newer.dataOra.value).value
      && UpdatePositionsAsWritten(map[], [newer, older], now).0["P"].mag == Some("B")
      && UpdatePositions(map[], [newer, older], DayFirstStamp, now).0["P"].mag == Some("A")
  {
    ExampleStamps();
    AsWrittenOnExample(now);
    CorrectedOnExample(now);
  }

  // ---------------------------------------------------------------------
  // The date in a snapshot file name
  // ---------------------------------------------------------------------

  /** `s.replace('.csv', '')`: every occurrence, scanned left to right,
      removed once. */
  function RemoveCsv(s: string): (r: string)
    ensures |r| <= |s|
    ensures '.' !in s ==> r == s
    decreases |s|
  {
    if |s| < 4 then s
    else if s[..4] == ".csv" then
      assert s[0] == s[..4][0] == '.';
      RemoveCsv(s[4..])
    else
      assert '.' !in s ==> '.' !in s[1..];
      [s[0]] + RemoveCsv(s[1..])
  }

  /** Nothing is removed from a stretch without a '.'. */
  lemma {:induction false} RemoveCsvKeepsPrefix(x: string, y: string)
    requires '.' !in x
    ensures RemoveCsv(x + y) == x + RemoveCsv(y)
  {
    if |x| > 0 {
      var xy := x + y;
      assert xy[1..] == x[1..] + y;
      assert xy[0] == x[0] && x[0] != '.';
      RemoveCsvKeepsPrefix(x[1..], y);
      if |xy| >= 4 {
        assert xy[..4] != ".csv" by { assert xy[..4][0] == x[0]; }
        assert RemoveCsv(xy) == [x[0]] + RemoveCsv(xy[1..]);
        assert x == [x[0]] + x[1..];
      } else {
        assert RemoveCsv(y) == y;
      }
    } else {
      assert x + y == y;
    }
  }

  predicate Leap(year: nat) {
    year % 4 == 0 && (year % 100 != 0 || year % 400 == 0)
  }

  /** The length of a month of the proleptic Gregorian calendar. */
  function DaysIn(year: nat, month: nat): nat {
    if month == 2 then (if Leap(year) then 29 else 28)
    else if month == 4 || month == 6 || month == 9 || month == 11 then 30
    else 31
  }

  /** A date Python's `date` type can hold. */
  predicate ValidDate(d: MissionCode.Date) {
    1 <= d.year <= 9999 && 1 <= d.month <= 12 && 1 <= d.day <= DaysIn(d.year, d.month)
  }

  /** `%Y`: exactly four digits; year 0 is out of range. */
  function ParseYear(t: string): (r: Option<nat>)
    ensures r.Some? ==> 1 <= r.value <= 9999
    ensures r.Some? <==> |t| == 4 && AllDigits(t) && DigitsValue(t) >= 1
  {
    if |t| == 4 && AllDigits(t) && DigitsValue(t) >= 1 then
      DigitsValueBelow(t);
      assert Pow10(4) == 10000;
      Some(DigitsValue(t))
    else None
  }

  /** `%m`: one or two digits denoting 1 to 12. */
  function ParseMonth(t: string): (r: Option<nat>)
    ensures r.Some? ==> 1 <= r.value <= 12
  {
    if 1 <= |t| <= 2 && AllDigits(t) && 1 <= DigitsValue(t) <= 12 then Some(DigitsValue(t)) else None
  }

  /** `%d`: one or two digits denoting 1 to 31, or a space and a digit
      1 to 9. */
  function ParseDay(t: string): (r: Option<nat>)
    ensures r.Some? ==> 1 <= r.value <= 31
  {
    if 1 <= |t| <= 2 && AllDigits(t) && 1 <= DigitsValue(t) <= 31 then Some(DigitsValue(t))
    else if |t| == 2 && t[0] == ' ' && '1' <= t[1] <= '9' then Some(DigitValue(t[1]))
    else None
  }

  /** `datetime.strptime(t, '%Y-%m-%d').date()`, none where it raises. */
  function ParseIsoDate(t: string): (r: Option<MissionCode.Date>)
    ensures r.Some? ==> ValidDate(r.value)
    ensures r.Some? ==> |Split(t, '-')| == 3
  {
    var parts := Split(t, '-');
    if |parts| != 3 then None
    else
      match (ParseYear(parts[0]), ParseMonth(parts[1]), ParseDay(parts[2]))
      case (Some(y), Some(m), Some(d)) =>
        if d <= DaysIn(y, m) then Some(MissionCode.Date(y, m, d)) else None
      case _ => None
  }

  /** `_extract_date_from_filename`: the text between the first 'S' and the
      next 'F' of the name with `.csv` removed, read as a date; none when the
      name has no 'S' or that text is not a date. */
  function ExtractDate(filename: string): (r: Option<MissionCode.Date>)
    ensures r.Some? ==> ValidDate(r.value)
    ensures 'S' !in RemoveCsv(filename) ==> r.None?
  {
    var name := RemoveCsv(filename);
    var parts := Split(name, 'S');
    assert 'S' !in name ==> |parts| == 1 by {
      if 'S' !in name {
        SplitSepFreePrefix(name, "", 'S');
        assert name + "" == name && name + Split("", 'S')[0] == name;
      }
    }
    if |parts| < 2 then None
    else ParseIsoDate(Split(parts[1], 'F')[0])
  }

  /** `date.isoformat()`: `YYYY-MM-DD`. */
  function IsoDate(d: MissionCode.Date): string {
    ZeroPad(d.year, 4) + "-" + ZeroPad(d.month, 2) + "-" + ZeroPad(d.day, 2)
  }

  /** An ISO date splits on '-' into its three padded fields, and holds
      none of the characters the file-name reader looks for. */
  lemma IsoDateFields(d: MissionCode.Date)
    requires ValidDate(d)
    ensures Split(IsoDate(d), '-') == [ZeroPad(d.year, 4), ZeroPad(d.month, 2), ZeroPad(d.day, 2)]
    ensures 'S' !in IsoDate(d) && 'F' !in IsoDate(d) && '.' !in IsoDate(d)
  {
    var y, m, dd := ZeroPad(d.year, 4), ZeroPad(d.month, 2), ZeroPad(d.day, 2);
    ZeroPadExact(d.year, 4);
    ZeroPadExact(d.month, 2);
    ZeroPadExact(d.day, 2);
    assert IsoDate(d) == Join([y, m, dd], '-') by {
      assert Join([y, m, dd], '-') == y + ['-'] + Join([m, dd], '-');
      assert [m, dd][1..] == [dd];
      assert Join([m, dd], '-') == m + ['-'] + dd;
    }
    SplitJoin([y, m, dd], '-');
    assert forall c :: c in IsoDate(d) ==> c == '-' || IsDigit(c);
  }

  /** Reading back an ISO date gives the date. */
  lemma IsoDateRoundTrip(d: MissionCode.Date)
    requires ValidDate(d)
    ensures ParseIsoDate(IsoDate(d)) == Some(d)
    ensures 'S' !in IsoDate(d) && 'F' !in IsoDate(d) && '.' !in IsoDate(d)
  {
    IsoDateFields(d);
    assert Pow10(4) == 10000 && Pow10(2) == 100;
    ZeroPadExact(d.year, 4);
    ZeroPadExact(d.month, 2);
    ZeroPadExact(d.day, 2);
  }

  /** The text between the first 'S' and the next 'F', when neither
      appears earlier than meant. */
  lemma {:induction false} BetweenSAndF(p: string, iso: string, tail: string)
    requires 'S' !in p && 'S' !in iso && 'F' !in iso
    ensures |Split(p + "S" + iso + "F" + tail, 'S')| >= 2
    ensures Split(Split(p + "S" + iso + "F" + tail, 'S')[1], 'F')[0] == iso
  {
    var after := iso + "F" + tail;
    assert p + "S" + iso + "F" + tail == p + ("S" + after);
    SplitSepFreePrefix(p, "S" + after, 'S');
    assert ("S" + after)[1..] == after;
    assert Split("S" + after, 'S') == [""] + Split(after, 'S');
    assert after == (iso + "F") + tail;
    SplitSepFreePrefix(iso + "F", tail, 'S');
    var w := Split(tail, 'S')[0];
    var piece := iso + "F" + w;
    assert Split(p + "S" + iso + "F" + tail, 'S')[1] == piece;
    assert piece == iso + ("F" + w);
    SplitSepFreePrefix(iso, "F" + w, 'F');
    assert ("F" + w)[1..] == w;
    assert Split("F" + w, 'F')[0] == "";
  }

  /** A snapshot name `<p>S<date>F<rest>` (as `MonitorBenettonS2025-01-31F...`,
      with or without `.csv`) yields the date, provided the prefix holds no
      'S' and no '.'. */
  lemma ExtractDateRoundTrip(p: string, d: MissionCode.Date, rest: string)
    requires 'S' !in p && '.' !in p && ValidDate(d)
    ensures ExtractDate(p + "S" + IsoDate(d) + "F" + rest) == Some(d)
  {
    var iso := IsoDate(d);
    IsoDateRoundTrip(d);
    var head := p + "S" + iso + "F";
    assert '.' !in head;
    RemoveCsvKeepsPrefix(head, rest);
    assert p + "S" + iso + "F" + rest == head + rest;
    BetweenSAndF(p, iso, RemoveCsv(rest));
  }
}
