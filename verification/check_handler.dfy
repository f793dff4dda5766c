/** The resolution state machine of position checks (services/
    position_service/check_handler.py): an operator marks a PENDING check
    FOUND or NOT_FOUND; a find adds to its item's found quantity, resolves
    the item once the shortfall is covered and then auto-skips the item's
    remaining PENDING checks; the mission status is recomputed from its
    items, or overridden by hand. */
module CheckHandler {
  import opened Basics
  import opened Store
  import Sorting

  datatype HandlerError =
    | CheckMissing
    | AlreadyChecked(status: CheckStatus)
    | ItemMissing
    | InvalidStatus(literal: string)
    | MissionMissing

  datatype Result<T> = Failure(error: HandlerError) | Success(value: T)

  /** The statistics `mark_found` reports. */
  datatype FoundReport = FoundReport(
    itemResolved: bool,
    missionComplete: bool,
    qtyFound: Qty,
    totalFoundForItem: Qty,
    qtyStillMissing: Qty)

  const AutoSkipNote: string := "Auto-skipped: All missing items found"

  // ---------------------------------------------------------------------
  // Auto-skip
  // ---------------------------------------------------------------------

  /** `status == 'PENDING'` for the given mission and item. */
  predicate Remaining(c: PositionCheck, missionId: Id, itemId: Id) {
    c.missionId == missionId && c.itemId == itemId && c.status == Pending
  }

  function Skip(c: PositionCheck, now: Time): (c': PositionCheck)
    ensures c'.status == SkippedAuto && c'.id == c.id && c'.missionId == c.missionId && c'.itemId == c.itemId
  {
    c.(status := SkippedAuto, notes := Some(AutoSkipNote), checkedAt := Some(now))
  }

  /** `_auto_skip_remaining_positions`: every remaining check of the mission
      and item is skipped, and the number skipped is returned. */
  function AutoSkip(checks: seq<PositionCheck>, missionId: Id, itemId: Id, now: Time): (r: (seq<PositionCheck>, nat))
    ensures |r.0| == |checks| && r.1 <= |checks|
    ensures forall i :: 0 <= i < |checks| ==>
              r.0[i] == (if Remaining(checks[i], missionId, itemId) then Skip(checks[i], now) else checks[i])
    ensures forall i :: 0 <= i < |checks| ==> !Remaining(r.0[i], missionId, itemId)
  {
    if |checks| == 0 then ([], 0)
    else
      var rest := AutoSkip(checks[1..], missionId, itemId, now);
      var head := if Remaining(checks[0], missionId, itemId) then Skip(checks[0], now) else checks[0];
      var r := [head] + rest.0;
      assert forall i :: 1 <= i < |checks| ==> r[i] == rest.0[i - 1] && checks[i] == checks[1..][i - 1];
      (r, if Remaining(checks[0], missionId, itemId) then rest.1 + 1 else rest.1)
  }

  /** The count returned is the number of checks the query selects. */
  lemma {:induction false} AutoSkipCount(checks: seq<PositionCheck>, missionId: Id, itemId: Id, now: Time)
    ensures AutoSkip(checks, missionId, itemId, now).1 == |Sorting.Filter(checks, c => Remaining(c, missionId, itemId))|
  {
    if |checks| > 0 {
      AutoSkipCount(checks[1..], missionId, itemId, now);
    }
  }

  // ---------------------------------------------------------------------
  // mark_found / mark_not_found
  // ---------------------------------------------------------------------

  /** The check as `mark_found` writes it. */
  function FoundCheck(c: PositionCheck, q: Qty, checkedBy: string, notes: Option<string>, now: Time): PositionCheck {
    c.(status := Found, foundInPosition := Some(true), qtyFound := Some(q),
       checkedAt := Some(now), checkedBy := Some(checkedBy), notes := notes)
  }

  /** The item after `q` more units were found: resolved once the total
      covers the shortfall, and never un-resolved. */
  function AddFound(it: MissionItem, q: Qty, now: Time): (it': MissionItem)
    ensures it'.qtyFound == it.qtyFound + q
    ensures it'.isResolved <==> it.isResolved || it'.qtyFound >= it.qtyMissing
    ensures it'.id == it.id && it'.missionId == it.missionId && it'.qtyMissing == it.qtyMissing
  {
    var found := it.qtyFound + q;
    if found >= it.qtyMissing then it.(qtyFound := found, isResolved := true, resolvedAt := Some(now))
    else it.(qtyFound := found)
  }

  /** Looks up the check and its item, or says why `mark_found` refuses. */
  function Locate(db: Db, checkId: Id): (r: Result<(nat, nat)>)
    ensures r.Success? ==> r.value.0 < |db.checks| && r.value.1 < |db.items|
  {
    match CheckIndex(db.checks, checkId)
    case None => Failure(CheckMissing)
    case Some(ci) =>
      if db.checks[ci].status != Pending then Failure(AlreadyChecked(db.checks[ci].status))
      else
        match ItemIndex(db.items, db.checks[ci].itemId)
        case None => Failure(ItemMissing)
        case Some(ii) => Success((ci, ii))
  }

  /** The store after the found check at `ci` and its item at `ii` are
      written, with the item's remaining checks auto-skipped when it is now
      covered. */
  function FoundWrite(db: Db, ci: nat, ii: nat, q: Qty, checkedBy: string, notes: Option<string>, now: Time): (r: Db)
    requires ci < |db.checks| && ii < |db.items|
    ensures |r.checks| == |db.checks| && |r.items| == |db.items| && r.missions == db.missions
    ensures r.checks[ci] == FoundCheck(db.checks[ci], q, checkedBy, notes, now)
    ensures r.items[ii] == AddFound(db.items[ii], q, now)
    ensures forall j :: 0 <= j < |db.items| && j != ii ==> r.items[j] == db.items[j]
  {
    var c := db.checks[ci];
    var it' := AddFound(db.items[ii], q, now);
    var checks1 := db.checks[ci := FoundCheck(c, q, checkedBy, notes, now)];
    var checks2 := if it'.qtyFound >= it'.qtyMissing then AutoSkip(checks1, c.missionId, c.itemId, now).0 else checks1;
    assert checks2[ci] == checks1[ci];
    db.(checks := checks2, items := db.items[ii := it'])
  }

  /** `mark_found` with the auto-skip applied to the checks other than the
      one just found; the quantity defaults to one unit. The returned store is
      what is committed: the mission-status recompute that follows the commit
      is reported but not stored. */
  function MarkFound(db: Db, checkId: Id, checkedBy: string, qty: Option<Qty>, notes: Option<string>, now: Time)
    : (r: (Db, Result<FoundReport>))
    ensures r.1.Failure? ==> r.0 == db
    ensures r.1.Success? ==> r.1.value.qtyStillMissing >= 0
  {
    match Locate(db, checkId)
    case Failure(e) => (db, Failure(e))
    case Success((ci, ii)) =>
      var q := qty.GetOr(OneUnit);
      var it' := AddFound(db.items[ii], q, now);
      var db' := FoundWrite(db, ci, ii, q, checkedBy, notes, now);
      var complete := Recompute(db', db.checks[ci].missionId, now).1;
      (db', Success(FoundReport(it'.qtyFound >= it'.qtyMissing, complete, q, it'.qtyFound,
                                Max(it'.qtyMissing - it'.qtyFound, 0))))
  }

  /** `mark_found` refuses exactly when the check is missing, not PENDING,
      or its item is missing, and then changes nothing. */
  lemma MarkFoundFailures(db: Db, checkId: Id, checkedBy: string, qty: Option<Qty>, notes: Option<string>, now: Time)
    ensures var r := MarkFound(db, checkId, checkedBy, qty, notes, now);
      && ((forall c :: c in db.checks ==> c.id != checkId) <==> r.1 == Failure(CheckMissing))
      && (r.1.Failure? && r.1.error.AlreadyChecked? <==>
            exists i :: 0 <= i < |db.checks| && db.checks[i].id == checkId && db.checks[i].status != Pending &&
                        forall j :: 0 <= j < i ==> db.checks[j].id != checkId)
      && (r.1.Failure? ==> r.0 == db)
  {
    var r := MarkFound(db, checkId, checkedBy, qty, notes, now);
    match CheckIndex(db.checks, checkId)
    case None =>
    case Some(ci) =>
      assert db.checks[ci] in db.checks;
      forall i | 0 <= i < |db.checks| && db.checks[i].id == checkId && forall j :: 0 <= j < i ==> db.checks[j].id != checkId
        ensures i == ci
      {
      }
  }

  /** `i` is the first check carrying `checkId` (the `.first()` of the
      lookup query). */
  predicate FirstWithId(checks: seq<PositionCheck>, i: int, checkId: Id) {
    0 <= i < |checks| && checks[i].id == checkId && forall j :: 0 <= j < i ==> checks[j].id != checkId
  }

  /** `mark_found` refuses for want of the item exactly when the check is
      PENDING and its item does not exist, and succeeds exactly when the
      check is PENDING and its item exists. */
  lemma MarkFoundOutcome(db: Db, checkId: Id, checkedBy: string, qty: Option<Qty>, notes: Option<string>, now: Time)
    ensures var r := MarkFound(db, checkId, checkedBy, qty, notes, now);
      && (r.1 == Failure(ItemMissing) <==>
            exists i :: FirstWithId(db.checks, i, checkId) && db.checks[i].status == Pending &&
                        forall it :: it in db.items ==> it.id != db.checks[i].itemId)
      && (r.1.Success? <==>
            exists i :: FirstWithId(db.checks, i, checkId) && db.checks[i].status == Pending &&
                        exists it :: it in db.items && it.id == db.checks[i].itemId)
  {
    match CheckIndex(db.checks, checkId)
    case None =>
    case Some(ci) =>
      assert FirstWithId(db.checks, ci, checkId);
      forall i | FirstWithId(db.checks, i, checkId) ensures i == ci {
      }
      match ItemIndex(db.items, db.checks[ci].itemId)
      case None =>
      case Some(ii) =>
        assert db.items[ii] in db.items;
  }

  /** What a successful `mark_found` is made of. */
  lemma MarkFoundShape(db: Db, checkId: Id, checkedBy: string, qty: Option<Qty>, notes: Option<string>, now: Time)
    requires MarkFound(db, checkId, checkedBy, qty, notes, now).1.Success?
    ensures CheckIndex(db.checks, checkId).Some?
    ensures ItemIndex(db.items, db.checks[CheckIndex(db.checks, checkId).value].itemId).Some?
    ensures var ci := CheckIndex(db.checks, checkId).value;
      var ii := ItemIndex(db.items, db.checks[ci].itemId).value;
      var r := MarkFound(db, checkId, checkedBy, qty, notes, now);
      var q := qty.GetOr(OneUnit);
      var it' := AddFound(db.items[ii], q, now);
      && Locate(db, checkId) == Success((ci, ii))
      && r.0 == FoundWrite(db, ci, ii, q, checkedBy, notes, now)
      && r.1.value == FoundReport(it'.qtyFound >= it'.qtyMissing, Recompute(r.0, db.checks[ci].missionId, now).1,
                                  q, it'.qtyFound, Max(it'.qtyMissing - it'.qtyFound, 0))
  {
  }

  /** A successful `mark_found`: the check becomes FOUND in position with the
      quantity given (one unit when none is), the item's found quantity grows
      by exactly that quantity, the item is resolved exactly when it already
      was or the total now covers the shortfall, and nothing else but the
      auto-skipped checks changes. */
  lemma MarkFoundEffect(db: Db, checkId: Id, checkedBy: string, qty: Option<Qty>, notes: Option<string>, now: Time)
    ensures var r := MarkFound(db, checkId, checkedBy, qty, notes, now);
      r.1.Success? ==>
        var ci := CheckIndex(db.checks, checkId).value;
        var ii := ItemIndex(db.items, db.checks[ci].itemId).value;
        var q := qty.GetOr(OneUnit);
        var it, it' := db.items[ii], r.0.items[ii];
        && |r.0.checks| == |db.checks| && |r.0.items| == |db.items|
        && r.0.checks[ci] == FoundCheck(db.checks[ci], q, checkedBy, notes, now)
        && r.0.checks[ci].status == Found && r.0.checks[ci].foundInPosition == Some(true)
        && r.0.checks[ci].qtyFound == Some(q)
        && it'.qtyFound == it.qtyFound + q
        && (it'.isResolved <==> it.isResolved || it'.qtyFound >= it.qtyMissing)
        && (forall j :: 0 <= j < |db.items| && j != ii ==> r.0.items[j] == db.items[j])
        && r.0.missions == db.missions
  {
    var r := MarkFound(db, checkId, checkedBy, qty, notes, now);
    if r.1.Success? {
      MarkFoundShape(db, checkId, checkedBy, qty, notes, now);
    }
  }

  /** The report of a successful `mark_found`: whether the item is now
      covered, the quantity found, the item's new total, the non-negative
      quantity still missing, and whether the recomputed mission status is
      complete. */
  lemma MarkFoundReport(db: Db, checkId: Id, checkedBy: string, qty: Option<Qty>, notes: Option<string>, now: Time)
    ensures var r := MarkFound(db, checkId, checkedBy, qty, notes, now);
      r.1.Success? ==>
        var ci := CheckIndex(db.checks, checkId).value;
        var ii := ItemIndex(db.items, db.checks[ci].itemId).value;
        var q := qty.GetOr(OneUnit);
        var it := db.items[ii];
        && r.1.value.qtyFound == q && r.1.value.totalFoundForItem == it.qtyFound + q
        && r.1.value.itemResolved == (it.qtyFound + q >= it.qtyMissing)
        && r.1.value.qtyStillMissing == Max(it.qtyMissing - (it.qtyFound + q), 0)
        && r.1.value.missionComplete == Recompute(r.0, db.checks[ci].missionId, now).1
  {
    var r := MarkFound(db, checkId, checkedBy, qty, notes, now);
    if r.1.Success? {
      MarkFoundShape(db, checkId, checkedBy, qty, notes, now);
      var ci := CheckIndex(db.checks, checkId).value;
      var ii := ItemIndex(db.items, db.checks[ci].itemId).value;
      var it' := AddFound(db.items[ii], qty.GetOr(OneUnit), now);
      assert it'.qtyFound == db.items[ii].qtyFound + qty.GetOr(OneUnit);
    }
  }

  /** The auto-skip of a successful `mark_found` touches only the other
      PENDING checks of the same mission and item, and only when the item is
      now covered; every other check keeps its state. */
  lemma MarkFoundSkipsOnlySiblings(db: Db, checkId: Id, checkedBy: string, qty: Option<Qty>, notes: Option<string>, now: Time)
    ensures var r := MarkFound(db, checkId, checkedBy, qty, notes, now);
      r.1.Success? ==>
        var ci := CheckIndex(db.checks, checkId).value;
        var c := db.checks[ci];
        forall j :: 0 <= j < |db.checks| && j != ci ==>
          r.0.checks[j] == (if r.1.value.itemResolved && Remaining(db.checks[j], c.missionId, c.itemId)
                            then Skip(db.checks[j], now) else db.checks[j])
  {
    var r := MarkFound(db, checkId, checkedBy, qty, notes, now);
    if r.1.Success? {
      var ci := CheckIndex(db.checks, checkId).value;
      var ii := ItemIndex(db.items, db.checks[ci].itemId).value;
      var q := qty.GetOr(OneUnit);
      var c := db.checks[ci];
      var it' := AddFound(db.items[ii], q, now);
      var checks1 := db.checks[ci := FoundCheck(c, q, checkedBy, notes, now)];
      forall j | 0 <= j < |db.checks| && j != ci ensures checks1[j] == db.checks[j] { }
    }
  }

  /** `mark_not_found`: the check becomes NOT_FOUND, not found in position;
      items and missions are untouched. */
  function MarkNotFound(db: Db, checkId: Id, checkedBy: string, notes: Option<string>, now: Time): (r: (Db, Result<()>))
    ensures r.1.Failure? ==> r.0 == db && (r.1.error.CheckMissing? || r.1.error.AlreadyChecked?)
    ensures r.1.Success? ==>
      exists ci :: 0 <= ci < |db.checks| && db.checks[ci].id == checkId && db.checks[ci].status == Pending &&
        r.0.checks == db.checks[ci := db.checks[ci].(status := NotFound, foundInPosition := Some(false),
                                                     checkedAt := Some(now), checkedBy := Some(checkedBy), notes := notes)]
    ensures r.0.items == db.items && r.0.missions == db.missions
    ensures r.1 == Failure(CheckMissing) <==> forall c :: c in db.checks ==> c.id != checkId
    ensures CheckIndex(db.checks, checkId).Some? && db.checks[CheckIndex(db.checks, checkId).value].status == Pending ==>
              r.1.Success?
  {
    match CheckIndex(db.checks, checkId)
    case None => (db, Failure(CheckMissing))
    case Some(ci) =>
      var c := db.checks[ci];
      if c.status != Pending then (db, Failure(AlreadyChecked(c.status)))
      else
        var c' := c.(status := NotFound, foundInPosition := Some(false),
                     checkedAt := Some(now), checkedBy := Some(checkedBy), notes := notes);
        (db.(checks := db.checks[ci := c']), Success(()))
  }

  /** Rewriting a check under its own id leaves every id lookup as it was. */
  lemma {:induction false} CheckIndexOfUpdate(checks: seq<PositionCheck>, ci: nat, c': PositionCheck, id: Id)
    requires ci < |checks| && c'.id == checks[ci].id
    ensures CheckIndex(checks[ci := c'], id) == CheckIndex(checks, id)
  {
    if ci > 0 {
      assert checks[ci := c'][1..] == checks[1..][ci - 1 := c'];
      CheckIndexOfUpdate(checks[1..], ci - 1, c', id);
    }
  }

  /** A check is inspected once: after it is marked NOT_FOUND, both
      `mark_found` and `mark_not_found` refuse it as already checked. */
  lemma CheckedOnlyOnce(db: Db, checkId: Id, checkedBy: string, qty: Option<Qty>, notes: Option<string>, now: Time)
    requires MarkNotFound(db, checkId, checkedBy, notes, now).1.Success?
    ensures var db' := MarkNotFound(db, checkId, checkedBy, notes, now).0;
      && MarkFound(db', checkId, checkedBy, qty, notes, now).1 == Failure(AlreadyChecked(NotFound))
      && MarkNotFound(db', checkId, checkedBy, notes, now).1 == Failure(AlreadyChecked(NotFound))
  {
    var ci := CheckIndex(db.checks, checkId).value;
    var db' := MarkNotFound(db, checkId, checkedBy, notes, now).0;
    CheckIndexOfUpdate(db.checks, ci, db'.checks[ci], checkId);
  }

  // ---------------------------------------------------------------------
  // Mission status
  // ---------------------------------------------------------------------

  /** The items of a mission (`filter(MissionItem.mission_id == id)`). */
  function ItemsOf(items: seq<MissionItem>, missionId: Id): seq<MissionItem> {
    Sorting.Filter(items, (it: MissionItem) => it.missionId == missionId)
  }

  predicate AllResolved(items: seq<MissionItem>) {
    forall it :: it in items ==> it.isResolved
  }

  /** `_check_mission_completion`: a mission whose items are all resolved
      becomes COMPLETED (stamped); otherwise an OPEN mission becomes
      IN_PROGRESS (stamped). Returns whether the mission ends COMPLETED; a
      missing mission or one with no items gives false and no change. */
  function Recompute(db: Db, missionId: Id, now: Time): (r: (Db, bool))
    ensures r.0.items == db.items && r.0.checks == db.checks && |r.0.missions| == |db.missions|
    ensures r.1 <==>
      && MissionIndex(db.missions, missionId).Some?
      && |ItemsOf(db.items, missionId)| > 0
      && (AllResolved(ItemsOf(db.items, missionId)) ||
          db.missions[MissionIndex(db.missions, missionId).value].status == Completed)
    ensures MissionIndex(db.missions, missionId).Some? && |ItemsOf(db.items, missionId)| > 0 ==>
      var mi := MissionIndex(db.missions, missionId).value;
      var m, m' := db.missions[mi], r.0.missions[mi];
      && (AllResolved(ItemsOf(db.items, missionId)) ==> m'.status == Completed)
      && (AllResolved(ItemsOf(db.items, missionId)) && m.status != Completed ==>
            m' == m.(status := Completed, completedAt := Some(now)))
      && (!AllResolved(ItemsOf(db.items, missionId)) && m.status == Open ==>
            m' == m.(status := InProgress, startedAt := Some(now)))
      && (m.status == Completed || (!AllResolved(ItemsOf(db.items, missionId)) && m.status != Open) ==> m' == m)
    ensures forall j :: 0 <= j < |db.missions| && Some(j) != MissionIndex(db.missions, missionId) ==> r.0.missions[j] == db.missions[j]
    ensures MissionIndex(db.missions, missionId).None? || |ItemsOf(db.items, missionId)| == 0 ==> r.0 == db
  {
    match MissionIndex(db.missions, missionId)
    case None => (db, false)
    case Some(mi) =>
      var items := ItemsOf(db.items, missionId);
      var m := db.missions[mi];
      if |items| == 0 then (db, false)
      else if AllResolved(items) && m.status != Completed then
        (db.(missions := db.missions[mi := m.(status := Completed, completedAt := Some(now))]), true)
      else if m.status == Open then
        (db.(missions := db.missions[mi := m.(status := InProgress, startedAt := Some(now))]), false)
      else (db, m.status == Completed)
  }

  /** A second recompute changes nothing and reports the same. */
  lemma {:induction false} RecomputeIdempotent(db: Db, missionId: Id, now: Time, later: Time)
    ensures var r := Recompute(db, missionId, now);
      Recompute(r.0, missionId, later) == r
  {
    var r := Recompute(db, missionId, now);
    match MissionIndex(db.missions, missionId)
    case None =>
    case Some(mi) =>
      var mi' := MissionIndex(r.0.missions, missionId);
      assert forall j :: 0 <= j < |db.missions| ==> r.0.missions[j].id == db.missions[j].id;
      assert mi' == Some(mi) by {
        MissionIndexSameIds(db.missions, r.0.missions, missionId);
      }
  }

  lemma {:induction false} MissionIndexSameIds(a: seq<Mission>, b: seq<Mission>, id: Id)
    requires |a| == |b| && forall j :: 0 <= j < |a| ==> a[j].id == b[j].id
    ensures MissionIndex(a, id) == MissionIndex(b, id)
  {
    if |a| > 0 {
      assert forall j :: 0 <= j < |a| - 1 ==> a[1..][j].id == b[1..][j].id;
      MissionIndexSameIds(a[1..], b[1..], id);
    }
  }

  /** The status literals of the store. */
  function StatusName(s: MissionStatus): string {
    match s
    case Open => "OPEN"
    case InProgress => "IN_PROGRESS"
    case Completed => "COMPLETED"
    case Cancelled => "CANCELLED"
  }

  /** `new_status in valid_statuses`: an exact, case-sensitive match. */
  function ParseStatus(literal: string): (r: Option<MissionStatus>)
    ensures forall s :: r == Some(s) <==> StatusName(s) == literal
  {
    if literal == "OPEN" then Some(Open)
    else if literal == "IN_PROGRESS" then Some(InProgress)
    else if literal == "COMPLETED" then Some(Completed)
    else if literal == "CANCELLED" then Some(Cancelled)
    else None
  }

  /** `update_mission_status`: the literal is validated before the mission is
      looked up; the status is overwritten, and `started_at` /
      `completed_at` are stamped only when moving to IN_PROGRESS /
      COMPLETED and not stamped before. */
  function UpdateMissionStatus(db: Db, missionId: Id, literal: string, now: Time): (r: (Db, Result<MissionStatus>))
    ensures ParseStatus(literal).None? ==> r == (db, Failure(InvalidStatus(literal)))
    ensures ParseStatus(literal).Some? && MissionIndex(db.missions, missionId).None? ==> r == (db, Failure(MissionMissing))
    ensures |r.0.missions| == |db.missions|
    ensures ParseStatus(literal).Some? && MissionIndex(db.missions, missionId).Some? ==> r.1.Success?
    ensures r.1.Success? ==>
      var mi := MissionIndex(db.missions, missionId).value;
      var m, m' := db.missions[mi], r.0.missions[mi];
      && r.1.value == ParseStatus(literal).value
      && m' == m.(status := r.1.value, startedAt := m'.startedAt, completedAt := m'.completedAt)
      && (m.startedAt.Some? ==> m'.startedAt == m.startedAt)
      && (m.completedAt.Some? ==> m'.completedAt == m.completedAt)
      && (m'.startedAt != m.startedAt ==> r.1.value == InProgress && m'.startedAt == Some(now))
      && (m'.completedAt != m.completedAt ==> r.1.value == Completed && m'.completedAt == Some(now))
      && r.0 == db.(missions := db.missions[mi := m'])
  {
    match ParseStatus(literal)
    case None => (db, Failure(InvalidStatus(literal)))
    case Some(s) =>
      match MissionIndex(db.missions, missionId)
      case None => (db, Failure(MissionMissing))
      case Some(mi) =>
        var m := db.missions[mi];
        var m' :=
          if s == InProgress && m.startedAt.None? then m.(status := s, startedAt := Some(now))
          else if s == Completed && m.completedAt.None? then m.(status := s, completedAt := Some(now))
          else m.(status := s);
        (db.(missions := db.missions[mi := m']), Success(s))
  }

  // ---------------------------------------------------------------------
  // The auto-skip as written
  // ---------------------------------------------------------------------

  /** `_auto_skip_remaining_positions` as it runs inside `mark_found`: the
      session does not autoflush, so the query selects by the stored status,
      which for the check just found is still PENDING. The rows selected by
      their old state `before` are skipped in the current state `after`. */
  function AutoSkipAsWritten(before: seq<PositionCheck>, after: seq<PositionCheck>, missionId: Id, itemId: Id, now: Time)
    : (r: (seq<PositionCheck>, nat))
    requires |before| == |after|
    ensures |r.0| == |after| && r.1 <= |before|
    ensures forall i :: 0 <= i < |after| ==>
              r.0[i] == (if Remaining(before[i], missionId, itemId) then Skip(after[i], now) else after[i])
  {
    if |before| == 0 then ([], 0)
    else
      var rest := AutoSkipAsWritten(before[1..], after[1..], missionId, itemId, now);
      var head := if Remaining(before[0], missionId, itemId) then Skip(after[0], now) else after[0];
      var r := [head] + rest.0;
      assert forall i :: 1 <= i < |after| ==>
        r[i] == rest.0[i - 1] && after[i] == after[1..][i - 1] && before[i] == before[1..][i - 1];
      (r, if Remaining(before[0], missionId, itemId) then rest.1 + 1 else rest.1)
  }

  /** The check write of `mark_found` as written. */
  function FoundWriteAsWritten(db: Db, ci: nat, ii: nat, q: Qty, checkedBy: string, notes: Option<string>, now: Time): Db
    requires ci < |db.checks| && ii < |db.items|
  {
    var c := db.checks[ci];
    var it' := AddFound(db.items[ii], q, now);
    var checks1 := db.checks[ci := FoundCheck(c, q, checkedBy, notes, now)];
    var checks2 := if it'.qtyFound >= it'.qtyMissing
                   then AutoSkipAsWritten(db.checks, checks1, c.missionId, c.itemId, now).0 else checks1;
    db.(checks := checks2, items := db.items[ii := it'])
  }

  /** As written, the find that resolves an item is overwritten by its own
      auto-skip: the check ends SKIPPED_AUTO (still recorded as found in
      position, with its quantity), where the intended write leaves it FOUND. */
  lemma AsWrittenSkipsTheFoundCheck(db: Db, ci: nat, ii: nat, q: Qty, checkedBy: string, notes: Option<string>, now: Time)
    requires ci < |db.checks| && ii < |db.items|
    requires db.checks[ci].status == Pending
    requires db.items[ii].qtyFound + q >= db.items[ii].qtyMissing
    ensures FoundWriteAsWritten(db, ci, ii, q, checkedBy, notes, now).checks[ci].status == SkippedAuto
    ensures FoundWriteAsWritten(db, ci, ii, q, checkedBy, notes, now).checks[ci].foundInPosition == Some(true)
    ensures FoundWrite(db, ci, ii, q, checkedBy, notes, now).checks[ci].status == Found
  {
    var c := db.checks[ci];
    var checks1 := db.checks[ci := FoundCheck(c, q, checkedBy, notes, now)];
    assert Remaining(db.checks[ci], c.missionId, c.itemId);
    assert !Remaining(checks1[ci], c.missionId, c.itemId);
  }

  /** Apart from the check just found, the write as written and the intended
      write agree. */
  lemma AsWrittenAgreesElsewhere(db: Db, ci: nat, ii: nat, q: Qty, checkedBy: string, notes: Option<string>, now: Time)
    requires ci < |db.checks| && ii < |db.items|
    requires db.checks[ci].status == Pending
    ensures var a, b := FoundWriteAsWritten(db, ci, ii, q, checkedBy, notes, now), FoundWrite(db, ci, ii, q, checkedBy, notes, now);
      && a.items == b.items && |a.checks| == |b.checks|
      && forall j :: 0 <= j < |a.checks| && j != ci ==> a.checks[j] == b.checks[j]
  {
    var c := db.checks[ci];
    var checks1 := db.checks[ci := FoundCheck(c, q, checkedBy, notes, now)];
    forall j | 0 <= j < |db.checks| && j != ci ensures checks1[j] == db.checks[j] { }
  }
}
