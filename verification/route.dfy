/** The read-side projections of a mission (services/mission_service/
    position_generator.py): the checking route in position-code order, the
    next position to check, the status summary and the mission listing. */
module Route {
  import opened Basics
  import opened Store
  import opened Text
  import Sorting
  import CheckHandler

  /** How the database orders the `position_code` column: `collate(a, b)`
      when `a` may come first. Which order that is depends on the column's
      collation (case-insensitive ones are common), so the route is stated
      for any total preorder. */
  type Collation = (string, string) -> bool

  /** Code-point order is one such collation. */
  lemma CodePointCollation()
    ensures Sorting.TotalPreorder(LexLe)
  {
    forall a: string, b: string ensures LexLe(a, b) || LexLe(b, a) {
      LexLeTotal(a, b);
    }
    forall a: string, b: string, c: string | LexLe(a, b) && LexLe(b, c) ensures LexLe(a, c) {
      LexLeTrans(a, b, c);
    }
  }

  /** `order_by(PositionCheck.position_code)`. */
  function ByPosition(collate: Collation): (PositionCheck, PositionCheck) -> bool {
    (a: PositionCheck, b: PositionCheck) => collate(a.positionCode, b.positionCode)
  }

  lemma ByPositionIsPreorder(collate: Collation)
    requires Sorting.TotalPreorder(collate)
    ensures Sorting.TotalPreorder(ByPosition(collate))
  {
    var le := ByPosition(collate);
    forall a: PositionCheck, b: PositionCheck ensures le(a, b) || le(b, a) {
      assert collate(a.positionCode, b.positionCode) || collate(b.positionCode, a.positionCode);
    }
    forall a: PositionCheck, b: PositionCheck, c: PositionCheck | le(a, b) && le(b, c)
      ensures le(a, c)
    {
      assert collate(a.positionCode, b.positionCode) && collate(b.positionCode, c.positionCode);
    }
  }

  /** `mission_item.cesta or mission.cesta`: an empty basket counts as
      absent. */
  function StopCesta(it: MissionItem, missionCesta: Option<string>): Option<string> {
    if TruthyText(it.cesta) then it.cesta else missionCesta
  }

  /** One route entry: a check with the item it inspects. */
  datatype Stop = Stop(check: PositionCheck, item: MissionItem, cesta: Option<string>)

  /** The route loop: each check with its item, dropping checks whose item
      is missing, in the order given. */
  function Stops(checks: seq<PositionCheck>, items: seq<MissionItem>, missionCesta: Option<string>): (r: seq<Stop>)
    ensures |r| <= |checks|
    ensures forall k :: 0 <= k < |r| ==> r[k].check in checks
    ensures forall s :: s in r <==>
      s.check in checks && FindItem(items, s.check.itemId) == Some(s.item) && s.cesta == StopCesta(s.item, missionCesta)
  {
    if |checks| == 0 then []
    else
      var rest := Stops(checks[1..], items, missionCesta);
      assert checks == [checks[0]] + checks[1..];
      match FindItem(items, checks[0].itemId)
      case None => rest
      case Some(it) => [Stop(checks[0], it, StopCesta(it, missionCesta))] + rest
  }

  /** The stops' checks are in `le` order. */
  ghost predicate StopsSortedBy(r: seq<Stop>, le: (PositionCheck, PositionCheck) -> bool) {
    forall i, j :: 0 <= i < j < |r| ==> le(r[i].check, r[j].check)
  }

  /** A stop whose check precedes every later check keeps a sorted route
      sorted. */
  lemma StopsSortedCons(x: Stop, rest: seq<Stop>, le: (PositionCheck, PositionCheck) -> bool)
    requires StopsSortedBy(rest, le)
    requires forall k :: 0 <= k < |rest| ==> le(x.check, rest[k].check)
    ensures StopsSortedBy([x] + rest, le)
  {
    var r := [x] + rest;
    forall i, j | 0 <= i < j < |r| ensures le(r[i].check, r[j].check) {
      assert r[j] == rest[j - 1];
      if i > 0 {
        assert r[i] == rest[i - 1];
      }
    }
  }

  /** The first of a sorted sequence precedes every later element. */
  lemma FirstPrecedes(checks: seq<PositionCheck>, rest: seq<Stop>, le: (PositionCheck, PositionCheck) -> bool)
    requires |checks| > 0 && Sorting.SortedBy(checks, le)
    requires forall k :: 0 <= k < |rest| ==> rest[k].check in checks[1..]
    ensures forall k :: 0 <= k < |rest| ==> le(checks[0], rest[k].check)
  {
    var tail := checks[1..];
    forall k | 0 <= k < |rest| ensures le(checks[0], rest[k].check) {
      var m :| 0 <= m < |tail| && tail[m] == rest[k].check;
      assert checks[m + 1] == tail[m];
    }
  }

  /** Dropping checks keeps the route in the order of its input, for any
      order. */
  lemma {:induction false} StopsOrdered(checks: seq<PositionCheck>, items: seq<MissionItem>, missionCesta: Option<string>,
                                        le: (PositionCheck, PositionCheck) -> bool)
    requires Sorting.SortedBy(checks, le)
    ensures StopsSortedBy(Stops(checks, items, missionCesta), le)
  {
    if |checks| > 0 {
      var tail := checks[1..];
      assert Sorting.SortedBy(tail, le) by {
        forall i, j | 0 <= i < j < |tail| ensures le(tail[i], tail[j]) {
          assert tail[i] == checks[i + 1] && tail[j] == checks[j + 1];
        }
      }
      StopsOrdered(tail, items, missionCesta, le);
      var rest := Stops(tail, items, missionCesta);
      match FindItem(items, checks[0].itemId)
      case Some(it) =>
        FirstPrecedes(checks, rest, le);
        StopsSortedCons(Stop(checks[0], it, StopCesta(it, missionCesta)), rest, le);
      case None =>
    }
  }

  function OfMission(missionId: Id): PositionCheck -> bool {
    (c: PositionCheck) => c.missionId == missionId
  }

  /** The checks of a mission, in store order. */
  function ChecksOf(checks: seq<PositionCheck>, missionId: Id): seq<PositionCheck> {
    Sorting.Filter(checks, OfMission(missionId))
  }

  datatype RouteView = RouteView(code: string, cesta: string, status: MissionStatus, positions: seq<Stop>, total: nat)

  /** `get_mission_route`: none for an unknown mission; otherwise every
      check of the mission whose item exists, with that item, sorted by
      position code under `collate`, and the count of what is listed. */
  function MissionRoute(db: Db, missionId: Id, collate: Collation): (r: Option<RouteView>)
    ensures r.None? <==> MissionIndex(db.missions, missionId).None?
    ensures r.Some? ==> r.value.total == |r.value.positions|
    ensures r.Some? ==> forall s :: s in r.value.positions <==>
      && s.check in db.checks && s.check.missionId == missionId
      && FindItem(db.items, s.check.itemId) == Some(s.item)
      && s.cesta == StopCesta(s.item, Some(r.value.cesta))
  {
    match MissionIndex(db.missions, missionId)
    case None => None
    case Some(mi) =>
      var m := db.missions[mi];
      var ordered := Sorting.Sort(ChecksOf(db.checks, missionId), ByPosition(collate));
      assert forall c :: c in ordered <==> c in db.checks && c.missionId == missionId;
      var positions := Stops(ordered, db.items, Some(m.cesta));
      Some(RouteView(m.code, m.cesta, m.status, positions, |positions|))
  }

  /** The route lists its positions in ascending position-code order, for
      whatever collation the column has. */
  lemma RouteOrdered(db: Db, missionId: Id, collate: Collation)
    requires Sorting.TotalPreorder(collate)
    ensures var r := MissionRoute(db, missionId, collate);
      r.Some? ==> forall i, j :: 0 <= i < j < |r.value.positions| ==>
        collate(r.value.positions[i].check.positionCode, r.value.positions[j].check.positionCode)
  {
    match MissionIndex(db.missions, missionId)
    case None =>
    case Some(mi) =>
      var le := ByPosition(collate);
      var ordered := Sorting.Sort(ChecksOf(db.checks, missionId), le);
      ByPositionIsPreorder(collate);
      Sorting.SortSorted(ChecksOf(db.checks, missionId), le);
      StopsOrdered(ordered, db.items, Some(db.missions[mi].cesta), le);
      assert MissionRoute(db, missionId, collate).value.positions == Stops(ordered, db.items, Some(db.missions[mi].cesta));
  }

  /** A check still to be inspected. */
  predicate Open(c: PositionCheck, missionId: Id) {
    c.missionId == missionId && c.status == CheckStatus.Pending
  }

  function OpenOf(missionId: Id): PositionCheck -> bool {
    (c: PositionCheck) => Open(c, missionId)
  }

  /** `get_next_position`: the first PENDING check of the mission in
      position-code order, with its item; none when no check is pending or
      that check's item is missing. */
  function NextPosition(db: Db, missionId: Id, collate: Collation): (r: Option<Stop>)
    ensures r.Some? ==> r.value.check in db.checks && Open(r.value.check, missionId)
    ensures r.Some? ==> FindItem(db.items, r.value.check.itemId) == Some(r.value.item)
  {
    var pending := PendingInOrder(db.checks, missionId, collate);
    if |pending| == 0 then None
    else
      assert pending[0] in pending;
      var missionCesta := match MissionIndex(db.missions, missionId)
        case None => None
        case Some(mi) => Some(db.missions[mi].cesta);
      match FindItem(db.items, pending[0].itemId)
      case None => None
      case Some(it) => Some(Stop(pending[0], it, StopCesta(it, missionCesta)))
  }

  /** The pending checks of a mission in position-code order. */
  function PendingInOrder(checks: seq<PositionCheck>, missionId: Id, collate: Collation): seq<PositionCheck> {
    Sorting.Sort(Sorting.Filter(checks, OpenOf(missionId)), ByPosition(collate))
  }

  /** The first of the pending checks in position order precedes every
      pending check of the mission. */
  lemma PendingFirstIsLeast(checks: seq<PositionCheck>, missionId: Id, collate: Collation)
    requires Sorting.TotalPreorder(collate)
    ensures forall c :: c in PendingInOrder(checks, missionId, collate) <==> c in checks && Open(c, missionId)
    ensures var p := PendingInOrder(checks, missionId, collate);
      |p| > 0 ==> forall c :: c in checks && Open(c, missionId) ==> collate(p[0].positionCode, c.positionCode)
  {
    var le := ByPosition(collate);
    var filtered := Sorting.Filter(checks, OpenOf(missionId));
    var pending := Sorting.Sort(filtered, le);
    if |pending| > 0 {
      ByPositionIsPreorder(collate);
      Sorting.SortSorted(filtered, le);
      forall c | c in checks && Open(c, missionId) ensures collate(pending[0].positionCode, c.positionCode) {
        var k :| 0 <= k < |pending| && pending[k] == c;
        if k > 0 {
          assert le(pending[0], pending[k]);
        } else {
          assert collate(c.positionCode, c.positionCode) || collate(c.positionCode, c.positionCode);
        }
      }
    }
  }

  /** No pending check of the mission comes before the one returned; and
      when no check of the mission is pending there is none to return, while
      when every pending check has its item one is always returned. */
  lemma NextPositionIsFirst(db: Db, missionId: Id, collate: Collation)
    requires Sorting.TotalPreorder(collate)
    ensures var r := NextPosition(db, missionId, collate);
      && (r.Some? ==> forall c :: c in db.checks && Open(c, missionId) ==> collate(r.value.check.positionCode, c.positionCode))
      && ((forall c :: c in db.checks ==> !Open(c, missionId)) ==> r.None?)
      && (((exists c :: c in db.checks && Open(c, missionId)) &&
           (forall c :: c in db.checks && Open(c, missionId) ==> FindItem(db.items, c.itemId).Some?)) ==> r.Some?)
  {
    var pending := PendingInOrder(db.checks, missionId, collate);
    PendingFirstIsLeast(db.checks, missionId, collate);
    if |pending| > 0 {
      assert pending[0] in pending;
    }
  }

  // ---------------------------------------------------------------------
  // Summary
  // ---------------------------------------------------------------------

  datatype Tally = Tally(pending: nat, found: nat, notFound: nat, skipped: nat)

  /** The counting loop of `get_mission_summary`. */
  function TallyOf(checks: seq<PositionCheck>): (t: Tally)
    ensures t.pending + t.found + t.notFound + t.skipped == |checks|
  {
    if |checks| == 0 then Tally(0, 0, 0, 0)
    else
      var t := TallyOf(checks[1..]);
      match checks[0].status
      case Pending => t.(pending := t.pending + 1)
      case Found => t.(found := t.found + 1)
      case NotFound => t.(notFound := t.notFound + 1)
      case SkippedAuto => t.(skipped := t.skipped + 1)
  }

  function InStatus(st: CheckStatus): PositionCheck -> bool {
    (c: PositionCheck) => c.status == st
  }

  /** Reference: the number of checks in a given status. */
  function CountStatus(checks: seq<PositionCheck>, st: CheckStatus): nat {
    |Sorting.Filter(checks, InStatus(st))|
  }

  lemma CountStatusStep(checks: seq<PositionCheck>, st: CheckStatus)
    requires |checks| > 0
    ensures CountStatus(checks, st) == CountStatus(checks[1..], st) + (if checks[0].status == st then 1 else 0)
  {
  }

  /** Each tally is the number of checks in that status. */
  lemma {:induction false} TallyCounts(checks: seq<PositionCheck>)
    ensures var t := TallyOf(checks);
      && t.pending == CountStatus(checks, CheckStatus.Pending)
      && t.found == CountStatus(checks, Found)
      && t.notFound == CountStatus(checks, NotFound)
      && t.skipped == CountStatus(checks, SkippedAuto)
  {
    if |checks| > 0 {
      TallyCounts(checks[1..]);
      CountStatusStep(checks, CheckStatus.Pending);
      CountStatusStep(checks, Found);
      CountStatusStep(checks, NotFound);
      CountStatusStep(checks, SkippedAuto);
      TallyOfStep(checks);
    }
  }

  /** The first check adds one to the tally of its own status. */
  lemma TallyOfStep(checks: seq<PositionCheck>)
    requires |checks| > 0
    ensures var t, t0, st := TallyOf(checks), TallyOf(checks[1..]), checks[0].status;
      && t.pending == t0.pending + (if st == CheckStatus.Pending then 1 else 0)
      && t.found == t0.found + (if st == Found then 1 else 0)
      && t.notFound == t0.notFound + (if st == NotFound then 1 else 0)
      && t.skipped == t0.skipped + (if st == SkippedAuto then 1 else 0)
  {
  }

  /** `round(completed / total * 100, 2)` before the rounding; 0 when there
      are no checks. */
  function Percentage(completed: nat, total: nat): (p: real)
    requires completed <= total
    ensures 0.0 <= p <= 100.0
    ensures total == 0 ==> p == 0.0
    ensures total > 0 ==> (p == 100.0 <==> completed == total)
    ensures total > 0 ==> (p == 0.0 <==> completed == 0)
  {
    if total > 0 then
      RatioBounds(completed as real, total as real);
      completed as real / total as real * 100.0
    else 0.0
  }

  lemma RatioBounds(a: real, b: real)
    requires 0.0 <= a <= b && b > 0.0
    ensures 0.0 <= a / b <= 1.0
    ensures a / b == 1.0 <==> a == b
    ensures a / b == 0.0 <==> a == 0.0
  {
  }

  datatype Summary = Summary(
    missionId: Id,
    code: string,
    cesta: string,
    status: MissionStatus,
    createdBy: string,
    createdAt: Time,
    totalItems: nat,
    resolvedItems: nat,
    unresolvedItems: nat,
    totalPositions: nat,
    tally: Tally,
    percentage: real)

  predicate IsResolved(it: MissionItem) {
    it.isResolved
  }

  function CountResolved(items: seq<MissionItem>): (n: nat)
    ensures n <= |items|
  {
    |Sorting.Filter(items, IsResolved)|
  }

  /** The summary of one mission record. */
  function SummaryOf(db: Db, m: Mission): (s: Summary)
    ensures s.missionId == m.id && s.status == m.status && s.createdAt == m.createdAt
    ensures s.totalItems == |CheckHandler.ItemsOf(db.items, m.id)|
    ensures s.resolvedItems + s.unresolvedItems == s.totalItems
    ensures s.totalPositions == |ChecksOf(db.checks, m.id)|
    ensures s.tally.pending + s.tally.found + s.tally.notFound + s.tally.skipped == s.totalPositions
    ensures 0.0 <= s.percentage <= 100.0
    ensures s.totalPositions == 0 ==> s.percentage == 0.0
    ensures s.totalPositions > 0 ==> (s.percentage == 100.0 <==> s.tally.pending == 0)
  {
    var items := CheckHandler.ItemsOf(db.items, m.id);
    var checks := ChecksOf(db.checks, m.id);
    var t := TallyOf(checks);
    var resolved := CountResolved(items);
    Summary(m.id, m.code, m.cesta, m.status, m.createdBy, m.createdAt,
            |items|, resolved, |items| - resolved, |checks|, t,
            Percentage(t.found + t.notFound + t.skipped, |checks|))
  }

  /** `get_mission_summary`: none for an unknown mission. */
  function MissionSummary(db: Db, missionId: Id): (r: Option<Summary>)
    ensures r.None? <==> MissionIndex(db.missions, missionId).None?
    ensures r.Some? ==> r.value.missionId == missionId
  {
    match MissionIndex(db.missions, missionId)
    case None => None
    case Some(mi) => Some(SummaryOf(db, db.missions[mi]))
  }

  // ---------------------------------------------------------------------
  // Listing
  // ---------------------------------------------------------------------

  /** `order_by(Mission.created_at.desc())`. */
  predicate NewerFirst(a: Mission, b: Mission) {
    a.createdAt >= b.createdAt
  }

  lemma NewerFirstIsPreorder()
    ensures Sorting.TotalPreorder(NewerFirst)
  {
  }

  /** `if status and status.strip()`: a missing or blank status filters
      nothing. */
  predicate Filtering(status: Option<string>) {
    status.Some? && Strip(status.value) != ""
  }

  /** The missions whose status name equals `name` under SQL `=`. */
  function NamedStatus(name: string): Mission -> bool {
    (m: Mission) => PaddedEq(CheckHandler.StatusName(m.status), name)
  }

  /** `Mission.status == status.upper()`: a mission passes when its status
      name equals the upper-cased filter as SQL compares strings, trailing
      spaces of the filter not counting. */
  predicate Passes(m: Mission, status: Option<string>) {
    Filtering(status) ==> PaddedEq(CheckHandler.StatusName(m.status), Upper(status.value))
  }

  /** The missions the status filter lets through. */
  function Selected(missions: seq<Mission>, status: Option<string>): (r: seq<Mission>)
    ensures forall m :: m in r <==> m in missions && Passes(m, status)
  {
    if Filtering(status) then Sorting.Filter(missions, NamedStatus(Upper(status.value)))
    else missions
  }

  /** A status made of a separator character strips to nothing, so it
      filters nothing and every mission passes. */
  lemma SeparatorStatusListsAll(missions: seq<Mission>)
    ensures Selected(missions, Some("\U{1C}")) == missions
  {
    SeparatorsStripToNothing();
  }

  /** A filter written with a trailing space, `"open "`, selects exactly the
      OPEN missions. */
  lemma TrailingSpaceFilter(missions: seq<Mission>)
    ensures forall m :: m in Selected(missions, Some("open ")) <==> m in missions && m.status == MissionStatus.Open
  {
    forall m | m in missions ensures Passes(m, Some("open ")) <==> m.status == MissionStatus.Open {
      OpenFilterPasses(m);
    }
  }

  lemma OpenFilterPasses(m: Mission)
    ensures Passes(m, Some("open ")) <==> m.status == MissionStatus.Open
  {
    OpenFilterText();
    NamedOpen(m.status);
    PaddedOpen(CheckHandler.StatusName(m.status));
  }

  lemma PaddedOpen(name: string)
    requires name == [] || name[|name| - 1] != ' '
    ensures PaddedEq(name, Upper("open ")) <==> name == "OPEN"
  {
    OpenFilterText();
    UnpaddedKept(name);
  }

  lemma NamedOpen(st: MissionStatus)
    ensures var name := CheckHandler.StatusName(st);
      && (name == "OPEN" <==> st == MissionStatus.Open)
      && |name| > 0 && name[|name| - 1] != ' '
  {
    match st
    case Open =>
    case InProgress => assert |CheckHandler.StatusName(st)| == 11;
    case Completed => assert |CheckHandler.StatusName(st)| == 9;
    case Cancelled => assert |CheckHandler.StatusName(st)| == 9;
  }

  lemma UnpaddedKept(s: string)
    requires s == [] || s[|s| - 1] != ' '
    ensures TrimPadding(s) == s
  {
  }

  lemma OpenFilterText()
    ensures Filtering(Some("open "))
    ensures TrimPadding(Upper("open ")) == "OPEN"
  {
    assert Upper("open ") == "OPEN ";
    assert TrimPadding("OPEN ") == TrimPadding("OPEN");
    assert !IsSpace("open "[0]);
  }

  function Listed(db: Db, status: Option<string>, limit: nat): (r: seq<Mission>)
    ensures |r| == if limit < |Selected(db.missions, status)| then limit else |Selected(db.missions, status)|
    ensures forall m :: m in r ==> m in db.missions && Passes(m, status)
  {
    var ordered := Sorting.Sort(Selected(db.missions, status), NewerFirst);
    var taken := if limit < |ordered| then ordered[..limit] else ordered;
    assert forall m :: m in taken ==> m in multiset(ordered);
    taken
  }

  /** `list_all_missions`: the summaries of the newest `limit` missions the
      status filter lets through, newest first. */
  function ListMissions(db: Db, status: Option<string>, limit: nat): (r: seq<Summary>)
    ensures |r| <= limit && |r| <= |db.missions|
    ensures forall i :: 0 <= i < |r| ==>
      exists m :: m in db.missions && r[i] == SummaryOf(db, m) && Passes(m, status)
  {
    var listed := Listed(db, status, limit);
    assert forall i :: 0 <= i < |listed| ==> listed[i] in listed;
    seq(|listed|, i requires 0 <= i < |listed| => SummaryOf(db, listed[i]))
  }

  /** The listing is newest first, and it is cut short only by `limit`: a
      listing shorter than `limit` holds every mission the filter lets
      through. */
  lemma ListMissionsOrderAndCount(db: Db, status: Option<string>, limit: nat)
    ensures var r := ListMissions(db, status, limit);
      && (forall i, j :: 0 <= i < j < |r| ==> r[i].createdAt >= r[j].createdAt)
      && (|r| < limit ==> |r| == |Selected(db.missions, status)|)
  {
    var sel := Selected(db.missions, status);
    NewerFirstIsPreorder();
    Sorting.SortSorted(sel, NewerFirst);
  }

  /** The listing summarises the listed missions one for one, and a mission
      the filter lets through but the listing leaves out is no newer than
      any listed one: the listing is the newest `limit`. */
  lemma ListedAreNewest(db: Db, status: Option<string>, limit: nat)
    ensures var r, listed := ListMissions(db, status, limit), Listed(db, status, limit);
      && |r| == |listed|
      && (forall i :: 0 <= i < |r| ==> r[i] == SummaryOf(db, listed[i]))
    ensures var listed := Listed(db, status, limit);
      forall m, n :: m in Selected(db.missions, status) && m !in listed && n in listed ==> m.createdAt <= n.createdAt
  {
    var sel := Selected(db.missions, status);
    var ordered := Sorting.Sort(sel, NewerFirst);
    var listed := Listed(db, status, limit);
    NewerFirstIsPreorder();
    Sorting.SortSorted(sel, NewerFirst);
    forall m, n | m in sel && m !in listed && n in listed ensures m.createdAt <= n.createdAt {
      LeftOutIsOlder(ordered, limit, m, n);
    }
  }

  lemma LeftOutIsOlder(ordered: seq<Mission>, limit: nat, m: Mission, n: Mission)
    requires Sorting.SortedBy(ordered, NewerFirst)
    requires m in ordered && limit < |ordered| && m !in ordered[..limit] && n in ordered[..limit]
    ensures m.createdAt <= n.createdAt
  {
    var k :| 0 <= k < |ordered| && ordered[k] == m;
    var j :| 0 <= j < limit && ordered[..limit][j] == n;
    assert NewerFirst(ordered[j], ordered[k]);
  }

  /** Without a filter, a listing whose limit covers the store lists every
      mission. */
  lemma ListAllWhenUnfiltered(db: Db, status: Option<string>, limit: nat)
    requires !Filtering(status) && |db.missions| <= limit
    ensures |ListMissions(db, status, limit)| == |db.missions|
  {
  }
}
