# Mission reconciliation engine — a Dafny model

This project models the core of a warehouse "problem solving" backend. It
finds the order lines a basket (`cesta`) was shipped short of, opens a
mission for them and sends operators to inspect candidate unit-loads (UDCs).
The operators' findings then resolve the mission. Around that core sit the
derived tables the mission relies on:

- the unit-load inventory, rebuilt from picking events;
- the picking events, fanned out from the picking reply;
- the unit-load location directory, updated from position snapshots.

The store is modelled as immutable records (`Store`). Each table is a
sequence in query order, except the location directory, which is a map keyed
by unit-load code. `Numeric(18,3)` quantities are integers in thousandths, their stored precision (finer inputs are listed under "Left out").
Clock readings and today's date are inputs.

Modules:

- `Shortfall`: summing shipped quantities per (order number, pick-list, SKU)
  and diffing them against the basket's order items.
- `MissionBuilder`: mission creation. It writes one OPEN mission, one item per
  shortfall line, and fans each line out into PENDING position checks, one per
  matching inventory row. Checks attach to items through the `(sku, listone)`
  map.
- `MissionCode`: the `PSM-YYYYMMDD-NNN` mission code, as written and as
  intended.
- `CheckHandler`: the check resolution state machine.
  - A PENDING check becomes FOUND or NOT_FOUND.
  - A find adds to its item's found quantity and resolves the item when the
    shortfall is covered, never un-resolving it.
  - Once the item is covered, its remaining PENDING checks are auto-skipped.
  - The mission status is recomputed from its items, or set by hand.
- `Route`: read-side projections.
  - The route in position-code order.
  - The next position to check.
  - The status tally and completion percentage.
  - The newest-first mission listing.
- `Inventory` and `Grouping`: the per-company clear-and-aggregate rebuild of
  the unit-load inventory (`GROUP BY` with `SUM`).
- `Fanout`: the (listone, SKU) index and the picking-event fan-out join.
- `Monitor`: the location directory update.
  - It keeps the newest snapshot row per pallet.
  - It composes the position code from the non-blank slot parts.
  - It overwrites locations unconditionally.
  - It also models reading the date out of a snapshot file name.
- `Text`, `Sorting`, `Basics`: the `str` operations, ordering and filtering
  the code relies on.

One `Pending` constructor covers both spellings of an unchecked position.
Creation writes `'PENDING'` and the handler requires it. The schema default is
`'TO_CHECK'`, which the route code also accepts.

## Model

| member | source | states |
|---|---|---|
| Shortfall.ShippedMap | services/mission_service/mission_creator.py:156-165 | the map's keys are exactly the keys of the shipped records; looking up any key (an absent one giving 0) gives the sum of the quantities of all records with that key |
| Shortfall.FindMissing | services/mission_service/mission_creator.py:145-191 | no more lines than there are order items; every line's shipped quantity is the total shipped under its (order number, pick-list, SKU) key, and its missing quantity is exactly ordered minus shipped, and positive |
| Shortfall.FindMissingIff | services/mission_service/mission_creator.py:152-189 | a line is emitted exactly when some order item of the basket whose order exists was ordered (null counting as 0) in a larger quantity than the total shipped under its key; the line carries that item's quantities and the exact difference |
| Shortfall.FindMissingInOrder | services/mission_service/mission_creator.py:152-189 | the lines come in the query order of the order items, one for each basket item whose order exists and that is short, and nothing else |
| Shortfall.NoShortfallWhenFullyShipped | services/mission_service/mission_creator.py:168-191 | when every basket item with an order is covered by its shipped total, no line is emitted |
| MissionBuilder.CreateMission | services/mission_service/mission_creator.py:42-140 | an API failure and an empty shipment are failures that leave the store as it was; no shortfall is a success that creates nothing; when the next code (the text-greatest code of the day plus one) already exists, the insert fails on the unique code and nothing is written; otherwise a mission is created under that code, exactly when the shipment and the shortfall are non-empty |
| MissionBuilder.CreateFailsAfterThousand | services/mission_service/mission_creator.py:78-142 | with codes 999 and 1000 of the day in the store, creation for a short basket fails on the duplicate code 1000 and writes nothing |
| MissionBuilder.CreateSucceedsBelowThousand | services/mission_service/mission_creator.py:42-142 | while every code of the day is numbered below 1000, a mission is created exactly when the shipment and the shortfall are non-empty |
| MissionBuilder.CreatedMissionShape | services/mission_service/mission_creator.py:77-131 | a created mission is written OPEN under a fresh id and the next code, which no existing mission has; it gets exactly one unresolved item per shortfall line with the quantities copied and nothing found; only new PENDING checks attached to those new items are added, as many as reported, each inspecting a unit-load that holds its item's key; the other tables are untouched |
| MissionBuilder.BuildWritesMission | services/mission_service/mission_creator.py:78-88 | the new mission row is OPEN under the given code, stamped with the creator and time, and its id is used by no existing mission; the other tables are untouched |
| MissionBuilder.ItemsAppended | services/mission_service/mission_creator.py:92-106 | the items table grows by exactly one item per line, in line order, each copying its line, with ids no earlier item has |
| MissionBuilder.ChecksAttached | services/mission_service/mission_creator.py:226-252 | every check written for the lines is a new PENDING check of the mission attached to one of the newly appended items, carrying that item's listone and inspecting a unit-load that holds the item's (SKU, listone) key |
| MissionBuilder.CheckOfNewItem | services/mission_service/mission_creator.py:227-247 | the item id the `(sku, listone)` map gives a line's key belongs to one of the items appended for the lines, with that listone |
| MissionBuilder.ItemMap | services/mission_service/mission_creator.py:204-208 | a key is in the map exactly when some item with a truthy listone has it, and it maps to the id of the last such item in query order |
| MissionBuilder.SharedKeyCollapses | services/mission_service/mission_creator.py:204-208 | when two items share a SKU and a truthy listone, the map sends their key to the later item's id and not to the earlier one's |
| MissionBuilder.ItemMapSuffixWins | services/mission_service/mission_creator.py:204-208 | a key carried by an item of the appended part of the items resolves to an item of that part with the same key |
| MissionBuilder.MatchingRows | services/mission_service/mission_creator.py:216-220 | exactly the inventory rows with the line's listone and SKU and a positive quantity |
| MissionBuilder.CheckOfRow | services/mission_service/mission_creator.py:235-252 | the check for a matching row is PENDING, attached to the item and mission, carries the listone and the row's unit-load, and has the unit-load's stored position code or UNKNOWN |
| MissionBuilder.ChecksForRows | services/mission_service/mission_creator.py:235-255 | one check per matching inventory row, in row order, the i-th for the i-th matching row with consecutive ids |
| MissionBuilder.ChecksCoverMatchingRows | services/mission_service/mission_creator.py:216-252 | every check of a key inspects a unit-load holding that key, and every unit-load holding it gets a check |
| MissionBuilder.ChecksForLine | services/mission_service/mission_creator.py:210-233 | a line with no listone, or whose key the map lacks, yields no checks; otherwise its checks are those of the rows matching its key, for the item the map gives, each a new PENDING check inspecting a unit-load that holds the key |
| MissionBuilder.GenerateChecks | services/mission_service/mission_creator.py:193-258 | the number of checks is the number the lines call for, their ids are consecutive, and each check belongs to a line whose key resolves in the map and inspects a unit-load holding that key |
| MissionBuilder.CheckCountOfCreatedMission | services/mission_service/mission_creator.py:210-258 | every line with a truthy listone finds its item, so the reported count is the number of inventory rows matching the keys of those lines |
| MissionBuilder.ItemsFor | services/mission_service/mission_creator.py:93-106 | one item per line, in order, each copying its line's order number, list, SKU, listone and quantities, with nothing found and not resolved |
| MissionBuilder.NewMissionId | services/mission_service/mission_creator.py:87-88 | the new mission's id is above every existing one |
| MissionBuilder.ItemsOfMission | services/mission_service/mission_creator.py:200-202 | exactly the items of the mission |
| MissionCode.DateStamp | services/mission_service/mission_creator.py:265 | the date stamp is all digits, so it holds no '-' |
| MissionCode.CodeForRoundTrip | services/mission_service/mission_creator.py:266-283 | a code built for a day carries that day's prefix, and its last '-' segment parses back to the number it was built from |
| MissionCode.CodesOfDay | services/mission_service/mission_creator.py:269-270 | exactly the codes that start with the day's prefix |
| MissionCode.LexMax | services/mission_service/mission_creator.py:269-271 | the first code in descending code order is one of the codes, and every code is lexicographically at most it |
| MissionCode.GenerateCodeAsWritten | services/mission_service/mission_creator.py:260-283 | the code carries today's prefix, and is numbered 1 when today has no code or when the suffix of the day's text-greatest code does not parse (the bare `except`) |
| MissionCode.NextNumberAsWritten | services/mission_service/mission_creator.py:273-281 | no code of the day gives 1, an unparsable suffix on the text-greatest code gives 1, and the number is always at least 1 |
| MissionCode.GenerateCodeFresh | services/mission_service/mission_creator.py:260-283 | the intended code carries today's prefix, its number exceeds every number used today, it is not an existing code, and the first code of a day is numbered 1 |
| MissionCode.CodesCompareNumerically | services/mission_service/mission_creator.py:269-283 | for numbers up to 999, the descending code order agrees with the numbers |
| MissionCode.AsWrittenAgreesBelowThousand | services/mission_service/mission_creator.py:268-283 | while every code of the day is numbered 1 to 999, the code generated as written is the intended one, and is fresh |
| MissionCode.AsWrittenRepeatsAfterThousand | services/mission_service/mission_creator.py:268-283 | once codes 999 and 1000 of a day exist, the code generated as written is the existing code 1000 |
| CheckHandler.Locate | services/position_service/check_handler.py:46-71 | a found check and item are valid positions of their tables |
| CheckHandler.MarkFound | services/position_service/check_handler.py:43-116 | a refused `mark_found` changes nothing, and the reported quantity still missing is never negative |
| CheckHandler.MarkFoundFailures | services/position_service/check_handler.py:46-71 | `mark_found` reports a missing check exactly when no check has the id, and an already-checked one exactly when the first check with the id is not PENDING; a failure changes nothing |
| CheckHandler.MarkFoundOutcome | services/position_service/check_handler.py:46-71 | `mark_found` refuses for want of the item exactly when the first check with the id is PENDING and no item has its item id, and succeeds exactly when that check is PENDING and its item exists |
| CheckHandler.MarkFoundEffect | services/position_service/check_handler.py:73-93 | on success the check becomes FOUND in position with the given quantity (one unit when none is given); the item's found quantity grows by exactly that; the item is resolved exactly when it already was or the total covers the shortfall; other items and the missions are unchanged |
| CheckHandler.MarkFoundReport | services/position_service/check_handler.py:88-116 | the report gives whether the item is covered, the quantity, the item's new total, max(missing − found, 0) as still missing, and the mission-complete flag of the recompute |
| CheckHandler.MarkFoundSkipsOnlySiblings | services/position_service/check_handler.py:95-101 | apart from the check just found, a check changes only when the item is now covered and the check is a PENDING check of the same mission and item, and then it is auto-skipped |
| CheckHandler.AddFound | services/position_service/check_handler.py:85-93 | the found quantity grows by exactly the amount; the item is resolved exactly when it was or the total covers the shortfall, so resolution is one-way |
| CheckHandler.Skip | services/position_service/check_handler.py:204-207 | a skipped check is SKIPPED_AUTO and keeps its id, mission and item |
| CheckHandler.AutoSkip | services/position_service/check_handler.py:186-209 | each remaining (PENDING, same mission and item) check is skipped and every other check is kept; afterwards no remaining check is left |
| CheckHandler.AutoSkipCount | services/position_service/check_handler.py:198-209 | the count returned is the number of checks the query selects |
| CheckHandler.FoundWrite | services/position_service/check_handler.py:77-101 | the check at the position is written FOUND and the item's quantity is added; other items and the missions are unchanged |
| CheckHandler.MarkNotFound | services/position_service/check_handler.py:144-175 | a missing check (no check has the id) or an already-checked one is refused with the store unchanged, and a PENDING one is always accepted; on success only that check changes, to NOT_FOUND and not found in position; items and missions are never touched |
| CheckHandler.CheckedOnlyOnce | services/position_service/check_handler.py:144-175 | once a check is marked NOT_FOUND, both `mark_found` and `mark_not_found` refuse it as already checked |
| CheckHandler.Recompute | services/position_service/check_handler.py:211-245 | a missing mission or one with no items gives false and no change; all items resolved makes the mission COMPLETED, stamped if newly, with its other fields kept; otherwise an OPEN mission becomes IN_PROGRESS, stamped, with its other fields kept, and any other mission stays as it was; the result is whether the mission ends COMPLETED; no other row changes |
| CheckHandler.RecomputeIdempotent | services/position_service/check_handler.py:211-245 | a second recompute, at any time, changes nothing and reports the same |
| CheckHandler.ParseStatus | services/position_service/check_handler.py:263-269 | a literal is accepted exactly when it is the exact name of one of OPEN, IN_PROGRESS, COMPLETED, CANCELLED |
| CheckHandler.UpdateMissionStatus | services/position_service/check_handler.py:262-297 | an invalid literal is refused before the lookup, and a missing mission is refused, both with no change; a valid literal for an existing mission always succeeds; on success only that mission changes, in its status and stamps alone, and started/completed stamps change only when moving to IN_PROGRESS/COMPLETED while unset |
| CheckHandler.AutoSkipAsWritten | services/position_service/check_handler.py:198-207 | the checks skipped are those selected by their stored (pre-write) state, and the skip is applied to their current state |
| CheckHandler.AsWrittenSkipsTheFoundCheck | services/position_service/check_handler.py:77-101 | as written, a find that covers the item leaves the found check SKIPPED_AUTO, where the intended write leaves it FOUND |
| CheckHandler.AsWrittenAgreesElsewhere | services/position_service/check_handler.py:77-101 | apart from the check just found, the write as written and the intended write agree |
| Route.MissionRoute | services/mission_service/position_generator.py:29-86 | none exactly for an unknown mission; otherwise the route lists exactly the mission's checks whose item exists, each with that item and basket, and the total is the route's length; the position order is the column's collation, a parameter |
| Route.RouteOrdered | services/mission_service/position_generator.py:41-43 | for any collation that is a total preorder, the route is in ascending position-code order under it |
| Route.CodePointCollation | services/mission_service/position_generator.py:41-43 | code-point order is a total preorder, so it is one collation the route ordering covers |
| Route.Stops | services/mission_service/position_generator.py:55-78 | exactly the checks whose item exists, each paired with its item and the item's basket, or else the mission's |
| Route.StopsOrdered | services/mission_service/position_generator.py:57-78 | dropping the checks without an item keeps the input order, whatever the order |
| Route.NextPosition | services/mission_service/position_generator.py:104-137 | the returned check is a PENDING check of the mission, with its item |
| Route.NextPositionIsFirst | services/mission_service/position_generator.py:109-123 | for any collation that is a total preorder, no PENDING check of the mission precedes the one returned in position order; none is returned when none is PENDING; one is always returned when some is PENDING and all of their items exist |
| Route.PendingFirstIsLeast | services/mission_service/position_generator.py:109-112 | the query's checks are exactly the mission's PENDING checks, and under any collation that is a total preorder the first precedes them all |
| Route.TallyOf | services/mission_service/position_generator.py:177-193 | the four counts add up to the number of checks |
| Route.TallyCounts | services/mission_service/position_generator.py:185-193 | each count is the number of checks in that status |
| Route.Percentage | services/mission_service/position_generator.py:202-209 | 0 with no checks; otherwise in [0, 100], 100 exactly when all are completed and 0 exactly when none is |
| Route.CountResolved | services/mission_service/position_generator.py:169-170 | the resolved items are at most all of the items |
| Route.SummaryOf | services/mission_service/position_generator.py:164-227 | the item totals add up (unresolved = total − resolved); the position total is the mission's check count and the tallies sum to it; the percentage is 0 with no checks, in [0, 100], and 100 exactly when none is pending |
| Route.MissionSummary | services/mission_service/position_generator.py:155-162 | none exactly for an unknown mission, otherwise that mission's summary |
| Route.SeparatorStatusListsAll | services/mission_service/position_generator.py:254-256 | a status of a lone file separator strips to nothing, so every mission is listed |
| Route.Selected | services/mission_service/position_generator.py:254-256 | without a (non-blank) status every mission; otherwise exactly those whose status name equals the filter with its ASCII letters upper-cased, under SQL `=`, which ignores trailing spaces |
| Route.TrailingSpaceFilter | services/mission_service/position_generator.py:255-256 | the filter `"open "` selects exactly the OPEN missions |
| Route.Listed | services/mission_service/position_generator.py:258-261 | min(limit, number selected) missions, all selected |
| Route.ListMissions | services/mission_service/position_generator.py:250-270 | at most `limit` summaries, each the summary of a mission the filter lets through under SQL `=` |
| Route.ListMissionsOrderAndCount | services/mission_service/position_generator.py:258-261 | the listing is newest first, and shorter than `limit` only when it holds every selected mission |
| Route.ListedAreNewest | services/mission_service/position_generator.py:258-270 | the listing summarises the listed missions one for one, and no mission the filter lets through but the listing leaves out is newer than a listed one |
| Route.ListAllWhenUnfiltered | services/mission_service/position_generator.py:254-261 | without a filter and with a limit covering the store, every mission is listed |
| Inventory.CompanyKey | services/ingestion_service/rebuild_udc_inventory.py:27 | the company key is stripped and lower-case |
| Inventory.CompanyKeySkipsSeparator | services/ingestion_service/rebuild_udc_inventory.py:27 | a company written with a leading space and file separator, `" \x1cACME"`, keys as `acme` |
| Inventory.CompanyKeyStable | services/ingestion_service/rebuild_udc_inventory.py:27 | passing a non-empty key back in as the company gives the same key |
| Inventory.JoinedWith | services/ingestion_service/rebuild_udc_inventory.py:40-55 | exactly one joined row per order item the event joins with, keyed by (unit-load, SKU, listone) |
| Inventory.Joined | services/ingestion_service/rebuild_udc_inventory.py:40-55 | exactly the (key, quantity) rows of the joined (event, order item) pairs of the company with unit-load and listone set and a positive quantity |
| Inventory.RowsOf | services/ingestion_service/rebuild_udc_inventory.py:66-77 | exactly the company rows of the groups with a positive total |
| Inventory.Rebuild | services/ingestion_service/rebuild_udc_inventory.py:20-86 | only the inventory changes; other companies' rows are kept; every row of the company has a positive quantity equal to the total picked under its key |
| Inventory.RebuildCompanyRows | services/ingestion_service/rebuild_udc_inventory.py:66-86 | the company's rows afterwards are exactly the rows written, and their number is the count returned |
| Inventory.RebuildRows | services/ingestion_service/rebuild_udc_inventory.py:40-77 | the company gets a row for a (unit-load, SKU, listone) key exactly when a joined event contributes to it, and never two rows for one key |
| Inventory.NewRowsKeys | services/ingestion_service/rebuild_udc_inventory.py:56-77 | the rows written carry exactly the keys of the joined rows, pairwise distinct |
| Inventory.NewRowsUnique | services/ingestion_service/rebuild_udc_inventory.py:56-77 | no two rows written share a key |
| Inventory.GroupsPositive | services/ingestion_service/rebuild_udc_inventory.py:54-68 | with positive quantities every group total is positive, so the `total_qty > 0` filter drops nothing |
| Inventory.RebuildIdempotent | services/ingestion_service/rebuild_udc_inventory.py:31-86 | rebuilding again without new events yields the same inventory and count |
| Grouping.Group | services/ingestion_service/rebuild_udc_inventory.py:40-62 | one entry per distinct key, exactly the keys that occur, each holding the sum of that key's values |
| Grouping.LookupGroup | services/ingestion_service/rebuild_udc_inventory.py:40-62 | looking any key up in the grouping gives its total |
| Grouping.TotalOfPresentKeyPositive | services/ingestion_service/rebuild_udc_inventory.py:54-68 | with positive values, a key that occurs totals more than 0 |
| Fanout.IdsFor | services/ingestion_service/api_client.py:189-196 | exactly the ids of the order items with a truthy listone and SKU equal to the key |
| Fanout.BuildIndex | services/ingestion_service/api_client.py:187-196 | a key is indexed exactly when some order item carries it, and maps to those items' ids in query order |
| Fanout.EventsOf | services/ingestion_service/api_client.py:202-221 | a record lacking listone, SKU or unit-load yields nothing; otherwise one event per indexed order item, each with the record's unit-load, company and quantity (Quantita when truthy, else 0) |
| Fanout.CreatePickingEvents | services/ingestion_service/api_client.py:200-234 | the events built are the per-record events in record order, and the count returned is their number |
| Fanout.UnindexedRecordsYieldNothing | services/ingestion_service/api_client.py:207-211 | records whose key indexes no order item yield no events |
| Monitor.Keep | services/ingestion_service/monitor_importer.py:309-311 | a part is kept exactly when it is present and not blank |
| Monitor.SeparatorCellDropped | services/ingestion_service/monitor_importer.py:309-311 | a cell holding only a file separator is blank and dropped |
| Monitor.PartsOf | services/ingestion_service/monitor_importer.py:307-311 | at most the four parts, and none exactly when every part is missing or blank |
| Monitor.PositionCode | services/ingestion_service/monitor_importer.py:307-313 | UNKNOWN when every part is blank; otherwise splitting the code on '-' gives back the present parts in Mag, Scaf, Col, Pia order (when no part holds a '-') |
| Monitor.Dedup | services/ingestion_service/monitor_importer.py:296 | keeps one row of every pallet that occurs, each row taken from the table, pallets pairwise distinct |
| Monitor.DedupKeepsNewest | services/ingestion_service/monitor_importer.py:295-296 | in a table sorted by any total preorder, the row kept for a pallet comes no later than any row of that pallet |
| Monitor.NonNull | services/ingestion_service/monitor_importer.py:300-303 | exactly the rows with a pallet, and distinct pallets stay distinct |
| Monitor.Latest | services/ingestion_service/monitor_importer.py:295-303 | one row per non-null pallet of the table, each from the table |
| Monitor.LatestIsNewest | services/ingestion_service/monitor_importer.py:295-296 | the row kept for each pallet is at least as new as every row of that pallet under the sort order |
| Monitor.LocationOf | services/ingestion_service/monitor_importer.py:326-347 | the slot fields are copied as given, the position code is composed from them, and the update time is stamped |
| Monitor.Apply | services/ingestion_service/monitor_importer.py:324-348 | the directory afterwards holds the old keys plus every pallet written; a location no row names is unchanged |
| Monitor.ApplyWritesEach | services/ingestion_service/monitor_importer.py:324-348 | with distinct pallets, every row leaves its own location, whatever was there before |
| Monitor.UpdateBy | services/ingestion_service/monitor_importer.py:292-354 | the count is the number of distinct non-null pallets; each pallet's location comes from one of its rows that sorts first; other locations are unchanged |
| Monitor.UpdatePositionsAsWritten | services/ingestion_service/monitor_importer.py:292-354 | as written, each pallet's location comes from one of its rows whose `DataOra` text is greatest |
| Monitor.UpdatePositions | services/ingestion_service/monitor_importer.py:292-354 | as intended, each pallet's location comes from one of its rows with the latest instant; the count and untouched locations as in the importer |
| Monitor.AsWrittenPicksOfTwo | services/ingestion_service/monitor_importer.py:295-296 | of two rows of a pallet, the import as written keeps the second when the first does not sort first by text |
| Monitor.CorrectedPicksOfTwo | services/ingestion_service/monitor_importer.py:295-296 | of two rows of a pallet, the corrected import keeps the first when the second is not as new |
| Monitor.DayFirstStampOfText | services/ingestion_service/monitor_importer.py:318 | a `dd/mm/yyyy HH:MM` text reads as the instant of its fields |
| Monitor.AsWrittenKeepsOlderSlot | services/ingestion_service/monitor_importer.py:295-296 | of two rows of a pallet dated 1 February and 31 January, the import as written keeps the older slot and the corrected one the newer |
| Monitor.RemoveCsv | services/ingestion_service/monitor_importer.py:360 | removal never lengthens the name, and a name without '.' is unchanged |
| Monitor.RemoveCsvKeepsPrefix | services/ingestion_service/monitor_importer.py:360 | nothing is removed from a stretch without a '.' |
| Monitor.ParseYear | services/ingestion_service/monitor_importer.py:362 | a year is accepted exactly when it is four digits denoting 1 or more, and lies in 1..9999 |
| Monitor.ParseIsoDate | services/ingestion_service/monitor_importer.py:362 | an accepted date is a valid calendar date of three '-'-separated fields |
| Monitor.ExtractDate | services/ingestion_service/monitor_importer.py:356-364 | an extracted date is valid, and a name with no 'S' (once `.csv` is removed) gives none |
| Monitor.IsoDateRoundTrip | services/ingestion_service/monitor_importer.py:362 | reading back the ISO text of a valid date gives the date |
| Monitor.BetweenSAndF | services/ingestion_service/monitor_importer.py:361 | the text between the first 'S' and the next 'F' is what was put there |
| Monitor.ExtractDateRoundTrip | services/ingestion_service/monitor_importer.py:356-364 | a name with an S-prefix free of 'S' and '.', then 'S', an ISO date, 'F' and anything, yields that date |
| Store.IndexOf | services/position_service/check_handler.py:46-48 | the lookup by id finds the first element with that id, and finds none exactly when no element has it |
| Store.MaxKey | shared/database/models.py:225 | every id handed out so far is at most the maximum, which is one of them when there are any |
| Text.Strip | services/ingestion_service/rebuild_udc_inventory.py:27 | the stripped text is a contiguous part of the input with no whitespace at either end, and what was cut off on each side is all whitespace |
| Text.TrimPadding | services/mission_service/position_generator.py:256 | the trimmed text is a prefix of the input without a trailing space, and what was cut off is all spaces |
| Text.StripEmptyIffBlank | services/mission_service/position_generator.py:255 | a status strips to nothing exactly when it is all whitespace |
| Text.StripLeadingBlank | services/ingestion_service/rebuild_udc_inventory.py:27 | stripping whitespace followed by already-trimmed text gives that text |
| Text.SeparatorsStripToNothing | services/mission_service/position_generator.py:255 | the file, group, record and unit separators (U+001C to U+001F) are whitespace: they strip to nothing |
| Text.SplitJoin | services/ingestion_service/monitor_importer.py:313 | splitting a join of '-'-free parts on '-' gives the parts back |

## Left out

- The HTTP calls are inputs. `call_get_spedito2` is the `ShipmentReply` parameter; the JSON and `safe_datetime` handling is not modelled.
- The file reading is not modelled: CSV parsing, pandas conversions and directory scanning.
- The background scheduler, the web routes, sessions and settings are not modelled.
- Clocks are parameters: every `utcnow()`/`now()` reading, and today's date for the mission code.
- Commit ordering and the exception paths (`except Exception` returning failure) are left out, except the unique-code failure of the mission insert, which `CreateMission` models.
- CheckHandler.MarkFound: the mission-status change the recompute makes after the commit is never committed, so the returned store leaves it out. Only the recompute's result is reported. The recompute itself is modelled as `Recompute`.
- CheckHandler.MarkFound: the auto-skip is modelled as "all other PENDING positions", as the comment at services/position_service/check_handler.py:95 states it. The code as written also selects the check just found, because the session does not autoflush. That behaviour is kept as a finding (`AsWrittenSkipsTheFoundCheck`).
- Route.Percentage: the result is the exact ratio, not the `round(…, 2)` value reported at services/mission_service/position_generator.py:206-209. The bounds, "100 exactly when every check is completed" and "0 exactly when none is" hold of the unrounded ratio. After rounding, both iffs can fail once a mission has 20 000 or more checks. For example, 1 pending check among 100 000 reports 100.0, and 1 completed check among 100 000 reports 0.0.
- Route.SummaryOf: its percentage is `Route.Percentage`'s unrounded ratio, so "100 exactly when none is pending" has the same limit.
- Route.ListMissions: ties in `created_at` may come back in any order from the database. The model sorts stably, and only newest-first is stated.
- Monitor.UpdatePositionsAsWritten: the pandas sort is modelled as a stable sort, whereas pandas' default quicksort is not stable. Among rows with equal `DataOra` the chosen row may differ. The contract states only that a newest row is chosen.
- Monitor.LocationOf: `last_movement` is kept as the raw `DataOra` text. The day-first parse and its failure to `None` are not modelled, and neither is `str()` of numeric cells: cells are text.
- Monitor.DayFirstStampOfText: the intended timestamp reading covers only `dd/mm/yyyy HH:MM[:SS]`. Other formats `to_datetime` accepts are left out.
- Monitor.ParseDay: `strptime` accepts Unicode decimal digits. The model takes ASCII digits only.
- Text.Strip: whitespace is the ASCII set `str.isspace` accepts: space, tab to carriage return, and U+001C to U+001F. Non-ASCII whitespace is not modelled: U+0085, U+00A0, U+1680, U+2000 to U+200A, U+2028, U+2029, U+202F, U+205F and U+3000. Text with these characters strips differently in the model, and that affects `Text.StripEmptyIffBlank`, `Inventory.CompanyKey`, `Monitor.Keep`, `Monitor.PartsOf`, `Monitor.PositionCode` and `Route.Selected`.
- Text.Lower: case mapping covers ASCII letters only, not Unicode `str.lower()`.
- Text.Upper: only `a` to `z` are upper-cased, whereas `str.upper()` maps non-ASCII letters as well: `ı` (U+0131) to `I`, `ſ` (U+017F) to `S`, and `ß` to `SS`. So in `Route.Selected` and `Route.ListMissions` a status filter such as `ın_progress` lists the IN_PROGRESS missions in the service (services/mission_service/position_generator.py:256) but none in the model.
- Text.ParseNat: `int()` also accepts surrounding whitespace, a sign and underscores. None of these occurs in a generated code, so they are not modelled.
- The company column is an explicit field of order items, picking events and inventory rows. The table definitions in shared/database/models.py do not declare it, but the rebuild filters on it. The default company is a parameter.
- Route.RouteOrdered: the collation of the `position_code` column is a parameter, assumed only to be a total preorder. Which collation the database uses is not modelled. Neither is the order among codes it ranks equal, which the database leaves open.
- Route.NextPositionIsFirst: the same collation parameter; the check returned is first among the pending ones only up to the collation's ties.
- Route.PendingFirstIsLeast: the same collation parameter.
- Route.Selected: both sides of the comparison are upper-case, so a case-insensitive collation changes nothing there. Accent folding and other collation rules are not modelled. The filter is upper-cased with `Text.Upper`, which covers ASCII letters only; see the `Text.Upper` line.
- Inventory.Rebuild: the `GROUP BY` on the unit-load code and the company filter compare exact strings. Under a case-insensitive collation, codes differing only in case would share a group, and that is not modelled.
- MissionBuilder.MatchingRows: every store lookup compares exact strings, whereas SQL Server's default `=` ignores case and trailing spaces. This affects the listone and SKU filter here (services/mission_service/mission_creator.py:216-220). It also affects `MissionBuilder.CheckOfRow`'s unit-load lookup (services/mission_service/mission_creator.py:237-239) and `Monitor.Apply`/`Monitor.UpdateBy`'s location lookup by unit-load (services/ingestion_service/monitor_importer.py:324). For example, a stored location for `P1` is found for a CSV row naming `p1 ` by the database but not by the model.
- MissionBuilder.CheckOfRow: the unit-load lookup compares exact strings; see the line above.
- Monitor.Apply: the location lookup by unit-load compares exact strings; see the `MissionBuilder.MatchingRows` line.
- CheckHandler.MarkFound: quantities are integers in thousandths, as `Numeric(18,3)` stores them. The service instead converts incoming floats with `Decimal(str(…))`, finds found quantities at services/position_service/check_handler.py:80 and 86, and compares them unrounded within the session (:88). Only the stored value is rounded to three decimals. Inputs finer than a thousandth and this comparison before rounding are outside the model, and this applies to `CheckHandler.AddFound` as well. For example, with 1.000 missing, a find of 0.9996 leaves the item unresolved and skips nothing, yet 1.000 is stored as found.
- Shortfall.ShippedMap: shipped `Quantita` values are the same kind of unrounded `Decimal` (services/mission_service/mission_creator.py:164), and `Shortfall.FindMissing` compares them before storage rounding. For example, 1.000 ordered and 0.9996 shipped gives a shortfall line whose stored missing quantity is 0.000. Such inputs are not modelled.
- Fanout.QtyOf: a `Quantita` of 0.0004 is truthy, so the service writes a picking event, but the event is stored as 0 and the rebuild's `> 0` filter then drops it. Quantities finer than a thousandth are not modelled.
- The batch (multi-basket) creation and the active-mission guard are absent from the code modelled. So are the de-duplication of checks at creation, a timestamp guard on location updates, and letter-encoded position codes. None of them is modelled.
- Monitor.UpdateBy: the location write is unconditional. The importer does not compare a row's time with the stored location's before overwriting it, and neither does the model.

## Findings

| source | as written | input that shows it | evidently intended | confidence | as-written member | corrected member |
|---|---|---|---|---|---|---|
| services/mission_service/mission_creator.py:268-283 | the day's highest code is chosen with `ORDER BY mission_code DESC`, a text order | a day with codes `…-999` and `…-1000`: "999" sorts after "1000", so the next code is `…-1000` again, a duplicate, and the insert fails on the unique `mission_code` | the next number is one more than the numeric maximum, so the code is fresh | not executed | MissionBuilder.CreateFailsAfterThousand | MissionCode.GenerateCodeFresh |
| services/position_service/check_handler.py:95-101 | the auto-skip query runs in a session created with `autoflush=False` (shared/database/connection.py:26), so it selects the just-found check by its stored PENDING status and overwrites it to SKIPPED_AUTO | one PENDING check of an item missing 1 unit, marked found with 1 unit: the check ends SKIPPED_AUTO | only the *other* PENDING checks are skipped, and the found check stays FOUND | not executed | CheckHandler.AsWrittenSkipsTheFoundCheck | CheckHandler.MarkFoundEffect |
| services/ingestion_service/monitor_importer.py:295-296 | rows are sorted by the raw `DataOra` text, which is day-first, so the sort is by day of month | pallet P in slot A at `01/02/2025 08:00` and in slot B at `31/01/2025 08:00`: the text order puts 31 January first, and P is left in the older slot B | the newest movement by instant wins | not executed | Monitor.AsWrittenKeepsOlderSlot | Monitor.UpdatePositions |
