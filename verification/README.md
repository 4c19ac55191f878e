# Verified model of the Teslatlas Hub core

This project models the parts of the Teslatlas Hub repository that carry its hardest promises, in
Dafny, and proves those promises for every input. Six components are modelled.

- **SQLite image checker** (`protocol/conformance/hub_sync.py`): varints and records (`Varint`,
  `BigEndian`, `Record`, `Utf8`), the layout of one page (`SqlitePage`), the page graph (`PageForest`,
  `WalkState`), overflow chains and what a page leads to (`SqliteWalk`), the walk that updates its
  state in place (`SqliteWalker`), what an accepted image is (`SqliteImage`), the database header
  (`DatabaseHeader`), and the whole check with the comparison of rows (`SqliteCheck`).
- **Map tile kernel** (`compute/src/raster.rs`, `compute/src/lib.rs`): the Ramer-Douglas-Peucker
  simplifier and its budget (`Rdp`), guard subdivision (`Guard`, `Simplify`), the grid walk
  (`GridWalk`), drawing a run on tiles (`Drawing`, `DrawnSegments`), the weighted accumulator as a ledger of effects (`Ledger`), selection and payload
  (`Packing`, `Publish`), effects of drives and outcomes of generations (`Generate`, `Generation`),
  the page consumer with its first-error latch (`Consumer`), and position pages and byte layouts
  (`PositionPage`, `Wire`, `Layouts`).
- **Changed-set admission and live overlay** (`protocol/conformance/hub_sync_14.py`,
  `protocol/conformance/hub_sync_15.py`): `ChangedSet` and `LiveOverlay`.
- **Git tree identity** (`scripts/rust-source-evidence.py`): `GitTree`, `GitTreeIdentity`.
- **SPDX expression normalizer** (`scripts/release-evidence.py`): `SpdxGrammar` (in `Spdx.dfy`) and
  `SpdxText`.
- **HTTP range parser** (`src/api/http_range.rs`): `HttpRange`, for sections 14.1.2, 14.2 and 14.4 of
  RFC 9110.

`Outcomes`, `Bytes`, `Sorting` and `Products` hold what several of them share. `dafny verify dfyconfig.toml`
checks the whole project.

## How the model reads

- Code that updates state in place is a class or a method with loops, and its contract ties it to a
  function of its inputs or of the old state. What the code promises is then proved of that function.
- Rejection is one outcome per operation (`None`, `false` or an error value). Only the page consumer,
  which keeps its first error, distinguishes what was raised.
- Some definitions are looked up only where they are named: a predicate that is always true (`Applied`,
  `Product`, `Spelled`, `Tested` and others) is the trigger of the one fact that defines the function
  beside it. This keeps each proof small. A lemma whose name ends in `Is` or `Are` states the definition.
- Distances, coordinates and lengths are exact reals; tests against the machine epsilon are tests
  against zero. A `Geometry` holds what the kernel takes from elsewhere: distances, the projection, the
  test of what is near enough to be drawn, and pixel rounding. The theorems
  on generations assume nothing of them.
- Hashes, signatures and schema checks are parameters. Tree identity assumes no more than that the
  objects actually hashed do not collide.

## What turned out to be false

- Accepted records are not always the only payload for their values. A header size counts its own
  bytes, so some lengths of serial types have two header sizes. `Record.OnePayloadExactly` gives the
  exact condition, 126 bytes is the least such length, and 126 nulls are an example
  (`Record.NullsHaveTwoPayloads`).
- With a NUL byte in a file name two different file sets get one tree identity
  (`GitTreeIdentity.NulBreaksIdentity`). The identity theorem is stated for names without NUL, which
  `scripts/rust-source-evidence.py:158-168` enforces.
- Names in an executable set that belong to no file leave no trace in a tree identity.
  `GitTreeIdentity.IdentityDeterminesFiles` is therefore about the files that are executable.
- Sequence and live position alone do not determine what a client holds: `LiveOverlay.HeadsMayDiffer`
  shows two clients at one position with different heads and receipts. `LiveOverlay.SamePositionSameContent`
  gives the exact condition on the steps of the two runs, and `LiveOverlay.PositionNamesContent` the
  promise that holds when a sequence has one head.
- The deletions in the scope of a changed set need not come from tombstones
  (`ChangedSet.DeletionsMayExceedTombstones`). `ChangedSet.DeletionsAreTombstonesExactly` says when they do.
- A negative tolerance would make the simplifier split an interval at its own start
  (`Rdp.SplitsInsideExactly`). The model takes tolerances that are not negative, as all tiers of the
  repository are.

## Model

| member | source | states |
|---|---|---|
| `PageForest.AcceptsExactlyForests` | protocol/conformance/hub_sync.py:711-764 | for any way of reading pages, the work-list walk succeeds exactly when trees of bounded depth grow from the roots whose b-tree pages and overflow pages are all pages, each once |
| `PageForest.DepthBoundsHeight` | protocol/conformance/hub_sync.py:758-764 | the depth test admits exactly the trees with at most 33 pages on every path from a root down |
| `PageForest.PagesArePartitioned` | protocol/conformance/hub_sync.py:718-733 | a walk that succeeds sees every page once, as a b-tree page or as an overflow page and never as both |
| `PageForest.PendingIsFresh` | protocol/conformance/hub_sync.py:725-733 | every scheduled page of a walk that will succeed is in range, scheduled once and not yet claimed, so the early tests reject nothing else |
| `PageForest.WalkAdmits` | protocol/conformance/hub_sync.py:718-733 | a walk can get past a page only if that page, its overflow pages, its children and all pending pages are fresh together |
| `SqliteImage.AcceptsExactlyForests` | protocol/conformance/hub_sync.py:758-898 | an image is accepted exactly when its pages, read as the walk reads them, are such a forest from the root pages |
| `SqliteImage.EveryPageHasOneRole` | protocol/conformance/hub_sync.py:718-733 | in an accepted image a number is that of a page exactly when it was seen, once, as a b-tree page or as an overflow page; page 1 and the root pages are b-tree pages |
| `SqliteWalk.PagesAreTheImage` | protocol/conformance/hub_sync.py:712-716 | every byte of an image of whole pages is on the page of its number |
| `SqliteImage.NoHiddenBytes` | protocol/conformance/hub_sync.py:784-897 | on every b-tree page of an accepted image, with the header read from it, its freeblocks and the cells that its pointers name: these are disjoint inside the content area, freeblocks are exactly the gaps of four bytes or more and written as next offset, size and zeros, shorter gaps add up to the fragment total, and every byte after the pointers has one place and is zero outside cells and freeblock heads |
| `SqliteImage.CellsAreStored` | protocol/conformance/hub_sync.py:738-757 | every cell of every b-tree page of an accepted image keeps exactly the local share of the payload it announces, the rest is written on exactly ceil((payload - local) / (page size - 4)) overflow pages, the whole payload is one record of the table's fields, and the children, overflow pages and row are among those seen, as is the right child of an interior page |
| `SqliteImage.NoHiddenOverflowBytes` | protocol/conformance/hub_sync.py:738-757 | the 4096 bytes of every overflow page of an accepted image are the number of the next page of its chain, its part of the payload of a cell, and zeros |
| `SqliteWalk.ChainIsExact` | protocol/conformance/hub_sync.py:738-757 | an overflow chain has as many pages as its bytes need and yields exactly those bytes |
| `SqliteWalk.ChainIsWritten` | protocol/conformance/hub_sync.py:738-757 | a chain is followed to given pages and bytes exactly when those pages are written as its links: the next page, the k-th part of the bytes, and zeros |
| `SqliteWalk.ChainIsLinked` | protocol/conformance/hub_sync.py:741-756 | each page of a chain is in range and names the next one, and the last names none |
| `SqliteWalk.SamePointersTouch` | protocol/conformance/hub_sync.py:825-830 | cells with equal pointers overlap, so the pointer test rejects no page that is laid out canonically |
| `SqliteWalk.CellsSplit` | protocol/conformance/hub_sync.py:831-875 | what a page leads to is what its cells lead to, in pointer order |
| `SqliteWalker.Walker.constructor` | protocol/conformance/hub_sync.py:706-710 | a walk starts with nothing pending, scheduled, claimed or read |
| `SqliteWalker.Walker.Claim` | protocol/conformance/hub_sync.py:718-723 | a fresh page is always claimed, and a page that is held never is; the page bound cannot reject a fresh page |
| `SqliteWalker.Walker.Schedule` | protocol/conformance/hub_sync.py:725-733 | a page is scheduled exactly when it is in range and neither claimed nor scheduled; the count bound can never be what rejects it |
| `SqliteWalker.Walker.FollowOverflow` | protocol/conformance/hub_sync.py:738-757 | yields the bytes of the chain and claims its pages exactly when the chain is well-formed and its pages are fresh; it ends on every image, also with cyclic pointers |
| `SqliteWalker.Walker.VisitCell` | protocol/conformance/hub_sync.py:835-875 | a cell's child is scheduled, its chain claimed and its record kept exactly when all three are possible |
| `SqliteWalker.Walker.VisitBody` | protocol/conformance/hub_sync.py:788-897 | a page is accepted exactly when it is laid out canonically, its cells decode and what it names is fresh, and then exactly that is scheduled, claimed and recorded |
| `SqliteWalker.Walker.VisitPage` | protocol/conformance/hub_sync.py:762-897 | the page is claimed as a b-tree page; a page that is refused keeps every continuation of the walk from succeeding |
| `SqliteWalker.Walker.VisitLast` | protocol/conformance/hub_sync.py:758-764 | each turn of the work list claims a page that was not claimed before, or shows that the walk fails |
| `SqliteWalker.Walker.Run` | protocol/conformance/hub_sync.py:735-902 | the loop ends on every image, accepts exactly when the walk succeeds, and then every page has the role in which it was seen |
| `SqliteCheck.CheckImage` | protocol/conformance/hub_sync.py:640-905 | the checker accepts exactly images of the right size whose header passes, whose walk succeeds and whose rows are those of the library |
| `SqliteCheck.AcceptsExactly` | protocol/conformance/hub_sync.py:640-905 | an image is accepted exactly when it begins with the hundred bytes of a supported writer, its pages are a forest from the root pages, and its rows are as multisets those that the library returns |
| `SqliteCheck.NoHiddenRows` | protocol/conformance/hub_sync.py:868-901 | every row on a page of an accepted image is one that the library returns for its table |
| `SqliteCheck.RowsAreCounted` | protocol/conformance/hub_sync.py:899-901 | the rows of the schema table and of each table are compared with their multiplicities |
| `DatabaseHeader.PassesExactly` | protocol/conformance/hub_sync.py:652-682 | the header tests pass exactly when the hundred bytes are those that a supported writer writes for this number of pages; only the writer's version is free |
| `SqlitePage.HeaderWasWritten` | protocol/conformance/hub_sync.py:765-787 | the bytes of every accepted header are those of its fields written big-endian, its kind belongs to the table and its parts have room |
| `SqlitePage.HeaderReadsBack` | protocol/conformance/hub_sync.py:765-787 | reading a header undoes writing its big-endian fields, a start of zero standing for the end of the page, exactly when its kind belongs to the table and its parts have room |
| `SqlitePage.WalkFreeblocks` | protocol/conformance/hub_sync.py:792-818 | the loop yields the freeblock chain and marks exactly its bytes; its count and overlap tests can never fail |
| `SqlitePage.FreeblocksIncrease` | protocol/conformance/hub_sync.py:795-818 | accepted freeblocks follow each other without overlap inside the content area |
| `SqlitePage.FreeblocksAreWritten` | protocol/conformance/hub_sync.py:791-818 | the freeblock chain is read exactly when its blocks are written on the page, forward from the first one, each with the next offset, its size and zeros |
| `SqlitePage.LocalBytesFit` | protocol/conformance/hub_sync.py:628-637 | all of a payload that fits stays on the page, and otherwise a part within the bounds of its kind that lets the rest fill its overflow pages, or the least part |
| `SqlitePage.CellIsInside` | protocol/conformance/hub_sync.py:831-861 | an accepted cell starts at its pointer, is not empty and ends inside the page |
| `SqlitePage.ReadCell` | protocol/conformance/hub_sync.py:834-859 | the parsing steps yield the cell that the page holds at an offset |
| `SqlitePage.TableLeafReadsBack` | protocol/conformance/hub_sync.py:843-859 | reading undoes writing a leaf cell of the schema table: payload size, row id, local bytes and overflow page |
| `SqlitePage.IndexLeafReadsBack` | protocol/conformance/hub_sync.py:843-859 | reading undoes writing a leaf cell of a table without row ids |
| `SqlitePage.IndexInteriorReadsBack` | protocol/conformance/hub_sync.py:835-859 | reading undoes writing an interior cell of a table without row ids, which starts with its child page |
| `SqlitePage.TableInteriorReadsBack` | protocol/conformance/hub_sync.py:835-842 | reading undoes writing an interior cell of the schema table |
| `SqlitePage.CellWasWritten` | protocol/conformance/hub_sync.py:833-865 | every accepted cell is written on the page from its offset to its end, with the local share of a payload no longer than the image |
| `SqlitePage.PlaceCell` | protocol/conformance/hub_sync.py:831-863 | a cell is placed, and exactly its bytes are marked, unless it touches a freeblock or another cell |
| `SqlitePage.ScanGaps` | protocol/conformance/hub_sync.py:876-890 | the scan yields exactly the maximal gaps of four bytes or more, in order, and counts the bytes of all shorter gaps |
| `SqlitePage.AccountFor` | protocol/conformance/hub_sync.py:891-897 | the final tests pass exactly when freeblocks are the long gaps, the fragment total is that of the short ones and unused bytes are zero |
| `SqlitePage.EveryByteIsAccountedFor` | protocol/conformance/hub_sync.py:784-897 | each byte after the pointers of a canonical page is before the content area or in exactly one cell, freeblock or fragment, and is zero outside cells and freeblock heads |
| `Varint.EncodeVarint` | protocol/conformance/hub_sync.py:521-541 | yields the encoding of every 64-bit value and rejects all others |
| `Varint.EncodeShape` | protocol/conformance/hub_sync.py:521-541 | an encoding has one to nine bytes, continues until its last byte, and decodes to its value |
| `Varint.EncodeIsShortest` | protocol/conformance/hub_sync.py:521-541 | the encoding spells its value and no shorter byte string does |
| `Varint.ReadVarint` | protocol/conformance/hub_sync.py:500-518 | accepts exactly the encodings of 64-bit values that end by the limit |
| `Varint.ReadsIsUnique` | protocol/conformance/hub_sync.py:500-518 | at most one value can be read at an offset |
| `Record.TakeValueIsExact` | protocol/conformance/hub_sync.py:544-620 | a value is accepted exactly when its serial type and bytes are the canonical ones, and decoding undoes encoding |
| `Record.IntegerTypeIsSmallest` | protocol/conformance/hub_sync.py:552-556 | the canonical integer type holds the value and no smaller one does |
| `BigEndian.FitsIs` | protocol/conformance/hub_sync.py:552-556 | the widths of 1, 2, 3, 4, 6 and 8 bytes hold exactly their two's complement ranges |
| `Record.TypeTellsKind` | protocol/conformance/hub_sync.py:544-567 | the canonical serial type tells the kind of a value and the size of its content, as section 2.1 of the SQLite file format says, and integers are stored in two's complement |
| `Utf8.WellFormedExactly` | protocol/conformance/hub_sync.py:612-614 | the bytes accepted as text are exactly the UTF-8 encodings of sequences of Unicode scalar values |
| `Record.ReadRecord` | protocol/conformance/hub_sync.py:570-625 | decoding accepts exactly the records of the expected number of valid values and yields those values |
| `Record.RecordExists` | protocol/conformance/hub_sync.py:544-625 | every list of valid values has a record, short of headers that no varint can count |
| `Record.OnePayloadExactly` | protocol/conformance/hub_sync.py:570-583 | values have one accepted payload exactly when the bytes of their serial types are not one of the ambiguous lengths n with n + k = 128^k - 1 |
| `Record.ShortTypesAreNotAmbiguous` | protocol/conformance/hub_sync.py:570-583 | under 126 bytes of serial types no length is ambiguous, and 126 bytes is |
| `Record.NullsHaveTwoPayloads` | protocol/conformance/hub_sync.py:570-583 | a record of 126 nulls has two different accepted payloads |
| `Rdp.ScanFindsFirstMaximum` | compute/src/raster.rs:199-213 | the scan finds the first interior point of largest distance |
| `Rdp.SplitsInsideExactly` | compute/src/raster.rs:195-217 | exactly the tolerances that are not negative always split an interval inside; below zero an interval can be split at its own start and pushed again as it was |
| `Rdp.RdpKeepMask` | compute/src/raster.rs:180-221 | the stack keeps exactly what the recursive definition keeps, and fails exactly when the budget does not cover its evaluations |
| `Rdp.DroppedPointsAreClose` | compute/src/raster.rs:180-221 | between consecutive kept points every dropped point is within epsilon of their chord |
| `Rdp.RdpIsExact` | compute/src/raster.rs:195-217 | every interior point of an interval is evaluated once; nothing is kept when all are within epsilon, and otherwise the first farthest one is and both parts go on alike |
| `Rdp.KeptWasFar` | compute/src/raster.rs:199-217 | every kept interior point is the first farthest of an interval between kept points or ends, and beyond epsilon of its chord |
| `Rdp.RunCostBound` | compute/src/raster.rs:180-221 | a sequence of n >= 3 points costs at most (n-1)(n-2)/2 evaluations |
| `Rdp.RdpBudget.ReserveEvaluation` | compute/src/raster.rs:52-72 | an evaluation is granted exactly while one remains, and takes one |
| `Guard.MeasureInterval` | compute/src/raster.rs:237-256 | the measured path length, largest distance and first point at it are those of the interval |
| `Guard.MidpointByPathLength` | compute/src/raster.rs:285-308 | the loop finds the midpoint of an interval |
| `Guard.MidpointIsFirstHalf` | compute/src/raster.rs:296-307 | the midpoint is the first interior index at half of the path or beyond, or the middle index when there is none |
| `Guard.BreaksAreExact` | compute/src/raster.rs:238-287 | an interval of one step or within both limits stays whole; one with a point too far from its chord is divided at the first farthest point, one that is only too long at half of its path, and then its parts alike |
| `Guard.ExtraBreakWasNeeded` | compute/src/raster.rs:238-287 | every breakpoint that RDP did not keep lies strictly inside an interval beyond a limit, between two consecutive kept indices |
| `Guard.AppendGuarded` | compute/src/raster.rs:224-282 | the stack empties on every input and writes exactly the points at the recursive breakpoints, skipping equal neighbours |
| `Guard.ChainHasFineGaps` | compute/src/raster.rs:257-279 | breakpoints strictly increase, and each gap is a single step or within both the length and the curve limit |
| `Guard.AllKeptAreBreaks` | compute/src/raster.rs:160-177 | every index that simplification keeps is a breakpoint |
| `Guard.EmitIsSubsequence` | compute/src/raster.rs:282-285 | the output is a subsequence of the points without equal neighbours |
| `Guard.EmitTakes` | compute/src/raster.rs:282-285 | the output takes points at breakpoints and leaves out only those equal to the one taken before |
| `Simplify.KeptIndicesAreExact` | compute/src/raster.rs:152-156 | the kept indices are those of the recursive definition in ascending order, with both ends |
| `Simplify.DroppedAreWithinTolerance` | compute/src/raster.rs:141-178 | between consecutive kept points every dropped point is within the tier's tolerance of their chord |
| `Simplify.GuardedBreakpoints` | compute/src/raster.rs:141-178 | the breakpoints of a sequence ascend to its last point and include every kept index, every gap is a single step or within the tier's length and curve limits, and every added breakpoint lies inside an interval beyond a limit |
| `Simplify.SimplifiedIsSubsequence` | compute/src/raster.rs:141-178 | for three or more points under a positive segment limit the output is a subsequence with the input's first and last points and no equal neighbours, takes points at breakpoints, and leaves out only those equal to the one taken before |
| `Simplify.UnguardedIsKept` | compute/src/raster.rs:157-159 | without a positive segment limit the output is exactly the kept points |
| `Simplify.FewPointsAreKept` | compute/src/raster.rs:141-178 | at most two points are returned as they are, at no cost |
| `Simplify.SimplifyControlled` | compute/src/raster.rs:141-178 | succeeds exactly when the budget covers the evaluations, and then yields the simplified points |
| `GridWalk.PreparedEnds` | compute/src/raster.rs:507-529 | the walk starts from both ends clamped to the world of 512-pixel tiles, moved by 0.0001 exactly off the boundaries that the segment would only touch |
| `GridWalk.PreparedIsProper` | compute/src/raster.rs:506-529 | clamping and nudging keep both ends in the grid and leave no end on a boundary that the segment would only touch |
| `GridWalk.StepFollowsSegment` | compute/src/raster.rs:582-597 | a step leaves a tile exactly when the segment does, in the direction of the segment and before its end |
| `GridWalk.VisitCrossedTiles` | compute/src/raster.rs:498-601 | the loop visits exactly the tiles of the specified tour, at most 4096 of them |
| `GridWalk.TilesAreCrossed` | compute/src/raster.rs:498-601 | the visited tiles are those of consecutive stretches of the segment, in the grid and without repeats; within 4095 tile steps they are exactly the crossed tiles and end at the end tile |
| `GridWalk.VisitsExactlyCrossed` | compute/src/raster.rs:576-599 | a walk that is not cut off visits exactly the tiles in which the segment has positive length |
| `GridWalk.NoTileTwice` | compute/src/raster.rs:576-599 | no tile is visited twice |
| `Drawing.LinesFollowSegment` | compute/src/raster.rs:407-454 | for points of the unit square the lines drawn are the parts, from start to end, of the one straight line to the unwrapped end, shifted by whole world widths up to the nudge, each inside the world and at most half as wide |
| `DrawnSegments.LineIsDrawnWhereItCrosses` | compute/src/raster.rs:456-496 | a line within 4095 tile steps is drawn on exactly the tiles that it crosses and on which its ends, less 512 times the tile number and rounded, are different pixels |
| `DrawnSegments.DrawnCounts` | compute/src/raster.rs:348-496 | a segment at a zoom level of the tier is drawn once for every line between neighbouring valid and renderable points that is drawn as it, and no other segment is drawn |
| `DrawnSegments.DrawnByIs` | compute/src/raster.rs:380-404 | the lines counted are those between neighbouring points that are both valid and renderable |
| `Drawing.DrawnStaysInside` | compute/src/raster.rs:348-478 | whatever the projection and rounding, a run is drawn only at its tier's zoom levels and inside their grids |
| `Drawing.AddDrive` | compute/src/raster.rs:348-404 | the loops over zoom levels, points and tiles yield the specified segments in order |
| `Ledger.EventsSucceedExactly` | compute/src/lib.rs:342-411 | effects in any order succeed exactly when their totals are within all caps, and then give the state that the totals determine |
| `Ledger.WeightsCountSegments` | compute/src/lib.rs:513-571 | a stored segment weighs as many times as its tile and coordinates were emitted in its tier |
| `Ledger.BadExactly` | compute/src/lib.rs:518-529 | nothing is refused for its coordinates exactly when all emitted coordinates fit 16 bits |
| `Ledger.OrderOfEventsIsIrrelevant` | compute/src/lib.rs:513-571 | any two orders of the same effects both fail or both reach one state |
| `Ledger.BudgetCountsWhatIsStored` | compute/src/lib.rs:158-174 | after every accepted effect the budget counts exactly the stored entries and tiles of all tiers, within both caps |
| `Ledger.MergeCountsUp` | compute/src/lib.rs:531-570 | an accepted merge raises one weight by one and reserves for a new tile or entry only |
| `Ledger.LimitOnlyChangesRemaining` | compute/src/raster.rs:52-72 | a limit changes nothing but what remains of it, unless the evaluations exceed it |
| `Generate.TallyIgnoresOrder` | compute/src/raster.rs:74-128 | the totals of all effects depend only on the multiset of drives |
| `Generate.AllEventsPlaced` | compute/src/raster.rs:88-127 | every effect stays in its tier, each drive completes each tier once, and its points are counted once |
| `Generate.RunsAreMaximal` | compute/src/raster.rs:96-124 | the runs of a drive are exactly its maximal stretches of valid points, in order, and cover every valid point |
| `Generate.RunCostIsEvaluations` | compute/src/raster.rs:108-114 | the cost counted for a valid run is the evaluations of its simplification |
| `Generate.CostIsEvaluations` | compute/src/raster.rs:74-128 | the cost of a generation is the evaluations of all valid runs, in all tiers, of all drives |
| `Generate.KernelStaysInTier` | compute/src/raster.rs:105-121 | whatever the geometry, every emitted segment lies in the zoom levels of its tier and in the grid |
| `Generation.PagesMayBeRegrouped` | compute/src/lib.rs:325-478 | admissible pages with the same multiset of complete drives all fail or all give the same output, with or without a limit |
| `Generation.LimitIsExact` | compute/src/lib.rs:340-411 | if the unlimited generation succeeds with E evaluations, the limited one gives the same output exactly when the limit is at least E, and fails otherwise |
| `Generation.LimitOnlyRejects` | compute/src/lib.rs:340-411 | a limit never turns a failing generation into a successful one |
| `Generation.PackingErrorsCannotFire` | compute/src/lib.rs:427-455 | after all drives the drive counts agree, the tile cap holds and no blob is empty or misaligned; only the byte bound and the width of the drive count can fail |
| `Generation.FinalStateIsPublishable` | compute/src/lib.rs:342-432 | every state reached over all drives has as many drives in each tier as were consumed, tiles in their tier and budgets within their caps |
| `Generation.PublishedPayload` | compute/src/lib.rs:438-477 | every output reports its drives, points and tiles, is empty exactly when no tile is stored, and otherwise decodes to the shards of the stored tiles, strictly ascending, each acceptable to the consumer |
| `Generation.StoredWasDrawn` | compute/src/lib.rs:395-404 | every stored segment was drawn from a valid run of one of the drives, on its tile and with its coordinates, and weighs as often as it was emitted |
| `Consumer.PageConsumer.constructor` | compute/src/lib.rs:333-345 | a consumer starts with empty tiers, empty budgets, the given limit and no error |
| `Consumer.PageConsumer.MergeRawSegment` | compute/src/lib.rs:513-571 | a segment is added as the ledger says, or rejected with the first test it fails and nothing changes |
| `Consumer.PageConsumer.VisitRuns` | compute/src/raster.rs:96-124 | the loop visits exactly the maximal runs of valid points, in order |
| `Consumer.PageConsumer.VisitTier` | compute/src/raster.rs:88-127 | a tier's effects are those of its runs and then one completion |
| `Consumer.PageConsumer.VisitDrive` | compute/src/lib.rs:355-404 | a drive's effects are its point count and then its tiers |
| `Consumer.PageConsumer.Consume` | compute/src/lib.rs:346-411 | without a latched error a page succeeds exactly when it is valid and all its drives get through, and otherwise its first error is latched; a latched error is returned for every later page and nothing changes |
| `Consumer.VisitPages` | compute/src/lib.rs:342-418 | a visitor that heeds errors and one that ignores them end alike: the first error of the pages in order, or the state after all of them |
| `Consumer.PagesEndInFinalState` | compute/src/lib.rs:342-418 | pages end without an error exactly when all are valid and all drives get through, and then in the state that is published |
| `Consumer.OutcomeOfPages` | compute/src/lib.rs:342-477 | a generation returns what is packed from the state after all pages, and succeeds exactly when every page is valid, all drives get through, the payload is within 8 MiB and the drive count within 63 bits |
| `Consumer.ErrorsHaveCauses` | compute/src/lib.rs:513-571 | each reason for which a segment is refused holds when it is reported |
| `Packing.SelectionIsBest` | compute/src/lib.rs:598-618 | a tile keeps exactly its best min(n, cap) segments by weight and then signed order, strictly ascending |
| `Packing.BestIsUnique` | compute/src/lib.rs:606-616 | being the best segments determines them |
| `Packing.TileBlobIsAccepted` | protocol/conformance/hub_sync.py:1054-1059 | every tile with a segment packs into a blob that passes the consumer's sorted-and-unique test |
| `Packing.PayloadDecodes` | compute/src/lib.rs:646-680 | a decoder recovers exactly the shard list, and the payload has the size that was checked |
| `Packing.EncodePayloadBytes` | compute/src/lib.rs:646-680 | the loop writes the payload, or rejects it on a bound or a bad blob |
| `Layouts.ShardLayout` | compute/src/lib.rs:646-680 | a payload is its version and tile count and then, at the offset of each tile, its zoom, x, y, blob length and blob, in little-endian words |
| `Layouts.SegmentLayout` | compute/src/lib.rs:573-596 | a blob holds its segments in order, each as four little-endian 16-bit numbers |
| `Publish.ShardsOfAllTiers` | compute/src/lib.rs:573-596 | all shards together are as many as the stored tiles, strictly ascending by zoom and tile, each of a stored tile |
| `Publish.CollectExactly` | compute/src/lib.rs:438-456 | checking the bound after each tier is checking it at the end |
| `Wire.LittleEndian` | compute/src/lib.rs:704-706 | the bytes written are those of the word |
| `PositionPage.ParseUndoesEncode` | compute/src/lib.rs:177-258 | parsing undoes encoding for every page within the caps |
| `Layouts.DriveLayout` | compute/src/lib.rs:177-258 | a page is its version and drive count and then, at the offset of each drive, its number and point count, in little-endian words |
| `Layouts.PointLayout` | compute/src/lib.rs:177-258 | the points of a drive follow, each the words of its latitude and longitude |
| `PositionPage.AcceptsExactlyEncodings` | compute/src/lib.rs:177-258 | a byte string is accepted exactly when it is the encoding of a page within the caps, so no byte is missing or trailing |
| `PositionPage.AcceptedIsEncoding` | compute/src/lib.rs:480-511 | an accepted page has 8 + sum(8 + 8 * points) bytes and passes the typed validator |
| `PositionPage.Reader.ReadExact` | compute/src/lib.rs:742-751 | bytes are taken exactly when that many are left |
| `PositionPage.ParsePositionPage` | compute/src/lib.rs:177-258 | the reader's loops yield what parsing says, or reject |
| `ChangedSet.AdmitsExactlyCoherent` | protocol/conformance/hub_sync_14.py:351-454 | a pack is admitted exactly when it is coherent: roles are the stored rows, tombstoned roots are the removed ones, stale projected rows are recomputed, gone ones deleted, all changed, tombstoned and owning roots are listed, and each listed root has the state and child count that the stored rows give it |
| `ChangedSet.TombstonesAreRemovals` | protocol/conformance/hub_sync_14.py:402-431 | a drive or charging process is tombstoned exactly when it is an impacted root with a non-absent base and an absent target |
| `ChangedSet.VerifiedKeys` | protocol/conformance/hub_sync_14.py:351-356 | the keys of the row roles are exactly the stored rows, and no tombstone is stored |
| `ChangedSet.TablesAgree` | protocol/conformance/hub_sync_14.py:384-386 | which table is projected to which, and which tables hold the roots and children of each kind |
| `ChangedSet.StaleIsRecomputed` | protocol/conformance/hub_sync_14.py:394-454 | every changed row, stored impacted root and child of an impacted root has its recomputation in scope |
| `ChangedSet.GoneIsDeleted` | protocol/conformance/hub_sync_14.py:402-405 | every tombstone has its deletion in scope |
| `ChangedSet.LiveRootsAreClosed` | protocol/conformance/hub_sync_15.py:171-188 | in a live pack every impacted or changed root is stored, closed and recomputed |
| `ChangedSet.LiveAdmitsExactly` | protocol/conformance/hub_sync_15.py:171-188 | a live pack is admitted exactly when it is a coherent pack bound to one head that has no tombstones and lists only closed roots |
| `ChangedSet.LiveChildrenHaveClosedRoots` | protocol/conformance/hub_sync_15.py:171-188 | in a live pack a changed child belongs to a stored and closed root, if it belongs to one |
| `ChangedSet.DeletionsMayExceedTombstones` | protocol/conformance/hub_sync_14.py:402-405 | a deletion in scope without a tombstone is admitted, in a pack with one stored row |
| `ChangedSet.DeletionsAreTombstonesExactly` | protocol/conformance/hub_sync_14.py:402-405 | in an admitted pack every deletion in scope comes from a tombstone exactly when there are as many deletions as tombstones of projected tables |
| `LiveOverlay.StepAdvances` | protocol/conformance/hub_sync_15.py:144-151 | a no-op keeps the client, every other verified step moves its position strictly forward, and a rebase raises the sequence and leaves the client asking what the hint told it to ask |
| `LiveOverlay.PositionsAreOrdered` | protocol/conformance/hub_sync_15.py:144-151 | positions are totally ordered by sequence and then live position |
| `LiveOverlay.VerifiedExactly` | protocol/conformance/hub_sync_15.py:129-302 | a step is verified exactly when it is the receipt, no-op or hint for the client's source, vehicle, head and live position, a rebase being to a newer head that its manifest backs |
| `LiveOverlay.StepsAreAddressed` | protocol/conformance/hub_sync_15.py:129-302 | every step of a run is for the client's source and vehicle and names the head and live position held at that moment |
| `LiveOverlay.HeadIsBacked` | protocol/conformance/hub_sync_15.py:289-302 | every head held after a rebase has a manifest among the steps with its digest, ids and sequence, for the client's vehicle and with contiguous chunks |
| `LiveOverlay.PositionsNeverDecrease` | protocol/conformance/hub_sync_15.py:129-302 | between any two moments of a client run the position has not gone back, and it is unchanged only across no-ops |
| `LiveOverlay.RunEndsWhereStepsSay` | protocol/conformance/hub_sync_15.py:129-302 | every run ends at the head of its last rebase with the receipts of the live steps since then, each at its place, and its sequence has grown by at least the number of rebases, so no head is held again after it was left |
| `LiveOverlay.CommitmentIsKept` | protocol/conformance/hub_sync_15.py:152-153 | every live step applied to a head whose commitment the client holds carries that commitment |
| `LiveOverlay.SamePositionSameContent` | protocol/conformance/hub_sync_15.py:191-200 | two clients from one head and live position with pairwise step-unique receipts, whose positions agree, have applied the same receipts since their last rebases exactly when these name the same head or the live position is zero |
| `LiveOverlay.PositionNamesContent` | protocol/conformance/hub_sync_15.py:191-200 | if no two rebases of the two runs name different heads of one sequence, equal positions mean equal heads and equal receipts |
| `LiveOverlay.HeadsMayDiffer` | protocol/conformance/hub_sync_15.py:286-288 | sequence and live position alone do not name the head: two verified runs reach one position with different heads and different receipts |
| `GitTree.BuildTrie` | scripts/rust-source-evidence.py:215-229 | the loop builds the trie, or stops at the first conflict |
| `GitTree.BuildStoresEntries` | scripts/rust-source-evidence.py:215-229 | a built trie holds exactly the given files, each with its mode and blob identity |
| `GitTree.BuildSucceedsExactly` | scripts/rust-source-evidence.py:222-227 | the build succeeds exactly when no two paths are equal and none is a proper component prefix of another |
| `GitTree.OrderDoesNotMatter` | scripts/rust-source-evidence.py:218-229 | the built trie does not depend on the order of the files |
| `GitTreeIdentity.ListingIsTheSort` | scripts/rust-source-evidence.py:231-239 | the serialization order is the one sorted order of the names, with a slash after those of directories |
| `GitTreeIdentity.ListingOrder` | scripts/rust-source-evidence.py:231-239 | the listing has every name once, in byte order with a slash after the names of directories |
| `GitTreeIdentity.IdentityText` | scripts/rust-source-evidence.py:211-244 | the identity is the hash of "tree", the length and the entries of the root in that order, each its mode, name and digest, over a trie that holds every file with its executable bit and the hash of its blob |
| `GitTree.ObjectText` | scripts/rust-source-evidence.py:211-212 | an object is its kind, a space, its length in decimal, a zero byte and its content |
| `GitTree.DecimalSpells` | scripts/rust-source-evidence.py:211-212 | the length is written in decimal digits without a leading zero |
| `GitTree.EnumerationExists` | scripts/rust-source-evidence.py:215-218 | every map of files can be enumerated, so the theorems on enumerations are about every map |
| `Sorting.LessIsLexicographic` | scripts/rust-source-evidence.py:238 | the byte order is that of proper prefixes and first differences |
| `GitTreeIdentity.IdentityDeterminesFiles` | scripts/rust-source-evidence.py:211-244 | unless two different hashed objects collide, identities are equal exactly when the path-to-bytes maps are equal and the same files are executable; executable names of no file do not matter |
| `GitTreeIdentity.IdentityIsWellDefined` | scripts/rust-source-evidence.py:215-244 | the identity exists exactly for conflict-free files and does not depend on their order |
| `GitTreeIdentity.NulBreaksIdentity` | scripts/rust-source-evidence.py:239 | with a NUL in a name two different file sets serialize alike, so the exclusion of NUL names cannot be dropped |
| `SpdxGrammar.AcceptsExactlyDerivable` | scripts/release-evidence.py:281-324 | a token list is accepted exactly when it derives from the Or/And/With/Primary grammar |
| `SpdxGrammar.DerivationIsUnique` | scripts/release-evidence.py:281-317 | a token list has at most one derivation |
| `SpdxGrammar.Recognizer.ParsePrimary` | scripts/release-evidence.py:281-294 | advances the shared index over exactly one primary, or fails |
| `SpdxGrammar.Recognizer.ParseWith` | scripts/release-evidence.py:296-303 | advances the shared index over exactly one with-expression, or fails |
| `SpdxGrammar.Recognizer.ParseAnd` | scripts/release-evidence.py:305-310 | advances the shared index over exactly one and-expression, or fails |
| `SpdxGrammar.Recognizer.ParseOr` | scripts/release-evidence.py:312-317 | advances the shared index over exactly one or-expression, or fails |
| `SpdxGrammar.Recognize` | scripts/release-evidence.py:319-324 | the mutual recursion ends and accepts exactly the token lists that the grammar accepts |
| `SpdxText.CoverageCheckIsExact` | scripts/release-evidence.py:276-278 | the comparison of joined tokens with the text without space passes exactly when the text is tokens and white space |
| `SpdxText.PrintIsLayout` | scripts/release-evidence.py:325 | the two replacements leave single spaces between tokens and none inside parentheses |
| `SpdxText.PrintedTextScansBack` | scripts/release-evidence.py:276-325 | a printed token list scans back to the same tokens |
| `SpdxText.NormalizeKeepsTokens` | scripts/release-evidence.py:262-325 | normalization keeps the tokens, and with them the derivation |
| `SpdxText.NormalizeIsIdempotent` | scripts/release-evidence.py:262-325 | normalizing an accepted expression again changes nothing |
| `SpdxText.NormalFormIsCanonical` | scripts/release-evidence.py:262-325 | two accepted expressions have the same normal form exactly when they have the same tokens |
| `SpdxText.AcceptedTexts` | scripts/release-evidence.py:262-325 | an expression is accepted exactly when its stripped or legacy-mapped text is tokens and white space and its tokens derive from the grammar |
| `SpdxText.LegacyBecomesOr` | scripts/release-evidence.py:268-273 | each of the three legacy spellings with a slash becomes the choice of its two licenses, with any white space around it |
| `SpdxText.AmbiguousExactly` | scripts/release-evidence.py:274-275 | any other slash, and every comma or plus sign, is refused as ambiguous, and nothing else is |
| `SpdxText.CharacterClasses` | scripts/release-evidence.py:276-277 | which characters start identifiers and which are white space, by code |
| `HttpRange.ParseDecimal` | src/api/http_range.rs:125-137 | digits of any count give their exact value below 2^64 and overflow otherwise; anything else is malformed |
| `HttpRange.AcceptsExactlyDenoted` | src/api/http_range.rs:51-92 | a header is accepted with a range exactly when it denotes that range of the representation |
| `HttpRange.ErrorsAreExact` | src/api/http_range.rs:51-92 | exactly which headers are refused for their unit, for several ranges, for overflow, as unsatisfiable or as an empty suffix; the rest are malformed |
| `HttpRange.AcceptedRangeIsInside` | src/api/http_range.rs:139-181 | an accepted range has start <= end < length |
| `HttpRange.PrintParseRoundTrip` | src/api/http_range.rs:51-92 | printing a resolved range and parsing it again is the identity |
| `HttpRange.ResumptionPartitions` | src/api/http_range.rs:139-165 | the first k bytes and the rest from k partition the representation for every 0 < k < length |
| `HttpRange.SuffixIsOpenRange` | src/api/http_range.rs:167-181 | a suffix range is the open range from its first byte |

## Left out

- Floating-point rounding, trigonometry, the Mercator projection and pixel rounding (`compute/src/raster.rs:311-337`, `compute/src/raster.rs:480-496`, `compute/src/raster.rs:604-625`): they are parameters, and coordinates are exact reals.
- GridWalk.VisitCrossedTiles: does not model 32-bit tile numbers or coordinates that are not numbers, because zoom levels stay at 13 or below and coordinates are validated before.
- Generation.PagesMayBeRegrouped: does not model an expected drive count, because generation from pages passes none; generation from one slice adds one comparison.
- Cancellation, progress callbacks and work-unit counters of the tile kernel.
- `compute/src/cleaner.rs`: a filter over float thresholds.
- SqliteCheck.CheckImage: takes the root pages, field counts and rows that the SQLite library returns as parameters, with values compared by a key function, because equality of Python values identifies 1 and 1.0.
- SqliteWalker.Walker.VisitCell: schedules the child after the cell is parsed, where the code schedules it before; only the order in which a rejection is found differs.
- Record.TakeValueIsExact: text stands for its UTF-8 bytes and a real for its eight bytes, because both correspondences are library conversions.
- ChangedSet.AdmitsExactlyCoherent: digests, metadata and totals of the receipt that need a hash are one truth value, and of each row only its owner and its end are kept, because nothing else is read.
- `verify_receipt`, signed manifest bindings and rebase of the 1.4 profile (`protocol/conformance/hub_sync_14.py:139-209`): field comparisons like those modelled for 1.5.
- `resolve_base` and checkpoint upgrade (`protocol/conformance/hub_sync_15.py:203-246`): the decision table lives in a profile file that is not part of this model.
- GitTree.BuildTrie: the nested dictionary that the source updates through an alias is a value that each insertion returns anew.
- Hexadecimal digests, JSON, SQLite connections, zstd, transport and the scripts other than the functions named above.
