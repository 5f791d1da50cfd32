# Sprouts A-Checker in Dafny

This project models the rule engine of floft/sprouts, a C++ implementation of
the pencil-and-paper game Sprouts. The engine is called the A-Checker. Players
join points ("nodes") with orthogonal polylines. Each move splits the drawn
line at a new middle node. Two nodes may still be joined when some side of
one borders the same set of closed areas as some side of the other.

The model covers:

- the value types of `headers/structs.h` (`Coord`, `Line`, `Connection`);
- the content search and error kinds of `headers/game.h`;
- from `game.cpp`:
  - the point-in-area ray cast (`isInArea`);
  - the region classifier (`updateAreas`);
  - the connectivity oracle and its freshness flag (`connectable`, `gameEnded`);
  - the store operations (`insertNode`, `insertLine`, `findNode`, `deleteLastNode`, `copy`);
  - the move transaction (`doMove`) with its rollback;
- the integer helpers of the computer player in `ai.cpp`;
- the integer snapping and line-validity tests of the drawing front end in `gamegui.cpp`.

Representation choices:

- Pointers become indices into the game's node and line stores, and pointer
  comparison becomes index comparison.
- Exceptions become the `Err` arm of a `Result`. A move returns a
  `MoveOutcome` that carries the game as it stands after the call, whether
  or not the move succeeded.
- `node.h`/`node.cpp` are not part of this model. A node is a location plus
  three connection slots. `Node::dead`, `Node::vertical` and the face tracer
  `Node::walk` are uninterpreted functions held in an `Oracle` value.
  `Node::addConnection` is assumed to fill the first slot that holds no
  connection and to fail when none is left.
- C++'s truncating `/ 2` and `% 2` are written out (`CppHalf`, `CppRem2`),
  because Dafny's operators are Euclidean.

Modules, in dependency order:

- `Structs`, `GameDefs`: value types, errors, `Result`.
- `Nodes`: the assumed node interface; the per-node part of `copy`.
- `Board`: the game state; `insertNode`, `insertLine`, `findNode`, `deleteLastNode`, `copy`.
- `AreaTest`: `isInArea`.
- `Classifier`: `updateAreas`.
- `Connectivity`: `connectable`, `gameEnded`.
- `Move`: `doMove`.
- `Ai`: `requiredAreas`, `notConnectableNodes`, `midNode`, and the first-turn setup of `aiTurn`.
- `Gui`: `vertical`, `straighten`, `firststraighten`, `validSingleLine`, `validLine`.

Three behaviours of the code are easy to misread:

- A self-loop is allowed when slots 1 and 2 of the node are empty. The code
  never asks whether the node is dead (`Connectivity.SelfLoopRule`).
- A failed move is not all-or-nothing. Only the node and line stores and the
  move counter are restored (`Move.DoMoveFailureRestores`). What happens to
  the areas depends on when the move failed (`Move.DoMove`):
  - Without the extra checks, every failure leaves the areas Stale.
  - With the extra checks on, `NotConnectable` and `InvalidMiddle` leave them
    freshly recomputed.
  - With the extra checks on, `InvalidLine` and `InvalidNode` fail before the
    recompute, and `NoFreeSlot` fails after `insertLine` has marked the game
    Stale again. All three leave the areas Stale.
- Any line is accepted as input, whatever its length:
  - An empty line reaches `line.front()` before its length is checked.
  - A one-point line has the same node at both ends. If exactly one node
    lies at its point, and with the extra checks on `connectable` allows
    that node to be joined to itself, the move fails with `InvalidMiddle`
    and a count of 0. Otherwise it fails earlier, with `InvalidNode` or
    `NotConnectable`.

## Model

| member | source | states |
|---|---|---|
| `Structs.DefaultCoord` | headers/structs.h:22 | A default coordinate is (0, 0). |
| `Structs.CoordEquality` | headers/structs.h:26 | Coordinates are equal exactly when both components are equal. |
| `Structs.DefaultConnection` | headers/structs.h:37 | A default connection has neither a line nor a destination, so it does not exist. |
| `Structs.ExistsNeedsBothHalves` | headers/structs.h:35 | A connection exists exactly when both its line and its destination are present. |
| `Structs.CppHalf` | ai.cpp:150-151 | Halving truncates toward zero: the quotient of a non-negative value rounds down, that of a negative value rounds up, and the remainder is -1, 0 or 1 with the sign of the dividend. |
| `Structs.CppRem2` | ai.cpp:87-99 | The C++ remainder by 2 is 0 for even values, 1 for positive odd values and -1 for negative odd values. |
| `GameDefs.FindByContent` | headers/game.h:19-30 | The search returns the first stored element equal in content to the item, and nothing exactly when no element equals it. |
| `GameDefs.InvalidMiddleCarriesItsData` | headers/game.h:36-44 | The misplaced-midpoint error keeps the observed count and the midpoint, and errors with different counts differ. |
| `Nodes.MakeNode` | game.cpp:262 | A new node sits at the given place and holds the two given connections in slots 0 and 1, with slot 2 empty. |
| `Nodes.AddConnection` | game.cpp:447-448 | Under the assumed node interface, adding fails with `NoFreeSlot` exactly when all three slots hold connections. Otherwise it writes the connection into one previously empty slot and changes nothing else. |
| `Nodes.ClearLink` | game.cpp:507-515 | Clearing keeps the location and changes nothing in a node with no slot pointing at the target. Otherwise exactly the first slot pointing at the target becomes the empty connection, so the number of links to the target drops by one. |
| `Nodes.ClearUndoesAdd` | game.cpp:500-515 | In a tidy node that names no target yet, adding a link to the target and clearing it again gives back the original node. |
| `Nodes.CopyNode` | game.cpp:54-56 | The copy of a node sits where the original does. |
| `Nodes.CopyNodeShape` | game.cpp:60-73 | A copied node's slots are the original's held connections, in slot order, followed by empty slots. |
| `Nodes.ReAddAppends` | game.cpp:64-72 | One step of the slot loop of `copy` appends an existing connection right after the connections already packed. |
| `Nodes.CopyNodeKeepsConnections` | game.cpp:60-73 | A copied node is packed and holds the same connections as the original, in the same order. |
| `Nodes.CopyKeepsPackedNode` | game.cpp:60-73 | Copying a node whose connections are already packed yields the node itself. |
| `Board.NewGame` | game.cpp:7-11 | A new game is Fresh, has made no move and stores nothing. |
| `Board.InsertNode` | game.cpp:257-265 | Inserting a node marks the areas Stale, appends exactly the new node and keeps the lines, the counter and the derived data. |
| `Board.InsertNodeDefaults` | headers/game.h:84 | With the default arguments, the inserted node holds no connection. |
| `Board.InsertLine` | game.cpp:267-275 | Inserting a line marks the areas Stale, appends exactly that line and keeps everything else. |
| `Board.FindNode` | game.cpp:525-532 | The search returns nothing exactly when no node lies at the point. Otherwise it returns the first node lying there. |
| `Board.DeleteLastNode` | game.cpp:496-523 | Deleting the last node removes one node and keeps every location. Each remaining slot is unchanged, or was a link to the removed node and is now empty. A node loses one link to the removed node for each connection the removed node held to it, as long as it has links left. So a node linked back at most as often as the removed node linked to it is left with no link to it. |
| `Board.ClearBackLinksOnlyTouchLinks` | game.cpp:500-519 | The back-link pass of `deleteLastNode` keeps locations and only empties slots that pointed at the last node. |
| `Board.ClearBackLinksCount` | game.cpp:500-517 | Each connection of the last node from a given slot on that leads to a node removes one link back from that node, until it has none left. |
| `Board.DeleteUnlinkedNode` | game.cpp:496-523 | Deleting a last node that no other node links to gives back exactly the earlier node store. |
| `Board.Copy` | game.cpp:18-35 | A copy is Stale, holds no areas or region classes, keeps the lines and copies every node. |
| `Board.CopyPreservesStructure` | game.cpp:37-74 | Every copied node keeps its location and its connections in order, packed. Copying a copy gives the same copy. |
| `AreaTest.IsInArea` | game.cpp:197-235 | The method reports inside exactly when the number of crossed boundary segments is odd. A segment is crossed when it is vertical, lies strictly left of the point and has minY < y <= maxY. |
| `AreaTest.AppendUncrossed` | game.cpp:216-228 | Extending a boundary line by a segment the ray does not cross leaves the count unchanged. |
| `AreaTest.HorizontalNeverCrossed` | game.cpp:216 | A horizontal segment is never crossed. |
| `AreaTest.ReverseKeepsCrossings` | game.cpp:201-230 | The count does not depend on the direction in which a boundary line is walked. |
| `AreaTest.LeftOfBoundaryIsOutside` | game.cpp:216-234 | A point with no boundary vertex strictly to its left has no crossing and is outside. |
| `AreaTest.SquareParity` | game.cpp:197-235 | The point (5,5) lies inside the 10-by-10 square at the origin and (15,5) lies outside it. |
| `Classifier.AreasContaining` | game.cpp:140-159 | The list of areas containing a point is sorted and holds exactly the areas that contain it. |
| `Classifier.Probes` | game.cpp:103-152 | A node with a second connection is sampled at two points one unit away on opposite sides of it, left and right when it is vertical and below and above otherwise, the lower one first. Any other node is sampled at its own place for both sides. |
| `Classifier.UnorientedNodeHasOneClass` | game.cpp:138-152 | A node whose second slot is empty has the same content on both sides: the areas containing its location. |
| `Classifier.Register` | game.cpp:161-185 | Registration returns a handle to a class of exactly the given content. It reuses an existing class or appends a new one, so the classes stay pairwise different. |
| `Classifier.Classify` | game.cpp:93-188 | The per-node loop yields classes that start with the default one and are pairwise different. Exactly the live nodes get handles, each to a class of the right side's content, and every class but the default is in use. |
| `Classifier.ClassifyNode` | game.cpp:95-187 | One iteration keeps that guarantee for one more node, skipping dead nodes. |
| `Classifier.UpdateAreas` | game.cpp:76-189 | Recomputing sets the areas Fresh, keeps the stores and the counter, takes the traced areas, and registers the default class first. All classes differ in content, and every live node's handles name classes of its sides' contents. |
| `Classifier.SameContentSameHandle` | game.cpp:161-185 | Among pairwise different classes, two handles name equal content exactly when they are the same handle. |
| `Classifier.RecomputeAssignsSides` | game.cpp:109-187 | After a recompute, a live node's handles name its sides' contents, and a node whose second slot is empty has one handle for both sides. |
| `Classifier.RecomputeIdempotent` | game.cpp:76-189 | Recomputing twice is the same as recomputing once. |
| `Classifier.RecomputeReadsStores` | game.cpp:81-90 | The recompute discards the old areas, region classes and flag. Games with the same stores and counter recompute to the same game. |
| `Connectivity.Connectable` | game.cpp:237-255 | The query fails with `AreasOutdated` exactly while Stale. Otherwise it answers the joinability of the two nodes. |
| `Connectivity.SelfLoopRule` | game.cpp:243-244 | A node can be joined to itself exactly when slots 1 and 2 are empty, whether or not it is dead. For packed slots, that means it holds at most one connection. |
| `Connectivity.DeadNeverJoins` | game.cpp:247-248 | Distinct nodes of which one is dead cannot be joined. |
| `Connectivity.ConnectableSymmetric` | game.cpp:237-255 | The answer does not depend on the order of the two nodes. |
| `Connectivity.JoinableByContent` | game.cpp:251-254 | After a recompute, distinct live nodes can be joined exactly when some side of one borders the same set of areas as some side of the other. |
| `Connectivity.GameEnded` | game.cpp:479-494 | With no node the game has ended. Otherwise a Stale game fails with `AreasOutdated`. A Fresh game has ended exactly when no pair i <= j, self-pairs included, can be joined. |
| `Move.HitAvoidsCorners` | game.cpp:405-410 | A midpoint strictly inside a segment is neither of the segment's ends. |
| `Move.Split` | game.cpp:394-424 | The split counts exactly the segments that strictly contain the midpoint. With no hit, AC is the line and CB is empty. With one hit at segment k, AC is the line up to vertex k-1 plus the midpoint, and CB is the midpoint plus the rest of the line. |
| `Move.SplitReassembles` | game.cpp:394-424 | With one hit, AC runs from the first vertex to the midpoint and CB from the midpoint to the last vertex. AC followed by CB without its first point is the line with the midpoint inserted at the split segment. |
| `Move.DegenerateMiddleCounts` | game.cpp:403-428 | A midpoint shared by two overlapping collinear segments is counted twice, and a midpoint off the line is counted zero times. |
| `Move.ResolveEnds` | game.cpp:351-376 | The end nodes are found exactly when one node lies at each end of the line, and the failure is `InvalidNode`. |
| `Move.ResolveAgreesWithFindNode` | game.cpp:355-376 | The end nodes the move finds are the ones `findNode` reports. |
| `Move.Rollback` | game.cpp:461-468 | The undo deletes the last node through `deleteLastNode`, which clears the back-links, and drops the two lines just stored. It keeps the flag, the counter, the areas, the region classes and the handles. |
| `Move.AddUsesOneSlot` | game.cpp:447-448 | A node accepts a connection exactly when it has a free slot, and then has one free slot fewer. |
| `Move.MiddleNode` | game.cpp:440-442 | The middle node sits at the midpoint. Slot 0 links to the first end through line AC, slot 1 links to the last end through line CB, and slot 2 is empty. |
| `Move.LinkBack` | game.cpp:447-448 | Adding the reciprocal links keeps the number of nodes and leaves the middle node untouched. |
| `Move.Attach` | game.cpp:434-469 | Insertion fails only with `NoFreeSlot`, keeping the lines, the node count and the counter. On success it stores AC and CB, appends the middle node and counts the move. |
| `Move.AttachNeedsFreeSlots` | game.cpp:443-457 | Insertion succeeds exactly when the end nodes have room: two free slots when both ends are one node, otherwise one free slot in each. |
| `Move.RollbackAfterFirstLink` | game.cpp:452-456 | If the second reciprocal link fails after the first went in, deleting the middle node restores the node store exactly. |
| `Move.LinkBackRollback` | game.cpp:452-456 | Whenever the reciprocal links cannot both be added, deleting the middle node restores the node store it was appended to. |
| `Move.AttachRollbackRestores` | game.cpp:437-469 | In a linked, tidy game, a failed insertion gives back exactly the original node store. |
| `Move.LinkBackLinks` | game.cpp:446-448 | When both reciprocal links go in, the first end holds the link through AC, the second holds the link through CB, and no other node changes. |
| `Move.AttachKeepsLinked` | game.cpp:434-450 | A successful insertion keeps every held connection pointing into the stores and every other slot empty. |
| `Move.AttachLinksBack` | game.cpp:440-448 | After a successful insertion, both end nodes hold their links to the middle node and no other node changes. |
| `Move.Recheck` | game.cpp:385-391 | Without extra checks the game passes unchanged. With them, the areas are recomputed and the move may go on exactly when the end nodes can be joined. |
| `Move.Finish` | game.cpp:471 | A successful move ends with a recompute that keeps the stores and counter and leaves the game Fresh and canonically classified. A failure passes through unchanged. |
| `Move.DoMove` | game.cpp:347-472 | A move counts only when it succeeds. A success leaves the game Fresh and appends one node at the midpoint and two lines after the old ones. A failure keeps the lines and the node count; unless the failure is `NoFreeSlot` it keeps the nodes too. Without the extra checks a failure leaves the game Stale; with them it leaves the game Fresh exactly for `NotConnectable` and `InvalidMiddle`. Every outcome is Stale or carries a complete set of region-class handles. |
| `Move.DoMoveSucceedsIff` | game.cpp:347-472 | A move succeeds exactly when: the line is non-empty; one node lies at each end; those nodes can be joined after a recompute, if the extra checks are on; exactly one segment strictly contains the midpoint; and the end nodes have free slots for the new links. |
| `Move.DoMoveErrorKinds` | game.cpp:355-428 | A failed move reports `InvalidLine` exactly for an empty line. It reports `InvalidNode` exactly when an end does not hold exactly one node. `NotConnectable` appears only under the extra checks, and `InvalidMiddle` carries the observed count, which is not one. |
| `Move.DoMoveFailureRestores` | game.cpp:437-469 | In a linked, tidy game, a failed move leaves the nodes, the lines and the move counter as they were. |
| `Move.DoMoveSplitsLine` | game.cpp:393-435 | A successful move had exactly one segment containing the midpoint and stores the two halves of the split after the existing lines. |
| `Move.DoMoveLinksEnds` | game.cpp:437-450 | A successful move appends the middle node joined to the nodes at both ends of the line. Those nodes are the ones `findNode` reports, and they hold the links back. No other node changes. |
| `Move.DoMoveKeepsLinked` | game.cpp:434-471 | A successful move keeps a linked, tidy game linked and tidy. |
| `Ai.RequiredAreas` | ai.cpp:80-105 | The wanted parity is (starting count odd) differing from who moved first. The final throw is reached exactly for a negative odd count. |
| `Ai.RequiredAreasOpposite` | ai.cpp:80-103 | For any non-negative count, the two players want opposite parities. |
| `Ai.BlockedBound` | ai.cpp:127-136 | At most n(n-1)/2 pairs are blocked, and exactly that many when no pair of distinct nodes can be joined. |
| `Ai.NotConnectableNodes` | ai.cpp:122-139 | The count fails with `AreasOutdated` exactly when the game is Stale and has at least two nodes. Otherwise it is the number of pairs i < j that cannot be joined, at most n(n-1)/2, and 0 with fewer than two nodes. |
| `Ai.NoMoveLeftBlocksAll` | ai.cpp:122-139 | When the game has ended, every pair is counted as blocked. The count is maximal exactly when no two distinct nodes can be joined. |
| `Ai.MidNode` | ai.cpp:146-153 | The midpoint is the truncating componentwise average of the two middle vertices (the ends of the segment ending at vertex size/2): each coordinate is half their sum, rounded toward zero. It therefore lies within that segment's bounding box, and on its row or column when the segment is axis-aligned. |
| `Ai.MidNodeIsHit` | ai.cpp:146-153 | On an axis-aligned middle segment at least two units long, the midpoint lies strictly inside that segment, so a move can split the line there. |
| `Ai.UnitSegmentMidNode` | ai.cpp:146-153 | On a unit-length middle segment, the midpoint is an end and no segment strictly contains it. |
| `Ai.FirstTurnSetup` | ai.cpp:37-50 | The setup changes nothing once the starting count is known. Otherwise it marks the computer second exactly when the move count is odd, and subtracts that move's node from the node count. |
| `Ai.FirstTurnRecoversStart` | ai.cpp:38-50 | Before the computer's first move, the setup recovers the starting node count and who moved first, and a second call changes nothing. |
| `Ai.FirstTurnHasTarget` | ai.cpp:38-54 | With at least one node on the board, the setup always leaves `requiredAreas` an answer. |
| `Ai.EmptyBoardOddMovesHasNoTarget` | ai.cpp:38-54 | With no node and an odd move count, the setup records -1 nodes and `requiredAreas` throws. |
| `Gui.VerticalByDistance` | gamegui.cpp:291-302 | The quarter-plane test holds exactly when the vertical distance is at least the horizontal distance. |
| `Gui.Straighten` | gamegui.cpp:366-391 | The snapped point shares a row or column with the last vertex and one coordinate with the cursor. With at most one vertex drawn, it follows the dominant direction. |
| `Gui.StraightenNeverDoublesBack` | gamegui.cpp:373-387 | The snapped step never continues back along the previous segment's column or row toward the vertex before the last. |
| `Gui.FirstStraighten` | gamegui.cpp:304-347 | The first step stays on the node's row or column. A step forced onto one axis takes the cursor's other coordinate, and a single open direction puts the step at least 10 away from the node that way. With all directions open, the step is the snapped step. |
| `Gui.FirstStraightenFollowsCursor` | gamegui.cpp:315-328 | Past the node, a forced vertical step follows the cursor at a distance of 10. |
| `Gui.CrossesCharacterized` | gamegui.cpp:456-511 | The crossing test fires exactly when the new segment's position is strictly inside the existing segment's span and the existing segment's height is in the new segment's span. The span is closed without a node end and open with one. |
| `Gui.ValidSingleLineDirectionCounterexample` | gamegui.cpp:441-632 | As written, the stored segment (0,0)-(0,10) does not stop a new segment drawn from (0,0) to (0,20), but does stop the same segment drawn from (0,20) to (0,0). |
| `Gui.CollinearAsWrittenIsDirectional` | gamegui.cpp:513-542 | The written overlap test passes the span 0..20 over 0..10, refuses 20..0, and passes an exact duplicate in both directions. |
| `Gui.CollinearConflictIsSound` | gamegui.cpp:513-542 | The intended overlap test does not depend on the direction of either segment, refuses every overlap of positive length, and refuses everything the written test refuses. |
| `Gui.TouchingSpansAllowed` | gamegui.cpp:513-542 | Collinear segments that only touch at an end do not conflict, in the written test or in the intended one. |
| `Gui.BlocksRefinesAsWritten` | gamegui.cpp:455-628 | Every segment the written per-segment test treats as blocking is blocking for the intended test too. |
| `Gui.ValidSingleLine` | gamegui.cpp:441-632 | The line is valid exactly when none of segments 1..lineSize-1 stops the new segment, so it is always valid when lineSize <= 1. |
| `Gui.ValidLine` | gamegui.cpp:635-689 | A new segment is accepted exactly when all of the following hold. No segment of the line being drawn (without its last vertex), or of any stored line, stops it. Its end is not strictly inside a node's radius box, unless the end is a node. It passes strictly over no node within the radius band. |
| `Gui.AcceptedNeverOverlaps` | gamegui.cpp:641-647 | An accepted vertical segment never shares more than one point with a stored vertical segment on its column. |

## Left out

- The `Node` class is not part of this model. `dead`, `vertical` and `walk` are uninterpreted oracle functions, and `addConnection` is the assumed first-free-slot rule. `openUp`/`openDown`/`openLeft`/`openRight` and `updateOpen` are not modelled, because the core reads them only for the debug dump.
- Memory management is not modelled: `new`/`delete`, `clearAreas`, `cleanup`, the destructor, and the pointer-identity maps of `copy`. Stores are sequences, and handles are indices.
- Failure to allocate memory (`bad_alloc`) during `insertLine`/`insertNode` is not modelled. The rollback of `doMove` is modelled only for the failure of `addConnection`.
- Region classes are sorted by area index, where the source sorts by area address. Both are fixed orders of the same set, so the class shared by two nodes is the same.
- Dead nodes keep stale region-class pointers in the source; here they have no handles. `connectable` never reads them: it answers `false` for a dead node paired with another node, and the self-loop rule reads only slots.
- `Classifier.DefaultAreaset`: the declaration of `defaultAreaset` is not part of this model. It is taken to be the empty region class, registered first, as `updateAreas` uses it for sides that border no area.
- Coordinates and the move counter are unbounded integers. 32-bit overflow is not modelled.
- `Board.Copy`: the copy constructor leaves the move counter uninitialised, and assignment keeps the target's counter. The counter is therefore a parameter.
- `Move.DoMove`: the empty-line check comes first. The source reads `line.front()` before checking the length, which is undefined behaviour for an empty line.
- `Move.DoMoveFailureRestores`: requires every held connection to point into the stores and every empty slot to be the default one. With indices in place of pointers, a slot that already named the index of the new node would be cleared by the rollback. A newly allocated address is never named by an existing slot.
- `Move.AttachRollbackRestores`: requires a linked, tidy game, for the same reason.
- `Gui.ValidSingleLine` and `Gui.ValidLine`: these use the intended overlap test of the findings below instead of the one as written.
- `Ai.FirstTurnSetup`: `nodes.size() - 1` on an empty board is taken to be -1, as on two's-complement platforms where the unsigned result converts back to `int`. `Ai.EmptyBoardOddMovesHasNoTarget` relies on this.
- `Gui.ValidLine`: the line being drawn, the stored lines, the nodes and `nodeRadius` (5 by default) are parameters. For an empty line being drawn, `currentLine.size()-1` converts to -1, as on two's-complement platforms.
- `Gui.Straighten`: the line being drawn is a parameter instead of a member.
- `moves()` is the `moveCount` field.
- `operator<<` debug dumps are not modelled.
- Floating point (`distance`, `selectedNode`, `findMiddle`, the placement in `init`) is not modelled.
- SDL drawing, fonts and locking are not modelled, nor the click/cursor state machine with `combineLines`.
- The search loop of `aiTurn`, `populateMList` and `createLine` are not modelled. `createLine` always throws, so no candidate move can be generated.

## Findings

| source | as written | input that shows it | evidently intended | confidence | as-written member | corrected member |
|---|---|---|---|---|---|---|
| gamegui.cpp:513-542 | For collinear segments (same for rows, lines 598-627), the test refuses a new segment only in two cases. Either one of its ends lies strictly inside the stored segment, or it spans the stored segment's low end when drawn upward (its high end when drawn downward). | Stored segment (0,0)-(0,10). New segment (0,0) to (0,20) is accepted; the same segment drawn from (0,20) to (0,0) is refused. An exact duplicate (0,0) to (0,10) is accepted either way. | Any collinear overlap of positive length is refused, whichever way the segments were drawn. | medium; not executed | `Gui.ValidSingleLineDirectionCounterexample` | `Gui.CollinearConflictIsSound` |
