/** The move transaction of the A-Checker (`Game::doMove`, game.cpp): find
    the two end nodes, optionally re-check that they may be joined, split
    the polyline at a midpoint that lies strictly inside exactly one of its
    segments, store both halves, add the middle node with its connections
    and the reciprocal ones, and undo every insertion if a connection cannot
    be added. A successful move ends with a recompute. */
module Move {
  import opened Structs
  import opened GameDefs
  import opened Nodes
  import opened Board
  import opened Classifier
  import opened Connectivity

  /** Segment `i` (from `line[i-1]` to `line[i]`) is horizontal or vertical
      and `middle` lies strictly between its ends on its row or column. */
  predicate Hit(line: Line, i: nat, middle: Coord)
    requires 1 <= i < |line|
  {
    || (middle.y == line[i].y && line[i].y == line[i - 1].y &&
         ((middle.x > line[i].x && middle.x < line[i - 1].x) ||
          (middle.x < line[i].x && middle.x > line[i - 1].x)))
    || (middle.x == line[i].x && line[i].x == line[i - 1].x &&
         ((middle.y > line[i].y && middle.y < line[i - 1].y) ||
          (middle.y < line[i].y && middle.y > line[i - 1].y)))
  }

  /** The segments among the first `n - 1` that strictly contain `middle`. */
  function HitsBelow(line: Line, middle: Coord, n: nat): set<nat>
    requires n <= |line|
  {
    set i: nat | 1 <= i < n && Hit(line, i, middle)
  }

  /** How many segments of the line strictly contain `middle`. */
  function HitCount(line: Line, middle: Coord): nat
  {
    |HitsBelow(line, middle, |line|)|
  }

  lemma HitsStep(line: Line, middle: Coord, i: nat)
    requires 1 <= i < |line|
    ensures HitsBelow(line, middle, i + 1) == HitsBelow(line, middle, i) + (if Hit(line, i, middle) then {i} else {})
    ensures |HitsBelow(line, middle, i + 1)| == |HitsBelow(line, middle, i)| + (if Hit(line, i, middle) then 1 else 0)
  {
    assert i !in HitsBelow(line, middle, i);
  }

  /** A midpoint strictly inside a segment is never one of its corners. */
  lemma HitAvoidsCorners(line: Line, i: nat, middle: Coord)
    requires 1 <= i < |line| && Hit(line, i, middle)
    ensures middle != line[i - 1] && middle != line[i]
  {
  }

  /** What the splitting loop knows after segments `1..i-1`: the count of
      hits so far; before any hit AC is the line so far and CB is empty;
      after exactly one hit at `k`, AC ends with the midpoint inserted after
      vertex `k-1` and CB runs from the midpoint to vertex `i-1`. */
  predicate SplitInv(line: Line, middle: Coord, i: nat, count: nat, ac: Line, cb: Line)
    requires 1 <= i <= |line|
  {
    && count == |HitsBelow(line, middle, i)|
    && (count == 0 ==> ac == line[..i] && cb == [])
    && (count == 1 ==> forall k: nat :: 1 <= k < i && Hit(line, k, middle) ==>
          ac == line[..k] + [middle] && cb == [middle] + line[k..i])
  }

  /** One iteration of the splitting loop of `doMove` at segment `i`: a hit
      appends the midpoint to AC and the midpoint and the segment's end to
      CB; otherwise the vertex goes to AC before the first hit and to CB
      after it. */
  function SplitStep(line: Line, middle: Coord, i: nat, count: nat, ac: Line, cb: Line): (nat, Line, Line)
    requires 1 <= i < |line|
  {
    if Hit(line, i, middle) then (count + 1, ac + [middle], cb + [middle, line[i]])
    else if count == 0 then (count, ac + [line[i]], cb)
    else (count, ac, cb + [line[i]])
  }

  /** The first hit: AC is the line up to the segment's start plus the
      midpoint, and CB the midpoint plus the segment's end. */
  lemma FirstHit(line: Line, middle: Coord, i: nat)
    requires 1 <= i < |line| && Hit(line, i, middle)
    requires forall k: nat :: 1 <= k < i ==> !Hit(line, k, middle)
    ensures forall k: nat :: 1 <= k < i + 1 && Hit(line, k, middle) ==>
      line[..i] + [middle] == line[..k] + [middle] && [middle] + [middle, line[i]][1..] == [middle] + line[k..i + 1]
  {
    assert line[i..i + 1] == [line[i]];
  }

  lemma SplitStepKeeps(line: Line, middle: Coord, i: nat, count: nat, ac: Line, cb: Line)
    requires 1 <= i < |line| && SplitInv(line, middle, i, count, ac, cb)
    ensures var s := SplitStep(line, middle, i, count, ac, cb);
      SplitInv(line, middle, i + 1, s.0, s.1, s.2)
  {
    HitsStep(line, middle, i);
    var s := SplitStep(line, middle, i, count, ac, cb);
    if Hit(line, i, middle) {
      if count == 0 {
        assert forall k: nat :: 1 <= k < i && Hit(line, k, middle) ==> k in HitsBelow(line, middle, i);
        FirstHit(line, middle, i);
      }
    } else if count == 0 {
      assert line[..i + 1] == line[..i] + [line[i]];
    } else if count == 1 {
      forall k: nat | 1 <= k < i + 1 && Hit(line, k, middle)
        ensures s.1 == line[..k] + [middle] && s.2 == [middle] + line[k..i + 1]
      {
        assert line[k..i + 1] == line[k..i] + [line[i]];
      }
    }
  }

  /** The splitting loop of `doMove`, from segment `i` on. */
  function SplitLoop(line: Line, middle: Coord, i: nat, count: nat, ac: Line, cb: Line): (r: (nat, Line, Line))
    requires 1 <= i <= |line| && SplitInv(line, middle, i, count, ac, cb)
    ensures SplitInv(line, middle, |line|, r.0, r.1, r.2)
    decreases |line| - i
  {
    if i == |line| then (count, ac, cb)
    else
      var s := SplitStep(line, middle, i, count, ac, cb);
      SplitStepKeeps(line, middle, i, count, ac, cb);
      SplitLoop(line, middle, i + 1, s.0, s.1, s.2)
  }

  /** The split of `doMove`: the number of segments that strictly contain
      `middle`, and the two halves AC and CB. */
  function Split(line: Line, middle: Coord): (r: (nat, Line, Line))
    requires |line| >= 1
    ensures r.0 == HitCount(line, middle)
    ensures r.0 == 0 ==> r.1 == line && r.2 == []
    ensures r.0 == 1 ==> forall k: nat :: 1 <= k < |line| && Hit(line, k, middle) ==>
      r.1 == line[..k] + [middle] && r.2 == [middle] + line[k..]
  {
    assert HitsBelow(line, middle, 1) == {};
    var r := SplitLoop(line, middle, 1, 0, [line[0]], []);
    assert line[..|line|] == line;
    r
  }

  /** With a single hit at segment `k`, AC runs from the first vertex to the
      midpoint, CB from the midpoint to the last vertex, and AC followed by
      CB without its first point is the line with the midpoint inserted at
      the split segment. */
  lemma SplitReassembles(line: Line, middle: Coord, k: nat)
    requires 1 <= k < |line| && Hit(line, k, middle) && HitCount(line, middle) == 1
    ensures var r := Split(line, middle);
      && |r.1| >= 2 && |r.2| >= 2
      && r.1[0] == line[0] && r.1[|r.1| - 1] == middle
      && r.2[0] == middle && r.2[|r.2| - 1] == line[|line| - 1]
      && r.1 + r.2[1..] == line[..k] + [middle] + line[k..]
  {
    var r := Split(line, middle);
    assert r.2[1..] == line[k..];
  }

  /** Two overlapping collinear segments both count: a midpoint shared by
      them yields a count of 2, and a midpoint off the line a count of 0. */
  lemma DegenerateMiddleCounts()
    ensures HitCount([Coord(0, 0), Coord(10, 0), Coord(0, 0)], Coord(5, 0)) == 2
    ensures HitCount([Coord(0, 0), Coord(10, 0), Coord(0, 0)], Coord(5, 5)) == 0
  {
    var l := [Coord(0, 0), Coord(10, 0), Coord(0, 0)];
    assert Hit(l, 1, Coord(5, 0)) && Hit(l, 2, Coord(5, 0));
    assert HitsBelow(l, Coord(5, 0), 3) == {1, 2};
    assert HitsBelow(l, Coord(5, 5), 3) == {};
  }

  lemma MatchCountStep(nodes: seq<Node>, c: Coord, i: nat)
    requires i < |nodes|
    ensures MatchCount(nodes[..i + 1], c) == MatchCount(nodes[..i], c) + (if nodes[i].loci == c then 1 else 0)
  {
    assert nodes[..i + 1][..i] == nodes[..i];
  }

  lemma {:induction false} MatchCountMono(nodes: seq<Node>, c: Coord, i: nat, j: nat)
    requires i <= j <= |nodes|
    ensures MatchCount(nodes[..i], c) <= MatchCount(nodes[..j], c)
    decreases j - i
  {
    if i < j {
      MatchCountStep(nodes, c, j - 1);
      MatchCountMono(nodes, c, i, j - 1);
    }
  }

  /** The end-node search of `doMove`, from node `i` on: remember the node at
      the line's front and the one at its back, and fail as soon as either
      place holds a second node, or at the end if either holds none. */
  function ResolveLoop(nodes: seq<Node>, front: Coord, back: Coord, i: nat, a: Option<nat>, b: Option<nat>): (r: Result<(nat, nat)>)
    requires i <= |nodes|
    requires a.None? <==> MatchCount(nodes[..i], front) == 0
    requires a.Some? ==> MatchCount(nodes[..i], front) == 1 && a.value < i && nodes[a.value].loci == front
    requires b.None? <==> MatchCount(nodes[..i], back) == 0
    requires b.Some? ==> MatchCount(nodes[..i], back) == 1 && b.value < i && nodes[b.value].loci == back
    ensures r.Ok? <==> MatchCount(nodes, front) == 1 && MatchCount(nodes, back) == 1
    ensures r.Ok? ==> r.value.0 < |nodes| && nodes[r.value.0].loci == front
    ensures r.Ok? ==> r.value.1 < |nodes| && nodes[r.value.1].loci == back
    ensures r.Err? ==> r.error == InvalidNode
    decreases |nodes| - i
  {
    if i == |nodes| then
      assert nodes[..i] == nodes;
      if a.None? || b.None? then Err(InvalidNode) else Ok((a.value, b.value))
    else
      var here := nodes[i].loci;
      MatchCountStep(nodes, front, i);
      MatchCountStep(nodes, back, i);
      if here == front && a.Some? then
        MatchCountMono(nodes, front, i + 1, |nodes|);
        assert nodes[..|nodes|] == nodes;
        Err(InvalidNode)
      else
        var a' := if here == front then Some(i) else a;
        if here == back && b.Some? then
          MatchCountMono(nodes, back, i + 1, |nodes|);
          assert nodes[..|nodes|] == nodes;
          Err(InvalidNode)
        else
          var b' := if here == back then Some(i) else b;
          ResolveLoop(nodes, front, back, i + 1, a', b')
  }

  /** The end nodes of a non-empty line: found exactly when one node lies at
      each end. */
  function ResolveEnds(nodes: seq<Node>, line: Line): (r: Result<(nat, nat)>)
    requires |line| >= 1
    ensures r.Ok? <==> MatchCount(nodes, line[0]) == 1 && MatchCount(nodes, line[|line| - 1]) == 1
    ensures r.Ok? ==> r.value.0 < |nodes| && nodes[r.value.0].loci == line[0]
    ensures r.Ok? ==> r.value.1 < |nodes| && nodes[r.value.1].loci == line[|line| - 1]
    ensures r.Err? ==> r.error == InvalidNode
  {
    ResolveLoop(nodes, line[0], line[|line| - 1], 0, None, None)
  }

  /** Two nodes at one place count twice. */
  lemma MatchCountTwo(nodes: seq<Node>, c: Coord, i: nat, j: nat)
    requires i < j < |nodes| && nodes[i].loci == c && nodes[j].loci == c
    ensures MatchCount(nodes, c) >= 2
  {
    MatchCountStep(nodes, c, i);
    MatchCountStep(nodes, c, j);
    MatchCountMono(nodes, c, i + 1, j);
    MatchCountMono(nodes, c, j + 1, |nodes|);
    assert nodes[..|nodes|] == nodes;
  }

  /** The end nodes `doMove` finds are the ones `findNode` reports. */
  lemma ResolveAgreesWithFindNode(nodes: seq<Node>, line: Line)
    requires |line| >= 1 && ResolveEnds(nodes, line).Ok?
    ensures FindNode(nodes, line[0]) == Some(ResolveEnds(nodes, line).value.0)
    ensures FindNode(nodes, line[|line| - 1]) == Some(ResolveEnds(nodes, line).value.1)
  {
    var ends := ResolveEnds(nodes, line).value;
    var f := FindNode(nodes, line[0]).value;
    if f < ends.0 { MatchCountTwo(nodes, line[0], f, ends.0); }
    var l := FindNode(nodes, line[|line| - 1]).value;
    if l < ends.1 { MatchCountTwo(nodes, line[|line| - 1], l, ends.1); }
  }

  /** The outcome of a move: the game after the call, and the error when it
      failed. A failed call may still have left the areas Stale, or
      recomputed them when the extra checks ran. */
  datatype MoveOutcome = Moved(game: Game) | Failed(game: Game, error: Error)

  /** Undo of an interrupted insertion: `deleteLastNode`, then drop the two
      lines just stored. */
  function Rollback(g: Game): (r: Game)
    requires |g.nodes| > 0 && |g.lines| >= 2 && LinksWithin(g.nodes[|g.nodes| - 1], |g.nodes|)
    ensures |r.nodes| == |g.nodes| - 1 && r.lines == g.lines[..|g.lines| - 2]
    ensures r.updated == g.updated && r.moveCount == g.moveCount
    ensures r.nodes == DeleteLastNode(g.nodes)
    ensures r.areas == g.areas && r.areasets == g.areasets && r.sides == g.sides
  {
    g.(nodes := DeleteLastNode(g.nodes), lines := g.lines[..|g.lines| - 2])
  }

  /** Number of slots of `n` that hold no connection. */
  function FreeSlots(n: Node): nat
  {
    (if n.conns[0].Exists() then 0 else 1) + (if n.conns[1].Exists() then 0 else 1) + (if n.conns[2].Exists() then 0 else 1)
  }

  /** A node accepts a connection exactly when it has a free slot, and then
      has one free slot fewer. */
  lemma AddUsesOneSlot(n: Node, c: Connection)
    requires c.Exists()
    ensures AddConnection(n, c).Ok? <==> FreeSlots(n) >= 1
    ensures AddConnection(n, c).Ok? ==> FreeSlots(AddConnection(n, c).value) + 1 == FreeSlots(n)
  {
  }

  /** The middle node of a move between `a` and `b`, joined to `a` by line
      `acIdx` and to `b` by the line after it. */
  function MiddleNode(middle: Coord, a: nat, b: nat, acIdx: nat): (n: Node)
    ensures LinksWithin(n, Max(a, b) + 1)
    ensures n.loci == middle
    ensures n.conns[0] == Connection(Some(acIdx), Some(a)) && n.conns[0].Exists()
    ensures n.conns[1] == Connection(Some(acIdx + 1), Some(b)) && n.conns[1].Exists()
    ensures n.conns[2] == NoConnection
  {
    MakeNode(middle, Connection(Some(acIdx), Some(a)), Connection(Some(acIdx + 1), Some(b)))
  }

  /** The reciprocal connections of a move: add to `a` the link to the
      middle node (the last one) through line `acIdx`, then to `b` the link
      through the line after it. The flag tells whether both went in; the
      nodes are as they stand when the first failure happened. */
  function LinkBack(ns: seq<Node>, a: nat, b: nat, acIdx: nat): (r: (bool, seq<Node>))
    requires a < |ns| - 1 && b < |ns| - 1
    ensures |r.1| == |ns| && r.1[|ns| - 1] == ns[|ns| - 1]
  {
    var cIdx := |ns| - 1;
    match AddConnection(ns[a], Connection(Some(acIdx), Some(cIdx)))
    case Err(_) => (false, ns)
    case Ok(na) =>
      var ns3 := ns[a := na];
      match AddConnection(ns3[b], Connection(Some(acIdx + 1), Some(cIdx)))
      case Err(_) => (false, ns3)
      case Ok(nb) => (true, ns3[b := nb])
  }

  /** Store AC and CB, insert the middle node linked to `a` through AC and to
      `b` through CB, then add the reciprocal connections to `a` and `b`,
      rolling everything back if either has no free slot. */
  function Attach(g: Game, a: nat, b: nat, ac: Line, cb: Line, middle: Coord): (r: MoveOutcome)
    requires a < |g.nodes| && b < |g.nodes|
    ensures r.Failed? ==> r.error == NoFreeSlot && !r.game.updated
    ensures r.Failed? ==> r.game.lines == g.lines && |r.game.nodes| == |g.nodes| && r.game.moveCount == g.moveCount
    ensures r.Moved? ==> r.game.lines == g.lines + [ac, cb] && r.game.moveCount == g.moveCount + 1
    ensures r.Moved? ==> |r.game.nodes| == |g.nodes| + 1 && r.game.nodes[|g.nodes|] == MiddleNode(middle, a, b, |g.lines|)
  {
    var g2 := InsertNode(InsertLine(InsertLine(g, ac), cb), middle,
                         Connection(Some(|g.lines|), Some(a)), Connection(Some(|g.lines| + 1), Some(b)));
    var link := LinkBack(g2.nodes, a, b, |g.lines|);
    var g3 := g2.(nodes := link.1);
    assert g3.lines[..|g3.lines| - 2] == g.lines;
    if link.0 then Moved(g3.(moveCount := g.moveCount + 1))
    else Failed(Rollback(g3), NoFreeSlot)
  }

  /** The insertion goes through exactly when the end nodes have room for
      the reciprocal connections: two free slots when both ends are one
      node, one free slot in each otherwise. */
  lemma AttachNeedsFreeSlots(g: Game, a: nat, b: nat, ac: Line, cb: Line, middle: Coord)
    requires a < |g.nodes| && b < |g.nodes|
    ensures Attach(g, a, b, ac, cb, middle).Moved? <==>
      if a == b then FreeSlots(g.nodes[a]) >= 2
      else FreeSlots(g.nodes[a]) >= 1 && FreeSlots(g.nodes[b]) >= 1
  {
    var acIdx := |g.lines|;
    var cIdx := |g.nodes|;
    var ns := g.nodes + [MiddleNode(middle, a, b, acIdx)];
    assert ns[a] == g.nodes[a] && ns[b] == g.nodes[b];
    var ca := Connection(Some(acIdx), Some(cIdx));
    AddUsesOneSlot(g.nodes[a], ca);
    var ra := AddConnection(g.nodes[a], ca);
    if ra.Ok? {
      var ns3 := ns[a := ra.value];
      AddUsesOneSlot(ns3[b], Connection(Some(acIdx + 1), Some(cIdx)));
    }
  }

  /** In a linked, tidy game no slot points at a node not yet stored. */
  lemma NoLinkToNewNode(g: Game)
    requires Linked(g) && AllTidy(g)
    ensures forall k :: 0 <= k < |g.nodes| ==> NoLinkTo(g.nodes[k], |g.nodes|)
  {
    forall k | 0 <= k < |g.nodes| ensures NoLinkTo(g.nodes[k], |g.nodes|) {
      assert Tidy(g.nodes[k]);
    }
  }

  /** The back-link pass of `deleteLastNode` over the middle node's slots
      1 and 2 changes nothing when no other node points at it. */
  lemma ClearSecondLinkNoop(s1: seq<Node>, b: nat)
    requires |s1| > 0 && b < |s1| - 1 && LinksWithin(s1[|s1| - 1], |s1|)
    requires s1[|s1| - 1].conns[1].dest == Some(b) && !s1[|s1| - 1].conns[2].Exists()
    requires NoLinkTo(s1[b], |s1| - 1)
    ensures ClearBackLinks(s1, 1) == s1
  {
    assert s1[b := ClearLink(s1[b], |s1| - 1)] == s1;
    if s1[|s1| - 1].conns[1].Exists() {
      assert ClearBackLinks(s1, 1) == ClearBackLinks(s1, 2);
    }
    assert ClearBackLinks(s1, 2) == ClearBackLinks(s1, 3);
  }

  /** Undoing after the second reciprocal connection failed: the middle
      node's first link clears the connection just added to `a`, its second
      finds nothing pointing back in `b`, and the node store is as before. */
  lemma RollbackAfterFirstLink(nodes: seq<Node>, a: nat, b: nat, middle: Coord, acIdx: nat)
    requires a < |nodes| && b < |nodes| && Tidy(nodes[a])
    requires forall k :: 0 <= k < |nodes| ==> NoLinkTo(nodes[k], |nodes|)
    requires AddConnection(nodes[a], Connection(Some(acIdx), Some(|nodes|))).Ok?
    ensures var na := AddConnection(nodes[a], Connection(Some(acIdx), Some(|nodes|))).value;
      DeleteLastNode(nodes[a := na] + [MiddleNode(middle, a, b, acIdx)]) == nodes
  {
    var cIdx := |nodes|;
    var c := MiddleNode(middle, a, b, acIdx);
    var na := AddConnection(nodes[a], Connection(Some(acIdx), Some(cIdx))).value;
    ClearUndoesAdd(nodes[a], acIdx, cIdx);
    var ns := nodes[a := na] + [c];
    var s1 := nodes + [c];
    assert ns[a := ClearLink(ns[a], cIdx)] == s1;
    assert ClearBackLinks(ns, 0) == ClearBackLinks(s1, 1);
    ClearSecondLinkNoop(s1, b);
    assert s1[..cIdx] == nodes;
  }

  /** Whenever the reciprocal links cannot both be added, deleting the
      middle node again restores the nodes it was appended to. */
  lemma LinkBackRollback(nodes: seq<Node>, a: nat, b: nat, middle: Coord, acIdx: nat)
    requires a < |nodes| && b < |nodes| && Tidy(nodes[a])
    requires forall k :: 0 <= k < |nodes| ==> NoLinkTo(nodes[k], |nodes|)
    ensures var link := LinkBack(nodes + [MiddleNode(middle, a, b, acIdx)], a, b, acIdx);
      !link.0 ==> DeleteLastNode(link.1) == nodes
  {
    var c := MiddleNode(middle, a, b, acIdx);
    assert (nodes + [c])[a] == nodes[a];
    if AddConnection(nodes[a], Connection(Some(acIdx), Some(|nodes|))).Err? {
      assert LinkBack(nodes + [c], a, b, acIdx).1 == nodes + [c];
      DeleteUnlinkedNode(nodes, c);
    } else {
      var na := AddConnection(nodes[a], Connection(Some(acIdx), Some(|nodes|))).value;
      assert (nodes + [c])[a := na] == nodes[a := na] + [c];
      RollbackAfterFirstLink(nodes, a, b, middle, acIdx);
    }
  }

  /** The rollback of `Attach` restores the node store exactly, provided
      every held connection points into the stores and every other slot is
      the default empty one. */
  lemma AttachRollbackRestores(g: Game, a: nat, b: nat, ac: Line, cb: Line, middle: Coord)
    requires a < |g.nodes| && b < |g.nodes| && Linked(g) && AllTidy(g)
    ensures Attach(g, a, b, ac, cb, middle).Failed? ==> Attach(g, a, b, ac, cb, middle).game.nodes == g.nodes
  {
    NoLinkToNewNode(g);
    assert Tidy(g.nodes[a]);
    LinkBackRollback(g.nodes, a, b, middle, |g.lines|);
  }

  /** `n` holds connection `c` in some slot. */
  predicate Holds(n: Node, c: Connection)
  {
    exists s :: 0 <= s < 3 && n.conns[s] == c
  }

  /** A successful add holds the added connection. */
  lemma AddHolds(n: Node, c: Connection)
    requires AddConnection(n, c).Ok?
    ensures Holds(AddConnection(n, c).value, c)
  {
    var s :| 0 <= s < 3 && !n.conns[s].Exists() && AddConnection(n, c).value.conns == n.conns[s := c];
    assert AddConnection(n, c).value.conns[s] == c;
  }

  /** A successful add keeps every connection already held. */
  lemma AddKeepsHeld(n: Node, c: Connection, d: Connection)
    requires c.Exists() && Holds(n, c) && AddConnection(n, d).Ok?
    ensures Holds(AddConnection(n, d).value, c)
  {
    var s :| 0 <= s < 3 && n.conns[s] == c;
    assert AddConnection(n, d).value.conns[s] == c;
  }

  /** When both reciprocal links go in, `a` holds the link through AC, `b`
      the link through CB, and no other node changes. */
  lemma LinkBackLinks(ns: seq<Node>, a: nat, b: nat, acIdx: nat)
    requires a < |ns| - 1 && b < |ns| - 1 && LinkBack(ns, a, b, acIdx).0
    ensures var r := LinkBack(ns, a, b, acIdx).1;
      && Holds(r[a], Connection(Some(acIdx), Some(|ns| - 1)))
      && Holds(r[b], Connection(Some(acIdx + 1), Some(|ns| - 1)))
      && forall k :: 0 <= k < |ns| && k != a && k != b ==> r[k] == ns[k]
  {
    var ca := Connection(Some(acIdx), Some(|ns| - 1));
    var cb := Connection(Some(acIdx + 1), Some(|ns| - 1));
    var na := AddConnection(ns[a], ca).value;
    var ns3 := ns[a := na];
    var nb := AddConnection(ns3[b], cb).value;
    AddHolds(ns[a], ca);
    AddHolds(ns3[b], cb);
    if a == b {
      AddKeepsHeld(na, ca, cb);
    }
  }

  /** Adding a connection that names a stored line and a stored node keeps
      a linked, tidy game so. */
  lemma AddKeepsLinked(g: Game, k: nat, c: Connection)
    requires Linked(g) && AllTidy(g) && k < |g.nodes|
    requires c.Exists() && c.line.value < |g.lines| && c.dest.value < |g.nodes|
    requires AddConnection(g.nodes[k], c).Ok?
    ensures Linked(g.(nodes := g.nodes[k := AddConnection(g.nodes[k], c).value]))
    ensures AllTidy(g.(nodes := g.nodes[k := AddConnection(g.nodes[k], c).value]))
  {
    assert Tidy(g.nodes[k]);
  }

  /** Storing the two halves and the middle node keeps a linked, tidy game
      so. */
  lemma StageKeepsLinked(g: Game, a: nat, b: nat, ac: Line, cb: Line, middle: Coord)
    requires a < |g.nodes| && b < |g.nodes| && Linked(g) && AllTidy(g)
    ensures var g2 := g.(updated := false, nodes := g.nodes + [MiddleNode(middle, a, b, |g.lines|)], lines := g.lines + [ac, cb]);
      Linked(g2) && AllTidy(g2)
  {
    var g2 := g.(updated := false, nodes := g.nodes + [MiddleNode(middle, a, b, |g.lines|)], lines := g.lines + [ac, cb]);
    forall i | 0 <= i < |g2.nodes| ensures Tidy(g2.nodes[i]) {
      if i < |g.nodes| { assert Tidy(g.nodes[i]); }
    }
  }

  /** A successful insertion keeps every held connection pointing into the
      stores and every other slot empty. */
  lemma AttachKeepsLinked(g: Game, a: nat, b: nat, ac: Line, cb: Line, middle: Coord)
    requires a < |g.nodes| && b < |g.nodes| && Linked(g) && AllTidy(g)
    ensures var r := Attach(g, a, b, ac, cb, middle);
      r.Moved? ==> Linked(r.game) && AllTidy(r.game)
  {
    var acIdx := |g.lines|;
    var cIdx := |g.nodes|;
    var g2 := g.(updated := false, nodes := g.nodes + [MiddleNode(middle, a, b, acIdx)], lines := g.lines + [ac, cb]);
    StageKeepsLinked(g, a, b, ac, cb, middle);
    var ca := Connection(Some(acIdx), Some(cIdx));
    var ra := AddConnection(g2.nodes[a], ca);
    if ra.Ok? {
      AddKeepsLinked(g2, a, ca);
      var g3 := g2.(nodes := g2.nodes[a := ra.value]);
      var cbc := Connection(Some(acIdx + 1), Some(cIdx));
      if AddConnection(g3.nodes[b], cbc).Ok? {
        AddKeepsLinked(g3, b, cbc);
        assert Attach(g, a, b, ac, cb, middle).game == g3.(nodes := g3.nodes[b := AddConnection(g3.nodes[b], cbc).value], moveCount := g.moveCount + 1);
      }
    }
  }

  /** After a successful insertion `a` and `b` hold the links back to the
      middle node and every other node is as it was. */
  lemma AttachLinksBack(g: Game, a: nat, b: nat, ac: Line, cb: Line, middle: Coord)
    requires a < |g.nodes| && b < |g.nodes|
    ensures var r := Attach(g, a, b, ac, cb, middle);
      r.Moved? ==>
        && Holds(r.game.nodes[a], Connection(Some(|g.lines|), Some(|g.nodes|)))
        && Holds(r.game.nodes[b], Connection(Some(|g.lines| + 1), Some(|g.nodes|)))
        && forall k :: 0 <= k < |g.nodes| && k != a && k != b ==> r.game.nodes[k] == g.nodes[k]
  {
    var ns := g.nodes + [MiddleNode(middle, a, b, |g.lines|)];
    if LinkBack(ns, a, b, |g.lines|).0 {
      LinkBackLinks(ns, a, b, |g.lines|);
    }
  }

  /** The optional check of `doMove`: recompute the areas and ask
      `connectable` whether the end nodes may be joined. */
  function Recheck(g: Game, o: Oracle, a: nat, b: nat, extraChecks: bool): (r: (Game, bool))
    requires a < |g.nodes| && b < |g.nodes|
    ensures r.0.nodes == g.nodes && r.0.lines == g.lines && r.0.moveCount == g.moveCount
    ensures !extraChecks ==> r == (g, true)
    ensures extraChecks ==> r.0.updated
    ensures r.1 <==> !extraChecks || Joinable(UpdateAreas(g, o), o, a, b)
  {
    if !extraChecks then (g, true)
    else
      var g2 := UpdateAreas(g, o);
      (g2, Connectable(g2, o, a, b) == Ok(true))
  }

  /** The recompute that ends a successful move; a failure passes through. */
  function Finish(out: MoveOutcome, o: Oracle): (r: MoveOutcome)
    ensures r.Moved? == out.Moved?
    ensures r.Failed? ==> r == out
    ensures r.Moved? ==> r.game.nodes == out.game.nodes && r.game.lines == out.game.lines
    ensures r.Moved? ==> r.game.moveCount == out.game.moveCount
    ensures r.Moved? ==> r.game.updated && Canonical(r.game, o)
  {
    match out
    case Failed(_, _) => out
    case Moved(g) => Moved(UpdateAreas(g, o))
  }

  /** `Game::doMove`. The empty-line check is done first: the source reads
      the line's front before checking that it has one. */
  function DoMove(g: Game, o: Oracle, line: Line, middle: Coord, extraChecks: bool := false): (r: MoveOutcome)
    ensures r.game.moveCount == g.moveCount + (if r.Moved? then 1 else 0)
    ensures r.Moved? ==> r.game.updated && Canonical(r.game, o)
    ensures r.Moved? ==> |r.game.nodes| == |g.nodes| + 1 && r.game.nodes[|g.nodes|].loci == middle
    ensures r.Moved? ==> |r.game.lines| == |g.lines| + 2 && r.game.lines[..|g.lines|] == g.lines
    ensures r.Failed? ==> r.game.lines == g.lines && |r.game.nodes| == |g.nodes|
    ensures r.Failed? && r.error != NoFreeSlot ==> r.game.nodes == g.nodes
    ensures r.Failed? && !extraChecks ==> !r.game.updated
    ensures r.Failed? && extraChecks ==> (r.game.updated <==> r.error == NotConnectable || r.error.InvalidMiddle?)
    ensures Classified(r.game, o)
  {
    var g1 := g.(updated := false);
    if |line| == 0 then Failed(g1, InvalidLine)
    else
      match ResolveEnds(g.nodes, line)
      case Err(e) => Failed(g1, e)
      case Ok(ends) =>
        var check := Recheck(g1, o, ends.0, ends.1, extraChecks);
        if !check.1 then Failed(check.0, NotConnectable)
        else
          var split := Split(line, middle);
          if split.0 != 1 then Failed(check.0, InvalidMiddle(split.0, middle))
          else Finish(Attach(check.0, ends.0, ends.1, split.1, split.2, middle), o)
  }

  /** When a move goes through, stated without the move's own steps: a
      non-empty line whose two ends each hold exactly one node, which may be
      joined after a recompute when the extra checks are on, whose midpoint
      lies strictly inside exactly one segment, and whose end nodes have
      room for the new connections. */
  predicate MoveAllowed(g: Game, o: Oracle, line: Line, middle: Coord, extraChecks: bool)
  {
    && |line| >= 1
    && MatchCount(g.nodes, line[0]) == 1 && MatchCount(g.nodes, line[|line| - 1]) == 1
    && FindNode(g.nodes, line[0]).Some? && FindNode(g.nodes, line[|line| - 1]).Some?
    && var a := FindNode(g.nodes, line[0]).value;
       var b := FindNode(g.nodes, line[|line| - 1]).value;
       && (extraChecks ==> Joinable(UpdateAreas(g, o), o, a, b))
       && HitCount(line, middle) == 1
       && if a == b then FreeSlots(g.nodes[a]) >= 2
          else FreeSlots(g.nodes[a]) >= 1 && FreeSlots(g.nodes[b]) >= 1
  }

  /** A move succeeds exactly when it is allowed. */
  lemma DoMoveSucceedsIff(g: Game, o: Oracle, line: Line, middle: Coord, extraChecks: bool)
    ensures DoMove(g, o, line, middle, extraChecks).Moved? <==> MoveAllowed(g, o, line, middle, extraChecks)
  {
    if |line| >= 1 && ResolveEnds(g.nodes, line).Ok? {
      var ends := ResolveEnds(g.nodes, line).value;
      ResolveAgreesWithFindNode(g.nodes, line);
      var g1 := g.(updated := false);
      RecomputeReadsStores(g1, g, o);
      var check := Recheck(g1, o, ends.0, ends.1, extraChecks);
      var split := Split(line, middle);
      AttachNeedsFreeSlots(check.0, ends.0, ends.1, split.1, split.2, middle);
    }
  }

  /** Which error a failed move reports: `InvalidLine` exactly for the empty
      line, `InvalidNode` exactly when an end does not hold exactly one node,
      `NotConnectable` only under the extra checks, `InvalidMiddle` with the
      number of segments that strictly contain the midpoint, which is not
      one. Staleness is never reported: the move does not ask for fresh
      areas. */
  lemma DoMoveErrorKinds(g: Game, o: Oracle, line: Line, middle: Coord, extraChecks: bool)
    ensures var r := DoMove(g, o, line, middle, extraChecks);
      r.Failed? ==>
        && (r.error == InvalidLine <==> |line| == 0)
        && (r.error == InvalidNode <==>
             |line| >= 1 && (MatchCount(g.nodes, line[0]) != 1 || MatchCount(g.nodes, line[|line| - 1]) != 1))
        && (r.error == NotConnectable ==> extraChecks)
        && (r.error.InvalidMiddle? ==> r.error == InvalidMiddle(HitCount(line, middle), middle) && HitCount(line, middle) != 1)
        && r.error != AreasOutdated && r.error != NoRequiredAreas
  {
  }

  /** A failed move leaves the lines, the nodes and the move counter as they
      were, provided every held connection points into the stores and every
      other slot is the default empty one. */
  lemma DoMoveFailureRestores(g: Game, o: Oracle, line: Line, middle: Coord, extraChecks: bool)
    requires Linked(g) && AllTidy(g)
    ensures var r := DoMove(g, o, line, middle, extraChecks);
      r.Failed? ==> r.game.nodes == g.nodes && r.game.lines == g.lines && r.game.moveCount == g.moveCount
  {
    if |line| >= 1 && ResolveEnds(g.nodes, line).Ok? {
      var ends := ResolveEnds(g.nodes, line).value;
      var g1 := g.(updated := false);
      var g2 := Recheck(g1, o, ends.0, ends.1, extraChecks).0;
      var split := Split(line, middle);
      AttachRollbackRestores(g2, ends.0, ends.1, split.1, split.2, middle);
    }
  }

  /** A successful move had a non-empty line whose midpoint lies strictly
      inside exactly one segment, and stores the two halves of the split
      after the existing lines (see `SplitReassembles` for their shape). */
  lemma DoMoveSplitsLine(g: Game, o: Oracle, line: Line, middle: Coord, extraChecks: bool)
    requires DoMove(g, o, line, middle, extraChecks).Moved?
    ensures |line| >= 1 && HitCount(line, middle) == 1
    ensures DoMove(g, o, line, middle, extraChecks).game.lines == g.lines + [Split(line, middle).1, Split(line, middle).2]
  {
  }

  /** A successful move appends the middle node joined to both end nodes,
      which hold the links back to it; no other node changes. */
  lemma DoMoveLinksEnds(g: Game, o: Oracle, line: Line, middle: Coord, extraChecks: bool)
    requires DoMove(g, o, line, middle, extraChecks).Moved?
    ensures |line| >= 1
    ensures FindNode(g.nodes, line[0]).Some? && FindNode(g.nodes, line[|line| - 1]).Some?
    ensures var r := DoMove(g, o, line, middle, extraChecks).game;
      var a := FindNode(g.nodes, line[0]).value;
      var b := FindNode(g.nodes, line[|line| - 1]).value;
      && r.nodes[|g.nodes|] == MiddleNode(middle, a, b, |g.lines|)
      && Holds(r.nodes[a], Connection(Some(|g.lines|), Some(|g.nodes|)))
      && Holds(r.nodes[b], Connection(Some(|g.lines| + 1), Some(|g.nodes|)))
      && (forall k :: 0 <= k < |g.nodes| && k != a && k != b ==> r.nodes[k] == g.nodes[k])
  {
    DoMoveIsAttach(g, o, line, middle, extraChecks);
    var ends := ResolveEnds(g.nodes, line).value;
    ResolveAgreesWithFindNode(g.nodes, line);
    var g2 := Recheck(g.(updated := false), o, ends.0, ends.1, extraChecks).0;
    AttachLinksBack(g2, ends.0, ends.1, Split(line, middle).1, Split(line, middle).2, middle);
  }

  /** A successful move is the insertion step applied to the resolved end
      nodes and the two halves of the line. */
  lemma DoMoveIsAttach(g: Game, o: Oracle, line: Line, middle: Coord, extraChecks: bool)
    requires DoMove(g, o, line, middle, extraChecks).Moved?
    ensures |line| >= 1 && ResolveEnds(g.nodes, line).Ok?
    ensures var ends := ResolveEnds(g.nodes, line).value;
      var g2 := Recheck(g.(updated := false), o, ends.0, ends.1, extraChecks).0;
      DoMove(g, o, line, middle, extraChecks) ==
        Finish(Attach(g2, ends.0, ends.1, Split(line, middle).1, Split(line, middle).2, middle), o)
  {
  }

  /** A successful move keeps a linked, tidy game so. */
  lemma DoMoveKeepsLinked(g: Game, o: Oracle, line: Line, middle: Coord, extraChecks: bool)
    requires Linked(g) && AllTidy(g)
    ensures var r := DoMove(g, o, line, middle, extraChecks);
      r.Moved? ==> Linked(r.game) && AllTidy(r.game)
  {
    if DoMove(g, o, line, middle, extraChecks).Moved? {
      DoMoveIsAttach(g, o, line, middle, extraChecks);
      var ends := ResolveEnds(g.nodes, line).value;
      var g2 := Recheck(g.(updated := false), o, ends.0, ends.1, extraChecks).0;
      AttachKeepsLinked(g2, ends.0, ends.1, Split(line, middle).1, Split(line, middle).2, middle);
    }
  }
}
