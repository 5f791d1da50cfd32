/** The computations of the computer player (`GameAI`, ai.cpp) that sit on
    top of the rule engine: the parity the player aims for, the count of
    node pairs that can no longer be joined, the midpoint it proposes for a
    line, and the bookkeeping of its first turn. */
module Ai {
  import opened Structs
  import opened GameDefs
  import opened Nodes
  import opened Board
  import opened Connectivity
  import opened Move

  /** `GameAI::requiredAreas`: whether the player wants an odd number of
      not-connectable pairs, from who moved first (`player`, the `aiFirst`
      flag of `aiTurn`, which is set when the opponent moved first) and the
      starting node count. The branches follow the
      source, with C++'s truncating remainder; a negative odd count matches
      no branch and reaches the final `throw`. */
  function RequiredAreas(player: bool, startingNodes: int): (r: Result<bool>)
    ensures r.Err? <==> startingNodes < 0 && startingNodes % 2 == 1
    ensures r.Err? ==> r.error == NoRequiredAreas
    ensures r.Ok? ==> r.value == ((startingNodes % 2 == 1) != player)
  {
    var rem := CppRem2(startingNodes);
    if !player && startingNodes == 1 then Ok(true)
    else if !player && rem == 0 then Ok(false)
    else if !player && rem == 1 then Ok(true)
    else if player && rem == 0 then Ok(true)
    else if player && rem == 1 then Ok(false)
    else Err(NoRequiredAreas)
  }

  /** The two players always want opposite parities. */
  lemma RequiredAreasOpposite(startingNodes: int)
    requires startingNodes >= 0
    ensures RequiredAreas(true, startingNodes).Ok? && RequiredAreas(false, startingNodes).Ok?
    ensures RequiredAreas(true, startingNodes).value != RequiredAreas(false, startingNodes).value
  {
  }

  /** Number of pairs `(i, j')` with `j <= j' < n` that cannot be joined. */
  function RowBlocked(g: Game, o: Oracle, i: nat, j: nat): nat
    requires i < |g.nodes| && j <= |g.nodes| && Classified(g, o) && g.updated
    decreases |g.nodes| - j
  {
    if j == |g.nodes| then 0
    else (if Joinable(g, o, i, j) then 0 else 1) + RowBlocked(g, o, i, j + 1)
  }

  /** Number of pairs `i' < j'` with `i <= i'` that cannot be joined. */
  function Blocked(g: Game, o: Oracle, i: nat): nat
    requires i <= |g.nodes| && Classified(g, o) && g.updated
    decreases |g.nodes| - i
  {
    if i == |g.nodes| then 0
    else RowBlocked(g, o, i, i + 1) + Blocked(g, o, i + 1)
  }

  /** Number of unordered pairs of `m` things. */
  function Pairs(m: nat): nat
  {
    if m == 0 then 0 else Pairs(m - 1) + (m - 1)
  }

  lemma {:induction false} PairsClosedForm(m: nat)
    ensures 2 * Pairs(m) == m * (m - 1)
  {
    if m > 0 {
      PairsClosedForm(m - 1);
    }
  }

  /** A row has at most one blocked pair per partner, and every partner is
      blocked exactly when the row reaches that bound. */
  lemma {:induction false} RowBlockedBound(g: Game, o: Oracle, i: nat, j: nat)
    requires i < |g.nodes| && j <= |g.nodes| && Classified(g, o) && g.updated
    ensures RowBlocked(g, o, i, j) <= |g.nodes| - j
    ensures RowBlocked(g, o, i, j) == |g.nodes| - j <==> forall k :: j <= k < |g.nodes| ==> !Joinable(g, o, i, k)
    decreases |g.nodes| - j
  {
    if j < |g.nodes| {
      RowBlockedBound(g, o, i, j + 1);
    }
  }

  /** At most every pair is blocked, and every pair is blocked exactly when
      the count reaches that bound. */
  lemma {:induction false} BlockedBound(g: Game, o: Oracle, i: nat)
    requires i <= |g.nodes| && Classified(g, o) && g.updated
    ensures Blocked(g, o, i) <= Pairs(|g.nodes| - i)
    ensures Blocked(g, o, i) == Pairs(|g.nodes| - i) <==>
      forall a, b :: i <= a < b < |g.nodes| ==> !Joinable(g, o, a, b)
    decreases |g.nodes| - i
  {
    if i < |g.nodes| {
      var n := |g.nodes|;
      BlockedBound(g, o, i + 1);
      RowBlockedBound(g, o, i, i + 1);
      assert Pairs(n - i) == Pairs(n - i - 1) + (n - i - 1);
      if forall a, b :: i <= a < b < n ==> !Joinable(g, o, a, b) {
        assert forall k :: i + 1 <= k < n ==> !Joinable(g, o, i, k);
      }
    }
  }

  /** `GameAI::notConnectableNodes`: counts the pairs `i < j` that
      `connectable` refuses. The first query raises `AreasOutdated` on a
      Stale game; with fewer than two nodes there is no query. */
  method NotConnectableNodes(g: Game, o: Oracle) returns (r: Result<nat>)
    requires Classified(g, o)
    ensures r.Err? <==> !g.updated && |g.nodes| >= 2
    ensures r.Err? ==> r.error == AreasOutdated
    ensures r.Ok? && g.updated ==> r.value == Blocked(g, o, 0)
    ensures r.Ok? ==> r.value <= Pairs(|g.nodes|)
    ensures |g.nodes| < 2 ==> r == Ok(0)
  {
    var n := |g.nodes|;
    var count: nat := 0;
    var i := 0;
    while i < n
      invariant 0 <= i <= n
      invariant !g.updated ==> count == 0 && (i > 0 ==> n < 2)
      invariant g.updated ==> count + Blocked(g, o, i) == Blocked(g, o, 0)
    {
      var j := i + 1;
      while j < n
        invariant i + 1 <= j <= n
        invariant !g.updated ==> count == 0 && j == i + 1
        invariant g.updated ==> count + RowBlocked(g, o, i, j) + Blocked(g, o, i + 1) == Blocked(g, o, 0)
      {
        var c := Connectable(g, o, i, j);
        if c.Err? {
          return Err(c.error);
        }
        if !c.value {
          count := count + 1;
        }
        j := j + 1;
      }
      i := i + 1;
    }
    if g.updated {
      BlockedBound(g, o, 0);
    }
    return Ok(count);
  }

  /** A game with no move left has every pair blocked, and every pair of
      distinct nodes is blocked exactly when the count is maximal. */
  lemma NoMoveLeftBlocksAll(g: Game, o: Oracle)
    requires Classified(g, o) && g.updated
    ensures NoMoveLeft(g, o) ==> Blocked(g, o, 0) == Pairs(|g.nodes|)
    ensures Blocked(g, o, 0) == Pairs(|g.nodes|) <==> forall a, b :: 0 <= a < b < |g.nodes| ==> !Joinable(g, o, a, b)
  {
    BlockedBound(g, o, 0);
  }

  /** `GameAI::midNode`: the point halfway along the segment that ends at
      vertex `|line| / 2`, each coordinate the sum of the two vertices'
      halved with C++'s truncating division. The source reads
      vertex `|line| / 2 - 1`, so a line needs two vertices. */
  function MidNode(line: Line): (m: Coord)
    requires |line| >= 2
    ensures var p := line[|line| / 2 - 1]; var q := line[|line| / 2];
      && Min(p.x, q.x) <= m.x <= Max(p.x, q.x)
      && Min(p.y, q.y) <= m.y <= Max(p.y, q.y)
      && (p.x == q.x ==> m.x == p.x)
      && (p.y == q.y ==> m.y == p.y)
    ensures var p := line[|line| / 2 - 1]; var q := line[|line| / 2];
      && (p.x + q.x >= 0 ==> 0 <= p.x + q.x - 2 * m.x <= 1)
      && (p.x + q.x < 0 ==> -1 <= p.x + q.x - 2 * m.x <= 0)
      && (p.y + q.y >= 0 ==> 0 <= p.y + q.y - 2 * m.y <= 1)
      && (p.y + q.y < 0 ==> -1 <= p.y + q.y - 2 * m.y <= 0)
  {
    var half := |line| / 2;
    Coord(CppHalf(line[half - 1].x + line[half].x), CppHalf(line[half - 1].y + line[half].y))
  }

  /** Halving with truncation lands strictly between two integers at least
      two apart. */
  lemma HalfStrictlyBetween(a: int, b: int)
    requires a + 2 <= b
    ensures a < CppHalf(a + b) < b
    ensures a < CppHalf(b + a) < b
  {
  }

  /** On a horizontal or vertical middle segment at least two units long,
      the midpoint lies strictly inside that segment, so `doMove` can split
      the line there. */
  lemma MidNodeIsHit(line: Line)
    requires |line| >= 2
    requires var p := line[|line| / 2 - 1]; var q := line[|line| / 2];
      (p.x == q.x && Abs(p.y - q.y) >= 2) || (p.y == q.y && Abs(p.x - q.x) >= 2)
    ensures Hit(line, |line| / 2, MidNode(line))
  {
    var p := line[|line| / 2 - 1];
    var q := line[|line| / 2];
    if p.x == q.x {
      if p.y < q.y { HalfStrictlyBetween(p.y, q.y); } else { HalfStrictlyBetween(q.y, p.y); }
    } else {
      if p.x < q.x { HalfStrictlyBetween(p.x, q.x); } else { HalfStrictlyBetween(q.x, p.x); }
    }
  }

  /** A unit-length middle segment has no interior point: the midpoint is
      one of its ends and the split finds no segment there. */
  lemma UnitSegmentMidNode()
    ensures MidNode([Coord(0, 0), Coord(0, 1)]) == Coord(0, 0)
    ensures HitCount([Coord(0, 0), Coord(0, 1)], Coord(0, 0)) == 0
  {
    assert HitsBelow([Coord(0, 0), Coord(0, 1)], Coord(0, 0), 2) == {};
  }

  /** The first-turn bookkeeping of `GameAI::aiTurn`. While `startingNodes`
      is still -1, an odd move count means the opponent has made one move
      (which added one node), so the computer is second. */
  function FirstTurnSetup(startingNodes: int, aiFirst: bool, moves: int, nodeCount: nat): (r: (int, bool))
    ensures startingNodes != -1 ==> r == (startingNodes, aiFirst)
    ensures startingNodes == -1 ==> (r.1 <==> moves % 2 == 1)
    ensures startingNodes == -1 ==> r.0 == nodeCount - (if moves % 2 == 1 then 1 else 0)
  {
    if startingNodes == -1 then
      if CppRem2(moves) != 0 then (nodeCount - 1, true)
      else (nodeCount, false)
    else (startingNodes, aiFirst)
  }

  /** Called before its first move, on a game that began with `s` nodes and
      has seen `m` moves (zero or one, each adding a node), the setup
      recovers `s` and whether the opponent moved first; a second call
      changes nothing. */
  lemma FirstTurnRecoversStart(s: nat, m: nat, aiFirst: bool)
    requires m <= 1
    ensures FirstTurnSetup(-1, aiFirst, m, s + m) == (s, m == 1)
    ensures FirstTurnSetup(s, m == 1, m, s + m) == (s, m == 1)
  {
  }

  /** With at least one node on the board the first-turn setup never leaves
      `requiredAreas` without an answer. */
  lemma FirstTurnHasTarget(startingNodes: int, aiFirst: bool, moves: int, nodeCount: nat)
    requires startingNodes == -1 && nodeCount >= 1
    ensures var s := FirstTurnSetup(startingNodes, aiFirst, moves, nodeCount);
      RequiredAreas(s.1, s.0).Ok?
  {
  }

  /** With no node and an odd move count the setup records -1 nodes, and the
      target parity is then undefined. */
  lemma EmptyBoardOddMovesHasNoTarget()
    ensures FirstTurnSetup(-1, false, 1, 0) == (-1, true)
    ensures RequiredAreas(true, -1) == Err(NoRequiredAreas)
  {
  }
}
