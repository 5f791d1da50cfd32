/** The state of a `Game` (headers/game.h, game.cpp): the node and line
    stores, the derived areas and region classes, the freshness flag and the
    move counter, with the operations that change the stores directly.
    Stores are sequences addressed by index; a pointer comparison of the
    original is an index comparison here. */
module Board {
  import opened Structs
  import opened GameDefs
  import opened Nodes

  /** A region class: the areas bordering one side of a node, as ascending
      area indices. */
  type Areaset = seq<nat>

  /** The two region-class handles of a live node, indices into
      `Game.areasets`. */
  datatype Handles = Handles(side0: nat, side1: nat)

  /** `updated` is the freshness flag (Fresh when true). `sides[i]` holds the
      handles of node `i` as assigned by the last recompute; `None` marks a
      node the recompute skipped because it was dead. */
  datatype Game = Game(
    updated: bool,
    moveCount: int,
    nodes: seq<Node>,
    lines: seq<Line>,
    areas: seq<Area>,
    areasets: seq<Areaset>,
    sides: seq<Option<Handles>>)

  /** `Game::Game()`: empty stores, no move made, Fresh. */
  function NewGame(): (g: Game)
    ensures g.updated && g.moveCount == 0
    ensures g.nodes == [] && g.lines == [] && g.areas == [] && g.areasets == []
  {
    Game(true, 0, [], [], [], [], [])
  }

  /** Every held connection names a stored line and a stored node. */
  predicate Linked(g: Game)
  {
    forall i, s :: 0 <= i < |g.nodes| && 0 <= s < 3 && g.nodes[i].conns[s].Exists() ==>
      g.nodes[i].conns[s].line.value < |g.lines| && g.nodes[i].conns[s].dest.value < |g.nodes|
  }

  /** Every node's slots are either held connections or default empty ones. */
  predicate AllTidy(g: Game)
  {
    forall i :: 0 <= i < |g.nodes| ==> Tidy(g.nodes[i])
  }

  /** While Fresh, every node has a side entry, exactly the live nodes carry
      handles, and every handle names a registered region class. */
  predicate Classified(g: Game, o: Oracle)
  {
    g.updated ==>
      && |g.sides| == |g.nodes|
      && (forall i :: 0 <= i < |g.nodes| ==> (g.sides[i].None? <==> o.dead(g.nodes[i])))
      && (forall i :: 0 <= i < |g.sides| && g.sides[i].Some? ==>
            g.sides[i].value.side0 < |g.areasets| && g.sides[i].value.side1 < |g.areasets|)
  }

  /** `Game::insertNode`: append a node with the given connections in its
      first two slots (both empty unless given) and mark the areas Stale. */
  function InsertNode(g: Game, coord: Coord, con1: Connection := NoConnection, con2: Connection := NoConnection): (r: Game)
    ensures !r.updated
    ensures |r.nodes| == |g.nodes| + 1 && r.nodes[..|g.nodes|] == g.nodes
    ensures r.nodes[|g.nodes|] == MakeNode(coord, con1, con2)
    ensures r.lines == g.lines && r.moveCount == g.moveCount
    ensures r.areas == g.areas && r.areasets == g.areasets && r.sides == g.sides
  {
    g.(updated := false, nodes := g.nodes + [MakeNode(coord, con1, con2)])
  }

  /** With the default arguments the inserted node holds no connection. */
  lemma InsertNodeDefaults(g: Game, coord: Coord)
    ensures var n := InsertNode(g, coord).nodes[|g.nodes|];
      n.loci == coord && forall s :: 0 <= s < 3 ==> !n.conns[s].Exists()
  {
  }

  /** `Game::insertLine`: append a copy of the line and mark the areas Stale. */
  function InsertLine(g: Game, line: Line): (r: Game)
    ensures !r.updated
    ensures r.lines == g.lines + [line]
    ensures r.nodes == g.nodes && r.moveCount == g.moveCount
    ensures r.areas == g.areas && r.areasets == g.areasets && r.sides == g.sides
  {
    g.(updated := false, lines := g.lines + [line])
  }

  /** Number of nodes among `nodes` that lie exactly at `c`. */
  function MatchCount(nodes: seq<Node>, c: Coord): nat
  {
    if |nodes| == 0 then 0
    else MatchCount(nodes[..|nodes| - 1], c) + (if nodes[|nodes| - 1].loci == c then 1 else 0)
  }

  /** `Game::findNode`: the first node exactly at `point`, if any. */
  function FindNode(nodes: seq<Node>, point: Coord): (r: Option<nat>)
    ensures r.None? <==> forall i :: 0 <= i < |nodes| ==> nodes[i].loci != point
    ensures r.Some? ==> r.value < |nodes| && nodes[r.value].loci == point
    ensures r.Some? ==> forall i :: 0 <= i < r.value ==> nodes[i].loci != point
  {
    if |nodes| == 0 then None
    else if nodes[0].loci == point then Some(0)
    else
      match FindNode(nodes[1..], point)
      case None => None
      case Some(k) => Some(k + 1)
  }

  /** No match at all is the same as a zero count. */
  lemma {:induction false} MatchCountZero(nodes: seq<Node>, c: Coord)
    ensures MatchCount(nodes, c) == 0 <==> forall i :: 0 <= i < |nodes| ==> nodes[i].loci != c
    decreases |nodes|
  {
    if |nodes| > 0 {
      var init := nodes[..|nodes| - 1];
      MatchCountZero(init, c);
      assert forall i :: 0 <= i < |init| ==> init[i] == nodes[i];
    }
  }

  /** Every connection `n` holds leads to a node below `bound`. */
  predicate LinksWithin(n: Node, bound: nat)
  {
    forall s :: 0 <= s < 3 && n.conns[s].Exists() ==> n.conns[s].dest.value < bound
  }

  /** Back-link removal of `Game::deleteLastNode`, over slots `i..2` of the
      last node as they stand when each is visited. */
  function ClearBackLinks(ns: seq<Node>, i: nat): (r: seq<Node>)
    requires |ns| > 0 && i <= 3
    requires LinksWithin(ns[|ns| - 1], |ns|)
    ensures |r| == |ns|
    decreases 3 - i
  {
    if i == 3 then ns
    else
      var last := |ns| - 1;
      var conn := ns[last].conns[i];
      if conn.Exists() then
        var other := conn.dest.value;
        ClearBackLinks(ns[other := ClearLink(ns[other], last)], i + 1)
      else
        ClearBackLinks(ns, i + 1)
  }

  /** `Game::deleteLastNode` on the node store: clear, in each node the last
      node is connected to, the first slot pointing back at it, then drop
      the last node. */
  function DeleteLastNode(nodes: seq<Node>): (r: seq<Node>)
    requires |nodes| > 0
    requires LinksWithin(nodes[|nodes| - 1], |nodes|)
    ensures |r| == |nodes| - 1
    ensures forall k :: 0 <= k < |r| ==> r[k].loci == nodes[k].loci
    ensures forall k, s :: 0 <= k < |r| && 0 <= s < 3 ==>
      r[k].conns[s] == nodes[k].conns[s] || (nodes[k].conns[s].dest == Some(|r|) && r[k].conns[s] == NoConnection)
    ensures forall k :: 0 <= k < |r| ==>
      BackLinks(r[k], |r|) == Less(BackLinks(nodes[k], |r|), OutLinks(nodes[|r|], k, 0))
    ensures forall k :: 0 <= k < |r| && BackLinks(nodes[k], |r|) <= OutLinks(nodes[|r|], k, 0) ==> NoLinkTo(r[k], |r|)
  {
    ClearBackLinksOnlyTouchLinks(nodes, 0);
    ClearBackLinksCountAll(nodes);
    ClearBackLinks(nodes, 0)[..|nodes| - 1]
  }

  /** `a - b`, but never below zero. */
  function Less(a: nat, b: nat): nat
  {
    if a <= b then 0 else a - b
  }

  /** How many of the slots `i..2` of `n` hold a connection to `target`. */
  function OutLinks(n: Node, target: nat, i: nat): nat
    decreases 3 - i
  {
    if i >= 3 then 0
    else (if n.conns[i].Exists() && n.conns[i].dest == Some(target) then 1 else 0) + OutLinks(n, target, i + 1)
  }

  /** Emptying slots that point at `last` does not change the links to any
      other node. */
  lemma {:induction false} OutLinksKeptByClearing(n: Node, m: Node, last: nat, k: nat, i: nat)
    requires k != last
    requires forall s :: 0 <= s < 3 ==>
      m.conns[s] == n.conns[s] || (n.conns[s].dest == Some(last) && m.conns[s] == NoConnection)
    ensures OutLinks(m, k, i) == OutLinks(n, k, i)
    decreases 3 - i
  {
    if i < 3 {
      OutLinksKeptByClearing(n, m, last, k, i + 1);
    }
  }

  /** Each connection of the last node from slot `i` on that leads to node
      `k` removes one back-link of `k`, as long as `k` has one left. */
  lemma {:induction false} ClearBackLinksCount(ns: seq<Node>, i: nat, k: nat)
    requires |ns| > 0 && i <= 3
    requires LinksWithin(ns[|ns| - 1], |ns|)
    requires k < |ns| - 1
    ensures BackLinks(ClearBackLinks(ns, i)[k], |ns| - 1) ==
      Less(BackLinks(ns[k], |ns| - 1), OutLinks(ns[|ns| - 1], k, i))
    decreases 3 - i
  {
    if i < 3 {
      var last := |ns| - 1;
      var conn := ns[last].conns[i];
      if conn.Exists() {
        var other := conn.dest.value;
        var ns' := ns[other := ClearLink(ns[other], last)];
        assert ClearBackLinks(ns, i) == ClearBackLinks(ns', i + 1);
        ClearBackLinksCount(ns', i + 1, k);
        if other == last {
          OutLinksKeptByClearing(ns[last], ns'[last], last, k, i + 1);
        } else {
          assert ns'[last] == ns[last];
        }
        if other == k {
          assert OutLinks(ns[last], k, i) == 1 + OutLinks(ns[last], k, i + 1);
        } else {
          assert ns'[k] == ns[k];
          assert OutLinks(ns[last], k, i) == OutLinks(ns[last], k, i + 1);
        }
      } else {
        assert ClearBackLinks(ns, i) == ClearBackLinks(ns, i + 1);
        ClearBackLinksCount(ns, i + 1, k);
      }
    }
  }

  lemma ClearBackLinksCountAll(ns: seq<Node>)
    requires |ns| > 0
    requires LinksWithin(ns[|ns| - 1], |ns|)
    ensures forall k :: 0 <= k < |ns| - 1 ==>
      BackLinks(ClearBackLinks(ns, 0)[k], |ns| - 1) == Less(BackLinks(ns[k], |ns| - 1), OutLinks(ns[|ns| - 1], k, 0))
  {
    forall k | 0 <= k < |ns| - 1
      ensures BackLinks(ClearBackLinks(ns, 0)[k], |ns| - 1) == Less(BackLinks(ns[k], |ns| - 1), OutLinks(ns[|ns| - 1], k, 0))
    {
      ClearBackLinksCount(ns, 0, k);
    }
  }

  /** Back-link removal only empties slots that pointed at the last node. */
  lemma {:induction false} ClearBackLinksOnlyTouchLinks(ns: seq<Node>, i: nat)
    requires |ns| > 0 && i <= 3
    requires LinksWithin(ns[|ns| - 1], |ns|)
    ensures forall k :: 0 <= k < |ns| ==> ClearBackLinks(ns, i)[k].loci == ns[k].loci
    ensures forall k, s :: 0 <= k < |ns| && 0 <= s < 3 ==>
      ClearBackLinks(ns, i)[k].conns[s] == ns[k].conns[s] ||
      (ns[k].conns[s].dest == Some(|ns| - 1) && ClearBackLinks(ns, i)[k].conns[s] == NoConnection)
    decreases 3 - i
  {
    if i < 3 {
      var last := |ns| - 1;
      var conn := ns[last].conns[i];
      if conn.Exists() {
        var other := conn.dest.value;
        var ns' := ns[other := ClearLink(ns[other], last)];
        assert forall s :: 0 <= s < 3 ==>
          ns'[other].conns[s] == ns[other].conns[s] ||
          (ns[other].conns[s].dest == Some(last) && ns'[other].conns[s] == NoConnection);
        ClearBackLinksOnlyTouchLinks(ns', i + 1);
      } else {
        ClearBackLinksOnlyTouchLinks(ns, i + 1);
      }
    }
  }

  /** Deleting a last node that nobody links to leaves the other nodes as
      they were. */
  lemma DeleteUnlinkedNode(nodes: seq<Node>, n: Node)
    requires LinksWithin(n, |nodes|)
    requires forall k :: 0 <= k < |nodes| ==> NoLinkTo(nodes[k], |nodes|)
    ensures DeleteLastNode(nodes + [n]) == nodes
  {
    var r := DeleteLastNode(nodes + [n]);
    assert forall k :: 0 <= k < |r| ==> r[k] == nodes[k];
  }

  /** `Game(const Game&)` and `operator=`: a structural copy that is Stale
      and holds no areas or region classes. Connections are re-added to
      fresh nodes, so they end up packed into the leading slots. The copy
      constructor leaves the move counter uninitialised and assignment keeps
      the target's counter; `leftover` is that value. */
  function Copy(g: Game, leftover: int): (r: Game)
    ensures !r.updated && r.moveCount == leftover
    ensures r.lines == g.lines && |r.nodes| == |g.nodes|
    ensures r.areas == [] && r.areasets == [] && r.sides == []
    ensures forall i :: 0 <= i < |g.nodes| ==> r.nodes[i] == CopyNode(g.nodes[i])
  {
    Game(false, leftover, seq(|g.nodes|, i requires 0 <= i < |g.nodes| => CopyNode(g.nodes[i])), g.lines, [], [], [])
  }

  /** Every node of a copy sits where the original does and holds the same
      connections in the same order, and a copy of a copy is the copy. */
  lemma CopyPreservesStructure(g: Game, leftover: int)
    ensures forall i :: 0 <= i < |g.nodes| ==>
      && Copy(g, leftover).nodes[i].loci == g.nodes[i].loci
      && Held(Copy(g, leftover).nodes[i].conns) == Held(g.nodes[i].conns)
      && Packed(Copy(g, leftover).nodes[i])
    ensures Copy(Copy(g, leftover), leftover) == Copy(g, leftover)
  {
    forall i | 0 <= i < |g.nodes|
      ensures Held(Copy(g, leftover).nodes[i].conns) == Held(g.nodes[i].conns)
      ensures Packed(Copy(g, leftover).nodes[i])
    {
      CopyNodeKeepsConnections(g.nodes[i]);
    }
    var c := Copy(g, leftover);
    forall i | 0 <= i < |c.nodes|
      ensures CopyNode(c.nodes[i]) == c.nodes[i]
    {
      CopyKeepsPackedNode(c.nodes[i]);
    }
  }
}
