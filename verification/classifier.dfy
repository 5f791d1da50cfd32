/** The region classifier of `Game::updateAreas` (game.cpp): discard the old
    areas and region classes, take the freshly traced areas, and give every
    live node two region-class handles, one per side, sharing one class per
    distinct sorted content. Face tracing itself (`Node::walk`) is the
    oracle's `walk`. */
module Classifier {
  import opened Structs
  import opened GameDefs
  import opened Nodes
  import opened AreaTest
  import opened Board

  /** The region class the recompute registers first (`defaultAreaset`):
      the empty class, shared by every side that borders no area. */
  const DefaultAreaset: Areaset := []

  predicate Ascending(s: seq<nat>)
  {
    forall i, j :: 0 <= i < j < |s| ==> s[i] < s[j]
  }

  /** No two registered region classes have the same content. */
  predicate Distinct(sets: seq<Areaset>)
  {
    forall i, j :: 0 <= i < j < |sets| ==> sets[i] != sets[j]
  }

  /** The sorted list of areas whose inside contains `p`. */
  function AreasContaining(areas: seq<Area>, p: Coord): (s: Areaset)
    ensures Ascending(s)
    ensures forall k: nat :: k in s <==> k < |areas| && InArea(areas[k], p)
  {
    if |areas| == 0 then []
    else
      var s0 := AreasContaining(areas[..|areas| - 1], p);
      assert forall k: nat :: k < |areas| - 1 ==> areas[..|areas| - 1][k] == areas[k];
      assert forall i :: 0 <= i < |s0| ==> s0[i] in s0;
      assert forall i :: 0 <= i < |s0| ==> s0[i] < |areas| - 1;
      if InArea(areas[|areas| - 1], p) then s0 + [|areas| - 1] else s0
  }

  /** The two points sampled for a node. A node holding a second connection
      sits on a border: it is sampled one unit to either side across its
      orientation (x-1 / x+1 when vertical, y-1 / y+1 otherwise). Any other
      node is sampled at its own place for both sides. */
  function Probes(n: Node, o: Oracle): (r: (Coord, Coord))
    ensures !n.conns[1].Exists() ==> r.0 == n.loci && r.1 == n.loci
    ensures n.conns[1].Exists() ==> r.0 != r.1
    ensures n.conns[1].Exists() ==> Abs(r.0.x - n.loci.x) + Abs(r.0.y - n.loci.y) == 1
    ensures n.conns[1].Exists() ==> Abs(r.1.x - n.loci.x) + Abs(r.1.y - n.loci.y) == 1
    ensures n.conns[1].Exists() ==> r.0.x + r.1.x == 2 * n.loci.x && r.0.y + r.1.y == 2 * n.loci.y
    ensures n.conns[1].Exists() ==> r.0.x <= r.1.x && r.0.y <= r.1.y
    ensures n.conns[1].Exists() ==> (r.0.y == n.loci.y <==> o.vertical(n))
  {
    var c := n.loci;
    if n.conns[1].Exists() then
      if o.vertical(n) then (Coord(c.x - 1, c.y), Coord(c.x + 1, c.y))
      else (Coord(c.x, c.y - 1), Coord(c.x, c.y + 1))
    else (c, c)
  }

  /** The content of a node's two region classes. */
  function SideSets(areas: seq<Area>, n: Node, o: Oracle): (Areaset, Areaset)
  {
    var p := Probes(n, o);
    (AreasContaining(areas, p.0), AreasContaining(areas, p.1))
  }

  /** A node with at most one connection has the same content on both
      sides. */
  lemma UnorientedNodeHasOneClass(areas: seq<Area>, n: Node, o: Oracle)
    requires !n.conns[1].Exists()
    ensures SideSets(areas, n, o).0 == SideSets(areas, n, o).1
    ensures forall k: nat :: k in SideSets(areas, n, o).0 <==> k < |areas| && InArea(areas[k], n.loci)
  {
  }

  /** Look the class up by content and reuse it, or register it at the
      end. */
  function Register(sets: seq<Areaset>, s: Areaset): (r: (seq<Areaset>, nat))
    ensures r.1 < |r.0| && r.0[r.1] == s
    ensures s in sets ==> r.0 == sets
    ensures s !in sets ==> r.0 == sets + [s] && r.1 == |sets|
    ensures Distinct(sets) ==> Distinct(r.0)
  {
    match FindByContent(s, sets)
    case Some(k) => (sets, k)
    case None => (sets + [s], |sets|)
  }

  /** Whatever the recompute guarantees about a prefix of the nodes: the
      registered classes start with the default one and are pairwise
      different, every processed live node has handles to classes of the
      right content, dead ones have none, and every class but the default
      one is some processed node's. */
  predicate ClassesFor(nodes: seq<Node>, o: Oracle, areas: seq<Area>, n: nat, sets: seq<Areaset>, sides: seq<Option<Handles>>)
    requires n <= |nodes|
  {
    && |sets| >= 1 && sets[0] == DefaultAreaset && Distinct(sets)
    && |sides| == n
    && (forall i :: 0 <= i < n ==> (sides[i].None? <==> o.dead(nodes[i])))
    && (forall i :: 0 <= i < n && sides[i].Some? ==>
          && sides[i].value.side0 < |sets| && sides[i].value.side1 < |sets|
          && sets[sides[i].value.side0] == SideSets(areas, nodes[i], o).0
          && sets[sides[i].value.side1] == SideSets(areas, nodes[i], o).1)
    && (forall k: nat :: 1 <= k < |sets| ==> ClassUsed(sides, k))
  }

  predicate UsesClass(h: Option<Handles>, k: nat)
  {
    h.Some? && (h.value.side0 == k || h.value.side1 == k)
  }

  /** Some node holds a handle to class `k`. */
  predicate ClassUsed(sides: seq<Option<Handles>>, k: nat)
  {
    exists i :: 0 <= i < |sides| && UsesClass(sides[i], k)
  }

  /** The per-node loop of `Game::updateAreas` over the first `n` nodes. */
  function Classify(nodes: seq<Node>, o: Oracle, areas: seq<Area>, n: nat): (r: (seq<Areaset>, seq<Option<Handles>>))
    requires n <= |nodes|
    ensures ClassesFor(nodes, o, areas, n, r.0, r.1)
  {
    if n == 0 then ([DefaultAreaset], [])
    else
      var prev := Classify(nodes, o, areas, n - 1);
      ClassifyNode(nodes, o, areas, n - 1, prev.0, prev.1)
  }

  /** One iteration: skip node `i` when dead, otherwise register the
      contents of its two sides, first side first, and record the handles. */
  function ClassifyNode(nodes: seq<Node>, o: Oracle, areas: seq<Area>, i: nat,
                        sets: seq<Areaset>, sides: seq<Option<Handles>>): (r: (seq<Areaset>, seq<Option<Handles>>))
    requires i < |nodes| && ClassesFor(nodes, o, areas, i, sets, sides)
    ensures ClassesFor(nodes, o, areas, i + 1, r.0, r.1)
  {
    if o.dead(nodes[i]) then
      SkipKeepsClasses(nodes, o, areas, i, sets, sides);
      (sets, sides + [None])
    else
      var s := SideSets(areas, nodes[i], o);
      var a := Register(sets, s.0);
      var b := Register(a.0, s.1);
      RegisterKeepsClasses(nodes, o, areas, i, sets, sides);
      (b.0, sides + [Some(Handles(a.1, b.1))])
  }

  lemma SkipKeepsClasses(nodes: seq<Node>, o: Oracle, areas: seq<Area>, i: nat,
                         sets: seq<Areaset>, sides: seq<Option<Handles>>)
    requires i < |nodes| && ClassesFor(nodes, o, areas, i, sets, sides) && o.dead(nodes[i])
    ensures ClassesFor(nodes, o, areas, i + 1, sets, sides + [None])
  {
    var sides' := sides + [None];
    forall k: nat | 1 <= k < |sets|
      ensures ClassUsed(sides', k)
    {
      assert ClassUsed(sides, k);
      var j :| 0 <= j < |sides| && UsesClass(sides[j], k);
      assert sides'[j] == sides[j];
    }
    assert forall j :: 0 <= j < i ==> sides'[j] == sides[j];
  }

  lemma RegisterKeepsClasses(nodes: seq<Node>, o: Oracle, areas: seq<Area>, i: nat,
                             sets: seq<Areaset>, sides: seq<Option<Handles>>)
    requires i < |nodes| && ClassesFor(nodes, o, areas, i, sets, sides) && !o.dead(nodes[i])
    ensures var s := SideSets(areas, nodes[i], o);
      var a := Register(sets, s.0);
      var b := Register(a.0, s.1);
      ClassesFor(nodes, o, areas, i + 1, b.0, sides + [Some(Handles(a.1, b.1))])
  {
    var s := SideSets(areas, nodes[i], o);
    var a := Register(sets, s.0);
    var b := Register(a.0, s.1);
    var sides' := sides + [Some(Handles(a.1, b.1))];
    assert forall j :: 0 <= j < i ==> sides'[j] == sides[j];
    assert b.0[..|sets|] == sets;
    assert b.0[a.1] == s.0;
    forall k: nat | 1 <= k < |b.0|
      ensures ClassUsed(sides', k)
    {
      if k < |sets| {
        assert ClassUsed(sides, k);
        var j :| 0 <= j < |sides| && UsesClass(sides[j], k);
        assert sides'[j] == sides[j];
      } else {
        assert k == a.1 || k == b.1;
        assert UsesClass(sides'[i], k);
      }
    }
  }

  /** Everything a Fresh game built by the recompute satisfies. */
  predicate Canonical(g: Game, o: Oracle)
  {
    && g.updated
    && |g.nodes| == |g.sides|
    && ClassesFor(g.nodes, o, g.areas, |g.nodes|, g.areasets, g.sides)
  }

  /** `Game::updateAreas`. */
  function UpdateAreas(g: Game, o: Oracle): (r: Game)
    ensures r.updated
    ensures r.nodes == g.nodes && r.lines == g.lines && r.moveCount == g.moveCount
    ensures r.areas == o.walk(g.nodes, g.lines)
    ensures |r.areasets| >= 1 && r.areasets[0] == DefaultAreaset && Distinct(r.areasets)
    ensures Classified(r, o) && Canonical(r, o)
  {
    var areas := o.walk(g.nodes, g.lines);
    var c := Classify(g.nodes, o, areas, |g.nodes|);
    g.(updated := true, areas := areas, areasets := c.0, sides := c.1)
  }

  /** Handles of the same class are the same handle: classes are shared. */
  lemma SameContentSameHandle(sets: seq<Areaset>, h: nat, k: nat)
    requires Distinct(sets) && h < |sets| && k < |sets|
    ensures sets[h] == sets[k] <==> h == k
  {
    if h < k {
      assert sets[h] != sets[k];
    } else if k < h {
      assert sets[k] != sets[h];
    }
  }

  /** After a recompute, a live node whose second slot is empty has one
      handle for both sides, and both handles of every live node name the
      classes of the areas around it. */
  lemma RecomputeAssignsSides(g: Game, o: Oracle, i: nat)
    requires i < |g.nodes| && !o.dead(g.nodes[i])
    ensures var r := UpdateAreas(g, o);
      && r.sides[i].Some?
      && r.areasets[r.sides[i].value.side0] == SideSets(r.areas, g.nodes[i], o).0
      && r.areasets[r.sides[i].value.side1] == SideSets(r.areas, g.nodes[i], o).1
      && (!g.nodes[i].conns[1].Exists() ==> r.sides[i].value.side0 == r.sides[i].value.side1)
  {
    var r := UpdateAreas(g, o);
    assert r.sides[i].Some?;
    var h := r.sides[i].value;
    if !g.nodes[i].conns[1].Exists() {
      UnorientedNodeHasOneClass(r.areas, g.nodes[i], o);
      SameContentSameHandle(r.areasets, h.side0, h.side1);
    }
  }

  /** Recomputing twice is recomputing once. */
  lemma RecomputeIdempotent(g: Game, o: Oracle)
    ensures UpdateAreas(UpdateAreas(g, o), o) == UpdateAreas(g, o)
  {
  }

  /** The recompute reads only the stores and the move counter: the old
      areas, region classes and freshness flag are discarded. */
  lemma RecomputeReadsStores(g: Game, h: Game, o: Oracle)
    requires g.nodes == h.nodes && g.lines == h.lines && g.moveCount == h.moveCount
    ensures UpdateAreas(g, o) == UpdateAreas(h, o)
  {
  }
}
