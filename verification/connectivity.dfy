/** The connectivity oracle of the A-Checker (`Game::connectable` and
    `Game::gameEnded`, game.cpp): two nodes may still be joined when they
    share a region class, and a node may loop onto itself while its second
    and third slots are free. Queries refuse to answer while the areas are
    Stale. */
module Connectivity {
  import opened Structs
  import opened GameDefs
  import opened Nodes
  import opened Board
  import opened Classifier

  /** The answer of `connectable` once past the freshness check. */
  predicate Joinable(g: Game, o: Oracle, a: nat, b: nat)
    requires a < |g.nodes| && b < |g.nodes| && Classified(g, o) && g.updated
  {
    if a == b then
      !g.nodes[a].conns[1].Exists() && !g.nodes[a].conns[2].Exists()
    else if o.dead(g.nodes[a]) || o.dead(g.nodes[b]) then
      false
    else
      var ha := g.sides[a].value;
      var hb := g.sides[b].value;
      ha.side0 == hb.side0 || ha.side0 == hb.side1 || ha.side1 == hb.side0 || ha.side1 == hb.side1
  }

  /** `Game::connectable`: fails with `AreasOutdated` exactly while Stale. */
  function Connectable(g: Game, o: Oracle, a: nat, b: nat): (r: Result<bool>)
    requires a < |g.nodes| && b < |g.nodes| && Classified(g, o)
    ensures r.Err? <==> !g.updated
    ensures r.Err? ==> r.error == AreasOutdated
    ensures r.Ok? ==> r.value == Joinable(g, o, a, b)
  {
    if !g.updated then Err(AreasOutdated)
    else Ok(Joinable(g, o, a, b))
  }

  /** A node can be joined to itself exactly when slots 1 and 2 hold no
      connection; whether it is dead is not consulted. With packed slots
      this is "at most one connection held". */
  lemma SelfLoopRule(g: Game, o: Oracle, a: nat)
    requires a < |g.nodes| && Classified(g, o) && g.updated
    ensures Joinable(g, o, a, a) <==> !g.nodes[a].conns[1].Exists() && !g.nodes[a].conns[2].Exists()
    ensures Packed(g.nodes[a]) ==> (Joinable(g, o, a, a) <==> |Held(g.nodes[a].conns)| <= 1)
  {
    HeldOfThree(g.nodes[a].conns);
  }

  /** Distinct nodes cannot be joined when either of them is dead. */
  lemma DeadNeverJoins(g: Game, o: Oracle, a: nat, b: nat)
    requires a < |g.nodes| && b < |g.nodes| && Classified(g, o) && g.updated
    requires a != b && (o.dead(g.nodes[a]) || o.dead(g.nodes[b]))
    ensures !Joinable(g, o, a, b)
  {
  }

  /** The oracle does not depend on the order of its arguments. */
  lemma ConnectableSymmetric(g: Game, o: Oracle, a: nat, b: nat)
    requires a < |g.nodes| && b < |g.nodes| && Classified(g, o)
    ensures Connectable(g, o, a, b) == Connectable(g, o, b, a)
  {
  }

  /** Two region-class contents pairs share a class. */
  predicate ShareClass(p: (Areaset, Areaset), q: (Areaset, Areaset))
  {
    p.0 == q.0 || p.0 == q.1 || p.1 == q.0 || p.1 == q.1
  }

  /** After a recompute the identity test of `connectable` is a content
      test: distinct live nodes can be joined exactly when some side of one
      borders the same set of areas as some side of the other. */
  lemma JoinableByContent(g: Game, o: Oracle, a: nat, b: nat)
    requires Canonical(g, o)
    requires a < |g.nodes| && b < |g.nodes| && a != b
    requires !o.dead(g.nodes[a]) && !o.dead(g.nodes[b])
    ensures Classified(g, o)
    ensures Joinable(g, o, a, b) <==> ShareClass(SideSets(g.areas, g.nodes[a], o), SideSets(g.areas, g.nodes[b], o))
  {
    var ha := g.sides[a].value;
    var hb := g.sides[b].value;
    SameContentSameHandle(g.areasets, ha.side0, hb.side0);
    SameContentSameHandle(g.areasets, ha.side0, hb.side1);
    SameContentSameHandle(g.areasets, ha.side1, hb.side0);
    SameContentSameHandle(g.areasets, ha.side1, hb.side1);
  }

  /** No pair of nodes, a node with itself included, can be joined. */
  predicate NoMoveLeft(g: Game, o: Oracle)
    requires Classified(g, o) && g.updated
  {
    forall i, j :: 0 <= i <= j < |g.nodes| ==> !Joinable(g, o, i, j)
  }

  /** `Game::gameEnded`: asks `connectable` for every pair i <= j and stops
      at the first joinable one. With no node it answers true without
      asking, so only a non-empty Stale game raises `AreasOutdated`. */
  method GameEnded(g: Game, o: Oracle) returns (r: Result<bool>)
    requires Classified(g, o)
    ensures |g.nodes| == 0 ==> r == Ok(true)
    ensures |g.nodes| > 0 && !g.updated ==> r == Err(AreasOutdated)
    ensures g.updated ==> r.Ok? && (r.value <==> NoMoveLeft(g, o))
  {
    var n := |g.nodes|;
    var i := 0;
    while i < n
      invariant 0 <= i <= n
      invariant i > 0 ==> g.updated
      invariant g.updated ==> forall i', j' :: 0 <= i' < i && i' <= j' < n ==> !Joinable(g, o, i', j')
    {
      var j := i;
      while j < n
        invariant i <= j <= n
        invariant j > i ==> g.updated
        invariant g.updated ==> forall j' :: i <= j' < j ==> !Joinable(g, o, i, j')
      {
        var c := Connectable(g, o, i, j);
        if c.Err? {
          return Err(c.error);
        }
        if c.value {
          return Ok(false);
        }
        j := j + 1;
      }
      i := i + 1;
    }
    return Ok(true);
  }
}
