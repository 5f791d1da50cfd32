/** The point-in-area test of the A-Checker (`Game::isInArea`, game.cpp):
    even-odd ray casting toward negative x, where only vertical boundary
    segments strictly left of the query point can be crossed and a shared
    vertex is counted once through the half-open rule minY < y <= maxY. */
module AreaTest {
  import opened Structs

  /** The boundary segment a--b is crossed by the ray cast from `p` toward
      negative x. */
  predicate Crosses(a: Coord, b: Coord, p: Coord)
  {
    a.x == b.x && b.x < p.x && Min(a.y, b.y) < p.y <= Max(a.y, b.y)
  }

  /** Number of segments of `l` the ray from `p` crosses. */
  function LineCrossings(l: Line, p: Coord): nat
  {
    if |l| < 2 then 0
    else LineCrossings(l[..|l| - 1], p) + (if Crosses(l[|l| - 2], l[|l| - 1], p) then 1 else 0)
  }

  /** Number of boundary segments of the whole area the ray crosses. */
  function Crossings(area: Area, p: Coord): nat
  {
    if |area| == 0 then 0
    else Crossings(area[..|area| - 1], p) + LineCrossings(area[|area| - 1], p)
  }

  /** Membership by the even-odd rule. */
  predicate InArea(area: Area, p: Coord)
  {
    Crossings(area, p) % 2 == 1
  }

  /** `Game::isInArea`: walks every segment of every boundary line, counts
      the crossings and reports an odd count. */
  method IsInArea(target: Area, position: Coord) returns (inside: bool)
    ensures inside <==> Crossings(target, position) % 2 == 1
  {
    var lCount := 0;
    var i := 0;
    while i < |target|
      invariant 0 <= i <= |target|
      invariant lCount == Crossings(target[..i], position)
    {
      var lRef := target[i];
      var j := 1;
      ghost var before := lCount;
      while j < |lRef|
        invariant 1 <= j <= |lRef| || (|lRef| == 0 && j == 1)
        invariant lCount == before + LineCrossings(lRef[..Min(j, |lRef|)], position)
      {
        if lRef[j - 1].x == lRef[j].x && lRef[j].x < position.x {
          var minY := Min(lRef[j].y, lRef[j - 1].y);
          var maxY := Max(lRef[j].y, lRef[j - 1].y);
          if position.y <= maxY && position.y > minY {
            lCount := lCount + 1;
          }
        }
        assert lRef[..j + 1][..j] == lRef[..j];
        j := j + 1;
      }
      assert lRef[..Min(j, |lRef|)] == lRef;
      assert target[..i + 1][..i] == target[..i];
      i := i + 1;
    }
    assert target[..i] == target;
    inside := lCount % 2 == 1;
  }

  /** Extending a line by a segment the ray does not cross, a horizontal one
      in particular, leaves the count unchanged. */
  lemma AppendUncrossed(l: Line, c: Coord, p: Coord)
    requires |l| >= 1 && !Crosses(l[|l| - 1], c, p)
    ensures LineCrossings(l + [c], p) == LineCrossings(l, p)
  {
    assert (l + [c])[..|l|] == l;
  }

  /** Horizontal segments never count. */
  lemma HorizontalNeverCrossed(a: Coord, b: Coord, p: Coord)
    requires a.y == b.y
    ensures !Crosses(a, b, p)
  {
  }

  /** Counting from the front agrees with counting from the back. */
  lemma {:induction false} LineCrossingsCons(c: Coord, l: Line, p: Coord)
    requires |l| >= 1
    ensures LineCrossings([c] + l, p) == (if Crosses(c, l[0], p) then 1 else 0) + LineCrossings(l, p)
    decreases |l|
  {
    var cl := [c] + l;
    if |l| == 1 {
      assert cl[..|cl| - 1] == [c];
    } else {
      assert cl[..|cl| - 1] == [c] + l[..|l| - 1];
      LineCrossingsCons(c, l[..|l| - 1], p);
    }
  }

  function Reverse(l: Line): (r: Line)
    ensures |r| == |l|
    ensures forall i :: 0 <= i < |l| ==> r[i] == l[|l| - 1 - i]
  {
    if |l| == 0 then [] else [l[|l| - 1]] + Reverse(l[..|l| - 1])
  }

  /** The count does not depend on the direction a boundary line is walked,
      so either orientation of a traced face gives the same answer. */
  lemma {:induction false} ReverseKeepsCrossings(l: Line, p: Coord)
    ensures LineCrossings(Reverse(l), p) == LineCrossings(l, p)
    decreases |l|
  {
    if |l| >= 2 {
      var init := l[..|l| - 1];
      ReverseKeepsCrossings(init, p);
      assert Reverse(l) == [l[|l| - 1]] + Reverse(init);
      LineCrossingsCons(l[|l| - 1], Reverse(init), p);
      assert Reverse(init)[0] == l[|l| - 2];
    }
  }

  /** A point with no boundary vertex strictly to its left is outside. */
  lemma {:induction false} LeftOfBoundaryIsOutside(area: Area, p: Coord)
    requires forall i, j :: 0 <= i < |area| && 0 <= j < |area[i]| ==> area[i][j].x >= p.x
    ensures Crossings(area, p) == 0
    ensures !InArea(area, p)
    decreases |area|
  {
    if |area| > 0 {
      var init := area[..|area| - 1];
      assert forall i :: 0 <= i < |init| ==> init[i] == area[i];
      LeftOfBoundaryIsOutside(init, p);
      LineLeftOfPoint(area[|area| - 1], p);
    }
  }

  lemma {:induction false} LineLeftOfPoint(l: Line, p: Coord)
    requires forall j :: 0 <= j < |l| ==> l[j].x >= p.x
    ensures LineCrossings(l, p) == 0
    decreases |l|
  {
    if |l| >= 2 {
      LineLeftOfPoint(l[..|l| - 1], p);
    }
  }

  /** The closed square with corners (0,0), (0,10), (10,10), (10,0). */
  function Square(): Area
  {
    [[Coord(0, 0), Coord(0, 10), Coord(10, 10), Coord(10, 0), Coord(0, 0)]]
  }

  /** (5,5) lies inside the square and (15,5) outside it. */
  lemma SquareParity()
    ensures InArea(Square(), Coord(5, 5))
    ensures !InArea(Square(), Coord(15, 5))
  {
    var l := Square()[0];
    assert LineCrossings(l[..2], Coord(5, 5)) == 1;
    assert LineCrossings(l[..3], Coord(5, 5)) == 1 by { assert l[..3][..2] == l[..2]; }
    assert LineCrossings(l[..4], Coord(5, 5)) == 1 by { assert l[..4][..3] == l[..3]; }
    assert l[..5] == l;
    assert LineCrossings(l[..2], Coord(15, 5)) == 1;
    assert LineCrossings(l[..3], Coord(15, 5)) == 1 by { assert l[..3][..2] == l[..2]; }
    assert LineCrossings(l[..4], Coord(15, 5)) == 2 by { assert l[..4][..3] == l[..3]; }
  }
}
