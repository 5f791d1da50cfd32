/** The integer geometry of the drawing front end (`GameGUI`,
    gamegui.cpp): snapping the cursor to a horizontal or vertical step,
    restricting the first step out of a node, and deciding whether a new
    axis-aligned segment may be drawn without crossing or running along an
    existing line or passing over a node. The line being drawn, the stored
    lines, the nodes and the node radius are parameters. */
module Gui {
  import opened Structs
  import opened Nodes

  /** How far the first step out of a node is pushed in a forced direction
      (`buffer` in `firststraighten`). */
  const Buffer: int := 10

  /** `GameGUI::vertical`: `point` lies in the upper or lower quarter-plane
      around `last`, bounded by the two diagonals. */
  predicate Vertical(last: Coord, point: Coord)
  {
    || (point.y <= last.y + (last.x - point.x) && point.y <= last.y - (last.x - point.x))
    || (point.y >= last.y + (last.x - point.x) && point.y >= last.y - (last.x - point.x))
  }

  /** The quarter-plane test is a comparison of distances along the axes. */
  lemma VerticalByDistance(last: Coord, point: Coord)
    ensures Vertical(last, point) <==> Abs(point.y - last.y) >= Abs(point.x - last.x)
  {
  }

  /** `a` and `b` lie strictly on the same side of `l`. */
  predicate SameSide(a: int, b: int, l: int)
  {
    (a < l && b < l) || (a > l && b > l)
  }

  /** `GameGUI::straighten`: snap `point` to the row or column of `last`,
      along the dominant direction, unless that would walk back toward the
      vertex before `last` in the line being drawn, in which case the other
      direction is taken. */
  function Straighten(currentLine: Line, last: Coord, point: Coord): (r: Coord)
    ensures r.x == last.x || r.y == last.y
    ensures r.x == point.x || r.y == point.y
    ensures |currentLine| <= 1 ==> r == if Vertical(last, point) then Coord(last.x, point.y) else Coord(point.x, last.y)
  {
    if Vertical(last, point) then
      if |currentLine| > 1 &&
         ((point.y < last.y && currentLine[|currentLine| - 2].y < last.y) ||
          (point.y > last.y && currentLine[|currentLine| - 2].y > last.y))
      then Coord(point.x, last.y)
      else Coord(last.x, point.y)
    else
      if |currentLine| > 1 &&
         ((point.x < last.x && currentLine[|currentLine| - 2].x < last.x) ||
          (point.x > last.x && currentLine[|currentLine| - 2].x > last.x))
      then Coord(last.x, point.y)
      else Coord(point.x, last.y)
  }

  /** The snapped step never runs back along the previous segment: after a
      vertical segment it does not continue on that column toward the
      vertex before `last`, and after a horizontal one not on that row. */
  lemma StraightenNeverDoublesBack(currentLine: Line, last: Coord, point: Coord)
    requires |currentLine| > 1
    ensures var prev := currentLine[|currentLine| - 2]; var r := Straighten(currentLine, last, point);
      && (prev.x == last.x ==> !(r.x == last.x && SameSide(r.y, prev.y, last.y)))
      && (prev.y == last.y ==> !(r.y == last.y && SameSide(r.x, prev.x, last.x)))
  {
  }

  /** `GameGUI::firststraighten`: the first step out of `node`, given which
      of its four directions are still open. With both horizontal or both
      vertical directions closed the step is forced onto the other axis;
      with a single direction left on an axis the step goes that way, at
      least `Buffer` away from the node; with everything open it is
      `straighten`. */
  function FirstStraighten(currentLine: Line, node: Coord, location: Coord, up: bool, down: bool, right: bool, left: bool): (r: Coord)
    ensures r.x == node.x || r.y == node.y
    ensures !right && !left ==> r == Coord(node.x, location.y)
    ensures (right || left) && !up && !down ==> r == Coord(location.x, node.y)
    ensures (right || left) && up && !down ==> r.x == node.x && r.y <= node.y - Buffer
    ensures (right || left) && !up && down ==> r.x == node.x && r.y >= node.y + Buffer
    ensures up && down && left && !right ==> r.y == node.y && r.x <= node.x - Buffer
    ensures up && down && right && !left ==> r.y == node.y && r.x >= node.x + Buffer
    ensures up && down && right && left ==> r == Straighten(currentLine, node, location)
  {
    if !right && !left then Coord(node.x, location.y)
    else if !up && !down then Coord(location.x, node.y)
    else if up && !down then
      if location.y < node.y then Coord(node.x, location.y - Buffer) else Coord(node.x, node.y - Buffer)
    else if !up && down then
      if location.y > node.y then Coord(node.x, location.y + Buffer) else Coord(node.x, node.y + Buffer)
    else if !right && left then
      if location.x < node.x then Coord(location.x - Buffer, node.y) else Coord(node.x - Buffer, node.y)
    else if right && !left then
      if location.x > node.x then Coord(location.x + Buffer, node.y) else Coord(node.x + Buffer, node.y)
    else Straighten(currentLine, node, location)
  }

  /** Beyond the buffer, a forced step follows the cursor along its axis. */
  lemma FirstStraightenFollowsCursor(currentLine: Line, node: Coord, location: Coord, right: bool, left: bool)
    requires right || left
    ensures location.y < node.y ==> FirstStraighten(currentLine, node, location, true, false, right, left) == Coord(node.x, location.y - Buffer)
    ensures location.y > node.y ==> FirstStraighten(currentLine, node, location, false, true, right, left) == Coord(node.x, location.y + Buffer)
  {
  }

  /** The crossing test of `validSingleLine` between a new segment and an
      existing one across it, as the source writes it. Along the existing
      segment's axis it runs from `a2` to `a3` at height `b2`; the new one
      sits at `pos` on that axis and runs from `s` to `e` across it. A
      `node` end makes the new segment's range open. */
  predicate CrossesAsWritten(a2: int, a3: int, b2: int, pos: int, s: int, e: int, node: bool)
  {
    if a2 > a3 then
      pos > a3 && pos < a2 && RangeAsWritten(b2, s, e, node)
    else
      pos < a3 && pos > a2 && RangeAsWritten(b2, s, e, node)
  }

  predicate RangeAsWritten(b2: int, s: int, e: int, node: bool)
  {
    if s > e then
      if !node then b2 <= s && b2 >= e else b2 < s && b2 > e
    else
      if !node then b2 >= s && b2 <= e else b2 > s && b2 < e
  }

  /** A crossing is reported exactly when the new segment's position lies
      strictly inside the existing segment's span and the existing segment's
      height lies in the new segment's span, closed without a node end and
      open with one. */
  lemma CrossesCharacterized(a2: int, a3: int, b2: int, pos: int, s: int, e: int, node: bool)
    requires a2 != a3
    ensures CrossesAsWritten(a2, a3, b2, pos, s, e, node) <==>
      && Min(a2, a3) < pos < Max(a2, a3)
      && if node then Min(s, e) < b2 < Max(s, e) else Min(s, e) <= b2 <= Max(s, e)
  {
  }

  /** The overlap test of `validSingleLine` for an existing segment from `b2`
      to `b3` on the same row or column as the new one from `s` to `e`, as
      the source writes it. */
  predicate CollinearAsWritten(b2: int, b3: int, s: int, e: int)
  {
    if b2 > b3 then
      || (s > b3 && s < b2) || (e > b3 && e < b2)
      || (if s < e then s < b3 && e > b3 else s > b2 && e < b2)
    else
      || (s > b2 && s < b3) || (e > b2 && e < b3)
      || (if s < e then s < b2 && e > b2 else s > b3 && e < b3)
  }

  /** `x` lies strictly between `a` and `b`, in either order. */
  predicate StrictlyInside(x: int, a: int, b: int)
  {
    Min(a, b) < x < Max(a, b)
  }

  /** The overlap test as intended: the two collinear spans share more than
      one point, or an end of either lies strictly inside the other. */
  predicate CollinearConflict(b2: int, b3: int, s: int, e: int)
  {
    || Max(Min(b2, b3), Min(s, e)) < Min(Max(b2, b3), Max(s, e))
    || StrictlyInside(s, b2, b3) || StrictlyInside(e, b2, b3)
    || StrictlyInside(b2, s, e) || StrictlyInside(b3, s, e)
  }

  /** As written, the overlap test depends on the direction of the new
      segment: over the stored span 0..10, the new span 0..20 passes while
      20..0 is refused, and an exact duplicate 0..10 passes. */
  lemma CollinearAsWrittenIsDirectional()
    ensures !CollinearAsWritten(0, 10, 0, 20)
    ensures CollinearAsWritten(0, 10, 20, 0)
    ensures !CollinearAsWritten(0, 10, 0, 10) && !CollinearAsWritten(0, 10, 10, 0)
  {
  }

  /** The intended test refuses every positive-length overlap, does not
      depend on the direction of either segment, and refuses everything the
      written test refuses. */
  lemma CollinearConflictIsSound(b2: int, b3: int, s: int, e: int)
    ensures CollinearConflict(b2, b3, s, e) == CollinearConflict(b2, b3, e, s)
    ensures CollinearConflict(b2, b3, s, e) == CollinearConflict(b3, b2, s, e)
    ensures Max(Min(b2, b3), Min(s, e)) < Min(Max(b2, b3), Max(s, e)) ==> CollinearConflict(b2, b3, s, e)
    ensures CollinearAsWritten(b2, b3, s, e) ==> CollinearConflict(b2, b3, s, e)
    ensures CollinearConflict(0, 10, 0, 20) && CollinearConflict(0, 10, 0, 10)
  {
  }

  /** Spans that only touch at an end do not conflict: a segment may be
      continued straight on from the end of another. */
  lemma TouchingSpansAllowed(lo: int, mid: int, hi: int)
    requires lo < mid < hi
    ensures !CollinearConflict(lo, mid, mid, hi) && !CollinearConflict(mid, lo, hi, mid)
    ensures !CollinearAsWritten(lo, mid, mid, hi)
  {
  }

  /** The per-segment test of `validSingleLine` as written: whether the
      existing segment `p`--`q` stops the new segment `start`--`end`. A new
      segment with equal x is vertical, any other one horizontal. */
  predicate BlocksAsWritten(p: Coord, q: Coord, start: Coord, end: Coord, node: bool)
  {
    if end.x == start.x then
      if p.x != q.x then CrossesAsWritten(p.x, q.x, p.y, start.x, start.y, end.y, node)
      else start.x == p.x && CollinearAsWritten(p.y, q.y, start.y, end.y)
    else
      if p.y != q.y then CrossesAsWritten(p.y, q.y, p.x, start.y, start.x, end.x, node)
      else start.y == p.y && CollinearAsWritten(p.x, q.x, start.x, end.x)
  }

  /** The per-segment test with the intended overlap test. */
  predicate Blocks(p: Coord, q: Coord, start: Coord, end: Coord, node: bool)
  {
    if end.x == start.x then
      if p.x != q.x then CrossesAsWritten(p.x, q.x, p.y, start.x, start.y, end.y, node)
      else start.x == p.x && CollinearConflict(p.y, q.y, start.y, end.y)
    else
      if p.y != q.y then CrossesAsWritten(p.y, q.y, p.x, start.y, start.x, end.x, node)
      else start.y == p.y && CollinearConflict(p.x, q.x, start.x, end.x)
  }

  /** Whatever the written test refuses the intended one refuses too. */
  lemma BlocksRefinesAsWritten(p: Coord, q: Coord, start: Coord, end: Coord, node: bool)
    ensures BlocksAsWritten(p, q, start, end, node) ==> Blocks(p, q, start, end, node)
  {
    if end.x == start.x && p.x == q.x {
      CollinearConflictIsSound(p.y, q.y, start.y, end.y);
    } else if end.x != start.x && p.y == q.y {
      CollinearConflictIsSound(p.x, q.x, start.x, end.x);
    }
  }

  /** `validSingleLine` as written: none of segments `1..lineSize-1` of
      `line` stops the new segment. */
  predicate SingleLineAsWritten(line: Line, start: Coord, end: Coord, lineSize: int, node: bool)
    requires lineSize <= |line|
  {
    forall j :: 1 <= j < lineSize ==> !BlocksAsWritten(line[j - 1], line[j], start, end, node)
  }

  /** The stored line (0,0)-(0,10) does not stop a new segment from (0,0) to
      (0,20) as written, but does stop the same segment drawn from (0,20) to
      (0,0); the intended test stops both. */
  lemma ValidSingleLineDirectionCounterexample()
    ensures SingleLineAsWritten([Coord(0, 0), Coord(0, 10)], Coord(0, 0), Coord(0, 20), 2, false)
    ensures !SingleLineAsWritten([Coord(0, 0), Coord(0, 10)], Coord(0, 20), Coord(0, 0), 2, false)
    ensures Blocks(Coord(0, 0), Coord(0, 10), Coord(0, 0), Coord(0, 20), false)
    ensures Blocks(Coord(0, 0), Coord(0, 10), Coord(0, 20), Coord(0, 0), false)
  {
    var line := [Coord(0, 0), Coord(0, 10)];
    assert BlocksAsWritten(line[0], line[1], Coord(0, 20), Coord(0, 0), false);
  }

  /** `GameGUI::validSingleLine` with the intended overlap test: walks
      segments `1..lineSize-1` of `line` and refuses at the first one that
      stops the new segment. */
  method ValidSingleLine(line: Line, start: Coord, end: Coord, lineSize: int, node: bool) returns (valid: bool)
    requires lineSize <= |line|
    ensures valid <==> forall j :: 1 <= j < lineSize ==> !Blocks(line[j - 1], line[j], start, end, node)
    ensures lineSize <= 1 ==> valid
  {
    var j := 1;
    while j < lineSize
      invariant 1 <= j <= Max(lineSize, 1)
      invariant forall k :: 1 <= k < j ==> !Blocks(line[k - 1], line[k], start, end, node)
    {
      if Blocks(line[j - 1], line[j], start, end, node) {
        return false;
      }
      j := j + 1;
    }
    return true;
  }

  /** `end` lies strictly inside the square of half-width `radius` around
      the node. */
  predicate NearEnd(n: Node, end: Coord, radius: int)
  {
    && n.loci.x - radius < end.x < n.loci.x + radius
    && n.loci.y - radius < end.y < n.loci.y + radius
  }

  /** The new segment passes strictly over the node: the node lies within
      `radius` of the segment's column (or row) and strictly between its
      ends along it. */
  predicate PassesOver(n: Node, start: Coord, end: Coord, radius: int)
  {
    if start.x == end.x then
      start.x - radius <= n.loci.x <= start.x + radius && StrictlyInside(n.loci.y, start.y, end.y)
    else
      start.y - radius <= n.loci.y <= start.y + radius && StrictlyInside(n.loci.x, start.x, end.x)
  }

  /** What `validLine` accepts: no segment of the line being drawn (all but
      its last vertex) or of a stored line stops the new segment, the end is
      not next to a node unless it is a node, and the segment passes over no
      node. */
  predicate LineClear(currentLine: Line, lines: seq<Line>, nodes: seq<Node>, start: Coord, end: Coord, node: bool, radius: int)
  {
    && (forall j :: 1 <= j < |currentLine| - 1 ==> !Blocks(currentLine[j - 1], currentLine[j], start, end, node))
    && (forall i, j :: 0 <= i < |lines| && 1 <= j < |lines[i]| ==> !Blocks(lines[i][j - 1], lines[i][j], start, end, node))
    && (forall i :: 0 <= i < |nodes| ==> node || !NearEnd(nodes[i], end, radius))
    && (forall i :: 0 <= i < |nodes| ==> !PassesOver(nodes[i], start, end, radius))
  }

  /** `GameGUI::validLine`, with the line being drawn, the stored lines, the
      nodes and the node radius (5 unless configured) as parameters. */
  method ValidLine(currentLine: Line, lines: seq<Line>, nodes: seq<Node>, start: Coord, end: Coord, node: bool, radius: int)
    returns (valid: bool)
    ensures valid <==> LineClear(currentLine, lines, nodes, start, end, node, radius)
  {
    var own := ValidSingleLine(currentLine, start, end, |currentLine| - 1, node);
    if !own {
      return false;
    }
    var i := 0;
    while i < |lines|
      invariant 0 <= i <= |lines|
      invariant forall i', j :: 0 <= i' < i && 1 <= j < |lines[i']| ==> !Blocks(lines[i'][j - 1], lines[i'][j], start, end, node)
    {
      var ok := ValidSingleLine(lines[i], start, end, |lines[i]|, node);
      if !ok {
        return false;
      }
      i := i + 1;
    }
    i := 0;
    while i < |nodes|
      invariant 0 <= i <= |nodes|
      invariant forall k :: 0 <= k < i ==> node || !NearEnd(nodes[k], end, radius)
    {
      var c := nodes[i].loci;
      if (end.x > c.x - radius && end.x < c.x + radius) && (end.y > c.y - radius && end.y < c.y + radius) {
        if !node {
          return false;
        }
      }
      i := i + 1;
    }
    i := 0;
    while i < |nodes|
      invariant 0 <= i <= |nodes|
      invariant forall k :: 0 <= k < i ==> !PassesOver(nodes[k], start, end, radius)
    {
      var c := nodes[i].loci;
      if start.x == end.x {
        if start.x - radius <= c.x && c.x <= start.x + radius {
          if start.y < end.y {
            if c.y > start.y && c.y < end.y {
              return false;
            }
          } else if c.y < start.y && c.y > end.y {
            return false;
          }
        }
      } else if start.y - radius <= c.y && c.y <= start.y + radius {
        if start.x < end.x {
          if c.x > start.x && c.x < end.x {
            return false;
          }
        } else if c.x < start.x && c.x > end.x {
          return false;
        }
      }
      i := i + 1;
    }
    return true;
  }

  /** An accepted vertical segment never runs along a stored vertical
      segment on its column for more than one point, whichever way either
      was drawn. */
  lemma AcceptedNeverOverlaps(currentLine: Line, lines: seq<Line>, nodes: seq<Node>, start: Coord, end: Coord,
                              node: bool, radius: int, i: nat, j: nat)
    requires LineClear(currentLine, lines, nodes, start, end, node, radius)
    requires start.x == end.x && i < |lines| && 1 <= j < |lines[i]|
    requires lines[i][j - 1].x == start.x && lines[i][j].x == start.x
    ensures var b2 := lines[i][j - 1].y; var b3 := lines[i][j].y;
      Max(Min(b2, b3), Min(start.y, end.y)) >= Min(Max(b2, b3), Max(start.y, end.y))
  {
    assert !Blocks(lines[i][j - 1], lines[i][j], start, end, node);
  }
}
