/** Value types shared by the whole rule engine (headers/structs.h): board
    coordinates, polylines, and the connection record a node keeps per slot.
    Pointers of the original become indices into the game's node and line
    stores, so a "null" pointer is `None`. */
module Structs {

  datatype Option<+T> = None | Some(value: T)

  /** A board position. Components are unbounded integers; the source's
      32-bit `int` never overflows in the model. */
  datatype Coord = Coord(x: int, y: int)

  /** The default-constructed coordinate. */
  function DefaultCoord(): (c: Coord)
    ensures c.x == 0 && c.y == 0
  {
    Coord(0, 0)
  }

  /** Coordinates compare by value, component by component. */
  lemma CoordEquality(a: Coord, b: Coord)
    ensures a == b <==> a.x == b.x && a.y == b.y
  {
  }

  /** A polyline: the ordered vertices of an orthogonal path. */
  type Line = seq<Coord>

  /** A closed boundary cycle, reduced to the lines of its half-edges, which
      is all the point-in-area test reads of it. */
  type Area = seq<Line>

  /** One connection slot of a node: the line it runs along and the node at
      its far end, both as optional indices. */
  datatype Connection = Connection(line: Option<nat>, dest: Option<nat>)
  {
    /** A slot holds a connection only when both halves are present. */
    predicate Exists()
    {
      line.Some? && dest.Some?
    }
  }

  /** The default-constructed (empty) slot. */
  const NoConnection: Connection := Connection(None, None)

  /** The default constructor yields a slot that holds no connection. */
  function DefaultConnection(): (c: Connection)
    ensures !c.Exists()
    ensures c.line.None? && c.dest.None?
  {
    NoConnection
  }

  /** A connection exists exactly when neither half is missing. */
  lemma ExistsNeedsBothHalves(c: Connection)
    ensures c.Exists() <==> c.line != None && c.dest != None
  {
  }

  function Min(a: int, b: int): int { if a < b then a else b }
  function Max(a: int, b: int): int { if a < b then b else a }
  function Abs(a: int): nat { if a < 0 then -a else a }

  /** `a / 2` with C++ semantics: the quotient is truncated toward zero,
      so the remainder is at most one in size and never has the opposite
      sign of `a`, which determines `h`. */
  function CppHalf(a: int): (h: int)
    ensures -1 <= a - 2 * h <= 1
    ensures a >= 0 ==> 0 <= a - 2 * h
    ensures a < 0 ==> a - 2 * h <= 0
  {
    if a >= 0 then a / 2 else -((-a) / 2)
  }

  /** `a % 2` with C++ semantics: the remainder takes the sign of `a`. */
  function CppRem2(a: int): (r: int)
    ensures r == 0 <==> a % 2 == 0
    ensures r == 1 <==> a > 0 && a % 2 == 1
    ensures r == -1 <==> a < 0 && a % 2 == 1
  {
    a - 2 * CppHalf(a)
  }
}
