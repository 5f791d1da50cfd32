/** The part of the `Node` class (node.h / node.cpp) the engine relies on.
    Node's own source is not part of this model, so its behaviour is an
    explicit assumption: a node is a location plus exactly three connection
    slots; `dead`, `vertical` and the face tracer `walk` are uninterpreted
    functions supplied by an `Oracle`; `addConnection` fills the first slot
    that holds no connection and fails when none is left. */
module Nodes {
  import opened Structs
  import opened GameDefs

  /** Exactly three connection slots. */
  type Slots = s: seq<Connection> | |s| == 3 witness [NoConnection, NoConnection, NoConnection]

  datatype Node = Node(loci: Coord, conns: Slots)

  /** `new Node(coord, con1, con2)`: the two given connections in slots 0 and
      1, slot 2 empty. */
  function MakeNode(loci: Coord, con1: Connection, con2: Connection): (n: Node)
    ensures n.loci == loci
    ensures n.conns[0] == con1 && n.conns[1] == con2 && !n.conns[2].Exists()
  {
    Node(loci, [con1, con2, NoConnection])
  }

  /** The node-level behaviour the engine consumes but does not define:
      whether a node can take no further connection, whether its two first
      connections leave it vertically, and the areas traced by walking the
      current graph (`Node::walk` over every node). */
  datatype Oracle = Oracle(
    dead: Node -> bool,
    vertical: Node -> bool,
    walk: (seq<Node>, seq<Line>) -> seq<Area>)

  /** The first slot that holds no connection. */
  function FirstFree(conns: Slots): (k: Option<nat>)
    ensures k.None? <==> forall s :: 0 <= s < 3 ==> conns[s].Exists()
    ensures k.Some? ==> k.value < 3 && !conns[k.value].Exists()
    ensures k.Some? ==> forall s :: 0 <= s < k.value ==> conns[s].Exists()
  {
    if !conns[0].Exists() then Some(0)
    else if !conns[1].Exists() then Some(1)
    else if !conns[2].Exists() then Some(2)
    else None
  }

  /** `Node::addConnection` as assumed: store `c` in the first free slot. */
  function AddConnection(n: Node, c: Connection): (r: Result<Node>)
    ensures r.Err? <==> forall s :: 0 <= s < 3 ==> n.conns[s].Exists()
    ensures r.Err? ==> r.error == NoFreeSlot
    ensures r.Ok? ==> r.value.loci == n.loci
    ensures r.Ok? ==> exists s :: 0 <= s < 3 && !n.conns[s].Exists() && r.value.conns == n.conns[s := c]
  {
    match FirstFree(n.conns)
    case None => Err(NoFreeSlot)
    case Some(k) => Ok(n.(conns := n.conns[k := c]))
  }

  /** No slot of `n` points at node `target`. */
  predicate NoLinkTo(n: Node, target: nat)
  {
    forall s :: 0 <= s < 3 ==> n.conns[s].dest != Some(target)
  }

  /** How many slots of `n` point at node `target`. */
  function BackLinks(n: Node, target: nat): nat
  {
    (if n.conns[0].dest == Some(target) then 1 else 0)
      + (if n.conns[1].dest == Some(target) then 1 else 0)
      + (if n.conns[2].dest == Some(target) then 1 else 0)
  }

  /** Every slot is either a full connection or the default empty one. */
  predicate Tidy(n: Node)
  {
    forall s :: 0 <= s < 3 ==> n.conns[s].Exists() || n.conns[s] == NoConnection
  }

  /** The inner loop of `Game::deleteLastNode`: reset the first slot whose
      destination is `target` to an empty connection. */
  function ClearLink(n: Node, target: nat): (r: Node)
    ensures r.loci == n.loci
    ensures NoLinkTo(n, target) ==> r == n
    ensures forall s :: 0 <= s < 3 ==> r.conns[s] == n.conns[s] || r.conns[s] == NoConnection
    ensures !NoLinkTo(n, target) ==>
      exists s :: && 0 <= s < 3 && n.conns[s].dest == Some(target)
                  && (forall t :: 0 <= t < s ==> n.conns[t].dest != Some(target))
                  && r.conns == n.conns[s := NoConnection]
    ensures BackLinks(r, target) == if BackLinks(n, target) == 0 then 0 else BackLinks(n, target) - 1
  {
    if n.conns[0].dest == Some(target) then n.(conns := n.conns[0 := NoConnection])
    else if n.conns[1].dest == Some(target) then n.(conns := n.conns[1 := NoConnection])
    else if n.conns[2].dest == Some(target) then n.(conns := n.conns[2 := NoConnection])
    else n
  }

  /** Adding a link to a fresh node and clearing it again restores the node
      exactly: the slot that `addConnection` took was the default empty one,
      and it is the only slot that names the new node. */
  lemma ClearUndoesAdd(n: Node, line: nat, target: nat)
    requires Tidy(n) && NoLinkTo(n, target)
    requires exists s :: 0 <= s < 3 && !n.conns[s].Exists()
    ensures AddConnection(n, Connection(Some(line), Some(target))).Ok?
    ensures ClearLink(AddConnection(n, Connection(Some(line), Some(target))).value, target) == n
  {
    var k := FirstFree(n.conns).value;
    var m := AddConnection(n, Connection(Some(line), Some(target))).value;
    assert m.conns == n.conns[k := Connection(Some(line), Some(target))];
    assert n.conns[k] == NoConnection;
    assert m.conns[k := NoConnection] == n.conns;
  }

  /** The connections a node holds, in slot order. */
  function Held(s: seq<Connection>): (h: seq<Connection>)
    ensures |h| <= |s|
    ensures forall i :: 0 <= i < |h| ==> h[i].Exists()
  {
    if |s| == 0 then []
    else (if s[0].Exists() then [s[0]] else []) + Held(s[1..])
  }

  /** The held connections occupy the leading slots and the rest are the
      default empty connection. */
  predicate Packed(n: Node)
  {
    && Tidy(n)
    && forall i, j :: 0 <= i < j < 3 && n.conns[j].Exists() ==> n.conns[i].Exists()
  }

  function EmptySlots(): Slots
  {
    [NoConnection, NoConnection, NoConnection]
  }

  /** Add `c` through `addConnection` when it exists (one step of the slot
      loop in `Game::copy`). */
  function ReAdd(n: Node, c: Connection): Node
  {
    if !c.Exists() then n
    else
      match AddConnection(n, c)
      case Ok(m) => m
      case Err(_) => n
  }

  /** The node `Game::copy` builds: a fresh node at the same place, given
      each held connection of the original in slot order. */
  function CopyNode(n: Node): (r: Node)
    ensures r.loci == n.loci
  {
    var c := n.conns;
    ReAdd(ReAdd(ReAdd(Node(n.loci, EmptySlots()), c[0]), c[1]), c[2])
  }

  /** The copy holds the same connections in the same order, packed into
      the leading slots. */
  lemma CopyNodeKeepsConnections(n: Node)
    ensures Packed(CopyNode(n))
    ensures Held(CopyNode(n).conns) == Held(n.conns)
  {
    var c := n.conns;
    var h := HeldOne(c[0]) + HeldOne(c[1]) + HeldOne(c[2]);
    CopyNodeShape(n);
    HeldOfThree(c);
    PackedPrefix(CopyNode(n), h);
  }

  /** The slots of a copy: the held connections in order, then empty ones. */
  lemma CopyNodeShape(n: Node)
    ensures var h := HeldOne(n.conns[0]) + HeldOne(n.conns[1]) + HeldOne(n.conns[2]);
      && |h| <= 3
      && (forall i :: 0 <= i < |h| ==> h[i].Exists())
      && CopyNode(n).conns == h + EmptySlots()[|h|..]
  {
    var c := n.conns;
    var h0: seq<Connection> := [];
    var r0 := Node(n.loci, EmptySlots());
    assert r0.conns == h0 + EmptySlots()[|h0|..];
    ReAddAppends(r0, h0, c[0]);
    var r1 := ReAdd(r0, c[0]);
    var h1 := HeldOne(c[0]);
    assert h0 + HeldOne(c[0]) == h1;
    ReAddAppends(r1, h1, c[1]);
    var r2 := ReAdd(r1, c[1]);
    var h2 := h1 + HeldOne(c[1]);
    ReAddAppends(r2, h2, c[2]);
    assert CopyNode(n) == ReAdd(r2, c[2]);
  }

  /** A node whose slots are held connections followed by empty ones is
      packed and holds exactly those connections. */
  lemma PackedPrefix(n: Node, h: seq<Connection>)
    requires |h| <= 3
    requires forall i :: 0 <= i < |h| ==> h[i].Exists()
    requires n.conns == h + EmptySlots()[|h|..]
    ensures Packed(n)
    ensures Held(n.conns) == h
  {
    HeldOfThree(n.conns);
    if |h| == 0 {
    } else if |h| == 1 {
      assert n.conns == [h[0], NoConnection, NoConnection];
    } else if |h| == 2 {
      assert n.conns == [h[0], h[1], NoConnection];
    } else {
      assert n.conns == h;
    }
  }

  /** Re-adding to a node whose held connections `h` are packed appends the
      connection (when it exists) right after them. */
  lemma ReAddAppends(n: Node, h: seq<Connection>, c: Connection)
    requires |h| < 3
    requires forall i :: 0 <= i < |h| ==> h[i].Exists()
    requires n.conns == h + EmptySlots()[|h|..]
    ensures ReAdd(n, c).loci == n.loci
    ensures |h + HeldOne(c)| <= 3
    ensures ReAdd(n, c).conns == (h + HeldOne(c)) + EmptySlots()[|h + HeldOne(c)|..]
    ensures forall i :: 0 <= i < |h + HeldOne(c)| ==> (h + HeldOne(c))[i].Exists()
  {
    if c.Exists() {
      assert n.conns[|h|] == NoConnection;
      assert forall s :: 0 <= s < |h| ==> n.conns[s] == h[s];
      assert FirstFree(n.conns) == Some(|h|);
      assert n.conns[|h| := c] == (h + [c]) + EmptySlots()[|h| + 1..];
    }
  }

  function HeldOne(c: Connection): seq<Connection>
  {
    if c.Exists() then [c] else []
  }

  lemma HeldOfThree(s: Slots)
    ensures Held(s) == HeldOne(s[0]) + HeldOne(s[1]) + HeldOne(s[2])
  {
    assert Held(s) == HeldOne(s[0]) + Held(s[1..]);
    assert Held(s[1..]) == HeldOne(s[1]) + Held(s[2..]);
    assert Held(s[2..]) == HeldOne(s[2]) + Held(s[3..]);
    assert s[3..] == [];
  }

  /** Copying leaves a node whose slots were already packed unchanged. */
  lemma CopyKeepsPackedNode(n: Node)
    requires Packed(n)
    ensures CopyNode(n) == n
  {
  }
}
