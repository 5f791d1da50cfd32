/** Declarations of headers/game.h that are not the game state itself: the
    content-equality search used to share region classes, and the error
    kinds the engine raises. Exceptions become the `Err` arm of `Result`. */
module GameDefs {
  import opened Structs

  /** The failures the engine signals. `NoFreeSlot` stands for whatever
      `Node::addConnection` throws when every slot is taken, and
      `NoRequiredAreas` for the string thrown at the end of
      `GameAI::requiredAreas`. */
  datatype Error =
    | AreasOutdated
    | InvalidNode
    | InvalidLine
    | InvalidMiddle(count: int, middle: Coord)
    | NotConnectable
    | NoFreeSlot
    | NoRequiredAreas

  datatype Result<+T> = Ok(value: T) | Err(error: Error)

  /** `find_if` with the `PointerFind` predicate: the first position of the
      store whose element equals `item` by content. */
  function FindByContent<T(==)>(item: T, store: seq<T>): (r: Option<nat>)
    ensures r.None? <==> item !in store
    ensures r.Some? ==> r.value < |store| && store[r.value] == item
    ensures r.Some? ==> item !in store[..r.value]
  {
    if |store| == 0 then None
    else if store[0] == item then Some(0)
    else
      match FindByContent(item, store[1..])
      case None => None
      case Some(k) =>
        assert store[1..][..k] == store[1..k + 1];
        Some(k + 1)
  }

  /** The diagnostic of a misplaced midpoint keeps both the number of
      segments that strictly contained it and the midpoint itself. */
  lemma InvalidMiddleCarriesItsData(count: int, middle: Coord)
    ensures InvalidMiddle(count, middle).count == count
    ensures InvalidMiddle(count, middle).middle == middle
    ensures InvalidMiddle(count, middle) != InvalidMiddle(count + 1, middle)
  {
  }
}
