/** `System.Collections.Generic.List<T>`, as far as the core uses a caller's list: read, append, overwrite, clear. */
module Lists {

  class List<T> {
    var Items: seq<T>

    constructor()
      ensures Items == []
    {
      Items := [];
    }

    function Count(): nat
      reads this
    {
      |Items|
    }

    /** `Add(value)`: appends at the end. */
    method Add(value: T)
      modifies this
      ensures Items == old(Items) + [value]
    {
      Items := Items + [value];
    }

    /** `Clear()`: empties the list. */
    method Clear()
      modifies this
      ensures Items == []
    {
      Items := [];
    }

    /** The indexer's setter; an index outside the list is the caller's error. */
    method Set(index: int, value: T)
      requires 0 <= index < |Items|
      modifies this
      ensures Items == old(Items)[index := value]
    {
      Items := Items[index := value];
    }
  }
}
