/** One character of lazy lookahead. */
module Latches {
  import opened Bytes
  import opened Ascii
  import opened Numbers

  class Latch {
    // what reader_ has not delivered yet
    var reader: bytes
    var current: byte
    var loaded: bool
    // the input from the character under the cursor on
    ghost var rest: bytes

    ghost predicate Valid()
      reads this
    {
      if loaded then current == Head(rest) && reader == Tail(rest) else reader == rest
    }

    constructor (input: bytes)
      ensures Valid() && rest == input && !loaded
    {
      reader, current, loaded := input, NUL, false;
      rest := input;
    }

    method Clear()
      requires Valid() && loaded
      modifies this
      ensures Valid() && rest == Tail(old(rest))
    {
      loaded := false;
      rest := Tail(rest);
    }

    method Current() returns (c: byte)
      requires Valid()
      modifies this
      ensures Valid() && loaded && rest == old(rest) && c == Head(rest)
    {
      if !loaded {
        Load();
      }
      c := current;
    }

    method Load()
      requires Valid() && !loaded
      modifies this
      ensures Valid() && loaded && rest == old(rest)
    {
      if reader == [] {
        current := NUL;
      } else {
        current, reader := reader[0], reader[1..];
      }
      loaded := true;
    }
  }
}
