/** The input cursor the primitive parsers read through: an immutable token
    sequence and a mutable position into it, with `next`, `save` and `rewind`. */
module Input {

  datatype Option<T> = None | Some(value: T)

  /** An opaque snapshot of a cursor's position, obtained from `Save`. */
  datatype Checkpoint = Checkpoint(offset: nat)

  /** What one call of `next` yields: the token found (if any) and where the
      cursor stands afterwards. */
  datatype Read<T> = Read(tok: Option<T>, pos: nat)

  /** The value-level reading of `next` at position `pos`: the token there and
      one step forward, or nothing and no move at end of input. */
  function NextAt<T>(input: seq<T>, pos: nat): (n: Read<T>)
    requires pos <= |input|
    ensures n.tok.Some? <==> pos < |input|
    ensures n.tok.Some? ==> n.tok.value == input[pos] && n.pos == pos + 1
    ensures n.tok.None? ==> n.pos == pos
  {
    if pos < |input| then Read(Some(input[pos]), pos + 1) else Read(None, pos)
  }

  /** A cursor over a fully materialised token sequence. Only `pos` changes. */
  class Cursor<T> {
    const input: seq<T>
    var pos: nat

    ghost predicate Valid()
      reads this
    {
      pos <= |input|
    }

    constructor (input: seq<T>)
      ensures Valid()
      ensures this.input == input && pos == 0
    {
      this.input := input;
      pos := 0;
    }

    /** Returns the offset it read at and the token there, advancing by one;
        at end of input returns no token and does not move. */
    method Next() returns (at: nat, tok: Option<T>)
      requires Valid()
      modifies this`pos
      ensures Valid()
      ensures at == old(pos)
      ensures old(pos) < |input| ==> tok == Some(input[old(pos)]) && pos == old(pos) + 1
      ensures old(pos) == |input| ==> tok == None && pos == old(pos)
    {
      at := pos;
      if pos < |input| {
        tok := Some(input[pos]);
        pos := pos + 1;
      } else {
        tok := None;
      }
    }

    /** Takes a snapshot of the position; changes nothing. */
    method Save() returns (c: Checkpoint)
      requires Valid()
      ensures c.offset == pos && c.offset <= |input|
    {
      c := Checkpoint(pos);
    }

    /** Puts the cursor back exactly where the checkpoint was taken. */
    method Rewind(c: Checkpoint)
      requires c.offset <= |input|
      modifies this`pos
      ensures Valid()
      ensures pos == c.offset
    {
      pos := c.offset;
    }
  }
}
