/** The two byte streams of the codecs: a growing output buffer and a reading cursor. */
module Cursors {
  import opened Bytes

  /** A `Vec<u8>` that writers append to. */
  class Buffer {
    var data: bytes

    constructor ()
      ensures data == []
    {
      data := [];
    }

    method Push(b: byte)
      modifies this
      ensures data == old(data) + [b]
    {
      data := data + [b];
    }

    method Append(s: bytes)
      modifies this
      ensures data == old(data) + s
    {
      data := data + s;
    }
  }

  /** A cursor over a fixed input. */
  class Cursor {
    const data: bytes
    var pos: nat

    ghost predicate Valid()
      reads this
    {
      pos <= |data|
    }

    /** The bytes not read yet. */
    function Rest(): (r: bytes)
      requires Valid()
      reads this
      ensures |r| == |data| - pos
    {
      data[pos..]
    }

    constructor (data: bytes)
      ensures Valid() && this.data == data && pos == 0 && Rest() == data
    {
      this.data := data;
      pos := 0;
    }

    /** Moves past n bytes, or fails and moves nothing when fewer remain. */
    method ReadExact(n: nat) returns (r: Result<bytes>)
      requires Valid()
      modifies this
      ensures Valid()
      ensures n <= |old(Rest())| ==>
                r == Ok(old(Rest())[..n]) && pos == old(pos) + n && Rest() == old(Rest())[n..]
      ensures n > |old(Rest())| ==> r == Err(UnexpectedEof) && pos == old(pos)
    {
      if pos + n > |data| {
        return Err(UnexpectedEof);
      }
      r := Ok(data[pos..pos + n]);
      assert data[pos..][..n] == data[pos..pos + n];
      assert data[pos..][n..] == data[pos + n..];
      pos := pos + n;
    }

    method ReadU8() returns (r: Result<byte>)
      requires Valid()
      modifies this
      ensures Valid()
      ensures old(Rest()) != [] ==>
                r == Ok(old(Rest())[0]) && pos == old(pos) + 1 && Rest() == old(Rest())[1..]
      ensures old(Rest()) == [] ==> r == Err(UnexpectedEof) && pos == old(pos)
    {
      if pos == |data| {
        return Err(UnexpectedEof);
      }
      r := Ok(data[pos]);
      pos := pos + 1;
    }
  }
}
