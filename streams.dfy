/** Sequential byte streams: an input file read through a cursor and an
    output file that only grows. A `null` writer is the discard sink the
    merger passes as `to == NULL`. Models `copy` and `copyblock`
    (src/grfmerge.cpp:136-170). */
module Streams {
  import opened Bytes

  /** Size of the transfer buffer `block`. */
  const BlockSize: nat := 8192

  /** A file opened for reading: its whole content and the read position. */
  class Reader {
    const data: seq<byte>
    var pos: nat

    ghost predicate Valid()
      reads this
    {
      pos <= |data|
    }

    constructor (content: seq<byte>)
      ensures Valid() && data == content && pos == 0
    {
      data := content;
      pos := 0;
    }

    /** `fseek(f, p, SEEK_SET)` to a position inside the file. */
    method Seek(p: nat)
      requires p <= |data|
      modifies this
      ensures Valid() && pos == p
    {
      pos := p;
    }
  }

  /** A file opened for writing: everything written so far. */
  class Writer {
    var out: seq<byte>

    constructor ()
      ensures out == []
    {
      out := [];
    }

    /** `cfwrite` of a buffer. */
    method Write(bytes: seq<byte>)
      modifies this
      ensures out == old(out) + bytes
    {
      out := out + bytes;
    }
  }

  /** `copy`: read `n` bytes and mirror them to `to` unless it is the discard
      sink. A short read is fatal; it is detected before anything is consumed,
      since the run ends there. */
  method Copy(n: nat, from: Reader, to: Writer?) returns (ok: bool)
    requires from.Valid()
    modifies from, to
    ensures from.Valid()
    ensures ok == (old(from.pos) + n <= |from.data|)
    ensures from.pos == if ok then old(from.pos) + n else old(from.pos)
    ensures to != null ==> to.out == old(to.out) + from.data[old(from.pos)..from.pos]
  {
    if from.pos + n > |from.data| {
      return false;
    }
    if to != null {
      to.Write(from.data[from.pos..from.pos + n]);
    }
    from.pos := from.pos + n;
    ok := true;
  }

  /** `copyblock`: transfer `size` bytes in pieces of at most `BlockSize`.
      However the pieces fall, exactly `size` bytes are consumed and the sink
      receives exactly the bytes consumed, in order. */
  method CopyBlock(size: nat, from: Reader, to: Writer?) returns (ok: bool)
    requires from.Valid()
    modifies from, to
    ensures from.Valid()
    ensures ok == (old(from.pos) + size <= |from.data|)
    ensures ok ==> from.pos == old(from.pos) + size
    ensures old(from.pos) <= from.pos
    ensures to != null ==> to.out == old(to.out) + from.data[old(from.pos)..from.pos]
  {
    var left: nat := size;
    while left > 0
      invariant from.Valid() && left <= size
      invariant from.pos == old(from.pos) + (size - left)
      invariant to != null ==> to.out == old(to.out) + from.data[old(from.pos)..from.pos]
    {
      var piece := if left > BlockSize then BlockSize else left;
      ok := Copy(piece, from, to);
      if !ok {
        return;
      }
      left := left - piece;
    }
    ok := true;
  }

  /** `cfread` of `n` bytes: a short read is fatal and consumes nothing. */
  method ReadBytes(n: nat, from: Reader) returns (r: Result<seq<byte>>)
    requires from.Valid()
    modifies from
    ensures from.Valid()
    ensures r == if old(from.pos) + n <= |from.data| then Success(from.data[old(from.pos)..old(from.pos) + n]) else Failure(ShortRead)
    ensures from.pos == if r.Success? then old(from.pos) + n else old(from.pos)
  {
    if from.pos + n > |from.data| {
      return Failure(ShortRead);
    }
    r := Success(from.data[from.pos..from.pos + n]);
    from.pos := from.pos + n;
  }

  /** `cfread` of one byte. */
  method ReadByte(from: Reader) returns (r: Result<byte>)
    requires from.Valid()
    modifies from
    ensures from.Valid()
    ensures r == if old(from.pos) + 1 <= |from.data| then Success(from.data[old(from.pos)]) else Failure(ShortRead)
    ensures from.pos == if r.Success? then old(from.pos) + 1 else old(from.pos)
  {
    if from.pos + 1 > |from.data| {
      return Failure(ShortRead);
    }
    r := Success(from.data[from.pos]);
    from.pos := from.pos + 1;
  }

  /** `cfread` of a little-endian U16. */
  method ReadU16(from: Reader) returns (r: Result<u16>)
    requires from.Valid()
    modifies from
    ensures from.Valid()
    ensures r == if old(from.pos) + 2 <= |from.data| then Success(U16At(from.data, old(from.pos))) else Failure(ShortRead)
    ensures from.pos == if r.Success? then old(from.pos) + 2 else old(from.pos)
  {
    if from.pos + 2 > |from.data| {
      return Failure(ShortRead);
    }
    r := Success(U16At(from.data, from.pos));
    from.pos := from.pos + 2;
  }

  /** `cfread` of a little-endian U32. */
  method ReadU32(from: Reader) returns (r: Result<nat>)
    requires from.Valid()
    modifies from
    ensures from.Valid()
    ensures r == if old(from.pos) + 4 <= |from.data| then Success(U32At(from.data, old(from.pos))) else Failure(ShortRead)
    ensures from.pos == if r.Success? then old(from.pos) + 4 else old(from.pos)
  {
    if from.pos + 4 > |from.data| {
      return Failure(ShortRead);
    }
    r := Success(U32At(from.data, from.pos));
    from.pos := from.pos + 4;
  }
}
