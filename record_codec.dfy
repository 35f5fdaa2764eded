/** The sprite (record) codec: transfer exactly one length-framed sprite from
    a stream to a sink, or to the discard sink to skip it, without decoding
    its payload. Models `copysprite` and `skipsprite`
    (src/grfmerge.cpp:183-242).

    `Measure` states where a sprite that starts at a given position ends (or
    why the run dies); `CopySprite` is the stateful transfer, proved to
    consume exactly what `Measure` says and to mirror every byte it reads. */
module RecordCodec {
  import opened Bytes
  import opened Streams

  /** What one call transfers: whether a sprite was there (a zero size field
      is the end-of-stream marker) and the position just after it. */
  datatype Step = Step(present: bool, next: nat)

  /** Length of the fixed sub-header that follows `info` in a sprite whose
      size field is the decoded length. */
  const SubHeader: nat := 7

  /** Decoded bytes contributed by one run whose first byte is `code`, read as
      a signed char: a back-reference (`code < 0`) contributes `-(code >> 3)`,
      a literal `code` bytes, and a literal with code 0 stands for 128 bytes.
      For a byte `b >= 128` the signed value is `b - 256`, and its arithmetic
      shift by 3 is `b / 8 - 32`. */
  function RunLength(code: byte): (n: nat)
    ensures 1 <= n <= 128
    ensures code >= 128 ==> n <= 16
  {
    if code >= 128 then 32 - code as int / 8
    else if code == 0 then 128
    else code as int
  }

  /** Bytes a run occupies in the stream: the code byte plus one offset byte
      for a back-reference, or plus its literal bytes. */
  function RunSize(code: byte): (n: nat)
    ensures 2 <= n <= 129
  {
    if code >= 128 then 2 else 1 + RunLength(code)
  }

  /** The run-accounting loop of `copysprite` (src/grfmerge.cpp:219-235):
      starting at `p` with `remaining` decoded bytes still to account for,
      the position where the runs end. A run is read in full before its
      contribution is checked against `remaining`, so a short read wins over
      an overrun. */
  function RunsEnd(src: seq<byte>, p: nat, remaining: u16): (r: Result<nat>)
    requires p <= |src|
    ensures r.Success? ==> p <= r.value <= |src|
    ensures r.Success? && remaining > 0 ==> p < r.value
    decreases remaining
  {
    if remaining == 0 then Success(p)
    else if p + 1 > |src| then Failure(ShortRead)
    else
      var code := src[p];
      var q := p + RunSize(code);
      if q > |src| then Failure(ShortRead)
      else if remaining < RunLength(code) then Failure(Overrun)
      else RunsEnd(src, q, remaining - RunLength(code))
  }

  /** Where the payload that follows a sprite's `info` byte at `p` ends
      (src/grfmerge.cpp:205-236): `size` further bytes when `info == 0xFF`,
      `size - 1` when `info & 2`, and otherwise a 7-byte sub-header followed
      by runs accounting for `size - 8` decoded bytes. `size` is a U16, so
      `size -= 8` wraps for sizes below 8. */
  function PayloadEnd(src: seq<byte>, p: nat, size: u16, info: byte): (r: Result<nat>)
    requires p <= |src| && size != 0
    ensures r.Success? ==> p <= r.value <= |src|
  {
    if info == 0xFF then
      if p + size <= |src| then Success(p + size) else Failure(ShortRead)
    else if HasBit1(info) then
      if p + (size - 1) <= |src| then Success(p + (size - 1)) else Failure(ShortRead)
    else if p + SubHeader > |src| then Failure(ShortRead)
    else RunsEnd(src, p + SubHeader, Wrap16(size as int - 8))
  }

  /** Where the sprite that starts at `p` ends, as `copysprite` walks it
      (src/grfmerge.cpp:197-236). */
  function Measure(src: seq<byte>, p: nat): (r: Result<Step>)
    requires p <= |src|
    ensures r.Success? ==> p + 2 <= r.value.next <= |src|
    ensures r.Success? && r.value.present ==> p + 3 <= r.value.next
  {
    if p + 2 > |src| then Failure(ShortRead)
    else
      var size := U16At(src, p);
      if size == 0 then Success(Step(false, p + 2))
      else if p + 3 > |src| then Failure(ShortRead)
      else
        match PayloadEnd(src, p + 3, size, src[p + 2])
        case Success(q) => Success(Step(true, q))
        case Failure(f) => Failure(f)
  }

  /** What `copysprite` reports: whether a sprite was there, or the fault. */
  function Presence(m: Result<Step>): Result<bool>
  {
    match m
    case Success(step) => Success(step.present)
    case Failure(f) => Failure(f)
  }

  /** `copysprite`: transfer one sprite from `from` to `to` (`null`: skip it).
      Whatever the sink, the bytes consumed are those `Measure` delimits, so
      copying and skipping leave the stream at the same position; a real sink
      receives exactly the bytes read, in order, also on a fatal path. */
  method CopySprite(from: Reader, to: Writer?) returns (r: Result<bool>)
    requires from.Valid()
    modifies from, to
    ensures from.Valid() && old(from.pos) <= from.pos
    ensures r == Presence(Measure(from.data, old(from.pos)))
    ensures r.Success? ==> from.pos == Measure(from.data, old(from.pos)).value.next
    ensures to != null ==> to.out == old(to.out) + from.data[old(from.pos)..from.pos]
  {
    var start := from.pos;
    var ok := Copy(2, from, to);
    if !ok {
      return Failure(ShortRead);
    }
    var size := U16At(from.data, start);
    if size == 0 {
      return Success(false);
    }
    ok := Copy(1, from, to);
    SliceJoin(from.data, start, start + 2, from.pos);
    if !ok {
      return Failure(ShortRead);
    }
    var end := CopyPayload(from, to, size, from.data[start + 2]);
    SliceJoin(from.data, start, start + 3, from.pos);
    r := if end.Success? then Success(true) else Failure(end.fault);
  }

  /** The payload transfer of `copysprite` (src/grfmerge.cpp:205-236). */
  method CopyPayload(from: Reader, to: Writer?, size: u16, info: byte) returns (r: Result<nat>)
    requires from.Valid() && size != 0
    modifies from, to
    ensures from.Valid() && old(from.pos) <= from.pos
    ensures r == PayloadEnd(from.data, old(from.pos), size, info)
    ensures r.Success? ==> from.pos == r.value
    ensures to != null ==> to.out == old(to.out) + from.data[old(from.pos)..from.pos]
  {
    var ok;
    if info == 0xFF {
      ok := CopyBlock(size, from, to);
      return if ok then Success(from.pos) else Failure(ShortRead);
    }
    if HasBit1(info) {
      ok := CopyBlock(size - 1, from, to);
      return if ok then Success(from.pos) else Failure(ShortRead);
    }
    var start := from.pos;
    ok := CopyBlock(SubHeader, from, to);
    if !ok {
      return Failure(ShortRead);
    }
    r := CopyRuns(from, to, Wrap16(size as int - 8));
    SliceJoin(from.data, start, start + SubHeader, from.pos);
  }

  /** The run-accounting loop of `copysprite` (src/grfmerge.cpp:218-235),
      transferring each run it counts. */
  method CopyRuns(from: Reader, to: Writer?, size: u16) returns (r: Result<nat>)
    requires from.Valid()
    modifies from, to
    ensures from.Valid() && old(from.pos) <= from.pos
    ensures r == RunsEnd(from.data, old(from.pos), size)
    ensures r.Success? ==> from.pos == r.value
    ensures to != null ==> to.out == old(to.out) + from.data[old(from.pos)..from.pos]
  {
    var remaining := size;
    while remaining > 0
      invariant from.Valid() && old(from.pos) <= from.pos
      invariant RunsEnd(from.data, from.pos, remaining) == RunsEnd(from.data, old(from.pos), size)
      invariant to != null ==> to.out == old(to.out) + from.data[old(from.pos)..from.pos]
      decreases remaining
    {
      var ok, length := CopyRun(from, to);
      if !ok {
        return Failure(ShortRead);
      }
      if remaining < length {
        return Failure(Overrun);
      }
      remaining := remaining - length;
    }
    r := Success(from.pos);
  }

  /** One turn of the run-accounting loop (src/grfmerge.cpp:220-229): transfer
      one run and report how many decoded bytes it stands for. */
  method CopyRun(from: Reader, to: Writer?) returns (ok: bool, length: nat)
    requires from.Valid()
    modifies from, to
    ensures from.Valid() && old(from.pos) <= from.pos
    ensures ok == (old(from.pos) < |from.data| && old(from.pos) + RunSize(from.data[old(from.pos)]) <= |from.data|)
    ensures ok ==> from.pos == old(from.pos) + RunSize(from.data[old(from.pos)])
    ensures ok ==> length == RunLength(from.data[old(from.pos)])
    ensures to != null ==> to.out == old(to.out) + from.data[old(from.pos)..from.pos]
  {
    var start := from.pos;
    ok := Copy(1, from, to);
    if !ok {
      return ok, 0;
    }
    var code := from.data[start];
    length := RunLength(code);
    if code >= 128 {
      ok := Copy(1, from, to);        // the back-reference offset byte
    } else {
      ok := CopyBlock(length, from, to);
    }
    SliceJoin(from.data, start, start + 1, from.pos);
  }

  /** `skipsprite`: the same transfer into the discard sink. */
  method SkipSprite(from: Reader) returns (r: Result<bool>)
    requires from.Valid()
    modifies from
    ensures from.Valid() && old(from.pos) <= from.pos
    ensures r == Presence(Measure(from.data, old(from.pos)))
    ensures r.Success? ==> from.pos == Measure(from.data, old(from.pos)).value.next
  {
    r := CopySprite(from, null);
  }
}
