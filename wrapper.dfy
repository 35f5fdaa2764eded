/** Recognising a self-extracting patch (`checkisselfextr`,
    src/grfmerge.cpp:63-102): a DOS executable (`MZ`) stamped with `JD` at
    0x1c, followed by a mantissa `r` and an exponent `e`, carries its patch
    stream at offset `r * 2^e`, which must start with the patch magic. */
module Wrapper {
  import opened Bytes

  /** The globals the check updates: `issfx` and `grdofs`. */
  datatype Detection = Detection(issfx: bool, grdofs: nat)

  function Pow2(e: nat): (p: nat)
    ensures p >= 1
  {
    if e == 0 then 1 else 2 * Pow2(e - 1)
  }

  /** `(long) r * (1L << e)`: zero only for a zero mantissa, and otherwise
      at least the mantissa and at least `2^e`. */
  function StreamOffset(r: byte, e: byte): (o: nat)
    ensures (o == 0) == (r == 0)
    ensures r != 0 ==> o >= r as nat && o >= Pow2(e as nat)
  {
    if r == 0 then 0
    else
      ProductAtLeast(r as nat, Pow2(e as nat));
      r as nat * Pow2(e as nat)
  }

  /** A product of positive numbers is at least each factor. */
  lemma {:induction false} ProductAtLeast(a: nat, b: nat)
    requires a >= 1 && b >= 1
    ensures a * b >= a && a * b >= b
    decreases b
  {
    if b > 1 {
      ProductAtLeast(a, b - 1);
      assert a * b == a * (b - 1) + a;
    }
  }

  /** `MZ` at offset 0. */
  predicate IsExecutable(exe: seq<byte>)
  {
    |exe| >= 2 && exe[0] == 0x4D && exe[1] == 0x5A
  }

  /** `JD` at offset 0x1c. */
  predicate IsStamped(exe: seq<byte>)
  {
    |exe| >= 0x1e && exe[0x1c] == 0x4A && exe[0x1d] == 0x44
  }

  /** An executable stamped `JD` whose stream at `r * 2^e` starts with the magic. */
  predicate Carries(f: seq<byte>)
  {
    && IsExecutable(f) && IsStamped(f) && |f| >= 0x20
    && StreamOffset(f[0x1e], f[0x1f]) + 4 <= |f|
    && U32At(f, StreamOffset(f[0x1e], f[0x1f])) == PatchMagic
  }

  /** The check on the file `exe` (`None` when it cannot be opened), from
      the globals `st`. A short read, and only a short read, is fatal; an
      unopenable file or one that is not an executable leaves both globals
      as they were; a file without the stamp clears `issfx` but keeps
      `grdofs`. A file is recognised exactly when it is an executable
      stamped `JD` whose stream at `r * 2^e` starts with the magic, and then
      `grdofs` is that offset. */
  function CheckWrapper(exe: Option<seq<byte>>, st: Detection): (r: Result<Detection>)
    ensures exe.None? ==> r == Success(st)
    ensures r.Failure? ==> r.fault == ShortRead
    ensures exe.Some? ==> var f := exe.value;
      (r.Failure? <==> |f| < 2 || (IsExecutable(f) && (|f| < 0x1e || (IsStamped(f) && (|f| < 0x20 || |f| < StreamOffset(f[0x1e], f[0x1f]) + 4)))))
    ensures exe.Some? && (Carries(exe.value) || (|exe.value| >= 2 && !IsExecutable(exe.value))) ==> r.Success?
    ensures exe.Some? && r.Success? ==> var f := exe.value;
      && (r.value.issfx <==> Carries(f) || (st.issfx && !IsExecutable(f)))
      && r.value.grdofs == if IsExecutable(f) && IsStamped(f) && |f| >= 0x20 then StreamOffset(f[0x1e], f[0x1f]) else st.grdofs
  {
    match exe
    case None => Success(st)
    case Some(f) =>
      if |f| < 2 then Failure(ShortRead)
      else if !IsExecutable(f) then Success(st)
      else if |f| < 0x1e then Failure(ShortRead)
      else if !IsStamped(f) then Success(Detection(false, st.grdofs))
      else if |f| < 0x20 then Failure(ShortRead)
      else
        var ofs := StreamOffset(f[0x1e], f[0x1f]);
        if |f| < ofs + 4 then Failure(ShortRead)
        else Success(Detection(U32At(f, ofs) == PatchMagic, ofs))
  }

  function Zeros(n: nat): (z: seq<byte>)
    ensures |z| == n
  {
    if n == 0 then [] else [0] + Zeros(n - 1)
  }

  /** The 32-byte header of a wrapper whose stream lies at `r * 2^e`. */
  function Header(r: byte, e: byte): (h: seq<byte>)
    ensures |h| == 0x20
  {
    [0x4D, 0x5A] + Zeros(0x1a) + [0x4A, 0x44, r, e]
  }

  /** A wrapper built from a header, padding up to `r * 2^e` and a patch
      stream is recognised, and the stream is found at its offset. */
  lemma BuiltWrapperRecognised(r: byte, e: byte, stream: seq<byte>, st: Detection)
    requires StreamOffset(r, e) >= 0x20 && |stream| >= 4 && U32At(stream, 0) == PatchMagic
    ensures var f := Header(r, e) + Zeros(StreamOffset(r, e) - 0x20) + stream;
      && CheckWrapper(Some(f), st).Success?
      && CheckWrapper(Some(f), st).value == Detection(true, StreamOffset(r, e))
      && f[StreamOffset(r, e)..] == stream
  {
    var ofs := StreamOffset(r, e);
    var h := Header(r, e);
    var f := h + Zeros(ofs - 0x20) + stream;
    assert f[0x1e] == r && f[0x1f] == e;
    assert f[ofs..] == stream;
    assert f[ofs..ofs + 4] == stream[..4];
    U32AtSlice(f, ofs, stream);
  }

  lemma U32AtSlice(f: seq<byte>, ofs: nat, stream: seq<byte>)
    requires ofs + 4 <= |f| && |stream| >= 4 && f[ofs..ofs + 4] == stream[..4]
    ensures U32At(f, ofs) == U32At(stream, 0)
  {
    assert f[ofs] == stream[0] && f[ofs + 1] == stream[1] && f[ofs + 2] == stream[2] && f[ofs + 3] == stream[3];
  }
}
