/** The merge of one patch set into one target (src/grfmerge.cpp:339-383):
    three streams advance in lockstep. For each entry of the patch set the
    target's records up to the entry's index are copied to the output, the
    record at that index is skipped, and the patch record is copied in its
    place; afterwards the rest of the target up to its terminator is copied
    and a zero checksum is appended.

    Each stateful step is proved against a function on the streams' contents
    that states where every cursor ends and what the output becomes. */
module Merge {
  import opened Bytes
  import opened Streams
  import opened RecordCodec

  /** `++curno` on a U16. */
  function Inc16(c: u16): (r: u16)
    ensures r == if c == 0xFFFF then 0 else c + 1
  {
    Wrap16(c + 1)
  }

  /** Where the target cursor stands and the value of `curno`. */
  datatype Pos = Pos(at: nat, curno: u16)

  /** The loop `while (++curno <= spriteno) copysprite(grf, tmp);`
      (src/grfmerge.cpp:357-360), entered with `c` the already incremented
      counter. Whether a record or the terminator is copied does not matter:
      the result of `copysprite` is ignored, only a fault ends the loop. */
  function CatchUpFrom(src: seq<byte>, p: nat, c: u16, spriteno: u16): (r: Result<Pos>)
    requires p <= |src|
    ensures r.Success? ==> p <= r.value.at <= |src| && spriteno < r.value.curno
    decreases |src| - p
  {
    if c > spriteno then Success(Pos(p, c))
    else
      match Measure(src, p)
      case Failure(f) => Failure(f)
      case Success(step) => CatchUpFrom(src, step.next, Inc16(c), spriteno)
  }

  /** The three cursors of a merge and the output written so far. */
  datatype MergeState = MergeState(gp: nat, dp: nat, curno: u16, out: seq<byte>)

  predicate Inside(grf: seq<byte>, grd: seq<byte>, st: MergeState)
  {
    st.gp <= |grf| && st.dp <= |grd|
  }

  /** One turn of the entry loop (src/grfmerge.cpp:341-342, 357-364): read the
      entry's index (not mirrored), catch the target up to it, skip the
      replaced target record, copy the patch record. */
  function EntryStep(grf: seq<byte>, grd: seq<byte>, st: MergeState): (r: Result<MergeState>)
    requires Inside(grf, grd, st)
    ensures r.Success? ==> Inside(grf, grd, r.value)
    ensures r.Success? ==> st.gp <= r.value.gp && st.dp + 2 < r.value.dp
  {
    if st.dp + 2 > |grd| then Failure(ShortRead)
    else
      var spriteno := U16At(grd, st.dp);
      match CatchUpFrom(grf, st.gp, Inc16(st.curno), spriteno)
      case Failure(f) => Failure(f)
      case Success(pos) =>
        match Measure(grf, pos.at)
        case Failure(f) => Failure(f)
        case Success(skipped) =>
          match Measure(grd, st.dp + 2)
          case Failure(f) => Failure(f)
          case Success(patch) =>
            Success(MergeState(skipped.next, patch.next, pos.curno,
                               st.out + grf[st.gp..pos.at] + grd[st.dp + 2..patch.next]))
  }

  /** An entry turn whose three transfers are known: the records copied
      from the target are `copied` and the patch record is `rec`. */
  lemma EntryStepOf(grf: seq<byte>, grd: seq<byte>, st: MergeState, spriteno: u16, pos: Pos, skipped: nat, patch: nat,
                    copied: seq<byte>, rec: seq<byte>)
    requires Inside(grf, grd, st) && st.dp + 2 <= |grd| && U16At(grd, st.dp) == spriteno
    requires CatchUpFrom(grf, st.gp, Inc16(st.curno), spriteno).Success?
    requires CatchUpFrom(grf, st.gp, Inc16(st.curno), spriteno).value == pos
    requires Measure(grf, pos.at).Success? && Measure(grf, pos.at).value == Step(true, skipped)
    requires Measure(grd, st.dp + 2).Success? && Measure(grd, st.dp + 2).value == Step(true, patch)
    requires grf[st.gp..pos.at] == copied && grd[st.dp + 2..patch] == rec
    ensures EntryStep(grf, grd, st).Success?
    ensures EntryStep(grf, grd, st).value.gp == skipped
    ensures EntryStep(grf, grd, st).value.dp == patch
    ensures EntryStep(grf, grd, st).value.curno == pos.curno
    ensures EntryStep(grf, grd, st).value.out == st.out + copied + rec
  {
  }

  /** `n` turns of the entry loop. */
  function MergeEntries(grf: seq<byte>, grd: seq<byte>, st: MergeState, n: nat): (r: Result<MergeState>)
    requires Inside(grf, grd, st)
    ensures r.Success? ==> Inside(grf, grd, r.value) && st.dp <= r.value.dp
    decreases n
  {
    if n == 0 then Success(st)
    else
      match EntryStep(grf, grd, st)
      case Failure(f) => Failure(f)
      case Success(st') => MergeEntries(grf, grd, st', n - 1)
  }

  /** Unrolling the entry loop once, when its first turn is known. */
  lemma MergeEntriesUnroll(grf: seq<byte>, grd: seq<byte>, st: MergeState, n: nat, st': MergeState, m: nat)
    requires Inside(grf, grd, st) && n == m + 1 && EntryStep(grf, grd, st).Success?
    requires EntryStep(grf, grd, st).value.gp == st'.gp && EntryStep(grf, grd, st).value.dp == st'.dp
    requires EntryStep(grf, grd, st).value.curno == st'.curno && EntryStep(grf, grd, st).value.out == st'.out
    ensures Inside(grf, grd, st')
    ensures MergeEntries(grf, grd, st, n) == MergeEntries(grf, grd, st', m)
  {
  }

  /** `for (; copysprite(grf, tmp); )` (src/grfmerge.cpp:374-376): copy records
      up to and including the terminator; the end position. */
  function CopyRest(src: seq<byte>, p: nat): (r: Result<nat>)
    requires p <= |src|
    ensures r.Success? ==> p + 2 <= r.value <= |src|
    decreases |src| - p
  {
    match Measure(src, p)
    case Failure(f) => Failure(f)
    case Success(step) => if step.present then CopyRest(src, step.next) else Success(step.next)
  }

  /** The dummy checksum written after the terminator. */
  const Checksum: seq<byte> := [0, 0, 0, 0]

  /** The complete output of a merge: the output after the entries, the rest
      of the target through its terminator, and the zero checksum. */
  function FinalOutput(grf: seq<byte>, st: MergeState): (r: Result<seq<byte>>)
    requires st.gp <= |grf|
    ensures r.Success? ==> |st.out| + 2 + |Checksum| <= |r.value|
  {
    match CopyRest(grf, st.gp)
    case Failure(f) => Failure(f)
    case Success(end) => Success(st.out + grf[st.gp..end] + Checksum)
  }

  /** The complete output when the copy of the rest is known. */
  lemma FinalOutputOf(grf: seq<byte>, st: MergeState, end: nat, rest: seq<byte>)
    requires st.gp <= end <= |grf| && CopyRest(grf, st.gp).Success? && CopyRest(grf, st.gp).value == end
    requires grf[st.gp..end] == rest
    ensures FinalOutput(grf, st).Success? && FinalOutput(grf, st).value == st.out + rest + Checksum
  {
  }

  /** A merge whose first turn leads to `st'`, from where the remaining `m`
      turns and the finish are known, is known from `st`. */
  lemma MergeAfterTurn(grf: seq<byte>, grd: seq<byte>, st: MergeState, n: nat, st': MergeState, m: nat,
                       dp: nat, output: seq<byte>)
    requires Inside(grf, grd, st) && n == m + 1 && EntryStep(grf, grd, st).Success?
    requires EntryStep(grf, grd, st).value.gp == st'.gp && EntryStep(grf, grd, st).value.dp == st'.dp
    requires EntryStep(grf, grd, st).value.curno == st'.curno && EntryStep(grf, grd, st).value.out == st'.out
    requires Inside(grf, grd, st') && MergeEntries(grf, grd, st', m).Success?
    requires MergeEntries(grf, grd, st', m).value.dp == dp
    requires FinalOutput(grf, MergeEntries(grf, grd, st', m).value).Success?
    requires FinalOutput(grf, MergeEntries(grf, grd, st', m).value).value == output
    ensures MergeEntries(grf, grd, st, n).Success? && MergeEntries(grf, grd, st, n).value.dp == dp
    ensures FinalOutput(grf, MergeEntries(grf, grd, st, n).value).Success?
    ensures FinalOutput(grf, MergeEntries(grf, grd, st, n).value).value == output
  {
    MergeEntriesUnroll(grf, grd, st, n, st', m);
  }

  /** What every mode reads of the patch stream for `n` entries: the entries'
      indices and the position after the last record. */
  datatype Drained = Drained(end: nat, indices: seq<u16>)

  /** The entry loop as the listing and skipping modes run it
      (src/grfmerge.cpp:299-302, 340-354): read the index, skip the record;
      `seen` holds the indices already read. */
  function DrainFrom(grd: seq<byte>, p: nat, n: nat, seen: seq<u16>): (r: Result<Drained>)
    requires p <= |grd|
    ensures r.Success? ==> p <= r.value.end <= |grd| && |r.value.indices| == |seen| + n
    decreases n
  {
    if n == 0 then Success(Drained(p, seen))
    else if p + 2 > |grd| then Failure(ShortRead)
    else
      match Measure(grd, p + 2)
      case Failure(f) => Failure(f)
      case Success(step) => DrainFrom(grd, step.next, n - 1, seen + [U16At(grd, p)])
  }

  /** Draining `n` entries from `p`. */
  function Drain(grd: seq<byte>, p: nat, n: nat): (r: Result<Drained>)
    requires p <= |grd|
    ensures r.Success? ==> p <= r.value.end <= |grd| && |r.value.indices| == n
    ensures n > 0 && r.Success? ==> p + 2 < r.value.end
  {
    DrainFrom(grd, p, n, [])
  }

  /** Merging consumes the patch stream exactly as draining does: a merge
      that completes leaves the patch cursor where draining the same entries
      would, so the next patch set is found at the same place in every mode. */
  lemma {:induction false} MergeConsumesLikeDrain(grf: seq<byte>, grd: seq<byte>, st: MergeState, n: nat)
    requires Inside(grf, grd, st) && MergeEntries(grf, grd, st, n).Success?
    ensures forall seen :: DrainFrom(grd, st.dp, n, seen).Success?
    ensures forall seen :: DrainFrom(grd, st.dp, n, seen).value.end == MergeEntries(grf, grd, st, n).value.dp
    decreases n
  {
    if n > 0 {
      var st' := EntryStep(grf, grd, st).value;
      MergeConsumesLikeDrain(grf, grd, st', n - 1);
    }
  }

  /** The loop `while (++curno <= spriteno)`: copies target records until the
      counter passes `spriteno`. */
  method CatchUp(grf: Reader, tmp: Writer, curno: u16, spriteno: u16) returns (r: Result<Pos>)
    requires grf.Valid()
    modifies grf, tmp
    ensures grf.Valid() && old(grf.pos) <= grf.pos
    ensures r == CatchUpFrom(grf.data, old(grf.pos), Inc16(curno), spriteno)
    ensures r.Success? ==> grf.pos == r.value.at
    ensures tmp.out == old(tmp.out) + grf.data[old(grf.pos)..grf.pos]
  {
    var c: u16 := Inc16(curno);
    while c <= spriteno
      invariant grf.Valid() && old(grf.pos) <= grf.pos
      invariant CatchUpFrom(grf.data, grf.pos, c, spriteno) == CatchUpFrom(grf.data, old(grf.pos), Inc16(curno), spriteno)
      invariant tmp.out == old(tmp.out) + grf.data[old(grf.pos)..grf.pos]
      decreases |grf.data| - grf.pos
    {
      var here := grf.pos;
      var copied := CopySprite(grf, tmp);
      SliceJoin(grf.data, old(grf.pos), here, grf.pos);
      if copied.Failure? {
        return Failure(copied.fault);
      }
      c := Inc16(c);
    }
    r := Success(Pos(grf.pos, c));
  }

  /** One turn of the entry loop in merge mode. */
  method MergeEntry(grf: Reader, grd: Reader, tmp: Writer, curno: u16) returns (r: Result<MergeState>)
    requires grf.Valid() && grd.Valid() && grf != grd
    modifies grf, grd, tmp
    ensures grf.Valid() && grd.Valid()
    ensures r == EntryStep(grf.data, grd.data, MergeState(old(grf.pos), old(grd.pos), curno, old(tmp.out)))
    ensures r.Success? ==> grf.pos == r.value.gp && grd.pos == r.value.dp && tmp.out == r.value.out
  {
    var spriteno := ReadU16(grd);
    if spriteno.Failure? {
      return Failure(spriteno.fault);
    }
    var gp := grf.pos;
    var pos := CatchUp(grf, tmp, curno, spriteno.value);
    if pos.Failure? {
      return Failure(pos.fault);
    }
    var skipped := SkipSprite(grf);
    if skipped.Failure? {
      return Failure(skipped.fault);
    }
    var dp := grd.pos;
    var copied := CopySprite(grd, tmp);
    if copied.Failure? {
      return Failure(copied.fault);
    }
    assert tmp.out == old(tmp.out) + grf.data[gp..pos.value.at] + grd.data[dp..grd.pos];
    r := Success(MergeState(grf.pos, grd.pos, pos.value.curno, tmp.out));
  }

  /** The entry loop of `mergeset` in merge mode (src/grfmerge.cpp:340-366):
      `curno` starts at 0 and the entries are merged one by one. */
  method MergeAll(grf: Reader, grd: Reader, tmp: Writer, n: u16) returns (r: Result<MergeState>)
    requires grf.Valid() && grd.Valid() && grf != grd
    modifies grf, grd, tmp
    ensures grf.Valid() && grd.Valid()
    ensures r == MergeEntries(grf.data, grd.data, MergeState(old(grf.pos), old(grd.pos), 0, old(tmp.out)), n)
    ensures r.Success? ==> grf.pos == r.value.gp && grd.pos == r.value.dp && tmp.out == r.value.out
  {
    var st := MergeState(grf.pos, grd.pos, 0, tmp.out);
    var i: u16 := 0;
    while i < n
      invariant grf.Valid() && grd.Valid() && i <= n
      invariant st.gp == grf.pos && st.dp == grd.pos && st.out == tmp.out
      invariant MergeEntries(grf.data, grd.data, st, n - i)
             == MergeEntries(grf.data, grd.data, MergeState(old(grf.pos), old(grd.pos), 0, old(tmp.out)), n)
    {
      var next := MergeEntry(grf, grd, tmp, st.curno);
      if next.Failure? {
        return Failure(next.fault);
      }
      st := next.value;
      i := i + 1;
    }
    r := Success(st);
  }

  /** The end of a merge (src/grfmerge.cpp:372-381): copy the rest of the
      target through its terminator and write the zero checksum. */
  method Finish(grf: Reader, tmp: Writer) returns (r: Result<seq<byte>>)
    requires grf.Valid()
    modifies grf, tmp
    ensures grf.Valid()
    ensures r == FinalOutput(grf.data, MergeState(old(grf.pos), 0, 0, old(tmp.out)))
    ensures r.Success? ==> tmp.out == r.value
  {
    var start := grf.pos;
    var present := true;
    while present
      invariant grf.Valid() && start <= grf.pos
      invariant tmp.out == old(tmp.out) + grf.data[start..grf.pos]
      invariant present ==> CopyRest(grf.data, grf.pos) == CopyRest(grf.data, start)
      invariant !present ==> CopyRest(grf.data, start) == Success(grf.pos)
      decreases |grf.data| - grf.pos, present
    {
      var here := grf.pos;
      var copied := CopySprite(grf, tmp);
      SliceJoin(grf.data, start, here, grf.pos);
      if copied.Failure? {
        return Failure(copied.fault);
      }
      present := copied.value;
    }
    tmp.Write(Checksum);
    r := Success(tmp.out);
  }

  /** Draining `n` entries: the entry loop of the listing and skipping modes,
      and of a declined name check. */
  method DrainEntries(grd: Reader, n: u16) returns (r: Result<Drained>)
    requires grd.Valid()
    modifies grd
    ensures grd.Valid()
    ensures r == Drain(grd.data, old(grd.pos), n)
    ensures r.Success? ==> grd.pos == r.value.end
  {
    var indices: seq<u16> := [];
    var i: u16 := 0;
    while i < n
      invariant grd.Valid() && i <= n
      invariant DrainFrom(grd.data, grd.pos, n - i, indices) == Drain(grd.data, old(grd.pos), n)
    {
      var spriteno := ReadU16(grd);
      if spriteno.Failure? {
        return Failure(spriteno.fault);
      }
      var skipped := SkipSprite(grd);
      if skipped.Failure? {
        return Failure(skipped.fault);
      }
      indices := indices + [spriteno.value];
      i := i + 1;
    }
    r := Success(Drained(grd.pos, indices));
  }
}
