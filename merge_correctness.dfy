/** The merge stated on records: when the target is a sequence of encoded
    sprites followed by its terminator, and the patch set's entries carry
    strictly increasing indices inside the target, the output is the target's
    sequence with each indexed record replaced, re-encoded, followed by the
    terminator and the zero checksum. Whatever follows the target's
    terminator (its own checksum) is not copied. */
module MergeCorrectness {
  import opened Bytes
  import opened RecordCodec
  import opened SpriteFormat
  import opened Merge

  /** A sprite that can be stored: its size field describes its payload. */
  type Record = s: Sprite | WellFormed(s) witness Verbatim([0])

  /** A sequence of sprites as stored one after another (without terminator). */
  function EncodeStream(ss: seq<Record>): seq<byte>
  {
    if ss == [] then [] else Encode(ss[0]) + EncodeStream(ss[1..])
  }

  /** A target file: its records, the terminator, then anything (the checksum). */
  function TargetFile(ss: seq<Record>, tail: seq<byte>): seq<byte>
  {
    EncodeStream(ss) + Terminator + tail
  }

  /** Where record `k` starts in a target. */
  function Offset(ss: seq<Record>, k: nat): nat
    requires k <= |ss|
  {
    |EncodeStream(ss[..k])|
  }

  /** One patch entry: the index of the record it replaces and the new record. */
  datatype Entry = Entry(index: u16, sprite: Record)

  /** The entries as stored in a patch set after its header. */
  function EncodeEntries(es: seq<Entry>): seq<byte>
  {
    if es == [] then [] else LE16(es[0].index) + Encode(es[0].sprite) + EncodeEntries(es[1..])
  }

  /** Entries whose indices are strictly increasing, at least `k`, and name
      records of a target with `count` records. The last one is below 0xFFFF
      so that `++curno` does not wrap. */
  predicate Ascending(es: seq<Entry>, k: nat, count: nat)
  {
    && (forall i :: 0 <= i < |es| ==> k <= es[i].index < count && es[i].index < 0xFFFF)
    && (forall i, j :: 0 <= i < j < |es| ==> es[i].index < es[j].index)
  }

  /** The records from `k` on, with each entry's record in place of the one
      at its index. */
  function Spliced(ss: seq<Record>, k: nat, es: seq<Entry>): seq<Record>
    requires k <= |ss| && Ascending(es, k, |ss|)
    decreases es
  {
    if es == [] then ss[k..]
    else
      var s := es[0].index;
      ss[k..s] + [es[0].sprite] + Spliced(ss, s + 1, es[1..])
  }

  /** The replacement the entries name for record `i`, if any. */
  function Replacement(es: seq<Entry>, i: nat): Option<Sprite>
  {
    if es == [] then None
    else if es[0].index == i then Some(es[0].sprite)
    else Replacement(es[1..], i)
  }

  /** `Spliced` is the target with exactly the indexed records replaced: same
      length, and each record either untouched or the entry's. */
  lemma {:induction false} SplicedReplaces(ss: seq<Record>, k: nat, es: seq<Entry>)
    requires k <= |ss| && Ascending(es, k, |ss|)
    ensures |Spliced(ss, k, es)| == |ss| - k
    ensures forall i :: k <= i < |ss| ==>
      Spliced(ss, k, es)[i - k] == (match Replacement(es, i) case Some(x) => x case None => ss[i])
    decreases es
  {
    hide Encode, EncodeStream;
    if es != [] {
      var s := es[0].index;
      SplicedReplaces(ss, s + 1, es[1..]);
      var rest := Spliced(ss, s + 1, es[1..]);
      assert Spliced(ss, k, es) == ss[k..s] + [es[0].sprite] + rest;
      forall i | k <= i < |ss|
        ensures Spliced(ss, k, es)[i - k] == (match Replacement(es, i) case Some(x) => x case None => ss[i])
      {
        if i < s {
          NoReplacementBelow(es[1..], i);
        } else if i > s {
          assert Replacement(es, i) == Replacement(es[1..], i);
        }
      }
    }
  }

  /** No entry of an ascending list names a record below its first index. */
  lemma {:induction false} NoReplacementBelow(es: seq<Entry>, i: nat)
    requires forall j :: 0 <= j < |es| ==> i < es[j].index
    ensures Replacement(es, i) == None
    decreases es
  {
    hide Encode, EncodeStream;
    if es != [] {
      NoReplacementBelow(es[1..], i);
    }
  }

  lemma {:induction false} EncodeStreamAppend(a: seq<Record>, b: seq<Record>)
    ensures EncodeStream(a + b) == EncodeStream(a) + EncodeStream(b)
    decreases a
  {
    hide Encode;
    if a != [] {
      assert (a + b)[0] == a[0] && (a + b)[1..] == a[1..] + b;
      EncodeStreamAppend(a[1..], b);
    } else {
      assert a + b == b;
    }
  }

  /** `t` starts with the records `ss` and their terminator; whatever
      follows (the checksum) is arbitrary. */
  predicate Laid(t: seq<byte>, ss: seq<Record>)
  {
    && |EncodeStream(ss)| + |Terminator| <= |t|
    && t[..|EncodeStream(ss)|] == EncodeStream(ss)
    && t[|EncodeStream(ss)|..|EncodeStream(ss)| + |Terminator|] == Terminator
  }

  /** A target file is laid out as its records and terminator. */
  lemma TargetLaid(ss: seq<Record>, tail: seq<byte>)
    ensures Laid(TargetFile(ss, tail), ss)
  {
    hide Encode, EncodeStream;
    var e := EncodeStream(ss);
    var t := TargetFile(ss, tail);
    assert t[..|e|] == e;
    assert t[|e|..|e| + 2] == Terminator;
  }

  /** The bytes of records `i` to `j` inside a target. */
  lemma StreamSlice(t: seq<byte>, ss: seq<Record>, i: nat, j: nat)
    requires Laid(t, ss) && i <= j <= |ss|
    ensures Offset(ss, i) <= Offset(ss, j) <= |EncodeStream(ss)|
    ensures Offset(ss, j) == Offset(ss, i) + |EncodeStream(ss[i..j])|
    ensures t[Offset(ss, i)..Offset(ss, j)] == EncodeStream(ss[i..j])
  {
    hide Encode, EncodeStream;
    var a, b, c := EncodeStream(ss[..i]), EncodeStream(ss[i..j]), EncodeStream(ss[j..]);
    assert ss[..j] == ss[..i] + ss[i..j];
    EncodeStreamAppend(ss[..i], ss[i..j]);
    assert ss == ss[..j] + ss[j..];
    EncodeStreamAppend(ss[..j], ss[j..]);
    var e := EncodeStream(ss);
    assert e == a + b + c;
    assert e[|a|..|a| + |b|] == b;
    assert t[..|e|] == e;
    SliceOfPrefix(t, e, |a|, |a| + |b|);
  }

  /** A slice inside a prefix of `t` is the same slice of that prefix. */
  lemma SliceOfPrefix(t: seq<byte>, e: seq<byte>, x: nat, y: nat)
    requires x <= y <= |e| <= |t| && t[..|e|] == e
    ensures t[x..y] == e[x..y]
  {
    forall k | 0 <= k < y - x
      ensures t[x..y][k] == e[x..y][k]
    {
      assert t[x + k] == t[..|e|][x + k];
    }
  }

  /** Record `i` of a target is measured as present, ending where record
      `i + 1` starts. */
  lemma MeasureRecord(t: seq<byte>, ss: seq<Record>, i: nat)
    requires Laid(t, ss) && i < |ss|
    ensures Offset(ss, i) < Offset(ss, i + 1) <= |EncodeStream(ss)|
    ensures Measure(t, Offset(ss, i)).Success?
    ensures Measure(t, Offset(ss, i)).value == Step(true, Offset(ss, i + 1))
  {
    hide Encode, Measure;
    StreamSlice(t, ss, i, i + 1);
    assert ss[i..i + 1] == [ss[i]];
    assert EncodeStream([ss[i]]) == Encode(ss[i]);
    MeasureOfEncoding(t, Offset(ss, i), ss[i]);
  }

  /** Catching up from record `j` to index `s` copies records `j` to `s - 1`
      and stops at record `s` with the counter at `s + 1`. */
  lemma {:induction false} CatchUpOfStream(t: seq<byte>, ss: seq<Record>, j: nat, s: u16)
    requires Laid(t, ss) && j <= s < |ss| && s < 0xFFFF
    ensures Offset(ss, j) <= |t|
    ensures CatchUpFrom(t, Offset(ss, j), j + 1, s).Success?
    ensures CatchUpFrom(t, Offset(ss, j), j + 1, s).value == Pos(Offset(ss, s), s + 1)
    decreases s - j
  {
    hide Encode, EncodeStream, Measure;
    StreamSlice(t, ss, j, s);
    if j < s {
      MeasureRecord(t, ss, j);
      CatchUpOfStream(t, ss, j + 1, s);
    }
  }

  /** Copying the rest from record `k` runs through the terminator. */
  lemma {:induction false} CopyRestOfStream(t: seq<byte>, ss: seq<Record>, k: nat)
    requires Laid(t, ss) && k <= |ss|
    ensures Offset(ss, k) <= |t|
    ensures CopyRest(t, Offset(ss, k)).Success?
    ensures CopyRest(t, Offset(ss, k)).value == |EncodeStream(ss)| + |Terminator|
    decreases |ss| - k
  {
    hide Encode, EncodeStream;
    StreamSlice(t, ss, k, |ss|);
    if k < |ss| {
      MeasureRecord(t, ss, k);
      CopyRestOfStream(t, ss, k + 1);
    } else {
      var e := |EncodeStream(ss)|;
      assert ss[..k] == ss;
      assert t[e] == Terminator[0] && t[e + 1] == Terminator[1];
    }
  }

  /** The rest of a target from record `k`: its records and the terminator. */
  lemma RestOfTarget(t: seq<byte>, ss: seq<Record>, k: nat)
    requires Laid(t, ss) && k <= |ss|
    ensures Offset(ss, k) <= |EncodeStream(ss)|
    ensures t[Offset(ss, k)..|EncodeStream(ss)| + |Terminator|] == EncodeStream(ss[k..]) + Terminator
  {
    hide Encode, EncodeStream;
    StreamSlice(t, ss, k, |ss|);
    assert ss[..|ss|] == ss;
    var e := |EncodeStream(ss)|;
    SliceJoin(t, Offset(ss, k), e, e + 2);
  }

  /** The fields of one entry laid out at `dp`: its index, its record and
      whatever follows. */
  lemma EntryFields(grd: seq<byte>, dp: nat, index: u16, rec: seq<byte>, rest: seq<byte>)
    requires dp + 2 + |rec| + |rest| <= |grd| && grd[dp..dp + 2 + |rec| + |rest|] == LE16(index) + rec + rest
    ensures U16At(grd, dp) == index
    ensures grd[dp + 2..dp + 2 + |rec|] == rec
    ensures grd[dp + 2 + |rec|..dp + 2 + |rec| + |rest|] == rest
  {
    hide Encode, EncodeStream;
    SliceSplit(grd, dp, LE16(index) + rec, rest);
    SliceSplit(grd, dp, LE16(index), rec);
    U16AtLE16(grd, dp, index);
  }

  /** The first entry of encoded entries placed at `dp`. */
  lemma EntryAt(grd: seq<byte>, dp: nat, es: seq<Entry>)
    requires es != []
    requires dp + |EncodeEntries(es)| <= |grd| && grd[dp..dp + |EncodeEntries(es)|] == EncodeEntries(es)
    ensures U16At(grd, dp) == es[0].index
    ensures Measure(grd, dp + 2).Success? && Measure(grd, dp + 2).value == Step(true, dp + 2 + |Encode(es[0].sprite)|)
    ensures grd[dp + 2..dp + 2 + |Encode(es[0].sprite)|] == Encode(es[0].sprite)
  {
    hide Encode, EncodeStream, Measure;
    var rec := Encode(es[0].sprite);
    var rest := EncodeEntries(es[1..]);
    assert EncodeEntries(es) == LE16(es[0].index) + rec + rest;
    EntryFields(grd, dp, es[0].index, rec, rest);
    MeasureOfEncoding(grd, dp + 2, es[0].sprite);
  }

  /** The entries after the first, placed after it. */
  lemma EntriesAfter(grd: seq<byte>, dp: nat, es: seq<Entry>)
    requires es != []
    requires dp + |EncodeEntries(es)| <= |grd| && grd[dp..dp + |EncodeEntries(es)|] == EncodeEntries(es)
    ensures |EncodeEntries(es)| == 2 + |Encode(es[0].sprite)| + |EncodeEntries(es[1..])|
    ensures grd[dp + 2 + |Encode(es[0].sprite)|..dp + |EncodeEntries(es)|] == EncodeEntries(es[1..])
  {
    hide Encode, EncodeStream, Measure;
    var rec := Encode(es[0].sprite);
    var rest := EncodeEntries(es[1..]);
    assert EncodeEntries(es) == LE16(es[0].index) + rec + rest;
    EntryFields(grd, dp, es[0].index, rec, rest);
  }

  /** What the target side of one entry turn sees: catching up from record
      `k` to index `s` stops at record `s`, which is then measured. */
  lemma TargetTurn(t: seq<byte>, ss: seq<Record>, k: u16, s: u16)
    requires Laid(t, ss) && k <= s < |ss| && s < 0xFFFF
    ensures Offset(ss, k) <= Offset(ss, s) < Offset(ss, s + 1) <= |t|
    ensures t[Offset(ss, k)..Offset(ss, s)] == EncodeStream(ss[k..s])
    ensures CatchUpFrom(t, Offset(ss, k), Inc16(k), s).Success?
    ensures CatchUpFrom(t, Offset(ss, k), Inc16(k), s).value == Pos(Offset(ss, s), s + 1)
    ensures Measure(t, Offset(ss, s)).Success? && Measure(t, Offset(ss, s)).value == Step(true, Offset(ss, s + 1))
  {
    hide Encode, EncodeStream, Measure, CatchUpFrom;
    StreamSlice(t, ss, k, s);
    MeasureRecord(t, ss, s);
    assert Inc16(k) == k + 1;
    CatchUpOfStream(t, ss, k, s);
  }

  /** One entry turn over a target whose patch side is known: the patch
      record `rec` at `dp + 2` stands for index `s`. */
  lemma EntryOverTarget(t: seq<byte>, ss: seq<Record>, grd: seq<byte>, dp: nat, k: u16, s: u16, rec: seq<byte>, out: seq<byte>)
    requires Laid(t, ss) && k <= s < |ss| && s < 0xFFFF
    requires dp + 2 + |rec| <= |grd|
    requires U16At(grd, dp) == s && grd[dp + 2..dp + 2 + |rec|] == rec
    requires Measure(grd, dp + 2).Success? && Measure(grd, dp + 2).value == Step(true, dp + 2 + |rec|)
    ensures Offset(ss, k) <= |t|
    ensures EntryStep(t, grd, MergeState(Offset(ss, k), dp, k, out)).Success?
    ensures EntryStep(t, grd, MergeState(Offset(ss, k), dp, k, out)).value.gp == Offset(ss, s + 1)
    ensures EntryStep(t, grd, MergeState(Offset(ss, k), dp, k, out)).value.dp == dp + 2 + |rec|
    ensures EntryStep(t, grd, MergeState(Offset(ss, k), dp, k, out)).value.curno == s + 1
    ensures EntryStep(t, grd, MergeState(Offset(ss, k), dp, k, out)).value.out == out + EncodeStream(ss[k..s]) + rec
  {
    hide Encode, EncodeStream, Measure, CatchUpFrom, EntryStep;
    TargetTurn(t, ss, k, s);
    EntryStepOf(t, grd, MergeState(Offset(ss, k), dp, k, out), s, Pos(Offset(ss, s), s + 1), Offset(ss, s + 1), dp + 2 + |rec|,
                EncodeStream(ss[k..s]), rec);
  }

  /** One entry merged into a target: the records before its index are
      copied, the record at its index is dropped and the entry's record is
      written instead. */
  lemma EntryStepOfStream(t: seq<byte>, ss: seq<Record>, grd: seq<byte>, dp: nat, es: seq<Entry>, k: u16, out: seq<byte>)
    requires Laid(t, ss) && es != []
    requires k <= |ss| && Ascending(es, k, |ss|)
    requires dp + |EncodeEntries(es)| <= |grd| && grd[dp..dp + |EncodeEntries(es)|] == EncodeEntries(es)
    ensures Offset(ss, k) <= |t|
    ensures es[0].index + 1 <= |ss| && es[0].index + 1 < 0x1_0000
    ensures EntryStep(t, grd, MergeState(Offset(ss, k), dp, k, out)).Success?
    ensures EntryStep(t, grd, MergeState(Offset(ss, k), dp, k, out)).value.gp == Offset(ss, es[0].index + 1)
    ensures EntryStep(t, grd, MergeState(Offset(ss, k), dp, k, out)).value.dp == dp + 2 + |Encode(es[0].sprite)|
    ensures EntryStep(t, grd, MergeState(Offset(ss, k), dp, k, out)).value.curno == es[0].index + 1
    ensures EntryStep(t, grd, MergeState(Offset(ss, k), dp, k, out)).value.out
         == out + EncodeStream(ss[k..es[0].index]) + Encode(es[0].sprite)
  {
    hide Encode, EncodeStream, Measure, CatchUpFrom, EntryStep, EncodeEntries;
    EntryAt(grd, dp, es);
    EntryOverTarget(t, ss, grd, dp, k, es[0].index, Encode(es[0].sprite), out);
  }

  /** Finishing after record `k`: the remaining records, the terminator and
      the zero checksum. */
  lemma FinishOfStream(t: seq<byte>, ss: seq<Record>, k: nat, dp: nat, curno: u16, out: seq<byte>)
    requires Laid(t, ss) && k <= |ss|
    ensures Offset(ss, k) <= |t|
    ensures FinalOutput(t, MergeState(Offset(ss, k), dp, curno, out)).Success?
    ensures FinalOutput(t, MergeState(Offset(ss, k), dp, curno, out)).value == out + EncodeStream(ss[k..]) + (Terminator + Checksum)
  {
    hide Encode, EncodeStream, Measure, CopyRest, FinalOutput;
    CopyRestOfStream(t, ss, k);
    RestOfTarget(t, ss, k);
    var rest := EncodeStream(ss[k..]) + Terminator;
    FinalOutputOf(t, MergeState(Offset(ss, k), dp, curno, out), |EncodeStream(ss)| + |Terminator|, rest);
    assert out + (EncodeStream(ss[k..]) + Terminator) + Checksum == out + EncodeStream(ss[k..]) + Terminator + Checksum;
    assert out + EncodeStream(ss[k..]) + Terminator + Checksum == out + EncodeStream(ss[k..]) + (Terminator + Checksum);
  }

  /** The records spliced from `k` on are the records before the first
      entry's index, its record, and the records spliced after it. */
  lemma SplicedStep(ss: seq<Record>, k: nat, es: seq<Entry>)
    requires es != []
    requires k <= |ss| && Ascending(es, k, |ss|)
    ensures EncodeStream(Spliced(ss, k, es))
         == EncodeStream(ss[k..es[0].index]) + Encode(es[0].sprite) + EncodeStream(Spliced(ss, es[0].index + 1, es[1..]))
  {
    hide Encode, Measure;
    var s := es[0].index;
    var rec := es[0].sprite;
    var rest := Spliced(ss, s + 1, es[1..]);
    EncodeStreamAppend(ss[k..s], [rec]);
    EncodeStreamAppend(ss[k..s] + [rec], rest);
    assert EncodeStream([rec]) == Encode(rec);
  }

  /** The entries after the first are ascending from just after its index. */
  lemma AscendingTail(es: seq<Entry>, k: nat, count: nat)
    requires es != [] && Ascending(es, k, count)
    ensures k <= es[0].index < count && es[0].index < 0xFFFF
    ensures Ascending(es[1..], es[0].index + 1, count)
  {
    hide Encode, EncodeStream;
    forall i | 0 <= i < |es[1..]|
      ensures es[0].index + 1 <= es[1..][i].index
    {
      assert es[1..][i] == es[i + 1];
    }
  }

  /** The merge on records: merging ascending entries into a target whose
      first `k` records are already consumed, and finishing, writes the
      remaining records with the entries' records in place, the terminator
      and the zero checksum; the patch cursor ends after the entries. */
  lemma {:induction false} MergeOfStream(t: seq<byte>, ss: seq<Record>, grd: seq<byte>, dp: nat, es: seq<Entry>, k: u16, out: seq<byte>)
    requires Laid(t, ss)
    requires k <= |ss| && Ascending(es, k, |ss|)
    requires dp + |EncodeEntries(es)| <= |grd| && grd[dp..dp + |EncodeEntries(es)|] == EncodeEntries(es)
    ensures Offset(ss, k) <= |t|
    ensures MergeEntries(t, grd, MergeState(Offset(ss, k), dp, k, out), |es|).Success?
    ensures MergeEntries(t, grd, MergeState(Offset(ss, k), dp, k, out), |es|).value.dp == dp + |EncodeEntries(es)|
    ensures FinalOutput(t, MergeEntries(t, grd, MergeState(Offset(ss, k), dp, k, out), |es|).value).Success?
    ensures FinalOutput(t, MergeEntries(t, grd, MergeState(Offset(ss, k), dp, k, out), |es|).value).value
         == out + EncodeStream(Spliced(ss, k, es)) + (Terminator + Checksum)
    decreases es, 1
  {
    hide Encode, EncodeStream, Measure, CatchUpFrom, EntryStep, CopyRest;
    if es == [] {
      FinishOfStream(t, ss, k, dp, k, out);
    } else {
      MergeOfStreamStep(t, ss, grd, dp, es, k, out);
    }
  }

  /** The inductive step of `MergeOfStream`: the first entry's turn, then
      the rest of the entries. */
  lemma {:induction false} MergeOfStreamStep(t: seq<byte>, ss: seq<Record>, grd: seq<byte>, dp: nat, es: seq<Entry>, k: u16, out: seq<byte>)
    requires Laid(t, ss) && es != []
    requires k <= |ss| && Ascending(es, k, |ss|)
    requires dp + |EncodeEntries(es)| <= |grd| && grd[dp..dp + |EncodeEntries(es)|] == EncodeEntries(es)
    ensures Offset(ss, k) <= |t|
    ensures MergeEntries(t, grd, MergeState(Offset(ss, k), dp, k, out), |es|).Success?
    ensures MergeEntries(t, grd, MergeState(Offset(ss, k), dp, k, out), |es|).value.dp == dp + |EncodeEntries(es)|
    ensures FinalOutput(t, MergeEntries(t, grd, MergeState(Offset(ss, k), dp, k, out), |es|).value).Success?
    ensures FinalOutput(t, MergeEntries(t, grd, MergeState(Offset(ss, k), dp, k, out), |es|).value).value
         == out + EncodeStream(Spliced(ss, k, es)) + (Terminator + Checksum)
    decreases es, 0
  {
    hide Encode, EncodeStream, Measure, CatchUpFrom, EntryStep, CopyRest, MergeEntries, FinalOutput, EncodeEntries, Spliced;
    var s := es[0].index;
    var rec := Encode(es[0].sprite);
    AscendingTail(es, k, |ss|);
    EntryStepOfStream(t, ss, grd, dp, es, k, out);
    EntriesAfter(grd, dp, es);
    var out' := out + EncodeStream(ss[k..s]) + rec;
    var st' := MergeState(Offset(ss, s + 1), dp + 2 + |rec|, s + 1, out');
    MergeOfStream(t, ss, grd, dp + 2 + |rec|, es[1..], s + 1, out');
    SplicedStep(ss, k, es);
    var a, r := EncodeStream(ss[k..s]), EncodeStream(Spliced(ss, s + 1, es[1..]));
    assert out + a + rec + r + (Terminator + Checksum) == out + (a + rec + r) + (Terminator + Checksum);
    MergeAfterTurn(t, grd, MergeState(Offset(ss, k), dp, k, out), |es|, st', |es[1..]|, dp + |EncodeEntries(es)|,
                   out + EncodeStream(Spliced(ss, k, es)) + (Terminator + Checksum));
  }

  /** The merge of a whole patch set's entries into a target, from the start. */
  lemma MergeTarget(t: seq<byte>, ss: seq<Record>, grd: seq<byte>, dp: nat, es: seq<Entry>)
    requires Laid(t, ss) && Ascending(es, 0, |ss|)
    requires dp + |EncodeEntries(es)| <= |grd| && grd[dp..dp + |EncodeEntries(es)|] == EncodeEntries(es)
    ensures MergeEntries(t, grd, MergeState(0, dp, 0, []), |es|).Success?
    ensures MergeEntries(t, grd, MergeState(0, dp, 0, []), |es|).value.dp == dp + |EncodeEntries(es)|
    ensures FinalOutput(t, MergeEntries(t, grd, MergeState(0, dp, 0, []), |es|).value).Success?
    ensures FinalOutput(t, MergeEntries(t, grd, MergeState(0, dp, 0, []), |es|).value).value
         == EncodeStream(Spliced(ss, 0, es)) + Terminator + Checksum
  {
    hide Encode, Measure, CatchUpFrom, EntryStep, CopyRest;
    assert ss[..0] == [];
    assert Offset(ss, 0) == 0;
    MergeOfStream(t, ss, grd, dp, es, 0, []);
    assert [] + EncodeStream(Spliced(ss, 0, es)) + (Terminator + Checksum) == EncodeStream(Spliced(ss, 0, es)) + Terminator + Checksum;
  }

  /** A patch set without entries copies the target through its terminator
      and replaces whatever followed (the old checksum) by the zero checksum. */
  lemma MergeNoEntries(t: seq<byte>, ss: seq<Record>)
    requires Laid(t, ss)
    ensures FinalOutput(t, MergeState(0, 0, 0, [])).Success?
    ensures FinalOutput(t, MergeState(0, 0, 0, [])).value == EncodeStream(ss) + Terminator + Checksum
  {
    hide Encode, Measure, CatchUpFrom, EntryStep, CopyRest;
    assert ss[..0] == [] && ss[0..] == ss;
    assert Offset(ss, 0) == 0;
    FinishOfStream(t, ss, 0, 0, 0, []);
    assert [] + EncodeStream(ss) + (Terminator + Checksum) == EncodeStream(ss) + Terminator + Checksum;
  }
}
