/** The patch-set loop (`domerge`, src/grfmerge.cpp:434-474): from the
    offset the wrapper check found, read a magic and hand the patch set that
    follows to `mergeset`, then carry on where that set ended. A mismatch on
    the first magic means the file is no patch file; a later one ends the
    run. Each set takes the next target named on the command line, if any. */
module Driver {
  import opened Bytes
  import opened Streams
  import opened PatchSet
  import opened Install

  /** A walk over a stream: `step(q)` says what lies at offset `q` — a
      fault, nothing more to walk (`None`), or an item that ends where the
      next one may start. The walk collects the offsets of the items from
      `p` on; `first` while none has been found, when finding none is a
      `NotPatchFile` fault. */
  function Walk(step: nat -> Result<Option<nat>>, bound: nat, p: nat, first: bool): (r: Result<seq<nat>>)
    requires Advances(step, bound)
    ensures r.Success? ==> forall i :: 0 <= i < |r.value| ==> p <= r.value[i] < bound
    decreases bound - p
  {
    match step(p)
    case Failure(f) => Failure(f)
    case Success(None) => if first then Failure(NotPatchFile) else Success([])
    case Success(Some(q)) => Prepend([p], Walk(step, bound, q, false))
  }

  /** Every item ends after it starts, within `bound`. */
  ghost predicate Advances(step: nat -> Result<Option<nat>>, bound: nat)
  {
    forall q: nat :: step(q).Success? && step(q).value.Some? ==> q < step(q).value.value <= bound
  }

  /** `xs` followed by the offsets `rest` stands for, if any. */
  function Prepend(xs: seq<nat>, rest: Result<seq<nat>>): (r: Result<seq<nat>>)
    ensures r.Success? <==> rest.Success?
    ensures r.Success? ==> r.value == xs + rest.value
  {
    match rest
    case Failure(f) => Failure(f)
    case Success(s) => Success(xs + s)
  }

  /** A walk that succeeds starts at `p` (finding nothing only when an item
      was found before) and stops where `step` finds nothing, right after
      its last item. */
  lemma {:induction false} WalkEnds(step: nat -> Result<Option<nat>>, bound: nat, p: nat, first: bool)
    requires Advances(step, bound) && Walk(step, bound, p, first).Success?
    ensures var s := Walk(step, bound, p, first).value;
      (first ==> s != []) && (s != [] ==> s[0] == p)
    ensures var s := Walk(step, bound, p, first).value;
      s != [] ==> step(s[|s| - 1]).Success? && step(s[|s| - 1]).value.Some?
    ensures var s := Walk(step, bound, p, first).value;
      step(if s == [] then p else step(s[|s| - 1]).value.value) == Success(None)
    decreases bound - p
  {
    if step(p).Success? && step(p).value.Some? {
      var q := step(p).value.value;
      WalkEnds(step, bound, q, false);
      var s, t := Walk(step, bound, p, first).value, Walk(step, bound, q, false).value;
      assert s == [p] + t;
      if t != [] {
        assert s[|s| - 1] == t[|t| - 1];
      }
    }
  }

  /** Each item of a successful walk is found by `step`, and the next one
      starts where it ends. */
  lemma {:induction false} WalkLinked(step: nat -> Result<Option<nat>>, bound: nat, p: nat, first: bool, k: nat)
    requires Advances(step, bound) && Walk(step, bound, p, first).Success?
    requires k < |Walk(step, bound, p, first).value|
    ensures var s := Walk(step, bound, p, first).value;
      step(s[k]).Success? && step(s[k]).value.Some? && (k + 1 < |s| ==> s[k + 1] == step(s[k]).value.value)
    decreases bound - p
  {
    var q := step(p).value.value;
    var s, t := Walk(step, bound, p, first).value, Walk(step, bound, q, false).value;
    assert s == [p] + t;
    if k == 0 {
      if |s| > 1 {
        WalkEnds(step, bound, q, false);
      }
    } else {
      WalkLinked(step, bound, q, false, k - 1);
      assert s[k] == t[k - 1];
    }
  }

  /** What lies at `q` of the patch stream `grd`: a short read, four bytes
      that are not the magic, or a magic and a well-formed patch set, whose
      end is where the next magic may lie. */
  function FindSet(grd: seq<byte>, q: nat): (r: Result<Option<nat>>)
    ensures r.Success? && r.value.Some? ==> q < r.value.value <= |grd|
  {
    if q + 4 > |grd| then Failure(ShortRead)
    else if U32At(grd, q) != PatchMagic then Success(None)
    else
      match SetAt(grd, q + 4)
      case Failure(f) => Failure(f)
      case Success(info) => Success(Some(info.end))
  }

  /** The offsets of the magics of the patch sets of the stream `grd` read
      from `p`; `first` while no set has been read yet. */
  function SetsFrom(grd: seq<byte>, p: nat, first: bool): (r: Result<seq<nat>>)
    ensures r.Success? ==> forall i :: 0 <= i < |r.value| ==> p <= r.value[i] < |grd|
  {
    Walk(Finder(grd), |grd|, p, first)
  }

  /** `FindSet` over the stream `grd`, as the step of a walk. */
  function Finder(grd: seq<byte>): (step: nat -> Result<Option<nat>>)
    ensures forall q: nat :: step(q) == FindSet(grd, q)
    ensures Advances(step, |grd|)
  {
    (q: nat) => FindSet(grd, q)
  }

  /** One step of the walk over patch sets. */
  lemma SetsStep(grd: seq<byte>, p: nat, first: bool)
    ensures FindSet(grd, p).Failure? ==> SetsFrom(grd, p, first) == Failure(FindSet(grd, p).fault)
    ensures FindSet(grd, p) == Success(None) ==> SetsFrom(grd, p, first) == if first then Failure(NotPatchFile) else Success([])
    ensures FindSet(grd, p).Success? && FindSet(grd, p).value.Some? ==>
      SetsFrom(grd, p, first) == Prepend([p], SetsFrom(grd, FindSet(grd, p).value.value, false))
  {
  }

  /** What `FindSet` finds: a magic and a well-formed set, whose end it gives. */
  lemma FoundSet(grd: seq<byte>, q: nat)
    requires FindSet(grd, q).Success? && FindSet(grd, q).value.Some?
    ensures q + 4 <= |grd| && U32At(grd, q) == PatchMagic && SetAt(grd, q + 4).Success?
    ensures FindSet(grd, q).value.value == SetAt(grd, q + 4).value.end
  {
  }

  /** What `FindSet` finds when it finds nothing: four bytes that are not the magic. */
  lemma FoundNone(grd: seq<byte>, q: nat)
    requires FindSet(grd, q) == Success(None)
    ensures q + 4 <= |grd| && U32At(grd, q) != PatchMagic
  {
  }

  /** A successful run over the patch sets finds the first magic at `p`,
      and no set only after an earlier one. */
  lemma SetsStart(grd: seq<byte>, p: nat, first: bool)
    requires SetsFrom(grd, p, first).Success?
    ensures var s := SetsFrom(grd, p, first).value;
      (first ==> s != []) && (s != [] ==> s[0] == p)
  {
    WalkEnds(Finder(grd), |grd|, p, first);
  }

  /** A successful run over the patch sets stops where `FindSet` finds
      no magic: right after its last set, or at `p` when it found none. */
  lemma SetsStop(grd: seq<byte>, p: nat, first: bool)
    requires SetsFrom(grd, p, first).Success?
    ensures var s := SetsFrom(grd, p, first).value;
      s != [] ==> FindSet(grd, s[|s| - 1]).Success? && FindSet(grd, s[|s| - 1]).value.Some?
    ensures var s := SetsFrom(grd, p, first).value;
      FindSet(grd, if s == [] then p else FindSet(grd, s[|s| - 1]).value.value) == Success(None)
  {
    WalkEnds(Finder(grd), |grd|, p, first);
  }

  /** Each offset of a successful run holds a patch set, and the next offset
      is where it ends. */
  lemma SetsLinked(grd: seq<byte>, p: nat, first: bool, k: nat)
    requires SetsFrom(grd, p, first).Success? && k < |SetsFrom(grd, p, first).value|
    ensures var s := SetsFrom(grd, p, first).value;
      && FindSet(grd, s[k]).Success? && FindSet(grd, s[k]).value.Some?
      && (k + 1 < |s| ==> s[k + 1] == FindSet(grd, s[k]).value.value)
  {
    WalkLinked(Finder(grd), |grd|, p, first, k);
  }

  /** One pass of the loop as a value (src/grfmerge.cpp:448-465): the
      magic at `q` and, when it matches, what becomes of the patch set after
      it; `None` when the magic does not match. */
  function Pass(grd: seq<byte>, q: nat, grffile: Option<string>, onlyShow: bool, files: Files, locked: set<string>,
                alwaysYes: bool, replies: seq<bool>, temp: string): (r: Result<Option<Outcome>>)
    ensures r.Success? ==> FindSet(grd, q).Success? && (r.value.Some? <==> FindSet(grd, q).value.Some?)
    ensures onlyShow ==> (r.Success? <==> FindSet(grd, q).Success?)
    ensures onlyShow && r.Success? && r.value.Some? ==> r.value.value.files == files && r.value.value.replies == replies
  {
    if q + 4 > |grd| then Failure(ShortRead)
    else if U32At(grd, q) != PatchMagic then Success(None)
    else
      match SetOutcome(grd, q + 4, grffile, onlyShow, files, locked, alwaysYes, replies, temp)
      case Failure(f) => Failure(f)
      case Success(o) => Success(Some(o))
  }

  /** A run over patch sets: the offsets of their magics, a report for
      each, the files afterwards and the user's answers still to come. */
  datatype Run = Run(offsets: seq<nat>, reports: seq<Report>, files: Files, replies: seq<bool>)

  /** The sets at `offsets` with the reports `reports`, followed by the run
      `rest`, if it completes. */
  function Joined(offsets: seq<nat>, reports: seq<Report>, rest: Result<Run>): (r: Result<Run>)
    ensures rest.Failure? ==> r == rest
    ensures r.Success? <==> rest.Success?
    ensures r.Success? ==> r.value == Run(offsets + rest.value.offsets, reports + rest.value.reports, rest.value.files, rest.value.replies)
  {
    match rest
    case Failure(f) => Failure(f)
    case Success(run) => Success(Run(offsets + run.offsets, reports + run.reports, run.files, run.replies))
  }

  /** The run over the patch sets as a value (src/grfmerge.cpp:447-467),
      from offset `p` of the stream `grd`, where the `k`th set takes the
      `k`th target, if any. It deals with the patch sets `SetsFrom` finds,
      one report each, and fails when one of them cannot be dealt with; a run
      that only lists can fail only when the sets cannot be read, and
      changes nothing. */
  function RunFrom(grd: seq<byte>, p: nat, first: bool, targets: seq<string>, onlyShow: bool, files: Files,
                   locked: set<string>, alwaysYes: bool, replies: seq<bool>, temp: string, k: nat): (r: Result<Run>)
    ensures r.Success? ==> SetsFrom(grd, p, first) == Success(r.value.offsets) && |r.value.reports| == |r.value.offsets|
    ensures first && p + 4 <= |grd| && U32At(grd, p) != PatchMagic ==> r == Failure(NotPatchFile)
    ensures onlyShow ==> (r.Success? <==> SetsFrom(grd, p, first).Success?)
    ensures onlyShow && r.Success? ==> r.value.files == files && r.value.replies == replies
    decreases |grd| - p
  {
    SetsStep(grd, p, first);
    var grffile := if k < |targets| then Some(targets[k]) else None;
    match Pass(grd, p, grffile, onlyShow, files, locked, alwaysYes, replies, temp)
    case Failure(f) => Failure(f)
    case Success(None) => if first then Failure(NotPatchFile) else Success(Run([], [], files, replies))
    case Success(Some(o)) =>
      Joined([p], [o.report], RunFrom(grd, FindSet(grd, p).value.value, false, targets, onlyShow, o.files, locked, alwaysYes, o.replies, temp, k + 1))
  }

  /** What a pass of the loop leaves behind, in the terms of `Pass`: its
      result with the files and the answers left after it. */
  function Passed(r: Result<Option<Report>>, files: Files, replies: seq<bool>): (o: Result<Option<Outcome>>)
    ensures o.Success? <==> r.Success?
  {
    match r
    case Failure(f) => Failure(f)
    case Success(None) => Success(None)
    case Success(Some(report)) => Success(Some(Outcome(report, files, replies)))
  }

  /** One step of the run after the sets at `offsets` with the reports
      `reports`, from a pass that left `r`, the files `files'` and the
      answers `replies'`: a failed pass ends the run, a mismatching magic
      closes it, and a set dealt with is followed by the run from its end. */
  lemma RunAdvance(grd: seq<byte>, p: nat, first: bool, targets: seq<string>, onlyShow: bool, files: Files,
                   locked: set<string>, alwaysYes: bool, replies: seq<bool>, temp: string, offsets: seq<nat>, reports: seq<Report>,
                   r: Result<Option<Report>>, files': Files, replies': seq<bool>)
    requires Passed(r, files', replies') ==
      Pass(grd, p, if |offsets| < |targets| then Some(targets[|offsets|]) else None, onlyShow, files, locked, alwaysYes, replies, temp)
    ensures var run := Joined(offsets, reports, RunFrom(grd, p, first, targets, onlyShow, files, locked, alwaysYes, replies, temp, |offsets|));
      && (r.Failure? ==> run == Failure(r.fault))
      && (r == Success(None) ==> run == if first then Failure(NotPatchFile) else Success(Run(offsets, reports, files, replies)))
      && (r.Success? && r.value.Some? ==>
            && FindSet(grd, p).Success? && FindSet(grd, p).value.Some?
            && run == Joined(offsets + [p], reports + [r.value.value],
                             RunFrom(grd, FindSet(grd, p).value.value, false, targets, onlyShow, files', locked, alwaysYes, replies', temp, |offsets| + 1)))
  {
    if r == Success(None) {
      assert offsets + [] == offsets && reports + [] == reports;
    } else if r.Success? {
      var later := RunFrom(grd, FindSet(grd, p).value.value, false, targets, onlyShow, files', locked, alwaysYes, replies', temp, |offsets| + 1);
      if later.Success? {
        assert offsets + ([p] + later.value.offsets) == (offsets + [p]) + later.value.offsets;
        assert reports + ([r.value.value] + later.value.reports) == (reports + [r.value.value]) + later.value.reports;
      }
    }
  }

  /** One pass of the loop (src/grfmerge.cpp:448-465): seek to `grdofs`,
      read the magic and, when it matches, deal with the patch set after it;
      `None` when the magic does not match. The stream is walked as
      `FindSet` says, whatever is done with the set. */
  method NextSet(grd: Reader, grdofs: nat, grffile: Option<string>, onlyShow: bool, fs: FileSystem, console: Console, temp: string)
    returns (r: Result<Option<Report>>)
    requires grd.Valid() && EndsWith(temp, ".tmp") && (grffile.Some? ==> grffile.value != temp)
    modifies grd, fs, console
    ensures grd.Valid()
    ensures r.Success? ==> FindSet(grd.data, grdofs).Success? && (r.value.Some? <==> FindSet(grd.data, grdofs).value.Some?)
    ensures r.Success? && r.value.Some? ==> grd.pos == FindSet(grd.data, grdofs).value.value
    ensures FindSet(grd.data, grdofs) == Success(None) ==> r == Success(None)
    ensures Passed(r, fs.files, console.replies) == Pass(grd.data, grdofs, grffile, onlyShow, old(fs.files), fs.locked, console.alwaysYes, old(console.replies), temp)
    ensures r == Success(None) ==> fs.files == old(fs.files) && console.replies == old(console.replies)
    ensures onlyShow ==> fs.files == old(fs.files) && console.replies == old(console.replies)
  {
    if grdofs > |grd.data| {
      return Failure(ShortRead);
    }
    grd.Seek(grdofs);
    var magic := ReadU32(grd);
    if magic.Failure? {
      return Failure(magic.fault);
    }
    if magic.value != PatchMagic {
      return Success(None);
    }
    var done := MergeSet(grd, grffile, onlyShow, fs, console, temp);
    if done.Failure? {
      return Failure(done.fault);
    }
    r := Success(Some(done.value));
  }

  /** The run over all patch sets (src/grfmerge.cpp:447-467). `start` is
      where the first set's magic lies; `targets` are the file names left on
      the command line; `temp` is the temporary file's name. A run that
      completes has dealt with the sets whose magics lie at `offsets`, which
      are the sets of the stream; a stream whose sets cannot all be read
      ends the run with a fault. */
  method DoMerge(grd: Reader, start: nat, targets: seq<string>, onlyShow: bool, fs: FileSystem, console: Console, temp: string)
    returns (r: Result<seq<Report>>, offsets: seq<nat>)
    requires grd.Valid() && EndsWith(temp, ".tmp")
    requires forall k :: 0 <= k < |targets| ==> targets[k] != temp
    modifies grd, fs, console
    ensures r.Success? ==> SetsFrom(grd.data, start, true) == Success(offsets) && |r.value| == |offsets|
    ensures SetsFrom(grd.data, start, true).Failure? ==> r.Failure?
    ensures start + 4 <= |grd.data| && U32At(grd.data, start) != PatchMagic ==> r == Failure(NotPatchFile)
    ensures var o := RunFrom(grd.data, start, true, targets, onlyShow, old(fs.files), fs.locked, console.alwaysYes, old(console.replies), temp, 0);
      && (r.Success? <==> o.Success?) && (r.Failure? ==> r.fault == o.fault)
      && (r.Success? ==> offsets == o.value.offsets && r.value == o.value.reports && fs.files == o.value.files && console.replies == o.value.replies)
    ensures onlyShow ==> fs.files == old(fs.files) && console.replies == old(console.replies)
  {
    hide *;
    ghost var run := RunFrom(grd.data, start, true, targets, onlyShow, fs.files, fs.locked, console.alwaysYes, console.replies, temp, 0);
    assert Joined([], [], run) == run by {
      if run.Success? {
        assert [] + run.value.offsets == run.value.offsets && [] + run.value.reports == run.value.reports;
      }
    }
    var grdofs := start;
    var first := true;
    var reports: seq<Report> := [];
    offsets := [];
    while true
      invariant grd.Valid() && first == (offsets == [])
      invariant Joined(offsets, reports, RunFrom(grd.data, grdofs, first, targets, onlyShow, fs.files, fs.locked, console.alwaysYes,
                                                 console.replies, temp, |offsets|)) == run
      invariant onlyShow ==> fs.files == old(fs.files) && console.replies == old(console.replies)
      decreases |grd.data| - grdofs
    {
      var grffile := if |offsets| < |targets| then Some(targets[|offsets|]) else None;
      ghost var files, replies := fs.files, console.replies;
      var next := NextSet(grd, grdofs, grffile, onlyShow, fs, console, temp);
      RunAdvance(grd.data, grdofs, first, targets, onlyShow, files, fs.locked, console.alwaysYes, replies, temp, offsets, reports,
                 next, fs.files, console.replies);
      if next.Failure? {
        r := Failure(next.fault);
        break;
      }
      if next.value.None? {
        r := if first then Failure(NotPatchFile) else Success(reports);
        break;
      }
      first := false;
      reports := reports + [next.value.value];
      offsets := offsets + [grdofs];
      grdofs := grd.pos;
    }
  }
}
