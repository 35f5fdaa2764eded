/** One patch set (`mergeset`, src/grfmerge.cpp:255-432): its header, then
    one of three courses. In listing mode the entries' indices are listed;
    otherwise the target is chosen and checked against the embedded name,
    the set is merged into a temporary file, and the temporary file is
    installed under the target's name. Whatever the course, the patch
    stream is consumed up to the same place: the end of the set. */
module PatchSet {
  import opened Bytes
  import opened Streams
  import opened RecordCodec
  import opened Merge
  import opened Listing
  import opened Names
  import opened Install
  import opened SpriteFormat
  import opened MergeCorrectness

  /** The header of a patch set, after its magic: format version, number of
      entries and the name of the file it was made from. */
  datatype Header = Header(version: u16, count: u16, name: seq<byte>)

  /** A patch set located in the patch stream: its header, where its entries
      start and end, and the entries' indices. */
  datatype SetInfo = SetInfo(header: Header, body: nat, end: nat, indices: seq<u16>)

  /** The header at `p` (src/grfmerge.cpp:268-278): a version above 1 is
      refused as soon as it is read; a name-length byte of 128 or more is
      negative as a `char` and ends the run. */
  function HeaderAt(grd: seq<byte>, p: nat): (r: Result<(Header, nat)>)
    ensures r.Success? ==> var (h, body) := r.value;
      && h.version <= 1 && |h.name| < 128 && body == p + 5 + |h.name| <= |grd|
      && grd[p + 5..body] == h.name
  {
    if p + 2 > |grd| then Failure(ShortRead)
    else if U16At(grd, p) > 1 then Failure(UnknownVersion(U16At(grd, p)))
    else if p + 5 > |grd| then Failure(ShortRead)
    else if grd[p + 4] >= 128 then Failure(BadNameLength)
    else if p + 5 + grd[p + 4] as nat > |grd| then Failure(ShortRead)
    else Success((Header(U16At(grd, p), U16At(grd, p + 2), grd[p + 5..p + 5 + grd[p + 4] as nat]), p + 5 + grd[p + 4] as nat))
  }

  /** The whole patch set at `p`: its header and its drained entries. */
  function SetAt(grd: seq<byte>, p: nat): (r: Result<SetInfo>)
    requires p <= |grd|
    ensures r.Success? ==> p < r.value.body <= r.value.end <= |grd| && |r.value.indices| == r.value.header.count
  {
    match HeaderAt(grd, p)
    case Failure(f) => Failure(f)
    case Success((h, body)) =>
      match Drain(grd, body, h.count)
      case Failure(f) => Failure(f)
      case Success(d) => Success(SetInfo(h, body, d.end, d.indices))
  }

  /** The embedded name as characters. */
  function NameText(name: seq<byte>): (s: string)
    ensures |s| == |name| && forall i :: 0 <= i < |name| ==> s[i] as int == name[i] as int
  {
    seq(|name|, i requires 0 <= i < |name| => name[i] as int as char)
  }

  /** The target: the file named on the command line, or else the embedded
      name with `.grf` appended. */
  function TargetName(grffile: Option<string>, name: seq<byte>): (t: string)
    ensures grffile.Some? ==> t == grffile.value
    ensures grffile.None? ==> EndsWith(t, ".grf") && |t| - 4 <= |name| && t[..|t| - 4] == NameText(name)[..|t| - 4]
  {
    match grffile
    case Some(f) => f
    case None => DefaultTarget(NameText(name))
  }

  /** The output of merging `n` entries at `p` of the patch stream into the
      target `grf`: the merged records, the target's terminator and the zero
      checksum. */
  function MergedOutput(grf: seq<byte>, grd: seq<byte>, p: nat, n: nat): (r: Result<seq<byte>>)
    requires p <= |grd|
    ensures r.Success? ==> |r.value| >= |Checksum| && r.value[|r.value| - |Checksum|..] == Checksum
    ensures MergeEntries(grf, grd, MergeState(0, p, 0, []), n).Failure? ==> r.Failure?
  {
    match MergeEntries(grf, grd, MergeState(0, p, 0, []), n)
    case Failure(f) => Failure(f)
    case Success(st) => FinalOutput(grf, st)
  }

  /** For a target made of the records `ss` and ascending entries `es` at
      `dp`, the merged output is the target's records with the entries'
      records in their places, the terminator and the zero checksum. */
  lemma MergedOutputSplices(t: seq<byte>, ss: seq<Record>, grd: seq<byte>, dp: nat, es: seq<Entry>)
    requires Laid(t, ss) && Ascending(es, 0, |ss|)
    requires dp + |EncodeEntries(es)| <= |grd| && grd[dp..dp + |EncodeEntries(es)|] == EncodeEntries(es)
    ensures MergedOutput(t, grd, dp, |es|) == Success(EncodeStream(Spliced(ss, 0, es)) + Terminator + Checksum)
  {
    MergeTarget(t, ss, grd, dp, es);
  }

  /** How a patch set that did not end the run was dealt with. */
  datatype Report =
    | Listed(text: string)
    | Declined
    | Skipped(target: string)
    | Installed(target: string, content: seq<byte>)

  predicate EndsWith(s: string, suffix: string)
  {
    |s| >= |suffix| && s[|s| - |suffix|..] == suffix
  }

  /** A patch set dealt with: the report, the files afterwards and the
      user's answers still to come. */
  datatype Outcome = Outcome(report: Report, files: Files, replies: seq<bool>)

  /** `o`, once the `n` entries at `p` have been drained. */
  function AfterDrain(grd: seq<byte>, p: nat, n: nat, o: Outcome): (r: Result<Outcome>)
    requires p <= |grd|
    ensures r.Success? <==> Drain(grd, p, n).Success?
  {
    match Drain(grd, p, n)
    case Failure(f) => Failure(f)
    case Success(_) => Success(o)
  }

  /** How a patch set with header `h` and entries at `p` is applied
      (src/grfmerge.cpp:283-431), from the files and the answers before it.
      A failed name check asks the user; a refusal drains the set. A target
      that cannot be opened is skipped, after draining the set. Otherwise
      the temporary file is created, the set is merged into it and the
      result installed, which may ask the user once more. */
  function Applied(grd: seq<byte>, p: nat, h: Header, grffile: Option<string>, files: Files, locked: set<string>,
                   alwaysYes: bool, replies: seq<bool>, temp: string): (r: Result<Outcome>)
    requires p <= |grd|
    ensures r.Success? ==> Drain(grd, p, h.count).Success?
  {
    var asked := grffile.Some? && !NameMatches(grffile.value, NameText(h.name));
    var left := if asked then Answered(alwaysYes, replies) else replies;
    var target := TargetName(grffile, h.name);
    if asked && !Reply(alwaysYes, replies) then AfterDrain(grd, p, h.count, Outcome(Declined, files, left))
    else if target !in files then AfterDrain(grd, p, h.count, Outcome(Skipped(target), files, left))
    else if temp in locked then Failure(CannotCreateTemp)
    else
      match MergedOutput(files[target], grd, p, h.count)
      case Failure(f) => Failure(f)
      case Success(content) =>
        MergeConsumesLikeDrain(files[target], grd, MergeState(0, p, 0, []), h.count);
        var i := Install.Install(files[temp := content], locked, target, temp, Reply(alwaysYes, left));
        if i.fault.Some? then Failure(i.fault.value)
        else Success(Outcome(Installed(target, content), Final(i), if i.asked then Answered(alwaysYes, left) else left))
  }

  /** How the patch set whose header is at `p` is dealt with
      (src/grfmerge.cpp:255-432): listed, or applied. */
  function SetOutcome(grd: seq<byte>, p: nat, grffile: Option<string>, onlyShow: bool, files: Files, locked: set<string>,
                      alwaysYes: bool, replies: seq<bool>, temp: string): (r: Result<Outcome>)
    requires p <= |grd|
    ensures r.Success? ==> SetAt(grd, p).Success?
    ensures onlyShow ==> (r.Success? <==> SetAt(grd, p).Success?)
    ensures onlyShow && r.Success? ==>
      r.value == Outcome(Listed(Summary(SetAt(grd, p).value.indices)), files, replies)
  {
    match HeaderAt(grd, p)
    case Failure(f) => Failure(f)
    case Success((h, body)) =>
      if onlyShow then
        match Drain(grd, body, h.count)
        case Failure(f) => Failure(f)
        case Success(d) => Success(Outcome(Listed(Summary(d.indices)), files, replies))
      else Applied(grd, body, h, grffile, files, locked, alwaysYes, replies, temp)
  }

  /** Reading the header (src/grfmerge.cpp:268-278). */
  method ReadHeader(grd: Reader) returns (r: Result<(Header, nat)>)
    requires grd.Valid()
    modifies grd
    ensures grd.Valid()
    ensures r == HeaderAt(grd.data, old(grd.pos))
    ensures r.Success? ==> grd.pos == r.value.1
  {
    var version := ReadU16(grd);
    if version.Failure? {
      return Failure(version.fault);
    }
    if version.value > 1 {
      return Failure(UnknownVersion(version.value));
    }
    var count := ReadU16(grd);
    if count.Failure? {
      return Failure(count.fault);
    }
    var length := ReadByte(grd);
    if length.Failure? {
      return Failure(length.fault);
    }
    if length.value >= 128 {
      return Failure(BadNameLength);
    }
    var name := ReadBytes(length.value as nat, grd);
    if name.Failure? {
      return Failure(name.fault);
    }
    r := Success((Header(version.value, count.value, name.value), grd.pos));
  }

  /** The entry loop and the end of listing mode (src/grfmerge.cpp:340-354,
      368-373): the listing of the entries' indices, each record skipped. */
  method ListEntries(grd: Reader, n: u16) returns (r: Result<string>)
    requires grd.Valid()
    modifies grd
    ensures grd.Valid()
    ensures r.Success? <==> Drain(grd.data, old(grd.pos), n).Success?
    ensures r.Failure? ==> Drain(grd.data, old(grd.pos), n) == Failure(r.fault)
    ensures r.Success? ==> grd.pos == Drain(grd.data, old(grd.pos), n).value.end
    ensures r.Success? ==> r.value == Summary(Drain(grd.data, old(grd.pos), n).value.indices)
  {
    hide Measure, Summary, Coalesce, Render, StateAfter, Listing.Step, Closed, Printed;
    ghost var expected := Drain(grd.data, grd.pos, n);
    var lister := new Lister();
    var i: u16 := 0;
    while i < n
      invariant fresh(lister) && grd.Valid() && lister.Valid() && i <= n
      invariant DrainFrom(grd.data, grd.pos, n - i, lister.seen) == expected
    {
      ghost var here, seen := grd.pos, lister.seen;
      var spriteno := ReadU16(grd);
      if spriteno.Failure? {
        DrainStops(grd.data, here, n - i, seen);
        return Failure(spriteno.fault);
      }
      lister.Add(spriteno.value);
      var skipped := SkipSprite(grd);
      if skipped.Failure? {
        DrainStops(grd.data, here, n - i, seen);
        return Failure(skipped.fault);
      }
      DrainStep(grd.data, here, n - i, seen, grd.pos, lister.seen);
      i := i + 1;
    }
    lister.Finish();
    r := Success(lister.text);
  }

  /** Draining dies at an entry whose index is cut short, or with the
      fault of a record that cannot be measured. */
  lemma DrainStops(grd: seq<byte>, p: nat, n: nat, seen: seq<u16>)
    requires p <= |grd| && n > 0
    ensures p + 2 > |grd| ==> DrainFrom(grd, p, n, seen) == Failure(ShortRead)
    ensures p + 2 <= |grd| && Measure(grd, p + 2).Failure? ==> DrainFrom(grd, p, n, seen) == Failure(Measure(grd, p + 2).fault)
  {
  }

  lemma DrainStep(grd: seq<byte>, p: nat, n: nat, seen: seq<u16>, q: nat, seen': seq<u16>)
    requires p + 2 <= |grd| && n > 0
    requires Measure(grd, p + 2).Success? && q == Measure(grd, p + 2).value.next
    requires seen' == seen + [U16At(grd, p)]
    ensures DrainFrom(grd, p, n, seen) == DrainFrom(grd, q, n - 1, seen')
  {
  }

  /** Merge mode once the target is open (src/grfmerge.cpp:317-383): the
      temporary file is created, the entries are merged and the rest of the
      target copied. The run dies on any fault, and `exit` flushes what was
      written so far into the temporary file. */
  method MergeInto(grd: Reader, fs: FileSystem, grf: seq<byte>, temp: string, n: u16) returns (r: Result<seq<byte>>)
    requires grd.Valid()
    modifies grd, fs
    ensures grd.Valid()
    ensures r == if temp in fs.locked then Failure(CannotCreateTemp) else MergedOutput(grf, grd.data, old(grd.pos), n)
    ensures r.Success? ==> fs.files == old(fs.files)[temp := r.value]
    ensures r.Success? ==> Drain(grd.data, old(grd.pos), n).Success? && grd.pos == Drain(grd.data, old(grd.pos), n).value.end
    ensures forall other :: other != temp ==> (other in fs.files <==> other in old(fs.files))
    ensures forall other :: other != temp && other in fs.files ==> fs.files[other] == old(fs.files)[other]
  {
    var start := grd.pos;
    var source := new Reader(grf);
    var tmp := new Writer();
    var created := fs.Store(temp, []);
    if !created {
      return Failure(CannotCreateTemp);
    }
    var st := MergeAll(source, grd, tmp, n);
    if st.Failure? {
      var _ := fs.Store(temp, tmp.out);
      return Failure(st.fault);
    }
    MergeConsumesLikeDrain(grf, grd.data, MergeState(0, start, 0, []), n as nat);
    var out := Finish(source, tmp);
    var _ := fs.Store(temp, tmp.out);
    r := out;
  }

  /** A patch set, from its header on (src/grfmerge.cpp:255-432). `grffile`
      is the target named on the command line, if any; `temp` is the name of
      the temporary file, which ends in `.tmp` and so differs from every
      default target and backup name. */
  method MergeSet(grd: Reader, grffile: Option<string>, onlyShow: bool, fs: FileSystem, console: Console, temp: string)
    returns (r: Result<Report>)
    requires grd.Valid() && EndsWith(temp, ".tmp") && (grffile.Some? ==> grffile.value != temp)
    modifies grd, fs, console
    ensures grd.Valid()
    ensures var o := SetOutcome(grd.data, old(grd.pos), grffile, onlyShow, old(fs.files), fs.locked, console.alwaysYes, old(console.replies), temp);
      && (r.Success? <==> o.Success?) && (r.Failure? ==> r.fault == o.fault)
      && (r.Success? ==> r.value == o.value.report && fs.files == o.value.files && console.replies == o.value.replies)
    ensures r.Success? ==> SetAt(grd.data, old(grd.pos)).Success? && grd.pos == SetAt(grd.data, old(grd.pos)).value.end
    ensures onlyShow ==> fs.files == old(fs.files) && console.replies == old(console.replies)
    ensures onlyShow && r.Success? ==> r.value == Listed(Summary(SetAt(grd.data, old(grd.pos)).value.indices))
    ensures r.Success? && (r.value.Declined? || r.value.Skipped?) ==> fs.files == old(fs.files)
    ensures r.Success? && r.value.Declined? ==>
      var h := SetAt(grd.data, old(grd.pos)).value.header;
      grffile.Some? && !NameMatches(grffile.value, NameText(h.name))
    ensures r.Success? && r.value.Skipped? ==>
      r.value.target == TargetName(grffile, SetAt(grd.data, old(grd.pos)).value.header.name) && r.value.target !in old(fs.files)
    ensures r.Success? && r.value.Installed? ==>
      var info := SetAt(grd.data, old(grd.pos)).value;
      var target := r.value.target;
      && target == TargetName(grffile, info.header.name) && target in old(fs.files)
      && MergedOutput(old(fs.files)[target], grd.data, info.body, info.header.count) == Success(r.value.content)
      && target in fs.files && fs.files[target] == r.value.content && temp !in fs.files
  {
    var header := ReadHeader(grd);
    if header.Failure? {
      return Failure(header.fault);
    }
    var (h, body) := header.value;
    if onlyShow {
      var text := ListEntries(grd, h.count);
      if text.Failure? {
        return Failure(text.fault);
      }
      return Success(Listed(text.value));
    }
    r := ApplySet(grd, h, grffile, fs, console, temp);
  }

  /** A patch set with header `h` after its header (src/grfmerge.cpp:283-431),
      when it is to be applied: the name check, the target's presence, the
      merge into the temporary file and its installation. */
  method ApplySet(grd: Reader, h: Header, grffile: Option<string>, fs: FileSystem, console: Console, temp: string)
    returns (r: Result<Report>)
    requires grd.Valid() && EndsWith(temp, ".tmp") && (grffile.Some? ==> grffile.value != temp)
    modifies grd, fs, console
    ensures grd.Valid()
    ensures var o := Applied(grd.data, old(grd.pos), h, grffile, old(fs.files), fs.locked, console.alwaysYes, old(console.replies), temp);
      && (r.Success? <==> o.Success?) && (r.Failure? ==> r.fault == o.fault)
      && (r.Success? ==> r.value == o.value.report && fs.files == o.value.files && console.replies == o.value.replies)
    ensures r.Success? ==> Drain(grd.data, old(grd.pos), h.count).Success? && grd.pos == Drain(grd.data, old(grd.pos), h.count).value.end
    ensures r.Success? ==> !r.value.Listed?
    ensures r.Success? && (r.value.Declined? || r.value.Skipped?) ==> fs.files == old(fs.files)
    ensures r.Success? && r.value.Declined? ==> grffile.Some? && !NameMatches(grffile.value, NameText(h.name))
    ensures r.Success? && r.value.Skipped? ==> r.value.target == TargetName(grffile, h.name) && r.value.target !in old(fs.files)
    ensures r.Success? && r.value.Installed? ==>
      var target := r.value.target;
      && target == TargetName(grffile, h.name) && target in old(fs.files)
      && MergedOutput(old(fs.files)[target], grd.data, old(grd.pos), h.count) == Success(r.value.content)
      && target in fs.files && fs.files[target] == r.value.content && temp !in fs.files
  {
    hide Measure, DrainFrom, MergeEntries, EntryStep, FinalOutput, CopyRest, CatchUpFrom, Agree, LastIndex, FirstIndex, CString, BackupName;
    var name := NameText(h.name);
    if grffile.Some? && !NameMatches(grffile.value, name) {
      var yes := console.YesNo();
      if !yes {
        var drained := DrainEntries(grd, h.count);
        if drained.Failure? {
          return Failure(drained.fault);
        }
        return Success(Declined);
      }
    }
    var target := TargetName(grffile, h.name);
    var present := fs.Exists(target);
    if !present {
      var drained := DrainEntries(grd, h.count);
      if drained.Failure? {
        return Failure(drained.fault);
      }
      return Success(Skipped(target));
    }
    TempIsNotTarget(grffile, h.name, temp);
    var merged := MergeInto(grd, fs, fs.files[target], temp, h.count);
    if merged.Failure? {
      return Failure(merged.fault);
    }
    ghost var ready, left := fs.files, console.replies;
    assert Ready(ready, target, temp);
    var fault := InstallMerged(fs, console, target, temp);
    if fault.Some? {
      return Failure(fault.value);
    }
    InstallReplaces(ready, fs.locked, target, temp, Reply(console.alwaysYes, left));
    r := Success(Installed(target, merged.value));
  }

  /** A name ending in `.tmp` is neither a default target nor a backup name. */
  lemma TempIsNotTarget(grffile: Option<string>, name: seq<byte>, temp: string)
    requires EndsWith(temp, ".tmp") && (grffile.Some? ==> grffile.value != temp)
    ensures TargetName(grffile, name) != temp && BackupName(TargetName(grffile, name)) != temp
  {
    var target := TargetName(grffile, name);
    BackupNameShape(target);
    var b := BackupName(target);
    assert b[|b| - 1] == 'k' && temp[|temp| - 1] == 'p';
    if grffile.None? {
      assert target[|target| - 1] == 'f';
    }
  }
}
