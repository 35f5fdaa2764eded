/** Installing a merged file (src/grfmerge.cpp:388-425): the old target
    becomes the backup when there is none yet, or is deleted otherwise, and
    the temporary file then takes the target's name. The file system is a
    map from names to contents; the names the host refuses to rename or
    remove are a parameter, and so are the user's answers. */
module Install {
  import opened Bytes
  import opened Names

  type Files = map<string, seq<byte>>

  /** `rename(from, to)` can succeed: `from` exists and the host allows both names. */
  predicate CanRename(fs: Files, locked: set<string>, from: string, to: string)
  {
    from in fs && from !in locked && to !in locked
  }

  /** The file system after `rename(from, to)`; an existing `to` is replaced. */
  function Renamed(fs: Files, from: string, to: string): (fs': Files)
    requires from in fs
    ensures to in fs' && fs'[to] == fs[from] && (from != to ==> from !in fs')
    ensures forall n :: n != from && n != to ==> (n in fs' <==> n in fs) && (n in fs ==> fs'[n] == fs[n])
  {
    (fs - {from})[to := fs[from]]
  }

  /** `remove(name)` can succeed. */
  predicate CanRemove(fs: Files, locked: set<string>, name: string)
  {
    name in fs && name !in locked
  }

  /** The course of an installation: the file system before it and after
      each step that changed it, how it ended, and whether the user was
      asked to allow deleting the old target. */
  datatype Installation = Installation(trace: seq<Files>, fault: Option<Fault>, asked: bool)
  {
    predicate Started() { trace != [] }
  }

  function Final(i: Installation): Files
    requires i.Started()
  {
    i.trace[|i.trace| - 1]
  }

  /** The installation from the state `fs`, the `accept` answer being the
      one the user gives if asked (src/grfmerge.cpp:393-424). */
  function Install(fs: Files, locked: set<string>, target: string, temp: string, accept: bool): (i: Installation)
    ensures i.Started() && i.trace[0] == fs
  {
    var backup := BackupName(target);
    if backup !in fs then
      if CanRename(fs, locked, target, backup) then
        Replace([fs, Renamed(fs, target, backup)], locked, target, temp, false)
      else if !accept then Installation([fs], Some(DeletionDeclined), true)
      else Delete([fs], locked, target, temp, true)
    else Delete([fs], locked, target, temp, false)
  }

  /** Deleting the old target, then replacing it (src/grfmerge.cpp:415-419). */
  function Delete(trace: seq<Files>, locked: set<string>, target: string, temp: string, asked: bool): (i: Installation)
    requires trace != []
    ensures i.Started() && |i.trace| >= |trace| && i.trace[..|trace|] == trace
  {
    var fs := trace[|trace| - 1];
    if !CanRemove(fs, locked, target) then Installation(trace, Some(DeleteFailed), asked)
    else Replace(trace + [fs - {target}], locked, target, temp, asked)
  }

  /** Renaming the temporary file to the target (src/grfmerge.cpp:421-424). */
  function Replace(trace: seq<Files>, locked: set<string>, target: string, temp: string, asked: bool): (i: Installation)
    requires trace != []
    ensures i.Started() && |i.trace| >= |trace| && i.trace[..|trace|] == trace
  {
    var fs := trace[|trace| - 1];
    if !CanRename(fs, locked, temp, target) then Installation(trace, Some(RenameFailed), asked)
    else Installation(trace + [Renamed(fs, temp, target)], None, asked)
  }

  /** What an installation may assume: the target was opened and the
      temporary file written, under two other names than the backup's. */
  predicate Ready(fs: Files, target: string, temp: string)
  {
    target in fs && temp in fs && temp != target && temp != BackupName(target)
  }

  /** A successful installation leaves the merged content under the target's
      name and no temporary file; an existing backup is kept; otherwise the
      old target became the backup, unless the user allowed deleting it. */
  lemma InstallSucceeds(fs: Files, locked: set<string>, target: string, temp: string, accept: bool)
    requires Ready(fs, target, temp) && BackupName(target) != target
    ensures var i := Install(fs, locked, target, temp, accept); var backup := BackupName(target);
      i.fault.None? ==>
        && target in Final(i) && Final(i)[target] == fs[temp] && temp !in Final(i)
        && (backup in fs ==> backup in Final(i) && Final(i)[backup] == fs[backup])
        && (backup !in fs && !i.asked ==> backup in Final(i) && Final(i)[backup] == fs[target])
        && (backup !in fs && i.asked ==> backup !in Final(i))
  {
  }

  /** A successful installation leaves the merged content under the
      target's name and no temporary file, whatever the backup's name. */
  lemma InstallReplaces(fs: Files, locked: set<string>, target: string, temp: string, accept: bool)
    requires Ready(fs, target, temp)
    ensures var i := Install(fs, locked, target, temp, accept);
      i.fault.None? ==> target in Final(i) && Final(i)[target] == fs[temp] && temp !in Final(i)
  {
  }

  /** At no step does an existing backup change. */
  lemma {:induction false} InstallKeepsBackup(fs: Files, locked: set<string>, target: string, temp: string, accept: bool)
    requires Ready(fs, target, temp) && BackupName(target) != target && BackupName(target) in fs
    ensures var i := Install(fs, locked, target, temp, accept); var backup := BackupName(target);
      forall k :: 0 <= k < |i.trace| ==> backup in i.trace[k] && i.trace[k][backup] == fs[backup]
  {
    var backup := BackupName(target);
    var i := Install(fs, locked, target, temp, accept);
    if CanRemove(fs, locked, target) {
      var fs1 := fs - {target};
      assert i == Replace([fs, fs1], locked, target, temp, false);
    }
  }

  /** At every step the merged content is under the temporary name or
      under the target's: a failure at any point loses no work. */
  lemma {:induction false} InstallKeepsOutput(fs: Files, locked: set<string>, target: string, temp: string, accept: bool)
    requires Ready(fs, target, temp)
    ensures var i := Install(fs, locked, target, temp, accept);
      forall k :: 0 <= k < |i.trace| ==>
        (temp in i.trace[k] && i.trace[k][temp] == fs[temp]) || (target in i.trace[k] && i.trace[k][target] == fs[temp])
    ensures var i := Install(fs, locked, target, temp, accept);
      i.fault.Some? ==> temp in Final(i) && Final(i)[temp] == fs[temp]
  {
    var backup := BackupName(target);
    var i := Install(fs, locked, target, temp, accept);
    if backup !in fs && CanRename(fs, locked, target, backup) {
      var fs1 := Renamed(fs, target, backup);
      assert i == Replace([fs, fs1], locked, target, temp, false);
    } else if CanRemove(fs, locked, target) && (backup in fs || accept) {
      var fs1 := fs - {target};
      assert i == Replace([fs, fs1], locked, target, temp, backup !in fs);
    }
  }

  /** Unless a backup existed or the user allowed deleting it, the old
      target's content is at every step under the target's name or the
      backup's. */
  lemma {:induction false} InstallKeepsOldTarget(fs: Files, locked: set<string>, target: string, temp: string, accept: bool)
    requires Ready(fs, target, temp) && BackupName(target) != target && BackupName(target) !in fs
    ensures var i := Install(fs, locked, target, temp, accept); var backup := BackupName(target);
      !i.asked ==> forall k :: 0 <= k < |i.trace| ==>
        (target in i.trace[k] && i.trace[k][target] == fs[target]) || (backup in i.trace[k] && i.trace[k][backup] == fs[target])
  {
    var backup := BackupName(target);
    var i := Install(fs, locked, target, temp, accept);
    if CanRename(fs, locked, target, backup) {
      var fs1 := Renamed(fs, target, backup);
      assert i == Replace([fs, fs1], locked, target, temp, false);
    }
  }

  /** No other file is touched. */
  lemma {:induction false} InstallTouchesOnlyItsFiles(fs: Files, locked: set<string>, target: string, temp: string, accept: bool, other: string)
    requires Ready(fs, target, temp) && other != target && other != temp && other != BackupName(target)
    ensures var i := Install(fs, locked, target, temp, accept);
      forall k :: 0 <= k < |i.trace| ==> (other in i.trace[k] <==> other in fs) && (other in fs ==> i.trace[k][other] == fs[other])
  {
    var backup := BackupName(target);
    var i := Install(fs, locked, target, temp, accept);
    if backup !in fs && CanRename(fs, locked, target, backup) {
      var fs1 := Renamed(fs, target, backup);
      assert i == Replace([fs, fs1], locked, target, temp, false);
    } else if CanRemove(fs, locked, target) && (backup in fs || accept) {
      var fs1 := fs - {target};
      assert i == Replace([fs, fs1], locked, target, temp, backup !in fs);
    }
  }

  /** The file system the merger works on. */
  class FileSystem {
    var files: Files
    const locked: set<string>

    constructor (content: Files, refused: set<string>)
      ensures files == content && locked == refused
    {
      files := content;
      locked := refused;
    }

    /** Whether `fopen(name, "rb")` succeeds. */
    method Exists(name: string) returns (found: bool)
      ensures found <==> name in files
    {
      found := name in files;
    }

    /** `rename(from, to) == 0`. */
    method Rename(from: string, to: string) returns (ok: bool)
      modifies this
      ensures ok == CanRename(old(files), locked, from, to)
      ensures files == if ok then Renamed(old(files), from, to) else old(files)
    {
      ok := CanRename(files, locked, from, to);
      if ok {
        files := Renamed(files, from, to);
      }
    }

    /** `remove(name) == 0`. */
    method Remove(name: string) returns (ok: bool)
      modifies this
      ensures ok == CanRemove(old(files), locked, name)
      ensures files == if ok then old(files) - {name} else old(files)
    {
      ok := CanRemove(files, locked, name);
      if ok {
        files := files - {name};
      }
    }

    /** `fopen(name, "wb")` followed by writing `content` and closing. */
    method Store(name: string, content: seq<byte>) returns (ok: bool)
      modifies this
      ensures ok == (name !in locked)
      ensures files == if ok then old(files)[name := content] else old(files)
    {
      ok := name !in locked;
      if ok {
        files := files[name := content];
      }
    }
  }

  /** The answer `yesno` gets: always yes under `-y`, else yes exactly when
      the next reply is yes; an exhausted input answers no. */
  function Reply(alwaysYes: bool, replies: seq<bool>): (yes: bool)
    ensures alwaysYes ==> yes
    ensures replies == [] ==> yes == alwaysYes
    ensures !alwaysYes && replies != [] ==> yes == replies[0] && Answered(alwaysYes, replies) == replies[1..]
  {
    alwaysYes || (replies != [] && replies[0])
  }

  /** The answers left once `yesno` has asked: one is consumed unless `-y`
      was given or the input is exhausted. */
  function Answered(alwaysYes: bool, replies: seq<bool>): (left: seq<bool>)
    ensures |left| <= |replies| && left == replies[|replies| - |left|..]
  {
    if alwaysYes || replies == [] then replies else replies[1..]
  }

  /** The user's side of the conversation. */
  class Console {
    const alwaysYes: bool
    var replies: seq<bool>

    constructor (yes: bool, answers: seq<bool>)
      ensures alwaysYes == yes && replies == answers
    {
      alwaysYes := yes;
      replies := answers;
    }

    /** `yesno` (src/grfmerge.cpp:115-134): one reply is consumed unless `-y` was given. */
    method YesNo() returns (yes: bool)
      modifies this
      ensures yes == Reply(alwaysYes, old(replies))
      ensures replies == Answered(alwaysYes, old(replies))
    {
      yes := Reply(alwaysYes, replies);
      if !alwaysYes && replies != [] {
        replies := replies[1..];
      }
    }
  }

  /** The install sequence run against the file system and the console. */
  method InstallMerged(fs: FileSystem, console: Console, target: string, temp: string) returns (fault: Option<Fault>)
    modifies fs, console
    ensures var i := Install(old(fs.files), fs.locked, target, temp, Reply(console.alwaysYes, old(console.replies)));
      && fault == i.fault && fs.files == Final(i)
      && console.replies == if i.asked then Answered(console.alwaysYes, old(console.replies)) else old(console.replies)
  {
    hide Reply, Answered;
    var backup := BackupName(target);
    var fs0 := fs.files;
    var accept := Reply(console.alwaysYes, console.replies);
    var backedUp := fs.Exists(backup);
    var delete := backedUp;
    if !backedUp {
      var renamed := fs.Rename(target, backup);
      if !renamed {
        var yes := console.YesNo();
        if !yes {
          return Some(DeletionDeclined);
        }
        delete := true;
      }
    }
    ghost var trace := if backedUp || delete then [fs0] else [fs0, fs.files];
    ghost var asked := !backedUp && delete;
    if delete {
      var removed := fs.Remove(target);
      if !removed {
        assert Install(fs0, fs.locked, target, temp, accept) == Installation(trace, Some(DeleteFailed), asked);
        return Some(DeleteFailed);
      }
      trace := trace + [fs.files];
    }
    assert Install(fs0, fs.locked, target, temp, accept) == Replace(trace, fs.locked, target, temp, asked);
    var replaced := fs.Rename(temp, target);
    if !replaced {
      return Some(RenameFailed);
    }
    fault := None;
  }
}
