/** File-name rules of a patch set: the check that a target file looks like
    the file the patch set was made from (src/grfmerge.cpp:283-296), the
    default target name (307-309) and the backup name (393-397). Names are
    C strings: reading past the end of one meets its terminating NUL. */
module Names {
  import opened Bytes

  const Nul: char := 0 as char

  /** A C string as the merger receives it on its command line: no NUL inside. */
  predicate NulFree(s: string)
  {
    forall i :: 0 <= i < |s| ==> s[i] != Nul
  }

  /** The character at `i` of the C string `s`: past the end lies its terminator. */
  function At(s: string, i: nat): char
  {
    if i < |s| then s[i] else Nul
  }

  /** `strrchr` over `s[lo..hi]`: the position of the last `c` there, if any. */
  function LastIndex(s: string, c: char, lo: nat, hi: nat): (r: Option<nat>)
    requires lo <= hi <= |s|
    ensures r.Some? ==> lo <= r.value < hi && s[r.value] == c && forall k :: r.value < k < hi ==> s[k] != c
    ensures r.None? ==> forall k :: lo <= k < hi ==> s[k] != c
    decreases hi
  {
    if hi == lo then None
    else if s[hi - 1] == c then Some(hi - 1)
    else LastIndex(s, c, lo, hi - 1)
  }

  /** `strchr` from position `i` of `s`: the position of the first `c`, if any. */
  function FirstIndex(s: string, c: char, i: nat): (r: Option<nat>)
    requires i <= |s|
    ensures r.Some? ==> i <= r.value < |s| && s[r.value] == c && forall k :: i <= k < r.value ==> s[k] != c
    ensures r.None? ==> forall k :: i <= k < |s| ==> s[k] != c
    decreases |s| - i
  {
    if i == |s| then None
    else if s[i] == c then Some(i)
    else FirstIndex(s, c, i + 1)
  }

  /** Where the file name part of a path starts: after the last `\`, or
      failing that after the first `:` (a drive letter), or at the start. */
  function BaseStart(path: string): (start: nat)
    ensures start <= |path|
  {
    match LastIndex(path, '\\', 0, |path|)
    case Some(i) => i + 1
    case None =>
      match FirstIndex(path, ':', 0)
      case Some(i) => i + 1
      case None => 0
  }

  /** `j`: the length of the file name part up to its last `.`, or the
      whole of it, stored in a U16. */
  function StemLength(path: string): (j: u16)
    ensures BaseStart(path) + j <= |path|
  {
    var start := BaseStart(path);
    match LastIndex(path, '.', start, |path|)
    case Some(i) => Wrap16(i - start)
    case None => Wrap16(|path| - start)
  }

  /** `tolower` on the characters of the C locale. */
  function Lower(c: char): (r: char)
    ensures (r == Nul) == (c == Nul)
  {
    if 'A' <= c <= 'Z' then (c as int + 32) as char else c
  }

  /** `strnicmp(a + off, b, n) == 0` from position `i` on: the strings agree
      case-insensitively on their first `n` characters, or up to a
      terminator both reach together. */
  function Agree(a: string, off: nat, b: string, n: nat, i: nat): bool
    decreases n - i
  {
    if i >= n then true
    else if Lower(At(a, off + i)) != Lower(At(b, i)) then false
    else if At(a, off + i) == Nul then true
    else Agree(a, off, b, n, i + 1)
  }

  /** The name check: the target's file name part, up to its last `.`,
      agrees case-insensitively with the name the patch set was made from,
      read as a C string terminated after its last byte. For names without
      NUL it holds exactly when the name is at least `j` characters long and
      its first `j` characters equal those of the file name part, ignoring
      case. */
  function NameMatches(path: string, name: string): (m: bool)
    ensures NulFree(path) && NulFree(name) ==>
      (m <==> StemLength(path) <= |name| && forall k :: 0 <= k < StemLength(path) ==> Lower(path[BaseStart(path) + k]) == Lower(name[k]))
  {
    if NulFree(path) && NulFree(name) then
      AgreeFrom(path, BaseStart(path), name, StemLength(path), 0);
      Agree(path, BaseStart(path), name, StemLength(path), 0)
    else Agree(path, BaseStart(path), name, StemLength(path), 0)
  }

  lemma {:induction false} AgreeFrom(a: string, off: nat, b: string, n: nat, i: nat)
    requires NulFree(a) && NulFree(b) && i <= n && off + n <= |a|
    ensures Agree(a, off, b, n, i) <==> (i < n ==> n <= |b|) && forall k :: i <= k < n ==> Lower(a[off + k]) == Lower(b[k])
    decreases n - i
  {
    if i < n {
      AgreeFrom(a, off, b, n, i + 1);
      assert At(a, off + i) == a[off + i] != Nul;
      if i >= |b| {
        assert Lower(At(a, off + i)) != Lower(At(b, i));
      } else {
        assert At(b, i) == b[i];
      }
    }
  }

  /** The name check ignores case and extensions: a target called `Foo.GRF`
      passes for a patch set made from `foo`, one called `bar.grf` does not. */
  lemma NameCheckExamples()
    ensures NameMatches("C:\\games\\Foo.GRF", "foo")
    ensures !NameMatches("bar.grf", "foo")
  {
    NameCheckAccepts();
    NameCheckRejects();
  }

  lemma NameCheckAccepts()
    ensures NameMatches("C:\\games\\Foo.GRF", "foo")
  {
    assert |"C:\\games\\Foo.GRF"| == 16;
    assert LastIndex("C:\\games\\Foo.GRF", '\\', 0, 16) == Some(8);
    assert LastIndex("C:\\games\\Foo.GRF", '.', 9, 16) == Some(12);
    assert Lower('F') == 'f';
    assert Agree("C:\\games\\Foo.GRF", 9, "foo", 3, 2);
    assert Agree("C:\\games\\Foo.GRF", 9, "foo", 3, 0);
  }

  lemma NameCheckRejects()
    ensures !NameMatches("bar.grf", "foo")
  {
    assert LastIndex("bar.grf", '\\', 0, 7) == LastIndex("bar.grf", '\\', 0, 4) == LastIndex("bar.grf", '\\', 0, 0) == None;
    assert FirstIndex("bar.grf", ':', 0) == FirstIndex("bar.grf", ':', 4) == FirstIndex("bar.grf", ':', 7) == None;
    assert LastIndex("bar.grf", '.', 0, 7) == Some(3);
    assert !Agree("bar.grf", 0, "foo", 3, 0);
  }

  /** The default target when no file is named on the command line: the
      embedded name, as a C string, with `.grf` appended; for a name without
      NUL, the name itself. */
  function DefaultTarget(name: string): (t: string)
    ensures |t| >= 4 && |t| - 4 <= |name| && t[|t| - 4..] == ".grf"
    ensures var stem := t[..|t| - 4]; NulFree(stem) && stem == name[..|stem|]
    ensures NulFree(name) ==> t == name + ".grf"
  {
    CString(name) + ".grf"
  }

  /** A byte buffer read as a C string: up to its first NUL. */
  function CString(s: string): (r: string)
    ensures NulFree(r) && |r| <= |s| && r == s[..|r|]
    ensures NulFree(s) ==> r == s
  {
    if s == [] || s[0] == Nul then [] else [s[0]] + CString(s[1..])
  }

  /** A buffer read as a C string when its first NUL is at `i`, or it has none and `i` is its end. */
  lemma {:induction false} CStringUpTo(s: string, i: nat)
    requires i <= |s| && NulFree(s[..i]) && (i == |s| || s[i] == Nul)
    ensures CString(s) == s[..i]
  {
    if i > 0 {
      assert s[1..][..i - 1] == s[..i][1..];
      CStringUpTo(s[1..], i - 1);
      assert s[..i] == [s[0]] + s[1..][..i - 1];
    }
  }

  /** A target named after the embedded name passes the name check. */
  lemma DefaultTargetMatches(name: string)
    requires NulFree(name) && |name| < 0x1_0000
    requires forall k :: 0 <= k < |name| ==> name[k] != '\\' && name[k] != ':'
    ensures NameMatches(DefaultTarget(name), name)
  {
    hide Agree, LastIndex, FirstIndex, CString, Lower;
    var target := DefaultTarget(name);
    assert target == name + ".grf";
    assert LastIndex(target, '\\', 0, |target|) == None;
    assert FirstIndex(target, ':', 0) == None;
    LastIndexAt(target, '.', 0, |name|);
  }

  /** The last `c` of `s` sits at `i`. */
  lemma {:induction false} LastIndexAt(s: string, c: char, lo: nat, i: nat)
    requires lo <= i < |s| && s[i] == c && forall k :: i < k < |s| ==> s[k] != c
    ensures LastIndex(s, c, lo, |s|) == Some(i)
  {
    LastIndexAtBelow(s, c, lo, i, |s|);
  }

  lemma {:induction false} LastIndexAtBelow(s: string, c: char, lo: nat, i: nat, hi: nat)
    requires lo <= i < hi <= |s| && s[i] == c && forall k :: i < k < hi ==> s[k] != c
    ensures LastIndex(s, c, lo, hi) == Some(i)
    decreases hi
  {
    if i < hi - 1 {
      LastIndexAtBelow(s, c, lo, i, hi - 1);
    }
  }

  /** The backup name: the path up to its last `.` (wherever it lies), or the
      whole path when it has none, with `.bak` appended. */
  function BackupName(path: string): (b: string)
    ensures |b| >= 4 && b[|b| - 4..] == ".bak"
    ensures var n := |b| - 4;
      && n <= |path| && b[..n] == path[..n]
      && (n == |path| || path[n] == '.')
      && forall k :: n < k < |path| ==> path[k] != '.'
  {
    match LastIndex(path, '.', 0, |path|)
    case Some(i) => path[..i] + ".bak"
    case None => path + ".bak"
  }

  /** The backup name ends in `.bak`, and it is the path itself exactly when
      the path already ends in `.bak`. */
  lemma BackupNameShape(path: string)
    ensures var b := BackupName(path); |b| >= 4 && b[|b| - 4..] == ".bak"
    ensures BackupName(path) == path <==> |path| >= 4 && path[|path| - 4..] == ".bak"
  {
    var b := BackupName(path);
    assert b[|b| - 4..] == ".bak";
    if |path| >= 4 && path[|path| - 4..] == ".bak" {
      assert path[|path| - 4] == '.';
      assert forall k :: |path| - 4 < k < |path| ==> path[k] != '.';
      LastIndexAt(path, '.', 0, |path| - 4);
      assert path == path[..|path| - 4] + ".bak";
    }
  }

  // The name as the merger actually holds it. The buffer allocated for the
  // embedded name (src/grfmerge.cpp:275-278) receives exactly the name's
  // bytes and no terminator, so every C-string use of it reads on into
  // whatever the heap holds after it (`junk` below) until some NUL.

  /** The name check as written: the embedded name runs on into `junk`.
      The heap matters only when the name is shorter than the part of the
      file name compared and no NUL happens to follow it. */
  function NameMatchesAsWritten(path: string, name: string, junk: string): (m: bool)
    ensures StemLength(path) <= |name| || junk == [] || junk[0] == Nul ==> m == NameMatches(path, name)
  {
    if StemLength(path) <= |name| then
      AgreeUpTo(path, BaseStart(path), name, name + junk, StemLength(path), 0, StemLength(path));
      Agree(path, BaseStart(path), name + junk, StemLength(path), 0)
    else if junk == [] || junk[0] == Nul then
      AgreeUpTo(path, BaseStart(path), name, name + junk, StemLength(path), 0, |name|);
      Agree(path, BaseStart(path), name + junk, StemLength(path), 0)
    else Agree(path, BaseStart(path), name + junk, StemLength(path), 0)
  }

  /** `strnicmp` looks no further than `n` characters, nor past the first
      NUL of its second string: two strings that agree up to there compare
      alike. */
  lemma {:induction false} AgreeUpTo(a: string, off: nat, b: string, c: string, n: nat, i: nat, m: nat)
    requires i <= m && (m >= n || At(b, m) == Nul)
    requires forall k :: i <= k <= m && k < n ==> At(b, k) == At(c, k)
    ensures Agree(a, off, b, n, i) == Agree(a, off, c, n, i)
    decreases n - i
  {
    if i < n && i < m {
      AgreeUpTo(a, off, b, c, n, i + 1, m);
    }
  }

  /** The default target as written: `strcat` appends `.grf` after whatever
      the heap holds past the name. It is the intended name exactly when a
      NUL happens to follow the name, and otherwise the name runs on. */
  function DefaultTargetAsWritten(name: string, junk: string): (t: string)
    ensures |t| >= 4 && t[|t| - 4..] == ".grf"
    ensures NulFree(name) ==> |name| + 4 <= |t| && t[..|name|] == name
    ensures NulFree(name) && (junk == [] || junk[0] == Nul) ==> t == DefaultTarget(name)
  {
    if NulFree(name) && (junk == [] || junk[0] == Nul) then
      CStringUpTo(name + junk, |name|);
      assert (name + junk)[..|name|] == name;
      CString(name + junk) + ".grf"
    else if NulFree(name) then
      CStringCovers(name + junk, |name|);
      CString(name + junk) + ".grf"
    else CString(name + junk) + ".grf"
  }

  /** A buffer without NUL in its first `i` bytes reads as a C string at
      least `i` long. */
  lemma {:induction false} CStringCovers(s: string, i: nat)
    requires i <= |s| && NulFree(s[..i])
    ensures i <= |CString(s)|
  {
    if i > 0 {
      assert s[0] == s[..i][0];
      assert s[1..][..i - 1] == s[..i][1..];
      CStringCovers(s[1..], i - 1);
    }
  }

  /** A patch set made from `foo` passes the check for `foo2.grf` when the
      heap after the name happens to hold `2`; read as a terminated string,
      the name fails it. */
  lemma NameCheckReadsPastName()
    ensures NameMatchesAsWritten("foo2.grf", "foo", "2")
    ensures !NameMatches("foo2.grf", "foo")
  {
    assert LastIndex("foo2.grf", '\\', 0, 8) == LastIndex("foo2.grf", '\\', 0, 4) == LastIndex("foo2.grf", '\\', 0, 0) == None;
    assert FirstIndex("foo2.grf", ':', 0) == FirstIndex("foo2.grf", ':', 4) == FirstIndex("foo2.grf", ':', 8) == None;
    assert LastIndex("foo2.grf", '.', 0, 8) == Some(4);
    assert "foo" + "2" == "foo2";
    assert Agree("foo2.grf", 0, "foo2", 4, 0);
    assert !Agree("foo2.grf", 0, "foo", 4, 0);
  }

  /** With `x` and a NUL after the name on the heap, the default target of a
      patch set made from `foo` becomes `foox.grf` instead of `foo.grf`. */
  lemma DefaultTargetReadsPastName()
    ensures DefaultTargetAsWritten("foo", ['x', Nul]) == "foox.grf"
    ensures DefaultTarget("foo") == "foo.grf"
  {
    CStringUpTo("foo" + ['x', Nul], 4);
    CStringUpTo("foo", 3);
  }
}
