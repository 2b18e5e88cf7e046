/** The launcher's search of PATH, which cuts its copy of the variable in place. */
module Launcher {
  import opened Basics

  const NUL := '\0'

  /** The C string that starts at this index of a buffer. */
  function CString(buf: seq<char>, i: nat): string
    decreases |buf| - i
  {
    if i < |buf| && buf[i] != NUL then [buf[i]] + CString(buf, i + 1) else []
  }

  lemma {:induction false} CStringIs(buf: seq<char>, i: nat, s: string)
    requires i + |s| < |buf| && buf[i..i + |s|] == s && buf[i + |s|] == NUL && NUL !in s
    ensures CString(buf, i) == s
    decreases |s|
  {
    if s == [] {
    } else {
      assert buf[i] == s[0];
      assert buf[i + 1..i + 1 + |s[1..]|] == s[1..];
      CStringIs(buf, i + 1, s[1..]);
    }
  }

  // ---------- Specification ----------

  /** The index of the first ':', or the length if there is none. */
  function Cut(s: string): (k: nat)
    ensures k <= |s| && forall i :: 0 <= i < k ==> s[i] != ':'
    ensures k < |s| ==> s[k] == ':'
  {
    if s == [] || s[0] == ':' then 0 else Cut(s[1..]) + 1
  }

  /** The components between the colons, empty ones included. */
  function Split(s: string): seq<string> {
    var k := Cut(s);
    if k == |s| then [s] else [s[..k]] + Split(s[k + 1..])
  }

  function Join(parts: seq<string>): string {
    if parts == [] then [] else if |parts| == 1 then parts[0] else parts[0] + ":" + Join(parts[1..])
  }

  /** Joining the components gives back the string; no component has a colon. */
  lemma {:induction false} SplitJoin(s: string)
    ensures Split(s) != [] && Join(Split(s)) == s
    ensures forall i :: 0 <= i < |Split(s)| ==> ':' !in Split(s)[i]
  {
    var k := Cut(s);
    if k == |s| {
    } else {
      SplitJoin(s[k + 1..]);
      assert s == s[..k] + [s[k]] + s[k + 1..];
    }
  }

  lemma CutIs(s: string, k: nat)
    requires k <= |s| && (forall i :: 0 <= i < k ==> s[i] != ':') && (k < |s| ==> s[k] == ':')
    ensures Cut(s) == k
  {
  }

  /** It is the only such list of components. */
  lemma {:induction false} SplitUnique(parts: seq<string>)
    requires parts != [] && forall i :: 0 <= i < |parts| ==> ':' !in parts[i]
    ensures Split(Join(parts)) == parts
  {
    var a := parts[0];
    if |parts| == 1 {
      CutIs(a, |a|);
    } else {
      SplitUnique(parts[1..]);
      var s := a + ":" + Join(parts[1..]);
      CutIs(s, |a|);
      assert s[..|a|] == a && s[|a| + 1..] == Join(parts[1..]);
    }
  }

  /** The first directory for which the file test holds. */
  ghost function FirstFound(dirs: seq<string>, exe: string, test: string -> bool): Option<string> {
    if dirs == [] then None
    else if test(dirs[0] + "/" + exe) then Some(dirs[0])
    else FirstFound(dirs[1..], exe, test)
  }

  ghost predicate NoneBefore(dirs: seq<string>, n: nat, exe: string, test: string -> bool)
    requires n <= |dirs|
  {
    forall i :: 0 <= i < n ==> !test(dirs[i] + "/" + exe)
  }

  /** A component that passes with none before it passing, or nothing if none passes. */
  ghost predicate IsFirst(dirs: seq<string>, exe: string, test: string -> bool, r: Option<string>) {
    match r
    case None => NoneBefore(dirs, |dirs|, exe, test)
    case Some(d) => exists i: nat :: FoundAt(dirs, exe, test, d, i)
  }

  ghost predicate FoundAt(dirs: seq<string>, exe: string, test: string -> bool, d: string, i: nat) {
    i < |dirs| && dirs[i] == d && test(d + "/" + exe) && NoneBefore(dirs, i, exe, test)
  }

  /** The test of one component more decides, or the search goes on. */
  lemma NextDecides(dirs: seq<string>, n: nat, exe: string, test: string -> bool, r: Option<string>)
    requires n < |dirs| && NoneBefore(dirs, n, exe, test)
    requires r == if test(dirs[n] + "/" + exe) then Some(dirs[n]) else None
    ensures r.None? ==> NoneBefore(dirs, n + 1, exe, test)
    ensures r.Some? || n + 1 == |dirs| ==> IsFirst(dirs, exe, test, r)
  {
    if r.Some? {
      assert FoundAt(dirs, exe, test, r.value, n);
    }
  }

  lemma NoneBeforeCons(dirs: seq<string>, n: nat, exe: string, test: string -> bool)
    requires 0 < n <= |dirs|
    ensures NoneBefore(dirs, n, exe, test) <==> !test(dirs[0] + "/" + exe) && NoneBefore(dirs[1..], n - 1, exe, test)
  {
    if NoneBefore(dirs, n, exe, test) {
      forall i | 0 <= i < n - 1
        ensures !test(dirs[1..][i] + "/" + exe)
      {
        assert dirs[1..][i] == dirs[i + 1];
      }
    }
    if !test(dirs[0] + "/" + exe) && NoneBefore(dirs[1..], n - 1, exe, test) {
      forall i | 0 <= i < n
        ensures !test(dirs[i] + "/" + exe)
      {
        assert i > 0 ==> dirs[1..][i - 1] == dirs[i];
      }
    }
  }

  /** There is only one such result, the one `FirstFound` gives. */
  lemma {:induction false} FirstIs(dirs: seq<string>, exe: string, test: string -> bool, r: Option<string>)
    requires IsFirst(dirs, exe, test, r)
    ensures r == FirstFound(dirs, exe, test)
    decreases |dirs|
  {
    if dirs == [] {
    } else {
      match r {
        case None => NoneBeforeCons(dirs, |dirs|, exe, test);
        case Some(d) =>
          var i: nat :| FoundAt(dirs, exe, test, d, i);
          if i > 0 {
            NoneBeforeCons(dirs, i, exe, test);
            assert FoundAt(dirs[1..], exe, test, d, i - 1);
          }
      }
      if !test(dirs[0] + "/" + exe) {
        FirstIs(dirs[1..], exe, test, r);
      }
    }
  }

  lemma {:induction false} FirstFoundMeans(dirs: seq<string>, exe: string, test: string -> bool)
    ensures IsFirst(dirs, exe, test, FirstFound(dirs, exe, test))
    decreases |dirs|
  {
    if dirs == [] {
    } else if test(dirs[0] + "/" + exe) {
      assert FoundAt(dirs, exe, test, dirs[0], 0);
    } else {
      var r := FirstFound(dirs, exe, test);
      FirstFoundMeans(dirs[1..], exe, test);
      if r.None? {
        NoneBeforeCons(dirs, |dirs|, exe, test);
      } else {
        var i: nat :| FoundAt(dirs[1..], exe, test, r.value, i);
        NoneBeforeCons(dirs, i + 1, exe, test);
        assert FoundAt(dirs, exe, test, r.value, i + 1);
      }
    }
  }

  // ---------- Where the components lie in PATH ----------

  /** A component without a colon starts here, and a colon or the end of PATH follows it. */
  ghost predicate StartsAt(path: string, dir: nat, part: string) {
    && dir + |part| <= |path| && path[dir..dir + |part|] == part && ':' !in part
    && (dir + |part| < |path| ==> path[dir + |part|] == ':')
  }

  /** Component j lies where `starts` says; the next one starts behind its colon, and the last one ends PATH. */
  ghost predicate PartAt(path: string, parts: seq<string>, starts: seq<nat>, j: nat)
    requires j < |parts| == |starts|
  {
    && StartsAt(path, starts[j], parts[j])
    && (if j + 1 < |parts| then starts[j + 1] == starts[j] + |parts[j]| + 1 && starts[j + 1] <= |path|
        else starts[j] + |parts[j]| == |path|)
  }

  ghost predicate Planned(path: string, base: nat, parts: seq<string>, starts: seq<nat>) {
    && |parts| == |starts| > 0 && starts[0] == base
    && forall j: nat :: j < |parts| ==> PartAt(path, parts, starts, j)
  }

  lemma PlanCons(path: string, base: nat, part: string, parts: seq<string>, starts: seq<nat>)
    requires Planned(path, base + |part| + 1, parts, starts)
    requires base + |part| < |path| && StartsAt(path, base, part)
    ensures Planned(path, base, [part] + parts, [base] + starts)
  {
    var parts', starts' := [part] + parts, [base] + starts;
    assert PartAt(path, parts, starts, 0);
    forall j: nat | j < |parts'|
      ensures PartAt(path, parts', starts', j)
    {
      assert j > 0 ==> PartAt(path, parts, starts, j - 1);
    }
  }

  lemma {:induction false} SplitPlan(path: string, base: nat) returns (starts: seq<nat>)
    requires base <= |path|
    ensures Planned(path, base, Split(path[base..]), starts)
    decreases |path| - base
  {
    var rest := path[base..];
    var k := Cut(rest);
    assert ':' !in rest[..k];
    if k == |rest| {
      starts := [base];
      assert PartAt(path, [rest], starts, 0);
    } else {
      var later := SplitPlan(path, base + k + 1);
      assert path[base + k + 1..] == rest[k + 1..];
      PlanCons(path, base, rest[..k], Split(rest[k + 1..]), later);
      starts := [base] + later;
    }
  }

  // ---------- C library routines on a buffer ----------

  method StrDup(s: string) returns (buf: array<char>)
    requires NUL !in s
    ensures fresh(buf) && buf.Length == |s| + 1
    ensures buf[..|s|] == s && buf[|s|] == NUL
  {
    buf := new char[|s| + 1];
    for i := 0 to |s|
      invariant buf[..i] == s[..i]
    {
      buf[i] := s[i];
    }
    buf[|s|] := NUL;
  }

  /** From dir on the buffer still holds PATH. */
  ghost predicate Uncut(buf: array<char>, path: string, dir: nat)
    reads buf
  {
    && buf.Length == |path| + 1 && buf[|path|] == NUL && NUL !in path
    && forall i :: dir <= i < |path| ==> buf[i] == path[i]
  }

  /** strchr for ':' from dir on, where this component starts. */
  method StrChr(buf: array<char>, dir: nat, ghost path: string, ghost part: string) returns (dirsep: int)
    requires Uncut(buf, path, dir) && StartsAt(path, dir, part)
    ensures dirsep == if dir + |part| == |path| then -1 else dir + |part|
  {
    var i := dir;
    while buf[i] != NUL && buf[i] != ':'
      invariant dir <= i <= dir + |part|
      decreases buf.Length - i
    {
      assert i < |path| ==> buf[i] == path[i];
      assert i < dir + |part| ==> path[dir..dir + |part|][i - dir] == path[i];
      i := i + 1;
    }
    return if buf[i] == ':' then i else -1;
  }

  /** The buffer starts with this C string. */
  ghost predicate IsCString(p: array<char>, s: string)
    reads p
  {
    |s| < p.Length && p[..|s|] == s && p[|s|] == NUL && NUL !in s
  }

  /** strcpy. */
  method StrCpy(p: array<char>, s: string)
    requires |s| < p.Length && NUL !in s
    modifies p
    ensures IsCString(p, s)
  {
    for i := 0 to |s|
      invariant p[..i] == s[..i]
    {
      p[i] := s[i];
    }
    p[|s|] := NUL;
  }

  method StrLen(p: array<char>, ghost s: string) returns (n: nat)
    requires IsCString(p, s)
    ensures n == |s|
  {
    n := 0;
    while p[n] != NUL
      invariant n <= |s|
      decreases |s| - n
    {
      assert p[n] == p[..|s|][n];
      n := n + 1;
    }
  }

  /** strcat, which first looks for the end of what the buffer holds. */
  method StrCat(p: array<char>, ghost s: string, t: string)
    requires IsCString(p, s) && |s| + |t| < p.Length && NUL !in t
    modifies p
    ensures IsCString(p, s + t)
  {
    var end := StrLen(p, s);
    for i := 0 to |t|
      invariant p[..end] == s && p[end..end + i] == t[..i]
    {
      p[end + i] := t[i];
    }
    p[end + |t|] := NUL;
    assert p[..end + |t|] == p[..end] + p[end..end + |t|];
  }

  /** strcat of an argument that may be null. */
  method StrCatIfGiven(p: array<char>, ghost s: string, t: Option<string>)
    requires t.Some? ==> IsCString(p, s) && |s| + |t.value| < p.Length && NUL !in t.value
    modifies p
    ensures if t.Some? then IsCString(p, s + t.value) else p[..] == old(p[..])
  {
    if t.Some? {
      StrCat(p, s, t.value);
    }
  }

  /** A null argument contributes nothing. */
  function TextOf(s: Option<string>): string {
    if s.Some? then s.value else []
  }

  lemma BufferHolds(p: array<char>, s: string)
    requires IsCString(p, s)
    ensures CString(p[..], 0) == s
  {
    CStringIs(p[..], 0, s);
  }

  /** strcat of the second and the third argument, on a buffer that is set up if any of the three is given. */
  method CatBoth(p: array<char>, ghost s: string, ghost given: bool, s2: Option<string>, s3: Option<string>)
    requires given || s2.Some? || s3.Some? ==> IsCString(p, s)
    requires |s| + |TextOf(s2)| + |TextOf(s3)| < p.Length && NUL !in TextOf(s2) && NUL !in TextOf(s3)
    modifies p
    ensures if given || s2.Some? || s3.Some? then IsCString(p, s + TextOf(s2) + TextOf(s3)) else p[..] == old(p[..])
  {
    ghost var two := s + TextOf(s2);
    StrCatIfGiven(p, s, s2);
    assert s2.None? ==> two == s;
    StrCatIfGiven(p, two, s3);
    assert s3.None? ==> two + TextOf(s3) == two;
  }

  /**
   `append3`: concatenation into a buffer of exactly the needed size. `unset` is what the memory
   allocator leaves in the buffer; with a null first argument strcat appends to that, which stays
   inside the buffer iff it starts with a terminator.
   */
  method Append3(s1: Option<string>, s2: Option<string>, s3: Option<string>, unset: nat -> char)
    returns (p: array<char>)
    requires NUL !in TextOf(s1) && NUL !in TextOf(s2) && NUL !in TextOf(s3)
    requires s1.None? && (s2.Some? || s3.Some?) ==> unset(0) == NUL
    ensures fresh(p) && p.Length == |TextOf(s1)| + |TextOf(s2)| + |TextOf(s3)| + 1
    ensures if s1.Some? || s2.Some? || s3.Some? then CString(p[..], 0) == TextOf(s1) + TextOf(s2) + TextOf(s3)
            else p[0] == unset(0)
  {
    var n := 1;
    if s1.Some? {
      n := n + |s1.value|;
    }
    if s2.Some? {
      n := n + |s2.value|;
    }
    if s3.Some? {
      n := n + |s3.value|;
    }
    p := new char[n](i requires 0 <= i < n => unset(i));
    if s1.Some? {
      StrCpy(p, s1.value);
    }
    CatBoth(p, TextOf(s1), s1.Some?, s2, s3);
    if s1.Some? || s2.Some? || s3.Some? {
      BufferHolds(p, TextOf(s1) + TextOf(s2) + TextOf(s3));
    }
  }

  method CheckFileInDir(exe: string, dir: string, test: string -> bool) returns (ok: bool)
    requires NUL !in exe && NUL !in dir
    ensures ok == test(dir + "/" + exe)
  {
    var unset: nat -> char := _ => '?';   // no argument is null, so any contents do
    var buff := Append3(Some(dir), Some("/"), Some(exe), unset);
    return test(CString(buff[..], 0));
  }

  // ---------- The search ----------

  /** strdup(buf + dir). */
  method DupFrom(buf: array<char>, dir: nat, ghost s: string) returns (r: string)
    requires dir + |s| < buf.Length && buf[dir..dir + |s|] == s && buf[dir + |s|] == NUL && NUL !in s
    ensures r == s
  {
    CStringIs(buf[..], dir, s);
    return CString(buf[..], dir);
  }

  /** Tests the component at dir, which a terminator ends. */
  method TestComponent(buf: array<char>, dir: nat, exe: string, test: string -> bool,
      ghost path: string, ghost part: string)
    returns (r: Option<string>)
    requires StartsAt(path, dir, part) && NUL !in path && NUL !in exe
    requires buf.Length == |path| + 1 && buf[dir + |part|] == NUL
    requires forall i :: dir <= i < dir + |part| ==> buf[i] == path[i]
    ensures r == if test(part + "/" + exe) then Some(part) else None
  {
    assert buf[dir..dir + |part|] == path[dir..dir + |part|] == part;
    var name := DupFrom(buf, dir, part);
    var ok := CheckFileInDir(exe, name, test);
    return if ok then Some(name) else None;
  }

  /** The loop of `search_in_path`: it overwrites each colon with a terminator and moves on behind it. */
  method CutAndTest(exe: string, path: string, test: string -> bool, ghost parts: seq<string>, ghost starts: seq<nat>)
    returns (r: Option<string>)
    requires NUL !in exe && NUL !in path && Planned(path, 0, parts, starts)
    ensures IsFirst(parts, exe, test, r)
  {
    var syspath := StrDup(path);
    var dir := 0;
    ghost var j := 0;
    assert PartAt(path, parts, starts, 0);
    var dirsep := StrChr(syspath, dir, path, parts[0]);
    while dirsep >= 0
      invariant 0 <= j < |parts| && dir == starts[j] && PartAt(path, parts, starts, j)
      invariant Uncut(syspath, path, dir)
      invariant dirsep == if dir + |parts[j]| == |path| then -1 else dir + |parts[j]|
      invariant NoneBefore(parts, j, exe, test)
      decreases |parts| - j
    {
      syspath[dirsep] := NUL;
      r := TestComponent(syspath, dir, exe, test, path, parts[j]);
      NextDecides(parts, j, exe, test, r);
      if r.Some? {
        return;
      }
      dir := dirsep + 1;
      j := j + 1;
      assert PartAt(path, parts, starts, j);
      dirsep := StrChr(syspath, dir, path, parts[j]);
    }
    r := TestComponent(syspath, dir, exe, test, path, parts[j]);
    NextDecides(parts, j, exe, test, r);
  }

  /** `search_in_path` returns the first component of PATH that passes the file test, or nothing. */
  method SearchInPath(exe: string, path: string, test: string -> bool) returns (r: Option<string>)
    requires NUL !in exe && NUL !in path
    ensures r == FirstFound(Split(path), exe, test)
  {
    ghost var starts := SplitPlan(path, 0);
    assert path[0..] == path;
    r := CutAndTest(exe, path, test, Split(path), starts);
    FirstIs(Split(path), exe, test, r);
  }

  /** The name is the directory, a slash, and a part without slashes. */
  ghost predicate DirectoryOf(dir: string, name: string) {
    exists base :: name == dir + "/" + base && '/' !in base
  }

  /** strrchr for '/', or -1. */
  method StrRChr(path: array<char>, ghost s: string) returns (x: int)
    requires path.Length == |s| + 1 && path[..|s|] == s
    ensures -1 <= x < |s|
    ensures if x < 0 then '/' !in s else DirectoryOf(s[..x], s)
  {
    x := path.Length - 2;
    while x >= 0 && path[x] != '/'
      invariant -1 <= x < |s|
      invariant forall j :: x < j < |s| ==> s[j] != '/'
    {
      assert path[x] == path[..|s|][x];
      x := x - 1;
    }
    if x >= 0 {
      assert path[x] == path[..|s|][x];
      assert s == s[..x] + "/" + s[x + 1..];
    }
  }

  /** `find_base_path`: the directory part, else the PATH directory found, else the name itself. */
  method FindBasePath(filename: string, path: string, test: string -> bool) returns (r: string)
    requires NUL !in filename && NUL !in path
    ensures if '/' in filename then DirectoryOf(r, filename)
            else r == match FirstFound(Split(path), filename, test) case Some(dir) => dir case None => filename
  {
    var buf := StrDup(filename);
    assert buf[..|filename|] == filename;
    var x := StrRChr(buf, filename);
    if x >= 0 {
      buf[x] := NUL;
      assert buf[0..x] == filename[..x];
      CStringIs(buf[..], 0, filename[..x]);
    } else {
      var found := SearchInPath(filename, path, test);
      if found.Some? {
        return found.value;
      }
      CStringIs(buf[..], 0, filename);
    }
    return CString(buf[..], 0);
  }
}
