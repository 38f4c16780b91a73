// The file system of fs.c as a map: a read-only ROM, overridden by at most 32 files in memory, and
// at most 32 directories made by mkdir.
module Overlay {
  import opened Options
  import opened Bytes

  const MAX_FILES: nat := 32
  const MAX_SIZE: nat := 2048
  const MAX_DIRS: nat := 32
  const PATH_MAX: nat := 128

  datatype RomFile = RomFile(name: string, data: seq<byte>)

  datatype Rom = Rom(files: seq<RomFile>, dirs: seq<string>)

  datatype State = State(overlay: map<string, seq<byte>>, dirs: seq<string>)

  const EMPTY := State(map[], [])

  // The first ROM file of that name, from i on.
  function RomSeek(files: seq<RomFile>, path: string, i: nat): (k: nat)
    requires i <= |files|
    ensures i <= k <= |files| && (k < |files| ==> files[k].name == path)
    ensures forall j :: i <= j < k ==> files[j].name != path
    decreases |files| - i
  {
    if i == |files| || files[i].name == path then i else RomSeek(files, path, i + 1)
  }

  function RomFind(rom: Rom, path: string): Option<seq<byte>> {
    var k := RomSeek(rom.files, path, 0);
    if k < |rom.files| then Some(rom.files[k].data) else None
  }

  // What a reader sees.
  function View(rom: Rom, st: State, path: string): Option<seq<byte>> {
    if path in st.overlay then Some(st.overlay[path]) else RomFind(rom, path)
  }

  predicate Below(name: string, prefix: string) {
    prefix < name
  }

  ghost predicate HasChildren(rom: Rom, st: State, prefix: string) {
    || (exists i :: 0 <= i < |rom.files| && Below(rom.files[i].name, prefix))
    || (exists p :: p in st.overlay && Below(p, prefix))
  }

  // The root, a directory of the ROM or of mkdir, or (for a short enough path) the directory of a file.
  ghost predicate IsDir(rom: Rom, st: State, path: string) {
    || path == "/"
    || path in rom.dirs
    || path in st.dirs
    || (|path| + 2 <= PATH_MAX && HasChildren(rom, st, path + "/"))
  }

  ghost predicate Exists(rom: Rom, st: State, path: string) {
    View(rom, st, path).Some? || IsDir(rom, st, path)
  }

  // ----- operations: a code, 0 for success, and the new state -----

  datatype Op = Write(path: string, data: seq<byte>) | Touch(path: string) | Mkdir(path: string) | Rm(path: string)

  ghost predicate MayWrite(rom: Rom, st: State, path: string, size: nat) {
    size <= MAX_SIZE && |path| < PATH_MAX && !IsDir(rom, st, path) && (path in st.overlay || |st.overlay| < MAX_FILES)
  }

  // The directory that holds path.
  function Parent(path: string): string {
    var cut := LastSlash(path, |path|);
    if cut <= 1 then "/" else path[..cut - 1]
  }

  // The end of the last '/' of path[..n], but at least 1.
  function LastSlash(path: string, n: nat): (cut: nat)
    requires n <= |path|
    ensures cut <= n && (n >= 1 ==> cut >= 1)
    ensures cut > 1 ==> path[cut - 1] == '/'
  {
    if n > 1 && path[n - 1] != '/' then LastSlash(path, n - 1) else n
  }

  ghost predicate MayMkdir(rom: Rom, st: State, path: string) {
    && !Exists(rom, st, path)
    && 0 < |path| < PATH_MAX && IsDir(rom, st, Parent(path)) && |st.dirs| < MAX_DIRS
  }

  ghost function Apply(rom: Rom, st: State, op: Op): (int, State) {
    match op
    case Write(path, data) =>
      if MayWrite(rom, st, path, |data|) then (0, st.(overlay := st.overlay[path := data])) else (-1, st)
    case Touch(path) =>
      if View(rom, st, path).Some? then (0, st)
      else if MayWrite(rom, st, path, 0) then (0, st.(overlay := st.overlay[path := []]))
      else (-1, st)
    case Mkdir(path) =>
      if MayMkdir(rom, st, path) then (0, st.(dirs := st.dirs + [path])) else (-1, st)
    case Rm(path) =>
      if path in st.overlay then (0, st.(overlay := st.overlay - {path}))
      else if RomFind(rom, path).Some? then (-2, st)
      else (-1, st)
  }

  ghost function Run(rom: Rom, st: State, ops: seq<Op>): State {
    if ops == [] then st else Apply(rom, Run(rom, st, ops[..|ops| - 1]), ops[|ops| - 1]).1
  }

  // ----- what every run keeps -----

  ghost predicate Inv(rom: Rom, st: State) {
    && |st.overlay| <= MAX_FILES && |st.dirs| <= MAX_DIRS
    && (forall p :: p in st.overlay ==> |p| < PATH_MAX && |st.overlay[p]| <= MAX_SIZE)
    && (forall i, j :: 0 <= i < j < |st.dirs| ==> st.dirs[i] != st.dirs[j])
    && (forall i :: 0 <= i < |st.dirs| ==> 0 < |st.dirs[i]| < PATH_MAX && View(rom, st, st.dirs[i]).None?)
  }

  lemma WriteInv(rom: Rom, st: State, path: string, data: seq<byte>)
    requires Inv(rom, st) && MayWrite(rom, st, path, |data|)
    ensures Inv(rom, st.(overlay := st.overlay[path := data]))
  {
    var st' := st.(overlay := st.overlay[path := data]);
    assert st'.overlay.Keys == st.overlay.Keys + {path};
    forall i | 0 <= i < |st.dirs| ensures View(rom, st', st.dirs[i]).None? {
      assert st.dirs[i] in st.dirs;
      assert View(rom, st, st.dirs[i]).None?;
    }
  }

  lemma MkdirInv(rom: Rom, st: State, path: string)
    requires Inv(rom, st) && MayMkdir(rom, st, path)
    ensures Inv(rom, st.(dirs := st.dirs + [path]))
  {
    forall i | 0 <= i < |st.dirs| ensures st.dirs[i] != path {
      assert st.dirs[i] in st.dirs;
    }
    assert forall i :: 0 <= i < |st.dirs| ==> View(rom, st, st.dirs[i]).None?;
  }

  lemma RmInv(rom: Rom, st: State, path: string)
    requires Inv(rom, st) && path in st.overlay
    ensures Inv(rom, st.(overlay := st.overlay - {path}))
  {
    SmallerWithout(st.overlay, path);
    assert forall i :: 0 <= i < |st.dirs| ==> View(rom, st, st.dirs[i]).None?;
  }

  lemma ApplyInv(rom: Rom, st: State, op: Op)
    requires Inv(rom, st)
    ensures Inv(rom, Apply(rom, st, op).1)
  {
    match op
    case Write(path, data) => if MayWrite(rom, st, path, |data|) { WriteInv(rom, st, path, data); }
    case Touch(path) => if MayWrite(rom, st, path, 0) { WriteInv(rom, st, path, []); }
    case Mkdir(path) => if MayMkdir(rom, st, path) { MkdirInv(rom, st, path); }
    case Rm(path) => if path in st.overlay { RmInv(rom, st, path); }
  }

  lemma {:induction false} RunInv(rom: Rom, st: State, ops: seq<Op>)
    requires Inv(rom, st)
    ensures Inv(rom, Run(rom, st, ops))
  {
    if ops != [] {
      var n := |ops| - 1;
      RunInv(rom, st, ops[..n]);
      ApplyInv(rom, Run(rom, st, ops[..n]), ops[n]);
    }
  }

  // After any run: a directory made by mkdir is no file, and no directory was made twice.
  lemma DirectoriesAreNoFiles(rom: Rom, ops: seq<Op>, dir: string)
    requires dir in Run(rom, EMPTY, ops).dirs
    ensures View(rom, Run(rom, EMPTY, ops), dir).None? && IsDir(rom, Run(rom, EMPTY, ops), dir)
  {
    RunInv(rom, EMPTY, ops);
    var st := Run(rom, EMPTY, ops);
    var i :| 0 <= i < |st.dirs| && st.dirs[i] == dir;
  }

  // ----- what operations do to the view -----

  // Removing a file uncovers what the ROM holds; the ROM's own files are refused.
  lemma RmUncovers(rom: Rom, st: State, path: string)
    ensures var (code, st') := Apply(rom, st, Rm(path));
      && (code == 0 <==> path in st.overlay) && (code == 0 ==> View(rom, st', path) == RomFind(rom, path))
      && (code == -2 <==> path !in st.overlay && RomFind(rom, path).Some?)
      && (code == -1 <==> View(rom, st, path).None?)
  {
  }

  // A new file that is written and removed leaves no trace.
  lemma WriteThenRm(rom: Rom, st: State, path: string, data: seq<byte>)
    requires path !in st.overlay && MayWrite(rom, st, path, |data|)
    ensures Apply(rom, Apply(rom, st, Write(path, data)).1, Rm(path)) == (0, st)
  {
    assert st.overlay[path := data] - {path} == st.overlay;
  }

  // A directory can be made once, below a directory, and then is one.
  lemma MkdirMakesDirectory(rom: Rom, st: State, path: string)
    ensures var (code, st') := Apply(rom, st, Mkdir(path));
      && (code == 0 ==> !IsDir(rom, st, path) && IsDir(rom, st', path) && IsDir(rom, st, Parent(path)))
      && (code == 0 ==> Apply(rom, st', Mkdir(path)) == (-1, st'))
      && (code == 0 ==> forall data :: Apply(rom, st', Write(path, data)) == (-1, st'))
  {
    var (code, st') := Apply(rom, st, Mkdir(path));
    if code == 0 {
      assert path == st'.dirs[|st'.dirs| - 1];
      assert path in st'.dirs;
    }
  }

  // ----- when an operation succeeds -----

  lemma RomHas(rom: Rom, path: string)
    ensures RomFind(rom, path).Some? <==> exists i :: 0 <= i < |rom.files| && rom.files[i].name == path
  {
  }

  // A directory is the root, one of the ROM or of mkdir, or, up to 126 characters, the first part of
  // the path of a file that can be seen.
  lemma DirectoriesAreSeen(rom: Rom, st: State, path: string)
    ensures IsDir(rom, st, path) <==>
      || path == "/" || path in rom.dirs || path in st.dirs
      || (|path| <= 126 && exists q :: View(rom, st, q).Some? && path + "/" < q)
  {
    var prefix := path + "/";
    if HasChildren(rom, st, prefix) {
      if i :| 0 <= i < |rom.files| && Below(rom.files[i].name, prefix) {
        RomHas(rom, rom.files[i].name);
        assert View(rom, st, rom.files[i].name).Some?;
      } else {
        var p :| p in st.overlay && Below(p, prefix);
        assert View(rom, st, p).Some?;
      }
    }
    if q :| View(rom, st, q).Some? && prefix < q {
      RomHas(rom, q);
      assert Below(q, prefix);
    }
  }

  // Writing succeeds exactly for at most 2048 bytes under a path of at most 127 characters that is no
  // directory, if there is a file in memory already or a free slot of the 32.
  lemma WriteSucceeds(rom: Rom, st: State, path: string, data: seq<byte>)
    ensures var (code, st') := Apply(rom, st, Write(path, data));
      && (code == 0 <==>
            |data| <= 2048 && |path| <= 127 && !IsDir(rom, st, path) && (path in st.overlay || |st.overlay| < 32))
      && (code == 0 ==> View(rom, st', path) == Some(data))
      && (code != 0 ==> code == -1 && st' == st)
      && forall q :: q != path ==> View(rom, st', q) == View(rom, st, q)
  {
  }

  // Touching a file that can be seen changes nothing, and otherwise is writing an empty one.
  lemma TouchIsEmptyWrite(rom: Rom, st: State, path: string)
    ensures Apply(rom, st, Touch(path)) ==
      if View(rom, st, path).Some? then (0, st) else Apply(rom, st, Write(path, []))
  {
  }

  // A directory can be made where nothing is, below a directory, up to 32 of them.
  lemma MkdirSucceeds(rom: Rom, st: State, path: string)
    ensures Apply(rom, st, Mkdir(path)).0 == 0 <==>
      && View(rom, st, path).None? && !IsDir(rom, st, path) && 1 <= |path| <= 127
      && IsDir(rom, st, Parent(path)) && |st.dirs| < 32
    ensures Apply(rom, st, Mkdir(path)).1.overlay == st.overlay
  {
  }

  // The parent of a/c is a, and that of /c the root.
  lemma ParentIs(a: string, c: string)
    requires '/' !in c
    ensures Parent(a + "/" + c) == if a == "" then "/" else a
  {
    var path := a + "/" + c;
    LastSlashIs(path, |path|, |a|);
    assert path[..|a|] == a;
  }

  // After any run at most 32 files and 32 directories, of at most 2048 bytes and 127 characters.
  lemma RunIsBounded(rom: Rom, ops: seq<Op>)
    ensures var st := Run(rom, EMPTY, ops);
      && |st.overlay| <= 32 && |st.dirs| <= 32
      && (forall p :: p in st.overlay ==> |p| <= 127 && |st.overlay[p]| <= 2048)
      && (forall i :: 0 <= i < |st.dirs| ==> 1 <= |st.dirs[i]| <= 127)
  {
    RunInv(rom, EMPTY, ops);
  }

  // ----- the state is what the calls and their codes say -----

  datatype Call = Call(op: Op, code: int)

  // The calls of a run with the codes they return.
  ghost function Log(rom: Rom, st: State, ops: seq<Op>): seq<Call> {
    if ops == [] then []
    else
      var n := |ops| - 1;
      Log(rom, st, ops[..n]) + [Call(ops[n], Apply(rom, Run(rom, st, ops[..n]), ops[n]).0)]
  }

  // What the last successful call on `path` left there: a file by write or, where none was, by
  // touch; nothing by rm.
  function Held(rom: Rom, log: seq<Call>, path: string): Option<seq<byte>> {
    if log == [] then None
    else
      var n := |log| - 1;
      var before := Held(rom, log[..n], path);
      if log[n].code != 0 || log[n].op.path != path then before
      else
        match log[n].op
        case Write(_, data) => Some(data)
        case Touch(_) => if before.Some? || RomFind(rom, path).Some? then before else Some([])
        case Mkdir(_) => before
        case Rm(_) => None
  }

  // The directories made, in order.
  function Made(log: seq<Call>): seq<string> {
    if log == [] then []
    else
      var n := |log| - 1;
      Made(log[..n]) + if log[n].op.Mkdir? && log[n].code == 0 then [log[n].op.path] else []
  }

  // After any run from the start, a reader sees what the last successful write, touch or rm of that
  // path left, and otherwise the ROM; and the directories are those that mkdir reported as made.
  lemma {:induction false} StateIsHistory(rom: Rom, ops: seq<Op>, path: string)
    ensures var st, log := Run(rom, EMPTY, ops), Log(rom, EMPTY, ops);
      && (path in st.overlay <==> Held(rom, log, path).Some?)
      && View(rom, st, path) == (if Held(rom, log, path).Some? then Held(rom, log, path) else RomFind(rom, path))
      && st.dirs == Made(log)
  {
    if ops != [] {
      var n := |ops| - 1;
      StateIsHistory(rom, ops[..n], path);
      OneMoreCall(rom, Run(rom, EMPTY, ops[..n]), Log(rom, EMPTY, ops[..n]), ops[n], path);
    }
  }

  lemma OneMoreCall(rom: Rom, st: State, log: seq<Call>, op: Op, path: string)
    requires path in st.overlay <==> Held(rom, log, path).Some?
    requires View(rom, st, path) == if Held(rom, log, path).Some? then Held(rom, log, path) else RomFind(rom, path)
    requires st.dirs == Made(log)
    ensures var (code, st') := Apply(rom, st, op);
      var log' := log + [Call(op, code)];
      && (path in st'.overlay <==> Held(rom, log', path).Some?)
      && View(rom, st', path) == (if Held(rom, log', path).Some? then Held(rom, log', path) else RomFind(rom, path))
      && st'.dirs == Made(log')
  {
    var log' := log + [Call(op, Apply(rom, st, op).0)];
    assert log'[..|log|] == log;
  }

  // ----- parents -----

  // The directory that holds a directory made by mkdir is one itself.
  ghost predicate ParentsAreDirs(rom: Rom, st: State) {
    forall d :: d in st.dirs ==> IsDir(rom, st, Parent(d))
  }

  // The file `path` is all that makes `dir` a directory.
  ghost predicate OnlyMaker(rom: Rom, st: State, path: string, dir: string) {
    && dir != "/" && dir !in rom.dirs && dir !in st.dirs && Below(path, dir + "/")
    && (forall i :: 0 <= i < |rom.files| ==> !Below(rom.files[i].name, dir + "/"))
    && (forall p :: p in st.overlay && p != path ==> !Below(p, dir + "/"))
  }

  // What rm has to leave alone for this to last.
  ghost predicate Orphans(rom: Rom, st: State, op: Op) {
    op.Rm? && op.path in st.overlay && exists d :: d in st.dirs && OnlyMaker(rom, st, op.path, Parent(d))
  }

  // The parents are directories after a run and after each step of it.
  ghost predicate AlwaysDirs(rom: Rom, ops: seq<Op>) {
    ParentsAreDirs(rom, Run(rom, EMPTY, ops)) && (ops != [] ==> AlwaysDirs(rom, ops[..|ops| - 1]))
  }

  ghost predicate NeverOrphans(rom: Rom, ops: seq<Op>) {
    ops != [] ==>
      && !Orphans(rom, Run(rom, EMPTY, ops[..|ops| - 1]), ops[|ops| - 1])
      && NeverOrphans(rom, ops[..|ops| - 1])
  }

  // More files and directories: what was a directory still is.
  lemma StillDir(rom: Rom, st: State, st': State, dir: string)
    requires st.overlay.Keys <= st'.overlay.Keys && (forall d :: d in st.dirs ==> d in st'.dirs)
    requires IsDir(rom, st, dir)
    ensures IsDir(rom, st', dir)
  {
    if |dir| + 2 <= PATH_MAX && HasChildren(rom, st, dir + "/") {
      assert HasChildren(rom, st', dir + "/") by {
        if p :| p in st.overlay && Below(p, dir + "/") {
          assert p in st'.overlay;
        }
      }
    }
  }

  lemma DirWithout(rom: Rom, st: State, path: string, dir: string)
    requires path in st.overlay && IsDir(rom, st, dir)
    ensures IsDir(rom, st.(overlay := st.overlay - {path}), dir) <==> !OnlyMaker(rom, st, path, dir)
  {
    var st', prefix := st.(overlay := st.overlay - {path}), dir + "/";
    if !IsDir(rom, st', dir) {
      assert HasChildren(rom, st, prefix) && !HasChildren(rom, st', prefix);
      forall p | p in st.overlay && p != path ensures !Below(p, prefix) {
        assert p in st'.overlay;
      }
    }
  }

  lemma StepKeepsParents(rom: Rom, st: State, op: Op)
    requires ParentsAreDirs(rom, st)
    ensures ParentsAreDirs(rom, Apply(rom, st, op).1) <==> !Orphans(rom, st, op)
  {
    var st' := Apply(rom, st, op).1;
    if op.Rm? && op.path in st.overlay {
      forall d | d in st.dirs
        ensures IsDir(rom, st', Parent(d)) <==> !OnlyMaker(rom, st, op.path, Parent(d))
      {
        DirWithout(rom, st, op.path, Parent(d));
      }
    } else {
      forall d | d in st'.dirs ensures IsDir(rom, st', Parent(d)) {
        StillDir(rom, st, st', Parent(d));
      }
    }
  }

  // All through a run the parents are directories exactly if no rm takes away the only file below
  // the parent of a directory that was made, where nothing else makes that parent a directory.
  lemma {:induction false} RunKeepsParents(rom: Rom, ops: seq<Op>)
    ensures AlwaysDirs(rom, ops) <==> NeverOrphans(rom, ops)
  {
    if ops != [] {
      var n := |ops| - 1;
      RunKeepsParents(rom, ops[..n]);
      if AlwaysDirs(rom, ops[..n]) {
        StepKeepsParents(rom, Run(rom, EMPTY, ops[..n]), ops[n]);
      }
    }
  }

  // It does happen: /a is a directory by its one file, /a/b is made in it, and the file is removed.
  lemma ParentIsLost()
    ensures var st := Run(Rom([], []), EMPTY, [Write("/a/f", []), Mkdir("/a/b"), Rm("/a/f")]);
      "/a/b" in st.dirs && Parent("/a/b") == "/a" && !IsDir(Rom([], []), st, "/a")
  {
    var rom := Rom([], []);
    var st1 := State(map["/a/f" := []], []);
    var st2 := State(map["/a/f" := []], ["/a/b"]);
    var st3 := State(map[], ["/a/b"]);
    ParentOf("/a/b", 2);
    assert Apply(rom, EMPTY, Write("/a/f", [])) == (0, st1);
    assert "/a/b"[..2] == "/a" && "/a" + "/" == "/a/" && Below("/a/f", "/a/");
    assert IsDir(rom, st1, "/a");
    assert "/a/b" != "/a/f" by { assert "/a/b"[3] != "/a/f"[3]; }
    assert !Below("/a/f", "/a/b" + "/");
    assert !IsDir(rom, st1, "/a/b");
    assert View(rom, st1, "/a/b").None?;
    assert MayMkdir(rom, st1, "/a/b");
    assert [] + ["/a/b"] == ["/a/b"];
    assert Apply(rom, st1, Mkdir("/a/b")) == (0, st2);
    assert st2.overlay - {"/a/f"} == map[];
    assert Apply(rom, st2, Rm("/a/f")) == (0, st3);
    RunOfThree(rom, EMPTY, Write("/a/f", []), Mkdir("/a/b"), Rm("/a/f"));
  }

  lemma ParentOf(path: string, cut: nat)
    requires 0 < cut < |path| && path[cut] == '/' && forall k :: cut < k < |path| ==> path[k] != '/'
    ensures Parent(path) == path[..cut]
  {
    LastSlashIs(path, |path|, cut);
  }

  lemma {:induction false} LastSlashIs(path: string, n: nat, cut: nat)
    requires cut < n <= |path| && path[cut] == '/' && forall k :: cut < k < n ==> path[k] != '/'
    ensures LastSlash(path, n) == cut + 1
  {
    if n > cut + 1 {
      LastSlashIs(path, n - 1, cut);
    }
  }

  lemma RunMore(rom: Rom, st: State, ops: seq<Op>, op: Op)
    ensures Run(rom, st, ops + [op]) == Apply(rom, Run(rom, st, ops), op).1
  {
    assert (ops + [op])[..|ops|] == ops;
  }

  lemma RunOfThree(rom: Rom, st: State, a: Op, b: Op, c: Op)
    ensures Run(rom, st, [a, b, c]) == Apply(rom, Apply(rom, Apply(rom, st, a).1, b).1, c).1
  {
    RunMore(rom, st, [], a);
    RunMore(rom, st, [a], b);
    RunMore(rom, st, [a, b], c);
    assert [] + [a] == [a] && [a] + [b] == [a, b] && [a, b] + [c] == [a, b, c];
  }

  // ----- sizes -----

  ghost function TotalSize(m: map<string, seq<byte>>): nat
    decreases |m|
  {
    if m == map[] then 0
    else
      var p :| p in m;
      SmallerWithout(m, p);
      |m[p]| + TotalSize(m - {p})
  }

  lemma SmallerWithout(m: map<string, seq<byte>>, p: string)
    requires p in m
    ensures |m - {p}| == |m| - 1
  {
    assert (m - {p}).Keys == m.Keys - {p};
  }

  // The sum does not depend on the order.
  lemma {:induction false} TotalSizeWithout(m: map<string, seq<byte>>, p: string)
    requires p in m
    ensures TotalSize(m) == |m[p]| + TotalSize(m - {p})
    decreases |m|
  {
    var q :| q in m && TotalSize(m) == |m[q]| + TotalSize(m - {q});
    if q != p {
      SmallerWithout(m, q);
      SmallerWithout(m, p);
      TotalSizeWithout(m - {q}, p);
      TotalSizeWithout(m - {p}, q);
      assert m - {q} - {p} == m - {p} - {q};
    }
  }

  lemma TotalSizeWith(m: map<string, seq<byte>>, p: string, data: seq<byte>)
    requires p !in m
    ensures TotalSize(m[p := data]) == TotalSize(m) + |data|
  {
    TotalSizeWithout(m[p := data], p);
    assert m[p := data] - {p} == m;
  }
}
