// The code of fs.c over its tables: 32 file slots and 32 directory names, searched and written in
// place.
module FileSystem {
  import opened Options
  import opened Bytes
  import opened SlotTable
  import opened Overlay

  class Fs {
    const rom: Rom
    const files: array<Slot<seq<byte>>>
    const dirs: array<string>
    var ndirs: nat

    ghost predicate Valid()
      reads this, files, dirs
    {
      files.Length == MAX_FILES && dirs.Length == MAX_DIRS && ndirs <= MAX_DIRS && Distinct(files[..])
    }

    ghost function State(): State
      reads this, files, dirs
      requires Valid()
    {
      Overlay.State.State(MapOf(files[..]), dirs[..ndirs])
    }

    constructor (rom: Rom)
      ensures Valid() && this.rom == rom && State() == EMPTY && fresh(files) && fresh(dirs)
    {
      this.rom := rom;
      files := new Slot<seq<byte>>[MAX_FILES](_ => Slot(false, "", []));
      dirs := new string[MAX_DIRS](_ => "");
      ndirs := 0;
      new;
      AllFree(files[..]);
    }

    // fs_find_ov
    method FindOv(path: string) returns (slot: int)
      requires Valid()
      ensures slot == -1 <==> path !in State().overlay
      ensures slot == -1 || (0 <= slot < files.Length && files[slot].used && files[slot].name == path)
      ensures slot != -1 ==> files[slot].value == State().overlay[path]
    {
      for i := 0 to MAX_FILES
        invariant forall k :: 0 <= k < i ==> !(files[k].used && files[k].name == path)
      {
        if files[i].used && files[i].name == path {
          Member(files[..], i);
          return i;
        }
      }
      if path in State().overlay {
        ghost var k := Owner(files[..], path);
        assert false;
      }
      return -1;
    }

    // fs_find_rom
    method FindRom(path: string) returns (k: int)
      ensures k == -1 <==> RomFind(rom, path) == None
      ensures k != -1 ==> 0 <= k < |rom.files| && RomFind(rom, path) == Some(rom.files[k].data)
    {
      for i := 0 to |rom.files|
        invariant RomSeek(rom.files, path, 0) == RomSeek(rom.files, path, i)
      {
        if rom.files[i].name == path {
          return i;
        }
      }
      return -1;
    }

    method HasChildren(prefix: string) returns (found: bool)
      requires Valid()
      ensures found == Overlay.HasChildren(rom, State(), prefix)
    {
      for i := 0 to |rom.files|
        invariant forall k :: 0 <= k < i ==> !Below(rom.files[k].name, prefix)
      {
        if Below(rom.files[i].name, prefix) {
          return true;
        }
      }
      for i := 0 to MAX_FILES
        invariant forall k :: 0 <= k < i ==> !(files[k].used && Below(files[k].name, prefix))
      {
        if files[i].used && Below(files[i].name, prefix) {
          Member(files[..], i);
          return true;
        }
      }
      forall p | p in State().overlay ensures !Below(p, prefix) {
        ghost var k := Owner(files[..], p);
        assert files[k].used;
      }
      return false;
    }

    method FsIsDir(path: string) returns (found: bool)
      requires Valid()
      ensures found == IsDir(rom, State(), path)
    {
      if path == "/" {
        return true;
      }
      for i := 0 to |rom.dirs|
        invariant path !in rom.dirs[..i]
      {
        if rom.dirs[i] == path {
          return true;
        }
      }
      assert rom.dirs[..|rom.dirs|] == rom.dirs;
      for i := 0 to ndirs
        invariant path !in dirs[..i]
      {
        if dirs[i] == path {
          assert dirs[..ndirs][i] == path;
          return true;
        }
      }
      if |path| + 2 > PATH_MAX {
        return false;
      }
      found := HasChildren(path + "/");
    }

    method FsExists(path: string) returns (found: bool)
      requires Valid()
      ensures found == Exists(rom, State(), path)
    {
      var ov := FindOv(path);
      if ov >= 0 {
        return true;
      }
      var k := FindRom(path);
      if k >= 0 {
        return true;
      }
      found := FsIsDir(path);
    }

    // The size of the file copied to buf, or -1 without one, or with one that is too large.
    method FsRead(path: string, buf: array<byte>, cap: nat) returns (n: int)
      requires Valid() && cap <= buf.Length
      modifies buf
      ensures var v := View(rom, State(), path);
        if v.None? || |v.value| > cap then n == -1 && buf[..] == old(buf[..])
        else n == |v.value| && buf[..] == Overwrite(old(buf[..]), 0, v.value)
    {
      var ov := FindOv(path);
      var data: seq<byte>;
      if ov >= 0 {
        data := files[ov].value;
      } else {
        var k := FindRom(path);
        if k < 0 {
          return -1;
        }
        data := rom.files[k].data;
      }
      if |data| > cap {
        return -1;
      }
      Put(buf, 0, data);
      return |data|;
    }

    method FsWrite(path: string, data: seq<byte>) returns (code: int)
      requires Valid()
      modifies files
      ensures Valid() && (code, State()) == Apply(rom, old(State()), Write(path, data))
    {
      if |data| > MAX_SIZE || |path| >= PATH_MAX {
        return -1;
      }
      var dir := FsIsDir(path);
      if dir {
        return -1;
      }
      var f := FindOv(path);
      if f < 0 {
        f := FirstFree();
      }
      if f < 0 {
        return -1;
      }
      WriteSlot(files[..], f, path, data);
      ghost var before := files[..];
      files[f] := Slot(true, path, data);
      assert files[..] == before[f := Slot(true, path, data)];
      return 0;
    }

    // The first free slot, or -1 when the overlay is full.
    method FirstFree() returns (f: int)
      requires Valid()
      ensures f == -1 <==> |State().overlay| >= MAX_FILES
      ensures f == -1 || (0 <= f < files.Length && !files[f].used)
    {
      FullMeansFull(files[..]);
      for i := 0 to MAX_FILES
        invariant forall k :: 0 <= k < i ==> files[k].used
      {
        if !files[i].used {
          assert !Full(files[..]) by { assert !files[..][i].used; }
          return i;
        }
      }
      assert Full(files[..]);
      return -1;
    }

    method FsTouch(path: string) returns (code: int)
      requires Valid()
      modifies files
      ensures Valid() && (code, State()) == Apply(rom, old(State()), Touch(path))
    {
      var ov := FindOv(path);
      var k := FindRom(path);
      if ov >= 0 || k >= 0 {
        return 0;
      }
      code := FsWrite(path, []);
    }

    method FsMkdir(path: string) returns (code: int)
      requires Valid()
      modifies this`ndirs, dirs
      ensures Valid() && (code, State()) == Apply(rom, old(State()), Mkdir(path))
    {
      var there := FsExists(path);
      if there {
        return -1;
      }
      var n := |path|;
      if n == 0 || n >= PATH_MAX {
        return -1;
      }
      var cut := n;
      while cut > 1 && path[cut - 1] != '/'
        invariant 0 < cut <= n && LastSlash(path, cut) == LastSlash(path, n)
      {
        cut := cut - 1;
      }
      var parent := if cut <= 1 then "/" else path[..cut - 1];
      var dir := FsIsDir(parent);
      if !dir {
        return -1;
      }
      if ndirs >= MAX_DIRS {
        return -1;
      }
      dirs[ndirs] := path;
      ndirs := ndirs + 1;
      assert dirs[..ndirs] == old(dirs[..ndirs]) + [path];
      return 0;
    }

    method FsRm(path: string) returns (code: int)
      requires Valid()
      modifies files
      ensures Valid() && (code, State()) == Apply(rom, old(State()), Rm(path))
    {
      var f := FindOv(path);
      if f >= 0 {
        FreeSlot(files[..], f);
        ghost var before := files[..];
        files[f] := files[f].(used := false);
        assert files[..] == before[f := before[f].(used := false)];
        return 0;
      }
      var k := FindRom(path);
      return if k >= 0 then -2 else -1;
    }

    // How many files the overlay holds, and how many bytes.
    method FsStats() returns (nf: nat, nb: nat)
      requires Valid()
      ensures nf == |State().overlay| && nb == TotalSize(State().overlay)
    {
      nf, nb := 0, 0;
      for i := 0 to MAX_FILES
        invariant nf == |MapOf(files[..i])| && nb == TotalSize(MapOf(files[..i]))
      {
        CountSlot(files[..i + 1]);
        assert files[..i + 1][..i] == files[..i];
        if files[i].used {
          nf := nf + 1;
          nb := nb + |files[i].value|;
        }
      }
      assert files[..MAX_FILES] == files[..];
    }
  }

  // What one more slot adds.
  lemma CountSlot(s: seq<Slot<seq<byte>>>)
    requires Distinct(s) && |s| > 0
    ensures var n := |s| - 1;
      var m := MapOf(s[..n]);
      && |MapOf(s)| == |m| + (if s[n].used then 1 else 0)
      && TotalSize(MapOf(s)) == TotalSize(m) + if s[n].used then |s[n].value| else 0
  {
    LastSlot(s);
    var n := |s| - 1;
    if s[n].used {
      NewName(s);
      TotalSizeWith(MapOf(s[..n]), s[n].name, s[n].value);
    }
  }

  // The last of some slots adds a name.
  lemma NewName(s: seq<Slot<seq<byte>>>)
    requires Distinct(s) && |s| > 0 && s[|s| - 1].used
    ensures s[|s| - 1].name !in MapOf(s[..|s| - 1])
  {
    if s[|s| - 1].name in MapOf(s[..|s| - 1]) {
      var k := Owner(s[..|s| - 1], s[|s| - 1].name);
      assert false;
    }
  }
}
