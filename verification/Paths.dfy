// Lexical path resolution (fs_resolve of fs.c) as a stack machine.
module Paths {
  const TMP_MAX: nat := 255
  const DEPTH_MAX: nat := 32
  const COMPONENT_MAX: nat := 63

  // ----- specification -----

  // How many characters of s come before the first '/'.
  function ComponentLength(s: string): (n: nat)
    ensures n <= |s| && (n < |s| ==> s[n] == '/')
    ensures forall k :: 0 <= k < n ==> s[k] != '/'
  {
    if s == "" || s[0] == '/' then 0 else 1 + ComponentLength(s[1..])
  }

  // What a component does to the stack of directories: a long one, or one too many, is dropped.
  function Push(stack: seq<string>, c: string): seq<string> {
    if c == "." then stack
    else if c == ".." then (if stack == [] then [] else stack[..|stack| - 1])
    else if |stack| < DEPTH_MAX && |c| <= COMPONENT_MAX then stack + [c]
    else stack
  }

  function Walk(s: string, stack: seq<string>): seq<string>
    decreases |s|
  {
    if s == "" then stack
    else if s[0] == '/' then Walk(s[1..], stack)
    else
      var n := ComponentLength(s);
      Walk(s[n..], Push(stack, s[..n]))
  }

  function Join(stack: seq<string>): string {
    if stack == [] then ""
    else if |stack| == 1 then stack[0]
    else stack[0] + "/" + Join(stack[1..])
  }

  function Render(stack: seq<string>): string { "/" + Join(stack) }

  // The text that is walked: `path` itself if it is absolute, or else below `cwd`.
  function Whole(cwd: string, path: string): string {
    var p := if path == "" then "." else path;
    if p[0] == '/' then p
    else if cwd == "" || cwd[|cwd| - 1] != '/' then cwd + "/" + p
    else cwd + p
  }

  // Resolution without regard to the size of the buffers.
  function Resolve(cwd: string, path: string): string {
    Render(Walk(Whole(cwd, path), []))
  }

  function Cut(s: string, n: nat): (r: string)
    ensures |r| <= n && r <= s
  {
    if |s| <= n then s else s[..n]
  }

  // Resolution with the buffers of fs_resolve: 255 characters of input, cap - 1 of output.
  function ResolveIn(cwd: string, path: string, cap: nat): string
    requires cap >= 2
  {
    Cut(Render(Walk(Cut(Whole(cwd, path), TMP_MAX), [])), cap - 1)
  }

  // ----- normal forms -----

  predicate GoodComponent(c: string) {
    0 < |c| <= COMPONENT_MAX && c != "." && c != ".." && '/' !in c
  }

  predicate GoodStack(stack: seq<string>) {
    |stack| <= DEPTH_MAX && forall k :: 0 <= k < |stack| ==> GoodComponent(stack[k])
  }

  lemma {:induction false} WalkGood(s: string, stack: seq<string>)
    requires GoodStack(stack)
    ensures GoodStack(Walk(s, stack))
    decreases |s|
  {
    if s != "" {
      if s[0] == '/' {
        WalkGood(s[1..], stack);
      } else {
        var n := ComponentLength(s);
        WalkGood(s[n..], Push(stack, s[..n]));
      }
    }
  }

  // Every result is '/' and components, none of them empty, "." or "..".
  lemma ResolveIsNormal(cwd: string, path: string) returns (stack: seq<string>)
    ensures GoodStack(stack) && Resolve(cwd, path) == Render(stack)
  {
    stack := Walk(Whole(cwd, path), []);
    WalkGood(Whole(cwd, path), []);
  }

  // Walking along x, a '/', and y is walking along x and then along y.
  lemma {:induction false} WalkOn(x: string, y: string, stack: seq<string>)
    ensures Walk(x + "/" + y, stack) == Walk(y, Walk(x, stack))
    decreases |x|
  {
    var s := x + "/" + y;
    if x == "" {
      assert s[1..] == y;
    } else if x[0] == '/' {
      assert s[1..] == x[1..] + "/" + y;
      WalkOn(x[1..], y, stack);
    } else {
      var n := ComponentLength(x);
      ComponentBefore(x, "/" + y);
      assert s == x + ("/" + y);
      assert s[n..] == x[n..] + "/" + y;
      assert s[..n] == x[..n];
      WalkOn(x[n..], y, Push(stack, x[..n]));
    }
  }

  lemma {:induction false} ComponentBefore(x: string, rest: string)
    requires rest != "" && rest[0] == '/'
    ensures ComponentLength(x + rest) == ComponentLength(x)
    decreases |x|
  {
    if x != "" && x[0] != '/' {
      assert (x + rest)[1..] == x[1..] + rest;
      ComponentBefore(x[1..], rest);
    } else {
      assert x == "" ==> x + rest == rest;
    }
  }

  lemma {:induction false} WholeComponent(c: string)
    requires '/' !in c
    ensures ComponentLength(c) == |c|
    decreases |c|
  {
    if c != "" {
      WholeComponent(c[1..]);
    }
  }

  // A text without '/' is one component, whatever it says.
  lemma WalkOne(c: string, stack: seq<string>)
    requires c != "" && '/' !in c
    ensures Walk(c, stack) == Push(stack, c)
  {
    WholeComponent(c);
    assert c[..|c|] == c && c[|c|..] == "";
  }

  // Walking along the rendered stack rebuilds it.
  lemma {:induction false} WalkJoin(below: seq<string>, stack: seq<string>)
    requires GoodStack(below + stack)
    ensures Walk(Join(stack), below) == below + stack
    decreases |stack|
  {
    if stack != [] {
      var c := stack[0];
      assert GoodComponent((below + stack)[|below|]);
      WalkOne(c, below);
      assert below + stack == below + [c] + stack[1..];
      if |stack| > 1 {
        WalkOn(c, Join(stack[1..]), below);
        WalkJoin(below + [c], stack[1..]);
      }
    }
  }

  lemma WalkRender(stack: seq<string>)
    requires GoodStack(stack)
    ensures Walk(Render(stack), []) == stack
  {
    assert [] + stack == stack;
    WalkJoin([], stack);
    assert Render(stack)[1..] == Join(stack);
  }

  // ----- laws -----

  // Resolving a resolved path changes nothing, whatever the directory.
  lemma ResolveTwice(cwd: string, other: string, path: string)
    ensures Resolve(other, Resolve(cwd, path)) == Resolve(cwd, path)
  {
    var stack := ResolveIsNormal(cwd, path);
    WalkRender(stack);
  }

  lemma {:induction false} JoinEnd(stack: seq<string>)
    requires GoodStack(stack) && stack != []
    ensures Join(stack) != "" && Join(stack)[|Join(stack)| - 1] != '/'
    decreases |stack|
  {
    var c := stack[|stack| - 1];
    assert GoodComponent(c) && c[|c| - 1] != '/';
    if |stack| > 1 {
      JoinEnd(stack[1..]);
    }
  }

  // Resolving b below the resolved a is resolving a/b at once.
  lemma ResolveComposes(cwd: string, a: string, b: string)
    requires a != "" && b != "" && b[0] != '/'
    ensures Resolve(Resolve(cwd, a), b) == Resolve(cwd, a + "/" + b)
  {
    var stack := Walk(Whole(cwd, a), []);
    WalkGood(Whole(cwd, a), []);
    WalkRender(stack);
    WalkOn(Whole(cwd, a), b, []);
    WholeBelow(cwd, a, b);
    var r := Render(stack);
    if stack == [] {
      assert r == "/" && Whole(r, b) == "/" + b;
      assert ("/" + b)[1..] == b;
    } else {
      JoinEnd(stack);
      assert r[|r| - 1] == Join(stack)[|Join(stack)| - 1];
      WalkOn(r, b, []);
    }
  }

  lemma WholeBelow(cwd: string, a: string, b: string)
    requires a != ""
    ensures Whole(cwd, a + "/" + b) == Whole(cwd, a) + "/" + b
  {
    var p := a + "/" + b;
    assert p != "" && p[0] == a[0];
    assert cwd + "/" + p == cwd + "/" + a + "/" + b;
    assert cwd + p == cwd + a + "/" + b;
  }

  // The root is its own parent: a path cannot climb above it.
  lemma NoWayAboveRoot(cwd: string, path: string)
    ensures Resolve(cwd, "/../" + path) == Resolve(cwd, "/" + path)
  {
    var s := "/../" + path;
    assert s == "/.." + "/" + path;
    WalkOn("/..", path, []);
    var c := "/..";
    assert c[1..] == "..";
    WholeComponent("..");
    assert ".."[..2] == ".." && ".."[2..] == "";
    assert Walk("..", []) == [];
    assert ("/" + path)[1..] == path;
  }

  // ----- what the components do -----

  // Going on from a resolved path by one component.
  lemma StepFrom(stack: seq<string>, c: string)
    requires GoodStack(stack) && c != "" && '/' !in c
    ensures Resolve(Render(stack), c) == Render(Push(stack, c))
  {
    var r := Render(stack);
    WalkRender(stack);
    WalkOne(c, stack);
    WalkOn(r, c, []);
    if stack == [] {
      assert Whole(r, c) == "/" + c && ("/" + c)[1..] == c;
    } else {
      JoinEnd(stack);
      assert r[|r| - 1] == Join(stack)[|Join(stack)| - 1];
    }
  }

  // The parent of what lies in a directory is the directory, and "." is the directory itself.
  lemma EnterAndLeave(stack: seq<string>, c: string)
    requires GoodStack(stack + [c])
    ensures Resolve(Render(stack), c) == Render(stack + [c])
    ensures Resolve(Render(stack + [c]), "..") == Render(stack)
    ensures Resolve(Render(stack + [c]), ".") == Render(stack + [c])
  {
    assert (stack + [c])[|stack|] == c && forall k :: 0 <= k < |stack| ==> stack[k] == (stack + [c])[k];
    StepFrom(stack, c);
    StepFrom(stack + [c], "..");
    StepFrom(stack + [c], ".");
    assert (stack + [c])[..|stack|] == stack;
  }

  // A name is entered exactly if it has at most 63 characters and fewer than 32 directories lie above.
  lemma DroppedExactly(stack: seq<string>, c: string)
    requires GoodStack(stack) && c != "" && '/' !in c && c != "." && c != ".."
    ensures Resolve(Render(stack), c) == Render(if |stack| < 32 && |c| <= 63 then stack + [c] else stack)
  {
    StepFrom(stack, c);
  }

  // Into a directory and out again, anywhere in a path.
  lemma ParentOfChild(cwd: string, a: string, c: string, stack: seq<string>)
    requires a != "" && Resolve(cwd, a) == Render(stack) && GoodStack(stack + [c])
    ensures Resolve(cwd, a + "/" + c + "/..") == Resolve(cwd, a)
  {
    EnterAndLeave(stack, c);
    assert GoodComponent((stack + [c])[|stack|]);
    ResolveComposes(cwd, a, c);
    assert a + "/" + c + "/.." == a + "/" + c + "/" + "..";
    ResolveComposes(cwd, a + "/" + c, "..");
  }

  // Dots and slashes that change nothing.
  lemma NothingMoved(cwd: string, a: string)
    requires a != ""
    ensures Resolve(cwd, a + "/.") == Resolve(cwd, a) && Resolve(cwd, a + "/") == Resolve(cwd, a)
  {
    assert a + "/." == a + "/" + "." && a + "/" == a + "/" + "";
    WholeBelow(cwd, a, ".");
    WholeBelow(cwd, a, "");
    WalkOn(Whole(cwd, a), ".", []);
    WalkOn(Whole(cwd, a), "", []);
    WalkOne(".", Walk(Whole(cwd, a), []));
  }

  // Paths of two names, such as /home/guest.
  lemma TwoNames(a: string, b: string, c: string)
    requires GoodComponent(a) && GoodComponent(b) && GoodComponent(c)
    ensures Resolve("/" + a + "/" + b, "..") == "/" + a && Resolve("/" + a, "..") == "/"
    ensures Resolve("/" + a, b) == "/" + a + "/" + b
    ensures Resolve("/" + a, b + "/../" + c) == "/" + a + "/" + c
    ensures Resolve("/" + a, "/" + b) == "/" + b
  {
    OneName(a);
    OneName(b);
    var root: seq<string> := [];
    EnterAndLeave(root, a);
    assert root + [a] == [a] && [a] + [b] == [a, b] && [a] + [c] == [a, c];
    EnterAndLeave([a], b);
    EnterAndLeave([a], c);
    TwoNamesText(a, b);
    TwoNamesText(a, c);
    ParentOfChildThen("/" + a, b, c, [a]);
    WalkRender([b]);
  }

  lemma OneName(a: string)
    ensures Render([a]) == "/" + a && Render([]) == "/"
  {
  }

  lemma TwoNamesText(a: string, b: string)
    ensures Render([a, b]) == "/" + a + "/" + b
  {
    assert [a, b][1..] == [b];
    assert Join([b]) == b;
  }

  lemma UpAndOn(b: string, c: string)
    ensures b + "/" + ".." + "/" + c == b + "/../" + c
  {
  }

  lemma ParentOfChildThen(cwd: string, b: string, c: string, stack: seq<string>)
    requires cwd == Render(stack) && GoodStack(stack + [b]) && GoodStack(stack + [c])
    ensures Resolve(cwd, b + "/../" + c) == Render(stack + [c])
  {
    assert GoodComponent((stack + [b])[|stack|]) && GoodComponent((stack + [c])[|stack|]);
    EnterAndLeave(stack, b);
    EnterAndLeave(stack, c);
    ResolveComposes(cwd, b, "..");
    ResolveComposes(cwd, b + "/" + "..", c);
    UpAndOn(b, c);
  }

  // With room for all of it, fs_resolve composes as well.
  lemma ResolveInComposes(cwd: string, a: string, b: string, cap: nat)
    requires cap >= 2 && a != "" && b != "" && b[0] != '/'
    requires |Whole(cwd, a + "/" + b)| <= TMP_MAX && |Resolve(cwd, a)| < cap && |Whole(Resolve(cwd, a), b)| <= TMP_MAX
    ensures ResolveIn(ResolveIn(cwd, a, cap), b, cap) == ResolveIn(cwd, a + "/" + b, cap)
  {
    WholeBelow(cwd, a, b);
    ResolveComposes(cwd, a, b);
  }

  // What is resolved fits a buffer of 128 and stays itself in it.
  lemma ResolveInTwice(cwd: string, other: string, path: string, cap: nat)
    requires cap >= 2 && |Whole(cwd, path)| <= TMP_MAX && |Resolve(cwd, path)| < cap && |Resolve(cwd, path)| <= TMP_MAX
    ensures ResolveIn(other, ResolveIn(cwd, path, cap), cap) == ResolveIn(cwd, path, cap)
  {
    ResolveTwice(cwd, other, path);
  }

  // ----- the code -----

  method PushComponent(stack: array<string>, depth: nat, c: string) returns (after: nat)
    requires stack.Length == DEPTH_MAX && depth <= DEPTH_MAX
    modifies stack
    ensures after <= DEPTH_MAX && stack[..after] == Push(old(stack[..depth]), c)
  {
    after := depth;
    if c == "." {
    } else if c == ".." {
      if depth > 0 {
        after := depth - 1;
      }
    } else if depth < 32 && |c| < 64 {
      stack[depth] := c;
      after := depth + 1;
    }
  }

  method SkipSlashes(tmp: string, i: nat) returns (k: nat)
    requires i <= |tmp|
    ensures i <= k <= |tmp| && (k < |tmp| ==> tmp[k] != '/')
    ensures forall stack :: Walk(tmp[k..], stack) == Walk(tmp[i..], stack)
  {
    k := i;
    while k < |tmp| && tmp[k] == '/'
      invariant i <= k <= |tmp|
      invariant forall stack :: Walk(tmp[k..], stack) == Walk(tmp[i..], stack)
      decreases |tmp| - k
    {
      assert tmp[k..][1..] == tmp[k + 1..];
      k := k + 1;
    }
  }

  method ComponentEnd(tmp: string, i: nat) returns (j: nat)
    requires i <= |tmp|
    ensures i <= j <= |tmp| && j - i == ComponentLength(tmp[i..])
  {
    j := i;
    while j < |tmp| && tmp[j] != '/'
      invariant i <= j <= |tmp| && j - i + ComponentLength(tmp[j..]) == ComponentLength(tmp[i..])
      decreases |tmp| - j
    {
      assert tmp[j..][1..] == tmp[j + 1..];
      j := j + 1;
    }
  }

  lemma WalkComponentAt(tmp: string, i: nat, j: nat, stack: seq<string>)
    requires i < |tmp| && tmp[i] != '/' && i <= j <= |tmp| && j - i == ComponentLength(tmp[i..])
    ensures Walk(tmp[i..], stack) == Walk(tmp[j..], Push(stack, tmp[i..j])) && i < j
  {
    assert tmp[i..][..j - i] == tmp[i..j] && tmp[i..][j - i..] == tmp[j..];
  }

  // The components of tmp, pushed and popped on a stack of at most 32.
  method Normalize(tmp: string) returns (stack: array<string>, depth: nat)
    ensures fresh(stack) && stack.Length == DEPTH_MAX && depth <= DEPTH_MAX && stack[..depth] == Walk(tmp, [])
  {
    stack := new string[DEPTH_MAX](_ => "");
    depth := 0;
    var i := 0;
    assert tmp[0..] == tmp;
    while i < |tmp|
      invariant i <= |tmp| && depth <= DEPTH_MAX
      invariant Walk(tmp[i..], stack[..depth]) == Walk(tmp, [])
      decreases |tmp| - i
    {
      i := SkipSlashes(tmp, i);
      if i == |tmp| {
        break;
      }
      var j := ComponentEnd(tmp, i);
      WalkComponentAt(tmp, i, j, stack[..depth]);
      depth := PushComponent(stack, depth, tmp[i..j]);
      i := j;
    }
    assert tmp[|tmp|..] == "";
  }

  // Writes '/', the components and the slashes between them, as far as there is room.
  method WritePath(stack: array<string>, depth: nat, cap: nat) returns (out: string)
    requires depth <= stack.Length && cap >= 2
    ensures out == Cut(Render(stack[..depth]), cap - 1)
  {
    out := "/";
    var d := 0;
    assert stack[..depth][0..] == stack[..depth];
    while d < depth && |out| < cap - 1
      invariant 0 <= d <= depth && |out| <= cap - 1
      invariant out + Join(stack[..depth][d..]) == Render(stack[..depth]) || (|out| == cap - 1 && out <= Render(stack[..depth]))
      decreases depth - d
    {
      ghost var rest := stack[..depth][d..];
      assert rest[0] == stack[d] && rest[1..] == stack[..depth][d + 1..];
      JoinStep(rest);
      ghost var full := Render(stack[..depth]);
      ghost var start := out;
      var k := 0;
      while k < |stack[d]| && |out| < cap - 1
        invariant 0 <= k <= |stack[d]| && |out| <= cap - 1 && out == start + stack[d][..k]
        decreases |stack[d]| - k
      {
        out := out + [stack[d][k]];
        k := k + 1;
      }
      if d + 1 < depth && |out| < cap - 1 {
        out := out + "/";
      }
      d := d + 1;
      assert k == |stack[d - 1]| ==> stack[d - 1][..k] == stack[d - 1];
      assert full == start + Join(rest);
    }
  }

  lemma JoinStep(stack: seq<string>)
    requires stack != []
    ensures Join(stack) == stack[0] + (if |stack| > 1 then "/" else "") + Join(stack[1..])
  {
  }

  // The buffer of fs_resolve holds a working directory of up to 254 characters, or the front of a
  // longer one that is cut behind a '/'; an absolute path does not use it.
  predicate FitsBuffer(cwd: string, path: string) {
    (path != "" && path[0] == '/') || |cwd| < TMP_MAX || cwd[TMP_MAX - 1] == '/'
  }

  // fs_resolve.  The output needs room for '/' and the end of the text.
  method FsResolve(cwd: string, path: string, cap: nat) returns (out: string)
    requires FitsBuffer(cwd, path) && cap >= 2
    ensures out == ResolveIn(cwd, path, cap) && |out| < cap
    ensures |Whole(cwd, path)| <= 255 && |Resolve(cwd, path)| < cap ==> out == Resolve(cwd, path)
  {
    var p := if path == "" then "." else path;
    var tmp := "";
    if p[0] != '/' {
      var i := 0;
      while i < |cwd| && |tmp| < TMP_MAX
        invariant 0 <= i <= |cwd| && i <= TMP_MAX && tmp == cwd[..i]
      {
        tmp := tmp + [cwd[i]];
        i := i + 1;
      }
      assert |cwd| <= TMP_MAX ==> tmp == cwd;
      if |tmp| == 0 || tmp[|tmp| - 1] != '/' {
        tmp := tmp + "/";
      }
    }
    ghost var head := tmp;
    var i := 0;
    while i < |p| && |tmp| < TMP_MAX
      invariant 0 <= i <= |p| && |tmp| <= TMP_MAX && tmp == head + p[..i]
    {
      tmp := tmp + [p[i]];
      i := i + 1;
    }
    CutWhole(cwd, path, head, i);
    var stack, depth := Normalize(tmp);
    out := WritePath(stack, depth, cap);
  }

  // What is in the buffer after i characters of the path.
  lemma CutWhole(cwd: string, path: string, head: string, i: nat)
    requires var p := if path == "" then "." else path;
      && i <= |p| && |head| + i <= TMP_MAX && (i == |p| || |head| + i == TMP_MAX)
      && (head + p == Whole(cwd, path) || (i == 0 && |head| == TMP_MAX && head <= Whole(cwd, path)))
    ensures head + (if path == "" then "." else path)[..i] == Cut(Whole(cwd, path), TMP_MAX)
  {
    var p := if path == "" then "." else path;
    assert i == |p| ==> p[..i] == p;
    if head + p == Whole(cwd, path) {
      assert (head + p)[..|head| + i] == head + p[..i];
    } else {
      assert head + p[..0] == head;
    }
  }
}
