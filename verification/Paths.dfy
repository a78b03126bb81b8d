/** Path strings: splitting into components, and the canonical form that resolve_path computes. */
module Paths {

  const VFS_PATH_LEN: nat := 256
  const MAX_PARTS: nat := 32

  /** Length of the component at the front of `s`: up to the first slash. */
  function NameLen(s: string): (n: nat)
    ensures n <= |s|
    ensures forall i :: 0 <= i < n ==> s[i] != '/'
    ensures n < |s| ==> s[n] == '/'
  {
    if s == "" || s[0] == '/' then 0 else 1 + NameLen(s[1..])
  }

  /** The non-empty components of a path. */
  function Comps(s: string): (r: seq<string>)
    ensures forall c :: c in r ==> c != "" && '/' !in c
    decreases |s|
  {
    if s == "" then []
    else if s[0] == '/' then Comps(s[1..])
    else [s[..NameLen(s)]] + Comps(s[NameLen(s)..])
  }

  /** One component against the stack of parts kept so far. */
  function Push(stack: seq<string>, c: string): seq<string> {
    if c == "." then stack
    else if c == ".." then (if |stack| > 0 then stack[..|stack| - 1] else stack)
    else if |stack| < MAX_PARTS then stack + [c]
    else stack
  }

  function Fold(stack: seq<string>, comps: seq<string>): seq<string>
    decreases |comps|
  {
    if comps == [] then stack else Fold(Push(stack, comps[0]), comps[1..])
  }

  predicate Plain(c: string) {
    c != "" && c != "." && c != ".." && '/' !in c
  }

  predicate AllPlain(stack: seq<string>) {
    forall c :: c in stack ==> Plain(c)
  }

  function Joined(stack: seq<string>): string {
    if stack == [] then "" else "/" + stack[0] + Joined(stack[1..])
  }

  function Join(stack: seq<string>): string {
    if stack == [] then "/" else Joined(stack)
  }

  // ---- The bounded string helpers ----

  /** strncpy_safe: at most `n - 1` characters. */
  function StrNCopy(src: string, n: nat): string
    requires n > 0
  {
    if |src| <= n - 1 then src else src[..n - 1]
  }

  /** strcat_safe. */
  function StrCat(dst: string, src: string, n: nat): string
    requires n > 0
  {
    if |dst| >= n - 1 then dst else dst + StrNCopy(src, n - |dst|)
  }

  lemma StrCatFits(dst: string, src: string, n: nat)
    requires n > 0 && |dst| + |src| <= n - 1
    ensures StrCat(dst, src, n) == dst + src
  {
    if |dst| == n - 1 { assert src == "" && dst + src == dst; }
  }

  /** The string resolve_path works on: the input itself, or the input below the current directory. */
  function Target(input: string, cwd: string): string {
    if input != "" && input[0] == '/' then StrNCopy(input, VFS_PATH_LEN)
    else
      var base := StrNCopy(cwd, VFS_PATH_LEN);
      var slashed := if cwd != "" && cwd[|cwd| - 1] != '/' then StrCat(base, "/", VFS_PATH_LEN) else base;
      StrCat(slashed, input, VFS_PATH_LEN)
  }

  /** The parts written out one by one through strcat_safe. */
  function Emit(out: string, stack: seq<string>, n: nat): string
    requires n > 0
    decreases |stack|
  {
    if stack == [] then out else Emit(StrCat(StrCat(out, "/", n), stack[0], n), stack[1..], n)
  }

  function Resolve(input: string, cwd: string, n: nat): string
    requires n > 0
  {
    if input == "" then StrNCopy(cwd, n)
    else
      var stack := Fold([], Comps(Target(input, cwd)));
      if stack == [] then StrNCopy("/", n) else Emit("", stack, n)
  }

  // ---- Facts about the stack ----

  lemma {:induction false} FoldPlain(stack: seq<string>, comps: seq<string>)
    requires AllPlain(stack) && |stack| <= MAX_PARTS
    requires forall c :: c in comps ==> c != "" && '/' !in c
    ensures AllPlain(Fold(stack, comps)) && |Fold(stack, comps)| <= MAX_PARTS
    ensures forall c :: c in Fold(stack, comps) ==> c in stack || c in comps
    decreases |comps|
  {
    if comps != [] {
      assert comps[0] in comps && forall c :: c in comps[1..] ==> c in comps;
      FoldPlain(Push(stack, comps[0]), comps[1..]);
    }
  }

  /** Plain components fold to themselves while there is room. */
  lemma {:induction false} FoldOfPlain(stack: seq<string>, comps: seq<string>)
    requires AllPlain(comps) && |stack| + |comps| <= MAX_PARTS
    ensures Fold(stack, comps) == stack + comps
    decreases |comps|
  {
    if comps == [] {
      assert stack + comps == stack;
    } else {
      assert comps[0] in comps && forall c :: c in comps[1..] ==> c in comps;
      FoldOfPlain(stack + [comps[0]], comps[1..]);
      assert stack + [comps[0]] + comps[1..] == stack + comps;
    }
  }

  /** Characters needed to write the parts, one slash each. */
  function Weight(stack: seq<string>): nat {
    if stack == [] then 0 else 1 + |stack[0]| + Weight(stack[1..])
  }

  lemma {:induction false} WeightConcat(a: seq<string>, b: seq<string>)
    ensures Weight(a + b) == Weight(a) + Weight(b)
  {
    if a == [] { assert a + b == b; }
    else {
      assert (a + b)[1..] == a[1..] + b;
      WeightConcat(a[1..], b);
    }
  }

  lemma PushWeight(stack: seq<string>, c: string)
    ensures Weight(Push(stack, c)) <= Weight(stack) + 1 + |c|
  {
    WeightConcat(stack, [c]);
    assert [c][1..] == [];
    if |stack| > 0 {
      var init, last := stack[..|stack| - 1], stack[|stack| - 1];
      assert stack == init + [last];
      WeightConcat(init, [last]);
    }
  }

  lemma {:induction false} FoldWeight(stack: seq<string>, comps: seq<string>)
    ensures Weight(Fold(stack, comps)) <= Weight(stack) + Weight(comps)
    decreases |comps|
  {
    if comps != [] {
      PushWeight(stack, comps[0]);
      FoldWeight(Push(stack, comps[0]), comps[1..]);
    }
  }

  lemma {:induction false} CompsWeight(s: string)
    ensures Weight(Comps(s)) <= |s| + 1
    ensures s != "" && s[0] == '/' ==> Weight(Comps(s)) <= |s|
    decreases |s|
  {
    if s != "" {
      if s[0] == '/' {
        CompsWeight(s[1..]);
      } else {
        var n := NameLen(s);
        CompsWeight(s[n..]);
        WeightConcat([s[..n]], Comps(s[n..]));
        assert [s[..n]][1..] == [];
      }
    }
  }

  lemma {:induction false} JoinedLength(stack: seq<string>)
    ensures |Joined(stack)| == Weight(stack)
  {
    if stack != [] { JoinedLength(stack[1..]); }
  }

  /** Writing out parts that fit loses nothing. */
  lemma EmitFits(out: string, stack: seq<string>, n: nat)
    requires n > 0 && |out| + Weight(stack) <= n - 1
    ensures Emit(out, stack, n) == out + Joined(stack)
  {
    hide Emit;
    JoinedLength(stack);
    EmitClips(out, stack, n);
  }

  // ---- Splitting what was joined ----

  lemma NameLenOf(c: string, rest: string)
    requires '/' !in c && (rest == "" || rest[0] == '/')
    ensures NameLen(c + rest) == |c|
  {
    if c == "" {
      assert c + rest == rest;
    } else {
      assert c[0] != '/' by { assert c[0] in c; }
      assert (c + rest)[1..] == c[1..] + rest;
      assert '/' !in c[1..] by { assert forall x :: x in c[1..] ==> x in c; }
      NameLenOf(c[1..], rest);
    }
  }

  lemma CompsOfFirst(name: string, rest: string)
    requires name != "" && '/' !in name && (rest == "" || rest[0] == '/')
    ensures Comps(name + rest) == [name] + Comps(rest)
  {
    NameLenOf(name, rest);
    var s := name + rest;
    assert s[0] in name;
    assert s[..|name|] == name && s[|name|..] == rest;
  }

  /** Splitting inverts joining. */
  lemma {:induction false} CompsOfJoined(stack: seq<string>)
    requires forall c :: c in stack ==> c != "" && '/' !in c
    ensures Comps(Joined(stack)) == stack
  {
    if stack != [] {
      hide Comps;
      var c, rest := stack[0], stack[1..];
      assert c in stack && forall x :: x in rest ==> x in stack;
      CompsOfJoined(rest);
      CompsOfFirst(c, Joined(rest));
      CompsBehindSlash(c + Joined(rest));
      assert Joined(stack) == "/" + (c + Joined(rest));
      assert stack == [c] + rest;
    }
  }

  lemma CompsBehindSlash(s: string)
    ensures Comps("/" + s) == Comps(s)
  {
    assert ("/" + s)[1..] == s;
  }

  lemma CompsOfJoin(stack: seq<string>)
    requires forall c :: c in stack ==> c != "" && '/' !in c
    ensures Comps(Join(stack)) == stack
    ensures Join(stack) != "" && Join(stack)[0] == '/'
  {
    if stack == [] { assert Comps("/"[1..]) == []; } else { CompsOfJoined(stack); }
  }

  // ---- Canonical output ----

  predicate Absolute(s: string) {
    s != "" && s[0] == '/'
  }

  /** A canonical path: slash-separated plain components, at most MAX_PARTS, each slash needed. */
  predicate Canonical(s: string) {
    s == Join(Comps(s)) && AllPlain(Comps(s)) && |Comps(s)| <= MAX_PARTS && |s| < VFS_PATH_LEN
  }

  lemma TargetBounded(input: string, cwd: string)
    ensures |Target(input, cwd)| < VFS_PATH_LEN
    ensures input != "" && (input[0] == '/' || Absolute(cwd)) ==> Absolute(Target(input, cwd))
  {
  }

  /** With the buffers the shell uses, resolve_path writes the joined stack without truncation. */
  lemma ResolveIsJoin(input: string, cwd: string)
    requires input != "" && (input[0] == '/' || Absolute(cwd))
    ensures
      var stack := Fold([], Comps(Target(input, cwd)));
      && AllPlain(stack) && |stack| <= MAX_PARTS
      && Resolve(input, cwd, VFS_PATH_LEN) == Join(stack)
      && |Join(stack)| < VFS_PATH_LEN
  {
    var t := Target(input, cwd);
    var stack := Fold([], Comps(t));
    TargetBounded(input, cwd);
    FoldPlain([], Comps(t));
    FoldWeight([], Comps(t));
    CompsWeight(t);
    EmitFits("", stack, VFS_PATH_LEN);
    JoinedLength(stack);
    assert "" + Joined(stack) == Joined(stack);
  }

  /** Every non-empty input, relative or absolute, resolves to a canonical path. */
  lemma ResolveIsCanonical(input: string, cwd: string)
    requires input != "" && (input[0] == '/' || Absolute(cwd))
    ensures Canonical(Resolve(input, cwd, VFS_PATH_LEN))
  {
    ResolveIsJoin(input, cwd);
    CompsOfJoin(Fold([], Comps(Target(input, cwd))));
  }

  /** Canonical paths are fixed points, from any current directory. */
  lemma CanonicalIsFixed(s: string, cwd: string)
    requires Canonical(s)
    ensures s != "" && Resolve(s, cwd, VFS_PATH_LEN) == s
  {
    CompsOfJoin(Comps(s));
    assert Target(s, cwd) == s;
    FoldOfPlain([], Comps(s));
    assert [] + Comps(s) == Comps(s);
    ResolveIsJoin(s, cwd);
  }

  lemma ResolveIsIdempotent(input: string, cwd: string, cwd': string)
    requires input != "" && (input[0] == '/' || Absolute(cwd))
    ensures
      var once := Resolve(input, cwd, VFS_PATH_LEN);
      once != "" && Resolve(once, cwd', VFS_PATH_LEN) == once
  {
    ResolveIsCanonical(input, cwd);
    CanonicalIsFixed(Resolve(input, cwd, VFS_PATH_LEN), cwd');
  }

  // ---- What a path means from a directory ----

  /** Splitting is determined by two facts: a name without a slash is one component, and a slash separates. */
  lemma CompsOfOne(c: string)
    requires c != "" && '/' !in c
    ensures Comps(c) == [c] && Comps("") == []
  {
    CompsOfFirst(c, "");
    assert c + "" == c;
  }

  lemma {:induction false} CompsConcat(a: string, b: string)
    ensures Comps(a + "/" + b) == Comps(a) + Comps(b)
    decreases |a|
  {
    var s := a + "/" + b;
    if a == "" {
      assert s == "/" + b && s[1..] == b;
    } else if a[0] == '/' {
      assert s[1..] == a[1..] + "/" + b;
      CompsConcat(a[1..], b);
    } else {
      hide Comps;
      var name, rest := a[..NameLen(a)], a[NameLen(a)..];
      assert '/' !in name && name != "" by { assert a[0] != '/'; }
      CompsConcat(rest, b);
      CompsOfFirst(name, rest);
      CompsOfFirst(name, rest + "/" + b);
      assert name + rest == a && name + (rest + "/" + b) == s;
    }
  }

  /** The first `n - 1` characters. */
  function Clip(s: string, n: nat): string
    requires n > 0
  {
    if |s| < n then s else s[..n - 1]
  }

  lemma StrCatClips(dst: string, src: string, n: nat)
    requires n > 0
    ensures StrCat(Clip(dst, n), src, n) == Clip(dst + src, n)
  {
    if |dst| < n - 1 && |dst| + |src| >= n {
      assert (dst + src)[..n - 1] == dst + src[..n - 1 - |dst|];
    } else if |dst| >= n - 1 {
      assert (dst + src)[..n - 1] == dst[..n - 1];
      assert |dst| == n - 1 ==> dst[..n - 1] == dst && (src == "" ==> dst + src == dst);
    }
  }

  lemma JoinedBehind(out: string, stack: seq<string>)
    requires stack != []
    ensures out + Joined(stack) == out + "/" + stack[0] + Joined(stack[1..])
  {
  }

  lemma {:induction false} EmitClips(out: string, stack: seq<string>, n: nat)
    requires n > 0
    ensures Emit(Clip(out, n), stack, n) == Clip(out + Joined(stack), n)
    decreases |stack|
  {
    if stack == [] {
      assert out + "" == out;
    } else {
      hide StrCat, Clip, Joined;
      JoinedBehind(out, stack);
      StrCatClips(out, "/", n);
      StrCatClips(out + "/", stack[0], n);
      EmitClips(out + "/" + stack[0], stack[1..], n);
    }
  }

  lemma JoinOfStack(stack: seq<string>, n: nat)
    requires n > 0
    ensures (if stack == [] then StrNCopy("/", n) else Emit("", stack, n)) == Clip(Join(stack), n)
  {
    EmitClips("", stack, n);
    assert "" + Joined(stack) == Joined(stack);
  }

  /** An absolute input means the same from every directory, and its components are taken from the root. */
  lemma ResolveAbsolute(input: string, cwd: string, n: nat)
    requires n > 0 && Absolute(input)
    ensures Resolve(input, cwd, n) == Clip(Join(Fold([], Comps(Clip(input, 256)))), n)
  {
    JoinOfStack(Fold([], Comps(Target(input, cwd))), n);
  }

  lemma CompsBelow(input: string, cwd: string)
    requires Absolute(cwd) && !Absolute(input)
    requires |cwd| + 1 + |input| < 256
    ensures Comps(Target(input, cwd)) == Comps(cwd) + Comps(input)
  {
    if cwd[|cwd| - 1] == '/' {
      var dir := cwd[..|cwd| - 1];
      assert dir + "/" == cwd && dir + "/" + "" == cwd;
      CompsConcat(dir, "");
      CompsConcat(dir, input);
      assert Comps(dir) + [] == Comps(dir);
      StrCatFits(cwd, input, 256);
    } else {
      CompsConcat(cwd, input);
      StrCatFits(cwd, "/", 256);
      StrCatFits(cwd + "/", input, 256);
    }
  }

  lemma {:induction false} FoldConcat(stack: seq<string>, a: seq<string>, b: seq<string>)
    ensures Fold(stack, a + b) == Fold(Fold(stack, a), b)
    decreases |a|
  {
    if a == [] {
      assert a + b == b;
    } else {
      assert (a + b)[0] == a[0] && (a + b)[1..] == a[1..] + b;
      FoldConcat(Push(stack, a[0]), a[1..], b);
    }
  }

  /** A relative input continues from the current directory: its components are taken one by one from the
      stack that the directory itself resolves to. */
  lemma ResolveRelative(input: string, cwd: string, n: nat)
    requires n > 0 && input != "" && !Absolute(input) && Absolute(cwd) && |cwd| + 1 + |input| < 256
    ensures Resolve(input, cwd, n) == Clip(Join(Fold(Fold([], Comps(cwd)), Comps(input))), n)
    ensures Resolve(input, cwd, 256) == Join(Fold(Fold([], Comps(cwd)), Comps(input)))
  {
    CompsBelow(input, cwd);
    FoldConcat([], Comps(cwd), Comps(input));
    JoinOfStack(Fold([], Comps(Target(input, cwd))), n);
    ResolveIsJoin(input, cwd);
  }

  /** Relative input that does not fit is cut after 255 characters, with the directory in front of it. */
  lemma ResolveLong(input: string, cwd: string, n: nat)
    requires n > 0 && input != "" && !Absolute(input) && cwd != ""
    ensures var whole := if cwd[|cwd| - 1] == '/' then cwd + input else cwd + "/" + input;
            Resolve(input, cwd, n) == Clip(Join(Fold([], Comps(Clip(whole, 256)))), n)
  {
    StrCatClips(cwd, "/", 256);
    StrCatClips(cwd, input, 256);
    StrCatClips(cwd + "/", input, 256);
    JoinOfStack(Fold([], Comps(Target(input, cwd))), n);
  }

  /** The empty input is the current directory as it stands. */
  lemma ResolveEmpty(cwd: string, n: nat)
    requires n > 0
    ensures Resolve("", cwd, n) == Clip(cwd, n)
  {
  }

  /** What a path means from a directory: nothing means the directory itself, an absolute path is taken from the
      root, and a relative one goes on from the components of the directory. */
  predicate Means(input: string, cwd: string, n: nat, output: string)
    requires n > 0
  {
    && (input == "" ==> output == Clip(cwd, n))
    && (Absolute(input) ==> output == Clip(Join(Fold([], Comps(Clip(input, 256)))), n))
    && (input != "" && !Absolute(input) && Absolute(cwd) && |cwd| + 1 + |input| < 256 ==>
          output == Clip(Join(Fold(Fold([], Comps(cwd)), Comps(input))), n))
  }

  lemma ResolveMeans(input: string, cwd: string, n: nat)
    requires n > 0
    ensures Means(input, cwd, n, Resolve(input, cwd, n))
  {
    if input == "" {
      ResolveEmpty(cwd, n);
    } else if Absolute(input) {
      ResolveAbsolute(input, cwd, n);
    } else if Absolute(cwd) && |cwd| + 1 + |input| < 256 {
      ResolveRelative(input, cwd, n);
    }
  }

  /** ".." undoes a name, "." and the limit of 32 parts keep the stack. */
  lemma FoldSteps(stack: seq<string>, c: string)
    requires Plain(c)
    ensures Fold(stack, ["."]) == stack
    ensures |stack| < 32 ==> Fold(stack, [c]) == stack + [c] && Fold(stack, [c, ".."]) == stack
    ensures |stack| >= 32 ==> Fold(stack, [c]) == stack
    ensures Fold([], [".."]) == []
  {
    assert [c, ".."][1..] == [".."] && [c][1..] == [] && ["."][1..] == [] && [".."][1..] == [];
    assert (stack + [c])[..|stack|] == stack;
  }
}
