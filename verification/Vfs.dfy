/** The VFS tree and its path walk, and what path canonicalisation means on it. */
module Vfs {
  import opened Paths

  const VFS_NAME_LEN: nat := 64
  const VFS_MAX_CHILDREN: nat := 128

  class Node {
    const name: string
    const isDir: bool
    var parent: Node?
    var children: seq<Node>

    constructor (name: string, isDir: bool)
      ensures this.name == name && this.isDir == isDir && parent == null && children == []
    {
      this.name, this.isDir := name, isDir;
      parent, children := null, [];
    }
  }

  /** A tree of nodes: every listed child knows its directory, and only the root has no parent above it. */
  ghost predicate Linked(root: Node, nodes: set<Node>)
    reads nodes
  {
    && root in nodes && root.parent == null
    && (forall n, c :: n in nodes && c in n.children ==> c in nodes && c.parent == n)
    && (forall n :: n in nodes && n.parent != null ==> n.parent in nodes)
  }

  /** vfs_find_child: the first child of that name, if `n` is a directory. */
  function FindIn(children: seq<Node>, name: string): (r: Node?)
    ensures r != null ==> r in children && r.name == name
  {
    if children == [] then null
    else if children[0].name == name then children[0]
    else FindIn(children[1..], name)
  }

  function FindChild(n: Node, name: string): (r: Node?)
    reads n
    ensures r != null ==> r in n.children
  {
    if n.isDir then FindIn(n.children, name) else null
  }

  method FindChildLoop(n: Node, name: string) returns (r: Node?)
    ensures r == FindChild(n, name)
  {
    if !n.isDir { return null; }
    for i := 0 to |n.children|
      invariant FindIn(n.children, name) == FindIn(n.children[i..], name)
    {
      assert n.children[i..][0] == n.children[i] && n.children[i..][1..] == n.children[i + 1..];
      if n.children[i].name == name { return n.children[i]; }
    }
    assert n.children[|n.children|..] == [];
    return null;
  }

  /** vfs_attach_child. */
  method AttachChild(dir: Node, child: Node, ghost root: Node, ghost nodes: set<Node>) returns (r: int)
    requires Linked(root, nodes) && dir in nodes
    modifies dir, child
    ensures !dir.isDir || |old(dir.children)| >= 128 ==>
      r == -1 && dir.children == old(dir.children) && child.parent == old(child.parent)
    ensures dir.isDir && |old(dir.children)| < 128 ==>
      && r == 0 && child.parent == dir && dir.children == old(dir.children) + [child]
      // a node that is not yet in the tree joins it
      && (child !in nodes && old(child.children) == [] ==> Linked(root, nodes + {child}))
  {
    if !dir.isDir { return -1; }
    if |dir.children| >= VFS_MAX_CHILDREN { return -1; }
    child.parent := dir;
    dir.children := dir.children + [child];
    return 0;
  }

  // ---- The walk ----

  /** Following components from `n`: "." stays, ".." goes up (at the root it stays), a name goes down. */
  ghost function Walk(root: Node, nodes: set<Node>, n: Node, comps: seq<string>): (r: Node?)
    requires Linked(root, nodes) && n in nodes
    reads nodes
    ensures r != null ==> r in nodes
    decreases |comps|
  {
    if comps == [] then n
    else if comps[0] == "." then Walk(root, nodes, n, comps[1..])
    else if comps[0] == ".." then
      Walk(root, nodes, if n.parent != null then n.parent else n, comps[1..])
    else
      var c := FindChild(n, comps[0]);
      if c == null then null else Walk(root, nodes, c, comps[1..])
  }

  lemma {:induction false} WalkConcat(root: Node, nodes: set<Node>, n: Node, a: seq<string>, b: seq<string>)
    requires Linked(root, nodes) && n in nodes
    ensures Walk(root, nodes, n, a + b) ==
      var m := Walk(root, nodes, n, a); if m == null then null else Walk(root, nodes, m, b)
    decreases |a|
  {
    if a == [] {
      assert a + b == b;
    } else {
      assert (a + b)[0] == a[0] && (a + b)[1..] == a[1..] + b;
      if a[0] == "." {
        WalkConcat(root, nodes, n, a[1..], b);
      } else if a[0] == ".." {
        WalkConcat(root, nodes, if n.parent != null then n.parent else n, a[1..], b);
      } else {
        var c := FindChild(n, a[0]);
        if c != null { WalkConcat(root, nodes, c, a[1..], b); }
      }
    }
  }

  /** Going one plain name further. */
  lemma WalkName(root: Node, nodes: set<Node>, n: Node, c: string)
    requires Linked(root, nodes) && n in nodes && Plain(c)
    ensures Walk(root, nodes, n, [c]) == FindChild(n, c)
  {
    assert [c][1..] == [];
  }

  /** Dropping the last name of a plain path leads to the parent. */
  lemma WalkParent(root: Node, nodes: set<Node>, stack: seq<string>)
    requires Linked(root, nodes) && AllPlain(stack) && Walk(root, nodes, root, stack) != null
    ensures
      var n := Walk(root, nodes, root, stack);
      if stack == [] then n == root
      else n.parent != null && Walk(root, nodes, root, stack[..|stack| - 1]) == n.parent
  {
    if stack != [] {
      var init, last := stack[..|stack| - 1], stack[|stack| - 1];
      assert stack == init + [last] && last in stack;
      WalkConcat(root, nodes, root, init, [last]);
      var m := Walk(root, nodes, root, init);
      if m != null { WalkName(root, nodes, m, last); }
    }
  }

  /** The stack of parts never needs more than MAX_PARTS entries. */
  predicate Fits(stack: seq<string>, comps: seq<string>)
    decreases |comps|
  {
    comps == [] || (|Push(stack, comps[0])| == |PushFree(stack, comps[0])| && Fits(Push(stack, comps[0]), comps[1..]))
  }

  /** Push without the limit. */
  function PushFree(stack: seq<string>, c: string): seq<string> {
    if c == "." then stack
    else if c == ".." then (if |stack| > 0 then stack[..|stack| - 1] else stack)
    else stack + [c]
  }

  /** One component: walking it from the node of the stack leads to the node of the new stack. */
  lemma PushWalk(root: Node, nodes: set<Node>, stack: seq<string>, c: string)
    requires Linked(root, nodes) && AllPlain(stack) && c != "" && '/' !in c
    requires |Push(stack, c)| == |PushFree(stack, c)|
    requires Walk(root, nodes, root, stack) != null
    ensures AllPlain(Push(stack, c))
    ensures Walk(root, nodes, root, Push(stack, c)) == Walk(root, nodes, Walk(root, nodes, root, stack), [c])
  {
    var n := Walk(root, nodes, root, stack);
    assert [c][1..] == [];
    if c == "." {
    } else if c == ".." {
      WalkParent(root, nodes, stack);
    } else {
      assert Push(stack, c) == stack + [c];
      WalkConcat(root, nodes, root, stack, [c]);
    }
  }

  /** Canonicalisation preserves meaning: if the raw components lead to a node, the canonical ones lead
      to the same node. */
  lemma {:induction false} FoldWalk(root: Node, nodes: set<Node>, stack: seq<string>, comps: seq<string>)
    requires Linked(root, nodes) && AllPlain(stack) && Fits(stack, comps)
    requires forall c :: c in comps ==> c != "" && '/' !in c
    requires Walk(root, nodes, root, stack) != null
    requires Walk(root, nodes, Walk(root, nodes, root, stack), comps) != null
    ensures Walk(root, nodes, root, Fold(stack, comps)) == Walk(root, nodes, Walk(root, nodes, root, stack), comps)
    decreases |comps|
  {
    if comps != [] {
      var n, c, rest := Walk(root, nodes, root, stack), comps[0], comps[1..];
      assert comps == [c] + rest && c in comps && forall x :: x in rest ==> x in comps;
      PushWalk(root, nodes, stack, c);
      WalkConcat(root, nodes, n, [c], rest);
      FoldWalk(root, nodes, Push(stack, c), rest);
    }
  }

  /** The canonical form of every prefix of the components leads to a node. */
  ghost predicate PrefixesFound(root: Node, nodes: set<Node>, comps: seq<string>)
    requires Linked(root, nodes)
    reads nodes
    decreases |comps|
  {
    && Walk(root, nodes, root, Fold([], comps)) != null
    && (comps == [] || PrefixesFound(root, nodes, comps[..|comps| - 1]))
  }

  /** The raw path leads somewhere if and only if the canonical form of each of its prefixes does. */
  lemma {:induction false} FoundExactly(root: Node, nodes: set<Node>, comps: seq<string>)
    requires Linked(root, nodes) && Fits([], comps)
    requires forall c :: c in comps ==> c != "" && '/' !in c
    ensures Walk(root, nodes, root, comps) != null <==> PrefixesFound(root, nodes, comps)
    decreases |comps|
  {
    if comps != [] {
      hide Linked, Fits, Fold, Walk;
      var init, last := comps[..|comps| - 1], comps[|comps| - 1];
      assert comps == init + [last];
      FitsPrefix([], init, [last]);
      assert last in comps && forall x :: x in init ==> x in comps;
      FoundExactly(root, nodes, init);
      WalkConcat(root, nodes, root, init, [last]);
      var mid := Walk(root, nodes, root, init);
      if mid != null {
        LastComponent(root, nodes, init, last);
      } else {
        assert Walk(root, nodes, root, comps) == null;
      }
    }
  }

  lemma LastComponent(root: Node, nodes: set<Node>, init: seq<string>, last: string)
    requires Linked(root, nodes) && Fits([], init) && Fits(Fold([], init), [last])
    requires (forall c :: c in init ==> c != "" && '/' !in c) && last != "" && '/' !in last
    requires Walk(root, nodes, root, init) != null
    ensures Walk(root, nodes, root, Fold([], init + [last])) == Walk(root, nodes, Walk(root, nodes, root, init), [last])
  {
    var stack := Fold([], init);
    FoldPlain([], init);
    FoldWalk(root, nodes, [], init);
    PushWalk(root, nodes, stack, last);
    FoldConcat([], init, [last]);
    assert [last][1..] == [];
  }

  lemma {:induction false} FitsPrefix(stack: seq<string>, a: seq<string>, b: seq<string>)
    requires Fits(stack, a + b)
    ensures Fits(stack, a) && Fits(Fold(stack, a), b)
    decreases |a|
  {
    if a == [] {
      assert a + b == b;
    } else {
      assert (a + b)[0] == a[0] && (a + b)[1..] == a[1..] + b;
      FitsPrefix(Push(stack, a[0]), a[1..], b);
    }
  }

  // ---- vfs_resolve ----

  /** The components as vfs_resolve cuts them: a name stops after 63 characters even without a slash. */
  function VfsComps(s: string): (r: seq<string>)
    ensures forall c :: c in r ==> c != "" && '/' !in c
    decreases |s|
  {
    if s == "" then []
    else if s[0] == '/' then VfsComps(s[1..])
    else
      var n := if NameLen(s) < VFS_NAME_LEN then NameLen(s) else VFS_NAME_LEN - 1;
      assert n > 0;
      [s[..n]] + VfsComps(s[n..])
  }

  predicate ShortNames(comps: seq<string>) {
    forall c :: c in comps ==> |c| < 64
  }

  lemma {:induction false} ShortNamesSplitAlike(s: string)
    requires ShortNames(Comps(s))
    ensures VfsComps(s) == Comps(s)
    decreases |s|
  {
    if s != "" {
      if s[0] == '/' {
        ShortNamesSplitAlike(s[1..]);
      } else {
        var n := NameLen(s);
        assert s[..n] in Comps(s) && forall c :: c in Comps(s[n..]) ==> c in Comps(s);
        ShortNamesSplitAlike(s[n..]);
      }
    }
  }

  lemma VfsCompsOfSlash(s: string)
    requires s != "" && s[0] == '/'
    ensures VfsComps(s) == VfsComps(s[1..])
  {
  }

  method SkipSlashes(path: string, from: nat) returns (p: nat)
    requires from <= |path|
    ensures from <= p <= |path| && VfsComps(path[p..]) == VfsComps(path[from..])
    ensures p < |path| ==> path[p] != '/'
  {
    p := from;
    while p < |path| && path[p] == '/'
      invariant from <= p <= |path| && VfsComps(path[p..]) == VfsComps(path[from..])
    {
      VfsCompsOfSlash(path[p..]);
      assert path[p..][1..] == path[p + 1..];
      p := p + 1;
    }
  }

  lemma VfsCompsOfName(s: string, n: nat)
    requires s != "" && s[0] != '/' && n <= |s| && n < VFS_NAME_LEN
    requires forall i :: 0 <= i < n ==> s[i] != '/'
    requires n == VFS_NAME_LEN - 1 || n == |s| || s[n] == '/'
    ensures n > 0 && VfsComps(s) == [s[..n]] + VfsComps(s[n..])
  {
    var m := NameLen(s);
    assert m < |s| ==> s[m] == '/';
    assert n <= m;
  }

  method TakeName(path: string, start: nat) returns (p: nat)
    requires start < |path| && path[start] != '/'
    ensures start < p <= |path|
    ensures VfsComps(path[start..]) == [path[start..p]] + VfsComps(path[p..])
  {
    p := start;
    while p < |path| && path[p] != '/' && p - start < VFS_NAME_LEN - 1
      invariant start <= p <= |path| && p - start < VFS_NAME_LEN
      invariant forall i :: start <= i < p ==> path[i] != '/'
    {
      p := p + 1;
    }
    NameSplits(path, start, p);
  }

  lemma NameSplits(path: string, start: nat, p: nat)
    requires start < p <= |path| && p - start < VFS_NAME_LEN
    requires forall i :: start <= i < p ==> path[i] != '/'
    requires p == |path| || path[p] == '/' || p - start == VFS_NAME_LEN - 1
    ensures VfsComps(path[start..]) == [path[start..p]] + VfsComps(path[p..])
  {
    var s := path[start..];
    VfsCompsOfName(s, p - start);
    assert s[..p - start] == path[start..p] && s[p - start..] == path[p..];
  }

  /** One component of the walk. */
  method Follow(current: Node, name: string, ghost root: Node, ghost nodes: set<Node>, ghost rest: seq<string>)
      returns (r: Node?)
    requires Linked(root, nodes) && current in nodes
    ensures r != null ==> r in nodes
    ensures Walk(root, nodes, current, [name] + rest) == if r == null then null else Walk(root, nodes, r, rest)
  {
    ghost var comps := [name] + rest;
    assert comps[0] == name && comps[1..] == rest;
    if name == "." { return current; }
    if name == ".." {
      if current.parent != null { return current.parent; }
      return current;
    }
    r := FindChildLoop(current, name);
  }

  /** vfs_resolve follows the components of the path from the root. */
  method VfsResolve(path: string, root: Node, ghost nodes: set<Node>) returns (r: Node?)
    requires Linked(root, nodes)
    ensures r == Walk(root, nodes, root, VfsComps(path))
  {
    var p := SkipSlashes(path, 0);
    assert path[0..] == path;
    r := root;
    while p < |path|
      invariant p <= |path| && (p < |path| ==> path[p] != '/') && r != null && r in nodes
      invariant Walk(root, nodes, r, VfsComps(path[p..])) == Walk(root, nodes, root, VfsComps(path))
      decreases |path| - p
    {
      var start := p;
      var end := TakeName(path, start);
      p := SkipSlashes(path, end);
      r := Follow(r, path[start..end], root, nodes, VfsComps(path[end..]));
      if r == null { return null; }
    }
    assert path[p..] == "";
  }

  // ---- Canonicalisation against resolution ----

  /** If vfs_resolve finds a node for a raw absolute path, it finds the same node for what resolve_path
      makes of it. */
  lemma ResolvePreservesMeaning(root: Node, nodes: set<Node>, raw: string, cwd: string)
    requires Linked(root, nodes)
    requires Absolute(raw) && |raw| < VFS_PATH_LEN && ShortNames(Comps(raw)) && Fits([], Comps(raw))
    requires Walk(root, nodes, root, VfsComps(raw)) != null
    ensures Walk(root, nodes, root, VfsComps(Resolve(raw, cwd, VFS_PATH_LEN))) == Walk(root, nodes, root, VfsComps(raw))
  {
    var comps := Comps(raw);
    var stack := Fold([], comps);
    assert Target(raw, cwd) == raw;
    ResolveIsJoin(raw, cwd);
    CompsOfJoin(stack);
    ShortNamesSplitAlike(raw);
    FoldPlain([], comps);
    ShortNamesSplitAlike(Join(stack));
    FoldWalk(root, nodes, [], comps);
  }

  /** A relative path means the same before and after: with the current directory at the node `d`, what
      resolve_path makes of the input leads where the input's own components lead from `d`. */
  lemma ResolveFromDirectory(root: Node, nodes: set<Node>, input: string, cwd: string, d: Node)
    requires Linked(root, nodes) && d in nodes
    requires input != "" && !Absolute(input) && Absolute(cwd) && |cwd| + 1 + |input| < 256
    requires ShortNames(Comps(cwd)) && ShortNames(Comps(input))
    requires Fits([], Comps(cwd)) && Fits(Fold([], Comps(cwd)), Comps(input))
    requires Walk(root, nodes, root, VfsComps(cwd)) == d && Walk(root, nodes, d, Comps(input)) != null
    ensures Walk(root, nodes, root, VfsComps(Resolve(input, cwd, 256))) == Walk(root, nodes, d, Comps(input))
  {
    hide Walk, Fits;
    var up, down := Comps(cwd), Comps(input);
    var stack := Fold([], up);
    ShortNamesSplitAlike(cwd);
    FoldPlain([], up);
    FoldWalkRoot(root, nodes, up);
    FoldWalk(root, nodes, stack, down);
    FoldPlain(stack, down);
    ResolveRelative(input, cwd, 256);
    CompsOfJoin(Fold(stack, down));
    ShortNamesSplitAlike(Join(Fold(stack, down)));
  }

  lemma FoldWalkRoot(root: Node, nodes: set<Node>, comps: seq<string>)
    requires Linked(root, nodes) && Fits([], comps)
    requires forall c :: c in comps ==> c != "" && '/' !in c
    requires Walk(root, nodes, root, comps) != null
    ensures Walk(root, nodes, root, Fold([], comps)) == Walk(root, nodes, root, comps)
  {
    FoldWalk(root, nodes, [], comps);
  }

  /** While the parts are no more than 32 in all, nothing is dropped. */
  lemma {:induction false} FewPartsFit(stack: seq<string>, comps: seq<string>)
    requires |stack| + |comps| <= 32
    ensures Fits(stack, comps)
    decreases |comps|
  {
    if comps != [] { FewPartsFit(Push(stack, comps[0]), comps[1..]); }
  }

  /** A name of 64 characters or more is cut after 63, and the walk takes the rest for another name. */
  lemma LongNameIsCut(c: string)
    requires '/' !in c && |c| >= 64
    ensures VfsComps(c) == [c[..63]] + VfsComps(c[63..])
  {
    assert c[0] in c;
    NameLenOf(c, "");
    assert c + "" == c;
  }

  // ---- Every node has a path ----

  /** The first child of that name. */
  ghost predicate FirstNamed(n: Node, name: string, c: Node)
    reads n
  {
    n.isDir && exists i :: 0 <= i < |n.children| && n.children[i] == c && c.name == name
                           && forall j :: 0 <= j < i ==> n.children[j].name != name
  }

  lemma {:induction false} FindExactly(children: seq<Node>, name: string)
    ensures var c := FindIn(children, name);
            if c == null then forall j :: 0 <= j < |children| ==> children[j].name != name
            else exists i :: 0 <= i < |children| && children[i] == c
                             && forall j :: 0 <= j < i ==> children[j].name != name
  {
    if children != [] && children[0].name != name {
      var rest := children[1..];
      FindExactly(rest, name);
      var c := FindIn(rest, name);
      if c != null {
        var i :| 0 <= i < |rest| && rest[i] == c && forall j :: 0 <= j < i ==> rest[j].name != name;
        assert children[i + 1] == c;
      }
    }
  }

  /** One component: "." stays, ".." goes to the parent and stays at the root, and a name leads to the first
      child that bears it, or nowhere. */
  lemma WalkOne(root: Node, nodes: set<Node>, n: Node, name: string, c: Node)
    requires Linked(root, nodes) && n in nodes
    ensures Walk(root, nodes, n, ["."]) == n
    ensures Walk(root, nodes, n, [".."]) == if n.parent == null then n else n.parent
    ensures Plain(name) ==> (Walk(root, nodes, n, [name]) == c <==> FirstNamed(n, name, c))
  {
    assert [name][1..] == [] && ["."][1..] == [] && [".."][1..] == [];
    if Plain(name) {
      WalkName(root, nodes, n, name);
      if n.isDir { FindExactly(n.children, name); }
    }
  }

  /** The nodes of `way` lead down the tree from `n`, each the first of its name. */
  ghost predicate WayDown(nodes: set<Node>, n: Node, way: seq<Node>)
    requires n in nodes
    reads nodes
    decreases |way|
  {
    way == [] || (way[0] in nodes && Plain(way[0].name) && FirstNamed(n, way[0].name, way[0])
                  && WayDown(nodes, way[0], way[1..]))
  }

  function NamesOf(way: seq<Node>): (r: seq<string>) {
    if way == [] then [] else [way[0].name] + NamesOf(way[1..])
  }

  lemma WalkDown(root: Node, nodes: set<Node>, n: Node, c: Node, rest: seq<string>)
    requires Linked(root, nodes) && n in nodes && c in nodes && Plain(c.name) && FirstNamed(n, c.name, c)
    ensures Walk(root, nodes, n, [c.name] + rest) == Walk(root, nodes, c, rest)
  {
    hide Walk, Linked, FirstNamed;
    WalkOne(root, nodes, n, c.name, c);
    WalkConcat(root, nodes, n, [c.name], rest);
  }

  lemma {:induction false} WayIsWalk(root: Node, nodes: set<Node>, n: Node, way: seq<Node>)
    requires Linked(root, nodes) && n in nodes && WayDown(nodes, n, way)
    ensures Walk(root, nodes, n, NamesOf(way)) == if way == [] then n else way[|way| - 1]
    ensures AllPlain(NamesOf(way)) && |NamesOf(way)| == |way|
    decreases |way|
  {
    if way != [] {
      hide Linked, FirstNamed, Plain;
      var c, rest := way[0], way[1..];
      WalkDown(root, nodes, n, c, NamesOf(rest));
      WayIsWalk(root, nodes, c, rest);
      assert rest != [] ==> rest[|rest| - 1] == way[|way| - 1];
    }
  }

  /** Every node that a way down from the root leads to is found by the path that joins the names on the way,
      which is its own canonical form from any current directory. */
  lemma NodeHasPath(root: Node, nodes: set<Node>, way: seq<Node>, cwd: string)
    requires Linked(root, nodes) && way != [] && WayDown(nodes, root, way)
    requires ShortNames(NamesOf(way)) && |way| <= 32 && |Join(NamesOf(way))| < 256
    ensures var path := Join(NamesOf(way));
            && Resolve(path, cwd, 256) == path
            && Walk(root, nodes, root, VfsComps(path)) == way[|way| - 1]
  {
    var names := NamesOf(way);
    WayIsWalk(root, nodes, root, way);
    CompsOfJoin(names);
    CanonicalIsFixed(Join(names), cwd);
    ShortNamesSplitAlike(Join(names));
  }
}
