/** resolve_path as the shell runs it: a buffer cut in place and a stack of pointers into it. */
module Shell {
  import opened Paths

  const NUL: char := '\0'

  predicate CString(s: string) {
    NUL !in s
  }

  /** From `curr` on the buffer still holds the text, and it is NUL-terminated. */
  ghost predicate Holds(buf: array<char>, text: string, curr: nat)
    reads buf
  {
    && CString(text) && curr <= |text| < buf.Length == VFS_PATH_LEN
    && (forall i :: curr <= i < |text| ==> buf[i] == text[i])
    && (forall i :: |text| <= i < buf.Length ==> buf[i] == NUL)
  }

  /** The string `s` lies at `at`, terminated, and ends no later than `curr`. */
  ghost predicate StringAt(buf: array<char>, at: nat, s: string, curr: nat)
    reads buf
  {
    && CString(s) && at + |s| <= curr && at + |s| < buf.Length
    && (forall i :: 0 <= i < |s| ==> buf[at + i] == s[i])
    && buf[at + |s|] == NUL
  }

  ghost predicate PartsAre(buf: array<char>, parts: seq<nat>, stack: seq<string>, curr: nat)
    reads buf
  {
    |parts| == |stack| && forall k :: 0 <= k < |stack| ==> StringAt(buf, parts[k], stack[k], curr)
  }

  method CopyIn(text: string) returns (buf: array<char>)
    requires CString(text) && |text| < VFS_PATH_LEN
    ensures fresh(buf) && Holds(buf, text, 0)
  {
    buf := new char[VFS_PATH_LEN](_ => NUL);
    for i := 0 to |text|
      invariant forall k :: 0 <= k < i ==> buf[k] == text[k]
      invariant forall k :: i <= k < buf.Length ==> buf[k] == NUL
    {
      buf[i] := text[i];
    }
  }

  /** Reads the string that starts at `at`. */
  method StringFrom(buf: array<char>, at: nat, ghost s: string, ghost curr: nat) returns (r: string)
    requires StringAt(buf, at, s, curr)
    ensures r == s
  {
    r := "";
    forall i | 0 <= i < |s| ensures s[i] != NUL { NulFreeAt(s, i); }
    while buf[at + |r|] != NUL
      invariant |r| <= |s| && r == s[..|r|]
      invariant |r| < |s| ==> buf[at + |r|] == s[|r|]
      decreases |s| - |r|
    {
      assert |r| < |s|;
      r := r + [buf[at + |r|]];
    }
    assert s[..|s|] == s;
  }

  lemma NulFreeAt(s: string, i: nat)
    requires CString(s) && i < |s|
    ensures s[i] != NUL
  {
    assert s[i] in s;
  }

  lemma CompsOfSlash(s: string)
    requires s != "" && s[0] == '/'
    ensures Comps(s) == Comps(s[1..])
  {
  }

  method SkipSlashes(buf: array<char>, text: string, from: nat) returns (curr: nat)
    requires Holds(buf, text, from)
    ensures from <= curr && Holds(buf, text, curr)
    ensures Comps(text[curr..]) == Comps(text[from..])
    ensures curr < |text| ==> text[curr] != '/'
  {
    curr := from;
    while buf[curr] == '/'
      invariant from <= curr && Holds(buf, text, curr)
      invariant Comps(text[curr..]) == Comps(text[from..])
      decreases |text| - curr
    {
      assert curr < |text|;
      CompsOfSlash(text[curr..]);
      assert text[curr..][1..] == text[curr + 1..];
      curr := curr + 1;
    }
  }

  lemma CompsOfName(s: string, n: nat)
    requires s != "" && s[0] != '/' && n <= |s|
    requires (forall i :: 0 <= i < n ==> s[i] != '/') && (n < |s| ==> s[n] == '/')
    ensures n > 0 && Comps(s) == [s[..n]] + Comps(s[n..])
  {
    var m := NameLen(s);
    assert m < |s| ==> s[m] == '/';
    assert m == n;
  }

  /** Scans the component at `start`; `curr` is left on its terminator. */
  method ScanName(buf: array<char>, text: string, start: nat) returns (curr: nat)
    requires Holds(buf, text, start) && start < |text| && text[start] != '/'
    ensures start < curr && Holds(buf, text, curr)
    ensures Comps(text[start..]) == [text[start..curr]] + Comps(text[curr..])
    ensures curr < |text| ==> text[curr] == '/'
    ensures forall i :: start <= i < curr ==> buf[i] == text[i]
  {
    hide Comps;
    curr := start;
    while buf[curr] != NUL && buf[curr] != '/'
      invariant start <= curr && Holds(buf, text, curr)
      invariant forall i :: start <= i < curr ==> text[i] != '/' && buf[i] == text[i]
      decreases |text| - curr
    {
      assert curr < |text|;
      curr := curr + 1;
    }
    if curr < |text| { NulFreeAt(text, curr); }
    NameSplits(text, start, curr);
  }

  lemma NameSplits(text: string, start: nat, curr: nat)
    requires start < curr <= |text| && (curr < |text| ==> text[curr] == '/')
    requires forall i :: start <= i < curr ==> text[i] != '/'
    ensures Comps(text[start..]) == [text[start..curr]] + Comps(text[curr..])
  {
    var s := text[start..];
    CompsOfName(s, curr - start);
    assert s[..curr - start] == text[start..curr] && s[curr - start..] == text[curr..];
  }

  method ResolvePath(input: string, cwd: string, maxLen: nat) returns (output: string)
    requires CString(input) && CString(cwd) && maxLen > 0
    ensures output == Resolve(input, cwd, maxLen)
    ensures Means(input, cwd, maxLen, output)
  {
    hide Means;
    ResolveMeans(input, cwd, maxLen);
    if input == "" { return StrNCopy(cwd, maxLen); }
    var temp;
    if input[0] == '/' {
      temp := StrNCopy(input, VFS_PATH_LEN);
    } else {
      temp := StrNCopy(cwd, VFS_PATH_LEN);
      if |cwd| > 0 && cwd[|cwd| - 1] != '/' { temp := StrCat(temp, "/", VFS_PATH_LEN); }
      temp := StrCat(temp, input, VFS_PATH_LEN);
    }
    TargetBounded(input, cwd);
    TargetIsCString(input, cwd);
    var buf := CopyIn(temp);
    var parts, count := SplitParts(buf, temp);
    ghost var stack := Fold([], Comps(temp));
    if count == 0 { return StrNCopy("/", maxLen); }
    output := "";
    for i := 0 to count
      invariant Emit("", stack, maxLen) == Emit(output, stack[i..], maxLen)
      invariant PartsAre(buf, parts[..count], stack, |temp|)
    {
      output := StrCat(output, "/", maxLen);
      assert StringAt(buf, parts[..count][i], stack[i], |temp|);
      var part := StringFrom(buf, parts[i], stack[i], |temp|);
      output := StrCat(output, part, maxLen);
      assert stack[i..][0] == stack[i] && stack[i..][1..] == stack[i + 1..];
    }
    assert stack[count..] == [];
  }

  lemma TargetIsCString(input: string, cwd: string)
    requires CString(input) && CString(cwd)
    ensures CString(Target(input, cwd))
  {
  }

  lemma FoldStep(stack: seq<string>, name: string, rest: seq<string>)
    ensures Fold(stack, [name] + rest) == Fold(Push(stack, name), rest)
  {
    assert ([name] + rest)[0] == name && ([name] + rest)[1..] == rest;
  }

  /** Ends the component at `start` where the scan stopped, cutting the buffer at a slash. */
  method Cut(buf: array<char>, text: string, start: nat, cut: nat, ghost parts: seq<nat>, ghost stack: seq<string>)
      returns (curr: nat)
    requires start < cut && Holds(buf, text, cut) && (cut < |text| ==> text[cut] == '/')
    requires (forall i :: start <= i < cut ==> buf[i] == text[i]) && PartsAre(buf, parts, stack, start)
    modifies buf
    ensures cut <= curr && Holds(buf, text, curr) && Comps(text[curr..]) == Comps(text[cut..])
    ensures PartsAre(buf, parts, stack, curr) && StringAt(buf, start, text[start..cut], curr)
  {
    curr := cut;
    if buf[curr] == '/' {
      assert cut < |text|;
      CompsOfSlash(text[cut..]);
      assert text[cut..][1..] == text[cut + 1..];
      buf[curr] := NUL;
      curr := curr + 1;
      forall k | 0 <= k < |stack| ensures StringAt(buf, parts[k], stack[k], curr) {
        assert old(StringAt(buf, parts[k], stack[k], start));
      }
    } else {
      assert cut == |text|;
      forall k | 0 <= k < |stack| ensures StringAt(buf, parts[k], stack[k], curr) {
        assert StringAt(buf, parts[k], stack[k], start);
      }
    }
    forall i | 0 <= i < cut - start ensures text[start..cut][i] != NUL { NulFreeAt(text, start + i); }
  }

  /** What the loop does with one component: skip it, drop the last part, or keep it. */
  method KeepPart(buf: array<char>, parts: array<nat>, n: nat, start: nat, s: string,
                  ghost stack: seq<string>, ghost curr: nat)
      returns (count: nat)
    requires n <= MAX_PARTS == parts.Length && buf.Length == VFS_PATH_LEN && s != ""
    requires PartsAre(buf, parts[..n], stack, curr) && StringAt(buf, start, s, curr)
    modifies parts
    ensures count <= MAX_PARTS && PartsAre(buf, parts[..count], Push(stack, s), curr)
  {
    count := n;
    if s == "." || s == "" {
    } else if s == ".." {
      if count > 0 { count := count - 1; }
    } else if count < MAX_PARTS {
      parts[count] := start;
      count := count + 1;
    }
    forall k | 0 <= k < count ensures StringAt(buf, parts[..count][k], Push(stack, s)[k], curr) {
      if k < n { assert StringAt(buf, old(parts[..n])[k], stack[k], curr); }
    }
  }

  lemma PartsLater(buf: array<char>, parts: seq<nat>, stack: seq<string>, curr: nat, next: nat)
    requires PartsAre(buf, parts, stack, curr) && curr <= next
    ensures PartsAre(buf, parts, stack, next)
  {
    forall k | 0 <= k < |stack| ensures StringAt(buf, parts[k], stack[k], next) {
      assert StringAt(buf, parts[k], stack[k], curr);
    }
  }

  /** One turn of the main loop, up to the slashes that follow the component. */
  method Component(buf: array<char>, parts: array<nat>, text: string, start: nat, n: nat, ghost stack: seq<string>)
      returns (curr: nat, count: nat, ghost stack': seq<string>)
    requires n <= MAX_PARTS == parts.Length && Holds(buf, text, start)
    requires start < |text| && text[start] != '/' && PartsAre(buf, parts[..n], stack, start)
    modifies buf, parts
    ensures start < curr && Holds(buf, text, curr) && count <= MAX_PARTS
    ensures PartsAre(buf, parts[..count], stack', curr)
    ensures Fold(stack', Comps(text[curr..])) == Fold(stack, Comps(text[start..]))
  {
    var cut := ScanName(buf, text, start);
    ghost var name := text[start..cut];
    FoldStep(stack, name, Comps(text[cut..]));
    curr := Cut(buf, text, start, cut, parts[..n], stack);
    var s := StringFrom(buf, start, name, curr);
    count := KeepPart(buf, parts, n, start, s, stack, curr);
    stack' := Push(stack, name);
  }

  /** The main loop: cuts the buffer at slashes and keeps pointers to the parts that remain. */
  method SplitParts(buf: array<char>, text: string) returns (parts: array<nat>, count: nat)
    requires Holds(buf, text, 0)
    modifies buf
    ensures fresh(parts) && count <= parts.Length
    ensures PartsAre(buf, parts[..count], Fold([], Comps(text)), |text|)
  {
    parts := new nat[MAX_PARTS](_ => 0);
    count := 0;
    ghost var stack: seq<string> := [];
    var curr := SkipSlashes(buf, text, 0);
    assert text[0..] == text;
    while buf[curr] != NUL
      invariant count <= MAX_PARTS == parts.Length && Holds(buf, text, curr) && fresh(parts)
      invariant curr < |text| ==> text[curr] != '/'
      invariant PartsAre(buf, parts[..count], stack, curr)
      invariant Fold(stack, Comps(text[curr..])) == Fold([], Comps(text))
      decreases |text| - curr
    {
      curr, count, stack := Component(buf, parts, text, curr, count, stack);
      var next := SkipSlashes(buf, text, curr);
      PartsLater(buf, parts[..count], stack, curr, next);
      curr := next;
    }
    assert curr == |text| && text[curr..] == [];
  }
}
