/** Paths of URLs: their components, and the normal form in which empty, "." and ".." components
    have been resolved. */
module UrlPath {
  import opened Bytes

  /** What lies between the slashes of `s`; always at least one component. */
  function Split(s: string): (cs: seq<string>)
    ensures |cs| > 0
    decreases |s|
  {
    var i := Find(s, '/');
    if i == |s| then [s] else [s[..i]] + Split(s[i + 1..])
  }

  /** Every component behind a slash of its own. */
  function Join(cs: seq<string>): string {
    if cs == [] then "" else "/" + (cs[0] + Join(cs[1..]))
  }

  /** The components of a path so far, after one more that is followed by a slash. */
  function Push(stack: seq<string>, comp: string): seq<string> {
    if comp == "" || comp == "." then stack
    else if comp == ".." && stack != [] then stack[..|stack| - 1]
    else stack + [comp]
  }

  function PushAll(stack: seq<string>, comps: seq<string>): seq<string>
    decreases |comps|
  {
    if comps == [] then stack else PushAll(Push(stack, comps[0]), comps[1..])
  }

  function Init<T>(s: seq<T>): seq<T>
    requires s != []
  {
    s[..|s| - 1]
  }

  function Last<T>(s: seq<T>): T
    requires s != []
  {
    s[|s| - 1]
  }

  predicate Absolute(path: string) {
    path != "" && path[0] == '/'
  }

  /** The last component is kept as it is, even if it is "." or "..". */
  function Normalize(path: string): string
    requires Absolute(path)
  {
    var cs := Split(path[1..]);
    Join(PushAll([], Init(cs)) + [Last(cs)])
  }

  // ----- Normal form

  predicate Slashless(cs: seq<string>) {
    forall i :: 0 <= i < |cs| ==> '/' !in cs[i]
  }

  /** Directories as normalisation leaves them: ".." can only be the first. */
  predicate NormalDirs(dirs: seq<string>) {
    && Slashless(dirs)
    && (forall i :: 0 <= i < |dirs| ==> dirs[i] != "" && dirs[i] != ".")
    && (forall i :: 0 < i < |dirs| ==> dirs[i] != "..")
  }

  lemma {:induction false} SplitSlashless(s: string)
    ensures Slashless(Split(s))
    decreases |s|
  {
    var i := Find(s, '/');
    if i == |s| {
      assert s[..i] == s;
    } else {
      SplitSlashless(s[i + 1..]);
    }
  }

  lemma {:induction false} PushAllNormal(stack: seq<string>, comps: seq<string>)
    requires NormalDirs(stack) && Slashless(comps)
    ensures NormalDirs(PushAll(stack, comps))
    decreases |comps|
  {
    if comps == [] {
    } else {
      PushAllNormal(Push(stack, comps[0]), comps[1..]);
    }
  }

  /** Normal directories pass through the stack unchanged. */
  lemma {:induction false} PushAllKeeps(stack: seq<string>, comps: seq<string>)
    requires NormalDirs(stack + comps)
    ensures PushAll(stack, comps) == stack + comps
    decreases |comps|
  {
    if comps == [] {
      assert stack + comps == stack;
    } else {
      var all := stack + comps;
      assert all[|stack|] == comps[0];
      assert Push(stack, comps[0]) == stack + [comps[0]];
      assert stack + [comps[0]] + comps[1..] == all;
      PushAllKeeps(stack + [comps[0]], comps[1..]);
    }
  }

  lemma SplitFirst(s: string, i: nat)
    requires i <= |s| && '/' !in s[..i] && (i < |s| ==> s[i] == '/')
    ensures Split(s) == if i == |s| then [s] else [s[..i]] + Split(s[i + 1..])
  {
    FindIs(s, '/', i);
  }

  /** Splitting undoes joining. */
  lemma {:induction false} SplitJoin(cs: seq<string>)
    requires cs != [] && Slashless(cs)
    ensures Absolute(Join(cs)) && Split(Join(cs)[1..]) == cs
  {
    hide Split;
    var s := Join(cs)[1..];
    assert s == cs[0] + Join(cs[1..]);
    if |cs| == 1 {
      assert s == cs[0];
      assert s[..|s|] == s;
      SplitFirst(s, |s|);
    } else {
      SplitJoin(cs[1..]);
      var i := |cs[0]|;
      assert s[..i] == cs[0] && s[i] == '/';
      SplitFirst(s, i);
      assert s[i + 1..] == Join(cs[1..])[1..];
    }
  }

  predicate NormalPath(path: string) {
    Absolute(path) &&
    var cs := Split(path[1..]);
    NormalDirs(Init(cs)) && path == Join(cs)
  }

  lemma NormalFromParts(dirs: seq<string>, last: string)
    requires NormalDirs(dirs) && '/' !in last
    ensures NormalPath(Join(dirs + [last]))
    ensures Split(Join(dirs + [last])[1..]) == dirs + [last]
  {
    var cs := dirs + [last];
    SplitJoin(cs);
    assert Init(cs) == dirs;
  }

  /** Normalising yields a normal path, and leaves normal paths alone: they are its fixed points. */
  lemma {:induction false} NormalizeIsNormal(path: string)
    requires Absolute(path)
    ensures NormalPath(Normalize(path))
    ensures NormalPath(path) <==> Normalize(path) == path
  {
    hide Split, PushAll, Join;
    var cs := Split(path[1..]);
    SplitSlashless(path[1..]);
    PushAllNormal([], Init(cs));
    NormalFromParts(PushAll([], Init(cs)), Last(cs));
    if NormalPath(path) {
      assert [] + Init(cs) == Init(cs);
      PushAllKeeps([], Init(cs));
      assert Init(cs) + [Last(cs)] == cs;
    }
  }

  lemma {:induction false} PushAllConcat(stack: seq<string>, a: seq<string>, b: seq<string>)
    ensures PushAll(stack, a + b) == PushAll(PushAll(stack, a), b)
    decreases |a|
  {
    if a == [] {
      assert a + b == b;
    } else {
      PushAllConcat(Push(stack, a[0]), a[1..], b);
      assert (a + b)[0] == a[0] && (a + b)[1..] == a[1..] + b;
    }
  }

  // ----- What determines the normal form

  /** Components that cancel out wherever they are. */
  predicate Cancels(mid: seq<string>) {
    mid == [""] || mid == ["."] || (|mid| == 2 && mid[1] == ".." && mid[0] != "" && mid[0] != "." && mid[0] != "..")
  }

  /** A way of normalising leaves normal paths alone, and paths with components that cancel out mean
      what they mean without them; at the root one step up cancels another. */
  ghost predicate Normalizes(f: string -> string) {
    && (forall path :: NormalPath(path) ==> f(path) == path)
    && (forall pre, mid, post :: Slashless(pre) && Slashless(mid) && Slashless(post) && post != [] && Cancels(mid) ==>
          f(Join(pre + mid + post)) == f(Join(pre + post)))
    && (forall post :: Slashless(post) && post != [] ==> f(Join(["..", ".."] + post)) == f(Join(post)))
  }

  lemma {:induction false} JoinSplit(s: string)
    ensures Join(Split(s)) == "/" + s
    decreases |s|
  {
    var i := Find(s, '/');
    if i == |s| {
      assert s + "" == s;
    } else {
      JoinSplit(s[i + 1..]);
      assert Split(s)[0] == s[..i] && Split(s)[1..] == Split(s[i + 1..]);
      assert s == s[..i] + ("/" + s[i + 1..]);
    }
  }

  /** The directories of a joined path are walked one by one, the last component is kept. */
  lemma NormalizeJoined(dirs: seq<string>, post: seq<string>)
    requires Slashless(dirs) && Slashless(post) && post != []
    ensures Absolute(Join(dirs + post))
    ensures Normalize(Join(dirs + post)) == Join(PushAll(PushAll([], dirs), Init(post)) + [Last(post)])
  {
    hide Split, PushAll, Join;
    var cs := dirs + post;
    SplitJoin(cs);
    assert Init(cs) == dirs + Init(post) && Last(cs) == Last(post);
    PushAllConcat([], dirs, Init(post));
  }

  /** A step down to `d` and up again, and components that are empty or ".", cancel out. */
  lemma Cancellation(pre: seq<string>, mid: seq<string>, post: seq<string>)
    requires Slashless(pre) && Slashless(mid) && Slashless(post) && post != [] && Cancels(mid)
    ensures Absolute(Join(pre + mid + post)) && Absolute(Join(pre + post))
    ensures Normalize(Join(pre + mid + post)) == Normalize(Join(pre + post))
  {
    hide Split, PushAll, Join, Normalize;
    NormalizeJoined(pre + mid, post);
    NormalizeJoined(pre, post);
    PushAllConcat([], pre, mid);
    BackAgain(PushAll([], pre), mid);
  }

  lemma BackAgain(stack: seq<string>, mid: seq<string>)
    requires Cancels(mid)
    ensures PushAll(stack, mid) == stack
  {
    if |mid| == 2 {
      var down := stack + [mid[0]];
      assert mid[1..] == [".."] && mid[1..][1..] == [];
      assert Push(stack, mid[0]) == down && down[..|down| - 1] == stack;
      assert PushAll(stack, mid) == PushAll(down, mid[1..]) == PushAll(Push(down, ".."), []);
    } else {
      assert mid[1..] == [];
    }
  }

  lemma CancellationAtRoot(post: seq<string>)
    requires Slashless(post) && post != []
    ensures Absolute(Join(["..", ".."] + post)) && Absolute(Join(post))
    ensures Normalize(Join(["..", ".."] + post)) == Normalize(Join(post))
  {
    hide Split, Join, Normalize;
    NormalizeJoined(["..", ".."], post);
    NormalizeJoined([], post);
    assert [] + post == post;
    var up: seq<string> := ["..", ".."];
    assert up[1..] == [".."] && up[1..][1..] == [];
    assert PushAll([], up) == [];
  }

  function NormalizeAny(path: string): string {
    if Absolute(path) then Normalize(path) else path
  }

  /** Normalising is such a way, and the only one. */
  lemma NormalizeIsTheOne(f: string -> string)
    ensures Normalizes(NormalizeAny)
    ensures Normalizes(f) ==> forall path :: Absolute(path) ==> f(path) == Normalize(path)
  {
    hide Split, PushAll, Join, Normalize, NormalPath;
    NormalizeObeys();
    if Normalizes(f) {
      forall path | Absolute(path)
        ensures f(path) == Normalize(path)
      {
        var cs := Split(path[1..]);
        SplitSlashless(path[1..]);
        JoinSplit(path[1..]);
        assert path == "/" + path[1..];
        assert [] + Init(cs) + [Last(cs)] == cs;
        Reduces(f, [], Init(cs), Last(cs));
        NormalizeUnfolded(path);
      }
    }
  }

  lemma NormalizeUnfolded(path: string)
    requires Absolute(path)
    ensures var cs := Split(path[1..]);
            Normalize(path) == Join(PushAll([], Init(cs)) + [Last(cs)])
  {
  }

  lemma NormalizeObeys()
    ensures Normalizes(NormalizeAny)
  {
    hide Split, PushAll, Join, Normalize, Cancels, Slashless;
    forall path | NormalPath(path)
      ensures NormalizeAny(path) == path
    {
      NormalizeIsNormal(path);
    }
    forall pre, mid, post | Slashless(pre) && Slashless(mid) && Slashless(post) && post != [] && Cancels(mid)
      ensures NormalizeAny(Join(pre + mid + post)) == NormalizeAny(Join(pre + post))
    {
      Cancellation(pre, mid, post);
    }
    forall post | Slashless(post) && post != []
      ensures NormalizeAny(Join(["..", ".."] + post)) == NormalizeAny(Join(post))
    {
      CancellationAtRoot(post);
    }
  }

  /** Whatever obeys the laws takes a path to its normal form, one component after another. */
  lemma {:induction false} Reduces(f: string -> string, stack: seq<string>, comps: seq<string>, last: string)
    requires Normalizes(f) && NormalDirs(stack) && Slashless(comps) && '/' !in last
    ensures f(Join(stack + comps + [last])) == Join(PushAll(stack, comps) + [last])
    decreases |comps|
  {
    hide Split, Join, NormalPath;
    if comps == [] {
      assert stack + comps == stack;
      NormalFromParts(stack, last);
    } else {
      var c, post := comps[0], comps[1..] + [last];
      assert stack + comps + [last] == stack + [c] + post;
      if c == "" || c == "." {
        assert f(Join(stack + [c] + post)) == f(Join(stack + post));
      } else if c == ".." && stack != [] {
        var d := Last(stack);
        assert stack + [c] + post == Init(stack) + [d, c] + post;
        if d == ".." {
          assert Init(stack) == [] && [] + [d, c] + post == ["..", ".."] + post && [] + post == post;
        } else {
          assert f(Join(Init(stack) + [d, c] + post)) == f(Join(Init(stack) + post));
        }
      }
      var next := Push(stack, c);
      assert f(Join(stack + [c] + post)) == f(Join(next + post));
      assert next + post == next + comps[1..] + [last];
      Reduces(f, next, comps[1..], last);
    }
  }

  // ----- Characters

  predicate Free(cs: seq<string>, c: char) {
    forall i :: 0 <= i < |cs| ==> c !in cs[i]
  }

  lemma {:induction false} SplitFree(s: string, c: char)
    requires c !in s
    ensures Free(Split(s), c)
    decreases |s|
  {
    var i := Find(s, '/');
    if i < |s| {
      SplitFree(s[i + 1..], c);
    }
  }

  lemma {:induction false} PushAllFree(stack: seq<string>, comps: seq<string>, c: char)
    requires Free(stack, c) && Free(comps, c)
    ensures Free(PushAll(stack, comps), c)
    decreases |comps|
  {
    if comps == [] {
    } else {
      PushAllFree(Push(stack, comps[0]), comps[1..], c);
    }
  }

  lemma {:induction false} JoinFree(cs: seq<string>, c: char)
    requires Free(cs, c) && c != '/'
    ensures c !in Join(cs)
  {
    if cs == [] {
    } else {
      JoinFree(cs[1..], c);
    }
  }

  /** Normalising brings in no new characters. */
  lemma NormalizeFree(path: string, c: char)
    requires Absolute(path) && c !in path && c != '/'
    ensures c !in Normalize(path)
  {
    var cs := Split(path[1..]);
    SplitFree(path[1..], c);
    PushAllFree([], Init(cs), c);
    JoinFree(PushAll([], Init(cs)) + [Last(cs)], c);
  }

  /** One more component, seen from the slash before it to the slash behind it. */
  lemma SplitAtSlash(path: string, prev: nat, curr: nat)
    requires prev < curr < |path| && '/' !in path[prev + 1..curr] && path[curr] == '/'
    ensures var cs := Split(path[prev + 1..]);
            var rest := Split(path[curr + 1..]);
            && cs == [path[prev + 1..curr]] + rest
            && Init(cs) == [path[prev + 1..curr]] + Init(rest) && Last(cs) == Last(rest)
  {
    var s, i := path[prev + 1..], curr - prev - 1;
    assert s[..i] == path[prev + 1..curr] && s[i + 1..] == path[curr + 1..];
    FindIs(s, '/', i);
  }

  lemma SplitAtEnd(path: string, prev: nat)
    requires prev < |path| && '/' !in path[prev + 1..]
    ensures Split(path[prev + 1..]) == [path[prev + 1..]]
  {
    var s := path[prev + 1..];
    assert s[..|s|] == s;
    FindIs(s, '/', |s|);
  }

  /** The components of a path as the normalising loop leaves them on its stack. */
  method Components(path: string) returns (components: seq<string>)
    requires Absolute(path)
    ensures var cs := Split(path[1..]);
            components == PushAll([], Init(cs)) + [Last(cs)]
  {
    hide Split, Init, Last, Push;
    components := [];
    var prev, curr := 0, 1;
    ghost var goal := Split(path[1..]);
    while curr < |path|
      invariant 0 <= prev < curr <= |path|
      invariant '/' !in path[prev + 1..curr]
      invariant PushAll([], Init(goal)) == PushAll(components, Init(Split(path[prev + 1..])))
      invariant Last(goal) == Last(Split(path[prev + 1..]))
    {
      if path[curr] == '/' {
        SplitAtSlash(path, prev, curr);
        components := PushComponent(components, path[prev + 1..curr]);
        prev := curr;
      }
      curr := curr + 1;
    }
    assert path[prev + 1..curr] == path[prev + 1..];
    SplitAtEnd(path, prev);
    OneComponent(path[prev + 1..]);
    components := components + [path[prev + 1..]];
  }

  lemma OneComponent(s: string)
    ensures Init([s]) == [] && Last([s]) == s
  {
  }

  method PushComponent(stack: seq<string>, comp: string) returns (r: seq<string>)
    ensures r == Push(stack, comp)
  {
    if comp == "" || comp == "." {
      return stack;
    }
    if comp == ".." && |stack| > 0 {
      r := stack[..|stack| - 1];
    } else {
      r := stack + [comp];
    }
  }

  /** Normalises in place; None stands for the exception on a path that is not absolute. */
  method NormalizePath(path: string) returns (r: Option<string>)
    ensures r == if Absolute(path) then Some(Normalize(path)) else None
  {
    if path == "" || path[0] != '/' {
      return None;
    }
    var components := Components(path);
    var s := "";
    var i := 0;
    assert components[0..] == components;
    while i < |components|
      invariant 0 <= i <= |components|
      invariant Join(components) == s + Join(components[i..])
    {
      assert components[i..][1..] == components[i + 1..];
      ConcatAssociative("/", components[i], Join(components[i + 1..]));
      ConcatAssociative(s, "/" + components[i], Join(components[i + 1..]));
      s := s + ("/" + components[i]);
      i := i + 1;
    }
    assert components[i..] == [] && s + "" == s;
    return Some(s);
  }
}
