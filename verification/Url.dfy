/** URLs: parsing an absolute one, printing it, and resolving a relative one. */
module Url {
  import opened Bytes
  import opened UrlPath

  datatype Url = Url(proto: string, host: string, port: string, path: string, query: string, anchor: string)

  // ----- Where things are

  predicate SchemeAt(s: string, i: nat) {
    i + 3 <= |s| && s[i] == ':' && s[i + 1] == '/' && s[i + 2] == '/'
  }

  /** The index of the first "://", or the length of `s` if there is none. */
  function FindScheme(s: string): (i: nat)
    ensures i <= |s|
    ensures i < |s| ==> SchemeAt(s, i)
    ensures forall k :: 0 <= k < i ==> !SchemeAt(s, k)
  {
    if s == [] || SchemeAt(s, 0) then 0 else
      var i := 1 + FindScheme(s[1..]);
      assert forall k :: 0 <= k < i ==> !SchemeAt(s, k) by {
        forall k | 0 < k < i
          ensures !SchemeAt(s, k)
        {
          assert !SchemeAt(s[1..], k - 1);
        }
      }
      i
  }

  // ----- Taking a URL apart

  /** Everything behind the first `c`, and what is before it. */
  function Cut(s: string, c: char): (r: (string, string))
    ensures c !in r.0
    ensures if c in s then s == r.0 + [c] + r.1 else r == (s, "")
  {
    var i := Find(s, c);
    if i == |s| then (s, "") else (s[..i], s[i + 1..])
  }

  /** The port follows a colon, but not one inside the brackets of an address. */
  function CutPort(host: string): (r: (string, string))
    ensures host == r.0 + ":" + r.1 || (r == (host, "") && (']' !in host ==> ':' !in host))
    ensures ']' !in host ==> ':' !in r.0
    ensures ']' in r.1 ==> ']' in r.0
  {
    var bracket := Find(host, ']');
    var from := if bracket == |host| then 0 else bracket;
    var colon := from + Find(host[from..], ':');
    if colon == |host| then (host, "") else (host[..colon], host[colon + 1..])
  }

  /** Fills in path, query and anchor from the part of a URL that holds them. */
  function WithPath(u: Url, rest: string): Option<Url> {
    var (beforeAnchor, anchor) := Cut(rest, '#');
    var (path, query) := Cut(beforeAnchor, '?');
    if Absolute(path) then Some(u.(path := Normalize(path), query := query, anchor := anchor)) else None
  }

  function WithHost(proto: string, hostport: string): Url {
    var (host, port) := CutPort(hostport);
    Url(proto, host, port, "/", "", "")
  }

  /** Parses an absolute URL; None stands for the exceptions. */
  function Parse(s: string): Option<Url> {
    var i := FindScheme(s);
    if i == |s| then
      WithPath(WithHost("file", ""), s)
    else if i + 3 == |s| then
      None
    else
      var tail := s[i + 3..];
      var slash := Find(tail, '/');
      if slash == |tail| then Some(WithHost(s[..i], tail))
      else WithPath(WithHost(s[..i], tail[..slash]), tail[slash..])
  }

  function Prefixed(c: string, s: string): string {
    if s == "" then "" else c + s
  }

  /** Prints a URL. */
  function Str(u: Url): string {
    u.proto + "://" + (u.host + Prefixed(":", u.port)) + (u.path + Prefixed("?", u.query) + Prefixed("#", u.anchor))
  }

  // ----- Parsing what has been printed

  lemma CutPrinted(s: string, c: char, t: string)
    requires c !in s
    ensures Cut(s + Prefixed([c], t), c) == (s, t)
  {
    var whole := s + Prefixed([c], t);
    assert whole[..|s|] == s;
    FindIs(whole, c, |s|);
    if t != "" {
      assert whole[|s|..] == [c] + t;
      assert whole[|s| + 1..] == t;
    } else {
      assert whole == s;
    }
  }

  lemma CutParts(s: string, c: char)
    ensures var (a, b) := Cut(s, c);
            c !in a && (forall d :: d !in s ==> d !in a && d !in b)
  {
  }

  /** A host and port that have been cut apart and printed are cut apart alike. */
  lemma CutPortPrinted(hostport: string)
    ensures var (host, port) := CutPort(hostport);
            CutPort(host + Prefixed(":", port)) == (host, port)
  {
    hide Find;
    var (host, port) := CutPort(hostport);
    if port == "" {
      var bracket := Find(hostport, ']');
      var from := if bracket == |hostport| then 0 else bracket;
      var colon := from + Find(hostport[from..], ':');
      assert host == hostport[..colon];
      assert host + Prefixed(":", port) == host;
      if bracket == |hostport| {
        assert ']' !in host;
        assert host[..|host|] == host;
        FindIs(host, ']', |host|);
        assert host[0..] == host;
      } else {
        assert host[..bracket] == hostport[..bracket];
        FindIs(host, ']', bracket);
      }
      var k := colon - from;
      assert host[from..] == hostport[from..][..k];
      assert host[from..][..k] == host[from..];
      FindIs(host[from..], ':', k);
    } else {
      assert host + ":" + port == hostport;
      assert host + Prefixed(":", port) == hostport;
    }
  }

  lemma FindSchemeIs(s: string, i: nat)
    requires SchemeAt(s, i) && forall k :: 0 <= k < i ==> !SchemeAt(s, k)
    ensures FindScheme(s) == i
  {
    var j := FindScheme(s);
    assert j == |s| || SchemeAt(s, j);
  }

  /** URLs whose parts do not run into each other when printed, with a normal path. */
  predicate Printable(u: Url) {
    && FindScheme(u.proto + "://") == |u.proto|
    && CutPort(u.host + Prefixed(":", u.port)) == (u.host, u.port)
    && '/' !in u.host + Prefixed(":", u.port)
    && NormalPath(u.path) && '#' !in u.path && '?' !in u.path && '#' !in u.query
  }

  lemma PrintedRest(u: Url)
    requires NormalPath(u.path) && '#' !in u.path && '?' !in u.path && '#' !in u.query
    ensures forall v: Url :: WithPath(v, u.path + Prefixed("?", u.query) + Prefixed("#", u.anchor)) ==
                             Some(v.(path := u.path, query := u.query, anchor := u.anchor))
  {
    var beforeAnchor := u.path + Prefixed("?", u.query);
    CutPrinted(beforeAnchor, '#', u.anchor);
    CutPrinted(u.path, '?', u.query);
    NormalizeIsNormal(u.path);
  }

  /** The first "://" of a printed URL is the one behind its protocol. */
  lemma SchemeStays(proto: string, rest: string)
    requires FindScheme(proto + "://") == |proto|
    ensures FindScheme(proto + "://" + rest) == |proto|
  {
    var s, t := proto + "://", proto + "://" + rest;
    forall k | 0 <= k < |proto|
      ensures !SchemeAt(t, k)
    {
      assert !SchemeAt(s, k);
      assert s[k] == t[k] && s[k + 1] == t[k + 1] && s[k + 2] == t[k + 2];
    }
    FindSchemeIs(t, |proto|);
  }

  lemma PrintedParses(u: Url)
    requires Printable(u)
    ensures Parse(Str(u)) == Some(u)
  {
    hide FindScheme, CutPort, WithPath, NormalPath, Find;
    var hostport := u.host + Prefixed(":", u.port);
    var rest := u.path + Prefixed("?", u.query) + Prefixed("#", u.anchor);
    var s := Str(u);
    ConcatAssociative(u.proto + "://", hostport, rest);
    assert s == u.proto + "://" + (hostport + rest);
    SchemeStays(u.proto, hostport + rest);
    assert Absolute(u.path) by { NormalIsAbsolute(u.path); }
    var tail := s[|u.proto| + 3..];
    assert tail == hostport + rest;
    assert tail[..|hostport|] == hostport && tail[|hostport|..] == rest && rest[0] == '/';
    FindIs(tail, '/', |hostport|);
    assert s[..|u.proto|] == u.proto;
    PrintedRest(u);
  }

  lemma NormalIsAbsolute(path: string)
    requires NormalPath(path)
    ensures Absolute(path)
  {
  }

  lemma WithPathPrintable(v: Url, rest: string)
    ensures var r := WithPath(v, rest);
            r.Some? ==> && NormalPath(r.value.path) && '#' !in r.value.path && '?' !in r.value.path
                        && '#' !in r.value.query
                        && r.value == v.(path := r.value.path, query := r.value.query, anchor := r.value.anchor)
  {
    var (beforeAnchor, anchor) := Cut(rest, '#');
    var (path, query) := Cut(beforeAnchor, '?');
    CutParts(rest, '#');
    CutParts(beforeAnchor, '?');
    if Absolute(path) {
      NormalizeIsNormal(path);
      NormalizeFree(path, '#');
      NormalizeFree(path, '?');
    }
  }

  lemma SchemeCut(s: string, i: nat)
    requires i == FindScheme(s) < |s|
    ensures FindScheme(s[..i] + "://") == i
  {
    hide FindScheme;
    var t := s[..i + 3];
    assert s[..i] + "://" == t;
    forall k | 0 <= k < i
      ensures !SchemeAt(t, k)
    {
      assert !SchemeAt(s, k);
    }
    FindSchemeIs(t, i);
  }

  lemma NoSlashInParts(hostport: string)
    requires '/' !in hostport
    ensures var (host, port) := CutPort(hostport); '/' !in host + Prefixed(":", port)
  {
  }

  /** Whatever has been parsed can be printed. */
  lemma ParsedIsPrintable(s: string)
    ensures Parse(s).Some? ==> Printable(Parse(s).value)
  {
    hide FindScheme, CutPort, WithPath, NormalPath, Cut;
    var i := FindScheme(s);
    if i == |s| {
      FindSchemeIs("file" + "://", 4);
      CutPortPrinted("");
      NoSlashInParts("");
      WithPathPrintable(WithHost("file", ""), s);
    } else if i + 3 != |s| {
      SchemeCut(s, i);
      var tail := s[i + 3..];
      var slash := Find(tail, '/');
      var hostport := tail[..slash];
      CutPortPrinted(hostport);
      NoSlashInParts(hostport);
      WithPathPrintable(WithHost(s[..i], hostport), tail[slash..]);
      RootIsNormal();
      assert slash == |tail| ==> hostport == tail;
    }
  }

  lemma RootIsNormal()
    ensures NormalPath("/")
  {
    NormalFromParts([], "");
    assert Join([] + [""]) == "/";
  }

  /** Printing and parsing are inverse on every URL that parsing yields. */
  lemma ParsePrintParse(s: string)
    ensures Parse(s).Some? ==> Parse(Str(Parse(s).value)) == Parse(s)
  {
    ParsedIsPrintable(s);
    if Parse(s).Some? {
      PrintedParses(Parse(s).value);
    }
  }

  /** The URLs that survive printing and parsing are exactly the printable ones, and exactly those
      that some string parses to. */
  lemma SurvivesIffPrintable(u: Url)
    ensures Parse(Str(u)) == Some(u) <==> Printable(u)
  {
    ParsedIsPrintable(Str(u));
    if Printable(u) {
      PrintedParses(u);
    }
  }

  // ----- Relative URLs

  function SkipSlashes(s: string): (t: string)
    ensures |t| <= |s|
  {
    if Absolute(s) then SkipSlashes(s[1..]) else s
  }

  predicate StartsUp(s: string) {
    |s| >= 3 && s[0] == '.' && s[1] == '.' && s[2] == '/'
  }

  /** How many leading "../" a relative path has, and what follows them. */
  function StripUps(s: string): (nat, string)
    decreases |s|
  {
    if StartsUp(s) then
      var (k, rest) := StripUps(SkipSlashes(s[3..]));
      (k + 1, rest)
    else (0, s)
  }

  /** Where a relative path with `ups` leading "../" starts from. */
  function BaseDirs(base: string, ups: nat): seq<string>
    requires NormalPath(base)
  {
    var dirs := Init(Split(base[1..]));
    dirs[..|dirs| - Min(ups, |dirs|)]
  }

  function Resolve(rel: string, base: Url): Option<Url>
    requires NormalPath(base.path)
  {
    var v := base.(path := "/", query := "", anchor := "");
    if rel != "" && rel[0] == '#' then Some(base.(query := "", anchor := rel[1..]))
    else if FindScheme(rel) < |rel| then Parse(rel)
    else if Absolute(rel) then WithPath(v, rel)
    else
      var (ups, rest) := StripUps(rel);
      WithPath(v, Join(BaseDirs(base.path, ups)) + "/" + rest)
  }

  lemma {:induction false} JoinConcat(a: seq<string>, b: seq<string>)
    ensures Join(a + b) == Join(a) + Join(b)
  {
    if a == [] {
      assert a + b == b;
    } else {
      JoinConcat(a[1..], b);
      assert (a + b)[1..] == a[1..] + b;
      ConcatAssociative(a[0], Join(a[1..]), Join(b));
      ConcatAssociative("/", a[0] + Join(a[1..]), Join(b));
    }
  }

  lemma {:induction false} SplitBehind(dirs: seq<string>, rest: string)
    requires Slashless(dirs)
    ensures var s := Join(dirs) + "/" + rest;
            Absolute(s) && Split(s[1..]) == dirs + Split(rest)
  {
    hide Split;
    var s := Join(dirs) + "/" + rest;
    if dirs == [] {
      assert s[1..] == rest && dirs + Split(rest) == Split(rest);
    } else {
      SplitBehind(dirs[1..], rest);
      var d, ds := dirs[0], dirs[1..];
      var tail := Join(ds) + "/" + rest;
      JoinBehind(d, Join(ds), rest);
      assert s == "/" + (d + tail);
      var u := d + tail;
      assert s[1..] == u;
      assert u[..|d|] == d && u[|d|] == '/' && u[|d| + 1..] == tail[1..];
      SplitFirst(u, |d|);
      assert dirs == [d] + ds;
      ConcatAssociative([d], ds, Split(rest));
    }
  }

  lemma JoinBehind(d: string, joined: string, rest: string)
    ensures "/" + (d + joined) + "/" + rest == "/" + (d + (joined + "/" + rest))
  {
  }

  /** Normalising what is put behind some of the directories of a normal path. */
  lemma NormalizedBehind(base: string, ups: nat, rest: string)
    requires NormalPath(base)
    ensures var dirs := Init(Split(base[1..]));
            var kept := BaseDirs(base, ups);
            && kept <= dirs && |kept| == |dirs| - Min(ups, |dirs|)
            && Absolute(Join(kept) + "/" + rest)
            && Normalize(Join(kept) + "/" + rest) ==
               Join(PushAll(kept, Init(Split(rest))) + [Last(Split(rest))])
  {
    hide Split, PushAll, Join;
    var kept := BaseDirs(base, ups);
    SplitBehind(kept, rest);
    var cs := Split(rest);
    assert Init(kept + cs) == kept + Init(cs);
    assert [] + kept == kept;
    PushAllKeeps([], kept);
    PushAllConcat([], kept, Init(cs));
  }

  lemma FindBehind(front: string, s: string, c: char)
    requires c !in front
    ensures Find(front + s, c) == |front| + Find(s, c)
  {
    hide Find;
    var i := Find(s, c);
    assert (front + s)[..|front| + i] == front + s[..i];
    FindIs(front + s, c, |front| + i);
  }

  /** What is in front of a string and free of the separator stays in front of its first part. */
  lemma CutBehind(front: string, s: string, c: char)
    requires c !in front
    ensures Cut(front + s, c) == (front + Cut(s, c).0, Cut(s, c).1)
  {
    hide Find;
    FindBehind(front, s, c);
    var i := Find(s, c);
    assert (front + s)[..|front| + i] == front + s[..i];
    if i < |s| {
      assert (front + s)[|front| + i + 1..] == s[i + 1..];
    }
  }

  lemma FreeFront(base: string, ups: nat, c: char)
    requires NormalPath(base) && c !in base && c != '/'
    ensures c !in Join(BaseDirs(base, ups)) + "/"
  {
    hide Split, Join;
    SplitFree(base[1..], c);
    JoinFree(BaseDirs(base, ups), c);
  }

  predicate IsPathRelative(rel: string) {
    (rel == "" || (rel[0] != '#' && rel[0] != '/')) && FindScheme(rel) == |rel|
  }

  /** Against a base with d directories, a relative path with k leading "../" drops exactly min(k, d)
      of them. What follows, up to its query and anchor, is walked from the others, its last
      component is kept as it is, and its query and anchor replace those of the base. */
  lemma ResolvedFrom(rel: string, base: Url)
    requires Printable(base) && IsPathRelative(rel)
    ensures var (k, rest) := StripUps(rel);
            var (beforeAnchor, anchor) := Cut(rest, '#');
            var (p, query) := Cut(beforeAnchor, '?');
            var dirs := Init(Split(base.path[1..]));
            var kept := dirs[..|dirs| - Min(k, |dirs|)];
            Resolve(rel, base) ==
            Some(base.(path := Join(PushAll(kept, Init(Split(p))) + [Last(Split(p))]),
                       query := query, anchor := anchor))
  {
    hide Split, PushAll, Join, FindScheme, StripUps, NormalPath, Cut, CutPort, Normalize;
    var (k, rest) := StripUps(rel);
    var front := Join(BaseDirs(base.path, k)) + "/";
    FreeFront(base.path, k, '#');
    FreeFront(base.path, k, '?');
    CutBehind(front, rest, '#');
    var (beforeAnchor, anchor) := Cut(rest, '#');
    CutBehind(front, beforeAnchor, '?');
    var (p, query) := Cut(beforeAnchor, '?');
    NormalizedBehind(base.path, k, p);
  }

  /** Resolving keeps URLs printable, so they too survive printing and parsing. */
  lemma ResolvedIsPrintable(rel: string, base: Url)
    requires Printable(base)
    ensures Resolve(rel, base).Some? ==> Printable(Resolve(rel, base).value)
  {
    hide FindScheme, CutPort, WithPath, NormalPath, Cut, Split, Parse, StripUps;
    ParsedIsPrintable(rel);
    var v := base.(path := "/", query := "", anchor := "");
    WithPathPrintable(v, rel);
    var (ups, rest) := StripUps(rel);
    WithPathPrintable(v, Join(BaseDirs(base.path, ups)) + "/" + rest);
  }

  // ----- The object that does it in place

  lemma PiecesInOrder(a: string, b: string, c: string, d: string, e: string, f: string)
    ensures ((((a + b) + c) + d) + e) + f == a + (b + c) + (d + e + f)
  {
    ConcatAssociative(a, b, c);
    ConcatAssociative(a + (b + c), d, e);
    ConcatAssociative(a + (b + c), d + e, f);
  }

  class URL {
    var proto: string
    var host: string
    var port: string
    var path: string
    var querystring: string
    var anchor: string

    ghost function Value(): Url
      reads this
    {
      Url(proto, host, port, path, querystring, anchor)
    }

    constructor ()
      ensures Value() == Url("", "", "", "", "", "")
    {
      proto, host, port, path, querystring, anchor := "", "", "", "", "", "";
    }

    method SplitAnchorFromPath()
      requires anchor == ""
      modifies this`path, this`anchor
      ensures (path, anchor) == Cut(old(path), '#')
    {
      var hashpos := Find(path, '#');
      if hashpos != |path| {
        anchor := path[hashpos + 1..];
        path := path[..hashpos];
      }
    }

    method SplitPortFromHost()
      requires port == ""
      modifies this`host, this`port
      ensures (host, port) == CutPort(old(host))
    {
      var ipv6 := Find(host, ']');
      if ipv6 == |host| {
        var colon := Find(host, ':');
        assert host[0..] == host;
        if colon != |host| {
          port := host[colon + 1..];
          host := host[..colon];
        }
      } else {
        var colon := ipv6 + Find(host[ipv6..], ':');
        if colon != |host| {
          port := host[colon + 1..];
          host := host[..colon];
        }
      }
    }

    method SplitQuerystringFromPath()
      requires querystring == ""
      modifies this`path, this`querystring
      ensures (path, querystring) == Cut(old(path), '?')
    {
      var qmpos := Find(path, '?');
      if qmpos == |path| {
        return;
      }
      querystring := path[qmpos + 1..];
      path := path[..qmpos];
    }

    /** False stands for the exception that normalising throws. */
    method Normalise() returns (ok: bool)
      modifies this`path
      ensures ok == Absolute(old(path))
      ensures path == if ok then Normalize(old(path)) else old(path)
    {
      var r := NormalizePath(path);
      if r.None? {
        return false;
      }
      path := r.value;
      return true;
    }

    method InitAbsolute(input: string) returns (ok: bool)
      requires Value() == Url("", "", "", "", "", "")
      modifies this
      ensures ok == Parse(input).Some?
      ensures ok ==> Value() == Parse(input).value
    {
      hide FindScheme, CutPort;
      var pos := FindScheme(input);
      if pos != |input| {
        proto := input[..pos];
        pos := pos + 3;
        if pos == |input| {
          return false;
        }
        var slash := Find(input[pos..], '/');
        if slash == |input[pos..]| {
          host := input[pos..];
          path := "/";
          SplitPortFromHost();
          return true;
        }
        host := input[pos..][..slash];
        path := input[pos..][slash..];
      } else {
        proto := "file";
        path := input;
      }
      SplitAnchorFromPath();
      SplitPortFromHost();
      SplitQuerystringFromPath();
      ok := Normalise();
    }

    method Print() returns (ret: string)
      ensures ret == Str(Value())
    {
      ret := proto + "://" + host;
      ret := AddPrefixed(ret, ":", port);
      ret := ret + path;
      ret := AddPrefixed(ret, "?", querystring);
      ret := AddPrefixed(ret, "#", anchor);
      PiecesInOrder(proto + "://", host, Prefixed(":", port), path, Prefixed("?", querystring), Prefixed("#", anchor));
    }

    method AddPrefixed(ret: string, mark: string, part: string) returns (r: string)
      ensures r == ret + Prefixed(mark, part)
    {
      r := ret;
      if part != "" {
        r := r + (mark + part);
      }
    }

    /** Resolves against another URL, scanning both strings; the other one has a normal path. */
    method InitRelative(relative: string, base: URL) returns (ok: bool)
      requires Value() == Url("", "", "", "", "", "") && base != this && NormalPath(base.path)
      modifies this
      ensures ok == Resolve(relative, base.Value()).Some?
      ensures ok ==> Value() == Resolve(relative, base.Value()).value
    {
      hide FindScheme, CutPort, Parse, Normalize, NormalPath;
      if relative != "" && relative[0] == '#' {
        proto, host, port, path := base.proto, base.host, base.port, base.path;
        anchor := relative[1..];
        return true;
      }
      if FindScheme(relative) != |relative| {
        ok := InitAbsolute(relative);
        return;
      }
      proto, host, port := base.proto, base.host, base.port;
      if relative != "" && relative[0] == '/' {
        path := relative;
      } else {
        var dirsback, rest := CountUps(relative);
        var basedir := StepBack(base.path, dirsback);
        path := basedir + rest;
      }
      SplitAnchorFromPath();
      SplitQuerystringFromPath();
      ok := Normalise();
    }
  }

  /** Counts and strips the leading "../", each with the slashes behind it. */
  method CountUps(relative: string) returns (dirsback: nat, rest: string)
    ensures (dirsback, rest) == StripUps(relative)
  {
    dirsback, rest := 0, relative;
    while StartsUp(rest)
      invariant StripUps(relative).0 == dirsback + StripUps(rest).0
      invariant StripUps(relative).1 == StripUps(rest).1
      decreases |rest|
    {
      dirsback := dirsback + 1;
      var pos := 3;
      assert SkipSlashes(rest[3..]) == SkipSlashes(rest[pos..]);
      while pos < |rest| && rest[pos] == '/'
        invariant 3 <= pos <= |rest|
        invariant SkipSlashes(rest[3..]) == SkipSlashes(rest[pos..])
      {
        assert rest[pos..][1..] == rest[pos + 1..];
        pos := pos + 1;
      }
      assert SkipSlashes(rest[pos..]) == rest[pos..];
      rest := rest[pos..];
    }
  }

  /** The last `c` at or before `upto`, if there is one. */
  function FindBack(s: string, c: char, upto: int): (i: int)
    requires upto < |s|
    ensures -1 <= i && (i >= 0 ==> i <= upto && s[i] == c)
    ensures forall k :: 0 <= k <= upto && s[k] == c ==> k <= i
    decreases upto + 1
  {
    if upto < 0 then -1 else if s[upto] == c then upto else FindBack(s, c, upto - 1)
  }

  lemma {:induction false} FindBackIs(s: string, c: char, upto: nat, i: nat)
    requires i <= upto < |s| && s[i] == c && forall k :: i < k <= upto ==> s[k] != c
    ensures FindBack(s, c, upto) == i
    decreases upto
  {
    if i < upto {
      FindBackIs(s, c, upto - 1, i);
    }
  }

  /** The last slash of a joined path is the one before its last component. */
  lemma LastSlash(s: string, head: string, comp: string)
    requires |s| >= |head| + 1 + |comp| && s[..|head| + 1 + |comp|] == head + "/" + comp && '/' !in comp
    ensures FindBack(s, '/', |head| + |comp|) == |head|
  {
    hide FindBack;
    forall k | |head| <= k <= |head| + |comp|
      ensures s[k] == '/' <==> k == |head|
    {
      JoinedAt(s, head, comp, k);
    }
    FindBackIs(s, '/', |head| + |comp|, |head|);
  }

  lemma JoinedAt(s: string, head: string, comp: string, k: nat)
    requires |s| >= |head| + 1 + |comp| && s[..|head| + 1 + |comp|] == head + "/" + comp
    requires |head| <= k <= |head| + |comp|
    ensures s[k] == if k == |head| then '/' else comp[k - |head| - 1]
  {
    assert s[k] == s[..|head| + 1 + |comp|][k];
  }

  lemma JoinSnoc(dirs: seq<string>, d: string)
    ensures Join(dirs + [d]) == Join(dirs) + "/" + d
  {
    JoinConcat(dirs, [d]);
    assert Join([d]) == "/" + d;
    ConcatAssociative(Join(dirs), "/", d);
  }

  lemma JoinEmpty(dirs: seq<string>)
    ensures Join(dirs) == "" <==> dirs == []
  {
  }

  /** `basedir` up to the slash at `lpos` is the path of `dirs`. */
  predicate EndsDirs(basedir: string, lpos: int, dirs: seq<string>) {
    0 <= lpos < |basedir| && lpos == |Join(dirs)| && basedir[..lpos + 1] == Join(dirs) + "/"
  }

  lemma StepBackOne(basedir: string, lpos: int, dirs: seq<string>)
    requires EndsDirs(basedir, lpos, dirs) && dirs != [] && Slashless(dirs)
    ensures lpos > 0 && FindBack(basedir, '/', lpos - 1) >= 0
    ensures EndsDirs(basedir, FindBack(basedir, '/', lpos - 1), Init(dirs))
  {
    hide Join;
    assert dirs == Init(dirs) + [Last(dirs)];
    JoinSnoc(Init(dirs), Last(dirs));
    var head := Join(Init(dirs));
    assert basedir[..lpos] == basedir[..lpos + 1][..lpos] == head + "/" + Last(dirs);
    LastSlash(basedir, head, Last(dirs));
    assert basedir[..|head| + 1] == basedir[..lpos][..|head| + 1] == head + "/";
  }

  /** From the directory part of a path, back over some slashes, but not past the first. */
  method StepBack(base: string, dirsback: nat) returns (basedir: string)
    requires NormalPath(base)
    ensures basedir == Join(BaseDirs(base, dirsback)) + "/"
  {
    hide Split, Join, FindBack;
    ghost var cs := Split(base[1..]);
    ghost var dirs := Init(cs);
    assert cs == dirs + [Last(cs)];
    JoinSnoc(dirs, Last(cs));
    SplitSlashless(base[1..]);
    LastSlash(base, Join(dirs), Last(cs));
    basedir := base[..FindBack(base, '/', |base| - 1) + 1];
    assert EndsDirs(basedir, |Join(dirs)|, dirs);
    var lpos := |basedir| - 1;
    var i := 0;
    ghost var kept := dirs;
    while i < dirsback
      invariant 0 <= i <= dirsback
      invariant kept == dirs[..|dirs| - Min(i, |dirs|)]
      invariant EndsDirs(basedir, lpos, kept)
    {
      JoinEmpty(kept);
      if lpos == 0 {
        break;
      }
      StepBackOne(basedir, lpos, kept);
      var pos := FindBack(basedir, '/', lpos - 1);
      lpos := if pos < 0 then 1 else pos;
      kept := Init(kept);
      i := i + 1;
    }
    assert kept == BaseDirs(base, dirsback);
    basedir := basedir[..lpos + 1];
  }
}
