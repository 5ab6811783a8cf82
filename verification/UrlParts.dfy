/** What parsing and resolving make of a string put together from parts, printed or not. */
module UrlParts {
  import opened Bytes
  import opened UrlPath
  import opened Url

  /** A part behind its mark, or nothing for an empty part. */
  predicate Marked(s: string, mark: char, part: string) {
    s == [mark] + part || (s == "" && part == "")
  }

  lemma CutMarked(s: string, mark: char, t: string, part: string)
    requires mark !in s && Marked(t, mark, part)
    ensures Cut(s + t, mark) == (s, part)
  {
    var whole := s + t;
    assert whole[..|s|] == s;
    FindIs(whole, mark, |s|);
    if t == "" {
      assert whole == s;
    } else {
      assert whole[|s|..] == t;
      assert whole[|s| + 1..] == part;
    }
  }

  /** A path that needs not be normal, with its query and its anchor. */
  ghost predicate PathParts(s: string, path: string, query: string, anchor: string) {
    exists q, a :: s == path + q + a && Marked(q, '?', query) && Marked(a, '#', anchor)
                   && '#' !in path && '?' !in path && '#' !in query
  }

  lemma PartsCut(s: string, path: string, query: string, anchor: string)
    requires PathParts(s, path, query, anchor)
    ensures var (before, a) := Cut(s, '#');
            a == anchor && Cut(before, '?') == (path, query)
  {
    hide Cut;
    var q, a :| s == path + q + a && Marked(q, '?', query) && Marked(a, '#', anchor);
    CutMarked(path + q, '#', a, anchor);
    CutMarked(path, '?', q, query);
  }

  lemma PartsOfPath(v: Url, s: string, path: string, query: string, anchor: string)
    requires PathParts(s, path, query, anchor)
    ensures WithPath(v, s) ==
            if Absolute(path) then Some(v.(path := Normalize(path), query := query, anchor := anchor)) else None
  {
    hide Normalize, Cut, PathParts;
    PartsCut(s, path, query, anchor);
  }

  predicate Bracketed(s: string, host: string, port: string, address: string, behind: string, colon: string) {
    && host == address + ("]" + behind) && ']' !in address && ':' !in behind
    && s == host + colon && Marked(colon, ':', port)
  }

  /** The port is what follows the first colon; with a bracket, the first colon behind it. */
  ghost predicate HostParts(s: string, host: string, port: string) {
    || (':' !in host && ']' !in s && (s == host + ":" + port || (s == host && port == "")))
    || exists address, behind, colon :: Bracketed(s, host, port, address, behind, colon)
  }

  lemma PlainHost(s: string, host: string, port: string, colon: string)
    requires ':' !in host && ']' !in s && s == host + colon && Marked(colon, ':', port)
    ensures CutPort(s) == (host, port)
  {
    hide Find;
    assert s[..|s|] == s;
    FindIs(s, ']', |s|);
    assert s[0..] == s;
    ColonBehind(s, host, colon, port);
    assert s[..|host|] == host;
  }

  lemma BracketedHost(s: string, host: string, port: string, address: string, behind: string, colon: string)
    requires Bracketed(s, host, port, address, behind, colon)
    ensures CutPort(s) == (host, port)
  {
    hide Find;
    var bracket, tail := |address|, "]" + behind;
    ConcatAssociative(address, tail, colon);
    assert s == address + (tail + colon);
    assert s[..bracket] == address && s[bracket..] == tail + colon && s[bracket] == ']';
    FindIs(s, ']', bracket);
    ColonBehind(s[bracket..], tail, colon, port);
    assert bracket + |tail| == |host|;
    assert s[..|host|] == host;
    if colon != "" {
      assert s[|host|..] == colon && s[|host| + 1..] == port;
    } else {
      assert s == host;
    }
  }

  lemma PartsOfHost(s: string, host: string, port: string)
    requires HostParts(s, host, port)
    ensures CutPort(s) == (host, port)
  {
    hide CutPort, Bracketed;
    if exists address, behind, colon :: Bracketed(s, host, port, address, behind, colon) {
      var address, behind, colon :| Bracketed(s, host, port, address, behind, colon);
      BracketedHost(s, host, port, address, behind, colon);
    } else {
      var colon := s[|host|..];
      assert s == host + ":" + port ==> colon == ":" + port;
      PlainHost(s, host, port, colon);
    }
  }

  lemma ColonBehind(s: string, front: string, colon: string, port: string)
    requires s == front + colon && ':' !in front && Marked(colon, ':', port)
    ensures Find(s, ':') == |front|
    ensures colon != "" ==> s[|front| + 1..] == port
    ensures colon == "" ==> port == "" && |front| == |s|
  {
    hide Find;
    assert s[..|front|] == front;
    FindIs(s, ':', |front|);
  }

  lemma Schemed(proto: string, hostport: string, rest: string)
    requires FindScheme(proto + "://") == |proto| && '/' !in hostport && (rest == "" || rest[0] == '/')
    ensures Parse(proto + "://" + (hostport + rest)) ==
            if hostport == "" && rest == "" then None
            else if rest == "" then Some(WithHost(proto, hostport))
            else WithPath(WithHost(proto, hostport), rest)
  {
    hide FindScheme, Find, WithPath, CutPort;
    var s, tail := proto + "://" + (hostport + rest), hostport + rest;
    SchemeStays(proto, tail);
    assert s[..|proto|] == proto && s[|proto| + 3..] == tail;
    assert tail[..|hostport|] == hostport && tail[|hostport|..] == rest;
    FindIs(tail, '/', |hostport|);
    if rest == "" {
      assert tail == hostport;
    }
  }

  /** An absolute URL, from its protocol, host and port, and what follows them. */
  lemma PartsParse(proto: string, hostport: string, host: string, port: string, rest: string,
                   path: string, query: string, anchor: string)
    requires FindScheme(proto + "://") == |proto| && '/' !in hostport && HostParts(hostport, host, port)
    requires (rest == "" || rest[0] == '/') && PathParts(rest, path, query, anchor)
    ensures rest != "" ==> Absolute(path)
    ensures Parse(proto + "://" + (hostport + rest)) ==
            if hostport == "" && rest == "" then None
            else Some(Url(proto, host, port, if rest == "" then "/" else Normalize(path), query, anchor))
  {
    hide FindScheme, CutPort, Normalize, HostParts, PathParts, WithPath, Parse;
    Schemed(proto, hostport, rest);
    PartsOfHost(hostport, host, port);
    AbsoluteParts(rest, path, query, anchor);
    PartsOfPath(WithHost(proto, hostport), rest, path, query, anchor);
  }

  lemma AbsoluteParts(s: string, path: string, query: string, anchor: string)
    requires PathParts(s, path, query, anchor)
    ensures s != "" && s[0] == '/' ==> Absolute(path)
    ensures Absolute(path) ==> s != "" && s[0] == '/'
    ensures s == "" ==> query == "" && anchor == ""
  {
    var q, a :| s == path + q + a && Marked(q, '?', query) && Marked(a, '#', anchor);
    if path != "" {
      assert s[0] == path[0];
    } else {
      assert s == q + a;
    }
  }

  /** Without a protocol the string is a file's path. */
  lemma FileParse(s: string, path: string, query: string, anchor: string)
    requires FindScheme(s) == |s| && PathParts(s, path, query, anchor)
    ensures Parse(s) ==
            if Absolute(path) then Some(Url("file", "", "", Normalize(path), query, anchor)) else None
  {
    hide FindScheme, CutPort, Normalize, PathParts, WithPath;
    PlainHost("", "", "", "");
    PartsOfPath(Url("file", "", "", "/", "", ""), s, path, query, anchor);
  }

  lemma CutIsMarked(s: string, mark: char) returns (t: string)
    ensures var (a, b) := Cut(s, mark); s == a + t && Marked(t, mark, b) && mark !in a
  {
    hide Find;
    var (a, b) := Cut(s, mark);
    CutParts(s, mark);
    t := if mark in s then [mark] + b else "";
  }

  /** Every string has such parts, so these lemmas speak of every string that is parsed. */
  lemma EveryPathHasParts(s: string) returns (path: string, query: string, anchor: string)
    ensures PathParts(s, path, query, anchor)
  {
    hide Cut;
    var a := CutIsMarked(s, '#');
    var (before, anchored) := Cut(s, '#');
    var q := CutIsMarked(before, '?');
    var (plain, queried) := Cut(before, '?');
    path, query, anchor := plain, queried, anchored;
    assert '#' !in path && '#' !in q;
    if q != "" {
      assert q[1..] == query;
    }
  }

  /** A URL is printed without marks for the parts that are empty. */
  lemma PrintedForm(u: Url)
    ensures Str(u) == u.proto + "://" + u.host + (if u.port == "" then "" else ":" + u.port) + u.path
                      + (if u.query == "" then "" else "?" + u.query) + (if u.anchor == "" then "" else "#" + u.anchor)
  {
    var port, query := if u.port == "" then "" else ":" + u.port, if u.query == "" then "" else "?" + u.query;
    PiecesInOrder(u.proto + "://", u.host, port, u.path, query, if u.anchor == "" then "" else "#" + u.anchor);
  }

  // ----- Resolving

  /** Any number of slashes. */
  function Slashes(n: nat): string {
    if n == 0 then "" else "/" + Slashes(n - 1)
  }

  /** One "../" for each number, with that many more slashes behind it. */
  function Climb(more: seq<nat>): string {
    if more == [] then "" else "../" + Slashes(more[0]) + Climb(more[1..])
  }

  lemma {:induction false} SlashesSkipped(n: nat, s: string)
    requires !Absolute(s)
    ensures SkipSlashes(Slashes(n) + s) == s
  {
    if n == 0 {
      assert Slashes(0) + s == s;
    } else {
      SlashesSkipped(n - 1, s);
      assert (Slashes(n) + s)[1..] == Slashes(n - 1) + s;
    }
  }

  lemma OneClimb(n: nat, tail: string)
    requires !Absolute(tail)
    ensures StripUps("../" + Slashes(n) + tail) == (StripUps(tail).0 + 1, StripUps(tail).1)
  {
    hide SkipSlashes, Slashes;
    var s := "../" + Slashes(n) + tail;
    assert s == "../" + (Slashes(n) + tail);
    assert StartsUp(s) && s[3..] == Slashes(n) + tail;
    SlashesSkipped(n, tail);
  }

  /** The leading "../" are counted, whatever slashes are behind each. */
  lemma {:induction false} ClimbCounted(more: seq<nat>, rest: string)
    requires !StartsUp(rest) && !Absolute(rest)
    ensures StripUps(Climb(more) + rest) == (|more|, rest) && !Absolute(Climb(more) + rest)
    decreases |more|
  {
    hide StripUps, Slashes;
    if more == [] {
      assert Climb(more) + rest == rest;
      NoClimb(rest);
    } else {
      var tail := Climb(more[1..]) + rest;
      ClimbCounted(more[1..], rest);
      ConcatAssociative("../" + Slashes(more[0]), Climb(more[1..]), rest);
      OneClimb(more[0], tail);
    }
  }

  lemma NoClimb(rest: string)
    requires !StartsUp(rest)
    ensures StripUps(rest) == (0, rest)
  {
  }

  /** Up k directories from a base with d of them and down along `path`. */
  lemma ClimbResolved(base: Url, more: seq<nat>, rest: string, path: string, query: string, anchor: string)
    requires Printable(base) && IsPathRelative(Climb(more) + rest) && PathParts(rest, path, query, anchor)
    requires !StartsUp(rest) && !Absolute(rest)
    ensures var dirs := Init(Split(base.path[1..]));
            var kept := dirs[..|dirs| - Min(|more|, |dirs|)];
            && Absolute(Join(kept) + "/" + path)
            && Resolve(Climb(more) + rest, base) ==
               Some(base.(path := Normalize(Join(kept) + "/" + path), query := query, anchor := anchor))
  {
    hide Split, PushAll, Join, FindScheme, StripUps, NormalPath, Normalize, CutPort, Cut, PathParts, Climb;
    ClimbCounted(more, rest);
    ResolvedFrom(Climb(more) + rest, base);
    NormalizedBehind(base.path, |more|, path);
    PartsCut(rest, path, query, anchor);
  }

  /** The other relative forms: an anchor alone, a URL of its own, a path from the root. */
  lemma OtherForms(base: Url, rel: string, path: string, query: string, anchor: string)
    requires NormalPath(base.path) && PathParts(rel, path, query, anchor)
    ensures rel != "" && rel[0] == '#' ==> Resolve(rel, base) == Some(base.(query := "", anchor := rel[1..]))
    ensures rel != "" && rel[0] != '#' && FindScheme(rel) < |rel| ==> Resolve(rel, base) == Parse(rel)
    ensures FindScheme(rel) == |rel| && Absolute(rel) ==>
              && Absolute(path)
              && Resolve(rel, base) == Some(base.(path := Normalize(path), query := query, anchor := anchor))
  {
    hide FindScheme, Normalize, NormalPath, PathParts;
    AbsoluteParts(rel, path, query, anchor);
    PartsOfPath(base.(path := "/", query := "", anchor := ""), rel, path, query, anchor);
  }
}
