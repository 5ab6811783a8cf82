/** Percent escapes (section 2.2 of RFC 1738), edited into and out of a string in place, and the
    query strings built from them. */
module UrlEscape {
  import opened Bytes

  const ESCAPEES: string := " \"#$%&+,/:;<=>?@[\\]^`{|}~_.!-(')"
  const PERCENT: byte := '%' as int
  const PLUS: byte := '+' as int
  const SPACE: byte := ' ' as int
  const AMPERSAND: byte := '&' as int
  const EQUALS: byte := '=' as int
  const QUESTION: byte := '?' as int

  // ----- Encoding

  predicate Escapes(c: byte) {
    c < 32 || c > 126 || (c as char) in ESCAPEES
  }

  function HexDigit(n: nat): (d: byte)
    requires n < 16
  {
    if n < 10 then ('0' as int) + n else ('A' as int) + n - 10
  }

  function EncodedByte(c: byte): seq<byte> {
    if Escapes(c) then [PERCENT, HexDigit(c / 16), HexDigit(c % 16)] else [c]
  }

  function Encoded(s: seq<byte>): seq<byte> {
    if s == [] then [] else EncodedByte(s[0]) + Encoded(s[1..])
  }

  /** Escapes in place: the index moves over what it inserts. A space is among the characters to
      be escaped, so it never becomes a plus sign. */
  method Encode(input: seq<byte>) returns (output: seq<byte>)
    ensures output == Encoded(input)
  {
    hide Escapes, HexDigit;
    output := input;
    var i := 0;
    ghost var rest := input;
    while i < |output|
      invariant 0 <= i <= |output| && output[i..] == rest
      invariant Encoded(input) == output[..i] + Encoded(rest)
      decreases |rest|
    {
      var c := output[i];
      ghost var done, tail := output[..i], rest[1..];
      assert Encoded(rest) == EncodedByte(c) + Encoded(tail);
      if Escapes(c) {
        output := output[i := PERCENT];
        i := i + 1;
        output := output[..i] + [HexDigit(c / 16)] + output[i..];
        i := i + 1;
        output := output[..i] + [HexDigit(c % 16)] + output[i..];
      }
      assert output[..i + 1] == done + EncodedByte(c) && output[i + 1..] == tail;
      ConcatAssociative(done, EncodedByte(c), Encoded(tail));
      rest := tail;
      i := i + 1;
    }
    assert output[..i] == output;
  }

  // ----- Decoding

  predicate IsHex(c: byte) {
    '0' as int <= c <= '9' as int || 'A' as int <= c <= 'F' as int || 'a' as int <= c <= 'f' as int
  }

  function HexValue(c: byte): (n: nat)
    requires IsHex(c)
    ensures n < 16
  {
    if c <= '9' as int then c - '0' as int
    else if c <= 'F' as int then c - 'A' as int + 10
    else c - 'a' as int + 10
  }

  predicate StartsEscape(s: seq<byte>) {
    |s| > 2 && s[0] == PERCENT && IsHex(s[1]) && IsHex(s[2])
  }

  function Decoded(s: seq<byte>): seq<byte>
    decreases |s|
  {
    if s == [] then []
    else if StartsEscape(s) then [16 * HexValue(s[1]) + HexValue(s[2])] + Decoded(s[3..])
    else [if s[0] == PLUS then SPACE else s[0]] + Decoded(s[1..])
  }

  /** Unescapes in place: the index stays behind what it erases, and does not look at what it has
      put there again. */
  method Decode(input: seq<byte>) returns (output: seq<byte>)
    ensures output == Decoded(input)
  {
    output := input;
    var i := 0;
    ghost var rest := input;
    while i < |output|
      invariant 0 <= i <= |output| && output[i..] == rest
      invariant Decoded(input) == output[..i] + Decoded(rest)
      decreases |rest|
    {
      ghost var done := output[..i];
      ghost var step, tail: seq<byte>;
      if output[i] == PERCENT && |output| > i + 2 && IsHex(output[i + 1]) && IsHex(output[i + 2]) {
        var hexcode: byte := 16 * HexValue(output[i + 1]) + HexValue(output[i + 2]);
        step, tail := [hexcode], rest[3..];
        output := output[i := hexcode];
        output := output[..i + 1] + output[i + 3..];
      } else {
        step, tail := [if rest[0] == PLUS then SPACE else rest[0]], rest[1..];
        if output[i] == PLUS {
          output := output[i := SPACE];
        }
      }
      assert output[..i + 1] == done + step && output[i + 1..] == tail;
      ConcatAssociative(done, step, Decoded(tail));
      rest := tail;
      i := i + 1;
    }
    assert output[..i] == output;
  }

  lemma HexRoundTrip(c: byte)
    ensures var h, l := HexDigit(c / 16), HexDigit(c % 16);
            IsHex(h) && IsHex(l) && 16 * HexValue(h) + HexValue(l) == c
  {
  }

  lemma DecodeByte(c: byte, tail: seq<byte>)
    ensures Decoded(EncodedByte(c) + tail) == [c] + Decoded(tail)
  {
    hide HexDigit, HexValue, IsHex;
    var t := EncodedByte(c) + tail;
    HexRoundTrip(c);
    if Escapes(c) {
      assert t[0] == PERCENT && t[1] == HexDigit(c / 16) && t[2] == HexDigit(c % 16) && t[3..] == tail;
    } else {
      assert t[0] == c && t[1..] == tail;
    }
  }

  /** Decoding undoes encoding, on every byte string and whatever follows it. */
  lemma {:induction false} DecodeEncoded(s: seq<byte>, rest: seq<byte>)
    ensures Decoded(Encoded(s) + rest) == s + Decoded(rest)
  {
    hide Decoded, EncodedByte;
    if s == [] {
      assert Encoded(s) + rest == rest;
    } else {
      var c, tail := s[0], Encoded(s[1..]) + rest;
      ConcatAssociative(EncodedByte(c), Encoded(s[1..]), rest);
      DecodeByte(c, tail);
      DecodeEncoded(s[1..], rest);
      assert s == [c] + s[1..];
      ConcatAssociative([c], s[1..], Decoded(rest));
    }
  }

  /** The round trip that the pair of operations is for. */
  lemma DecodeEncode(s: seq<byte>)
    ensures Decoded(Encoded(s)) == s
  {
    DecodeEncoded(s, []);
    assert Encoded(s) + [] == Encoded(s) && s + Decoded([]) == s;
  }

  // ----- Query strings

  type Params = map<seq<byte>, seq<byte>>

  /** The pieces between separators, without the empty ones. */
  function Tokens(s: seq<byte>, sep: byte): seq<seq<byte>>
    decreases |s|
  {
    if s == [] then [] else
      var i := Find(s, sep);
      (if i == 0 then [] else [s[..i]]) + if i == |s| then [] else Tokens(s[i + 1..], sep)
  }

  /** Enters one name and value, as far as the token has a value. */
  function Entered(target: Params, token: seq<byte>): Params {
    var eq := Find(token, EQUALS);
    target[Decoded(token[..eq]) := if eq == |token| then [] else Decoded(token[eq + 1..])]
  }

  function EnteredAll(target: Params, tokens: seq<seq<byte>>): Params
    decreases |tokens|
  {
    if tokens == [] then target else EnteredAll(Entered(target, tokens[0]), tokens[1..])
  }

  function Parsed(query: seq<byte>, target: Params): Params {
    EnteredAll(target, Tokens(if query != [] && query[0] == QUESTION then query[1..] else query, AMPERSAND))
  }

  method EnterToken(target: Params, nameval: seq<byte>) returns (result: Params)
    ensures result == Entered(target, nameval)
  {
    var name, value := [], [];
    var eq := Find(nameval, EQUALS);
    if eq == |nameval| {
      name := nameval;
      assert nameval[..eq] == nameval;
    } else {
      name, value := nameval[..eq], nameval[eq + 1..];
    }
    name := Decode(name);
    value := Decode(value);
    return target[name := value];
  }

  method ParseQuerystring(query: seq<byte>, target: Params) returns (result: Params)
    ensures result == Parsed(query, target)
  {
    hide Tokens, Entered;
    result := target;
    if query == [] {
      EmptyQuery();
      return;
    }
    var qstring := query;
    if qstring[0] == QUESTION {
      qstring := qstring[1..];
    }
    var tokens := Tokens(qstring, AMPERSAND);
    var t := 0;
    assert tokens[0..] == tokens;
    while t < |tokens|
      invariant 0 <= t <= |tokens|
      invariant EnteredAll(target, tokens) == EnteredAll(result, tokens[t..])
    {
      assert tokens[t..][1..] == tokens[t + 1..];
      result := EnterToken(result, tokens[t]);
      t := t + 1;
    }
  }

  /** A query string as a client builds it. */
  function Query(pairs: seq<(seq<byte>, seq<byte>)>): seq<byte> {
    if pairs == [] then []
    else if |pairs| == 1 then Pair(pairs[0])
    else Pair(pairs[0]) + [AMPERSAND] + Query(pairs[1..])
  }

  function Pair(p: (seq<byte>, seq<byte>)): seq<byte> {
    Encoded(p.0) + [EQUALS] + Encoded(p.1)
  }

  /** The map that the pairs describe, later ones replacing earlier ones. */
  function Updated(target: Params, pairs: seq<(seq<byte>, seq<byte>)>): Params
    decreases |pairs|
  {
    if pairs == [] then target else Updated(target[pairs[0].0 := pairs[0].1], pairs[1..])
  }

  /** What has been encoded holds, besides the percent signs of its escapes, only characters that
      need no escape, so no separator of a URL or of a query string. */
  lemma {:induction false} EncodedIsSafe(s: seq<byte>)
    ensures forall c <- Encoded(s) :: c == PERCENT || !Escapes(c)
    ensures AMPERSAND !in Encoded(s) && EQUALS !in Encoded(s) && QUESTION !in Encoded(s)
  {
    hide Escapes;
    SeparatorsEscape();
    if s == [] {
    } else {
      EncodedIsSafe(s[1..]);
      HexIsSafe(s[0] / 16);
      HexIsSafe(s[0] % 16);
      assert forall c <- EncodedByte(s[0]) :: c == PERCENT || !Escapes(c);
    }
  }

  lemma HexIsSafe(n: nat)
    requires n < 16
    ensures !Escapes(HexDigit(n))
  {
  }

  lemma SeparatorsEscape()
    ensures Escapes(AMPERSAND) && Escapes(EQUALS) && Escapes(QUESTION)
  {
    assert ESCAPEES[5] == '&' && ESCAPEES[12] == '=' && ESCAPEES[14] == '?';
  }

  lemma PairIsToken(p: (seq<byte>, seq<byte>))
    ensures Pair(p) != [] && AMPERSAND !in Pair(p) && Pair(p)[0] != QUESTION
    ensures forall target: Params :: Entered(target, Pair(p)) == target[p.0 := p.1]
  {
    hide Encoded, Decoded;
    EncodedIsSafe(p.0);
    EncodedIsSafe(p.1);
    var s, n := Pair(p), |Encoded(p.0)|;
    assert s[..n] == Encoded(p.0) && s[n] == EQUALS && s[n + 1..] == Encoded(p.1);
    assert s[0] == if n > 0 then Encoded(p.0)[0] else EQUALS;
    FindIs(s, EQUALS, n);
    DecodeEncode(p.0);
    DecodeEncode(p.1);
  }

  lemma {:induction false} TokensOfQuery(pairs: seq<(seq<byte>, seq<byte>)>)
    requires pairs != []
    ensures Tokens(Query(pairs), AMPERSAND) ==
            [Pair(pairs[0])] + if |pairs| == 1 then [] else Tokens(Query(pairs[1..]), AMPERSAND)
  {
    hide Pair;
    PairIsToken(pairs[0]);
    var s, p := Query(pairs), Pair(pairs[0]);
    assert s[..|p|] == p;
    FindIs(s, AMPERSAND, |p|);
    if |pairs| > 1 {
      assert s[|p| + 1..] == Query(pairs[1..]);
    }
  }

  lemma {:induction false} QueryEntersPairs(pairs: seq<(seq<byte>, seq<byte>)>, target: Params)
    ensures EnteredAll(target, Tokens(Query(pairs), AMPERSAND)) == Updated(target, pairs)
    decreases |pairs|
  {
    hide Pair, Entered, Query;
    if pairs == [] {
      EmptyQuery();
    } else {
      TokensOfQuery(pairs);
      PairIsToken(pairs[0]);
      var tokens := Tokens(Query(pairs), AMPERSAND);
      assert tokens[0] == Pair(pairs[0]);
      QueryEntersPairs(pairs[1..], Entered(target, tokens[0]));
      if |pairs| == 1 {
        EmptyQuery();
        assert pairs[1..] == [] && tokens[1..] == [];
      } else {
        assert tokens[1..] == Tokens(Query(pairs[1..]), AMPERSAND);
      }
    }
  }

  lemma EmptyQuery()
    ensures Query([]) == [] && Tokens([], AMPERSAND) == []
  {
  }

  /** Parsing a query string, with or without its question mark, enters exactly its pairs. */
  lemma ParseQuery(pairs: seq<(seq<byte>, seq<byte>)>, target: Params)
    ensures Parsed(Query(pairs), target) == Updated(target, pairs)
    ensures Parsed([QUESTION] + Query(pairs), target) == Updated(target, pairs)
  {
    QueryEntersPairs(pairs, target);
    if pairs != [] {
      PairIsToken(pairs[0]);
      assert Query(pairs)[0] == Pair(pairs[0])[0];
    }
    assert ([QUESTION] + Query(pairs))[1..] == Query(pairs);
  }

  /** The pairs list a map: each of its names once or more, always with its value. */
  ghost predicate Lists(pairs: seq<(seq<byte>, seq<byte>)>, m: Params) {
    && (forall i :: 0 <= i < |pairs| ==> pairs[i].0 in m && m[pairs[i].0] == pairs[i].1)
    && (forall n <- m :: exists i :: 0 <= i < |pairs| && pairs[i].0 == n)
  }

  lemma {:induction false} UpdatedKeeps(target: Params, pairs: seq<(seq<byte>, seq<byte>)>, m: Params)
    requires forall i :: 0 <= i < |pairs| ==> pairs[i].0 in m && m[pairs[i].0] == pairs[i].1
    requires forall n <- target :: n in m && m[n] == target[n]
    requires forall n <- m :: n in target || exists i :: 0 <= i < |pairs| && pairs[i].0 == n
    ensures Updated(target, pairs) == m
    decreases |pairs|
  {
    if pairs == [] {
    } else {
      var target' := target[pairs[0].0 := pairs[0].1];
      forall n <- m
        ensures n in target' || exists i :: 0 <= i < |pairs[1..]| && pairs[1..][i].0 == n
      {
        if n !in target' {
          var i :| 0 <= i < |pairs| && pairs[i].0 == n;
          assert pairs[1..][i - 1].0 == n;
        }
      }
      UpdatedKeeps(target', pairs[1..], m);
    }
  }

  /** Whatever map is written as a query string, in any order, is read back. */
  lemma QueryRebuildsMap(pairs: seq<(seq<byte>, seq<byte>)>, m: Params)
    requires Lists(pairs, m)
    ensures Parsed(Query(pairs), map[]) == m
  {
    ParseQuery(pairs, map[]);
    UpdatedKeeps(map[], pairs, m);
  }
}
