/** Percent escapes and query strings as anybody may spell them, not only as they are encoded here. */
module UrlSpelling {
  import opened Bytes
  import opened UrlEscape

  const UPPER: string := "0123456789ABCDEF"
  const LOWER: string := "0123456789abcdef"

  predicate AlphaNumeric(c: byte) {
    '0' as int <= c <= '9' as int || 'A' as int <= c <= 'Z' as int || 'a' as int <= c <= 'z' as int
  }

  /** Only digits, letters and the asterisk need no escape. */
  lemma PlainCharacters(c: byte)
    ensures !Escapes(c) <==> AlphaNumeric(c) || c == '*' as int
  {
    hide AlphaNumeric, Escapes;
    if !Escapes(c) {
      if c < 64 {
        PlainLow(c);
      } else {
        PlainHigh(c);
      }
    } else {
      EscapeesOnly(c);
    }
  }

  lemma EscapeesOnly(c: byte)
    requires Escapes(c)
    ensures !AlphaNumeric(c) && c != '*' as int
  {
  }

  lemma PlainLow(c: byte)
    requires !Escapes(c) && c < 64
    ensures AlphaNumeric(c) || c == '*' as int
  {
    var e := ESCAPEES;
    assert e[0] == ' ' && e[1] == '"' && e[2] == '#' && e[3] == '$' && e[4] == '%' && e[5] == '&' && e[6] == '+';
    assert e[7] == ',' && e[8] == '/' && e[9] == ':' && e[10] == ';' && e[11] == '<' && e[12] == '=' && e[13] == '>';
    assert e[14] == '?' && e[26] == '.' && e[27] == '!' && e[28] == '-';
    assert e[29] == '(' && e[30] == '\'' && e[31] == ')';
  }

  lemma PlainHigh(c: byte)
    requires !Escapes(c) && c >= 64
    ensures AlphaNumeric(c)
  {
    var e := ESCAPEES;
    assert e[15] == '@' && e[16] == '[' && e[17] == '\\' && e[18] == ']' && e[19] == '^';
    assert e[20] == '`' && e[21] == '{' && e[22] == '|' && e[23] == '}' && e[24] == '~' && e[25] == '_';
  }

  /** Each byte becomes itself, or a percent sign and two upper-case hexadecimal digits. */
  lemma EncodedAs(c: byte)
    ensures Encoded([c]) == if Escapes(c) then ['%' as int, UPPER[c / 16] as int, UPPER[c % 16] as int] else [c]
  {
    hide Escapes;
    UpperDigit(c / 16);
    UpperDigit(c % 16);
    assert Encoded([c]) == EncodedByte(c) + Encoded([c][1..]);
  }

  lemma UpperDigit(n: nat)
    requires n < 16
    ensures HexDigit(n) == UPPER[n] as int
  {
  }

  lemma {:induction false} EncodedConcat(a: seq<byte>, b: seq<byte>)
    ensures Encoded(a + b) == Encoded(a) + Encoded(b)
  {
    if a == [] {
      assert a + b == b;
    } else {
      EncodedConcat(a[1..], b);
      assert (a + b)[1..] == a[1..] + b;
      ConcatAssociative(EncodedByte(a[0]), Encoded(a[1..]), Encoded(b));
    }
  }

  // ----- Decoding

  /** One way to spell a byte: as it is, a space as a plus sign, or by two digits of either case. */
  datatype Spelling = AsIs(c: byte) | Plus | Hex(high: nat, low: nat, upperHigh: bool, upperLow: bool)

  predicate Spells(s: Spelling, c: byte) {
    match s
    case AsIs(d) => d == c && c != '%' as int && c != '+' as int
    case Plus => c == ' ' as int
    case Hex(high, low, _, _) => high < 16 && low < 16 && c == 16 * high + low
  }

  function Digit(n: nat, upper: bool): byte {
    if n >= 16 then 0 else if upper then UPPER[n] as int else LOWER[n] as int
  }

  function Spelled(s: Spelling): seq<byte> {
    match s
    case AsIs(c) => [c]
    case Plus => ['+' as int]
    case Hex(high, low, u, v) => ['%' as int, Digit(high, u), Digit(low, v)]
  }

  function SpelledAll(ss: seq<Spelling>): seq<byte> {
    if ss == [] then [] else Spelled(ss[0]) + SpelledAll(ss[1..])
  }

  lemma DigitValue(n: nat, upper: bool)
    requires n < 16
    ensures IsHex(Digit(n, upper)) && HexValue(Digit(n, upper)) == n
  {
  }

  lemma OneSpelling(s: Spelling, c: byte, rest: seq<byte>)
    requires Spells(s, c)
    ensures Decoded(Spelled(s) + rest) == [c] + Decoded(rest)
  {
    hide IsHex, HexValue, Digit;
    var t := Spelled(s) + rest;
    match s
    case AsIs(_) => assert t[0] == c && t[1..] == rest;
    case Plus => assert t[0] == PLUS && t[1..] == rest;
    case Hex(high, low, u, v) =>
      DigitValue(high, u);
      DigitValue(low, v);
      assert t[0] == PERCENT && t[1] == Digit(high, u) && t[2] == Digit(low, v) && t[3..] == rest;
  }

  /** However a string is spelled, decoding gives it back, whatever follows. */
  lemma {:induction false} DecodeSpelled(ss: seq<Spelling>, cs: seq<byte>, rest: seq<byte>)
    requires |ss| == |cs| && forall i :: 0 <= i < |ss| ==> Spells(ss[i], cs[i])
    ensures Decoded(SpelledAll(ss) + rest) == cs + Decoded(rest)
  {
    hide Decoded, Spelled, Spells;
    if ss == [] {
      assert SpelledAll(ss) + rest == rest;
    } else {
      assert Spells(ss[0], cs[0]);
      assert forall i :: 0 <= i < |ss[1..]| ==> ss[1..][i] == ss[i + 1] && cs[1..][i] == cs[i + 1];
      DecodeSpelled(ss[1..], cs[1..], rest);
      ConcatAssociative(Spelled(ss[0]), SpelledAll(ss[1..]), rest);
      OneSpelling(ss[0], cs[0], SpelledAll(ss[1..]) + rest);
      ConcatAssociative([cs[0]], cs[1..], Decoded(rest));
    }
  }

  predicate HexDigitAt(s: seq<byte>, i: nat) {
    i < |s| && exists n, u :: 0 <= n < 16 && s[i] == Digit(n, u)
  }

  lemma HexIff(s: seq<byte>, i: nat)
    requires i < |s|
    ensures IsHex(s[i]) <==> HexDigitAt(s, i)
  {
    if IsHex(s[i]) {
      var n, u := HexValue(s[i]), s[i] <= 'F' as int;
      assert s[i] == Digit(n, u);
    } else {
      forall n, u | 0 <= n < 16
        ensures s[i] != Digit(n, u)
      {
        DigitValue(n, u);
      }
    }
  }

  /** A percent sign that no two digits follow stays. */
  lemma StrayPercent(s: seq<byte>)
    requires !(HexDigitAt(s, 0) && HexDigitAt(s, 1))
    ensures Decoded(['%' as int] + s) == ['%' as int] + Decoded(s)
  {
    hide IsHex, HexValue, HexDigitAt;
    var t: seq<byte> := ['%' as int] + s;
    assert t[0] == PERCENT && t[1..] == s;
    if |s| >= 2 {
      assert t[1] == s[0] && t[2] == s[1];
      HexIff(s, 0);
      HexIff(s, 1);
    }
  }

  // ----- Query strings

  /** The pieces with a separator between them. */
  function Separated(pieces: seq<seq<byte>>, sep: byte): seq<byte> {
    if pieces == [] then [] else if |pieces| == 1 then pieces[0] else pieces[0] + [sep] + Separated(pieces[1..], sep)
  }

  function NotEmpty(pieces: seq<seq<byte>>): seq<seq<byte>> {
    if pieces == [] then [] else (if pieces[0] == [] then [] else [pieces[0]]) + NotEmpty(pieces[1..])
  }

  /** The tokens are the pieces between the separators that are not empty. */
  lemma {:induction false} TokensOfPieces(pieces: seq<seq<byte>>, sep: byte)
    requires forall p <- pieces :: sep !in p
    ensures Tokens(Separated(pieces, sep), sep) == NotEmpty(pieces)
  {
    if pieces == [] {
    } else {
      var p, s := pieces[0], Separated(pieces, sep);
      assert sep !in p && forall q <- pieces[1..] :: q in pieces;
      assert s[..|p|] == p;
      FindIs(s, sep, |p|);
      if |pieces| == 1 {
        assert pieces[1..] == [];
      } else {
        TokensOfPieces(pieces[1..], sep);
        assert s[|p| + 1..] == Separated(pieces[1..], sep);
      }
    }
  }

  /** What is before the first equals sign is the name, and what follows it, equals signs included,
      is the value. */
  lemma TokenEnters(target: Params, name: seq<byte>, value: seq<byte>)
    requires EQUALS !in name
    ensures Entered(target, name + ['=' as int] + value) == target[Decoded(name) := Decoded(value)]
  {
    hide Decoded, Find;
    var s := name + ['=' as int] + value;
    assert s[..|name|] == name && s[|name| + 1..] == value;
    FindIs(s, EQUALS, |name|);
  }

  /** A token without one is a name without a value. */
  lemma NameEnters(target: Params, name: seq<byte>)
    requires EQUALS !in name
    ensures Entered(target, name) == target[Decoded(name) := []]
  {
    hide Decoded, Find;
    assert name[..|name|] == name;
    FindIs(name, EQUALS, |name|);
  }
}
