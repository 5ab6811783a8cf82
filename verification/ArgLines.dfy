/** Command lines put together from options and arguments, in every way they may be written, and
    what the parser makes of them. */
module ArgLines {
  import opened Bytes
  import opened ArgParser

  // ----- Names of long options

  ghost predicate Named(key: string, os: seq<Opt>) {
    exists i :: 0 <= i < |os| && Exact(key, os[i])
  }

  /** Two options that differ have names that begin with `key`. */
  ghost predicate TwoWays(key: string, os: seq<Opt>) {
    exists i, j ::
      0 <= i < |os| && 0 <= j < |os| && Abbreviates(key, os[i]) && Abbreviates(key, os[j]) && !Alike(os[i], os[j])
  }

  /** The option meant is the first of exactly that name; if there is none, the first that the name
      abbreviates, as long as it does not abbreviate two that differ. */
  lemma ChooseMeans(key: string, os: seq<Opt>)
    ensures var c := Choose(key, os);
            && (c == Many <==> !Named(key, os) && TwoWays(key, os))
            && (c == Nothing <==> forall j :: 0 <= j < |os| ==> !Abbreviates(key, os[j]))
            && (c.Chosen? ==>
                  && c.index < |os|
                  && (if Named(key, os) then Exact(key, os[c.index]) else Abbreviates(key, os[c.index]))
                  && forall j :: 0 <= j < c.index ==>
                       if Named(key, os) then !Exact(key, os[j]) else !Abbreviates(key, os[j]))
  {
    var c := Choose(key, os);
    if Named(key, os) {
      var i :| 0 <= i < |os| && Exact(key, os[i]);
      assert FirstExact(key, os) <= i;
      assert Abbreviates(key, os[i]) by { NamesItself(key); }
    } else {
      var first := FirstAbbreviated(key, os);
      if TwoWays(key, os) {
        var i, j :|
          0 <= i < |os| && 0 <= j < |os| && Abbreviates(key, os[i]) && Abbreviates(key, os[j]) && !Alike(os[i], os[j]);
        assert first <= i && first <= j;
        assert !Alike(os[first], os[i]) || !Alike(os[first], os[j]);
      }
    }
  }

  lemma NamesItself(key: string)
    ensures key <= key
  {
  }

  lemma NameIs(key: string, more: string)
    requires '=' !in key && (more == "" || more[0] == '=')
    ensures NameOf("--" + key + more) == key
  {
    var opt := "--" + key + more;
    assert opt[2..] == key + more;
    assert (key + more)[..|key|] == key;
    FindIs(key + more, '=', |key|);
    assert opt[2..2 + |key|] == key;
  }

  /** A long option with an argument of its own, or without one, which then may be the next element. */
  lemma LongForms(key: string, joined: Option<string>, next: Option<string>, os: seq<Opt>)
    requires '=' !in key
    ensures var opt := "--" + key + if joined.Some? then "=" + joined.value else "";
            var step := LongStep(opt, next, os);
            match Choose(key, os)
            case Many => step == Failed(Ambiguous(opt))
            case Nothing => step == Failed(Unrecognized(opt))
            case Chosen(i) =>
              var o := os[i];
              if joined.Some? && o.hasArg == No then step == Failed(NoArgumentAllowed(o.name.value))
              else if joined.Some? && !(o.hasArg == Yes && joined.value == "") then
                step == Parsed([Record(o.code, joined.value)], 1)
              else if joined.None? && o.hasArg != Yes then step == Parsed([Record(o.code, "")], 1)
              else if joined.None? && next.Some? then step == Parsed([Record(o.code, next.value)], 2)
              else step == Failed(ArgumentRequired(o.name.value))
  {
    hide Choose, NameOf;
    var more := if joined.Some? then "=" + joined.value else "";
    var opt := "--" + key + more;
    NameIs(key, more);
    if joined.Some? {
      assert opt[|key| + 3..] == joined.value;
    }
  }

  // ----- Letters

  /** The option that a letter stands for: the first with its code. */
  predicate LetterOf(c: char, i: nat, os: seq<Opt>) {
    i < |os| && os[i].code == c as int && forall j :: 0 <= j < i ==> os[j].code != c as int
  }

  lemma {:induction false} FirstCodeIs(code: int, os: seq<Opt>, i: nat)
    requires i <= |os| && (i < |os| ==> os[i].code == code) && forall j :: 0 <= j < i ==> os[j].code != code
    ensures FirstCode(code, os) == i
  {
    if i == 0 {
    } else {
      FirstCodeIs(code, os[1..], i - 1);
    }
  }

  lemma UnknownLetter(opt: string, c: nat, arg: Option<string>, os: Options)
    requires 0 < c < |opt| && forall j :: 0 <= j < |os| ==> os[j].code != opt[c] as int
    ensures ShortSteps(opt, c, arg, os) == Failed(InvalidOption(opt[c] as int))
  {
    FirstCodeIs(opt[c] as int, os, |os|);
  }

  // ----- Items of a command line

  /** An argument; a long option by (the beginning of) its name, with an argument joined by an equals
      sign, in the next element, or none; letters of which only the last may have an argument. */
  datatype Item =
    | Argument(a: string)
    | Long(key: string, i: nat, argument: Option<string>, joined: bool)
    | Short(flags: string, last: char, i: nat, argument: Option<string>, joined: bool)

  ghost predicate IsFlag(c: char, os: Options) {
    exists i: nat :: LetterOf(c, i, os) && os[i].hasArg == No
  }

  /** The item can be written so: it names the option, and the option takes the argument or needs none. */
  ghost predicate Proper(t: Item, os: Options) {
    match t
    case Argument(a) => !IsOption(a)
    case Long(key, i, argument, joined) =>
      && '=' !in key && Choose(key, os) == Chosen(i)
      && (if argument.None? then os[i].hasArg != Yes && key != ""
          else if joined then os[i].hasArg != No && (os[i].hasArg == Yes ==> argument.value != "")
          else os[i].hasArg == Yes && key != "")
    case Short(flags, last, i, argument, joined) =>
      && (forall c <- flags :: IsFlag(c, os)) && LetterOf(last, i, os) && (flags + [last])[0] != '-'
      && (if argument.None? then os[i].hasArg != Yes
          else argument.value != "" && (if joined then os[i].hasArg != No else os[i].hasArg == Yes))
  }

  function Given(argument: Option<string>): string {
    if argument.None? then "" else argument.value
  }

  function Written(t: Item): (s: seq<string>)
    ensures 1 <= |s| <= 2
  {
    match t
    case Argument(a) => [a]
    case Long(key, _, argument, joined) =>
      if argument.None? then ["--" + key]
      else if joined then ["--" + key + ("=" + argument.value)]
      else ["--" + key, argument.value]
    case Short(flags, last, _, argument, joined) =>
      if argument.None? then ["-" + (flags + [last])]
      else if joined then ["-" + (flags + [last] + argument.value)]
      else ["-" + (flags + [last]), argument.value]
  }

  function Flags(flags: string): seq<Record> {
    if flags == "" then [] else [Record(flags[0] as int, "")] + Flags(flags[1..])
  }

  /** The records that the item stands for. */
  function Meant(t: Item, os: Options): seq<Record> {
    match t
    case Argument(a) => [Record(0, a)]
    case Long(_, i, argument, _) => if i < |os| then [Record(os[i].code, Given(argument))] else []
    case Short(flags, last, _, argument, _) => Flags(flags) + [Record(last as int, Given(argument))]
  }

  function WrittenAll(ts: seq<Item>): seq<string> {
    if ts == [] then [] else Written(ts[0]) + WrittenAll(ts[1..])
  }

  function MeantAll(ts: seq<Item>, os: Options): seq<Record> {
    if ts == [] then [] else Meant(ts[0], os) + MeantAll(ts[1..], os)
  }

  lemma LongItem(t: Item, next: Option<string>, os: Options)
    requires Proper(t, os) && t.Long?
    requires t.argument.Some? && !t.joined ==> next == t.argument
    ensures var opt := Written(t)[0];
            && IsOption(opt) && !EndsOptions(opt)
            && StepOf(opt, next, os) == Parsed(Meant(t, os), |Written(t)|)
  {
    hide LongStep, Choose;
    var joined := if t.argument.Some? && t.joined then t.argument else None;
    var more := if joined.Some? then "=" + joined.value else "";
    LongForms(t.key, joined, next, os);
    assert "--" + t.key + "" == "--" + t.key;
    assert Written(t)[0] == "--" + t.key + more;
    assert |t.key| > 0 || |more| > 0;
  }

  /** The letters from index `c` on. */
  lemma {:induction false} ShortLetters(opt: string, c: nat, flags: string, last: char, i: nat,
                                        argument: Option<string>, joined: bool, next: Option<string>, os: Options)
    requires 0 < c < |opt| && (forall x <- flags :: IsFlag(x, os)) && LetterOf(last, i, os)
    requires if argument.None? then os[i].hasArg != Yes
             else argument.value != "" &&
                  (if joined then os[i].hasArg != No else os[i].hasArg == Yes && next == argument)
    requires opt[c..] == flags + [last] + if joined then Given(argument) else ""
    ensures ShortSteps(opt, c, next, os) ==
            Parsed(Flags(flags) + [Record(last as int, Given(argument))],
                   if argument.Some? && !joined then 2 else 1)
    decreases |flags|
  {
    var tail := if joined then Given(argument) else "";
    if flags == "" {
      assert opt[c..][0] == last == opt[c] && opt[c + 1..] == opt[c..][1..] == tail;
      FirstCodeIs(last as int, os, i);
      assert Flags("") + [Record(last as int, Given(argument))] == [Record(last as int, Given(argument))];
    } else {
      var x := flags[0];
      assert x in flags;
      var j: nat :| LetterOf(x, j, os) && os[j].hasArg == No;
      assert opt[c..][0] == x == opt[c];
      assert flags == [x] + flags[1..];
      assert opt[c + 1..] == opt[c..][1..] == flags[1..] + [last] + tail;
      FirstCodeIs(x as int, os, j);
      assert forall y <- flags[1..] :: y in flags;
      ShortLetters(opt, c + 1, flags[1..], last, i, argument, joined, next, os);
      ConcatAssociative([Record(x as int, "")], Flags(flags[1..]), [Record(last as int, Given(argument))]);
    }
  }

  lemma ShortItem(t: Item, next: Option<string>, os: Options)
    requires Proper(t, os) && t.Short?
    requires t.argument.Some? && !t.joined ==> next == t.argument
    ensures var opt := Written(t)[0];
            && IsOption(opt) && !EndsOptions(opt)
            && StepOf(opt, next, os) == Parsed(Meant(t, os), |Written(t)|)
  {
    hide ShortSteps, Flags, LetterOf, IsFlag;
    var joined := t.argument.None? || t.joined;
    var letters := t.flags + [t.last];
    var opt := Written(t)[0];
    assert letters + "" == letters;
    assert opt == "-" + (letters + if joined then Given(t.argument) else "");
    assert opt[1..] == letters + if joined then Given(t.argument) else "";
    assert opt[1] == letters[0];
    ShortLetters(opt, 1, t.flags, t.last, t.i, t.argument, joined, next, os);
  }

  /** The items at the front of a line yield their records, one after another, before the rest of it. */
  lemma {:induction false} ItemsFirst(before: seq<string>, ts: seq<Item>, rest: seq<string>, os: Options)
    requires forall t <- ts :: Proper(t, os)
    ensures var argv := before + WrittenAll(ts) + rest;
            var all := before + WrittenAll(ts);
            && argv == all + rest
            && InOrder(argv, |before|, os) == Prepend(MeantAll(ts, os), InOrder(argv, |all|, os))
    decreases |ts|
  {
    hide Proper, Meant, Written, StepOf;
    if ts == [] {
      assert before + [] == before;
      WholeLine(before + rest, |before|, os);
    } else {
      var t, more := ts[0], ts[1..];
      assert t in ts && forall u <- more :: u in ts;
      var argv := before + WrittenAll(ts) + rest;
      var before' := before + Written(t);
      assert before' + WrittenAll(more) == before + WrittenAll(ts);
      ItemsFirst(before', more, rest, os);
      OneItem(argv, before, t, os);
      var tail := InOrder(argv, |before + WrittenAll(ts)|, os);
      PrependTwice(Meant(t, os), MeantAll(more, os), tail);
    }
  }

  lemma WholeLine(argv: seq<string>, i: nat, os: Options)
    requires i <= |argv|
    ensures Prepend([], InOrder(argv, i, os)) == InOrder(argv, i, os)
  {
  }

  lemma PrependTwice(a: seq<Record>, b: seq<Record>, s: Step)
    ensures Prepend(a, Prepend(b, s)) == Prepend(a + b, s)
  {
    if s.Parsed? {
      ConcatAssociative(a, b, s.records);
    }
  }

  lemma OneItem(argv: seq<string>, before: seq<string>, t: Item, os: Options)
    requires Proper(t, os) && before + Written(t) <= argv
    ensures InOrder(argv, |before|, os) == Prepend(Meant(t, os), InOrder(argv, |before| + |Written(t)|, os))
  {
    hide StepOf;
    var n := |before|;
    assert argv[n] == (before + Written(t))[n] == Written(t)[0];
    if !t.Argument? {
      var next := if n + 1 < |argv| then Some(argv[n + 1]) else None;
      if |Written(t)| == 2 {
        assert argv[n + 1] == (before + Written(t))[n + 1] == Written(t)[1];
      }
      if t.Long? {
        LongItem(t, next, os);
      } else {
        ShortItem(t, next, os);
      }
      OptionStepIs(argv, n, os);
      OptionStepTakes(argv, n, os);
    }
  }

  /** A whole command line, program name first: the records of its items in order, and behind "--"
      every element as it is. */
  lemma LineMeans(program: string, ts: seq<Item>, ended: bool, args: seq<string>, os: Options)
    requires forall t <- ts :: Proper(t, os)
    requires !ended ==> args == []
    ensures var argv := [program] + WrittenAll(ts) + if ended then ["--"] + args else [];
            InOrder(argv, 1, os) ==
            Parsed(MeantAll(ts, os) + seq(|args|, k requires 0 <= k < |args| => Record(0, args[k])), 0)
  {
    hide Proper, MeantAll, WrittenAll, OptionStep;
    var rest := if ended then ["--"] + args else [];
    var all := [program] + WrittenAll(ts);
    var argv := all + rest;
    ItemsFirst([program], ts, rest, os);
    assert Plain(args) == seq(|args|, k requires 0 <= k < |args| => Record(0, args[k]));
    if ended {
      assert argv[|all|] == "--" && argv[|all| + 1..] == args;
      assert InOrder(argv, |all|, os) == Parsed(Plain(args), 0);
    } else {
      assert argv == all;
      assert InOrder(argv, |all|, os) == Parsed([], 0);
    }
  }

  /** An element behind the items that is an option but fails is the outcome of the line. */
  lemma FirstErrorStops(program: string, ts: seq<Item>, bad: string, rest: seq<string>, os: Options)
    requires (forall t <- ts :: Proper(t, os)) && IsOption(bad) && !EndsOptions(bad)
    requires StepOf(bad, if rest == [] then None else Some(rest[0]), os).Failed?
    ensures InOrder([program] + WrittenAll(ts) + ([bad] + rest), 1, os) ==
            StepOf(bad, if rest == [] then None else Some(rest[0]), os)
  {
    hide Proper, MeantAll, WrittenAll, StepOf;
    var all := [program] + WrittenAll(ts);
    var argv := all + ([bad] + rest);
    ItemsFirst([program], ts, [bad] + rest, os);
    assert argv[|all|] == bad && (rest != [] ==> argv[|all| + 1] == rest[0]);
    OptionStepIs(argv, |all|, os);
  }

  /** The items of one kind. */
  function OfKind(ts: seq<Item>, arguments: bool): seq<Item> {
    if ts == [] then [] else (if ts[0].Argument? == arguments then [ts[0]] else []) + OfKind(ts[1..], arguments)
  }

  lemma {:induction false} FlagsAreOptions(flags: string, os: Options)
    requires forall c <- flags :: IsFlag(c, os)
    ensures forall r <- Flags(flags) :: r.code != 0
  {
    if flags == "" {
    } else {
      assert flags[0] in flags && forall c <- flags[1..] :: c in flags;
      FlagsAreOptions(flags[1..], os);
    }
  }

  lemma KindOfItem(t: Item, os: Options)
    requires Proper(t, os)
    ensures forall r <- Meant(t, os) :: r.code != 0 <==> !t.Argument?
  {
    if t.Short? {
      FlagsAreOptions(t.flags, os);
    }
  }

  lemma {:induction false} OfItems(ts: seq<Item>, os: Options, options: bool)
    requires forall t <- ts :: Proper(t, os)
    ensures Of(MeantAll(ts, os), options) == MeantAll(OfKind(ts, !options), os)
  {
    hide Proper, Meant;
    if ts == [] {
    } else {
      assert ts[0] in ts && forall t <- ts[1..] :: t in ts;
      OfItems(ts[1..], os, options);
      OfConcat(Meant(ts[0], os), MeantAll(ts[1..], os), options);
      KindOfItem(ts[0], os);
      OfUniform(Meant(ts[0], os), !ts[0].Argument?);
      var rest := OfKind(ts[1..], !options);
      assert ([ts[0]] + rest)[1..] == rest && [] + rest == rest;
      assert [] + MeantAll(rest, os) == MeantAll(rest, os);
    }
  }

  /** Permuted, the options of a line come first and all other arguments behind them, each in their
      own order. */
  lemma LinePermuted(program: string, ts: seq<Item>, ended: bool, args: seq<string>, os: Options)
    requires forall t <- ts :: Proper(t, os)
    requires !ended ==> args == []
    ensures var argv := [program] + WrittenAll(ts) + if ended then ["--"] + args else [];
            Partition(InOrder(argv, 1, os)) ==
            Parsed(MeantAll(OfKind(ts, false), os) + (MeantAll(OfKind(ts, true), os) + Plain(args)), 0)
  {
    hide Proper, MeantAll, WrittenAll, InOrder, Of, OfKind;
    LineMeans(program, ts, ended, args, os);
    var plain := seq(|args|, k requires 0 <= k < |args| => Record(0, args[k]));
    assert Plain(args) == plain;
    OfItems(ts, os, true);
    OfItems(ts, os, false);
    OfConcat(MeantAll(ts, os), plain, true);
    OfConcat(MeantAll(ts, os), plain, false);
    OfUniform(plain, false);
    assert MeantAll(OfKind(ts, false), os) + [] == MeantAll(OfKind(ts, false), os);
  }
}
