/** The command-line parser: options are recognised by letter or by an unambiguous prefix of their
    name, and by default come before all other arguments. */
module ArgParser {
  import opened Bytes

  datatype HasArg = No | Yes | Maybe

  /** `code` is not zero; the long name may be missing. */
  datatype Opt = Opt(code: int, name: Option<string>, hasArg: HasArg)

  type Options = os: seq<Opt> | forall i :: 0 <= i < |os| ==> os[i].code != 0

  /** An option with its argument, or (code 0) an argument of its own. */
  datatype Record = Record(code: int, argument: string)

  datatype Error = Ambiguous(opt: string) | Unrecognized(opt: string) | NoArgumentAllowed(name: string)
    | ArgumentRequired(name: string) | InvalidOption(code: int) | ShortArgumentRequired(code: int)

  /** What one option element does: the records it adds and the elements it takes, or an error. */
  datatype Step = Parsed(records: seq<Record>, taken: nat) | Failed(error: Error)

  // ----- Long options

  /** The name part of `--name` or `--name=argument`. */
  function NameOf(opt: string): string
    requires |opt| >= 2
  {
    opt[2..2 + Find(opt[2..], '=')]
  }

  predicate Abbreviates(key: string, o: Opt) {
    o.name.Some? && key <= o.name.value
  }

  predicate Exact(key: string, o: Opt) {
    o.name == Some(key)
  }

  /** The first option of exactly that name, or the number of options. */
  function FirstExact(key: string, os: seq<Opt>): (i: nat)
    ensures i <= |os| && (i < |os| ==> Exact(key, os[i]))
    ensures forall j :: 0 <= j < i ==> !Exact(key, os[j])
  {
    if os == [] || Exact(key, os[0]) then 0 else
      var i := 1 + FirstExact(key, os[1..]);
      assert forall j :: 0 < j < i ==> os[j] == os[1..][j - 1];
      i
  }

  /** The first option that the name abbreviates, or the number of options. */
  function FirstAbbreviated(key: string, os: seq<Opt>): (i: nat)
    ensures i <= |os| && (i < |os| ==> Abbreviates(key, os[i]))
    ensures forall j :: 0 <= j < i ==> !Abbreviates(key, os[j])
  {
    if os == [] || Abbreviates(key, os[0]) then 0 else
      var i := 1 + FirstAbbreviated(key, os[1..]);
      assert forall j :: 0 < j < i ==> os[j] == os[1..][j - 1];
      i
  }

  /** Two options that an abbreviation of both may stand for without a difference. */
  predicate Alike(a: Opt, b: Opt) {
    a.code == b.code && a.hasArg == b.hasArg
  }

  predicate AmbiguousKey(key: string, os: seq<Opt>) {
    var i := FirstAbbreviated(key, os);
    i < |os| && exists j :: 0 <= j < |os| && Abbreviates(key, os[j]) && !Alike(os[i], os[j])
  }

  /** The option that a name stands for: the first of exactly that name, or else the first that it
      abbreviates, unless it abbreviates different ones. */
  datatype Choice = Chosen(index: nat) | Many | Nothing

  function Choose(key: string, os: seq<Opt>): (c: Choice)
    ensures c.Chosen? ==> c.index < |os| && Abbreviates(key, os[c.index])
  {
    var exact := FirstExact(key, os);
    if exact < |os| then Chosen(exact)
    else if AmbiguousKey(key, os) then Many
    else
      var i := FirstAbbreviated(key, os);
      if i < |os| then Chosen(i) else Nothing
  }

  /** The search as one loop over the options, which stops at an exact match. */
  method FindLong(key: string, os: seq<Opt>) returns (c: Choice)
    ensures c == Choose(key, os)
  {
    var index := -1;
    var exact, ambig := false, false;
    var i := 0;
    ghost var first := FirstAbbreviated(key, os);
    while i < |os|
      invariant 0 <= i <= |os| && !exact
      invariant forall j :: 0 <= j < i ==> !Exact(key, os[j])
      invariant index == if first < i then first else -1
      invariant ambig <==> first < i && exists j :: 0 <= j < i && Abbreviates(key, os[j]) && !Alike(os[first], os[j])
    {
      if os[i].name.Some? && key <= os[i].name.value {
        if |os[i].name.value| == |key| {
          var name := os[i].name.value;
          assert name[..|name|] == name == key;
          assert Exact(key, os[i]);
          index, exact := i, true;
          break;
        } else if index < 0 {
          index := i;
        } else if os[index].code != os[i].code || os[index].hasArg != os[i].hasArg {
          ambig := true;
        }
      }
      i := i + 1;
    }
    assert exact ==> FirstExact(key, os) == index;
    if ambig && !exact {
      return Many;
    }
    if index < 0 {
      return Nothing;
    }
    return Chosen(index);
  }

  function LongStep(opt: string, arg: Option<string>, os: seq<Opt>): Step
    requires |opt| >= 2
  {
    var key := NameOf(opt);
    match Choose(key, os)
    case Many => Failed(Ambiguous(opt))
    case Nothing => Failed(Unrecognized(opt))
    case Chosen(i) =>
      var o := os[i];
      if |opt| > |key| + 2 then
        if o.hasArg == No then Failed(NoArgumentAllowed(o.name.value))
        else if o.hasArg == Yes && |opt| == |key| + 3 then Failed(ArgumentRequired(o.name.value))
        else Parsed([Record(o.code, opt[|key| + 3..])], 1)
      else if o.hasArg == Yes then
        if arg.None? then Failed(ArgumentRequired(o.name.value))
        else Parsed([Record(o.code, arg.value)], 2)
      else
        Parsed([Record(o.code, "")], 1)
  }

  // ----- Short options

  function FirstCode(code: int, os: seq<Opt>): (i: nat)
    ensures i <= |os| && (i < |os| ==> os[i].code == code)
  {
    if os == [] || os[0].code == code then 0 else 1 + FirstCode(code, os[1..])
  }

  /** One letter of an element: an option that leaves the element unfinished (nothing taken), or
      finishes it with an argument that is its rest or the next element, or without one. */
  function Letter(opt: string, c: nat, arg: Option<string>, os: Options): Step
    requires 0 < c < |opt|
  {
    var code := opt[c] as int;
    var i := FirstCode(code, os);
    if i == |os| then Failed(InvalidOption(code))
    else if c + 1 < |opt| then
      if os[i].hasArg != No then Parsed([Record(code, opt[c + 1..])], 1) else Parsed([Record(code, "")], 0)
    else if os[i].hasArg == Yes then
      if arg.None? || arg.value == "" then Failed(ShortArgumentRequired(code))
      else Parsed([Record(code, arg.value)], 2)
    else Parsed([Record(code, "")], 1)
  }

  /** The letters of one element from index `c` on. */
  function ShortSteps(opt: string, c: nat, arg: Option<string>, os: Options): Step
    requires 0 < c < |opt|
    decreases |opt| - c
  {
    var l := Letter(opt, c, arg, os);
    if l.Parsed? && l.taken == 0 then Behind(l.records, ShortSteps(opt, c + 1, arg, os)) else l
  }

  // ----- Whole command lines

  predicate IsOption(a: string) {
    |a| > 1 && a[0] == '-'
  }

  predicate EndsOptions(a: string) {
    a == "--"
  }

  function OptionStep(argv: seq<string>, i: nat, os: Options): Step
    requires i < |argv| && IsOption(argv[i]) && !EndsOptions(argv[i])
  {
    StepOf(argv[i], if i + 1 < |argv| then Some(argv[i + 1]) else None, os)
  }

  function StepOf(opt: string, arg: Option<string>, os: Options): Step
    requires |opt| >= 2
  {
    if opt[1] == '-' then LongStep(opt, arg, os) else ShortSteps(opt, 1, arg, os)
  }

  lemma OptionStepIs(argv: seq<string>, i: nat, os: Options)
    requires i < |argv| && IsOption(argv[i]) && !EndsOptions(argv[i])
    ensures OptionStep(argv, i, os) == StepOf(argv[i], if i + 1 < |argv| then Some(argv[i + 1]) else None, os)
  {
  }

  /** Every option step takes its element, and the next one at most if there is one; the records
      it adds are options. */
  lemma {:induction false} ShortStepsTake(opt: string, c: nat, arg: Option<string>, os: Options)
    requires 0 < c < |opt|
    ensures var s := ShortSteps(opt, c, arg, os);
            s.Parsed? ==> && 1 <= s.taken <= (if arg.Some? then 2 else 1) && s.records != []
                          && forall r <- s.records :: r.code != 0
    decreases |opt| - c
  {
    if c + 1 < |opt| {
      ShortStepsTake(opt, c + 1, arg, os);
    }
  }

  lemma OptionStepTakes(argv: seq<string>, i: nat, os: Options)
    requires i < |argv| && IsOption(argv[i]) && !EndsOptions(argv[i])
    ensures var s := OptionStep(argv, i, os);
            s.Parsed? ==> && 1 <= s.taken <= 2 && i + s.taken <= |argv| && s.records != []
                          && forall r <- s.records :: r.code != 0
  {
    if argv[i][1] != '-' {
      ShortStepsTake(argv[i], 1, if i + 1 < |argv| then Some(argv[i + 1]) else None, os);
    }
  }

  function Plain(args: seq<string>): (rs: seq<Record>)
    ensures |rs| == |args| && forall i :: 0 <= i < |rs| ==> rs[i] == Record(0, args[i])
  {
    if args == [] then [] else [Record(0, args[0])] + Plain(args[1..])
  }

  /** The records in the order of the command line from element `i` on. */
  function InOrder(argv: seq<string>, i: nat, os: Options): Step
    requires i <= |argv|
    decreases |argv| - i
  {
    if i == |argv| then Parsed([], 0)
    else if !IsOption(argv[i]) then
      Prepend([Record(0, argv[i])], InOrder(argv, i + 1, os))
    else if EndsOptions(argv[i]) then
      Parsed(Plain(argv[i + 1..]), 0)
    else
      OptionStepTakes(argv, i, os);
      match OptionStep(argv, i, os)
      case Failed(e) => Failed(e)
      case Parsed(records, taken) => Prepend(records, InOrder(argv, i + taken, os))
  }

  function Prepend(records: seq<Record>, s: Step): Step {
    if s.Failed? then s else Parsed(records + s.records, 0)
  }

  /** The options of a list of records, and the other arguments of it. */
  function Of(rs: seq<Record>, options: bool): seq<Record> {
    if rs == [] then [] else (if (rs[0].code != 0) == options then [rs[0]] else []) + Of(rs[1..], options)
  }

  /** Options first, each kind in its own order. */
  function Partition(s: Step): Step {
    if s.Failed? then s else Parsed(Of(s.records, true) + Of(s.records, false), s.taken)
  }

  lemma {:induction false} OfConcat(a: seq<Record>, b: seq<Record>, options: bool)
    ensures Of(a + b, options) == Of(a, options) + Of(b, options)
  {
    if a == [] {
      assert a + b == b;
    } else {
      OfConcat(a[1..], b, options);
      assert (a + b)[0] == a[0] && (a + b)[1..] == a[1..] + b;
      ConcatAssociative(if (a[0].code != 0) == options then [a[0]] else [], Of(a[1..], options), Of(b, options));
    }
  }

  lemma {:induction false} OfUniform(rs: seq<Record>, options: bool)
    requires forall r <- rs :: (r.code != 0) == options
    ensures Of(rs, options) == rs && Of(rs, !options) == []
  {
    if rs == [] {
    } else {
      assert rs[0] in rs && forall r <- rs[1..] :: r in rs;
      OfUniform(rs[1..], options);
    }
  }

  /** The outcome of a whole parse; an error leaves no records. */
  function Outcome(s: Step): (Option<Error>, seq<Record>) {
    match s
    case Failed(e) => (Some(e), [])
    case Parsed(records, _) => (None, records)
  }

  /** The permuting parse part of the way: options and other arguments so far, and what the
      in-order parse of the rest will yield. */
  function Rejoined(options: seq<Record>, others: seq<Record>, rest: Step): Step {
    if rest.Failed? then rest
    else Parsed((options + Of(rest.records, true)) + (others + Of(rest.records, false)), 0)
  }

  lemma RejoinOption(options: seq<Record>, others: seq<Record>, records: seq<Record>, rest: Step)
    requires forall r <- records :: r.code != 0
    ensures Rejoined(options, others, Prepend(records, rest)) == Rejoined(options + records, others, rest)
  {
    if rest.Parsed? {
      OfConcat(records, rest.records, true);
      OfConcat(records, rest.records, false);
      OfUniform(records, true);
      ConcatAssociative(options, records, Of(rest.records, true));
      assert [] + Of(rest.records, false) == Of(rest.records, false);
    }
  }

  lemma RejoinOther(options: seq<Record>, others: seq<Record>, a: string, rest: Step)
    ensures Rejoined(options, others, Prepend([Record(0, a)], rest)) == Rejoined(options, others + [Record(0, a)], rest)
  {
    if rest.Parsed? {
      OfConcat([Record(0, a)], rest.records, true);
      OfConcat([Record(0, a)], rest.records, false);
      OfUniform([Record(0, a)], false);
      ConcatAssociative(others, [Record(0, a)], Of(rest.records, false));
      assert [] + Of(rest.records, true) == Of(rest.records, true);
    }
  }

  lemma RejoinPlain(options: seq<Record>, others: seq<Record>, args: seq<string>)
    ensures Rejoined(options, others, Parsed(Plain(args), 0)) == Parsed(options + (others + Plain(args)), 0)
  {
    OfUniform(Plain(args), false);
    assert options + [] == options;
  }

  class ArgParser {
    var error: Option<Error>
    var data: seq<Record>

    /** Parses a command line, program name first. In order, records come as on the line;
        permuting, they are the stable partition of that, options first. */
    constructor (argv: seq<string>, os: Options, inOrder: bool)
      ensures var s := if |argv| < 2 then Parsed([], 0) else InOrder(argv, 1, os);
              (error, data) == Outcome(if inOrder then s else Partition(s))
    {
      error, data := None, [];
      new;
      if |argv| >= 2 {
        ParseLine(argv, os, inOrder);
      }
    }

    /** The result is what has been parsed so far, joined with the in-order parse of the rest. */
    ghost predicate OnTrack(goal: Step, inOrder: bool, others: seq<string>, rest: Step)
      reads this
    {
      && (inOrder ==> others == [])
      && goal == if inOrder then Prepend(data, rest) else Rejoined(data, Plain(others), rest)
    }

    method ParseLine(argv: seq<string>, os: Options, inOrder: bool)
      requires |argv| >= 2 && error == None && data == []
      modifies this
      ensures var s := InOrder(argv, 1, os);
              (error, data) == Outcome(if inOrder then s else Partition(s))
    {
      hide InOrder, Prepend, Rejoined, OptionStep, Partition, Plain;
      var nonOptions: seq<string> := [];
      var argind := 1;
      ghost var goal := if inOrder then InOrder(argv, 1, os) else Partition(InOrder(argv, 1, os));
      StartParse(argv, os);
      while argind < |argv|
        invariant 1 <= argind <= |argv| && error == None
        invariant OnTrack(goal, inOrder, nonOptions, InOrder(argv, argind, os))
        decreases |argv| - argind
      {
        if IsOption(argv[argind]) && EndsOptions(argv[argind]) {
          break;
        }
        argind, nonOptions := ParseElement(argv, os, inOrder, argind, nonOptions, goal);
        if error != None {
          break;
        }
      }
      if error != None {
        data := [];
      } else {
        argind := RestFrom(argv, argind, os);
        JoinRest(data, nonOptions, argv[argind..]);
        AddPlain(nonOptions);
        AddPlain(argv[argind..]);
      }
    }

    /** The element after "--", or the end. */
    method RestFrom(argv: seq<string>, argind: nat, os: Options) returns (next: nat)
      requires argind <= |argv| && (argind < |argv| ==> IsOption(argv[argind]) && EndsOptions(argv[argind]))
      ensures next <= |argv| && InOrder(argv, argind, os) == Parsed(Plain(argv[next..]), 0)
    {
      next := if argind < |argv| then argind + 1 else argind;
      assert argind == |argv| ==> argv[next..] == [];
    }

    /** One element that does not end the options. */
    method ParseElement(argv: seq<string>, os: Options, inOrder: bool, argind: nat, nonOptions: seq<string>,
                        ghost goal: Step)
      returns (next: nat, others: seq<string>)
      requires argind < |argv| && !(IsOption(argv[argind]) && EndsOptions(argv[argind])) && error == None
      requires OnTrack(goal, inOrder, nonOptions, InOrder(argv, argind, os))
      modifies this
      ensures error == None ==> argind < next <= |argv| && OnTrack(goal, inOrder, others, InOrder(argv, next, os))
      ensures error != None ==> goal == Failed(error.value)
    {
      hide Prepend, Rejoined, OptionStep, Plain;
      others := nonOptions;
      ghost var before := data;
      if IsOption(argv[argind]) {
        var opt := argv[argind];
        var arg := if argind + 1 < |argv| then Some(argv[argind + 1]) else None;
        OptionStepTakes(argv, argind, os);
        ghost var step := OptionStep(argv, argind, os);
        var ok;
        ok, next := ParseOption(opt, arg, os, argind);
        OptionStepIs(argv, argind, os);
        if ok {
          RejoinOption(before, Plain(nonOptions), step.records, InOrder(argv, next, os));
          PrependTwice(before, step.records, InOrder(argv, next, os));
        } else {
          FailedStays(before, Plain(nonOptions), step.error);
        }
      } else {
        next := argind + 1;
        PlainSnoc(nonOptions, argv[argind]);
        RejoinOther(before, Plain(nonOptions), argv[argind], InOrder(argv, next, os));
        PrependTwice(before, [Record(0, argv[argind])], InOrder(argv, next, os));
        if !inOrder {
          others := nonOptions + [argv[argind]];
        } else {
          data := data + [Record(0, argv[argind])];
        }
      }
    }

    method ParseOption(opt: string, arg: Option<string>, os: Options, argind: nat) returns (ok: bool, next: nat)
      requires |opt| >= 2
      modifies this
      ensures After(old(data), old(error), argind, StepOf(opt, arg, os), ok, next)
    {
      if opt[1] == '-' {
        ok, next := ParseLongOption(opt, arg, os, argind);
      } else {
        ok, next := ParseShortOption(opt, arg, os, argind);
      }
    }

    /** Adds arguments that are not options at the end. */
    method AddPlain(args: seq<string>)
      modifies this`data
      ensures data == old(data) + Plain(args)
    {
      var i := 0;
      assert args[0..] == args;
      while i < |args|
        invariant 0 <= i <= |args|
        invariant old(data) + Plain(args) == data + Plain(args[i..])
      {
        assert args[i..][1..] == args[i + 1..];
        ConcatAssociative(data, [Record(0, args[i])], Plain(args[i + 1..]));
        data := data + [Record(0, args[i])];
        i := i + 1;
      }
    }

    method ParseLongOption(opt: string, arg: Option<string>, os: Options, argind: nat) returns (ok: bool, next: nat)
      requires |opt| >= 2
      modifies this
      ensures After(old(data), old(error), argind, LongStep(opt, arg, os), ok, next)
    {
      var len := Find(opt[2..], '=');
      next := argind;
      var choice := FindLong(opt[2..2 + len], os);
      if choice.Many? {
        error := Some(Ambiguous(opt));
        return false, next;
      }
      if choice.Nothing? {
        error := Some(Unrecognized(opt));
        return false, next;
      }
      var o := os[choice.index];
      next := next + 1;
      data := data + [Record(o.code, "")];
      if |opt| > len + 2 {
        if o.hasArg == No {
          error := Some(NoArgumentAllowed(o.name.value));
          return false, next;
        }
        if o.hasArg == Yes && |opt| <= len + 3 {
          error := Some(ArgumentRequired(o.name.value));
          return false, next;
        }
        data := data[|data| - 1 := Record(o.code, opt[len + 3..])];
        return true, next;
      }
      if o.hasArg == Yes {
        if arg.None? {
          error := Some(ArgumentRequired(o.name.value));
          return false, next;
        }
        next := next + 1;
        data := data[|data| - 1 := Record(o.code, arg.value)];
        return true, next;
      }
      return true, next;
    }

    /** What a step leaves behind: its records and its elements taken, or its error. */
    ghost predicate After(before: seq<Record>, errorBefore: Option<Error>, argind: nat, s: Step, ok: bool, next: nat)
      reads this
    {
      match s
      case Parsed(records, taken) => ok && error == errorBefore && data == before + records && next == argind + taken
      case Failed(e) => !ok && error == Some(e)
    }

    method ParseShortOption(opt: string, arg: Option<string>, os: Options, argind: nat) returns (ok: bool, next: nat)
      requires |opt| >= 2
      modifies this
      ensures After(old(data), old(error), argind, ShortSteps(opt, 1, arg, os), ok, next)
    {
      hide ShortSteps, Letter;
      var cind := 1;
      next := argind;
      ghost var goal := ShortSteps(opt, 1, arg, os);
      ghost var done: seq<Record> := [];
      NothingDone(goal);
      while cind > 0
        invariant 0 <= cind < |opt|
        invariant data == old(data) + done && error == old(error)
        invariant if cind > 0 then next == argind && goal == Behind(done, ShortSteps(opt, cind, arg, os))
                  else argind < next && goal == Parsed(done, next - argind)
        decreases if cind == 0 then 0 else |opt| - cind
      {
        ShortStepsLetter(opt, cind, arg, os, done);
        ok, cind, next := ParseLetter(opt, cind, arg, os, next);
        if !ok {
          return;
        }
        done := done + [data[|data| - 1]];
      }
      ok := true;
    }

    /** One letter; the new index is 0 when the element is finished. */
    method ParseLetter(opt: string, c: nat, arg: Option<string>, os: Options, argind: nat)
      returns (ok: bool, cind: nat, next: nat)
      requires 0 < c < |opt|
      modifies this
      ensures match Letter(opt, c, arg, os)
              case Failed(e) => !ok && error == Some(e)
              case Parsed(records, taken) =>
                && ok && error == old(error) && data == old(data) + records && next == argind + taken
                && cind == if taken == 0 then c + 1 else 0
    {
      var code := opt[c] as int;
      var index := FirstCode(code, os);
      cind, next := c, argind;
      if index == |os| {
        error := Some(InvalidOption(code));
        return false, cind, next;
      }
      data := data + [Record(code, "")];
      cind := cind + 1;
      if cind == |opt| {
        next := next + 1;
        cind := 0;
      }
      if os[index].hasArg != No && cind > 0 {
        data := data[|data| - 1 := Record(code, opt[cind..])];
        next := next + 1;
        cind := 0;
      } else if os[index].hasArg == Yes {
        if arg.None? || arg.value == "" {
          error := Some(ShortArgumentRequired(code));
          return false, cind, next;
        }
        data := data[|data| - 1 := Record(code, arg.value)];
        next := next + 1;
        cind := 0;
      }
      ok := true;
    }
  }

  lemma NothingDone(s: Step)
    ensures Behind([], s) == s
  {
    if s.Parsed? {
      assert [] + s.records == s.records;
    }
  }

  /** The letters from `c` on are the one at `c` and, unless it ends the element, the others. */
  lemma ShortStepsLetter(opt: string, c: nat, arg: Option<string>, os: Options, done: seq<Record>)
    requires 0 < c < |opt|
    ensures var l := Letter(opt, c, arg, os);
            && (l.Parsed? ==> |l.records| == 1 && (l.taken == 0 ==> c + 1 < |opt|))
            && Behind(done, ShortSteps(opt, c, arg, os)) ==
               if l.Parsed? && l.taken == 0 then Behind(done + l.records, ShortSteps(opt, c + 1, arg, os))
               else Behind(done, l)
  {
    if c + 1 < |opt| {
      var rest := ShortSteps(opt, c + 1, arg, os);
      if rest.Parsed? {
        ConcatAssociative(done, [Record(opt[c] as int, "")], rest.records);
      }
    }
  }

  function Behind(done: seq<Record>, s: Step): Step {
    if s.Failed? then s else Parsed(done + s.records, s.taken)
  }

  lemma StartParse(argv: seq<string>, os: Options)
    requires |argv| >= 1
    ensures var whole := InOrder(argv, 1, os);
            Prepend([], whole) == whole && Rejoined([], Plain([]), whole) == Partition(whole)
  {
    var whole := InOrder(argv, 1, os);
    if whole.Parsed? {
      assert [] + whole.records == whole.records;
      assert [] + Of(whole.records, true) == Of(whole.records, true);
      assert [] + Of(whole.records, false) == Of(whole.records, false);
    }
  }

  lemma FailedStays(options: seq<Record>, others: seq<Record>, e: Error)
    ensures Prepend(options, Failed(e)) == Failed(e) && Rejoined(options, others, Failed(e)) == Failed(e)
  {
  }

  /** At the end, what has been kept back and what is left of the line follow the options. */
  lemma JoinRest(options: seq<Record>, others: seq<string>, args: seq<string>)
    ensures Prepend(options, Parsed(Plain(args), 0)) == Parsed(options + Plain(args), 0)
    ensures Rejoined(options, Plain(others), Parsed(Plain(args), 0)) ==
            Parsed((options + Plain(others)) + Plain(args), 0)
    ensures options + Plain([]) == options
  {
    RejoinPlain(options, Plain(others), args);
    ConcatAssociative(options, Plain(others), Plain(args));
  }

  lemma PrependTwice(a: seq<Record>, b: seq<Record>, s: Step)
    ensures Prepend(a, Prepend(b, s)) == Prepend(a + b, s)
  {
    if s.Parsed? {
      ConcatAssociative(a, b, s.records);
    }
  }

  lemma {:induction false} PlainSnoc(args: seq<string>, a: string)
    ensures Plain(args + [a]) == Plain(args) + [Record(0, a)]
  {
    if args == [] {
      assert args + [a] == [a];
    } else {
      PlainSnoc(args[1..], a);
      assert (args + [a])[1..] == args[1..] + [a];
    }
  }
}
