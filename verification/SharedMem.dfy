/** Processes that race to create, initialise and use one System V semaphore, and the shared
    memory segment that it guards. Every system call is one step of one process. */
module SharedMem {
  import opened Bytes

  const MAX_RETRIES: nat := 10

  /** Where a process is. From `Looking` to `Leaving`, and `Inside`, it is between lock and unlock. */
  datatype Process =
    | Start                  // about to create the semaphore exclusively
    | Creating               // has created it, about to set its value
    | Opening                // has found it, about to open it
    | Polling(tries: nat)    // about to look whether it has been operated on
    | Locking                // about to lock, to attach
    | Looking                // about to look for the segment
    | Making                 // has found no segment, about to create it
    | Attaching(id: nat)     // about to attach the segment
    | Leaving(id: nat)       // about to unlock, attached
    | Attached(id: nat)      // outside the lock
    | Inside(id: nat)        // inside a later lock, about to unlock
    | TimedOut               // has given up; may try again
    | Dead

  /** The semaphore: its value, whether any operation has been done on it, and (for the proof)
      whether its value has been set. */
  datatype Semaphore = Semaphore(value: int, operated: bool, initialised: bool)

  /** `undo` is what the kernel adds to the semaphore when a process ends, and `creations` the
      number of times a segment has been created. */
  datatype State = State(procs: map<nat, Process>, sem: Option<Semaphore>, undo: map<nat, int>,
                         segment: Option<nat>, creations: nat)

  /** A process joins, makes its next system call, or ends at any point. `garbage` is the value
      of a semaphore that has not been set, and `id` a segment id that is not in use. */
  datatype Event = Join(p: nat) | Call(p: nat, garbage: int, id: nat) | Crash(p: nat)

  predicate Holds(pc: Process) {
    pc.Looking? || pc.Making? || pc.Attaching? || pc.Leaving? || pc.Inside?
  }

  function Holders(procs: map<nat, Process>): set<nat> {
    set p | p in procs && Holds(procs[p])
  }

  function SegmentOf(pc: Process): Option<nat> {
    match pc
    case Attaching(id) => Some(id)
    case Leaving(id) => Some(id)
    case Attached(id) => Some(id)
    case Inside(id) => Some(id)
    case _ => None
  }

  function MoveTo(s: State, p: nat, pc: Process): State {
    s.(procs := s.procs[p := pc])
  }

  /** Takes the semaphore down with an undo record, or blocks. */
  function Down(s: State, p: nat, pc: Process): State
    requires p in s.undo && s.sem.Some?
  {
    if s.sem.value.value < 1 then s else
      MoveTo(s, p, pc).(sem := Some(s.sem.value.(value := s.sem.value.value - 1, operated := true)),
                        undo := s.undo[p := s.undo[p] + 1])
  }

  function Up(s: State, p: nat, pc: Process): State
    requires p in s.undo && s.sem.Some?
  {
    MoveTo(s, p, pc).(sem := Some(s.sem.value.(value := s.sem.value.value + 1, operated := true)),
                      undo := s.undo[p := s.undo[p] - 1])
  }

  /** The next system call of a process. */
  function NextCall(s: State, p: nat, garbage: int, id: nat): State
    requires p in s.procs && p in s.undo
    requires s.sem.Some? || (s.sem.None? && (s.procs[p].Start? || s.procs[p].Dead?))
  {
    match s.procs[p]
    case Start =>
      if s.sem.None? then MoveTo(s, p, Creating).(sem := Some(Semaphore(garbage, false, false)))
      else MoveTo(s, p, Opening)
    case Creating =>
      MoveTo(s, p, Locking).(sem := Some(Semaphore(1, s.sem.value.operated, true)), undo := map q | q in s.undo :: 0)
    case Opening =>
      MoveTo(s, p, Polling(0))
    case Polling(tries) =>
      if s.sem.value.operated then MoveTo(s, p, Locking)
      else if tries + 1 >= MAX_RETRIES then MoveTo(s, p, TimedOut)
      else MoveTo(s, p, Polling(tries + 1))
    case Locking =>
      Down(s, p, Looking)
    case Looking =>
      if s.segment.None? then MoveTo(s, p, Making) else MoveTo(s, p, Attaching(s.segment.value))
    case Making =>
      if s.segment.None? then MoveTo(s, p, Attaching(id)).(segment := Some(id), creations := s.creations + 1)
      else MoveTo(s, p, Attaching(s.segment.value))
    case Attaching(id') =>
      MoveTo(s, p, Leaving(id'))
    case Leaving(id') =>
      Up(s, p, Attached(id'))
    case Attached(id') =>
      Down(s, p, Inside(id'))
    case Inside(id') =>
      Up(s, p, Attached(id'))
    case TimedOut =>
      MoveTo(s, p, Start)
    case Dead => s
  }

  /** The kernel adds the undo record of a process that ends. */
  function Ended(s: State, p: nat): State
    requires p in s.procs && p in s.undo
  {
    MoveTo(s, p, Dead).(
      sem := if s.sem.Some? then Some(s.sem.value.(value := s.sem.value.value + s.undo[p])) else s.sem,
      undo := s.undo[p := 0])
  }

  function Initial(): State {
    State(map[], None, map[], None, 0)
  }

  /** No process has used the semaphore before its value was set: at most its creator is on the
      way, and all others wait. */
  predicate Waiting(s: State)
    requires s.sem.Some?
  {
    && (forall p <- s.procs ::
          s.procs[p].Start? || s.procs[p].Creating? || s.procs[p].Opening? || s.procs[p].Polling? ||
          s.procs[p].TimedOut? || s.procs[p].Dead?)
    && (forall p, q | p in s.procs && q in s.procs && s.procs[p].Creating? && s.procs[q].Creating? :: p == q)
    && !s.sem.value.operated
  }

  predicate Unused(s: State) {
    && (forall p <- s.procs :: s.procs[p].Start? || s.procs[p].Dead?)
    && s.segment.None?
  }

  /** Once set, the semaphore's token is in its value or with exactly one process, which has an
      undo record for it. */
  predicate Guarding(s: State)
    requires s.sem.Some?
  {
    && (forall p <- s.procs :: !s.procs[p].Creating?)
    && s.sem.value.value >= 0
    && s.sem.value.value + |Holders(s.procs)| == 1
    && (forall p <- s.undo :: s.undo[p] == if p in Holders(s.procs) then 1 else 0)
    && (!s.sem.value.operated ==> Holders(s.procs) == {})
  }

  predicate SegmentsOk(s: State) {
    && s.creations == (if s.segment.Some? then 1 else 0)
    && (forall p <- s.procs :: SegmentOf(s.procs[p]).Some? ==> SegmentOf(s.procs[p]) == s.segment)
    && (forall p <- s.procs :: s.procs[p].Making? ==> s.segment.None?)
  }

  predicate Safe(s: State) {
    && s.undo.Keys == s.procs.Keys
    && SegmentsOk(s)
    && if s.sem.None? then Unused(s) && (forall p <- s.undo :: s.undo[p] == 0)
       else if !s.sem.value.initialised then Waiting(s) && s.segment.None? && (forall p <- s.undo :: s.undo[p] == 0)
       else Guarding(s)
  }

  /** One event; a process that has not joined, or has ended, makes no call. */
  function Next(s: State, e: Event): State
    requires Safe(s)
  {
    match e
    case Join(p) =>
      if p in s.procs then s else s.(procs := s.procs[p := Start], undo := s.undo[p := 0])
    case Call(p, garbage, id) => if p in s.procs then NextCall(s, p, garbage, id) else s
    case Crash(p) => if p in s.procs then Ended(s, p) else s
  }

  function Run(s: State, es: seq<Event>): State
    requires Safe(s)
    decreases |es|
  {
    if es == [] then s else
      NextIsSafe(s, es[0]);
      Run(Next(s, es[0]), es[1..])
  }

  lemma HoldersMove(procs: map<nat, Process>, p: nat, pc: Process)
    ensures var moved := Holders(procs[p := pc]);
            && moved == (if Holds(pc) then Holders(procs) + {p} else Holders(procs) - {p})
            && |moved| == |Holders(procs)| + (if Holds(pc) then 1 else 0)
                          - (if p in Holders(procs) then 1 else 0)
    ensures p in Holders(procs) <==> p in procs && Holds(procs[p])
  {
    var before, moved := Holders(procs), Holders(procs[p := pc]);
    assert moved == if Holds(pc) then before + {p} else before - {p};
    assert before == if p in before then (before - {p}) + {p} else before - {p};
  }

  lemma NobodyHolds(s: State)
    requires s.sem.Some? && Waiting(s)
    ensures Holders(s.procs) == {}
  {
  }

  lemma JoinIsSafe(s: State, p: nat)
    requires Safe(s) && p !in s.procs
    ensures Safe(Next(s, Join(p)))
  {
    hide Holders;
    HoldersMove(s.procs, p, Start);
  }

  /** Before the semaphore's value is set a call can at most set it. */
  lemma EarlyCallIsSafe(s: State, p: nat, garbage: int, id: nat)
    requires Safe(s) && p in s.procs && (s.sem.None? || !s.sem.value.initialised)
    ensures Safe(NextCall(s, p, garbage, id))
  {
    hide Holders;
    var s' := NextCall(s, p, garbage, id);
    if s.sem.Some? {
      NobodyHolds(s);
      HoldersMove(s.procs, p, s'.procs[p]);
    }
  }

  /** Calls on the segment: all who have it have the same, and who makes it has found none. */
  lemma SegmentsStayOk(s: State, p: nat, garbage: int, id: nat)
    requires Safe(s) && p in s.procs && s.sem.Some? && s.sem.value.initialised
    ensures SegmentsOk(NextCall(s, p, garbage, id))
  {
    hide Guarding;
    assert s.procs[p].Making? ==> forall q <- s.procs :: s.procs[q].Making? ==> q == p by {
      if s.procs[p].Making? {
        assert Guarding(s);
        OneHolder(s, p);
      }
    }
  }

  lemma OneHolder(s: State, p: nat)
    requires s.sem.Some? && Guarding(s) && p in s.procs && Holds(s.procs[p])
    ensures forall q <- s.procs :: Holds(s.procs[q]) ==> q == p
  {
    forall q <- s.procs | Holds(s.procs[q])
      ensures q == p
    {
      AtMostOne(Holders(s.procs), p, q);
    }
  }

  function Token(pc: Process): int {
    if Holds(pc) then 1 else 0
  }

  /** What a process gains the semaphore loses, and its undo record follows. */
  lemma TokenMoves(s: State, s': State, p: nat)
    requires s.sem.Some? && s'.sem.Some? && Guarding(s) && s.undo.Keys == s.procs.Keys
    requires p in s.procs && p in s'.procs && s'.procs == s.procs[p := s'.procs[p]] && !s'.procs[p].Creating?
    requires var gain := Token(s'.procs[p]) - Token(s.procs[p]);
             && 0 <= s'.sem.value.value == s.sem.value.value - gain
             && s'.undo == s.undo[p := s.undo[p] + gain]
             && (s.sem.value.operated || gain != 0 ==> s'.sem.value.operated)
    ensures Guarding(s')
  {
    hide Holders;
    HoldersMove(s.procs, p, s'.procs[p]);
  }

  /** Calls on the semaphore: the token stays whole, with an undo record wherever it is. */
  lemma TokenStaysWhole(s: State, p: nat, garbage: int, id: nat)
    requires Safe(s) && p in s.procs && s.sem.Some? && s.sem.value.initialised
    ensures Guarding(NextCall(s, p, garbage, id))
  {
    hide Holders, SegmentsOk;
    var s' := NextCall(s, p, garbage, id);
    assert !s.procs[p].Creating? && s.sem.value.value >= 0;
    assert s.undo == s.undo[p := s.undo[p] + 0];
    TokenMoves(s, s', p);
  }

  lemma LateCallIsSafe(s: State, p: nat, garbage: int, id: nat)
    requires Safe(s) && p in s.procs && s.sem.Some? && s.sem.value.initialised
    ensures Safe(NextCall(s, p, garbage, id))
  {
    hide Holders, SegmentsOk;
    SegmentsStayOk(s, p, garbage, id);
    TokenStaysWhole(s, p, garbage, id);
  }

  /** The undo record of a process that ends gives back the token iff it had it. */
  lemma CrashIsSafe(s: State, p: nat)
    requires Safe(s) && p in s.procs
    ensures Safe(Ended(s, p))
  {
    hide Holders;
    HoldersMove(s.procs, p, Dead);
    if s.sem.Some? && !s.sem.value.initialised {
      NobodyHolds(s);
    }
  }

  /** Every step of every process keeps the protocol safe. */
  lemma NextIsSafe(s: State, e: Event)
    requires Safe(s)
    ensures Safe(Next(s, e))
  {
    hide Safe, NextCall, Ended;
    match e
    case Join(p) =>
      if p !in s.procs {
        JoinIsSafe(s, p);
      }
    case Call(p, garbage, id) =>
      if p in s.procs {
        if s.sem.None? || !s.sem.value.initialised {
          EarlyCallIsSafe(s, p, garbage, id);
        } else {
          LateCallIsSafe(s, p, garbage, id);
        }
      }
    case Crash(p) =>
      if p in s.procs {
        CrashIsSafe(s, p);
      }
  }

  lemma {:induction false} RunIsSafe(s: State, es: seq<Event>)
    requires Safe(s)
    ensures Safe(Run(s, es))
    ensures s.segment.Some? ==> Run(s, es).segment == s.segment
    decreases |es|
  {
    hide Safe;
    if es == [] {
    } else {
      NextIsSafe(s, es[0]);
      RunIsSafe(Next(s, es[0]), es[1..]);
    }
  }

  /** In every interleaving, with crashes at any point: no process is inside a lock before the
      creator has set the value; at most one is at any time; a token that is in nobody's hands is
      in the semaphore; the segment is created at most once, and only by the process that found
      none; and all processes that have it have the same one. */
  lemma ProtocolIsSafe(es: seq<Event>)
    ensures Safe(Initial())
    ensures var s := Run(Initial(), es);
            && (forall p <- s.procs :: Holds(s.procs[p]) ==> s.sem.Some? && s.sem.value.initialised)
            && (forall p, q | p in s.procs && q in s.procs && Holds(s.procs[p]) && Holds(s.procs[q]) :: p == q)
            && (s.sem.Some? && s.sem.value.initialised ==> s.sem.value.value == 1 - |Holders(s.procs)|)
            && s.creations <= 1
            && (forall p <- s.procs :: s.procs[p].Making? ==> s.creations == 0)
            && (forall p <- s.procs :: SegmentOf(s.procs[p]).Some? ==> SegmentOf(s.procs[p]) == s.segment)
  {
    RunIsSafe(Initial(), es);
    var s := Run(Initial(), es);
    if s.sem.Some? && s.sem.value.initialised {
      forall p, q | p in s.procs && q in s.procs && Holds(s.procs[p]) && Holds(s.procs[q])
        ensures p == q
      {
        AtMostOne(Holders(s.procs), p, q);
      }
    }
  }

  lemma AtMostOne(h: set<nat>, p: nat, q: nat)
    requires |h| <= 1 && p in h && q in h
    ensures p == q
  {
    assert |h - {p}| == |h| - 1;
    assert q !in h - {p};
  }

  /** How many system calls a run has process `p` make. */
  function Turns(es: seq<Event>, p: nat): nat {
    if es == [] then 0 else (if es[0].Call? && es[0].p == p then 1 else 0) + Turns(es[1..], p)
  }

  /** Waiting is bounded: whatever the others do, a process that polls gets past it, or gives up,
      in at most ten looks of its own; it goes on to lock iff the semaphore has been operated on. */
  lemma {:induction false} PollingEnds(s: State, es: seq<Event>, p: nat) returns (k: nat)
    requires Safe(s) && p in s.procs && s.procs[p].Polling? && s.procs[p].tries < MAX_RETRIES
    requires s.procs[p].tries + Turns(es, p) >= MAX_RETRIES
    ensures k <= |es|
    ensures var s' := Run(s, es[..k]);
            && p in s'.procs && (s'.procs[p].Dead? || s'.procs[p].Locking? || s'.procs[p].TimedOut?)
            && (s'.procs[p].Locking? ==> s'.sem.Some? && s'.sem.value.operated)
            && (s'.procs[p].TimedOut? ==> s'.sem.Some? && !s'.sem.value.operated)
    decreases |es|
  {
    hide Safe, Guarding, Waiting, SegmentsOk, Unused;
    var next := Next(s, es[0]);
    NextIsSafe(s, es[0]);
    PollingStep(s, es[0], p);
    if next.procs[p].Polling? {
      k := PollingEnds(next, es[1..], p);
      k := k + 1;
      assert es[..k][0] == es[0] && es[..k][1..] == es[1..][..k - 1];
    } else {
      k := 1;
      assert es[..k][0] == es[0] && es[..k][1..] == [];
    }
  }

  lemma PollingStep(s: State, e: Event, p: nat)
    requires Safe(s) && p in s.procs && s.procs[p].Polling? && s.procs[p].tries < MAX_RETRIES
    ensures var s' := Next(s, e);
            && p in s'.procs && s'.sem.Some?
            && if e.Call? && e.p == p then
                 s'.procs[p] == (if s'.sem.value.operated then Locking
                                 else if s.procs[p].tries + 1 < MAX_RETRIES then Polling(s.procs[p].tries + 1)
                                 else TimedOut)
               else s'.procs[p] == s.procs[p] || s'.procs[p].Dead?
  {
    hide Guarding, Waiting, SegmentsOk;
  }

  // ----- Being locked out

  /** Nothing has been done on the semaphore, and nobody is left who will lock without waiting for
      that. */
  predicate Stuck(s: State) {
    && s.sem.Some? && !s.sem.value.operated
    && forall p <- s.procs ::
         s.procs[p].Start? || s.procs[p].Opening? || s.procs[p].Polling? || s.procs[p].TimedOut? || s.procs[p].Dead?
  }

  lemma StuckStays(s: State, e: Event)
    requires Safe(s) && Stuck(s)
    ensures Stuck(Next(s, e)) && Holders(Next(s, e).procs) == {}
  {
    hide Guarding, Waiting, SegmentsOk, Unused;
  }

  /** Then nobody ever gets into the lock, whatever happens. */
  lemma {:induction false} StuckForGood(s: State, es: seq<Event>)
    requires Safe(s) && Stuck(s)
    ensures Stuck(Run(s, es)) && forall p <- Run(s, es).procs :: !Holds(Run(s, es).procs[p])
    decreases |es|
  {
    hide Safe;
    if es == [] {
    } else {
      NextIsSafe(s, es[0]);
      StuckStays(s, es[0]);
      StuckForGood(Next(s, es[0]), es[1..]);
    }
  }

  /** The creator of the semaphore may end before it has set the value, or behind that and before its
      first operation: either locks everybody out for good. */
  lemma CreatorDies(garbage: int, id: nat, afterSetting: bool)
    ensures Safe(Initial())
    ensures var es := [Join(0), Call(0, garbage, id)] + (if afterSetting then [Call(0, garbage, id)] else [])
                      + [Crash(0)];
            Stuck(Run(Initial(), es))
  {
    hide Safe;
    InitialIsSafe();
    var e := Call(0, garbage, id);
    var s1 := Next(Initial(), Join(0));
    RunOne(Initial(), Join(0));
    RunOne(s1, e);
    var s2 := Next(s1, e);
    RunOne(s2, e);
    var last := if afterSetting then [e] + ([Crash(0)] + []) else [Crash(0)] + [];
    RunOne(s2, Crash(0));
    RunOne(Next(s2, e), Crash(0));
    RunMore(s2, Crash(0), []);
    RunMore(Next(s2, e), Crash(0), []);
    RunMore(s2, e, [Crash(0)] + []);
    RunMore(s1, e, last);
    RunMore(Initial(), Join(0), [e] + last);
    assert [Join(0), e] + (if afterSetting then [e] else []) + [Crash(0)] == [Join(0)] + ([e] + last);
  }

  lemma InitialIsSafe()
    ensures Safe(Initial())
  {
  }

  lemma RunOne(s: State, e: Event)
    requires Safe(s)
    ensures Safe(Next(s, e))
  {
    NextIsSafe(s, e);
  }

  ghost function Largest(s: set<nat>): (m: nat)
    ensures forall x <- s :: x <= m
  {
    if s == {} then 0 else
      var x :| x in s;
      var m := Largest(s - {x});
      assert forall y <- s :: y == x || y in s - {x};
      if x > m then x else m
  }

  lemma RunMore(s: State, e: Event, es: seq<Event>)
    requires Safe(s) && Safe(Next(s, e))
    ensures Run(s, [e] + es) == Run(Next(s, e), es)
  {
    assert ([e] + es)[0] == e && ([e] + es)[1..] == es;
  }

  ghost predicate SomebodyHolds(s: State) {
    exists p :: p in s.procs && Holds(s.procs[p])
  }

  /** The semaphore's value is one, and a process is about to take it. */
  predicate About(s: State, p: nat) {
    && p in s.procs && p in s.undo && s.sem.Some? && s.sem.value.initialised && s.sem.value.value == 1
    && (s.procs[p].Locking? || s.procs[p].Attached?)
  }

  lemma TakesLock(s: State, p: nat) returns (es: seq<Event>)
    requires Safe(s) && About(s, p)
    ensures SomebodyHolds(Run(s, es))
  {
    hide Safe;
    var e := Call(p, 0, 0);
    es := [e];
    RunOne(s, e);
    RunMore(s, e, []);
    assert Next(s, e).procs[p].Looking? || Next(s, e).procs[p].Inside?;
    assert Holds(Next(s, e).procs[p]);
  }

  /** A new process takes the lock if it is free and the semaphore does not keep it waiting. */
  lemma NewcomerTakesLock(s: State, p: nat, n: nat) returns (es: seq<Event>)
    requires Safe(s) && n < 4
    requires p in s.procs && p in s.undo
    requires s.sem.Some? && s.sem.value.initialised && s.sem.value.value == 1 && s.sem.value.operated
    requires s.procs[p] == if n == 0 then Locking else if n == 1 then Polling(0) else if n == 2 then Opening else Start
    ensures SomebodyHolds(Run(s, es))
    decreases n
  {
    hide Safe;
    if n == 0 {
      es := TakesLock(s, p);
    } else {
      var e := Call(p, 0, 0);
      RunOne(s, e);
      var rest := NewcomerTakesLock(Next(s, e), p, n - 1);
      RunMore(s, e, rest);
      es := [e] + rest;
    }
  }

  /** Unless everybody is locked out, the lock can still be reached. */
  lemma LockReachable(s: State) returns (es: seq<Event>)
    requires Safe(s) && !Stuck(s)
    ensures SomebodyHolds(Run(s, es))
  {
    hide Holders, SegmentsOk;
    var newcomer := Largest(s.procs.Keys) + 1;
    assert newcomer !in s.procs;
    if s.sem.None? {
      es := FirstTakesLock(s, newcomer);
    } else if !s.sem.value.initialised {
      var p :| p in s.procs && s.procs[p].Creating?;
      var e := Call(p, 0, 0);
      RunOne(s, e);
      var rest := TakesLock(Next(s, e), p);
      RunMore(s, e, rest);
      es := [e] + rest;
    } else if Holders(s.procs) != {} {
      es := [];
      var p :| p in Holders(s.procs);
      HoldersMove(s.procs, p, Dead);
    } else {
      es := FreeTakesLock(s, newcomer);
    }
  }

  lemma FirstTakesLock(s: State, p: nat) returns (es: seq<Event>)
    requires Safe(s) && s.sem.None? && p !in s.procs
    ensures SomebodyHolds(Run(s, es))
  {
    hide Safe;
    assert s.undo.Keys == s.procs.Keys by { SameKeys(s); }
    var e := Call(p, 0, 0);
    RunOne(s, Join(p));
    var s1 := Next(s, Join(p));
    RunOne(s1, e);
    var s2 := Next(s1, e);
    RunOne(s2, e);
    var rest := TakesLock(Next(s2, e), p);
    RunMore(s2, e, rest);
    RunMore(s1, e, [e] + rest);
    RunMore(s, Join(p), [e] + ([e] + rest));
    es := [Join(p)] + ([e] + ([e] + rest));
  }

  lemma SameKeys(s: State)
    requires Safe(s)
    ensures s.undo.Keys == s.procs.Keys
  {
  }

  lemma FreeTakesLock(s: State, newcomer: nat) returns (es: seq<Event>)
    requires Safe(s) && !Stuck(s) && s.sem.Some? && s.sem.value.initialised && Holders(s.procs) == {}
    requires newcomer !in s.procs
    ensures SomebodyHolds(Run(s, es))
  {
    hide SegmentsOk;
    assert Guarding(s) && s.sem.value.value == 1;
    if s.sem.value.operated {
      RunOne(s, Join(newcomer));
      var rest := NewcomerTakesLock(Next(s, Join(newcomer)), newcomer, 3);
      RunMore(s, Join(newcomer), rest);
      es := [Join(newcomer)] + rest;
    } else {
      var p :| p in s.procs && !(s.procs[p].Start? || s.procs[p].Opening? || s.procs[p].Polling?
                                 || s.procs[p].TimedOut? || s.procs[p].Dead?);
      assert p !in Holders(s.procs);
      es := TakesLock(s, p);
    }
  }

  /** Exactly when nobody can get into the lock any more. */
  lemma LockedOutIff(s: State)
    requires Safe(s)
    ensures (forall es :: !SomebodyHolds(Run(s, es))) <==> Stuck(s)
  {
    hide Safe, Stuck;
    if Stuck(s) {
      forall es
        ensures !SomebodyHolds(Run(s, es))
      {
        StuckForGood(s, es);
      }
    } else {
      var es := LockReachable(s);
    }
  }

  // ----- Getting the segment

  /** The process is alive and nothing keeps it waiting: the semaphore is free and has been operated
      on where it has to be. */
  predicate CanGo(s: State, p: nat)
    requires p in s.procs
  {
    match s.procs[p]
    case Dead => false
    case Start => s.sem.None? || (s.sem.value.operated && s.sem.value.value == 1)
    case Opening => s.sem.Some? && s.sem.value.operated && s.sem.value.value == 1
    case Polling(_) => s.sem.Some? && s.sem.value.operated && s.sem.value.value == 1
    case TimedOut => s.sem.Some? && s.sem.value.operated && s.sem.value.value == 1
    case Locking => s.sem.Some? && s.sem.value.value == 1
    case Attached(_) => s.sem.Some? && s.sem.value.value == 1
    case _ => true
  }

  /** At most so many system calls are between a process and its segment. */
  function Left(pc: Process): nat {
    match pc
    case TimedOut => 9
    case Start => 8
    case Opening => 7
    case Polling(_) => 6
    case Creating => 6
    case Locking => 5
    case Looking => 4
    case Making => 3
    case Attaching(_) => 2
    case Leaving(_) => 1
    case Inside(_) => 1
    case Attached(_) => 0
    case Dead => 10
  }

  predicate OwnCalls(es: seq<Event>, p: nat) {
    forall e <- es :: e.Call? && e.p == p
  }

  lemma OneCloser(s: State, p: nat, e: Event)
    requires Safe(s) && p in s.procs && CanGo(s, p) && !s.procs[p].Attached? && e.Call? && e.p == p
    ensures var r := Next(s, e);
            && p in r.procs && r.procs == s.procs[p := r.procs[p]] && CanGo(r, p)
            && Left(r.procs[p]) < Left(s.procs[p])
            && (r.segment == s.segment || (s.segment.None? && r.segment == Some(e.id)))
  {
    hide SegmentsOk, Holders, Guarding, Waiting;
    InProtocol(s, p);
  }

  /** What a state says about one process. */
  lemma InProtocol(s: State, p: nat)
    requires Safe(s) && p in s.procs
    ensures p in s.undo && (s.sem.None? ==> s.procs[p].Start? || s.procs[p].Dead?)
    ensures s.sem.Some? && Holds(s.procs[p]) ==> s.sem.value.initialised && s.sem.value.value == 0
    ensures s.sem.Some? && s.procs[p].Creating? ==> !s.sem.value.initialised
  {
    hide SegmentsOk;
    if s.sem.Some? && s.sem.value.initialised && Holds(s.procs[p]) {
      HoldersMove(s.procs, p, Dead);
      NotEmpty(Holders(s.procs), p);
    }
  }

  lemma NotEmpty(h: set<nat>, p: nat)
    requires p in h
    ensures |h| >= 1
  {
  }

  /** A process that nothing keeps waiting is attached and out of the lock after a few calls of its
      own: four if it has the lock already. It has the segment that there was, or else the one that
      it has made, which is the only one. */
  lemma {:induction false} Attaches(s: State, p: nat, es: seq<Event>) returns (k: nat, i: nat)
    requires Safe(s) && p in s.procs && CanGo(s, p) && OwnCalls(es, p) && |es| >= Left(s.procs[p])
    ensures k <= |es| && k <= Left(s.procs[p])
    ensures var r := Run(s, es[..k]);
            && r.procs == s.procs[p := Attached(i)] && r.segment == Some(i) && r.creations == 1
            && r.sem.Some? && r.sem.value.value == 1
            && if s.segment.Some? then s.segment == Some(i) else exists j :: 0 <= j < k && es[j].id == i
    decreases Left(s.procs[p])
  {
    hide Safe, Next, CanGo, Left;
    if s.procs[p].Attached? {
      k, i := 0, s.procs[p].id;
      AlreadyAttached(s, p);
    } else {
      NotThere(s.procs[p]);
      assert es[0] in es;
      OneCloser(s, p, es[0]);
      var next := Next(s, es[0]);
      NextIsSafe(s, es[0]);
      assert forall e <- es[1..] :: e in es;
      k, i := Attaches(next, p, es[1..]);
      assert es[..k + 1][0] == es[0] && es[..k + 1][1..] == es[1..][..k];
      if s.segment.None? && next.segment.None? {
        var j :| 0 <= j < k && es[1..][j].id == i;
        assert es[j + 1].id == i;
      }
      k := k + 1;
    }
  }

  lemma NotThere(pc: Process)
    ensures Left(pc) == 0 <==> pc.Attached?
  {
  }

  lemma AlreadyAttached(s: State, p: nat)
    requires Safe(s) && p in s.procs && CanGo(s, p) && s.procs[p].Attached?
    ensures s.segment == Some(s.procs[p].id) && s.creations == 1
    ensures s.sem.Some? && s.sem.value.value == 1 && s.procs == s.procs[p := s.procs[p]]
  {
  }

  /** Whoever is in the lock for the segment gets it in at most four calls. */
  lemma HolderAttaches(s: State, p: nat, es: seq<Event>) returns (k: nat, i: nat)
    requires Safe(s) && p in s.procs && OwnCalls(es, p) && |es| == 4
    requires s.procs[p].Looking? || s.procs[p].Making? || s.procs[p].Attaching? || s.procs[p].Leaving?
    ensures k <= 4
    ensures var r := Run(s, es[..k]);
            && r.procs == s.procs[p := Attached(i)] && r.segment == Some(i) && r.creations == 1
            && r.sem.Some? && r.sem.value.value == 1
            && if s.segment.Some? then s.segment == Some(i) else exists j :: 0 <= j < k && es[j].id == i
  {
    k, i := Attaches(s, p, es);
  }

  /** One process alone makes semaphore and segment, and attaches it. */
  lemma LoneProcessAttaches(p: nat, es: seq<Event>) returns (k: nat, i: nat)
    requires OwnCalls(es, p) && |es| == 8
    ensures Safe(Initial()) && k <= 8
    ensures var r := Run(Initial(), [Join(p)] + es[..k]);
            && r.procs == map[p := Attached(i)] && r.segment == Some(i) && r.creations == 1
            && r.sem.Some? && r.sem.value.value == 1 && exists j :: 0 <= j < k && es[j].id == i
  {
    InitialIsSafe();
    RunOne(Initial(), Join(p));
    var s := Next(Initial(), Join(p));
    k, i := Attaches(s, p, es);
    RunMore(Initial(), Join(p), es[..k]);
  }

  /** Later locks, too, are taken and given back when they are free. */
  lemma LocksAgain(s: State, p: nat, e: Event)
    requires Safe(s) && p in s.procs && s.procs[p].Attached? && s.sem.Some? && e.Call? && e.p == p
    ensures Safe(Next(s, e))
    ensures if s.sem.value.value < 1 then Next(s, e) == s else
              && Next(s, e).procs == s.procs[p := Inside(s.procs[p].id)] && Next(s, e).sem.value.value == 0
              && Next(Next(s, e), e).procs == s.procs && Next(Next(s, e), e).sem.value.value == 1
  {
    NextIsSafe(s, e);
  }
}
