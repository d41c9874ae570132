/** One-time construction as kernel/lib/cxxabi.cc does it (One-time Construction API, section 3.3.2 of
    the Itanium C++ ABI): any number of threads and guards, every memory access a step of its own. */
module Guards {

  /** Where a thread is: outside; spinning for the mutex; holding it and about to look at the guard, to
      mark it, or to let go because the object exists; running the initialiser; about to store that it
      has finished; about to release the mutex; or spinning inside an initialiser. */
  datatype Place = Outside | Spin(g: nat) | Check(g: nat) | Mark(g: nat) | LetGo(g: nat)
                 | Running(g: nat) | Ending(g: nat) | Unlock(g: nat) | Nested(g: nat, inner: nat)

  /** What can be seen from outside: acquire returned 1, the initialiser finished, acquire returned 0. */
  datatype Event = Granted(g: nat) | Finished(g: nat) | Told(g: nat)

  datatype State = State(mutex: bool, guard: seq<nat>, place: seq<Place>, trace: seq<Event>)

  /** A thread calls __cxa_guard_acquire, from outside or from inside an initialiser, or takes its next step. */
  datatype Move = Call(t: nat, g: nat) | Nest(t: nat, g: nat) | Go(t: nat)

  predicate Legal(s: State, m: Move) {
    m.t < |s.place| &&
    match m
    case Call(t, g) => g < |s.guard| && s.place[t].Outside?
    case Nest(t, g) => g < |s.guard| && s.place[t].Running?
    case Go(t) => !s.place[t].Outside? && (var p := s.place[t]; p.g < |s.guard|)
  }

  function Step(s: State, m: Move): State
    requires Legal(s, m)
  {
    match m
    case Call(t, g) => s.(place := s.place[t := Spin(g)])
    case Nest(t, g) => s.(place := s.place[t := Nested(s.place[t].g, g)])
    case Go(t) =>
      match s.place[t]
      case Spin(g) => if s.mutex then s else s.(mutex := true, place := s.place[t := Check(g)])
      case Check(g) => s.(place := s.place[t := if s.guard[g] == 2 then LetGo(g) else Mark(g)])
      case Mark(g) =>
        s.(guard := s.guard[g := 1], place := s.place[t := Running(g)], trace := s.trace + [Granted(g)])
      case LetGo(g) => s.(mutex := false, place := s.place[t := Outside], trace := s.trace + [Told(g)])
      case Running(g) => s.(place := s.place[t := Ending(g)], trace := s.trace + [Finished(g)])
      case Ending(g) => s.(guard := s.guard[g := 2], place := s.place[t := Unlock(g)])
      case Unlock(g) => s.(mutex := false, place := s.place[t := Outside])
      case Nested(g, inner) => if s.mutex then s else s.(mutex := true, place := s.place[t := Check(inner)])
  }

  predicate Holds(p: Place) { !p.Outside? && !p.Spin? }

  /** Thread p has been granted g and has not yet stored that it finished. */
  predicate Busy(p: Place, g: nat) { (p.Running? || p.Ending? || p.Nested?) && p.g == g }

  // ---- what a history must look like ----------------------------------------------------------

  /** No initialiser is granted twice. */
  ghost predicate Once(trace: seq<Event>) {
    forall i, j | 0 <= i < j < |trace| && trace[i].Granted? && trace[j].Granted? :: trace[i].g != trace[j].g
  }

  ghost predicate FinishedBetween(trace: seq<Event>, i: nat, j: nat)
    requires i < j <= |trace|
  {
    exists k {:trigger trace[k].Finished?} | i < k < j :: trace[k].Finished? && trace[k].g == trace[i].g
  }

  /** An initialiser has finished before the next is granted: at most one runs at a time. */
  ghost predicate OneAtATime(trace: seq<Event>) {
    forall i: nat, j: nat | i < j < |trace| && trace[i].Granted? && trace[j].Granted? :: FinishedBetween(trace, i, j)
  }

  /** Whoever is told that an object exists finds its initialiser finished. */
  ghost predicate ToldInTime(trace: seq<Event>) {
    forall j | 0 <= j < |trace| && trace[j].Told? :: Finished(trace[j].g) in trace[..j]
  }

  // ---- the invariant --------------------------------------------------------------------------

  ghost predicate Inv(s: State) {
    Machine(s) && Accounted(s) && Sound(s.trace)
  }

  ghost predicate Sound(trace: seq<Event>) {
    Once(trace) && OneAtATime(trace) && ToldInTime(trace)
  }

  /** The mutex is held by exactly one thread, the only one past the spinning, and what that thread has
      seen of its guard is so. */
  ghost predicate Machine(s: State) {
    && (s.mutex <==> exists t :: 0 <= t < |s.place| && Holds(s.place[t]))
    && OneHolder(s.place)
    && (forall t | 0 <= t < |s.place| :: Seen(s.guard, s.trace, s.place[t]))
    && (forall g: nat | g < |s.guard| && s.guard[g] == 2 :: Finished(g) in s.trace)
  }

  ghost predicate OneHolder(place: seq<Place>) {
    forall t, u | 0 <= t < u < |place| :: !Holds(place[t]) || !Holds(place[u])
  }

  predicate Seen(guard: seq<nat>, trace: seq<Event>, p: Place) {
    !p.Outside? ==>
      && p.g < |guard|
      && (p.LetGo? ==> guard[p.g] == 2) && (p.Mark? ==> guard[p.g] != 2)
      && (p.Ending? ==> Finished(p.g) in trace)
  }

  /** Every grant belongs to a finished object or to the thread that is busy with it, and while the
      initialiser has not finished that thread is still busy. */
  ghost predicate Accounted(s: State) {
    forall i: nat | i < |s.trace| && s.trace[i].Granted? ::
      && s.trace[i].g < |s.guard|
      && (s.guard[s.trace[i].g] == 2 || exists t :: 0 <= t < |s.place| && Busy(s.place[t], s.trace[i].g))
      && (FinishedBetween(s.trace, i, |s.trace|) ||
          exists t :: 0 <= t < |s.place| && Busy(s.place[t], s.trace[i].g) && !s.place[t].Ending?)
  }

  function Start(guards: nat, threads: nat): State {
    State(false, seq(guards, i => 0), seq(threads, i => Outside), [])
  }

  lemma StartInv(guards: nat, threads: nat)
    ensures Inv(Start(guards, threads))
  {}

  lemma MachineStep(s: State, m: Move)
    requires Machine(s) && Legal(s, m)
    ensures Machine(Step(s, m))
  {
    var r := Step(s, m);
    HolderStep(s, m);
    StoredStep(s, m);
    forall t | 0 <= t < |r.place| ensures Seen(r.guard, r.trace, r.place[t]) { SeenStep(s, m, t); }
    OneHolderStep(s, m);
    hide Step, OneHolder, Seen, Holds;
  }

  lemma StoredStep(s: State, m: Move)
    requires Machine(s) && Legal(s, m)
    ensures var r := Step(s, m); |r.place| == |s.place| && |r.guard| == |s.guard|
    ensures var r := Step(s, m); forall g: nat | g < |r.guard| && r.guard[g] == 2 :: Finished(g) in r.trace
  {
    hide OneHolder, Holds;
    assert Seen(s.guard, s.trace, s.place[m.t]);
  }

  lemma SeenStep(s: State, m: Move, t: nat)
    requires Machine(s) && Legal(s, m) && t < |s.place|
    ensures var r := Step(s, m); t < |r.place| && Seen(r.guard, r.trace, r.place[t])
  {
    assert Seen(s.guard, s.trace, s.place[m.t]) && Seen(s.guard, s.trace, s.place[t]);
    if t != m.t && Holds(s.place[m.t]) { Alone(s.place, m.t, t); }
  }

  lemma Alone(place: seq<Place>, t: nat, u: nat)
    requires OneHolder(place) && t < |place| && u < |place| && t != u && Holds(place[t])
    ensures !Holds(place[u])
  {
    hide Holds;
  }

  lemma OneHolderStep(s: State, m: Move)
    requires Machine(s) && Legal(s, m)
    ensures OneHolder(Step(s, m).place)
  {
    hide Seen;
    var r := Step(s, m);
    forall t | 0 <= t < |r.place| && t != m.t ensures !Holds(r.place[t]) || !Holds(r.place[m.t]) {
      if Holds(s.place[m.t]) { Alone(s.place, m.t, t); }
    }
  }

  lemma HolderStep(s: State, m: Move)
    requires Machine(s) && Legal(s, m)
    ensures var r := Step(s, m); r.mutex <==> exists t :: 0 <= t < |r.place| && Holds(r.place[t])
  {
    hide Seen, OneHolder;
    var r := Step(s, m);
    if s.mutex {
      var t :| 0 <= t < |s.place| && Holds(s.place[t]);
      if t != m.t { assert Holds(r.place[t]); }
    }
    if Holds(s.place[m.t]) {
      forall u | 0 <= u < |s.place| && u != m.t ensures !Holds(s.place[u]) { Alone(s.place, m.t, u); }
      if r.mutex { assert Holds(r.place[m.t]); }
    }
    if r.mutex && !s.mutex { assert Holds(r.place[m.t]); }
  }

  /** What a history says about earlier events does not change when it grows. */
  lemma KeepEarlier(trace: seq<Event>, more: seq<Event>)
    ensures var r := trace + more;
            && (forall j | 0 <= j <= |trace| :: r[..j] == trace[..j])
            && (forall i: nat, j: nat | i < j <= |trace| :: FinishedBetween(trace, i, j) ==> FinishedBetween(r, i, j))
            && (forall i: nat | i < |trace| :: FinishedBetween(trace, i, |trace|) ==> FinishedBetween(r, i, |r|))
  {
    var r := trace + more;
    forall i: nat, j: nat | i < j <= |trace| && FinishedBetween(trace, i, j)
      ensures FinishedBetween(r, i, j) && FinishedBetween(r, i, |r|)
    {
      var k :| i < k < j && trace[k].Finished? && trace[k].g == trace[i].g;
      assert r[k].Finished?;
    }
  }

  /** A busy thread stays as it is, or its initialiser finishes, or it stores that it has. */
  predicate Moves(p: Place, q: Place, g: nat, guard: nat, more: seq<Event>) {
    || (Busy(q, g) && q.Ending? == p.Ending?)
    || (Busy(q, g) && more == [Finished(g)])
    || (p.Ending? && guard == 2)
  }

  /** A step that grants nothing keeps the accounts. */
  lemma KeepAccounts(s: State, r: State, more: seq<Event>)
    requires Accounted(s) && r.trace == s.trace + more && |r.guard| == |s.guard| && |r.place| == |s.place|
    requires forall e | e in more :: !e.Granted?
    requires forall g: nat | g < |s.guard| && s.guard[g] == 2 :: r.guard[g] == 2
    requires forall t, g: nat | 0 <= t < |s.place| && Busy(s.place[t], g) ::
               g < |r.guard| && Moves(s.place[t], r.place[t], g, r.guard[g], more)
    ensures Accounted(r)
  {
    KeepEarlier(s.trace, more);
    forall i: nat | i < |r.trace| && r.trace[i].Granted?
      ensures r.trace[i].g < |r.guard|
      ensures r.guard[r.trace[i].g] == 2 || exists t :: 0 <= t < |r.place| && Busy(r.place[t], r.trace[i].g)
      ensures FinishedBetween(r.trace, i, |r.trace|) ||
              exists t :: 0 <= t < |r.place| && Busy(r.place[t], r.trace[i].g) && !r.place[t].Ending?
    {
      assert forall j | |s.trace| <= j < |r.trace| :: r.trace[j] in more;
      assert i < |s.trace| && r.trace[i] == s.trace[i];
      var g := s.trace[i].g;
      if s.guard[g] != 2 {
        var t :| 0 <= t < |s.place| && Busy(s.place[t], g);
        assert Moves(s.place[t], r.place[t], g, r.guard[g], more);
      }
      if !FinishedBetween(s.trace, i, |s.trace|) {
        var t :| 0 <= t < |s.place| && Busy(s.place[t], g) && !s.place[t].Ending?;
        assert Moves(s.place[t], r.place[t], g, r.guard[g], more);
        if more == [Finished(g)] { assert r.trace[|s.trace|].Finished? && r.trace[|s.trace|].g == r.trace[i].g; }
      }
    }
  }

  /** A history grows soundly by anything but a grant, if whoever is told is told the truth. */
  lemma KeepSound(trace: seq<Event>, more: seq<Event>)
    requires Sound(trace) && |more| <= 1
    requires forall e | e in more :: !e.Granted? && (e.Told? ==> Finished(e.g) in trace)
    ensures Sound(trace + more)
  {
    var r := trace + more;
    KeepEarlier(trace, more);
    assert forall i | |trace| <= i < |r| :: r[i] in more;
    assert r[..|trace|] == trace;
  }

  /** Every step but a grant. */
  lemma OtherStep(s: State, m: Move)
    requires Inv(s) && Legal(s, m) && !(m.Go? && s.place[m.t].Mark?)
    ensures Inv(Step(s, m))
  {
    hide Accounted, Sound;
    var r := Step(s, m);
    var more := if m.Go? && s.place[m.t].LetGo? then [Told(s.place[m.t].g)]
                else if m.Go? && s.place[m.t].Running? then [Finished(s.place[m.t].g)] else [];
    assert r.trace == s.trace + more;
    MachineStep(s, m);
    forall u, g: nat | 0 <= u < |s.place| && Busy(s.place[u], g)
      ensures g < |r.guard| && Moves(s.place[u], r.place[u], g, r.guard[g], more)
    {
      if u != m.t { assert r.place[u] == s.place[u]; }
    }
    KeepAccounts(s, r, more);
    KeepSound(s.trace, more);
  }

  /** Nobody is busy when a grant is made. */
  lemma AllFinished(s: State, t: nat)
    requires Inv(s) && t < |s.place| && s.place[t].Mark?
    ensures forall i: nat | i < |s.trace| && s.trace[i].Granted? ::
              && s.trace[i].g != s.place[t].g && s.trace[i].g < |s.guard| && s.guard[s.trace[i].g] == 2
              && FinishedBetween(s.trace, i, |s.trace|)
  {
    hide Sound;
    forall u, g: nat | 0 <= u < |s.place| ensures !Busy(s.place[u], g) {}
  }

  lemma GrantedStep(s: State, t: nat)
    requires Inv(s) && Legal(s, Go(t)) && s.place[t].Mark?
    ensures Inv(Step(s, Go(t)))
  {
    hide Sound;
    var r, g := Step(s, Go(t)), s.place[t].g;
    MachineStep(s, Go(t));
    AllFinished(s, t);
    KeepEarlier(s.trace, [Granted(g)]);
    assert Busy(r.place[t], g) && !r.place[t].Ending?;
    assert Accounted(r) by {
      hide Machine;
      assert forall i: nat | i < |r.trace| && r.trace[i].Granted? ::
        if i < |s.trace| then r.trace[i] == s.trace[i] else r.trace[i].g == g;
    }
    GrantSound(s.trace, g);
  }

  lemma GrantSound(trace: seq<Event>, g: nat)
    requires Sound(trace)
    requires forall i: nat | i < |trace| && trace[i].Granted? ::
               trace[i].g != g && FinishedBetween(trace, i, |trace|)
    ensures Sound(trace + [Granted(g)])
  {
    KeepEarlier(trace, [Granted(g)]);
  }

  lemma StepInv(s: State, m: Move)
    requires Inv(s) && Legal(s, m)
    ensures Inv(Step(s, m))
  {
    if m.Go? && s.place[m.t].Mark? { GrantedStep(s, m.t); } else { OtherStep(s, m); }
  }

  // ---- whole runs -----------------------------------------------------------------------------

  ghost predicate LegalRun(s: State, moves: seq<Move>)
    decreases |moves|
  {
    moves == [] || (Legal(s, moves[0]) && LegalRun(Step(s, moves[0]), moves[1..]))
  }

  function Execute(s: State, moves: seq<Move>): State
    requires LegalRun(s, moves)
    decreases |moves|
  {
    if moves == [] then s else Execute(Step(s, moves[0]), moves[1..])
  }

  lemma {:induction false} RunInv(s: State, moves: seq<Move>)
    requires Inv(s) && LegalRun(s, moves)
    ensures Inv(Execute(s, moves))
    decreases |moves|
  {
    if moves != [] {
      StepInv(s, moves[0]);
      RunInv(Step(s, moves[0]), moves[1..]);
    }
  }

  /** For any threads, guards and interleaving: no initialiser is granted twice, one has finished before
      the next is granted, and whoever is told that an object exists finds its initialiser finished. */
  lemma OneTimeConstruction(guards: nat, threads: nat, moves: seq<Move>)
    requires LegalRun(Start(guards, threads), moves)
    ensures var s := Execute(Start(guards, threads), moves);
            && Once(s.trace) && OneAtATime(s.trace) && ToldInTime(s.trace)
            && (forall t, u | 0 <= t < u < |s.place| :: !Holds(s.place[t]) || !Holds(s.place[u]))
  {
    StartInv(guards, threads);
    RunInv(Start(guards, threads), moves);
  }

  /** An initialiser that needs another guard never returns, and nobody is granted or told anything from
      then on: the mutex it waits for is its own. */
  lemma {:induction false} NestingNeverEnds(s: State, t: nat, moves: seq<Move>)
    requires Inv(s) && t < |s.place| && s.place[t].Nested? && LegalRun(s, moves)
    ensures var r := Execute(s, moves);
            r.trace == s.trace && t < |r.place| && r.place[t] == s.place[t] && r.mutex
    decreases |moves|
  {
    if moves != [] {
      StepInv(s, moves[0]);
      NestedStep(s, t, moves[0]);
      NestingNeverEnds(Step(s, moves[0]), t, moves[1..]);
    }
  }

  lemma NestedStep(s: State, t: nat, m: Move)
    requires Inv(s) && t < |s.place| && s.place[t].Nested? && Legal(s, m)
    ensures var r := Step(s, m); r.trace == s.trace && |r.place| == |s.place| && r.place[t] == s.place[t] && r.mutex
  {
    assert m.t != t ==> !Holds(s.place[m.t]);
  }

  // ---- every call has its answer --------------------------------------------------------------

  /** Thread p has called for guard g and has not been answered yet. */
  predicate Waits(p: Place, g: nat) {
    || ((p.Spin? || p.Check? || p.Mark? || p.LetGo?) && p.g == g)
    || (p.Nested? && p.inner == g)
  }

  function Waiting(place: seq<Place>, g: nat): nat {
    if place == [] then 0 else Waiting(place[..|place| - 1], g) + if Waits(place[|place| - 1], g) then 1 else 0
  }

  /** The calls for guard g that were answered: with 1, the thread having to initialise, or with 0. */
  function Answers(trace: seq<Event>, g: nat): nat {
    if trace == [] then 0
    else
      var e := trace[|trace| - 1];
      Answers(trace[..|trace| - 1], g) + if e == Granted(g) || e == Told(g) then 1 else 0
  }

  /** The calls for guard g among some moves. */
  function Calls(moves: seq<Move>, g: nat): nat {
    if moves == [] then 0
    else (if !moves[0].Go? && moves[0].g == g then 1 else 0) + Calls(moves[1..], g)
  }

  lemma {:induction false} WaitingUpdate(place: seq<Place>, t: nat, p: Place, g: nat)
    requires t < |place|
    ensures Waiting(place[t := p], g) ==
            Waiting(place, g) + (if Waits(p, g) then 1 else 0) - (if Waits(place[t], g) then 1 else 0)
  {
    var last := |place| - 1;
    if t == last {
      assert place[t := p][..last] == place[..last];
    } else {
      assert place[t := p][..last] == place[..last][t := p];
      WaitingUpdate(place[..last], t, p, g);
    }
  }

  lemma AnswersMore(trace: seq<Event>, e: Event, g: nat)
    ensures Answers(trace + [e], g) == Answers(trace, g) + if e == Granted(g) || e == Told(g) then 1 else 0
  {
    assert (trace + [e])[..|trace|] == trace;
  }

  lemma AnswerStep(s: State, m: Move, g: nat)
    requires Legal(s, m)
    ensures var r := Step(s, m);
            Waiting(r.place, g) + Answers(r.trace, g) ==
            Waiting(s.place, g) + Answers(s.trace, g) + if !m.Go? && m.g == g then 1 else 0
  {
    hide Waiting, Answers;
    var q, more := AnswerGiven(s, m, g);
    WaitingUpdate(s.place, m.t, q, g);
    if more == [] { assert s.trace + more == s.trace; } else { AnswersMore(s.trace, more[0], g); }
    hide Step, Legal, Waits;
  }

  /** A step that ends the waiting for g gives the answer. */
  lemma AnswerGiven(s: State, m: Move, g: nat) returns (q: Place, more: seq<Event>)
    requires Legal(s, m)
    ensures m.t < |s.place| && Step(s, m).place == s.place[m.t := q] && Step(s, m).trace == s.trace + more
    ensures |more| == 0 || (|more| == 1 && more == [more[0]])
    ensures var answered := more != [] && (more[0] == Granted(g) || more[0] == Told(g));
            (if Waits(q, g) then 1 else 0) + (if answered then 1 else 0) ==
            (if Waits(s.place[m.t], g) then 1 else 0) + if !m.Go? && m.g == g then 1 else 0
  {
    q := Step(s, m).place[m.t];
    more := if !m.Go? then []
            else match s.place[m.t]
                 case Mark(h) => [Granted(h)]
                 case LetGo(h) => [Told(h)]
                 case Running(h) => [Finished(h)]
                 case _ => [];
  }

  lemma {:induction false} AnswerRun(s: State, moves: seq<Move>, g: nat)
    requires LegalRun(s, moves)
    ensures var r := Execute(s, moves);
            Waiting(r.place, g) + Answers(r.trace, g) ==
            Waiting(s.place, g) + Answers(s.trace, g) + Calls(moves, g)
    decreases |moves|
  {
    hide Step, Waiting, Answers, Legal;
    if moves != [] {
      AnswerStep(s, moves[0], g);
      AnswerRun(Step(s, moves[0]), moves[1..], g);
    }
  }

  lemma {:induction false} NobodyWaits(place: seq<Place>, g: nat)
    requires forall p | p in place :: !Waits(p, g)
    ensures Waiting(place, g) == 0
  {
    if place != [] { NobodyWaits(place[..|place| - 1], g); }
  }

  lemma {:induction false} OneGrant(trace: seq<Event>, g: nat)
    requires Once(trace)
    ensures Answers(trace, g) <= Tellings(trace, g) + 1
    ensures Granted(g) !in trace ==> Answers(trace, g) == Tellings(trace, g)
  {
    if trace != [] {
      var rest := trace[..|trace| - 1];
      assert trace == rest + [trace[|trace| - 1]];
      OneGrant(rest, g);
      if Granted(g) in rest {
        var i :| 0 <= i < |rest| && rest[i] == Granted(g);
        assert trace[i].Granted?;
      }
    }
  }

  /** The calls for guard g that were told that the object exists. */
  function Tellings(trace: seq<Event>, g: nat): nat {
    if trace == [] then 0
    else Tellings(trace[..|trace| - 1], g) + if trace[|trace| - 1] == Told(g) then 1 else 0
  }

  /** Every acquire that has returned has its answer, one for one: the calls for a guard are those still waiting and
      those answered. So of n calls, all of them back, at least n - 1 were told that the object exists. */
  lemma EveryCallAnswered(guards: nat, threads: nat, moves: seq<Move>, g: nat)
    requires LegalRun(Start(guards, threads), moves)
    ensures var s := Execute(Start(guards, threads), moves);
            && Calls(moves, g) == Waiting(s.place, g) + Answers(s.trace, g)
            && Answers(s.trace, g) <= Tellings(s.trace, g) + 1
            && ((forall p | p in s.place :: !Waits(p, g)) ==> Tellings(s.trace, g) >= Calls(moves, g) - 1)
  {
    var s := Execute(Start(guards, threads), moves);
    AnswerRun(Start(guards, threads), moves, g);
    NobodyWaits(Start(guards, threads).place, g);
    OneTimeConstruction(guards, threads, moves);
    OneGrant(s.trace, g);
    if forall p | p in s.place :: !Waits(p, g) { NobodyWaits(s.place, g); }
    hide LegalRun, Execute, Waiting, Once;
  }

  // ---- progress -------------------------------------------------------------------------------

  /** How many of its own steps the holder of the mutex is away from releasing it. */
  function StepsLeft(s: State, t: nat): nat
    requires t < |s.place| && Holds(s.place[t]) && s.place[t].g < |s.guard|
  {
    match s.place[t]
    case Check(g) => if s.guard[g] == 2 then 2 else 5
    case LetGo(_) => 1
    case Mark(_) => 4
    case Running(_) => 3
    case Ending(_) => 2
    case _ => 1
  }

  predicate AllGo(moves: seq<Move>) { forall i | 0 <= i < |moves| :: moves[i].Go? }

  /** The mutex can be freed: some threads, taking steps they are in the middle of, free it. */
  ghost predicate CanFree(s: State) {
    exists moves :: AllGo(moves) && LegalRun(s, moves) && !Execute(s, moves).mutex
  }

  lemma HolderStepsOn(s: State, t: nat)
    requires Inv(s) && t < |s.place| && Holds(s.place[t]) && !s.place[t].Nested?
    ensures Legal(s, Go(t)) && StepsLeft(s, t) <= 5
    ensures var r := Step(s, Go(t));
            && t < |r.place|
            && if Holds(r.place[t]) then
                 !r.place[t].Nested? && r.place[t].g < |r.guard| && StepsLeft(r, t) == StepsLeft(s, t) - 1
               else
                 !r.mutex && StepsLeft(s, t) == 1
  {
    hide Accounted, Sound, OneHolder;
    assert Seen(s.guard, s.trace, s.place[t]);
  }

  lemma {:induction false} HolderFrees(s: State, t: nat) returns (moves: seq<Move>)
    requires Inv(s) && t < |s.place| && Holds(s.place[t]) && !s.place[t].Nested?
    ensures AllGo(moves) && LegalRun(s, moves) && !Execute(s, moves).mutex
    ensures |moves| == StepsLeft(s, t) <= 5
    decreases StepsLeft(s, t)
  {
    var r := Step(s, Go(t));
    StepInv(s, Go(t));
    HolderStepsOn(s, t);
    hide Inv, Holds, Step, StepsLeft;
    var rest := [];
    if Holds(r.place[t]) { rest := HolderFrees(r, t); } else { assert LegalRun(r, []); }
    moves := [Go(t)] + rest;
    assert moves[1..] == rest;
  }

  /** From any reachable state the mutex can be freed by steps of calls under way if and only if no
      initialiser waits for another guard. */
  lemma CanFreeIffNotNested(guards: nat, threads: nat, moves: seq<Move>)
    requires LegalRun(Start(guards, threads), moves)
    ensures var s := Execute(Start(guards, threads), moves);
            CanFree(s) <==> forall t | 0 <= t < |s.place| :: !s.place[t].Nested?
  {
    var s := Execute(Start(guards, threads), moves);
    StartInv(guards, threads);
    RunInv(Start(guards, threads), moves);
    if t :| 0 <= t < |s.place| && s.place[t].Nested? {
      forall more | LegalRun(s, more) ensures Execute(s, more).mutex { NestingNeverEnds(s, t, more); }
    } else if s.mutex {
      var h :| 0 <= h < |s.place| && Holds(s.place[h]);
      var more := HolderFrees(s, h);
    } else {
      assert AllGo([]) && LegalRun(s, []);
    }
  }

  /** A first initialiser that needs a second guard gets stuck: the state is reachable. */
  lemma NestingReachable()
    ensures var moves := [Call(0, 0), Go(0), Go(0), Go(0), Nest(0, 1)];
            && LegalRun(Start(2, 1), moves)
            && Execute(Start(2, 1), moves).place == [Nested(0, 1)] && !CanFree(Execute(Start(2, 1), moves))
  {
    NestingRun();
    hide LegalRun, Execute, CanFree, Start;
    var m := [Call(0, 0), Go(0), Go(0), Go(0), Nest(0, 1)];
    CanFreeIffNotNested(2, 1, m);
    assert Execute(Start(2, 1), m).place[0].Nested?;
  }

  lemma NestingRun()
    ensures var moves := [Call(0, 0), Go(0), Go(0), Go(0), Nest(0, 1)];
            LegalRun(Start(2, 1), moves) && Execute(Start(2, 1), moves).place == [Nested(0, 1)]
  {
    NestingSteps();
    NoMore(Step(RUNNING, Nest(0, 1)));
    hide LegalRun, Execute, Step, Start;
    assert [Nest(0, 1)][1..] == [];
    OneMore(RUNNING, [Nest(0, 1)]);
    assert [Go(0), Nest(0, 1)][1..] == [Nest(0, 1)];
    OneMore(State(true, [0, 0], [Mark(0)], []), [Go(0), Nest(0, 1)]);
    assert [Go(0), Go(0), Nest(0, 1)][1..] == [Go(0), Nest(0, 1)];
    OneMore(State(true, [0, 0], [Check(0)], []), [Go(0), Go(0), Nest(0, 1)]);
    assert [Go(0), Go(0), Go(0), Nest(0, 1)][1..] == [Go(0), Go(0), Nest(0, 1)];
    OneMore(State(false, [0, 0], [Spin(0)], []), [Go(0), Go(0), Go(0), Nest(0, 1)]);
    assert [Call(0, 0), Go(0), Go(0), Go(0), Nest(0, 1)][1..] == [Go(0), Go(0), Go(0), Nest(0, 1)];
    OneMore(Start(2, 1), [Call(0, 0), Go(0), Go(0), Go(0), Nest(0, 1)]);
  }

  const RUNNING := State(true, [1, 0], [Running(0)], [Granted(0)])

  lemma NestingSteps()
    ensures Start(2, 1) == State(false, [0, 0], [Outside], [])
    ensures Step(Start(2, 1), Call(0, 0)) == State(false, [0, 0], [Spin(0)], [])
    ensures Step(State(false, [0, 0], [Spin(0)], []), Go(0)) == State(true, [0, 0], [Check(0)], [])
    ensures Step(State(true, [0, 0], [Check(0)], []), Go(0)) == State(true, [0, 0], [Mark(0)], [])
    ensures Step(State(true, [0, 0], [Mark(0)], []), Go(0)) == RUNNING
    ensures Step(RUNNING, Nest(0, 1)).place == [Nested(0, 1)]
  {}

  lemma NoMore(s: State)
    ensures LegalRun(s, []) && Execute(s, []) == s
  {}

  lemma OneMore(s: State, moves: seq<Move>)
    requires moves != [] && Legal(s, moves[0])
    ensures LegalRun(s, moves) <==> LegalRun(Step(s, moves[0]), moves[1..])
    ensures LegalRun(s, moves) ==> Execute(s, moves) == Execute(Step(s, moves[0]), moves[1..])
  {}
}
