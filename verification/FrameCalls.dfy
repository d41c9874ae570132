/** Whole calls of the frame allocator while any number of cores interleave: what a core has got by the time
    its call returns, and that whoever holds the lock gives it back. */
module FrameCalls {
  import opened Arithmetic
  import opened Frames
  import opened FrameRuns
  import opened FrameCores

  // ---- what one step does to a core -----------------------------------------------------------

  /** A step of one core leaves the others where they are. */
  lemma StepKeepsOthers(s: State, c: nat, e: FrameCores.Event, d: nat)
    requires Enabled(s, c, e) && d < |s.cores| && d != c
    ensures var s' := Next(s, c, e); |s'.cores| == |s.cores| && s'.cores[d] == s.cores[d]
  {}

  /** Where a core is during a call begun with `e`, for the run it gives up if it frees one. */
  predicate Serves(pc: Pc, e: FrameCores.Event, back: Run) {
    match e
    case CallAlloc(count) =>
      || pc == SpinAlloc(count) || pc == Search(count)
      || ((pc.Mark? || pc.Bump?) && pc.pages == Pages(count))
      || (pc.Leave? && pc.job == Want(Pages(count)))
    case CallFree(_) =>
      || pc == SpinFree(back.first, back.pages)
      || ((pc.Unmark? || pc.Drop?) && pc.first == back.first && pc.pages == back.pages)
      || (pc.Leave? && pc.job == Back(back.first, back.pages))
    case Proceed => false
  }

  /** The call that was begun is the call that is served, up to its end. */
  lemma OwnStepServes(s: State, c: nat, e: FrameCores.Event, back: Run)
    requires c < |s.cores| && Serves(s.cores[c].pc, e, back)
    ensures var s' := Advance(s, c);
            && |s'.cores| == |s.cores|
            && (!s'.cores[c].pc.Idle? ==> Serves(s'.cores[c].pc, e, back) && s'.cores[c].owned == s.cores[c].owned)
            && (Inside(s.cores[c]) ==> s'.entry == s.entry)
            && (!Inside(s.cores[c]) && Inside(s'.cores[c]) ==> !s.lock && s'.entry == s.map')
            && (s'.cores[c].pc.Idle? ==> s.cores[c].pc.Leave?)
  {}

  // ---- a call from beginning to end -----------------------------------------------------------

  /** Core c begins a call with `e` in state i of a trace and is idle again in state j, and not before. */
  ghost predicate Call(trace: seq<State>, c: nat, e: FrameCores.Event, i: nat, j: nat) {
    && i < j < |trace| && !e.Proceed?
    && Enabled(trace[i], c, e) && trace[i + 1] == Next(trace[i], c, e)
    && (forall m | i <= m <= j :: c < |trace[m].cores|)
    && (forall m | i < m < j :: !trace[m].cores[c].pc.Idle?)
    && trace[j].cores[c].pc.Idle?
  }

  /** The run a call gives up; none that matters if it allocates. */
  ghost function GivenUp(s: State, c: nat, e: FrameCores.Event): Run
    requires Enabled(s, c, e)
  {
    if e.CallFree? then s.cores[c].owned[e.i] else Run(0, 0)
  }

  /** What the core owns while the call is under way. */
  ghost function Kept(s: State, c: nat, e: FrameCores.Event): seq<Run>
    requires Enabled(s, c, e)
  {
    var owned := s.cores[c].owned;
    if e.CallFree? then owned[..e.i] + owned[e.i + 1..] else owned
  }

  /** In state t core c takes the lock, and the map is m. */
  ghost predicate Takes(trace: seq<State>, c: nat, t: nat, m: Map) {
    && t + 1 < |trace| && c < |trace[t].cores| && c < |trace[t + 1].cores|
    && !trace[t].lock && trace[t].map' == m
    && !Inside(trace[t].cores[c]) && Inside(trace[t + 1].cores[c])
  }

  /** State m of a trace finds core c serving its call, and inside only if it took the lock since. */
  ghost predicate UnderWay(trace: seq<State>, c: nat, e: FrameCores.Event, i: nat, m: nat)
    requires i < m < |trace| && Enabled(trace[i], c, e)
  {
    var s := trace[m];
    && c < |s.cores|
    && Serves(s.cores[c].pc, e, GivenUp(trace[i], c, e)) && s.cores[c].owned == Kept(trace[i], c, e)
    && (Inside(s.cores[c]) ==> exists t | i < t < m :: Takes(trace, c, t, s.entry))
  }

  lemma OneStepOn(trace: seq<State>, c: nat, e: FrameCores.Event, i: nat, m: nat)
    requires IsTrace(trace) && i < m < |trace| - 1 && Enabled(trace[i], c, e)
    requires UnderWay(trace, c, e, i, m) && c < |trace[m + 1].cores|
    requires !trace[m + 1].cores[c].pc.Idle?
    ensures UnderWay(trace, c, e, i, m + 1)
  {
    hide Serves, Inv, IsTrace, Takes;
    var s, back := trace[m], GivenUp(trace[i], c, e);
    StepOf(trace, m);
    var d: nat, x :| Enabled(s, d, x) && trace[m + 1] == Next(s, d, x);
    TraceInv(trace, m);
    if d != c {
      StepKeepsOthers(s, d, x, c);
      if Inside(s.cores[c]) {
        var t :| i < t < m && Takes(trace, c, t, s.entry);
        EntryKept(s, c, d, x);
        assert Takes(trace, c, t, trace[m + 1].entry);
      }
    } else {
      NotIdle(s.cores[c].pc, e, back);
      OwnStepServes(s, c, e, back);
      if Inside(s.cores[c]) {
        var t :| i < t < m && Takes(trace, c, t, s.entry);
        assert Takes(trace, c, t, trace[m + 1].entry);
      } else if Inside(trace[m + 1].cores[c]) {
        TookIt(trace, c, m);
      }
    }
  }

  lemma StepOf(trace: seq<State>, m: nat)
    requires IsTrace(trace) && m < |trace| - 1
    ensures StepsTo(trace[m], trace[m + 1])
  {}

  lemma NotIdle(pc: Pc, e: FrameCores.Event, back: Run)
    requires Serves(pc, e, back)
    ensures !pc.Idle?
  {}

  lemma TookIt(trace: seq<State>, c: nat, m: nat)
    requires m + 1 < |trace| && c < |trace[m].cores| && c < |trace[m + 1].cores|
    requires !trace[m].lock && !Inside(trace[m].cores[c]) && Inside(trace[m + 1].cores[c])
    ensures Takes(trace, c, m, trace[m].map')
  {}

  /** Nobody takes the lock while c is inside. */
  lemma EntryKept(s: State, c: nat, d: nat, x: FrameCores.Event)
    requires Inv(s) && c < |s.cores| && Inside(s.cores[c]) && Enabled(s, d, x) && d != c
    ensures Next(s, d, x).entry == s.entry
  {
    InvAt(s, c);
    hide Inv;
  }

  lemma CallBegins(s: State, c: nat, e: FrameCores.Event)
    requires Enabled(s, c, e) && !e.Proceed?
    ensures var s' := Next(s, c, e);
            && |s'.cores| == |s.cores| && !Inside(s'.cores[c]) && !s'.cores[c].pc.Idle?
            && Serves(s'.cores[c].pc, e, GivenUp(s, c, e)) && s'.cores[c].owned == Kept(s, c, e)
  {}

  lemma Begun(trace: seq<State>, c: nat, e: FrameCores.Event, i: nat)
    requires i + 1 < |trace| && Enabled(trace[i], c, e) && c < |trace[i + 1].cores|
    requires var core := trace[i + 1].cores[c];
             !Inside(core) && Serves(core.pc, e, GivenUp(trace[i], c, e)) && core.owned == Kept(trace[i], c, e)
    ensures UnderWay(trace, c, e, i, i + 1)
  {
    hide Serves, GivenUp, Kept, Enabled;
  }

  lemma {:induction false} CallUnderWay(trace: seq<State>, c: nat, e: FrameCores.Event, i: nat, j: nat, m: nat)
    requires IsTrace(trace) && Call(trace, c, e, i, j) && i < m < j
    ensures UnderWay(trace, c, e, i, m)
    decreases m
  {
    hide IsTrace, UnderWay, Enabled, Next;
    if m == i + 1 {
      CallBegins(trace[i], c, e);
      Begun(trace, c, e, i);
    } else {
      CallUnderWay(trace, c, e, i, j, m - 1);
      OneStepOn(trace, c, e, i, m - 1);
    }
  }

  /** The last step of a call is its own, out of Leave. */
  lemma LastStep(trace: seq<State>, c: nat, e: FrameCores.Event, i: nat, j: nat)
    requires IsTrace(trace) && Call(trace, c, e, i, j)
    ensures i < j - 1 < |trace| && c < |trace[j - 1].cores| && trace[j - 1].cores[c].pc.Leave?
    ensures Enabled(trace[i], c, e) && Inside(trace[j - 1].cores[c]) && j < |trace|
    ensures trace[j] == Advance(trace[j - 1], c)
  {
    CallBegins(trace[i], c, e);
    StepOf(trace, j - 1);
    hide IsTrace, Serves, GivenUp, Kept;
    var s := trace[j - 1];
    var d: nat, x :| Enabled(s, d, x) && trace[j - 1 + 1] == Next(s, d, x);
    if d != c {
      StepKeepsOthers(s, d, x, c);
    } else {
      LeavesLast(s, c, x);
    }
  }

  lemma LeavesLast(s: State, c: nat, x: FrameCores.Event)
    requires Enabled(s, c, x) && !s.cores[c].pc.Idle?
    ensures x.Proceed? && Next(s, c, x) == Advance(s, c) && |Advance(s, c).cores| == |s.cores|
    ensures Advance(s, c).cores[c].pc.Idle? ==> s.cores[c].pc.Leave?
  {}

  /** From m0 to m, with the answer `got` behind what is kept: one sequential operation. */
  ghost predicate Outcome(m0: Map, m: Map, e: FrameCores.Event, back: Run, kept: seq<Run>, got: seq<Run>) {
    match e
    case CallAlloc(count) =>
      var (r, k) := AllocRange(m0, true, Pages(count));
      m == r && got == if k == 0 then kept else kept + [Run(k, Pages(count))]
    case CallFree(_) => m == FreeRange(m0, back.first, back.pages) && got == kept
    case Proceed => true
  }

  lemma Returns(s: State, c: nat, e: FrameCores.Event, back: Run)
    requires c < |s.cores| && s.cores[c].pc.Leave? && Serves(s.cores[c].pc, e, back)
    requires OnTheWay(s.entry, s.map', s.cores[c].pc)
    ensures var s' := Advance(s, c);
            !s'.lock && |s'.cores| == |s.cores| && s'.map' == s.map' &&
            Outcome(s.entry, s'.map', e, back, s.cores[c].owned, s'.cores[c].owned)
  {
    hide AllocRange, FreeRange;
    assert s.cores[c].owned + [] == s.cores[c].owned;
  }

  /** The call took the lock once, with the map m0, and leaves with what one sequential operation makes of
      m0 and with its answer. */
  lemma CallEnds(trace: seq<State>, c: nat, e: FrameCores.Event, i: nat, j: nat) returns (t: nat)
    requires IsTrace(trace) && Call(trace, c, e, i, j)
    ensures i < t < j && Takes(trace, c, t, trace[t].map') && Ok(trace[t].map') && !trace[j].lock
    ensures Outcome(trace[t].map', trace[j].map', e, GivenUp(trace[i], c, e), Kept(trace[i], c, e),
                    trace[j].cores[c].owned)
  {
    hide *;
    LastStep(trace, c, e, i, j);
    CallUnderWay(trace, c, e, i, j, j - 1);
    BodyOnTheWay(trace, c, j - 1);
    t := LockTaken(trace, c, e, i, j - 1);
    SameEntry(trace, c, t, trace[j - 1].entry);
    LockFree(trace, c, t);
    StillServed(trace, c, e, i, j - 1);
    Returns(trace[j - 1], c, e, GivenUp(trace[i], c, e));
  }

  lemma SameEntry(trace: seq<State>, c: nat, t: nat, m: Map)
    requires t < |trace| && Takes(trace, c, t, m)
    ensures trace[t].map' == m && c < |trace[t].cores|
  {}

  lemma StillServed(trace: seq<State>, c: nat, e: FrameCores.Event, i: nat, m: nat)
    requires i < m < |trace| && Enabled(trace[i], c, e) && UnderWay(trace, c, e, i, m)
    ensures var s := trace[m];
            && c < |s.cores| && Serves(s.cores[c].pc, e, GivenUp(trace[i], c, e))
            && s.cores[c].owned == Kept(trace[i], c, e)
  {
    hide Enabled, Serves, Kept, GivenUp, Inside;
  }

  lemma BodyOnTheWay(trace: seq<State>, c: nat, m: nat)
    requires IsTrace(trace) && m < |trace| && c < |trace[m].cores| && Inside(trace[m].cores[c])
    ensures OnTheWay(trace[m].entry, trace[m].map', trace[m].cores[c].pc)
  {
    TraceOnTheWay(trace, m);
    hide IsTrace, OnTheWay;
  }

  lemma LockTaken(trace: seq<State>, c: nat, e: FrameCores.Event, i: nat, m: nat) returns (t: nat)
    requires i < m < |trace| && Enabled(trace[i], c, e) && UnderWay(trace, c, e, i, m)
    requires c < |trace[m].cores| && Inside(trace[m].cores[c])
    ensures i < t < m && Takes(trace, c, t, trace[m].entry)
  {
    hide Enabled, Takes, Serves, Kept, GivenUp, Inside;
    t :| i < t < m && Takes(trace, c, t, trace[m].entry);
  }

  lemma LockFree(trace: seq<State>, c: nat, t: nat)
    requires IsTrace(trace) && t < |trace| && Takes(trace, c, t, trace[t].map')
    ensures Ok(trace[t].map')
  {
    TraceInv(trace, t);
    InvAt(trace[t], c);
  }

  // ---- what a call gets -----------------------------------------------------------------------

  /** A whole call for `count` pages, whatever the other cores do in the meantime: it takes the free lock in a
      state t with some map m0, and on return the lock is free again. The core gets nothing exactly if
      m0 has no `count` free frames in a row; else it gets the lowest such run, and of m0 exactly those
      frames of it that the 32-bit length reaches have become used. */
  lemma AllocCall(trace: seq<State>, c: nat, count: nat, i: nat, j: nat) returns (t: nat)
    requires IsTrace(trace) && Call(trace, c, CallAlloc(count), i, j)
    ensures i < t < j && Takes(trace, c, t, trace[t].map') && !trace[j].lock && Ok(trace[j].map')
    ensures Served(trace[t].map', trace[j].map', if count == 0 then 1 else count,
                   trace[i].cores[c].owned, trace[j].cores[c].owned)
  {
    t := CallEnds(trace, c, CallAlloc(count), i, j);
    TraceInv(trace, j);
    InvAt(trace[j], c);
    hide Inv, IsTrace, Call, Served, Takes, Ok, AllocRange;
    AllocServes(trace[t].map', count, trace[i].cores[c].owned);
  }

  /** A whole call that gives up the n-th run of core c: exactly the frames of it that the 32-bit length reaches
      are cleared, and the core keeps its other runs. */
  lemma FreeCall(trace: seq<State>, c: nat, n: nat, i: nat, j: nat) returns (t: nat)
    requires IsTrace(trace) && Call(trace, c, CallFree(n), i, j)
    ensures i < t < j && Takes(trace, c, t, trace[t].map') && !trace[j].lock && Ok(trace[j].map')
    ensures var owned := trace[i].cores[c].owned;
            && n < |owned| && trace[j].cores[c].owned == owned[..n] + owned[n + 1..]
            && Changed(trace[t].map'.bits, trace[j].map'.bits, owned[n].first, owned[n].pages % TWO20, false)
  {
    t := CallEnds(trace, c, CallFree(n), i, j);
    TraceInv(trace, i);
    InvAt(trace[i], c);
    TraceInv(trace, j);
    InvAt(trace[j], c);
    hide Inv, IsTrace, Call, Takes, Ok;
    var r := trace[i].cores[c].owned[n];
    MarkFreeRangeBits(trace[t].map', r.first, r.pages % TWO20);
  }

  // ---- the lock is given back -----------------------------------------------------------------

  function Todo(done: nat, pages: nat): nat {
    if done < pages % TWO20 then pages % TWO20 - done else 0
  }

  /** How many of its own steps a core is away from clearing the lock flag, at most. */
  function Rank(pc: Pc): nat {
    match pc
    case Search(count) => 2 * (Pages(count) % TWO20) + 3
    case Mark(_, done, pages) => 2 * Todo(done, pages) + 2
    case Bump(_, done, pages) => 2 * Todo(done + 1, pages) + 3
    case Unmark(_, done, pages) => 2 * Todo(done, pages) + 2
    case Drop(_, done, pages) => 2 * Todo(done + 1, pages) + 3
    case Leave(_, _) => 1
    case _ => 0
  }

  /** Each step of the holder brings it nearer to the end, and the end frees the lock. */
  lemma HolderStep(s: State, c: nat)
    requires c < |s.cores| && Inside(s.cores[c])
    ensures Rank(s.cores[c].pc) < 2 * TWO20 + 4
    ensures var s' := Advance(s, c);
            && |s'.cores| == |s.cores| && Rank(s'.cores[c].pc) < Rank(s.cores[c].pc)
            && (Inside(s'.cores[c]) || (s'.cores[c].pc.Idle? && !s'.lock))
  {
    if s.cores[c].pc.Search? || s.cores[c].pc.Mark? || s.cores[c].pc.Bump? {
      MarkerStep(s, c);
    } else {
      FreerStep(s, c);
    }
    hide Advance;
  }

  lemma MarkerStep(s: State, c: nat)
    requires c < |s.cores| && (s.cores[c].pc.Search? || s.cores[c].pc.Mark? || s.cores[c].pc.Bump?)
    ensures Rank(s.cores[c].pc) < 2 * TWO20 + 4
    ensures var s' := Advance(s, c);
            |s'.cores| == |s.cores| && Rank(s'.cores[c].pc) < Rank(s.cores[c].pc) && Inside(s'.cores[c])
  {
    hide FirstFit, Todo, FreeCount, Pages;
    match s.cores[c].pc
    case Search(count) => TodoIs(0, Pages(count));
    case Mark(_, done, pages) => TodoIs(done, pages);
    case Bump(_, done, pages) => TodoIs(done + 1, pages);
  }

  lemma FreerStep(s: State, c: nat)
    requires c < |s.cores| && (s.cores[c].pc.Unmark? || s.cores[c].pc.Drop? || s.cores[c].pc.Leave?)
    ensures Rank(s.cores[c].pc) < 2 * TWO20 + 4
    ensures var s' := Advance(s, c);
            && |s'.cores| == |s.cores| && Rank(s'.cores[c].pc) < Rank(s.cores[c].pc)
            && (Inside(s'.cores[c]) || (s'.cores[c].pc.Idle? && !s'.lock))
  {
    hide Todo;
    match s.cores[c].pc
    case Unmark(_, done, pages) => TodoIs(done, pages);
    case Drop(_, done, pages) => TodoIs(done + 1, pages);
    case Leave(_, _) =>
  }

  lemma TodoIs(done: nat, pages: nat)
    ensures Todo(done, pages) <= pages % TWO20 < TWO20 && (done == 0 ==> Todo(done, pages) == pages % TWO20)
    ensures done < pages % TWO20 ==> Todo(done, pages) == Todo(done + 1, pages) + 1
  {}

  /** n steps of core c alone, or fewer if it is idle before. */
  ghost function Alone(s: State, c: nat, n: nat): State
    requires c < |s.cores|
    decreases n
  {
    if n == 0 || s.cores[c].pc.Idle? then s
    else
      var s' := Advance(s, c);
      if c < |s'.cores| then Alone(s', c, n - 1) else s
  }

  /** Whoever is inside can always go on, and has freed the lock after boundedly many steps of its own. */
  lemma {:induction false} HolderFrees(s: State, c: nat, n: nat)
    requires c < |s.cores| && Inside(s.cores[c]) && Rank(s.cores[c].pc) <= n
    ensures !Alone(s, c, n).lock && |Alone(s, c, n).cores| == |s.cores| && Alone(s, c, n).cores[c].pc.Idle?
    decreases n
  {
    HolderStep(s, c);
    var s' := Advance(s, c);
    hide Advance, Rank;
    if Inside(s'.cores[c]) { HolderFrees(s', c, n - 1); }
  }

  /** How often core c changed between two states of a trace. */
  ghost function Changes(trace: seq<State>, c: nat, i: nat, j: nat): nat
    requires i <= j < |trace| && forall m | i <= m <= j :: c < |trace[m].cores|
    decreases j - i
  {
    if i == j then 0
    else (if trace[i + 1].cores[c] != trace[i].cores[c] then 1 else 0) + Changes(trace, c, i + 1, j)
  }

  /** In no interleaving does a core take more than 2^21 + 3 steps while it is inside; each of its steps in
      there is a change. */
  lemma {:induction false} InsideIsBounded(trace: seq<State>, c: nat, i: nat, j: nat)
    requires IsTrace(trace) && i <= j < |trace|
    requires forall m | i <= m <= j :: c < |trace[m].cores| && Inside(trace[m].cores[c])
    ensures Changes(trace, c, i, j) + Rank(trace[j].cores[c].pc) <= Rank(trace[i].cores[c].pc) < 2 * TWO20 + 4
    decreases j - i
  {
    hide Rank, IsTrace;
    HolderStep(trace[i], c);
    if i < j {
      StepOf(trace, i);
      var d: nat, x :| Enabled(trace[i], d, x) && trace[i + 1] == Next(trace[i], d, x);
      if d != c { StepKeepsOthers(trace[i], d, x, c); }
      InsideIsBounded(trace, c, i + 1, j);
    }
  }
}
