/** Any number of cores inside the frame allocator at once: the spin lock of
    kernel/include/hotarubi/lock.h and the bodies of physmm.cc as separate steps that interleave
    freely. Setting a bit and moving the counter are two steps, so between them the bitmap and the
    counter disagree. */
module FrameCores {
  import opened Arithmetic
  import opened Frames
  import opened FrameRuns

  datatype Pc =
    | Idle
    | SpinAlloc(count: nat)                      // alloc_page(_range), spinning in lock()
    | SpinFree(first: nat, pages: nat)           // free_page(_range), spinning in lock()
    | Search(count: nat)                         // lock held, about to look for a run
    | Mark(first: nat, done: nat, pages: nat)    // about to set bit first + done
    | Bump(first: nat, done: nat, pages: nat)    // bit first + done set, counter not yet
    | Unmark(first: nat, done: nat, pages: nat)  // about to clear bit first + done
    | Drop(first: nat, done: nat, pages: nat)    // bit first + done cleared, counter not yet
    | Leave(job: Job, result: seq<Run>)          // about to clear the lock flag

  /** What the body about to be left was called for. */
  datatype Job = Want(pages: nat) | Back(first: nat, pages: nat)

  /** A core: where it is, and the allocations it has been handed and not given back. */
  datatype Core = Core(pc: Pc, owned: seq<Run>)

  /** The lock flag and the shared bitmap; `entry` is the bitmap as the lock was last taken, kept for
      the proof only. */
  datatype State = State(lock: bool, map': Map, cores: seq<Core>, entry: Map)

  predicate Inside(c: Core) {
    !c.pc.Idle? && !c.pc.SpinAlloc? && !c.pc.SpinFree?
  }

  // ---- the steps ------------------------------------------------------------------------------

  datatype Event =
    | CallAlloc(count: nat)
    | CallFree(i: nat)
    | Proceed  // the next step of whatever call is under way

  ghost predicate Enabled(s: State, c: nat, e: Event) {
    c < |s.cores| &&
    match e
    case CallAlloc(count) => s.cores[c].pc.Idle?
    case CallFree(i) => s.cores[c].pc.Idle? && i < |s.cores[c].owned|
    case Proceed => !s.cores[c].pc.Idle?
  }

  ghost function Next(s: State, c: nat, e: Event): State
    requires Enabled(s, c, e)
  {
    var core := s.cores[c];
    match e
    case CallAlloc(count) => Go(s, c, SpinAlloc(count))
    case CallFree(i) =>
      var r := core.owned[i];
      s.(cores := s.cores[c := Core(SpinFree(r.first, r.pages), core.owned[..i] + core.owned[i + 1..])])
    case Proceed => Advance(s, c)
  }

  ghost function Go(s: State, c: nat, pc: Pc): State
    requires c < |s.cores|
  {
    s.(cores := s.cores[c := s.cores[c].(pc := pc)])
  }

  ghost function Advance(s: State, c: nat): State
    requires c < |s.cores| && !s.cores[c].pc.Idle?
  {
    var core := s.cores[c];
    var m := s.map';
    match core.pc
    case SpinAlloc(count) => if s.lock then s else Go(s.(lock := true, entry := m), c, Search(count))
    case SpinFree(first, pages) => if s.lock then s else Go(s.(lock := true, entry := m), c, Unmark(first, 0, pages))
    case Search(count) =>
      if FreeCount(m) < Pages(count) then Go(s, c, Leave(Want(Pages(count)), []))
      else
        var k := FirstFit(m.bits, true, Pages(count));
        Go(s, c, if k == 0 then Leave(Want(Pages(count)), []) else Mark(k, 0, Pages(count)))
    case Mark(first, done, pages) =>
      if done >= pages % TWO20 then Go(s, c, Leave(Want(pages), [Run(first, pages)]))
      else if first + done < |m.bits| && !m.bits[first + done] then
        Go(s.(map' := Map(m.bits[first + done := true], m.used)), c, Bump(first, done, pages))
      else Go(s, c, Mark(first, done + 1, pages))
    case Bump(first, done, pages) =>
      Go(s.(map' := Map(m.bits, m.used + 1)), c, Mark(first, done + 1, pages))
    case Unmark(first, done, pages) =>
      if done >= pages % TWO20 then Go(s, c, Leave(Back(first, pages), []))
      else if first + done < |m.bits| && m.bits[first + done] then
        Go(s.(map' := Map(m.bits[first + done := false], m.used)), c, Drop(first, done, pages))
      else Go(s, c, Unmark(first, done + 1, pages))
    case Drop(first, done, pages) =>
      Go(s.(map' := Map(m.bits, m.used - 1)), c, Unmark(first, done + 1, pages))
    case Leave(_, result) =>
      s.(lock := false, cores := s.cores[c := Core(Idle, core.owned + result)])
  }

  // ---- the invariant --------------------------------------------------------------------------

  /** The frames a call under way stands for: on their way back, or marked so far. */
  function Transit(pc: Pc): seq<Run> {
    match pc
    case SpinFree(first, pages) => [Run(first, pages)]
    case Mark(first, done, pages) => [Run(first, done)]
    case Bump(first, done, pages) => [Run(first, done + 1)]
    case Unmark(first, done, pages) =>
      if done <= pages % TWO20 then [Run(first + done, pages % TWO20 - done)] else []
    case Drop(first, done, pages) =>
      if done < pages % TWO20 then [Run(first + done + 1, pages % TWO20 - done - 1)] else []
    case Leave(_, result) => result
    case _ => []
  }

  function Holding(c: Core): seq<Run> { c.owned + Transit(c.pc) }

  ghost predicate Claims(c: Core, k: int) { Held(Holding(c), k) }

  /** How far the counter lags behind the bits at this point of a body. */
  function Lag(pc: Pc): int {
    if pc.Bump? then 1 else if pc.Drop? then -1 else 0
  }

  ghost predicate SelfDisjoint(runs: seq<Run>) {
    forall i, j, k {:trigger Holds(runs[i], k), Holds(runs[j], k)} |
      0 <= i < j < |runs| && Holds(runs[i], k) :: !Holds(runs[j], k)
  }

  /** What holds of one core against the shared bitmap. */
  ghost predicate CoreOk(bits: seq<bool>, c: Core) {
    && SelfDisjoint(Holding(c))
    && (forall r | r in c.owned :: 1 <= r.first && 1 <= r.pages)
    && (forall k {:trigger Claims(c, k)} | Claims(c, k) :: 1 <= k < |bits| && bits[k])
    && PcOk(bits, c.pc)
  }

  ghost predicate PcOk(bits: seq<bool>, pc: Pc) {
    match pc
    case SpinFree(first, pages) => 1 <= first && 1 <= pages
    case Mark(first, done, pages) => done <= pages % TWO20 && Reserved(bits, first, done, pages)
    case Bump(first, done, pages) => done < pages % TWO20 && Reserved(bits, first, done + 1, pages)
    case Unmark(first, done, pages) => done <= pages % TWO20 && 1 <= first
    case Drop(first, done, pages) =>
      done < pages % TWO20 && 1 <= first && first + done < |bits| && !bits[first + done]
    case Leave(_, result) => forall r | r in result :: 1 <= r.first && 1 <= r.pages
    case _ => true
  }

  /** The part of a found run that is still to be marked lies in the map and is free. */
  ghost predicate Reserved(bits: seq<bool>, first: nat, done: nat, pages: nat) {
    && 1 <= first && 1 <= pages && first + pages <= |bits|
    && forall k | first + done <= k < first + pages :: !bits[k]
  }

  ghost predicate ClaimsApart(a: Core, b: Core) {
    forall k {:trigger Claims(a, k)} {:trigger Claims(b, k)} | Claims(a, k) :: !Claims(b, k)
  }

  ghost predicate MutualExclusion(s: State) {
    && (forall c | 0 <= c < |s.cores| && Inside(s.cores[c]) :: s.lock)
    && (forall c, d | 0 <= c < d < |s.cores| && Inside(s.cores[c]) :: !Inside(s.cores[d]))
  }

  /** The counter agrees with the bits, but for the frame a body has dealt with and not counted yet. */
  ghost predicate CounterOk(s: State) {
    && (!s.lock ==> s.map'.used == CountUsed(s.map'.bits))
    && (forall c | 0 <= c < |s.cores| && Inside(s.cores[c]) ::
          s.map'.used + Lag(s.cores[c].pc) == CountUsed(s.map'.bits))
  }

  ghost predicate CoresApart(s: State) {
    forall c, d | 0 <= c < |s.cores| && 0 <= d < |s.cores| && c != d :: ClaimsApart(s.cores[c], s.cores[d])
  }

  ghost predicate Inv(s: State) {
    && 32 <= |s.map'.bits| < TWO32 && |s.map'.bits| % 32 == 0 && s.map'.bits[0]
    && MutualExclusion(s)
    && CounterOk(s)
    && (forall c | 0 <= c < |s.cores| :: CoreOk(s.map'.bits, s.cores[c]))
    && CoresApart(s)
  }

  /** A start: nobody inside, nothing owned, the map as init leaves it. */
  ghost predicate Init(s: State) {
    && !s.lock && Ok(s.map')
    && forall c | 0 <= c < |s.cores| :: s.cores[c] == Core(Idle, [])
  }

  lemma InitInv(s: State)
    requires Init(s)
    ensures Inv(s)
  {
    forall c | 0 <= c < |s.cores| ensures forall k :: !Claims(s.cores[c], k) {}
  }

  // ---- preservation ---------------------------------------------------------------------------

  /** One core moves from `before` to `after` while the bits go from bits to bits': it may claim only
      what it claimed already or what was free, and may clear only what it claimed. */
  ghost predicate Moves(bits: seq<bool>, before: Core, bits': seq<bool>, after: Core) {
    && |bits'| == |bits|
    && CoreOk(bits', after)
    && (forall k {:trigger Claims(after, k)} | Claims(after, k) ::
          Claims(before, k) || (0 <= k < |bits| && !bits[k]))
    && (forall k | 0 <= k < |bits| && bits[k] && !bits'[k] :: Claims(before, k))
  }

  /** What the invariant says of one core. */
  lemma InvAt(s: State, c: nat)
    requires Inv(s) && c < |s.cores|
    ensures CoreOk(s.map'.bits, s.cores[c]) && 32 <= |s.map'.bits| && s.map'.bits[0]
    ensures !s.lock ==> Ok(s.map') && !Inside(s.cores[c])
    ensures Inside(s.cores[c]) ==> s.lock && s.map'.used + Lag(s.cores[c].pc) == CountUsed(s.map'.bits)
  {
    hide CoreOk, ClaimsApart, CoresApart;
  }

  /** The lock stays with whoever is inside. */
  lemma Exclusion(s: State, c: nat, s': State)
    requires MutualExclusion(s) && c < |s.cores| == |s'.cores| && s'.cores == s.cores[c := s'.cores[c]]
    requires Inside(s'.cores[c]) ==> s'.lock
    requires Inside(s'.cores[c]) || s'.lock != s.lock ==> Inside(s.cores[c]) || !s.lock
    ensures MutualExclusion(s')
    ensures Inside(s.cores[c]) ==> forall d | 0 <= d < |s.cores| && d != c :: !Inside(s.cores[d])
  {
    hide Inside;
    assert forall d | 0 <= d < |s.cores| && d != c :: !Inside(s.cores[c]) || !Inside(s.cores[d]);
  }

  lemma Counted(s: State, c: nat, s': State)
    requires MutualExclusion(s) && CounterOk(s)
    requires c < |s.cores| == |s'.cores| && s'.cores == s.cores[c := s'.cores[c]]
    requires s'.map' != s.map' ==> Inside(s.cores[c])
    requires Inside(s.cores[c]) ==> forall d | 0 <= d < |s.cores| && d != c :: !Inside(s.cores[d])
    requires !s'.lock || Inside(s'.cores[c]) ==> s'.map'.used + Lag(s'.cores[c].pc) == CountUsed(s'.map'.bits)
    requires !s'.lock ==> !Inside(s'.cores[c])
    ensures CounterOk(s')
  {
    hide CountUsed;
    forall d | 0 <= d < |s'.cores| && Inside(s'.cores[d])
      ensures s'.map'.used + Lag(s'.cores[d].pc) == CountUsed(s'.map'.bits)
    {
      if d != c { assert s'.cores[d] == s.cores[d]; }
    }
  }

  lemma OthersUnmoved(bits: seq<bool>, before: Core, bits': seq<bool>, after: Core, other: Core)
    requires CoreOk(bits, other) && ClaimsApart(before, other) && Moves(bits, before, bits', after)
    requires bits' != bits ==> !Inside(other)
    ensures CoreOk(bits', other)
    ensures ClaimsApart(after, other) && ClaimsApart(other, after)
  {
    hide SelfDisjoint, Claims, Reserved, Holding;
    forall k | Claims(other, k) ensures !Claims(after, k) && 1 <= k < |bits'| && bits'[k] {
      assert bits[k];
    }
  }

  lemma Reassemble(s: State, c: nat, s': State)
    requires Inv(s) && c < |s.cores| == |s'.cores| && s'.cores == s.cores[c := s'.cores[c]]
    requires Moves(s.map'.bits, s.cores[c], s'.map'.bits, s'.cores[c])
    requires s'.map' != s.map' ==> Inside(s.cores[c])
    requires Inside(s'.cores[c]) ==> s'.lock
    requires Inside(s'.cores[c]) || s'.lock != s.lock ==> Inside(s.cores[c]) || !s.lock
    requires !s'.lock || Inside(s'.cores[c]) ==> s'.map'.used + Lag(s'.cores[c].pc) == CountUsed(s'.map'.bits)
    ensures Inv(s')
  {
    hide Inside, ClaimsApart, Claims, SelfDisjoint, Holding, PcOk, Lag, CountUsed, CounterOk, MutualExclusion;
    Exclusion(s, c, s');
    Counted(s, c, s');
    assert s'.map'.bits[0] by { InvAt(s, c); assert !Claims(s.cores[c], 0); }
    assert CoreOk(s'.map'.bits, s'.cores[c]);
    hide CoreOk, Moves;
    forall d | 0 <= d < |s.cores| && d != c
      ensures CoreOk(s'.map'.bits, s'.cores[d])
      ensures ClaimsApart(s'.cores[c], s'.cores[d]) && ClaimsApart(s'.cores[d], s'.cores[c])
    {
      OthersUnmoved(s.map'.bits, s.cores[c], s'.map'.bits, s'.cores[c], s.cores[d]);
    }
  }

  /** `after` is at work on `bits`, claims nothing that `before` did not, and no frame twice. */
  ghost predicate Keeps(before: Core, after: Core) {
    && SelfDisjoint(Holding(after))
    && (forall k {:trigger Claims(after, k)} | Claims(after, k) :: Claims(before, k))
  }

  /** A move that leaves the bits alone. */
  lemma KeepsMoves(bits: seq<bool>, before: Core, after: Core)
    requires CoreOk(bits, before) && Keeps(before, after)
    requires PcOk(bits, after.pc) && forall r | r in after.owned :: 1 <= r.first && 1 <= r.pages
    ensures Moves(bits, before, bits, after)
  {
    hide SelfDisjoint, Claims, Holding, PcOk;
  }

  lemma SameHolding(before: Core, after: Core)
    requires SelfDisjoint(Holding(before)) && Holding(after) == Holding(before)
    ensures Keeps(before, after)
  {
    forall k | Claims(after, k) ensures Claims(before, k) { assert Held(Holding(before), k); }
  }

  /** A core whose transit run shrinks or goes. */
  lemma ShrinkTransit(before: Core, after: Core)
    requires SelfDisjoint(Holding(before)) && after.owned == before.owned
    requires |Transit(after.pc)| == 0 ||
             (|Transit(after.pc)| == 1 && |Transit(before.pc)| == 1 &&
              forall k | Holds(Transit(after.pc)[0], k) :: Holds(Transit(before.pc)[0], k))
    ensures Keeps(before, after)
  {
    hide Transit, Holds;
    var h, g := Holding(after), Holding(before);
    forall k, j {:trigger Holds(h[j], k)} | 0 <= j < |h| && Holds(h[j], k)
      ensures j < |g| && Holds(g[j], k)
    {
      if j < |before.owned| { assert h[j] == g[j]; }
    }
    forall k | Claims(after, k) ensures Claims(before, k) {
      var j :| 0 <= j < |h| && Holds(h[j], k);
      assert Holds(g[j], k);
    }
  }

  /** A core that starts on a run of which it holds nothing yet. */
  lemma EmptyTransit(before: Core, after: Core)
    requires SelfDisjoint(Holding(before)) && after.owned == before.owned && Transit(before.pc) == []
    requires |Transit(after.pc)| == 1 && forall k :: !Holds(Transit(after.pc)[0], k)
    ensures Keeps(before, after)
  {
    hide Transit, Holds;
    var h, g := Holding(after), Holding(before);
    forall k, j {:trigger Holds(h[j], k)} | 0 <= j < |h| && Holds(h[j], k)
      ensures j < |g| && Holds(g[j], k)
    {
      if j < |before.owned| { assert h[j] == g[j]; }
    }
    forall k | Claims(after, k) ensures Claims(before, k) {
      var j :| 0 <= j < |h| && Holds(h[j], k);
      assert Holds(g[j], k);
    }
  }

  /** A free puts one owned run on its way back. */
  lemma MoveToTransit(before: Core, i: nat)
    requires SelfDisjoint(Holding(before)) && before.pc.Idle? && i < |before.owned|
    ensures var r := before.owned[i];
            Keeps(before, Core(SpinFree(r.first, r.pages), before.owned[..i] + before.owned[i + 1..]))
  {
    var r, n := before.owned[i], |before.owned|;
    var after := Core(SpinFree(r.first, r.pages), before.owned[..i] + before.owned[i + 1..]);
    var h, g := Holding(after), Holding(before);
    assert g == before.owned;
    forall j | 0 <= j < n ensures h[j] == g[if j < i then j else if j == n - 1 then i else j + 1] {}
    hide Holds, Holding;
    forall k | Claims(after, k) ensures Claims(before, k) {
      var j :| 0 <= j < |h| && Holds(h[j], k);
      assert Holds(g[if j < i then j else if j == n - 1 then i else j + 1], k);
    }
    forall a, b, k | 0 <= a < b < n && Holds(h[a], k) ensures !Holds(h[b], k) {
      var a0 := if a < i then a else if a == n - 1 then i else a + 1;
      var b0 := if b < i then b else if b == n - 1 then i else b + 1;
      assert a0 != b0;
      assert Holds(g[a0], k);
      var lo, hi := if a0 < b0 then a0 else b0, if a0 < b0 then b0 else a0;
      assert Holds(g[lo], k) ==> !Holds(g[hi], k);
    }
  }

  /** A call begins: an allocation claims nothing; a free puts one owned run on its way back. */
  lemma CallStep(s: State, c: nat, e: Event)
    requires Inv(s) && Enabled(s, c, e) && !e.Proceed?
    ensures Inv(Next(s, c, e))
  {
    var before, s' := s.cores[c], Next(s, c, e);
    var after := s'.cores[c];
    InvAt(s, c);
    hide Inv, Ok, Claims, Keeps, Moves, SelfDisjoint;
    match e
    case CallAlloc(count) =>
      assert Holding(after) == Holding(before);
      SameHolding(before, after);
    case CallFree(i) =>
      MoveToTransit(before, i);
    hide Holding;
    KeepsMoves(s.map'.bits, before, after);
    Reassemble(s, c, s');
  }

  /** Taking the lock, a failed attempt, and giving it up. */
  lemma LockStep(s: State, c: nat)
    requires Inv(s) && Enabled(s, c, Proceed)
    requires s.cores[c].pc.SpinAlloc? || s.cores[c].pc.SpinFree? || s.cores[c].pc.Leave?
    ensures Inv(Advance(s, c))
  {
    var s' := Advance(s, c);
    var before, after := s.cores[c], s'.cores[c];
    if s' != s {
      InvAt(s, c);
      hide Inv, Claims, Keeps, Moves, SelfDisjoint;
      if before.pc.SpinFree? {
        ShrinkTransit(before, after);
      } else {
        assert Holding(after) == Holding(before);
        SameHolding(before, after);
      }
      hide Holding;
      KeepsMoves(s.map'.bits, before, after);
      Reassemble(s, c, s');
    }
  }

  lemma SearchStep(s: State, c: nat)
    requires Inv(s) && Enabled(s, c, Proceed) && s.cores[c].pc.Search?
    ensures Inv(Advance(s, c))
  {
    var s' := Advance(s, c);
    var before, after := s.cores[c], s'.cores[c];
    var bits, n := s.map'.bits, Pages(before.pc.count);
    InvAt(s, c);
    hide Inv, Claims, Keeps, Moves, SelfDisjoint, FirstFit;
    if after.pc.Mark? {
      FoundReserved(bits, n);
      EmptyTransit(before, after);
    } else {
      ShrinkTransit(before, after);
    }
    hide Holding;
    KeepsMoves(bits, before, after);
    Reassemble(s, c, s');
  }

  lemma FoundReserved(bits: seq<bool>, num: nat)
    requires 1 <= num && FirstFit(bits, true, num) != 0
    ensures Reserved(bits, FirstFit(bits, true, num), 0, num)
  {
    var k := FirstFit(bits, true, num);
    RunEnd(bits, true, k, num);
    forall j | k <= j < k + num ensures !bits[j] { assert !Peek(bits, true, j); }
  }

  /** Setting the next bit of a found run: the new claim is a frame that was free. */
  lemma GrowTransit(bits: seq<bool>, before: Core)
    requires CoreOk(bits, before) && before.pc.Mark? && before.pc.done < before.pc.pages % TWO20
    ensures var f, n := before.pc.first, before.pc.done;
            && f + n < |bits| && !bits[f + n]
            && Moves(bits, before, bits[f + n := true], Core(Bump(f, n, before.pc.pages), before.owned))
  {
    var f, n := before.pc.first, before.pc.done;
    Divide(before.pc.pages, TWO20);
    var after := Core(Bump(f, n, before.pc.pages), before.owned);
    var bits' := bits[f + n := true];
    assert PcOk(bits', after.pc);
    var h, g := Holding(after), Holding(before);
    var m := |before.owned|;
    assert h[m] == Run(f, n + 1) && g[m] == Run(f, n);
    forall k, j {:trigger Holds(h[j], k)} | 0 <= j < |h| && Holds(h[j], k)
      ensures Holds(g[j], k) || (j == m && k == f + n)
    {
      if j < m { assert h[j] == g[j]; }
    }
    hide Holds, Holding, PcOk;
    forall k | Claims(after, k)
      ensures Claims(before, k) || k == f + n
      ensures 1 <= k < |bits| && bits'[k]
    {
      var j :| 0 <= j < |h| && Holds(h[j], k);
      if Holds(g[j], k) { assert Claims(before, k); }
    }
    forall a, b, k | 0 <= a < b < |h| && Holds(h[a], k) ensures !Holds(h[b], k) {
      assert Holds(g[a], k);
      assert Claims(before, k);
      assert !Holds(g[b], k);
    }
  }

  /** The move of a body between two of its steps. */
  lemma BodyMove(s: State, c: nat, m: Map, after: Core)
    requires Inv(s) && c < |s.cores| && Inside(s.cores[c]) && Inside(after)
    requires Moves(s.map'.bits, s.cores[c], m.bits, after)
    requires m.used + Lag(after.pc) == CountUsed(m.bits)
    ensures Inv(s.(map' := m, cores := s.cores[c := after]))
  {
    InvAt(s, c);
    hide Inv, Moves, CoreOk, Inside, Lag, CountUsed;
    Reassemble(s, c, s.(map' := m, cores := s.cores[c := after]));
  }

  lemma MarkStep(s: State, c: nat)
    requires Inv(s) && Enabled(s, c, Proceed) && s.cores[c].pc.Mark?
    ensures Inv(Advance(s, c))
  {
    var bits, before, after := s.map'.bits, s.cores[c], Advance(s, c).cores[c];
    var Mark(first, done, pages) := before.pc;
    InvAt(s, c);
    hide Inv, Keeps, Moves, SelfDisjoint, Claims, CountUsed, Held, Holding;
    if done >= pages % TWO20 {
      Marked(bits, before);
      BodyMove(s, c, s.map', after);
    } else {
      GrowTransit(bits, before);
      hide CoreOk, Transit;
      CountUpdate(bits, first + done, true);
      BodyMove(s, c, Map(bits[first + done := true], s.map'.used), after);
    }
  }

  /** Every frame of the found run that is marked is marked: the run is the answer. */
  lemma Marked(bits: seq<bool>, before: Core)
    requires CoreOk(bits, before) && before.pc.Mark? && before.pc.done >= before.pc.pages % TWO20
    ensures var Mark(first, done, pages) := before.pc;
            Moves(bits, before, bits, Core(Leave(Want(pages), [Run(first, pages)]), before.owned))
  {
    var Mark(first, done, pages) := before.pc;
    var after := Core(Leave(Want(pages), [Run(first, pages)]), before.owned);
    Divide(pages, TWO20);
    ModUnique(0, TWO20, done);
    assert forall k | Holds(Run(first, pages), k) :: Holds(Run(first, done), k);
    hide Holds;
    ShrinkTransit(before, after);
    KeepsMoves(bits, before, after);
  }

  lemma CounterStep(s: State, c: nat)
    requires Inv(s) && Enabled(s, c, Proceed) && (s.cores[c].pc.Bump? || s.cores[c].pc.Drop?)
    ensures Inv(Advance(s, c))
  {
    var before, s' := s.cores[c], Advance(s, c);
    InvAt(s, c);
    hide Inv, Moves, CountUsed;
    if before.pc.Bump? { Bumped(s.map'.bits, before); } else { Dropped(s.map'.bits, before); }
    hide CoreOk;
    BodyMove(s, c, s'.map', s'.cores[c]);
  }

  lemma Bumped(bits: seq<bool>, before: Core)
    requires CoreOk(bits, before) && before.pc.Bump?
    ensures var Bump(first, done, pages) := before.pc;
            Moves(bits, before, bits, Core(Mark(first, done + 1, pages), before.owned))
  {
    var Bump(first, done, pages) := before.pc;
    var after := Core(Mark(first, done + 1, pages), before.owned);
    hide Claims, SelfDisjoint, Keeps, Moves;
    assert Holding(after) == Holding(before);
    SameHolding(before, after);
    hide Holding;
    KeepsMoves(bits, before, after);
  }

  lemma Dropped(bits: seq<bool>, before: Core)
    requires CoreOk(bits, before) && before.pc.Drop?
    ensures var Drop(first, done, pages) := before.pc;
            Moves(bits, before, bits, Core(Unmark(first, done + 1, pages), before.owned))
  {
    var Drop(first, done, pages) := before.pc;
    var after := Core(Unmark(first, done + 1, pages), before.owned);
    hide Claims, SelfDisjoint, Keeps, Moves;
    assert first + (done + 1) == first + done + 1 && pages % TWO20 - (done + 1) == pages % TWO20 - done - 1;
    assert Holding(after) == Holding(before);
    SameHolding(before, after);
    hide Holding;
    KeepsMoves(bits, before, after);
  }

  /** Clearing the next bit of a run on its way back: only a frame this core claims is cleared, and
      it stops claiming it. */
  lemma UnmarkStep(s: State, c: nat)
    requires Inv(s) && Enabled(s, c, Proceed) && s.cores[c].pc.Unmark?
    ensures Inv(Advance(s, c))
  {
    var bits, before, after := s.map'.bits, s.cores[c], Advance(s, c).cores[c];
    var Unmark(first, done, pages) := before.pc;
    InvAt(s, c);
    hide Inv, Keeps, Moves, SelfDisjoint, Claims, CountUsed;
    if done >= pages % TWO20 {
      Unmarked(bits, before);
      BodyMove(s, c, s.map', after);
    } else {
      DropTransit(bits, before);
      CountUpdate(bits, first + done, false);
      BodyMove(s, c, Map(bits[first + done := false], s.map'.used), after);
    }
  }

  lemma Unmarked(bits: seq<bool>, before: Core)
    requires CoreOk(bits, before) && before.pc.Unmark?
    ensures var Unmark(first, done, pages) := before.pc;
            Moves(bits, before, bits, Core(Leave(Back(first, pages), []), before.owned))
  {
    var Unmark(first, done, pages) := before.pc;
    var after := Core(Leave(Back(first, pages), []), before.owned);
    hide Claims, SelfDisjoint, Keeps, Moves;
    ShrinkTransit(before, after);
    hide Holding;
    KeepsMoves(bits, before, after);
  }

  /** The next frame on its way back is claimed before and no longer after its bit is cleared. */
  lemma DropTransit(bits: seq<bool>, before: Core)
    requires CoreOk(bits, before) && before.pc.Unmark? && before.pc.done < before.pc.pages % TWO20
    ensures var Unmark(first, done, pages) := before.pc;
            && first + done < |bits| && bits[first + done]
            && Moves(bits, before, bits[first + done := false], Core(Drop(first, done, pages), before.owned))
  {
    var Unmark(first, done, pages) := before.pc;
    var after := Core(Drop(first, done, pages), before.owned);
    var m, k0, n, g := |before.owned|, first + done, pages % TWO20 - done, Holding(before);
    Divide(pages, TWO20);
    ModUnique(0, TWO20, n);
    ModUnique(0, TWO20, n - 1);
    assert g[m] == Run(k0, n) && Holds(g[m], k0);
    assert Claims(before, k0);
    forall k | Holds(Run(k0 + 1, n - 1), k) ensures Holds(Run(k0, n), k) && k != k0 {}
    hide Holds;
    ShrinkTransit(before, after);
    assert !Claims(after, k0) by {
      forall j | 0 <= j < |Holding(after)| ensures !Holds(Holding(after)[j], k0) {
        if j < m { assert Holding(after)[j] == g[j]; }
      }
    }
    hide Claims, Holding, SelfDisjoint;
  }

  lemma StepInv(s: State, c: nat, e: Event)
    requires Inv(s) && Enabled(s, c, e)
    ensures Inv(Next(s, c, e))
  {
    if !e.Proceed? {
      CallStep(s, c, e);
    } else {
      match s.cores[c].pc
      case Search(_) => SearchStep(s, c);
      case Mark(_, _, _) => MarkStep(s, c);
      case Unmark(_, _, _) => UnmarkStep(s, c);
      case Bump(_, _, _) => CounterStep(s, c);
      case Drop(_, _, _) => CounterStep(s, c);
      case _ => LockStep(s, c);
    }
  }

  // ---- every interleaving ---------------------------------------------------------------------

  /** A trace is one state after another, each by an enabled step of some core. */
  ghost predicate IsTrace(trace: seq<State>) {
    && |trace| > 0 && Init(trace[0])
    && forall i | 0 <= i < |trace| - 1 :: StepsTo(trace[i], trace[i + 1])
  }

  ghost predicate StepsTo(s: State, s': State) {
    exists c: nat, e :: Enabled(s, c, e) && s' == Next(s, c, e)
  }

  lemma {:induction false} TraceInv(trace: seq<State>, i: nat)
    requires IsTrace(trace) && i < |trace|
    ensures Inv(trace[i])
  {
    if i == 0 {
      InitInv(trace[0]);
    } else {
      TraceInv(trace, i - 1);
      assert StepsTo(trace[i - 1], trace[i - 1 + 1]);
      var c: nat, e :| Enabled(trace[i - 1], c, e) && trace[i] == Next(trace[i - 1], c, e);
      StepInv(trace[i - 1], c, e);
    }
  }

  /** In every reachable state: at most one core is inside a body; whenever the lock is free the
      bitmap and the counter agree and frame 0 is taken; and no frame is owned twice, neither by two
      cores nor by two allocations of one core. */
  lemma Safety(trace: seq<State>, t: nat)
    requires IsTrace(trace) && t < |trace|
    ensures var s := trace[t];
            && (forall c, d | 0 <= c < d < |s.cores| && Inside(s.cores[c]) :: !Inside(s.cores[d]))
            && (!s.lock ==> Ok(s.map'))
            && (forall c, d, k {:trigger Held(s.cores[c].owned, k), Held(s.cores[d].owned, k)} |
                  0 <= c < d < |s.cores| && Held(s.cores[c].owned, k) :: !Held(s.cores[d].owned, k))
            && (forall c | 0 <= c < |s.cores| :: SelfDisjoint(s.cores[c].owned))
            && (forall c, k | 0 <= c < |s.cores| && Held(s.cores[c].owned, k) ::
                  1 <= k < |s.map'.bits| && s.map'.bits[k])
  {
    TraceInv(trace, t);
    var s := trace[t];
    forall c, k | 0 <= c < |s.cores| && Held(s.cores[c].owned, k) ensures Claims(s.cores[c], k) {
      OwnedIsClaimed(s.cores[c], k);
    }
    forall c | 0 <= c < |s.cores| ensures SelfDisjoint(s.cores[c].owned) {
      assert CoreOk(s.map'.bits, s.cores[c]);
      var h := Holding(s.cores[c]);
      assert forall i | 0 <= i < |s.cores[c].owned| :: h[i] == s.cores[c].owned[i];
    }
    forall c, d, k | 0 <= c < d < |s.cores| && Held(s.cores[c].owned, k)
      ensures !Held(s.cores[d].owned, k)
    {
      assert ClaimsApart(s.cores[c], s.cores[d]);
      assert Claims(s.cores[c], k) && !Claims(s.cores[d], k);
    }
  }

  lemma OwnedIsClaimed(c: Core, k: int)
    requires Held(c.owned, k)
    ensures Claims(c, k)
  {
    var i :| 0 <= i < |c.owned| && Holds(c.owned[i], k);
    assert Holding(c)[i] == c.owned[i];
  }

  // ---- critical sections are atomic -----------------------------------------------------------

  /** How far a body has come, told in terms of the atomic operation it stands for. */
  ghost predicate OnTheWay(entry: Map, m: Map, pc: Pc) {
    match pc
    case Search(count) => m == entry
    case Mark(first, done, pages) =>
      && done <= pages % TWO20 && Found(entry, first, pages) && m == MarkUsedRange(entry, first, done)
    case Bump(first, done, pages) =>
      && done < pages % TWO20 && Found(entry, first, pages)
      && Map(m.bits, m.used + 1) == MarkUsedRange(entry, first, done + 1)
    case Unmark(first, done, pages) =>
      && done <= pages % TWO20 && 1 <= first && 1 <= pages && m == MarkFreeRange(entry, first, done)
    case Drop(first, done, pages) =>
      && done < pages % TWO20 && 1 <= first && 1 <= pages
      && Map(m.bits, m.used - 1) == MarkFreeRange(entry, first, done + 1)
    case Leave(job, result) => Atomic(entry, m, job, result)
    case _ => true
  }

  ghost predicate Found(entry: Map, first: nat, pages: nat) {
    && 1 <= pages && FreeCount(entry) >= pages
    && first == FirstFit(entry.bits, true, pages) && first != 0
  }

  /** The whole body had exactly the effect and the answer of the sequential operation. */
  ghost predicate Atomic(entry: Map, m: Map, job: Job, result: seq<Run>) {
    match job
    case Want(pages) =>
      var (r, k) := AllocRange(entry, true, pages);
      m == r && result == if k == 0 then [] else [Run(k, pages)]
    case Back(first, pages) => m == FreeRange(entry, first, pages) && result == []
  }

  ghost predicate AllOnTheWay(s: State) {
    forall c | 0 <= c < |s.cores| && Inside(s.cores[c]) :: OnTheWay(s.entry, s.map', s.cores[c].pc)
  }

  lemma {:induction false} MarkUsedRangeLast(m: Map, k: nat, n: nat)
    ensures MarkUsedRange(m, k, n + 1) == MarkUsed(MarkUsedRange(m, k, n), k + n)
    decreases n
  {
    if n > 0 { MarkUsedRangeLast(MarkUsed(m, k), k + 1, n - 1); }
  }

  lemma {:induction false} MarkFreeRangeLast(m: Map, k: nat, n: nat)
    ensures MarkFreeRange(m, k, n + 1) == MarkFree(MarkFreeRange(m, k, n), k + n)
    decreases n
  {
    if n > 0 { MarkFreeRangeLast(MarkFree(m, k), k + 1, n - 1); }
  }

  lemma BodyStep(s: State, c: nat)
    requires c < |s.cores| && Inside(s.cores[c]) && !s.cores[c].pc.Leave?
    requires OnTheWay(s.entry, s.map', s.cores[c].pc)
    requires s.cores[c].pc.Search? ==> Ok(s.entry)
    ensures var s' := Advance(s, c); OnTheWay(s'.entry, s'.map', s'.cores[c].pc)
  {
    match s.cores[c].pc
    case Search(count) => FoundOrNot(s.entry, Pages(count));
    case Mark(first, done, pages) => MarkBody(s, c);
    case Unmark(first, done, pages) => UnmarkBody(s, c);
    case _ =>
  }

  lemma MarkBody(s: State, c: nat)
    requires c < |s.cores| && s.cores[c].pc.Mark? && OnTheWay(s.entry, s.map', s.cores[c].pc)
    ensures var s' := Advance(s, c); OnTheWay(s'.entry, s'.map', s'.cores[c].pc)
  {
    var Mark(first, done, pages) := s.cores[c].pc;
    if done < pages % TWO20 {
      MarkUsedRangeLast(s.entry, first, done);
    } else {
      FoundOrNot(s.entry, pages);
    }
  }

  lemma UnmarkBody(s: State, c: nat)
    requires c < |s.cores| && s.cores[c].pc.Unmark? && OnTheWay(s.entry, s.map', s.cores[c].pc)
    ensures var s' := Advance(s, c); OnTheWay(s'.entry, s'.map', s'.cores[c].pc)
  {
    var Unmark(first, done, pages) := s.cores[c].pc;
    if done < pages % TWO20 { MarkFreeRangeLast(s.entry, first, done); }
  }

  lemma FoundOrNot(m: Map, pages: nat)
    requires 1 <= pages
    ensures FreeCount(m) < pages || FirstFit(m.bits, true, pages) == 0 ==>
              FreeCount(m) >= 0 ==> AllocRange(m, true, pages) == (m, 0)
    ensures var k := FirstFit(m.bits, true, pages);
            FreeCount(m) >= pages && k != 0 ==>
              AllocRange(m, true, pages) == (MarkUsedRange(m, k, pages % TWO20), k)
  {
    var k := FirstFit(m.bits, true, pages);
    assert MarkUsedRange(MarkUsed(m, k), k + 1, 0) == MarkUsed(m, k);
  }

  lemma {:induction false} TraceOnTheWay(trace: seq<State>, i: nat)
    requires IsTrace(trace) && i < |trace|
    ensures AllOnTheWay(trace[i])
  {
    hide Inv, OnTheWay, Enabled, Next, Ok;
    if i == 0 {
      assert forall c | 0 <= c < |trace[0].cores| :: !Inside(trace[0].cores[c]);
    } else {
      TraceOnTheWay(trace, i - 1);
      TraceInv(trace, i - 1);
      var s := trace[i - 1];
      assert StepsTo(s, trace[i - 1 + 1]);
      var c: nat, e :| Enabled(s, c, e) && trace[i] == Next(s, c, e);
      StepOnTheWay(s, c, e);
    }
  }

  lemma StepOnTheWay(s: State, c: nat, e: Event)
    requires Inv(s) && AllOnTheWay(s) && Enabled(s, c, e)
    ensures AllOnTheWay(Next(s, c, e))
  {
    var s' := Next(s, c, e);
    if e.Proceed? && Inside(s.cores[c]) && !s.cores[c].pc.Leave? {
      if s.cores[c].pc.Search? { assert Ok(s.map'); }
      BodyStep(s, c);
    }
    assert CoreOk(s.map'.bits, s.cores[c]);
    forall d | 0 <= d < |s'.cores| && Inside(s'.cores[d])
      ensures OnTheWay(s'.entry, s'.map', s'.cores[d].pc)
    {
      if d != c { assert Inside(s.cores[d]); }
    }
  }

  /** Linearisation: when a core is about to clear the lock flag, the bitmap and the answer it
      carries are those of one sequential operation applied to the bitmap it found on taking the
      lock, whatever the other cores did meanwhile. */
  lemma BodiesAreAtomic(trace: seq<State>, t: nat, c: nat)
    requires IsTrace(trace) && t < |trace| && c < |trace[t].cores| && trace[t].cores[c].pc.Leave?
    ensures var s := trace[t];
            Atomic(s.entry, s.map', s.cores[c].pc.job, s.cores[c].pc.result)
  {
    TraceOnTheWay(trace, t);
    assert Inside(trace[t].cores[c]);
  }
}
