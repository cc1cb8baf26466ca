/** The global allocation counters under concurrent allocation and freeing, one atomic access at a time. */
module AllocStats {
  import opened Results
  import opened Sums

  const MMAP_THRESHOLD: nat := 0x10_0000

  datatype Strategy = ZeroSize | HeapBlock | Mmap

  /** From the threshold on, not only above it, allocations are mapped. */
  function StrategyFor(len: nat): Strategy {
    if len == 0 then ZeroSize else if len >= MMAP_THRESHOLD then Mmap else HeapBlock
  }

  /** Where a thread stands in `record_alloc` or `record_free`, with its local variables. */
  datatype Pc =
    | Idle
    | LoadPeak(len: nat, reached: int)
    | Loop(len: nat, reached: int, seen: int)
    | CountAlloc(len: nat)
    | AddStrategy(len: nat)
    | SubLive(len: nat)
    | CountFree(len: nat)
    | SubStrategy(len: nat)

  datatype State = State(live: int, peak: int, allocs: nat, frees: nat, heapLive: int, mmapLive: int,
                         handles: seq<nat>, threads: seq<Pc>)

  datatype Action =
    | StartAlloc(t: nat, len: nat)
    | StartFree(t: nat, handle: nat)
    /** The thread's next atomic access; a weak compare-exchange may fail although the value matches. */
    | Advance(t: nat, spurious: bool)

  function Init(threads: nat): State {
    State(0, 0, 0, 0, 0, 0, [], seq(threads, _ => Idle))
  }

  function Bytes(len: nat, strategy: Strategy): int {
    if StrategyFor(len) == strategy then len else 0
  }

  /** The next atomic access of thread t, by where it stands. */
  function Next(s: State, t: nat, spurious: bool): State
    requires t < |s.threads|
  {
    match s.threads[t]
    case Idle => s
    case LoadPeak(len, reached) => s.(threads := s.threads[t := Loop(len, reached, s.peak)])
    case Loop(len, reached, seen) =>
      if reached > seen then
        if s.peak == seen && !spurious then s.(peak := reached, threads := s.threads[t := CountAlloc(len)])
        else s.(threads := s.threads[t := Loop(len, reached, s.peak)])
      else s.(threads := s.threads[t := CountAlloc(len)])
    case CountAlloc(len) => s.(allocs := s.allocs + 1, threads := s.threads[t := AddStrategy(len)])
    case AddStrategy(len) =>
      s.(heapLive := s.heapLive + Bytes(len, HeapBlock), mmapLive := s.mmapLive + Bytes(len, Mmap),
         handles := s.handles + [len], threads := s.threads[t := Idle])
    case SubLive(len) => s.(live := s.live - len, threads := s.threads[t := CountFree(len)])
    case CountFree(len) => s.(frees := s.frees + 1, threads := s.threads[t := SubStrategy(len)])
    case SubStrategy(len) =>
      s.(heapLive := s.heapLive - Bytes(len, HeapBlock), mmapLive := s.mmapLive - Bytes(len, Mmap),
         threads := s.threads[t := Idle])
  }

  /** The state after an action, when it is possible. */
  function Act(s: State, a: Action): Option<State> {
    if a.t >= |s.threads| then None
    else match a
      case StartAlloc(t, len) =>
        if s.threads[t].Idle? && len > 0
        then Some(s.(live := s.live + len, threads := s.threads[t := LoadPeak(len, s.live + len)]))
        else None
      case StartFree(t, h) =>
        if s.threads[t].Idle? && h < |s.handles|
        then Some(s.(handles := s.handles[..h] + s.handles[h + 1..], threads := s.threads[t := SubLive(s.handles[h])]))
        else None
      case Advance(t, spurious) => if s.threads[t].Idle? then None else Some(Next(s, t, spurious))
  }

  // What a thread still owes to each counter.

  function HoldsLive(): Pc -> int {
    (pc: Pc) => match pc
      case LoadPeak(len, _) => len
      case Loop(len, _, _) => len
      case CountAlloc(len) => len
      case AddStrategy(len) => len
      case SubLive(len) => len
      case _ => 0
  }

  function HoldsStrategy(strategy: Strategy): Pc -> int {
    (pc: Pc) => match pc
      case SubLive(len) => Bytes(len, strategy)
      case CountFree(len) => Bytes(len, strategy)
      case SubStrategy(len) => Bytes(len, strategy)
      case _ => 0
  }

  function HoldsCount(): Pc -> int {
    (pc: Pc) => match pc
      case AddStrategy(_) => 1
      case SubLive(_) => 1
      case CountFree(_) => 1
      case _ => 0
  }

  function Length(): nat -> int {
    (len: nat) => len
  }

  function LengthUnder(strategy: Strategy): nat -> int {
    (len: nat) => Bytes(len, strategy)
  }

  function One(): nat -> int {
    _ => 1
  }

  /** The counters are exact once every thread's unfinished part is added. */
  predicate Exact(s: State) {
    && s.live == Sum(s.handles, Length()) + Sum(s.threads, HoldsLive())
    && s.heapLive == Sum(s.handles, LengthUnder(HeapBlock)) + Sum(s.threads, HoldsStrategy(HeapBlock))
    && s.mmapLive == Sum(s.handles, LengthUnder(Mmap)) + Sum(s.threads, HoldsStrategy(Mmap))
    && s.allocs - s.frees == Sum(s.handles, One()) + Sum(s.threads, HoldsCount())
  }

  predicate Pending(pc: Pc) {
    pc.LoadPeak? || pc.Loop?
  }

  /** m is the largest value LIVE has had; PEAK has reached it or some thread is still about to raise it. */
  ghost predicate PeakInv(s: State, m: int) {
    && 0 <= s.peak <= m && s.live <= m
    && (forall t :: 0 <= t < |s.threads| && Pending(s.threads[t]) ==> s.threads[t].reached <= m)
    && (forall t :: 0 <= t < |s.threads| && s.threads[t].Loop? ==> s.threads[t].seen <= s.peak)
    && (s.peak == m || exists t :: 0 <= t < |s.threads| && Pending(s.threads[t]) && s.threads[t].reached == m)
  }

  predicate Positive(s: State) {
    && (forall i :: 0 <= i < |s.handles| ==> s.handles[i] > 0)
    && (forall t :: 0 <= t < |s.threads| && !s.threads[t].Idle? ==> s.threads[t].len > 0)
  }

  function Max(a: int, b: int): int {
    if a < b then b else a
  }

  lemma InitHolds(threads: nat)
    ensures Exact(Init(threads)) && PeakInv(Init(threads), 0) && Positive(Init(threads))
  {
    NoHandles();
    hide Sum;
    AllIdle(Init(threads).threads);
  }

  lemma NoHandles()
    ensures Sum<nat>([], Length()) == 0 && Sum<nat>([], One()) == 0
    ensures Sum<nat>([], LengthUnder(HeapBlock)) == 0 && Sum<nat>([], LengthUnder(Mmap)) == 0
  {
  }

  /** Threads outside both functions owe nothing. */
  lemma AllIdle(threads: seq<Pc>)
    requires forall pc <- threads :: pc.Idle?
    ensures Sum(threads, HoldsLive()) == 0 && Sum(threads, HoldsCount()) == 0
    ensures Sum(threads, HoldsStrategy(HeapBlock)) == 0 && Sum(threads, HoldsStrategy(Mmap)) == 0
  {
    hide Sum;
    SumNonNegative(threads, HoldsLive());
    SumNonNegative(threads, HoldsStrategy(HeapBlock));
    SumNonNegative(threads, HoldsStrategy(Mmap));
    SumNonNegative(threads, HoldsCount());
  }

  lemma UpdateAll(threads: seq<Pc>, t: nat, pc: Pc)
    requires t < |threads|
    ensures Sum(threads[t := pc], HoldsLive()) == Sum(threads, HoldsLive()) - HoldsLive()(threads[t]) + HoldsLive()(pc)
    ensures Sum(threads[t := pc], HoldsStrategy(HeapBlock))
         == Sum(threads, HoldsStrategy(HeapBlock)) - HoldsStrategy(HeapBlock)(threads[t]) + HoldsStrategy(HeapBlock)(pc)
    ensures Sum(threads[t := pc], HoldsStrategy(Mmap))
         == Sum(threads, HoldsStrategy(Mmap)) - HoldsStrategy(Mmap)(threads[t]) + HoldsStrategy(Mmap)(pc)
    ensures Sum(threads[t := pc], HoldsCount()) == Sum(threads, HoldsCount()) - HoldsCount()(threads[t]) + HoldsCount()(pc)
  {
    SumUpdate(threads, HoldsLive(), t, pc);
    SumUpdate(threads, HoldsStrategy(HeapBlock), t, pc);
    SumUpdate(threads, HoldsStrategy(Mmap), t, pc);
    SumUpdate(threads, HoldsCount(), t, pc);
  }

  /** Every action keeps the accounting exact. */
  lemma ActExact(s: State, a: Action)
    requires Exact(s) && Act(s, a).Some?
    ensures Exact(Act(s, a).value)
  {
    hide Sum;
    var after := Act(s, a).value;
    UpdateAll(s.threads, a.t, after.threads[a.t]);
    assert after.threads == s.threads[a.t := after.threads[a.t]];
    match a
    case StartAlloc(t, len) =>
    case StartFree(t, h) =>
      SumRemove(s.handles, Length(), h);
      SumRemove(s.handles, LengthUnder(HeapBlock), h);
      SumRemove(s.handles, LengthUnder(Mmap), h);
      SumRemove(s.handles, One(), h);
    case Advance(t, spurious) =>
      if s.threads[t].AddStrategy? {
        var len := s.threads[t].len;
        SumAppend(s.handles, Length(), len);
        SumAppend(s.handles, LengthUnder(HeapBlock), len);
        SumAppend(s.handles, LengthUnder(Mmap), len);
        SumAppend(s.handles, One(), len);
      }
  }

  /** Every action keeps PEAK within the largest LIVE so far and never lowers it. */
  lemma ActPeak(s: State, m: int, a: Action)
    requires PeakInv(s, m) && Positive(s) && Act(s, a).Some?
    ensures PeakInv(Act(s, a).value, Max(m, Act(s, a).value.live))
    ensures Act(s, a).value.peak >= s.peak
  {
    var after := Act(s, a).value;
    var m' := Max(m, after.live);
    assert forall u :: 0 <= u < |s.threads| && u != a.t ==> after.threads[u] == s.threads[u];
    if a.StartAlloc? && after.live > m {
      assert Pending(after.threads[a.t]) && after.threads[a.t].reached == m';
    } else if s.peak != m {
      var w :| 0 <= w < |s.threads| && Pending(s.threads[w]) && s.threads[w].reached == m;
      assert after.peak == m' || (Pending(after.threads[w]) && after.threads[w].reached == m');
    }
  }

  lemma ActPositive(s: State, a: Action)
    requires Positive(s) && Act(s, a).Some?
    ensures Positive(Act(s, a).value)
  {
    var after := Act(s, a).value;
    assert forall u :: 0 <= u < |s.threads| && u != a.t ==> after.threads[u] == s.threads[u];
    if a.StartFree? {
      assert forall i :: 0 <= i < |after.handles| ==>
        after.handles[i] == if i < a.handle then s.handles[i] else s.handles[i + 1];
    }
  }

  /** LIVE, HEAP and MMAP are never negative. */
  lemma NeverNegative(s: State)
    requires Exact(s)
    ensures s.live >= 0 && s.heapLive >= 0 && s.mmapLive >= 0
  {
    SumNonNegative(s.handles, Length());
    SumNonNegative(s.handles, LengthUnder(HeapBlock));
    SumNonNegative(s.handles, LengthUnder(Mmap));
    SumNonNegative(s.threads, HoldsLive());
    SumNonNegative(s.threads, HoldsStrategy(HeapBlock));
    SumNonNegative(s.threads, HoldsStrategy(Mmap));
  }

  // Executions.

  /** The states of an execution of any interleaving, from the start. */
  ghost predicate Execution(states: seq<State>, threads: nat) {
    && states != [] && states[0] == Init(threads)
    && forall k :: 0 <= k < |states| - 1 ==> StepOf(states[k], states[k + 1])
  }

  ghost predicate StepOf(s: State, after: State) {
    exists a :: Act(s, a) == Some(after)
  }

  /** An execution starts with every counter at zero and goes on by every possible action, and by nothing else. */
  lemma ExecutionGrows(before: seq<State>, last: State, next: State, threads: nat)
    ensures Execution([State(0, 0, 0, 0, 0, 0, [], seq(threads, _ => Idle))], threads)
    ensures Execution(before + [last] + [next], threads) <==>
      Execution(before + [last], threads) && exists a :: Act(last, a) == Some(next)
  {
    var n := |before|;
    var states, all := before + [last], before + [last] + [next];
    hide Act;
    assert all[n] == last && all[n + 1] == next && all[..n + 1] == states;
    if Execution(all, threads) {
      assert StepOf(all[n], all[n + 1]);
      Prefix(all, threads, n + 1);
    }
  }

  /** The largest value LIVE takes in the execution. */
  function LargestLive(states: seq<State>): int
    requires states != []
  {
    if |states| == 1 then states[0].live
    else Max(LargestLive(states[..|states| - 1]), states[|states| - 1].live)
  }

  /** No state of the execution has a larger LIVE, and one has this. */
  lemma {:induction false} LargestAttained(states: seq<State>) returns (k: nat)
    requires states != []
    ensures k < |states| && states[k].live == LargestLive(states)
    ensures forall j :: 0 <= j < |states| ==> states[j].live <= LargestLive(states)
  {
    var n := |states| - 1;
    k := n;
    if n > 0 {
      var before := LargestAttained(states[..n]);
      if states[n].live < LargestLive(states[..n]) { k := before; }
      forall j | 0 <= j < |states| ensures states[j].live <= LargestLive(states) {
        if j < n { assert states[j] == states[..n][j]; }
      }
    }
  }

  lemma {:induction false} ExecutionKeeps(states: seq<State>, threads: nat)
    requires Execution(states, threads)
    ensures var last := states[|states| - 1]; Exact(last) && PeakInv(last, LargestLive(states)) && Positive(last)
  {
    var n := |states| - 1;
    if n == 0 {
      InitHolds(threads);
    } else {
      var before := states[..n];
      assert forall k :: 0 <= k < n ==> before[k] == states[k];
      assert Execution(before, threads) by {
        assert forall k :: 0 <= k < n - 1 ==> StepOf(states[k], states[k + 1]);
      }
      ExecutionKeeps(before, threads);
      assert StepOf(states[n - 1], states[n]);
      var a :| Act(states[n - 1], a) == Some(states[n]);
      ActExact(states[n - 1], a);
      ActPeak(states[n - 1], LargestLive(before), a);
      ActPositive(states[n - 1], a);
    }
  }

  lemma Prefix(states: seq<State>, threads: nat, n: nat)
    requires Execution(states, threads) && 0 < n <= |states|
    ensures Execution(states[..n], threads)
  {
    assert forall k :: 0 <= k < n - 1 ==> StepOf(states[k], states[k + 1]);
  }

  /** In every execution PEAK only grows and LIVE, HEAP and MMAP stay non-negative. */
  lemma {:induction false} Monotone(states: seq<State>, threads: nat, j: nat, k: nat)
    requires Execution(states, threads) && j <= k < |states|
    ensures states[j].peak <= states[k].peak
    ensures states[k].live >= 0 && states[k].heapLive >= 0 && states[k].mmapLive >= 0
  {
    hide Exact, PeakInv, Positive, Execution, LargestLive, Act;
    Prefix(states, threads, k + 1);
    ExecutionKeeps(states[..k + 1], threads);
    NeverNegative(states[k]);
    if j < k {
      Monotone(states, threads, j, k - 1);
      PeakStep(states, threads, k - 1);
    }
  }

  lemma PeakStep(states: seq<State>, threads: nat, k: nat)
    requires Execution(states, threads) && k + 1 < |states|
    ensures states[k].peak <= states[k + 1].peak
  {
    Prefix(states, threads, k + 1);
    ExecutionKeeps(states[..k + 1], threads);
    assert StepOf(states[k], states[k + 1]);
    var a :| Act(states[k], a) == Some(states[k + 1]);
    ActPeak(states[k], LargestLive(states[..k + 1]), a);
  }

  /**
   * When no thread is inside `record_alloc` or `record_free`: PEAK is the largest value LIVE ever
   * took, LIVE is the bytes of the live handles, HEAP those of the handles below 1 MiB and MMAP those of
   * the others, and the counts differ by the number of live handles.
   */
  lemma Quiescence(states: seq<State>, threads: nat)
    requires Execution(states, threads)
    requires forall pc <- states[|states| - 1].threads :: pc.Idle?
    ensures var s := states[|states| - 1];
      && s.peak == LargestLive(states)
      && s.live == Sum(s.handles, Length()) == s.heapLive + s.mmapLive
      && s.allocs - s.frees == |s.handles|
      && s.heapLive == Sum(s.handles, (len: nat) => if 0 < len < 1048576 then len else 0)
      && s.mmapLive == Sum(s.handles, (len: nat) => if len >= 1048576 then len else 0)
  {
    ExecutionKeeps(states, threads);
    var s := states[|states| - 1];
    AllIdle(s.threads);
    StrategiesSplit(s.handles);
    assert forall t :: 0 <= t < |s.threads| ==> s.threads[t] in s.threads;
    SumAgrees(s.handles, LengthUnder(HeapBlock), (len: nat) => if 0 < len < 1048576 then len else 0);
    SumAgrees(s.handles, LengthUnder(Mmap), (len: nat) => if len >= 1048576 then len else 0);
  }

  // Single calls.

  /** The state after n steps of thread t, none failing spuriously, when each is possible. */
  function After(s: State, t: nat, n: nat): Option<State>
    decreases n
  {
    if n == 0 then Some(s)
    else
      match Act(s, Advance(t, false))
      case None => None
      case Some(next) => After(next, t, n - 1)
  }

  /** Thread t at a point of its call, all else as in s. */
  function At(s: State, t: nat, pc: Pc): State
    requires t < |s.threads|
  {
    s.(threads := s.threads[t := pc])
  }

  lemma AtTwice(s: State, t: nat, pc: Pc, pc': Pc)
    requires t < |s.threads|
    ensures At(At(s, t, pc), t, pc') == At(s, t, pc')
    ensures s.threads[t] == pc ==> At(s, t, pc) == s
  {
    assert s.threads[t := pc][t := pc'] == s.threads[t := pc'];
    if s.threads[t] == pc { assert s.threads[t := pc] == s.threads; }
  }

  lemma AfterOne(s: State, t: nat, n: nat, next: State)
    requires n > 0 && Act(s, Advance(t, false)) == Some(next)
    ensures After(s, t, n) == After(next, t, n - 1)
  {
  }

  /** `record_alloc` from the load of PEAK on. */
  lemma AllocSteps(s: State, t: nat, len: nat, reached: int)
    requires t < |s.threads|
    ensures After(At(s, t, LoadPeak(len, reached)), t, 4) == Some(At(s.(
      peak := if s.peak < reached then reached else s.peak, allocs := s.allocs + 1,
      heapLive := s.heapLive + Bytes(len, HeapBlock), mmapLive := s.mmapLive + Bytes(len, Mmap),
      handles := s.handles + [len]), t, Idle))
  {
    hide Bytes;
    var s1, s2 := At(s, t, LoadPeak(len, reached)), At(s, t, Loop(len, reached, s.peak));
    var p := s.(peak := if s.peak < reached then reached else s.peak);
    var s3, q := At(p, t, CountAlloc(len)), p.(allocs := p.allocs + 1);
    var s4 := At(q, t, AddStrategy(len));
    var e := q.(heapLive := q.heapLive + Bytes(len, HeapBlock), mmapLive := q.mmapLive + Bytes(len, Mmap),
                handles := q.handles + [len]);
    AtTwice(s, t, LoadPeak(len, reached), Loop(len, reached, s.peak));
    AtTwice(s, t, Loop(len, reached, s.peak), CountAlloc(len));
    AtTwice(p, t, CountAlloc(len), AddStrategy(len));
    AtTwice(q, t, AddStrategy(len), Idle);
    assert Act(s1, Advance(t, false)) == Some(s2);
    assert Act(s2, Advance(t, false)) == Some(s3);
    assert Act(s3, Advance(t, false)) == Some(s4);
    assert Act(s4, Advance(t, false)) == Some(At(e, t, Idle));
    hide Act, At;
    AfterOne(s1, t, 4, s2);
    AfterOne(s2, t, 3, s3);
    AfterOne(s3, t, 2, s4);
    AfterOne(s4, t, 1, At(e, t, Idle));
  }

  /**
   * `record_alloc` by a thread on its own: LIVE and the counter of the length's kind grow by the length,
   * PEAK to the new LIVE when below it, the count by one, and nothing else changes.
   */
  lemma AllocCall(s: State, t: nat, len: nat)
    requires t < |s.threads| && s.threads[t].Idle? && len > 0
    ensures Act(s, StartAlloc(t, len)).Some?
    ensures After(Act(s, StartAlloc(t, len)).value, t, 4) == Some(State(
      s.live + len, if s.peak < s.live + len then s.live + len else s.peak, s.allocs + 1, s.frees,
      s.heapLive + (if len < 1048576 then len else 0), s.mmapLive + (if len >= 1048576 then len else 0),
      s.handles + [len], s.threads))
  {
    hide After;
    AllocSteps(s.(live := s.live + len), t, len, s.live + len);
    AtTwice(s, t, Idle, Idle);
  }

  /** `record_free` of a live handle by a thread on its own: exactly the reverse, with PEAK unchanged. */
  lemma FreeCall(s: State, t: nat, h: nat)
    requires t < |s.threads| && s.threads[t].Idle? && h < |s.handles| && s.handles[h] > 0
    ensures Act(s, StartFree(t, h)).Some?
    ensures var len := s.handles[h];
      After(Act(s, StartFree(t, h)).value, t, 3) == Some(State(
        s.live - len, s.peak, s.allocs, s.frees + 1,
        s.heapLive - (if len < 1048576 then len else 0), s.mmapLive - (if len >= 1048576 then len else 0),
        s.handles[..h] + s.handles[h + 1..], s.threads))
  {
    hide After;
    FreeSteps(s.(handles := s.handles[..h] + s.handles[h + 1..]), t, s.handles[h]);
    AtTwice(s, t, Idle, Idle);
  }

  /** `record_free` from its first access on. */
  lemma FreeSteps(s: State, t: nat, len: nat)
    requires t < |s.threads|
    ensures After(At(s, t, SubLive(len)), t, 3) == Some(At(s.(live := s.live - len, frees := s.frees + 1,
      heapLive := s.heapLive - Bytes(len, HeapBlock), mmapLive := s.mmapLive - Bytes(len, Mmap)), t, Idle))
  {
    hide Bytes;
    var s1, p := At(s, t, SubLive(len)), s.(live := s.live - len);
    var s2, q := At(p, t, CountFree(len)), p.(frees := p.frees + 1);
    var s3 := At(q, t, SubStrategy(len));
    var e := q.(heapLive := q.heapLive - Bytes(len, HeapBlock), mmapLive := q.mmapLive - Bytes(len, Mmap));
    AtTwice(s, t, SubLive(len), CountFree(len));
    AtTwice(p, t, CountFree(len), SubStrategy(len));
    AtTwice(q, t, SubStrategy(len), Idle);
    assert Act(s1, Advance(t, false)) == Some(s2);
    assert Act(s2, Advance(t, false)) == Some(s3);
    assert Act(s3, Advance(t, false)) == Some(At(e, t, Idle));
    hide Act, At;
    AfterOne(s1, t, 3, s2);
    AfterOne(s2, t, 2, s3);
    AfterOne(s3, t, 1, At(e, t, Idle));
  }

  /** Which actions are possible: a call when the thread is outside both functions, a step when inside. */
  lemma Possible(s: State, a: Action)
    ensures a.t >= |s.threads| ==> Act(s, a).None?
    ensures a.t < |s.threads| && a.Advance? ==> (Act(s, a).Some? <==> !s.threads[a.t].Idle?)
    ensures a.t < |s.threads| && a.StartAlloc? ==> (Act(s, a).Some? <==> s.threads[a.t].Idle? && a.len > 0)
    ensures a.t < |s.threads| && a.StartFree? ==> (Act(s, a).Some? <==> s.threads[a.t].Idle? && a.handle < |s.handles|)
  {
  }

  /** A compare-exchange succeeds only on the value seen; a failed one, spurious or not, only reads PEAK again. */
  lemma CompareExchange(s: State, t: nat, spurious: bool)
    requires t < |s.threads| && s.threads[t].Loop? && s.threads[t].reached > s.threads[t].seen
    ensures var pc := s.threads[t];
      Act(s, Advance(t, spurious)) ==
        if s.peak == pc.seen && !spurious
        then Some(s.(peak := pc.reached, threads := s.threads[t := CountAlloc(pc.len)]))
        else Some(s.(threads := s.threads[t := Loop(pc.len, pc.reached, s.peak)]))
  {
  }

  lemma {:induction false} StrategiesSplit(handles: seq<nat>)
    requires forall i :: 0 <= i < |handles| ==> handles[i] > 0
    ensures Sum(handles, Length()) == Sum(handles, LengthUnder(HeapBlock)) + Sum(handles, LengthUnder(Mmap))
    ensures Sum(handles, One()) == |handles|
  {
    if handles != [] {
      assert forall i :: 0 <= i < |handles[1..]| ==> handles[1..][i] == handles[i + 1];
      StrategiesSplit(handles[1..]);
    }
  }
}
