/** Whole runs: threads as programs that call schedule and kernel_thread. */
module ThreadRuns {
  import opened Words
  import opened Switch
  import opened Threads

  /** What a thread's code ends in: schedule, with the address that switch_to returns to, or kernel_thread. */
  datatype Call = Yield(ret: Word) | Create(base: Word, fn: Word, arg: Word, exit: Word)

  /**
   * The code of a thread between two calls: from step number, thread block, memory and registers to the memory and
   * registers at the next call. The step number lets it depend on anything outside.
   */
  type Code = (nat, Word, Memory, Regs) -> (Memory, Regs)

  /** The threads at the start, which of them runs, their code, and the calls they will make one after the other. */
  datatype Setup = Setup(ts: seq<Word>, c: int, code: Code, script: seq<Call>)

  /** The blocks that a script creates threads in. */
  function CreatedBy(script: seq<Call>): seq<Word> {
    if script == [] then []
    else
      var last := script[|script| - 1];
      CreatedBy(script[..|script| - 1]) + if last.Create? then [last.base] else []
  }

  /** The threads after k calls, in creation order. */
  function Existing(u: Setup, k: int): seq<Word>
    requires 0 <= k <= |u.script|
  {
    u.ts + CreatedBy(u.script[..k])
  }

  /** Which of them runs after k calls: schedule goes round the ring as it then is. */
  function Running(u: Setup, k: int): int
    requires 0 <= k <= |u.script| && u.ts != []
  {
    if k == 0 then u.c
    else if u.script[k - 1].Create? then Running(u, k - 1)
    else (Running(u, k - 1) + 1) % |Existing(u, k - 1)|
  }

  function All(u: Setup): seq<Word> {
    Existing(u, |u.script|)
  }

  /** The block of thread i of the whole run. */
  function ThreadAt(u: Setup, i: int): Word {
    if 0 <= i < |All(u)| then All(u)[i] else 0
  }

  ghost predicate BlocksClear(ts: seq<Word>) {
    && (forall i | 0 <= i < |ts| :: 0 < ts[i] && ts[i] + STACK_SIZE <= TWO32)
    && (forall i, j | 0 <= i < j < |ts| :: Clear(ts[i], STACK_SIZE, ts[j], STACK_SIZE))
  }

  /** Thread t has kept to its own stack, left its ring links alone, and calls with room on its stack. */
  ghost predicate Behaved(ts: seq<Word>, t: Word, m: Memory, r: (Memory, Regs)) {
    && |r.0| == TWO32
    && (forall i | 0 <= i < |ts| && ts[i] != t :: SameRange(m, r.0, ts[i], STACK_SIZE))
    && SameRange(m, r.0, t + PID, PCB_SIZE - PID)
    && t + PCB_SIZE + 16 <= r.1.esp <= t + STACK_SIZE
  }

  /**
   * What the run asks of the threads: at each step, the running one keeps off the blocks of those that exist by then.
   */
  ghost predicate WellBehaved(u: Setup)
    requires u.ts != []
  {
    forall k, m, r | 0 <= k < |u.script| && |m| == TWO32 ::
      Behaved(Existing(u, k), ThreadAt(u, Running(u, k)), m, u.code(k, ThreadAt(u, Running(u, k)), m, r))
  }

  ghost predicate Sound(u: Setup) {
    0 <= u.c < |u.ts| && BlocksClear(All(u)) && WellBehaved(u)
  }

  // ----- What a run is -----

  datatype World = World(mem: Memory, regs: Regs, log: seq<Event>)

  ghost function Now(s: Scheduler): World
    reads s, s.machine
  {
    World(s.machine.mem, s.machine.regs, s.log)
  }

  /** Memory and registers to which the running thread's code brings world w. */
  function Worked(u: Setup, k: int, w: World): (Memory, Regs)
    requires 0 <= k < |u.script| && u.ts != []
  {
    u.code(k, ThreadAt(u, Running(u, k)), w.mem, w.regs)
  }

  /** Thread t, having come to memory and registers r, was suspended in the call that returns to ret; v continues. */
  ghost predicate Switched(r: (Memory, Regs), t: Word, v: Word, ret: Word, w: World, w': World) {
    && Last(w'.log, t).Some? && Last(w.log, v).Some?
    && var s, s' := Last(w'.log, t).value, Last(w.log, v).value;
    && s.regs == r.1.(esp := r.1.esp - 12, eip := ret)
    && |s.frames| >= 8 && s.frames[8..] == StackOf(r.0, r.1.esp, t)
    && w'.regs == Returned(s') && StackOf(w'.mem, w'.regs.esp, v) == s'.frames
    && w'.log == w.log + [Suspended(t, s), Resumed(v, w'.regs, s'.frames)]
    && SwitchDelta(r.0, w'.mem, t, r.1.esp - 16, r.1.esp, w'.regs.esp - 4)
  }

  /** A thread was created behind the last one of ts; the running one goes on. */
  ghost predicate Made(r: (Memory, Regs), ts: seq<Word>, call: Call, w: World, w': World)
    requires call.Create? && ts != []
  {
    && Last(w'.log, call.base).Some?
    && var s := Last(w'.log, call.base).value;
    && s.regs == StartRegs(call.base, call.fn)
    && |s.frames| == 8 && WordAt(s.frames, 0) == call.exit && WordAt(s.frames, 4) == call.arg
    && w'.regs == r.1 && w'.log == w.log + [Suspended(call.base, s)]
    && LinkedIn(r.0, w'.mem, call.base, ts[0], ts[|ts| - 1])
  }

  /** Step k: the running thread's code, and its call. */
  ghost predicate Taken(u: Setup, k: int, w: World, w': World)
    requires 0 <= k < |u.script| && u.ts != []
  {
    var t, v := ThreadAt(u, Running(u, k)), ThreadAt(u, Running(u, k + 1));
    if u.script[k].Create? then Made(Worked(u, k, w), Existing(u, k), u.script[k], w, w')
    else if t == v then w' == World(Worked(u, k, w).0, Worked(u, k, w).1, w.log)
    else Switched(Worked(u, k, w), t, v, u.script[k].ret, w, w')
  }

  ghost predicate TakenAt(u: Setup, hist: seq<World>, k: int)
    requires 0 <= k < |u.script| && k + 1 < |hist| && u.ts != []
  {
    Taken(u, k, hist[k], hist[k + 1])
  }

  /** hist is the run: the worlds before the first step and after each. */
  ghost predicate Follows(u: Setup, hist: seq<World>)
    requires u.ts != []
  {
    |hist| == |u.script| + 1 && forall k | 0 <= k < |u.script| :: TakenAt(u, hist, k)
  }

  // ----- The scheduler makes such runs -----

  lemma ExistingStep(u: Setup, k: int)
    requires 0 <= k < |u.script|
    ensures Existing(u, k + 1) == Existing(u, k) + if u.script[k].Create? then [u.script[k].base] else []
    ensures Existing(u, 0) == u.ts
  {
    assert u.script[..k + 1][..k] == u.script[..k];
  }

  lemma {:induction false} ExistingPrefix(u: Setup, k: int)
    requires 0 <= k <= |u.script|
    ensures Existing(u, k) <= All(u) && |u.ts| <= |Existing(u, k)|
    decreases |u.script| - k
  {
    if k < |u.script| {
      ExistingStep(u, k);
      ExistingPrefix(u, k + 1);
    }
  }

  lemma {:induction false} RunningExists(u: Setup, k: int)
    requires 0 <= k <= |u.script| && 0 <= u.c < |u.ts|
    ensures 0 <= Running(u, k) < |Existing(u, k)|
    decreases k
  {
    ExistingPrefix(u, k);
    if 0 < k {
      RunningExists(u, k - 1);
      ExistingStep(u, k - 1);
      hide Existing;
    }
  }

  /** Where thread i of those after k calls is. */
  lemma BlockOf(u: Setup, k: int, i: int)
    requires 0 <= k <= |u.script| && 0 <= i < |Existing(u, k)|
    ensures ThreadAt(u, i) == Existing(u, k)[i]
  {
    ExistingPrefix(u, k);
  }

  lemma BlocksDiffer(u: Setup, i: int, j: int)
    requires BlocksClear(All(u)) && 0 <= i < |All(u)| && 0 <= j < |All(u)|
    ensures ThreadAt(u, i) == ThreadAt(u, j) <==> i == j
  {
  }

  /** What Work asks of the running thread at step k. */
  lemma OwnWork(u: Setup, k: int, m: Memory, regs: Regs)
    requires Sound(u) && 0 <= k < |u.script| && |m| == TWO32
    ensures 0 <= Running(u, k) < |Existing(u, k)|
    ensures var ts, c, r := Existing(u, k), Running(u, k), u.code(k, ThreadAt(u, Running(u, k)), m, regs);
            && ThreadAt(u, c) == ts[c] && |r.0| == TWO32
            && (forall i | 0 <= i < |ts| && i != c :: SameRange(m, r.0, ts[i], STACK_SIZE))
            && SameRange(m, r.0, ts[c] + PID, PCB_SIZE - PID)
            && ts[c] + PCB_SIZE + 16 <= r.1.esp <= ts[c] + STACK_SIZE <= TWO32
  {
    hide Existing, SameRange, Running;
    RunningExists(u, k);
    ExistingPrefix(u, k);
    BlockOf(u, k, Running(u, k));
    var ts, c := Existing(u, k), Running(u, k);
    assert Behaved(ts, ThreadAt(u, c), m, u.code(k, ThreadAt(u, c), m, regs));
    forall i | 0 <= i < |ts| && i != c
      ensures ts[i] != ts[c]
    {
      BlocksDiffer(u, i, c);
    }
  }

  /** A block that is still to come is apart from all that exist. */
  lemma FreshNext(u: Setup, k: int)
    requires Sound(u) && 0 <= k < |u.script| && u.script[k].Create?
    ensures FreshBlock(Existing(u, k), u.script[k].base)
  {
    hide Existing, WellBehaved;
    ExistingStep(u, k);
    ExistingPrefix(u, k + 1);
    var all, n, base := All(u), |Existing(u, k)|, u.script[k].base;
    assert all[n] == base;
    forall i | 0 <= i < n
      ensures Clear(Existing(u, k)[i], STACK_SIZE, base, STACK_SIZE)
    {
      assert Existing(u, k)[i] == all[i];
    }
  }

  /** The ring has one thread exactly when the next one is the same. */
  lemma NextIsOther(u: Setup, k: int)
    requires Sound(u) && 0 <= k < |u.script|
    ensures u.ts != [] && 0 <= Running(u, k) < |Existing(u, k)|
    ensures u.script[k].Create? ==> Running(u, k + 1) == Running(u, k)
    ensures u.script[k].Yield? ==> Running(u, k + 1) == (Running(u, k) + 1) % |Existing(u, k)|
    ensures u.script[k].Yield? ==>
              (ThreadAt(u, Running(u, k)) == ThreadAt(u, Running(u, k + 1)) <==> |Existing(u, k)| == 1)
  {
    hide Existing, WellBehaved;
    ExistingPrefix(u, k);
    RunningExists(u, k);
    NextIndex(Running(u, k), |Existing(u, k)|);
    if u.script[k].Yield? {
      BlocksDiffer(u, Running(u, k), Running(u, k + 1));
    }
  }

  /** One step of a run. */
  method Turn(s: Scheduler, u: Setup, k: nat)
    requires s.Valid() && Sound(u) && k < |u.script| && s.threads == Existing(u, k) && s.cur == Running(u, k)
    modifies s, s.machine
    ensures s.Valid() && s.threads == Existing(u, k + 1) && s.cur == Running(u, k + 1)
    ensures Taken(u, k, old(Now(s)), Now(s))
  {
    hide Peek, Holds, InRing, Transparent, ContextAt, Ring, Parked, SwitchDelta, LinkedIn, Sound, Existing, ThreadAt,
         SameRange, StackOf, Switched, Made, Running;
    ghost var w := Now(s);
    s.InRange();
    OwnWork(u, k, w.mem, w.regs);
    ExistingStep(u, k);
    NextIsOther(u, k);
    BlockNext(u, k);
    var r := u.code(k, s.current, s.machine.mem, s.machine.regs);
    s.Work(r.1, r.0);
    match u.script[k]
    case Yield(ret) =>
      TurnYield(s, r, ret, w);
    case Create(base, fn, arg, exit) =>
      FreshNext(u, k);
      TurnCreate(s, r, u.script[k], w);
  }

  /** The step's call of schedule, from the memory and registers r. */
  method TurnYield(s: Scheduler, ghost r: (Memory, Regs), ret: Word, ghost w: World)
    requires s.Valid() && s.CanCall() && s.log == w.log && s.machine.mem == r.0 && s.machine.regs == r.1
    modifies s, s.machine
    ensures s.Valid() && s.threads == old(s.threads) && s.cur == (old(s.cur) + 1) % |s.threads|
    ensures |s.threads| == 1 ==> Now(s) == World(r.0, r.1, w.log)
    ensures |s.threads| > 1 ==> Switched(r, old(s.current), s.current, ret, w, Now(s))
  {
    hide Peek, Holds, InRing, Transparent, ContextAt, Ring, Parked, SwitchDelta, StackOf, Last;
    s.InRange();
    TurnStack(s, r);
    s.Schedule(ret);
  }

  /** The step's call of kernel_thread. */
  method TurnCreate(s: Scheduler, ghost r: (Memory, Regs), call: Call, ghost w: World)
    requires call.Create? && s.Valid() && FreshBlock(s.threads, call.base) && s.threads != []
    requires s.log == w.log && s.machine.mem == r.0 && s.machine.regs == r.1
    modifies s, s.machine
    ensures s.Valid() && s.threads == old(s.threads) + [call.base] && s.cur == old(s.cur)
    ensures Made(r, old(s.threads), call, w, Now(s))
  {
    hide Peek, Holds, InRing, Transparent, ContextAt, Ring, Parked, LinkedIn, Last, WordAt;
    var pid := s.KernelThread(call.base, call.fn, call.arg, call.exit);
  }

  lemma TurnStack(s: Scheduler, r: (Memory, Regs))
    requires s.Valid() && s.CanCall() && s.machine.mem == r.0 && s.machine.regs == r.1
    ensures s.current + STACK_SIZE <= TWO32 == |r.0|
    ensures StackOf(r.0, r.1.esp, s.current) == r.0[r.1.esp..s.current + STACK_SIZE]
  {
    hide InRing, Parked, Transparent;
  }

  lemma BlockNext(u: Setup, k: int)
    requires Sound(u) && 0 <= k < |u.script|
    ensures 0 <= Running(u, k + 1) < |Existing(u, k + 1)|
    ensures ThreadAt(u, Running(u, k + 1)) == Existing(u, k + 1)[Running(u, k + 1)]
  {
    hide Existing, WellBehaved, Running;
    RunningExists(u, k + 1);
    BlockOf(u, k + 1, Running(u, k + 1));
  }

  /**
   * Every run: the scheduler, given threads that keep to their own stacks and call schedule and kernel_thread in any
   * order, goes exactly through such a run, from the world it was in to the one it is left in.
   */
  method Run(s: Scheduler, u: Setup) returns (ghost hist: seq<World>)
    requires s.Valid() && Sound(u) && s.threads == u.ts && s.cur == u.c
    modifies s, s.machine
    ensures s.Valid() && s.threads == All(u) && s.cur == Running(u, |u.script|)
    ensures Follows(u, hist) && hist[0] == old(Now(s)) && hist[|u.script|] == Now(s)
  {
    hide Scheduler.Valid, Sound, Existing, Running, Taken;
    SetupStart(u);
    var k := 0;
    hist := [Now(s)];
    while k < |u.script|
      invariant 0 <= k <= |u.script| && s.Valid() && s.threads == Existing(u, k) && s.cur == Running(u, k)
      invariant |hist| == k + 1 && hist[0] == old(Now(s)) && hist[k] == Now(s)
      invariant forall j | 0 <= j < k :: TakenAt(u, hist, j)
    {
      Turn(s, u, k);
      OneMoreStep(u, hist, Now(s));
      hist := hist + [Now(s)];
      k := k + 1;
    }
  }

  lemma OneMoreStep(u: Setup, hist: seq<World>, w: World)
    requires u.ts != [] && 0 < |hist| <= |u.script| && Taken(u, |hist| - 1, hist[|hist| - 1], w)
    requires forall j | 0 <= j < |hist| - 1 :: TakenAt(u, hist, j)
    ensures forall j | 0 <= j < |hist| :: TakenAt(u, hist + [w], j)
  {
    hide Taken;
    forall j | 0 <= j < |hist|
      ensures TakenAt(u, hist + [w], j)
    {
      if j < |hist| - 1 {
        assert TakenAt(u, hist, j);
      }
    }
  }

  lemma SetupStart(u: Setup)
    requires Sound(u)
    ensures Existing(u, 0) == u.ts && Running(u, 0) == u.c && u.ts != []
  {
  }

  // ----- What every run keeps -----

  /** The step that thread i of a run sits out: it stays suspended as it was, or it is the one that continues. */
  lemma SitsOut(u: Setup, hist: seq<World>, i: int, s: Snapshot, k: int)
    requires Sound(u) && Follows(u, hist) && 0 <= k < |u.script| && 0 <= i < |Existing(u, k)| && Running(u, k) != i
    requires Last(hist[k].log, ThreadAt(u, i)) == Some(s)
    ensures i < |Existing(u, k + 1)| && Last(hist[k + 1].log, ThreadAt(u, i)) == Some(s)
    ensures Running(u, k + 1) == i ==>
              hist[k + 1].regs == Returned(s) &&
              StackOf(hist[k + 1].mem, hist[k + 1].regs.esp, ThreadAt(u, i)) == s.frames
  {
    hide Existing, WellBehaved, ThreadAt, StackOf, SwitchDelta, Last;
    assert TakenAt(u, hist, k);
    var t, w, w' := ThreadAt(u, i), hist[k], hist[k + 1];
    ExistingStep(u, k);
    ExistingPrefix(u, k);
    RunningExists(u, k);
    BlocksDiffer(u, i, Running(u, k));
    if u.script[k].Create? {
      ExistingPrefix(u, k + 1);
      BlockOf(u, k + 1, |Existing(u, k)|);
      BlocksDiffer(u, i, |Existing(u, k)|);
      LastAppend(w.log, Suspended(u.script[k].base, Last(w'.log, u.script[k].base).value), t);
    } else {
      RunningExists(u, k + 1);
      ExistingPrefix(u, k + 1);
      BlocksDiffer(u, i, Running(u, k + 1));
      var v, r := ThreadAt(u, Running(u, k)), ThreadAt(u, Running(u, k + 1));
      if v != r {
        SwitchedLast(Worked(u, k, w), v, r, u.script[k].ret, w, w', t);
      }
    }
  }

  lemma SwitchedLast(r: (Memory, Regs), t: Word, v: Word, ret: Word, w: World, w': World, x: Word)
    requires Switched(r, t, v, ret, w, w') && x != t
    ensures Last(w'.log, x) == Last(w.log, x)
  {
    hide StackOf, SwitchDelta, Last;
    var s, e := Last(w'.log, t).value, Resumed(v, w'.regs, Last(w.log, v).value.frames);
    assert w'.log == w.log + [Suspended(t, s)] + [e];
    LastAppend(w.log + [Suspended(t, s)], e, x);
    LastAppend(w.log, Suspended(t, s), x);
  }

  /** A thread suspended as s before step k that runs again after step j, and not in between, finds itself as s says. */
  lemma {:induction false} FoundAgain(u: Setup, hist: seq<World>, i: int, s: Snapshot, k: int, j: int)
    requires Sound(u) && Follows(u, hist) && 0 <= k < j <= |u.script| && 0 <= i < |Existing(u, k)|
    requires Last(hist[k].log, ThreadAt(u, i)) == Some(s)
    requires (forall l | k <= l < j :: Running(u, l) != i) && Running(u, j) == i
    ensures hist[j].regs == Returned(s) && StackOf(hist[j].mem, hist[j].regs.esp, ThreadAt(u, i)) == s.frames
    decreases j - k
  {
    hide Sound, Follows, Existing, Running, ThreadAt, StackOf, Last;
    SitsOut(u, hist, i, s, k);
    if k + 1 < j {
      FoundAgain(u, hist, i, s, k + 1, j);
    }
  }

  /**
   * Context-switch transparency: a thread that calls schedule at step k and next runs after step j goes on as if
   * nothing had happened. It is at the return address of its own call; ebp, ebx, esi, edi and the flags are as they
   * were, and so is its stack above the two arguments that the call has left for it to pop.
   */
  lemma GoesOn(u: Setup, hist: seq<World>, k: int, j: int)
    requires Sound(u) && Follows(u, hist) && 0 <= k < j <= |u.script| && u.script[k].Yield?
    requires Running(u, k + 1) != Running(u, k) == Running(u, j)
    requires forall l | k < l < j :: Running(u, l) != Running(u, k)
    ensures var t, r := ThreadAt(u, Running(u, k)), Worked(u, k, hist[k]);
            && hist[j].regs == r.1.(esp := r.1.esp - 8, eip := u.script[k].ret)
            && StackOf(hist[j].mem, r.1.esp, t) == StackOf(r.0, r.1.esp, t)
            && SameStack(r.0, hist[j].mem, r.1.esp, t + 8192)
  {
    hide Existing, WellBehaved, Running, ThreadAt, StackOf, Last, SwitchDelta;
    assert TakenAt(u, hist, k);
    RunningExists(u, k);
    RunningExists(u, k + 1);
    ExistingPrefix(u, k);
    ExistingPrefix(u, k + 1);
    ExistingStep(u, k);
    BlocksDiffer(u, Running(u, k), Running(u, k + 1));
    var t, r := ThreadAt(u, Running(u, k)), Worked(u, k, hist[k]);
    var s := Last(hist[k + 1].log, t).value;
    FoundAgain(u, hist, Running(u, k), s, k + 1, j);
    Popped(hist[j].mem, r.1.esp, t);
    StackBytes(r.0, hist[j].mem, r.1.esp, t);
    hide SameStack;
  }

  /** The bytes from esp up to the top are the same in both memories. */
  ghost predicate SameStack(m: Memory, m': Memory, esp: int, top: int) {
    forall a | esp <= a < top :: 0 <= a < |m| && a < |m'| && m'[a] == m[a]
  }

  lemma StackBytes(m: Memory, m': Memory, esp: int, t: int)
    requires StackOf(m', esp, t) == StackOf(m, esp, t) && |StackOf(m', esp - 8, t)| >= 8
    ensures SameStack(m, m', esp, t + 8192)
  {
    if esp < t + STACK_SIZE {
      assert |StackOf(m', esp, t)| == t + STACK_SIZE - esp;
      forall a | esp <= a < t + STACK_SIZE
        ensures 0 <= a < |m| && a < |m'| && m'[a] == m[a]
      {
        assert StackOf(m, esp, t)[a - esp] == m[a] && StackOf(m', esp, t)[a - esp] == m'[a];
      }
    }
  }

  lemma Popped(m: Memory, esp: int, t: int)
    requires |StackOf(m, esp - 8, t)| >= 8
    ensures StackOf(m, esp, t) == StackOf(m, esp - 8, t)[8..]
  {
  }

  /**
   * A thread created at step k that first runs after step j enters its function, with the address of kthread_exit to
   * return to, its argument above that, and interrupts on.
   */
  lemma EntersItsFunction(u: Setup, hist: seq<World>, k: int, j: int)
    requires Sound(u) && Follows(u, hist) && 0 <= k < j <= |u.script| && u.script[k].Create?
    requires Running(u, j) == |Existing(u, k)| && forall l | k < l < j :: Running(u, l) != |Existing(u, k)|
    ensures var call := u.script[k]; var frames := StackOf(hist[j].mem, hist[j].regs.esp, call.base);
            && hist[j].regs == Regs(call.base + 8184, 0, 0, 0, 0, 0x200, call.fn)
            && |frames| == 8 && WordAt(frames, 0) == call.exit && WordAt(frames, 4) == call.arg
  {
    hide Existing, WellBehaved, StackOf, Last, LinkedIn, WordAt;
    assert TakenAt(u, hist, k);
    RunningExists(u, k);
    ExistingStep(u, k);
    var i := |Existing(u, k)|;
    BlockOf(u, k + 1, i);
    assert Running(u, k + 1) == Running(u, k);
    FoundAgain(u, hist, i, Last(hist[k + 1].log, u.script[k].base).value, k + 1, j);
  }

  // ----- Fairness -----

  predicate OnlyYields(u: Setup, k: int, n: int)
    requires 0 <= k && 0 <= n && k + n <= |u.script|
  {
    forall i | k <= i < k + n :: u.script[i].Yield?
  }

  lemma {:induction false} GoesRound(u: Setup, k: int, n: int)
    requires 0 <= k && 0 <= n && k + n <= |u.script| && 0 <= u.c < |u.ts| && OnlyYields(u, k, n) &&
             n <= |Existing(u, k)|
    ensures Existing(u, k + n) == Existing(u, k) && 0 <= Running(u, k) < |Existing(u, k)|
    ensures var c, m := Running(u, k), |Existing(u, k)|; Running(u, k + n) == if c + n < m then c + n else c + n - m
    decreases n
  {
    hide Existing;
    RunningExists(u, k);
    if 0 < n {
      var last := k + n - 1;
      GoesRound(u, k, n - 1);
      ExistingStep(u, last);
      assert Running(u, last + 1) == (Running(u, last) + 1) % |Existing(u, last)|;
      hide Running;
      NextIndex(Running(u, last), |Existing(u, k)|);
    }
  }

  /**
   * Fairness: wherever in a run as many calls of schedule follow each other as there are threads, each thread runs
   * after exactly one of them, and the last comes back to the thread that made the first.
   */
  lemma EachRunsOnce(u: Setup, k: int, i: int)
    requires 0 <= u.c < |u.ts| && 0 <= k <= |u.script| && k + |Existing(u, k)| <= |u.script|
    requires OnlyYields(u, k, |Existing(u, k)|)
    requires 0 <= i < |Existing(u, k)|
    ensures Running(u, k + |Existing(u, k)|) == Running(u, k)
    ensures exists j :: k < j <= k + |Existing(u, k)| && Running(u, j) == i
                     && forall l | k < l <= k + |Existing(u, k)| && Running(u, l) == i :: l == j
  {
    hide Existing, Running;
    var n := |Existing(u, k)|;
    GoesRound(u, k, n);
    var c := Running(u, k);
    var j := k + if i > c then i - c else i - c + n;
    forall l | k < l <= k + n
      ensures Running(u, l) == i <==> l == j
    {
      GoesRound(u, k, l - k);
    }
    assert Running(u, j) == i;
  }
}
