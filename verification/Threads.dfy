/** kern/schedule/sched.c and kern/process/proc.c: the ring of kernel threads and round-robin switching. */
module Threads {
  import opened Words
  import opened Switch

  const STACK_SIZE := 8192          // a thread's block: control block at the bottom, stack at the top
  const PCB_SIZE := 76              // sizeof(proc_struct_t)
  const CONTEXT := 8                // offsets in proc_struct_t
  const PID := 40
  const PREV := 68
  const NEXT := 72
  const INTERRUPT_FLAG := 0x200

  /**
   * A suspended thread: the registers at its switch_to call, eip being the address that call returns to,
   * and the stack above the return address.
   */
  datatype Snapshot = Snapshot(regs: Regs, frames: seq<Byte>)

  /** What a thread finds when it runs again: the call has returned and the return address is popped. */
  function Returned(s: Snapshot): Regs {
    s.regs.(esp := s.regs.esp + 4)
  }

  datatype Event = Suspended(t: Word, s: Snapshot) | Resumed(t: Word, regs: Regs, frames: seq<Byte>)

  /** The snapshot of t's last suspension; creation counts as one. */
  function Last(log: seq<Event>, t: Word): Option<Snapshot> {
    if log == [] then None
    else match log[|log| - 1]
      case Suspended(u, s) => if u == t then Some(s) else Last(log[..|log| - 1], t)
      case Resumed(_, _, _) => Last(log[..|log| - 1], t)
  }

  /** Every thread resumes exactly as it was suspended. */
  ghost predicate Transparent(log: seq<Event>) {
    forall j | 0 <= j < |log| && log[j].Resumed? :: ResumedAsLeft(log, j)
  }

  ghost predicate ResumedAsLeft(log: seq<Event>, j: int)
    requires 0 <= j < |log| && log[j].Resumed?
  {
    match Last(log[..j], log[j].t)
    case None => false
    case Some(s) => log[j].regs == Returned(s) && log[j].frames == s.frames
  }

  /** The stack of block t from the address esp up. */
  function StackOf(m: Memory, esp: int, t: int): seq<Byte> {
    if 0 <= esp <= t + STACK_SIZE <= |m| then m[esp..t + STACK_SIZE] else []
  }

  /** Thread block t holds the suspended state s. */
  ghost predicate Holds(m: Memory, t: int, s: Snapshot) {
    var e := s.regs.esp;
    && 0 <= t && t + STACK_SIZE <= |m|
    && t + PCB_SIZE + 4 <= e <= t + STACK_SIZE - 4
    && ContextAt(m, t + CONTEXT, s.regs)
    && m[e + 4..t + STACK_SIZE] == s.frames
  }

  ghost predicate SameRange(m: Memory, m': Memory, lo: int, n: int) {
    |m'| == |m| && forall k | 0 <= k < |m| && lo <= k < lo + n :: m'[k] == m[k]
  }

  /** The ring links and pid of thread i, in creation order from running_proc_head. */
  ghost predicate InRing(m: Memory, ts: seq<Word>, i: int)
    requires 0 <= i < |ts|
  {
    && Peek(m, ts[i] + NEXT) == ts[if i == |ts| - 1 then 0 else i + 1]
    && Peek(m, ts[i] + PREV) == ts[if i == 0 then |ts| - 1 else i - 1]
    && Peek(m, ts[i] + PID) == i % TWO32
  }

  /** The blocks lie in memory, apart from each other. */
  ghost predicate Blocks(m: Memory, ts: seq<Word>) {
    && (forall i | 0 <= i < |ts| :: 0 < ts[i] && ts[i] + STACK_SIZE <= |m|)
    && (forall i, j | 0 <= i < j < |ts| :: Clear(ts[i], STACK_SIZE, ts[j], STACK_SIZE))
  }

  ghost predicate Ring(m: Memory, ts: seq<Word>) {
    ts != [] && Blocks(m, ts) && forall i | 0 <= i < |ts| :: InRing(m, ts, i)
  }

  ghost predicate Parked(m: Memory, ts: seq<Word>, cur: int, log: seq<Event>) {
    forall i | 0 <= i < |ts| && i != cur :: Last(log, ts[i]).Some? && Holds(m, ts[i], Last(log, ts[i]).value)
  }

  lemma HoldsKept(m: Memory, m': Memory, t: int, s: Snapshot)
    requires Holds(m, t, s)
    requires SameRange(m, m', t + CONTEXT, CONTEXT_SIZE) && SameRange(m, m', t + PCB_SIZE, STACK_SIZE - PCB_SIZE)
    ensures Holds(m', t, s)
  {
    hide Peek, ContextAt;
    ContextKept(m, m', t + CONTEXT, s.regs);
    var e := s.regs.esp;
    assert m'[e + 4..t + STACK_SIZE] == m[e + 4..t + STACK_SIZE];
  }

  lemma InRingKept(m: Memory, m': Memory, ts: seq<Word>, i: int)
    requires 0 <= i < |ts| && InRing(m, ts, i) && SameRange(m, m', ts[i] + PID, PCB_SIZE - PID)
    ensures InRing(m', ts, i)
  {
    hide Peek;
    SameWord(m, m', ts[i] + NEXT);
    SameWord(m, m', ts[i] + PREV);
    SameWord(m, m', ts[i] + PID);
  }

  lemma LastAppend(log: seq<Event>, e: Event, t: Word)
    ensures Last(log + [e], t) == if e.Suspended? && e.t == t then Some(e.s) else Last(log, t)
  {
    assert (log + [e])[..|log|] == log;
  }

  lemma LastTwo(log: seq<Event>, t: Word, s: Snapshot, u: Word, regs: Regs, frames: seq<Byte>)
    ensures var log' := log + [Suspended(t, s)] + [Resumed(u, regs, frames)];
            forall w :: Last(log', w) == if w == t then Some(s) else Last(log, w)
  {
    forall w
      ensures Last(log + [Suspended(t, s)] + [Resumed(u, regs, frames)], w) == if w == t then Some(s) else Last(log, w)
    {
      LastAppend(log, Suspended(t, s), w);
      LastAppend(log + [Suspended(t, s)], Resumed(u, regs, frames), w);
    }
  }

  lemma LeftHolds(m: Memory, t: int, s: Snapshot)
    requires 0 <= t && t + STACK_SIZE <= |m| && t + PCB_SIZE + 4 <= s.regs.esp <= t + STACK_SIZE - 4
    requires ContextAt(m, t + CONTEXT, s.regs) && m[s.regs.esp + 4..t + STACK_SIZE] == s.frames
    ensures Holds(m, t, s)
  {
  }

  lemma TransparentAppend(log: seq<Event>, e: Event)
    requires Transparent(log)
    requires e.Resumed? ==> Last(log, e.t).Some? && e.regs == Returned(Last(log, e.t).value)
    requires e.Resumed? ==> e.frames == Last(log, e.t).value.frames
    ensures Transparent(log + [e])
  {
    var log' := log + [e];
    forall j | 0 <= j < |log'| && log'[j].Resumed?
      ensures ResumedAsLeft(log', j)
    {
      assert log'[..j] == log[..j];
      if j < |log| {
        assert ResumedAsLeft(log, j);
      } else {
        assert log[..j] == log;
      }
    }
  }

  lemma BlocksApart(m: Memory, ts: seq<Word>, i: int, j: int)
    requires Blocks(m, ts) && 0 <= i < |ts| && 0 <= j < |ts|
    ensures i == j || Clear(ts[i], STACK_SIZE, ts[j], STACK_SIZE)
    ensures ts[i] == ts[j] <==> i == j
  {
  }

  /** Links and pids survive whatever stays out of every control block's tail. */
  lemma RingKept(m: Memory, m': Memory, ts: seq<Word>)
    requires Ring(m, ts) && |m'| == |m|
    requires forall i | 0 <= i < |ts| :: SameRange(m, m', ts[i] + PID, PCB_SIZE - PID)
    ensures Ring(m', ts)
  {
    hide Peek, InRing;
    forall i | 0 <= i < |ts|
      ensures InRing(m', ts, i)
    {
      InRingKept(m, m', ts, i);
    }
  }

  /** Suspended threads survive whatever stays out of their saved contexts and stacks. */
  lemma ParkedKept(m: Memory, m': Memory, ts: seq<Word>, cur: int, log: seq<Event>)
    requires Parked(m, ts, cur, log)
    requires forall i | 0 <= i < |ts| && i != cur ::
               SameRange(m, m', ts[i] + CONTEXT, CONTEXT_SIZE) &&
               SameRange(m, m', ts[i] + PCB_SIZE, STACK_SIZE - PCB_SIZE)
    ensures Parked(m', ts, cur, log)
  {
    hide Peek, Holds, SameRange;
    forall i | 0 <= i < |ts| && i != cur
      ensures Last(log, ts[i]).Some? && Holds(m', ts[i], Last(log, ts[i]).value)
    {
      HoldsKept(m, m', ts[i], Last(log, ts[i]).value);
    }
  }

  // ----- One switch, from thread c to thread d -----

  /**
   * m' is m but for the saved context of block t, the words [lo, hi) that the calls pushed on t's stack, and
   * the scratch word below the stack pointer s of the thread that comes in.
   */
  ghost predicate SwitchDelta(m: Memory, m': Memory, t: int, lo: int, hi: int, s: int) {
    && |m'| == |m|
    && forall k | 0 <= k < |m| && !(t + CONTEXT <= k < t + CONTEXT + CONTEXT_SIZE) && !(lo <= k < hi) &&
                  !(s - 4 <= k < s) :: m'[k] == m[k]
  }

  lemma SwitchRing(m: Memory, m': Memory, ts: seq<Word>, c: int, d: int, lo: int, hi: int, s: int)
    requires Ring(m, ts) && 0 <= c < |ts| && 0 <= d < |ts| && c != d && SwitchDelta(m, m', ts[c], lo, hi, s)
    requires ts[c] + PCB_SIZE <= lo && hi <= ts[c] + STACK_SIZE && ts[d] + PCB_SIZE + 4 <= s <= ts[d] + STACK_SIZE
    ensures Ring(m', ts)
  {
    hide Peek, InRing;
    forall i | 0 <= i < |ts|
      ensures SameRange(m, m', ts[i] + PID, PCB_SIZE - PID)
    {
      BlocksApart(m, ts, i, c);
      BlocksApart(m, ts, i, d);
    }
    RingKept(m, m', ts);
  }

  lemma SwitchParked(m: Memory, m': Memory, ts: seq<Word>, c: int, d: int, lo: int, hi: int, s: int, log: seq<Event>,
                     log': seq<Event>)
    requires Blocks(m, ts) && 0 <= c < |ts| && 0 <= d < |ts| && c != d && SwitchDelta(m, m', ts[c], lo, hi, s)
    requires ts[c] + PCB_SIZE <= lo && hi <= ts[c] + STACK_SIZE && ts[d] + PCB_SIZE + 4 <= s <= ts[d] + STACK_SIZE
    requires Parked(m, ts, c, log) && Last(log', ts[c]).Some? && Holds(m', ts[c], Last(log', ts[c]).value)
    requires forall t | t != ts[c] :: Last(log', t) == Last(log, t)
    ensures Parked(m', ts, d, log')
  {
    hide Peek, Holds, ContextAt;
    forall i | 0 <= i < |ts| && i != d
      ensures Last(log', ts[i]).Some? && Holds(m', ts[i], Last(log', ts[i]).value)
    {
      BlocksApart(m, ts, i, c);
      BlocksApart(m, ts, i, d);
      if i != c {
        HoldsKept(m, m', ts[i], Last(log, ts[i]).value);
      }
    }
  }

  /** The thread that comes next, as it is about to be resumed. */
  lemma SwitchReady(m: Memory, ts: seq<Word>, c: int, d: int, log: seq<Event>)
    requires |m| == TWO32 && Ring(m, ts) && Parked(m, ts, c, log) && 0 <= c < |ts| && |ts| > 1 && d == (c + 1) % |ts|
    ensures 0 <= d < |ts| && d != c && ts[c] != ts[d] && Clear(ts[c], STACK_SIZE, ts[d], STACK_SIZE)
    ensures 0 < ts[c] <= TWO32 - STACK_SIZE && 0 < ts[d] <= TWO32 - STACK_SIZE && Blocks(m, ts)
    ensures Last(log, ts[d]).Some? && Holds(m, ts[d], Last(log, ts[d]).value)
  {
    hide Peek, Holds, Last, InRing;
    NextIndex(c, |ts|);
    BlocksApart(m, ts, c, d);
  }

  lemma HeldState(m: Memory, t: int, s: Snapshot)
    requires Holds(m, t, s)
    ensures 0 <= t && t + STACK_SIZE <= |m|
    ensures ContextAt(m, t + CONTEXT, s.regs) && t + PCB_SIZE + 4 <= s.regs.esp <= t + STACK_SIZE - 4
    ensures m[s.regs.esp + 4..t + STACK_SIZE] == s.frames
  {
  }

  lemma NextThread(m: Memory, ts: seq<Word>, c: int, log: seq<Event>)
    requires Ring(m, ts) && 0 <= c < |ts|
    ensures Peek(m, ts[c] + NEXT) == ts[(c + 1) % |ts|] && ts[c] != 0
    ensures ts[c] == ts[(c + 1) % |ts|] <==> |ts| == 1
  {
    hide Peek;
    assert InRing(m, ts, c);
    var d := (c + 1) % |ts|;
    NextIndex(c, |ts|);
    hide InRing;
    BlocksApart(m, ts, c, d);
  }

  /** Both threads after the switch: the one that left can come back, the other finds its stack as it was. */
  lemma SwitchFrames(m: Memory, m': Memory, t: int, u: int, esp: int, r: Snapshot)
    requires SwitchDelta(m, m', t, esp - 16, esp, r.regs.esp) && |m| == TWO32
    requires 0 < t <= TWO32 - STACK_SIZE && 0 < u <= TWO32 - STACK_SIZE && Clear(t, STACK_SIZE, u, STACK_SIZE)
    requires t + PCB_SIZE + 16 <= esp <= t + STACK_SIZE && u + PCB_SIZE + 4 <= r.regs.esp <= u + STACK_SIZE - 4
    requires m[r.regs.esp + 4..u + STACK_SIZE] == r.frames
    ensures |m'| == |m| && m'[r.regs.esp + 4..u + STACK_SIZE] == r.frames
    ensures m'[esp..t + STACK_SIZE] == m[esp..t + STACK_SIZE]
    ensures m'[esp - 8..t + STACK_SIZE][8..] == m[esp..t + STACK_SIZE]
  {
    assert m'[esp - 8..t + STACK_SIZE][8..] == m'[esp..t + STACK_SIZE];
  }

  // ----- A new thread -----

  function StartRegs(base: Word, fn: Word): Regs {
    Regs(base + STACK_SIZE - 12, 0, 0, 0, 0, INTERRUPT_FLAG, fn)
  }

  ghost predicate SameOutside(m: Memory, m': Memory, lo: int, n: int) {
    |m'| == |m| && forall k | 0 <= k < |m| && !(lo <= k < lo + n) :: m'[k] == m[k]
  }

  /** base has been linked in between tail and head, and nothing else has changed. */
  ghost predicate Spliced(m: Memory, m': Memory, base: int, head: int, tail: int) {
    && |m'| == |m|
    && Peek(m', base + NEXT) == head && Peek(m', base + PREV) == tail
    && Peek(m', tail + NEXT) == base && Peek(m', head + PREV) == base
    && (forall k | 0 <= k < |m| && !(base + PREV <= k < base + PCB_SIZE) && !(tail + NEXT <= k < tail + NEXT + 4)
          && !(head + PREV <= k < head + PREV + 4) :: m'[k] == m[k])
  }

  /** Nothing outside the new block changes but the link forward from the old last thread and back from the first. */
  ghost predicate LinkedIn(m: Memory, m': Memory, base: int, head: int, tail: int) {
    && |m'| == |m|
    && forall k | 0 <= k < |m| && !(base <= k < base + STACK_SIZE) && !(tail + NEXT <= k < tail + NEXT + 4)
         && !(head + PREV <= k < head + PREV + 4) :: m'[k] == m[k]
  }

  lemma OnlyLinked(m: Memory, m1: Memory, m2: Memory, base: int, head: int, tail: int)
    requires SameOutside(m, m1, base, STACK_SIZE) && Spliced(m1, m2, base, head, tail)
    ensures LinkedIn(m, m2, base, head, tail)
  {
  }

  ghost predicate ZeroRange(m: Memory, lo: int, n: int) {
    forall k | 0 <= k < |m| && lo <= k < lo + n :: m[k] == 0
  }

  lemma ZeroContext(m: Memory, base: int)
    requires 0 <= base && base + STACK_SIZE <= |m| && ZeroRange(m, base, PCB_SIZE)
    ensures Peek(m, base + CONTEXT + 4) == 0 && Peek(m, base + CONTEXT + 8) == 0
    ensures Peek(m, base + CONTEXT + 12) == 0 && Peek(m, base + CONTEXT + 16) == 0
  {
  }

  ghost predicate FreshBlock(ts: seq<Word>, base: Word) {
    0 < base <= TWO32 - STACK_SIZE && forall i | 0 <= i < |ts| :: Clear(ts[i], STACK_SIZE, base, STACK_SIZE)
  }

  lemma TailLink(m: Memory, ts: seq<Word>)
    requires Ring(m, ts) && |m| == TWO32
    ensures var tail := ts[|ts| - 1];
            && Peek(m, ts[0] + PREV) == tail && ts[0] <= TWO32 - STACK_SIZE && tail <= TWO32 - STACK_SIZE
            && (tail == ts[0] || Clear(tail, STACK_SIZE, ts[0], STACK_SIZE))
  {
    hide Peek;
    assert InRing(m, ts, 0);
    BlocksApart(m, ts, |ts| - 1, 0);
  }

  /** Building the new block disturbs no other thread. */
  lemma NewBlockApart(m: Memory, m': Memory, ts: seq<Word>, base: Word)
    requires Ring(m, ts) && FreshBlock(ts, base) && SameOutside(m, m', base, STACK_SIZE)
    ensures Ring(m', ts) && |m'| == |m|
  {
    hide Peek, InRing;
    RingKept(m, m', ts);
  }

  lemma StartHolds(m: Memory, m': Memory, base: Word, fn: Word, head: int, tail: int)
    requires |m| == TWO32 && 0 < base <= TWO32 - STACK_SIZE && Spliced(m, m', base, head, tail)
    requires 0 <= head && 0 <= tail && Clear(base, STACK_SIZE, head, STACK_SIZE) &&
             Clear(base, STACK_SIZE, tail, STACK_SIZE)
    requires ContextAt(m, base + CONTEXT, StartRegs(base, fn))
    ensures var frames := m'[base + STACK_SIZE - 8..base + STACK_SIZE];
            && Holds(m', base, Snapshot(StartRegs(base, fn), frames)) && |frames| == 8
            && WordAt(frames, 0) == Peek(m, base + STACK_SIZE - 8) &&
               WordAt(frames, 4) == Peek(m, base + STACK_SIZE - 4)
  {
    hide Peek, ContextAt;
    ContextKept(m, m', base + CONTEXT, StartRegs(base, fn));
    StartFrames(m, m', base);
  }

  lemma StartFrames(m: Memory, m': Memory, base: Word)
    requires |m| == TWO32 == |m'| && 0 < base <= TWO32 - STACK_SIZE
    requires forall k | base + PCB_SIZE <= k < base + STACK_SIZE :: m'[k] == m[k]
    ensures var frames := m'[base + STACK_SIZE - 8..base + STACK_SIZE];
            && |frames| == 8
            && WordAt(frames, 0) == Peek(m, base + STACK_SIZE - 8) &&
               WordAt(frames, 4) == Peek(m, base + STACK_SIZE - 4)
  {
  }

  /** The ring stays one cycle in creation order, with the new thread last. */
  lemma RingGrown(m: Memory, m': Memory, ts: seq<Word>, base: Word)
    requires Ring(m, ts) && FreshBlock(ts, base) && |m| == TWO32
    requires Spliced(m, m', base, ts[0], ts[|ts| - 1]) && Peek(m, base + PID) == |ts| % TWO32
    ensures Ring(m', ts + [base])
  {
    hide Peek;
    var ts' := ts + [base];
    assert Blocks(m', ts');
    SameWord(m, m', base + PID);
    forall i | 0 <= i < |ts|
      ensures InRing(m', ts', i)
    {
      RingGrownOne(m, m', ts, base, i);
    }
  }

  lemma RingGrownOne(m: Memory, m': Memory, ts: seq<Word>, base: Word, i: int)
    requires Ring(m, ts) && FreshBlock(ts, base) && |m| == TWO32 && 0 <= i < |ts|
    requires Spliced(m, m', base, ts[0], ts[|ts| - 1])
    ensures InRing(m', ts + [base], i)
  {
    hide Peek;
    assert InRing(m, ts, i);
    BlocksApart(m, ts, i, 0);
    BlocksApart(m, ts, i, |ts| - 1);
    SameWord(m, m', ts[i] + PID);
    if i < |ts| - 1 {
      SameWord(m, m', ts[i] + NEXT);
    }
    if 0 < i {
      SameWord(m, m', ts[i] + PREV);
    }
  }

  lemma ParkedGrown(m: Memory, m1: Memory, m2: Memory, ts: seq<Word>, base: Word, cur: int, log: seq<Event>,
                    s: Snapshot)
    requires Ring(m, ts) && FreshBlock(ts, base) && |m| == TWO32 && Parked(m, ts, cur, log) && 0 <= cur < |ts|
    requires SameOutside(m, m1, base, STACK_SIZE) && Spliced(m1, m2, base, ts[0], ts[|ts| - 1]) && Holds(m2, base, s)
    ensures Parked(m2, ts + [base], cur, log + [Suspended(base, s)])
    ensures forall t | t != base :: Last(log + [Suspended(base, s)], t) == Last(log, t)
  {
    hide Peek, Holds, InRing, ContextAt;
    var ts', log' := ts + [base], log + [Suspended(base, s)];
    forall t
      ensures Last(log', t) == if t == base then Some(s) else Last(log, t)
    {
      LastAppend(log, Suspended(base, s), t);
    }
    forall i | 0 <= i < |ts'| && i != cur
      ensures Last(log', ts'[i]).Some? && Holds(m2, ts'[i], Last(log', ts'[i]).value)
    {
      if i < |ts| {
        BlocksApart(m, ts, i, 0);
        BlocksApart(m, ts, i, |ts| - 1);
        HoldsKept(m, m2, ts[i], Last(log, ts[i]).value);
      }
    }
  }

  // ----- What the invariants say over whole runs -----

  /**
   * Context-switch transparency: in the history of every reachable state, a thread that runs again finds the registers
   * and the stack of its last suspension (or creation), and continues at the return address of that switch_to call.
   */
  lemma ResumesWhereItStopped(s: Scheduler, j: int)
    requires s.Valid() && 0 <= j < |s.log| && s.log[j].Resumed?
    ensures exists i :: 0 <= i < j && LastBefore(s.log, i, j)
                     && s.log[j].regs == Returned(s.log[i].s) && s.log[j].frames == s.log[i].s.frames
  {
    assert Transparent(s.log);
    hide *;
    LastSuspension(s.log, j);
  }

  lemma LastSuspension(log: seq<Event>, j: int)
    requires Transparent(log) && 0 <= j < |log| && log[j].Resumed?
    ensures exists i :: 0 <= i < j && LastBefore(log, i, j)
                     && log[j].regs == Returned(log[i].s) && log[j].frames == log[i].s.frames
  {
    assert ResumedAsLeft(log, j);
    LastIsThere(log, j, log[j].t);
  }

  /** Entry i is the last suspension, before entry j, of the thread that entry j resumes. */
  ghost predicate LastBefore(log: seq<Event>, i: int, j: int)
    requires 0 <= i < j < |log|
  {
    && log[i].Suspended? && log[i].t == log[j].t
    && forall k | i < k < j :: log[k].Suspended? ==> log[k].t != log[j].t
  }

  lemma {:induction false} LastIsThere(log: seq<Event>, j: int, t: Word)
    requires 0 <= j <= |log| && Last(log[..j], t).Some?
    ensures exists i :: 0 <= i < j && log[i].Suspended? && log[i].t == t && log[i].s == Last(log[..j], t).value
                     && forall k | i < k < j :: log[k].Suspended? ==> log[k].t != t
    decreases j
  {
    assert log[..j][..j - 1] == log[..j - 1];
    var e := log[j - 1];
    if !(e.Suspended? && e.t == t) {
      LastIsThere(log, j - 1, t);
    }
  }

  /** The ring as it lies in the control blocks: pid at byte 40, the link back at 68, the link forward at 72. */
  lemma RingInMemory(s: Scheduler, i: int)
    requires s.Valid() && 0 <= i < |s.threads|
    ensures var t, n, m := s.threads[i], |s.threads|, s.machine.mem;
            && 0 < t && t + 8192 <= |m|
            && WordAt(m, t + 40) == i % 0x1_0000_0000
            && WordAt(m, t + 68) == s.threads[if i == 0 then n - 1 else i - 1]
            && WordAt(m, t + 72) == s.threads[if i == n - 1 then 0 else i + 1]
  {
    hide WordAt, Parked, Transparent;
    assert InRing(s.machine.mem, s.threads, i);
  }

  lemma NextIndex(x: nat, n: nat)
    requires x < n
    ensures (x + 1) % n == if x + 1 == n then 0 else x + 1
  {
  }

  class Scheduler {
    const machine: Machine
    var current: Word
    var runningProcHead: Word
    var nowPid: Word
    ghost var threads: seq<Word>   // thread blocks in creation order
    ghost var cur: int             // which of them is running
    ghost var log: seq<Event>

    /** The history of one switch. */
    static ghost function Logged(log: seq<Event>, t: Word, s: Snapshot, u: Word, regs: Regs,
                                 frames: seq<Byte>): (log': seq<Event>)
      requires Transparent(log) && t != u && Last(log, u).Some?
      requires regs == Returned(Last(log, u).value) && frames == Last(log, u).value.frames
      ensures log' == log + [Suspended(t, s), Resumed(u, regs, frames)]
      ensures Transparent(log') && Last(log', t) == Some(s) && forall w | w != t :: Last(log', w) == Last(log, w)
    {
      var left := log + [Suspended(t, s)];
      TransparentAppend(log, Suspended(t, s));
      LastAppend(log, Suspended(t, s), t);
      LastAppend(log, Suspended(t, s), u);
      TransparentAppend(left, Resumed(u, regs, frames));
      LastTwo(log, t, s, u, regs, frames);
      left + [Resumed(u, regs, frames)]
    }

    ghost predicate Valid()
      reads this, machine
    {
      && |machine.mem| == TWO32
      && Ring(machine.mem, threads) && 0 <= cur < |threads|
      && current == threads[cur] && runningProcHead == threads[0] && nowPid == |threads| % TWO32
      && Parked(machine.mem, threads, cur, log)
      && Transparent(log)
    }

    /** init_sched: the boot code becomes thread 0, in the block below the top of the kernel stack. */
    constructor (machine: Machine, kernStackTop: Word)
      requires |machine.mem| == TWO32 && STACK_SIZE < kernStackTop
      modifies machine
      ensures this.machine == machine && Valid() && threads == [kernStackTop - STACK_SIZE] && cur == 0 && log == []
      ensures machine.regs == old(machine.regs)
      ensures SameRange(old(machine.mem), machine.mem, kernStackTop - STACK_SIZE + PCB_SIZE, STACK_SIZE - PCB_SIZE)
    {
      this.machine := machine;
      var idle := kernStackTop - STACK_SIZE;
      current := idle;
      runningProcHead := idle;
      nowPid := 1;
      threads, cur, log := [idle], 0, [];
      new;
      hide Peek;
      machine.Store(idle + PID, 0);
      machine.Store(idle + NEXT, idle);
      machine.Store(idle + PREV, idle);
    }

    /**
     * The running thread's own code: any registers and any memory, but it stays out of the other threads'
     * blocks and of the ring links in its own control block.
     */
    method Work(regs: Regs, mem: Memory)
      requires Valid() && |mem| == TWO32
      requires forall i | 0 <= i < |threads| && i != cur :: SameRange(machine.mem, mem, threads[i], STACK_SIZE)
      requires SameRange(machine.mem, mem, threads[cur] + PID, PCB_SIZE - PID)
      modifies machine
      ensures Valid() && machine.mem == mem && machine.regs == regs
    {
      ghost var m := machine.mem;
      machine.mem, machine.regs := mem, regs;
      hide Peek, Holds, InRing;
      RingKept(m, mem, threads);
      ParkedKept(m, mem, threads, cur, log);
    }

    /** What schedule needs of its caller: the stack pointer in its own block, with room for the call. */
    ghost predicate CanCall()
      reads this, machine
    {
      current + PCB_SIZE + 16 <= machine.regs.esp <= current + STACK_SIZE
    }

    /**
     * The call switch_to(&prev->context, &next->context) as compiled: arguments and return address are pushed first.
     */
    method CallSwitchTo(prev: Word, next: Word, ret: Word, ghost r: Regs)
      requires |machine.mem| == TWO32 && 0 < prev <= TWO32 - STACK_SIZE && 0 < next <= TWO32 - STACK_SIZE
      requires Clear(prev, STACK_SIZE, next, STACK_SIZE)
      requires prev + PCB_SIZE + 16 <= machine.regs.esp <= prev + STACK_SIZE
      requires ContextAt(machine.mem, next + CONTEXT, r) && next + PCB_SIZE + 4 <= r.esp <= next + STACK_SIZE - 4
      modifies machine
      ensures machine.regs == r.(esp := r.esp + 4)
      ensures ContextAt(machine.mem, prev + CONTEXT, old(machine.regs).(esp := old(machine.regs).esp - 12, eip := ret))
      ensures SwitchDelta(old(machine.mem), machine.mem, prev, old(machine.regs).esp - 16, old(machine.regs).esp, r.esp)
    {
      hide Peek, ContextAt;
      ghost var m := machine.mem;
      machine.Push(next + CONTEXT);
      machine.Push(prev + CONTEXT);
      machine.Push(ret);
      ContextKept(m, machine.mem, next + CONTEXT, r);
      machine.SwitchTo(prev + CONTEXT, next + CONTEXT, r);
    }

    /** The switch in change_task_to, next being another thread. */
    method ChangeTaskTo(next: Word, ret: Word)
      requires Valid() && CanCall() && |threads| > 1 && next == threads[(cur + 1) % |threads|]
      modifies this, machine
      ensures Valid() && threads == old(threads) && cur == (old(cur) + 1) % |threads|
      ensures Last(old(log), current).Some? && machine.regs == Returned(Last(old(log), current).value)
      ensures StackOf(machine.mem, machine.regs.esp, current) == Last(old(log), current).value.frames
      ensures Last(log, old(current)).Some? && var s := Last(log, old(current)).value;
                s.regs == old(machine.regs).(esp := old(machine.regs).esp - 12, eip := ret) &&
                |s.frames| >= 8 && s.frames[8..] == old(machine.mem)[old(machine.regs).esp..old(current) + STACK_SIZE]
      ensures SwitchDelta(old(machine.mem), machine.mem, old(current),
                          old(machine.regs).esp - 16, old(machine.regs).esp, machine.regs.esp - 4)
      ensures log == old(log) + [Suspended(old(current), Last(log, old(current)).value),
                                 Resumed(current, machine.regs, StackOf(machine.mem, machine.regs.esp, current))]
      ensures forall t | t != old(current) :: Last(log, t) == Last(old(log), t)
    {
      hide Peek, Holds, InRing, Transparent, ContextAt, Blocks, Ring, Parked, SwitchDelta;
      ghost var m, regs, c, d, l, ts := machine.mem, machine.regs, cur, (cur + 1) % |threads|, log, threads;
      ghost var e := regs.esp - 12;
      SwitchReady(m, ts, c, d, l);
      ghost var r := Last(l, next).value;
      HeldState(m, next, r);
      var prev := current;
      current := next;
      CallSwitchTo(prev, next, ret, r.regs);
      ghost var m2 := machine.mem;
      SwitchFrames(m, m2, prev, next, regs.esp, r);
      ghost var s := Snapshot(regs.(esp := e, eip := ret), m2[e + 4..prev + STACK_SIZE]);
      log := Logged(l, prev, s, next, machine.regs, StackOf(m2, machine.regs.esp, next));
      cur := d;
      LeftHolds(m2, prev, s);
      SwitchRing(m, m2, ts, c, d, e - 4, regs.esp, r.regs.esp);
      SwitchParked(m, m2, ts, c, d, e - 4, regs.esp, r.regs.esp, l, log);
    }

    /**
     * schedule(), as one step with interrupts masked; ret is the address that switch_to's call returns to.
     * The next thread of the ring continues exactly where it stopped.
     */
    method Schedule(ret: Word)
      requires Valid() && CanCall()
      modifies this, machine
      ensures Valid() && threads == old(threads) && cur == (old(cur) + 1) % |threads|
      ensures |threads| == 1 ==> log == old(log) && machine.regs == old(machine.regs) && machine.mem == old(machine.mem)
      ensures |threads| > 1 ==> Last(old(log), current).Some? && machine.regs == Returned(Last(old(log), current).value)
      ensures |threads| > 1 ==> StackOf(machine.mem, machine.regs.esp, current) == Last(old(log), current).value.frames
      ensures |threads| > 1 ==> Last(log, old(current)).Some? && var s := Last(log, old(current)).value;
                s.regs == old(machine.regs).(esp := old(machine.regs).esp - 12, eip := ret) &&
                |s.frames| >= 8 && s.frames[8..] == old(machine.mem)[old(machine.regs).esp..old(current) + STACK_SIZE]
      ensures |threads| > 1 ==>
                SwitchDelta(old(machine.mem), machine.mem, old(current),
                            old(machine.regs).esp - 16, old(machine.regs).esp, machine.regs.esp - 4)
      ensures |threads| > 1 ==> log == old(log) + [Suspended(old(current), Last(log, old(current)).value),
                                 Resumed(current, machine.regs, StackOf(machine.mem, machine.regs.esp, current))]
      ensures forall t | t != old(current) :: Last(log, t) == Last(old(log), t)
    {
      hide Peek, Holds, InRing, Parked, Transparent, SwitchDelta;
      if current != 0 {
        NextThread(machine.mem, threads, cur, log);
        var next := Peek(machine.mem, current + NEXT);
        if current != next {
          ChangeTaskTo(next, ret);
        }
      }
    }

    /** kernel_thread's work on the new block: control block zeroed and filled in, initial stack built by hand. */
    method InitBlock(base: Word, fn: Word, arg: Word, exit: Word, pid: Word)
      requires |machine.mem| == TWO32 && base <= TWO32 - STACK_SIZE
      modifies machine`mem
      ensures SameOutside(old(machine.mem), machine.mem, base, STACK_SIZE)
      ensures Peek(machine.mem, base + PID) == pid
      ensures ContextAt(machine.mem, base + CONTEXT, StartRegs(base, fn))
      ensures Peek(machine.mem, base + STACK_SIZE - 8) == exit && Peek(machine.mem, base + STACK_SIZE - 4) == arg
    {
      hide Peek;
      BzeroPcb(base);
      ZeroContext(machine.mem, base);
      machine.Store(base + PID, pid);
      machine.Store(base + STACK_SIZE - 4, arg);
      machine.Store(base + STACK_SIZE - 8, exit);
      machine.Store(base + STACK_SIZE - 12, fn);
      machine.Store(base + CONTEXT + 0, base + STACK_SIZE - 12);
      machine.Store(base + CONTEXT + 20, INTERRUPT_FLAG);
    }

    method BzeroPcb(base: Word)
      requires |machine.mem| == TWO32 && base <= TWO32 - STACK_SIZE
      modifies machine`mem
      ensures SameOutside(old(machine.mem), machine.mem, base, PCB_SIZE)
      ensures ZeroRange(machine.mem, base, PCB_SIZE)
    {
      var k := 0;
      while k < PCB_SIZE
        invariant 0 <= k <= PCB_SIZE && |machine.mem| == TWO32
        invariant SameOutside(old(machine.mem), machine.mem, base, PCB_SIZE)
        invariant forall i | base <= i < base + k :: machine.mem[i] == 0
      {
        machine.mem := machine.mem[base + k := 0];
        k := k + 1;
      }
    }

    /** The insertion before running_proc_head, that is, at the end of the ring. */
    method LinkBlock(base: Word, ghost tail: int)
      requires |machine.mem| == TWO32 && base <= TWO32 - STACK_SIZE
      requires runningProcHead <= TWO32 - STACK_SIZE &&
               Peek(machine.mem, runningProcHead + PREV) == tail <= TWO32 - STACK_SIZE
      requires Clear(base, STACK_SIZE, runningProcHead, STACK_SIZE) && Clear(base, STACK_SIZE, tail, STACK_SIZE)
      requires tail == runningProcHead || Clear(tail, STACK_SIZE, runningProcHead, STACK_SIZE)
      modifies machine`mem
      ensures Spliced(old(machine.mem), machine.mem, base, runningProcHead, tail) && |machine.mem| == TWO32
    {
      hide Peek;
      machine.Store(base + NEXT, runningProcHead);
      var prev: int := Peek(machine.mem, runningProcHead + PREV);
      machine.Store(base + PREV, prev);
      prev := Peek(machine.mem, runningProcHead + PREV);
      machine.Store(prev + NEXT, base);
      machine.Store(runningProcHead + PREV, base);
    }

    /**
     * kernel_thread, as one step; base is the block that kmalloc returned and exit the address of kthread_exit.
     * The new thread will start at fn with interrupts on, returning to exit, with arg as its argument.
     */
    method KernelThread(base: Word, fn: Word, arg: Word, exit: Word) returns (pid: Word)
      requires Valid() && 0 < base <= TWO32 - STACK_SIZE
      requires forall i | 0 <= i < |threads| :: Clear(threads[i], STACK_SIZE, base, STACK_SIZE)
      modifies this, machine`mem
      ensures Valid() && threads == old(threads) + [base] && cur == old(cur) && pid == old(nowPid)
      ensures Last(log, base).Some? && var s := Last(log, base).value;
                s.regs == StartRegs(base, fn) && |s.frames| == 8 && WordAt(s.frames, 0) == exit &&
                WordAt(s.frames, 4) == arg
      ensures log == old(log) + [Suspended(base, Last(log, base).value)]
      ensures forall t | t != base :: Last(log, t) == Last(old(log), t)
      ensures LinkedIn(old(machine.mem), machine.mem, base, old(threads)[0], old(threads)[|old(threads)| - 1])
    {
      hide Peek, Holds, InRing, Transparent, ContextAt, Ring, Parked, SameOutside, Spliced, WordAt;
      ghost var m, ts, l := machine.mem, threads, log;
      pid := nowPid;
      nowPid := (nowPid + 1) % TWO32;
      InitBlock(base, fn, arg, exit, pid);
      ghost var m1 := machine.mem;
      NewBlockApart(m, m1, ts, base);
      TailLink(m1, ts);
      LinkBlock(base, ts[|ts| - 1]);
      ghost var s := Snapshot(StartRegs(base, fn), machine.mem[base + STACK_SIZE - 8..base + STACK_SIZE]);
      log := l + [Suspended(base, s)];
      threads := ts + [base];
      StartHolds(m1, machine.mem, base, fn, runningProcHead, ts[|ts| - 1]);
      RingGrown(m1, machine.mem, ts, base);
      OnlyLinked(m, m1, machine.mem, base, ts[0], ts[|ts| - 1]);
      ParkedGrown(m, m1, machine.mem, ts, base, cur, l, s);
      TransparentAppend(l, Suspended(base, s));
    }

    lemma InRange()
      requires Valid()
      ensures 0 <= cur < |threads| && |machine.mem| == TWO32
    {
      hide Ring, Parked, Transparent;
    }
  }
}
