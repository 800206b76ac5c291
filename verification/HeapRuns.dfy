/** Whole runs of kmalloc, kfree and the callers' own stores. */
module HeapRuns {
  import opened Words
  import opened Paging
  import opened Chunks
  import opened Layout
  import opened Heap
  import Vmm

  /** What a caller may do with the heap. */
  datatype Op = Malloc(len: Word) | Free(p: Word) | Poke(p: Word, k: Word, b: Byte)

  /** What has happened: a pointer was handed out for a request, given back, or stored through. */
  datatype Event = Got(p: Word, len: Word) | Freed(p: Word) | Wrote(p: Word, k: Word, b: Byte)

  function HeldAfter(held: map<Word, Word>, e: Event): map<Word, Word> {
    match e
    case Got(p, n) => held[p := n]
    case Freed(p) => held - {p}
    case Wrote(_, _, _) => held
  }

  function WrittenAfter(w: map<Word, Byte>, e: Event, p: Word): map<Word, Byte> {
    match e
    case Got(q, _) => if q == p then map[] else w
    case Freed(_) => w
    case Wrote(q, k, b) => if q == p then w[k := b] else w
  }

  /** The pointers held after a history, with the sizes asked for. */
  function HeldBy(t: seq<Event>): map<Word, Word> {
    if t == [] then map[] else HeldAfter(HeldBy(t[..|t| - 1]), t[|t| - 1])
  }

  /** The bytes stored through p since it was handed out. */
  function Written(t: seq<Event>, p: Word): map<Word, Byte> {
    if t == [] then map[] else WrittenAfter(Written(t[..|t| - 1], p), t[|t| - 1], p)
  }

  /** The pointer of a chunk is held, its block is as large as was asked for, and it still holds what was stored. */
  ghost predicate Intact(v: seq<Byte>, c: Chunk, t: seq<Event>) {
    var p := c.addr + HEADER;
    && 0 <= p < TWO32 && p in HeldBy(t)
    && HeldBy(t)[p] + HEADER <= c.len <= HeldBy(t)[p] + 2 * HEADER
    && forall k | k in Written(t, p) :: k < HeldBy(t)[p] && k < |Payload(v, (c.addr, c.len))| &&
         Payload(v, (c.addr, c.len))[k] == Written(t, p)[k]
  }

  /** A history explains the heap: its blocks are those held, each intact. */
  ghost predicate Explains(v: seq<Byte>, cs: seq<Chunk>, t: seq<Event>) {
    && (forall i | 0 <= i < |cs| && cs[i].used :: Intact(v, cs[i], t))
    && (forall p | p in HeldBy(t) :: Present(cs, p))
  }

  ghost predicate Present(cs: seq<Chunk>, p: Word) {
    exists i :: 0 <= i < |cs| && cs[i].used && cs[i].addr + HEADER == p
  }

  // ----- The same in terms of live pairs, which survive changes of the list -----

  ghost predicate IntactLive(v: seq<Byte>, live: set<(int, int)>, t: seq<Event>) {
    forall x | x in live :: Intact(v, Chunk(x.0, x.1, true), t)
  }

  ghost predicate PresentLive(live: set<(int, int)>, t: seq<Event>) {
    forall p | p in HeldBy(t) :: exists x :: x in live && x.0 + HEADER == p
  }

  lemma ByLive(v: seq<Byte>, cs: seq<Chunk>, t: seq<Event>)
    ensures Explains(v, cs, t) <==> IntactLive(v, Live(cs), t) && PresentLive(Live(cs), t)
  {
    hide Intact, HeldBy;
    if Explains(v, cs, t) {
      forall p | p in HeldBy(t)
        ensures exists x :: x in Live(cs) && x.0 + HEADER == p
      {
        assert Present(cs, p);
        var i :| 0 <= i < |cs| && cs[i].used && cs[i].addr + HEADER == p;
        assert (cs[i].addr, cs[i].len) in Live(cs);
      }
    }
    if IntactLive(v, Live(cs), t) && PresentLive(Live(cs), t) {
      forall i | 0 <= i < |cs| && cs[i].used
        ensures Intact(v, cs[i], t)
      {
        assert (cs[i].addr, cs[i].len) in Live(cs);
      }
      forall p | p in HeldBy(t)
        ensures Present(cs, p)
      {
        var x :| x in Live(cs) && x.0 + HEADER == p;
        var i :| 0 <= i < |cs| && cs[i].used && x == (cs[i].addr, cs[i].len);
      }
    }
  }

  lemma OneMore(t: seq<Event>, e: Event)
    ensures HeldBy(t + [e]) == HeldAfter(HeldBy(t), e)
    ensures forall q :: Written(t + [e], q) == WrittenAfter(Written(t, q), e, q)
  {
    assert (t + [e])[..|t|] == t;
  }

  lemma StillIntact(v: seq<Byte>, v': seq<Byte>, x: (int, int), t: seq<Event>, t': seq<Event>)
    requires Intact(v, Chunk(x.0, x.1, true), t) && Payload(v', x) == Payload(v, x)
    requires var p := x.0 + HEADER; p in HeldBy(t') && HeldBy(t')[p] == HeldBy(t)[p] && Written(t', p) == Written(t, p)
    ensures Intact(v', Chunk(x.0, x.1, true), t')
  {
    hide Payload, HeldBy, Written;
  }

  lemma AfterGot(v: seq<Byte>, v': seq<Byte>, live: set<(int, int)>, a: int, len: int, n: Word, t: seq<Event>)
    requires IntactLive(v, live, t) && PresentLive(live, t) && Kept(v, v', live)
    requires n + HEADER <= len <= n + 2 * HEADER && 0 <= a && a + HEADER < TWO32 && forall m :: (a, m) !in live
    ensures var t' := t + [Got(a + HEADER, n)];
            IntactLive(v', live + {(a, len)}, t') && PresentLive(live + {(a, len)}, t')
  {
    hide Payload, HeldBy, Written, Intact;
    var t', all := t + [Got(a + HEADER, n)], live + {(a, len)};
    OneMore(t, Got(a + HEADER, n));
    NewIntact(v', a, len, n, t');
    forall x | x in live
      ensures Intact(v', Chunk(x.0, x.1, true), t')
    {
      assert Intact(v, Chunk(x.0, x.1, true), t);
      IntactHeld(v, x, t);
      assert (x.0, x.1) == x;
      StillIntact(v, v', x, t, t');
    }
    forall p | p in HeldBy(t')
      ensures exists x :: x in all && x.0 + HEADER == p
    {
      if p == a + HEADER {
        assert (a, len) in all;
      } else {
        assert p in HeldBy(t);
        var x :| x in live && x.0 + HEADER == p;
        assert x in all;
      }
    }
  }

  lemma IntactHeld(v: seq<Byte>, x: (int, int), t: seq<Event>)
    requires Intact(v, Chunk(x.0, x.1, true), t)
    ensures 0 <= x.0 + HEADER < TWO32 && x.0 + HEADER in HeldBy(t)
  {
  }

  lemma NewIntact(v: seq<Byte>, a: int, len: int, n: Word, t: seq<Event>)
    requires 0 <= a + HEADER < TWO32 && n + HEADER <= len <= n + 2 * HEADER
    requires a + HEADER in HeldBy(t) && HeldBy(t)[a + HEADER] == n && Written(t, a + HEADER) == map[]
    ensures Intact(v, Chunk(a, len, true), t)
  {
    hide Payload, HeldBy, Written;
  }

  lemma AfterFreed(v: seq<Byte>, v': seq<Byte>, live: set<(int, int)>, p: Word, t: seq<Event>)
    requires IntactLive(v, live, t) && PresentLive(live, t)
    requires Kept(v, v', set x | x in live && x.0 + HEADER != p)
    ensures var t', rest := t + [Freed(p)], set x | x in live && x.0 + HEADER != p;
            IntactLive(v', rest, t') && PresentLive(rest, t')
  {
    hide Payload, HeldBy, Written;
    var t', rest := t + [Freed(p)], set x | x in live && x.0 + HEADER != p;
    OneMore(t, Freed(p));
    forall x | x in rest
      ensures Intact(v', Chunk(x.0, x.1, true), t')
    {
      assert Intact(v, Chunk(x.0, x.1, true), t);
      StillIntact(v, v', x, t, t');
    }
    forall q | q in HeldBy(t')
      ensures exists x :: x in rest && x.0 + HEADER == q
    {
      assert q in HeldBy(t);
      var x :| x in live && x.0 + HEADER == q;
      assert x in rest;
    }
  }

  lemma AfterWrote(v: seq<Byte>, v': seq<Byte>, live: set<(int, int)>, y: (int, int), p: Word, k: Word, b: Byte,
                   t: seq<Event>)
    requires IntactLive(v, live, t) && PresentLive(live, t) && y in live && y.0 + HEADER == p
    requires forall x | x in live :: x.0 == y.0 ==> x == y
    requires p in HeldBy(t) && k < HeldBy(t)[p] && k < |Payload(v, y)|
    requires forall x | x in live :: Payload(v', x) == if x == y then Updated(Payload(v, x), k, b) else Payload(v, x)
    ensures IntactLive(v', live, t + [Wrote(p, k, b)]) && PresentLive(live, t + [Wrote(p, k, b)])
  {
    hide Payload, HeldBy, Written, Intact;
    var t' := t + [Wrote(p, k, b)];
    OneMore(t, Wrote(p, k, b));
    forall x | x in live
      ensures Intact(v', Chunk(x.0, x.1, true), t')
    {
      assert Intact(v, Chunk(x.0, x.1, true), t);
      IntactHeld(v, x, t);
      if x != y {
        StillIntact(v, v', x, t, t');
      } else {
        PokeIntact(v, v', y, p, k, b, t, t');
      }
    }
  }

  lemma PokeIntact(v: seq<Byte>, v': seq<Byte>, y: (int, int), p: Word, k: Word, b: Byte, t: seq<Event>, t': seq<Event>)
    requires Intact(v, Chunk(y.0, y.1, true), t) && y.0 + HEADER == p
    requires HeldBy(t') == HeldBy(t) && k < HeldBy(t)[p] && k < |Payload(v, y)|
    requires Written(t', p) == Written(t, p)[k := b] && Payload(v', y) == Updated(Payload(v, y), k, b)
    ensures Intact(v', Chunk(y.0, y.1, true), t')
  {
    hide Payload, HeldBy, Written;
  }

  // ----- Runs -----

  /**
   * What kmalloc and kfree keep between calls, frames aside: the list, the mapped pages, their largest number so far,
   * the history.
   */
  datatype State = State(chunks: seq<Chunk>, pages: int, peak: int, log: seq<Event>)

  const NOTHING := State([], 0, 0, [])

  /**
   * A caller may ask for n bytes: some hole holds them, or the address space has room for them after the last chunk.
   */
  predicate Servable(cs: seq<Chunk>, n: Word) {
    && n + HEADER < TWO32
    && (FirstHole(cs, n + HEADER) == |cs| ==> End(cs, HEAP_START) + n + HEADER < TWO32)
  }

  /** The allocator as a machine on values: first fit, full coalescing, pages to the end of the list. */
  function Next(s: State, op: Op): State {
    match op
    case Malloc(n) => if Servable(s.chunks, n) then Mallocked(s, n) else s
    case Free(p) =>
      var i := UsedAt(s.chunks, p - HEADER);
      if p in HeldBy(s.log) && i < |s.chunks| then Released(s, p, i) else s
    case Poke(p, k, b) =>
      if p in HeldBy(s.log) && k < HeldBy(s.log)[p] then s.(log := s.log + [Wrote(p, k, b)]) else s
  }

  function Mallocked(s: State, n: Word): State
    requires Servable(s.chunks, n)
  {
    var i := FirstHole(s.chunks, n + HEADER);
    var a := if i < |s.chunks| then s.chunks[i].addr else End(s.chunks, HEAP_START);
    var pages := if i < |s.chunks| then s.pages else Peak(s.pages, PagesFor(a + n + HEADER));
    State(Allocate(s.chunks, HEAP_START, n + HEADER, i), pages, Peak(s.peak, pages),
          s.log + [Got((a + HEADER) % TWO32, n)])
  }

  function Released(s: State, p: Word, i: nat): State
    requires i < |s.chunks|
  {
    var cs := Release(s.chunks, i);
    var pages := if End(cs, HEAP_START) == End(s.chunks, HEAP_START) then s.pages
                 else (PageAbove(End(cs, HEAP_START)) - HEAP_START) / PAGE_SIZE;
    State(cs, pages, s.peak, s.log + [Freed(p)])
  }

  function Play(s: State, script: seq<Op>): State {
    if script == [] then s else Next(Play(s, script[..|script| - 1]), script[|script| - 1])
  }

  lemma NextKeeps(s: State, op: Op)
    requires WellFormed(s.chunks, HEAP_START)
    ensures WellFormed(Next(s, op).chunks, HEAP_START)
  {
    hide WellFormed, Live, Allocate, Release, HeldBy;
    match op
    case Malloc(n) =>
      if Servable(s.chunks, n) {
        AllocateKeeps(s.chunks, HEAP_START, n + HEADER, FirstHole(s.chunks, n + HEADER));
      }
    case Free(p) =>
      var i := UsedAt(s.chunks, p - HEADER);
      if i < |s.chunks| {
        ReleaseKeeps(s.chunks, HEAP_START, i);
      }
    case Poke(_, _, _) =>
  }

  lemma {:induction false} PlayKeeps(s: State, script: seq<Op>)
    requires WellFormed(s.chunks, HEAP_START)
    ensures WellFormed(Play(s, script).chunks, HEAP_START)
    decreases |script|
  {
    hide WellFormed, Next;
    if script != [] {
      PlayKeeps(s, script[..|script| - 1]);
      NextKeeps(Play(s, script[..|script| - 1]), script[|script| - 1]);
    }
  }

  /** Canonical form over whole runs: two scripts that leave the same blocks behind leave the same list. */
  lemma RunsMeet(a: seq<Op>, b: seq<Op>)
    requires Live(Play(NOTHING, a).chunks) == Live(Play(NOTHING, b).chunks)
    ensures Play(NOTHING, a).chunks == Play(NOTHING, b).chunks
    ensures WellFormed(Play(NOTHING, a).chunks, HEAP_START)
  {
    hide Live, Play;
    PlayKeeps(NOTHING, a);
    PlayKeeps(NOTHING, b);
    LiveDetermines(Play(NOTHING, a).chunks, Play(NOTHING, b).chunks, HEAP_START);
  }

  /** Every request of a script is answered as promised. */
  ghost predicate AllAnswered(s: State, script: seq<Op>) {
    forall k | 0 <= k < |script| :: AnsweredAt(s, script, k)
  }

  ghost predicate AnsweredAt(s: State, script: seq<Op>, k: int)
    requires 0 <= k < |script|
  {
    var before, after := Play(s, script[..k]), Play(s, script[..k + 1]);
    Answered(script[k], before.chunks, before.log, after.log)
  }

  /** The frames suffice: those of the pages, and a table for each 4 MB region ever reached. */
  predicate Enough(s: State, total: int) {
    s.pages + (s.peak + ENTRIES - 1) / ENTRIES <= total
  }

  /** The heap is in state s, and its bytes are what the history says. */
  ghost predicate InState(h: Heap, s: State)
    reads h, h.vmm, h.vmm.pmm, h.vmm.pmm.stack
  {
    && h.Valid() && h.chunks == s.chunks && |h.lay.pages| == s.pages && h.lay.peak == s.peak
    && Explains(h.bytes, s.chunks, s.log)
  }

  // ----- What a request does, in terms of the history alone -----

  /** Nothing is known to differ about the bytes stored through any pointer but p. */
  ghost predicate SameWritten(t: seq<Event>, t': seq<Event>, p: Word) {
    forall q: Word | q != p :: Written(t', q) == Written(t, q)
  }

  /** A new pointer is held, for n bytes of which none has been stored. */
  ghost predicate Obtained(t: seq<Event>, t': seq<Event>, q: Word, n: Word) {
    q !in HeldBy(t) && HeldBy(t') == HeldBy(t)[q := n] && Written(t', q) == map[] && SameWritten(t, t', q)
  }

  /** A pointer is no longer held. */
  ghost predicate GivenUp(t: seq<Event>, t': seq<Event>, p: Word) {
    p !in HeldBy(t') && HeldBy(t') == HeldBy(t) - {p} && SameWritten(t, t', p)
  }

  /** A byte has been stored through a held pointer. */
  ghost predicate StoredThrough(t: seq<Event>, t': seq<Event>, p: Word, k: Word, b: Byte) {
    HeldBy(t') == HeldBy(t) && Written(t', p) == Written(t, p)[k := b] && SameWritten(t, t', p)
  }

  /**
   * What callers are promised, given the chunks cs before: a request that can be served hands out a new pointer,
   * freeing a held pointer gives it up, a store within a held block is remembered; anything else leaves no trace.
   */
  ghost predicate Answered(op: Op, cs: seq<Chunk>, t: seq<Event>, t': seq<Event>) {
    match op
    case Malloc(n) => if Servable(cs, n) then exists q :: Obtained(t, t', q, n) else t' == t
    case Free(p) => if p in HeldBy(t) then GivenUp(t, t', p) else t' == t
    case Poke(p, k, b) => if p in HeldBy(t) && k < HeldBy(t)[p] then StoredThrough(t, t', p, k, b) else t' == t
  }

  lemma LoggedFreed(t: seq<Event>, p: Word)
    ensures GivenUp(t, t + [Freed(p)], p)
  {
    hide HeldBy, Written;
    OneMore(t, Freed(p));
  }

  lemma LoggedWrote(t: seq<Event>, p: Word, k: Word, b: Byte)
    ensures StoredThrough(t, t + [Wrote(p, k, b)], p, k, b)
  {
    hide HeldBy, Written;
    OneMore(t, Wrote(p, k, b));
  }

  lemma LoggedGot(t: seq<Event>, q: Word, n: Word)
    requires q !in HeldBy(t)
    ensures Obtained(t, t + [Got(q, n)], q, n)
  {
    hide HeldBy, Written;
    OneMore(t, Got(q, n));
  }

  /** The machine on values answers every request so, in every state that a heap can be in. */
  lemma NextAnswers(h: Heap, s: State, op: Op)
    requires InState(h, s)
    ensures Answered(op, s.chunks, s.log, Next(s, op).log)
  {
    hide InState, HeldBy, Written, FirstHole, Servable, Obtained, GivenUp, StoredThrough;
    match op
    case Malloc(n) =>
      if Servable(s.chunks, n) {
        var q := NewIsFree(h, s, n);
        LoggedGot(s.log, q, n);
        assert Obtained(s.log, Next(s, op).log, q, n);
      }
    case Free(p) =>
      HeldIff(h, s, p);
      if p in HeldBy(s.log) {
        LoggedFreed(s.log, p);
      }
    case Poke(p, k, b) =>
      if p in HeldBy(s.log) && k < HeldBy(s.log)[p] {
        LoggedWrote(s.log, p, k, b);
      }
  }

  /** The pointer that a served request gets is held by nobody. */
  lemma NewIsFree(h: Heap, s: State, n: Word) returns (q: Word)
    requires InState(h, s) && Servable(s.chunks, n)
    ensures Mallocked(s, n).log == s.log + [Got(q, n)] && q !in HeldBy(s.log)
  {
    hide FirstHole, HeldBy, Allocate, WellFormed, Fits, InState, Servable;
    var cs := s.chunks;
    var i := FirstHole(cs, n + HEADER);
    var a := if i < |cs| then cs[i].addr else End(cs, HEAP_START);
    q := (a + HEADER) % TWO32;
    StateList(h, s);
    NewInSpace(cs, n, i);
    HeldIff(h, s, q);
    NobodyAt(cs, i, a);
  }

  lemma StateList(h: Heap, s: State)
    requires InState(h, s)
    ensures WellFormed(s.chunks, HEAP_START) && End(s.chunks, HEAP_START) < TWO32
  {
    hide Laid, View, Encodes, Explains, Tiled;
  }

  /** No allocated chunk starts at a hole, or at the end of the list. */
  lemma NobodyAt(cs: seq<Chunk>, i: int, a: int)
    requires WellFormed(cs, HEAP_START) && 0 <= i <= |cs| && (i < |cs| ==> !cs[i].used)
    requires a == if i < |cs| then cs[i].addr else End(cs, HEAP_START)
    ensures UsedAt(cs, a) == |cs|
  {
    hide UsedAt, Live;
    forall j | 0 <= j < |cs| && cs[j].used
      ensures cs[j].addr != a
    {
      NotLive(cs, HEAP_START, i, cs[j].len);
      LiveIndex(cs, HEAP_START, j);
    }
  }

  lemma NewInSpace(cs: seq<Chunk>, n: Word, i: int)
    requires WellFormed(cs, HEAP_START) && End(cs, HEAP_START) < TWO32
    requires Servable(cs, n) && i == FirstHole(cs, n + HEADER)
    ensures var a := if i < |cs| then cs[i].addr else End(cs, HEAP_START); 0 <= a && a + HEADER < TWO32
    ensures i < |cs| ==> !cs[i].used
  {
    hide FirstHole;
    if i < |cs| {
      Within(cs, HEAP_START, i);
    } else if cs != [] {
      Within(cs, HEAP_START, |cs| - 1);
    }
  }

  /** Every pointer handed out was not held at the time. */
  ghost predicate NeverTwice(t: seq<Event>) {
    forall k | 0 <= k < |t| && t[k].Got? :: t[k].p !in HeldBy(t[..k])
  }

  /** One request; ok is false exactly when the frames do not suffice. A request that no caller may make is not made. */
  method Step(h: Heap, op: Op, s: State) returns (ok: bool, s': State)
    requires InState(h, s) && NeverTwice(s.log)
    modifies h, h.vmm, h.vmm.pmm, h.vmm.pmm.stack
    ensures s' == Next(s, op) && (ok <==> Enough(s', old(h.lay).total))
    ensures Answered(op, s.chunks, s.log, s'.log)
    ensures ok ==> InState(h, s') && NeverTwice(s'.log) && SameFrames(old(h.lay), h.lay)
    ensures ok ==> Untouched(old(h.vmm.ram), h.vmm.ram, h.vmm.cr3, h.lay)
  {
    hide InState, NeverTwice, Enough, Untouched, SameFrames, Mallocked, Released, HeldBy, Servable, Answered;
    s' := Next(s, op);
    NextAnswers(h, s, op);
    StaysEnough(h, s);
    UntouchedSelf(h.vmm.ram, h.vmm.cr3, h.lay);
    if s' == s {
      return true, s';
    }
    match op
    case Malloc(n) =>
      ok := StepMalloc(h, n, s);
    case Free(p) =>
      StepFree(h, p, s);
      ok := true;
    case Poke(p, k, b) =>
      StepPoke(h, p, k, b, s);
      ok := true;
  }
  /** kmalloc's part of Step. */
  method StepMalloc(h: Heap, n: Word, s: State) returns (ok: bool)
    requires InState(h, s) && NeverTwice(s.log) && Servable(s.chunks, n)
    modifies h, h.vmm, h.vmm.pmm, h.vmm.pmm.stack
    ensures ok <==> Enough(Mallocked(s, n), old(h.lay).total)
    ensures ok ==> InState(h, Mallocked(s, n)) && NeverTwice(Mallocked(s, n).log) && SameFrames(old(h.lay), h.lay)
    ensures ok ==> Untouched(old(h.vmm.ram), h.vmm.ram, h.vmm.cr3, h.lay)
  {
    hide Intact, Live, Canonical, Laid, View, Encodes, Tiled, Payload, HeldBy, Written, Explains, IntactLive,
         PresentLive, Allocate, Cost, Untouched, Enough, NeverTwice, SameFrames, FirstHole, Servable, Mallocked;
    ghost var v, cs, t, need, before := h.bytes, h.chunks, s.log, n + HEADER, h.heapMax;
    ByLive(v, cs, t);
    BelowHeapMax(h);
    h.MappedCount();
    var r: Option<Word>;
    ghost var i: int;
    MayAsk(h, n);
    MallocEnough(h, n, s);
    r, i := h.Kmalloc(n);
    OneFirst(cs, need, i, FirstHole(cs, need));
    ok := r.Some?;
    if ok {
      BelowHeapMax(h);
      h.MappedCount();
      AllocateKeeps(cs, HEAP_START, need, i);
      MallockedIs(s, n, i, before, h.heapMax, |h.lay.pages|);
      AfterGot(v, h.bytes, Live(cs), h.chunks[i].addr, h.chunks[i].len, n, t);
      ByLive(h.bytes, h.chunks, t + [Got(r.value, n)]);
      NewPointer(v, cs, t, h.chunks[i].addr, r.value);
      OnceMore(t, Got(r.value, n));
    }
  }

  method StepFree(h: Heap, p: Word, s: State)
    requires InState(h, s) && NeverTwice(s.log) && p in HeldBy(s.log) && UsedAt(s.chunks, p - HEADER) < |s.chunks|
    modifies h, h.vmm, h.vmm.pmm, h.vmm.pmm.stack
    ensures var s' := Released(s, p, UsedAt(s.chunks, p - HEADER));
            InState(h, s') && NeverTwice(s'.log) && Enough(s', old(h.lay).total)
    ensures SameFrames(old(h.lay), h.lay) && Untouched(old(h.vmm.ram), h.vmm.ram, h.vmm.cr3, h.lay)
  {
    hide Intact, Live, Canonical, Laid, View, Encodes, Tiled, Payload, HeldBy, Written, Explains, IntactLive,
         PresentLive, Release, Untouched, Enough, NeverTwice, PageAbove;
    ghost var v, cs, t := h.bytes, h.chunks, s.log;
    ByLive(v, cs, t);
    HeldIsLive(v, cs, t, p);
    h.MappedCount();
    h.Kfree(p);
    h.MappedCount();
    AfterFreed(v, h.bytes, Live(cs), p, t);
    ByLive(h.bytes, h.chunks, t + [Freed(p)]);
    OnceMore(t, Freed(p));
    StaysEnough(h, Released(s, p, UsedAt(s.chunks, p - HEADER)));
  }

  method StepPoke(h: Heap, p: Word, k: Word, b: Byte, s: State)
    requires InState(h, s) && NeverTwice(s.log) && p in HeldBy(s.log) && k < HeldBy(s.log)[p]
    modifies h, h.vmm, h.vmm.pmm, h.vmm.pmm.stack
    ensures var s' := s.(log := s.log + [Wrote(p, k, b)]);
            InState(h, s') && NeverTwice(s'.log) && Enough(s', old(h.lay).total)
    ensures SameFrames(old(h.lay), h.lay) && Untouched(old(h.vmm.ram), h.vmm.ram, h.vmm.cr3, h.lay)
  {
    hide Intact, Live, Canonical, Laid, View, Encodes, Tiled, Payload, HeldBy, Written, Explains, IntactLive,
         PresentLive, Untouched, Enough, NeverTwice;
    ghost var v, cs, t := h.bytes, h.chunks, s.log;
    ByLive(v, cs, t);
    HeldIsLive(v, cs, t, p);
    ghost var i :| 0 <= i < |cs| && cs[i].used && cs[i].addr + HEADER == p;
    PokeReady(v, cs, t, p, k, i);
    h.Poke(p, k, b, i);
    AfterWrote(v, h.bytes, Live(cs), (cs[i].addr, cs[i].len), p, k, b, t);
    ByLive(h.bytes, h.chunks, t + [Wrote(p, k, b)]);
    OnceMore(t, Wrote(p, k, b));
    StaysEnough(h, s.(log := s.log + [Wrote(p, k, b)]));
  }

  lemma MayAsk(h: Heap, n: Word)
    requires Servable(h.chunks, n)
    ensures n + HEADER < TWO32 && (h.Full(n + HEADER) ==> End(h.chunks, HEAP_START) + n + HEADER < TWO32)
  {
    var i := FirstHole(h.chunks, n + HEADER);
  }

  lemma OneFirst(cs: seq<Chunk>, need: int, i: int, j: int)
    requires FirstFit(cs, need, i) && FirstFit(cs, need, j)
    ensures i == j
  {
    assert (i < |cs| ==> Fits(cs[i], need)) && (j < |cs| ==> Fits(cs[j], need));
  }

  /** alloc_chunk's cost in frames, as the difference between what the heap holds after and before. */
  lemma CostIs(l: Layout, top: nat, target: int)
    requires Counted(l, top)
    ensures var pages := Peak(|l.pages|, PagesFor(target));
            Cost(l, target) > top <==> pages + (Peak(l.peak, pages) + ENTRIES - 1) / ENTRIES > l.total
  {
    var need := PagesFor(target);
    if |l.pages| < need && need <= ENTRIES * |l.tables| {
      var peak := Peak(l.peak, need);
      assert ENTRIES * (|l.tables| - 1) < peak <= ENTRIES * |l.tables|;
    }
  }

  lemma PagesAfter(before: int, after: int, end: int, pages: int, pages': int)
    requires before == HEAP_START + PAGE_SIZE * pages && after == HEAP_START + PAGE_SIZE * pages' && end <= after
    requires after == before || before < after < end + PAGE_SIZE
    ensures pages' == Peak(pages, PagesFor(end))
  {
  }

  lemma MallocEnough(h: Heap, n: Word, s: State)
    requires InState(h, s) && Servable(s.chunks, n)
    ensures var i := FirstHole(s.chunks, n + HEADER);
            Enough(Mallocked(s, n), h.lay.total) <==>
            !(i == |s.chunks| && Cost(h.lay, End(s.chunks, HEAP_START) + n + HEADER) > h.vmm.pmm.top)
  {
    hide FirstHole, Explains, Allocate, Cost, Laid, Encodes, View, Tiled, Canonical;
    h.MappedCount();
    CostIs(h.lay, h.vmm.pmm.top, End(s.chunks, HEAP_START) + n + HEADER);
  }

  lemma MallockedIs(s: State, n: Word, i: int, before: int, after: int, pages: int)
    requires WellFormed(s.chunks, HEAP_START) && Servable(s.chunks, n) && i == FirstHole(s.chunks, n + HEADER)
    requires before == HEAP_START + PAGE_SIZE * s.pages && after == HEAP_START + PAGE_SIZE * pages
    requires var cs := Allocate(s.chunks, HEAP_START, n + HEADER, i);
             && End(s.chunks, HEAP_START) <= before && End(cs, HEAP_START) <= after && i < |cs| &&
                0 <= cs[i].addr + HEADER < TWO32
             && (after == before || before < after < End(cs, HEAP_START) + PAGE_SIZE)
    ensures var cs := Allocate(s.chunks, HEAP_START, n + HEADER, i);
            Mallocked(s, n) == State(cs, pages, Peak(s.peak, pages), s.log + [Got(cs[i].addr + HEADER, n)])
  {
    hide FirstHole, Allocate, WellFormed, Live, Fits, PagesFor, Peak;
    AllocateKeeps(s.chunks, HEAP_START, n + HEADER, i);
    PagesAfter(before, after, End(Allocate(s.chunks, HEAP_START, n + HEADER, i), HEAP_START), s.pages, pages);
  }

  lemma NewPointer(v: seq<Byte>, cs: seq<Chunk>, t: seq<Event>, a: int, p: Word)
    requires Explains(v, cs, t) && p == a + HEADER && forall n :: (a, n) !in Live(cs)
    ensures p !in HeldBy(t)
  {
    hide HeldBy, Intact;
    forall i | 0 <= i < |cs| && cs[i].used
      ensures cs[i].addr + HEADER != p
    {
      assert (cs[i].addr, cs[i].len) in Live(cs);
    }
    assert !Present(cs, p);
  }

  lemma OnceMore(t: seq<Event>, e: Event)
    requires NeverTwice(t) && (e.Got? ==> e.p !in HeldBy(t))
    ensures NeverTwice(t + [e])
  {
    hide HeldBy;
    var t' := t + [e];
    assert t'[..|t|] == t;
    assert forall k | 0 <= k < |t| :: t'[..k] == t[..k] && t'[k] == t[k];
  }

  lemma StaysEnough(h: Heap, s: State)
    requires InState(h, s)
    ensures Enough(s, h.lay.total)
  {
    h.MappedCount();
  }

  lemma BelowHeapMax(h: Heap)
    requires h.Valid()
    ensures End(h.chunks, HEAP_START) <= h.heapMax
    ensures forall i | 0 <= i < |h.chunks| :: 0 <= h.chunks[i].addr
  {
    h.MappedCount();
    forall i | 0 <= i < |h.chunks|
      ensures 0 <= h.chunks[i].addr
    {
      Within(h.chunks, HEAP_START, i);
    }
  }

  lemma HeldIsLive(v: seq<Byte>, cs: seq<Chunk>, t: seq<Event>, p: Word)
    requires Explains(v, cs, t) && p in HeldBy(t)
    ensures exists i :: 0 <= i < |cs| && cs[i].used && cs[i].addr + HEADER == p
  {
    assert Present(cs, p);
  }

  lemma PokeReady(v: seq<Byte>, cs: seq<Chunk>, t: seq<Event>, p: Word, k: Word, i: int)
    requires Explains(v, cs, t) && WellFormed(cs, HEAP_START) && End(cs, HEAP_START) <= HEAP_START + |v|
    requires 0 <= i < |cs| && cs[i].used && cs[i].addr + HEADER == p && p in HeldBy(t) && k < HeldBy(t)[p]
    ensures var y := (cs[i].addr, cs[i].len);
            && HEADER + k < y.1 && y in Live(cs) && k < |Payload(v, y)|
            && forall x | x in Live(cs) :: x.0 == y.0 ==> x == y
  {
    hide HeldBy, Written, Canonical, Live, Tiled;
    assert Intact(v, cs[i], t);
    Within(cs, HEAP_START, i);
    LiveIndex(cs, HEAP_START, i);
    hide Explains, Intact, Payload;
    forall x | x in Live(cs) && x.0 == cs[i].addr
      ensures x.1 == cs[i].len
    {
      LiveUnique(cs, i, x.1);
    }
  }

  /**
   * Every run, whatever the callers do: the heap goes through exactly the states of the machine on values, which is
   * a function of the requests alone; it panics exactly where that machine has not enough frames. At each moment the
   * blocks are the pointers held, each at least as large as asked for and never handed out twice, and every byte
   * stored in a block is still there.
   */
  method Run(h: Heap, script: seq<Op>, s0: State) returns (ok: bool, s: State)
    requires InState(h, s0) && NeverTwice(s0.log)
    modifies h, h.vmm, h.vmm.pmm, h.vmm.pmm.stack
    ensures ok <==> forall k | 0 <= k <= |script| :: Enough(Play(s0, script[..k]), old(h.lay).total)
    ensures ok ==> s == Play(s0, script)
    ensures ok ==> AllAnswered(s0, script)
    ensures ok ==> InState(h, s) && NeverTwice(s.log)
    ensures ok ==> SameFrames(old(h.lay), h.lay) && Untouched(old(h.vmm.ram), h.vmm.ram, h.vmm.cr3, h.lay)
    ensures ok && HeldBy(s.log).Keys == {} ==> h.chunks == [] && h.heapFirst == 0 && |h.lay.pages| <= 1
  {
    hide Intact, Canonical, Laid, View, Encodes, Tiled, Payload, Written, Next, HeldBy, Enough, InState, SameFrames,
         Untouched, Answered;
    ghost var m, l := h.vmm.ram, h.lay;
    s := s0;
    StaysEnough(h, s);
    UntouchedSelf(m, h.vmm.cr3, l);
    var n := 0;
    assert script[..0] == [];
    while n < |script|
      invariant 0 <= n <= |script| && s == Play(s0, script[..n])
      invariant InState(h, s) && NeverTwice(s.log) && SameFrames(l, h.lay) && Untouched(m, h.vmm.ram, h.vmm.cr3, h.lay)
      invariant forall k | 0 <= k <= n :: Enough(Play(s0, script[..k]), l.total)
      invariant forall k | 0 <= k < n :: AnsweredAt(s0, script, k)
    {
      ghost var m', l' := h.vmm.ram, h.lay;
      assert script[..n + 1][..n] == script[..n];
      ok, s := Step(h, script[n], s);
      SameTotal(l, l');
      n := n + 1;
      if !ok {
        return;
      }
      Onwards(m, m', h.vmm.ram, h.vmm.cr3, l, l', h.lay);
    }
    ok := true;
    assert script[..|script|] == script;
    if HeldBy(s.log).Keys == {} {
      NothingHeld(h, s);
    }
  }

  /** Where a run starts: an empty heap is in the state with no chunk and no history. */
  lemma FirstState(h: Heap)
    requires h.Valid() && h.chunks == []
    ensures InState(h, State([], |h.lay.pages|, h.lay.peak, [])) && NeverTwice([])
  {
    hide Laid, View;
  }

  lemma SameTotal(l: Layout, l': Layout)
    requires SameFrames(l, l')
    ensures l'.total == l.total
  {
  }

  lemma Onwards(m: Ram, m1: Ram, m2: Ram, cr3: Word, l: Layout, l1: Layout, l2: Layout)
    requires SameFrames(l, l1) && SameFrames(l1, l2) && Untouched(m, m1, cr3, l1) && Untouched(m1, m2, cr3, l2)
    ensures SameFrames(l, l2) && Untouched(m, m2, cr3, l2)
  {
  }

  lemma NothingHeld(h: Heap, s: State)
    requires InState(h, s) && HeldBy(s.log).Keys == {}
    ensures h.chunks == [] && h.heapFirst == 0 && |h.lay.pages| <= 1
  {
    hide Laid, View, Payload, Written, Explains;
    NoneUsed(h.bytes, h.chunks, s.log);
    h.MappedCount();
  }

  lemma NoneUsed(v: seq<Byte>, cs: seq<Chunk>, t: seq<Event>)
    requires Explains(v, cs, t) && HeldBy(t).Keys == {}
    ensures forall i | 0 <= i < |cs| :: !cs[i].used
  {
    hide Payload, Written, HeldBy;
  }

  // ----- Single-state consequences -----

  /** The bytes of different blocks are disjoint, and all of them are mapped. */
  lemma BlocksDisjoint(h: Heap, i: int, j: int)
    requires h.Valid() && 0 <= i < |h.chunks| && 0 <= j < |h.chunks| && i != j
    ensures var a, b := h.chunks[i], h.chunks[j];
            && (a.addr + a.len <= b.addr || b.addr + b.len <= a.addr)
            && HEAP_START <= a.addr && a.addr + a.len <= h.heapMax
            && forall va | a.addr <= va < a.addr + a.len :: 0 <= va < TWO32 && StoreWalk(h.vmm.ram, h.vmm.cr3, va).Some?
  {
    hide Laid, Encodes, Canonical, Walk, StoreWalk, View, WordAt, Tiled, Untouched, InRam;
    ChunksApart(h.chunks, i, j);
    Within(h.chunks, HEAP_START, i);
    h.MappedCount();
    BelowMapped(h);
  }

  /** All addresses from the start of the heap to heapMax are mapped. */
  lemma BelowMapped(h: Heap)
    requires h.Mapped()
    ensures h.vmm.cr3 + PAGE_SIZE <= |h.vmm.ram|
    ensures forall va | HEAP_START <= va < h.heapMax :: 0 <= va < TWO32 && StoreWalk(h.vmm.ram, h.vmm.cr3, va).Some?
  {
    hide Laid, Walk, StoreWalk, View, WordAt, Untouched, InRam;
    var m, cr3, stack, top, l := h.vmm.ram, h.vmm.cr3, h.vmm.pmm.stack[..], h.vmm.pmm.top, h.lay;
    LaidParts(m, cr3, stack, top, l);
    forall va | HEAP_START <= va < h.heapMax
      ensures 0 <= va < TWO32 && StoreWalk(m, cr3, va).Some?
    {
      HeapWalk(m, cr3, stack, top, l, va - HEAP_START);
    }
  }

  /**
   * The list as it lies in memory: three words at each chunk's address, the links to the neighbours and a word with the
   * allocated bit below the length. The next chunk begins where this one ends.
   */
  lemma ListInMemory(h: Heap, i: int)
    requires h.Valid() && 0 <= i < |h.chunks|
    ensures var c, o, last := h.chunks[i], h.chunks[i].addr - 0xE000_0000, i == |h.chunks| - 1;
            && 0 <= o && o + c.len <= |h.bytes| && c.len >= 12
            && WordAt(h.bytes, o) == (if i == 0 then 0 else h.chunks[i - 1].addr)
            && WordAt(h.bytes, o + 4) == (if last then 0 else h.chunks[i + 1].addr)
            && WordAt(h.bytes, o + 8) % 2 == (if c.used then 1 else 0) && WordAt(h.bytes, o + 8) / 2 == c.len
            && (!last ==> h.chunks[i + 1].addr == c.addr + c.len)
    ensures h.heapFirst == 0xE000_0000 == h.chunks[0].addr
  {
    hide Laid, View, WordAt, Untouched, InRam;
    Within(h.chunks, HEAP_START, i);
    assert HeaderAt(h.bytes, h.chunks, i);
  }

  /** A heap page is mapped if and only if it lies below heapMax, which is within one page of the end of the list. */
  lemma MappedIff(h: Heap, va: Word)
    requires h.Valid() && HEAP_START <= va
    ensures Walk(h.vmm.ram, h.vmm.cr3, va).Some? <==> va < h.heapMax
    ensures StoreWalk(h.vmm.ram, h.vmm.cr3, va) == Walk(h.vmm.ram, h.vmm.cr3, va)
    ensures UserWalk(h.vmm.ram, h.vmm.cr3, va) == None
    ensures h.heapMax % PAGE_SIZE == 0 &&
            End(h.chunks, HEAP_START) <= h.heapMax <= End(h.chunks, HEAP_START) + PAGE_SIZE
  {
    hide Walk, StoreWalk, UserWalk, View, WordAt, Laid, Encodes, Canonical, Tiled, Translate, InRam, Untouched;
    h.MappedCount();
    NoUserAccess(h.vmm.ram, h.vmm.cr3, h.vmm.pmm.stack[..], h.vmm.pmm.top, h.lay, va);
    if va < h.heapMax {
      HeapWalk(h.vmm.ram, h.vmm.cr3, h.vmm.pmm.stack[..], h.vmm.pmm.top, h.lay, va - HEAP_START);
    } else {
      Unmapped(h.vmm.ram, h.vmm.cr3, h.vmm.pmm.stack[..], h.vmm.pmm.top, h.lay, va);
    }
  }

  lemma Unmapped(m: Ram, cr3: Word, stack: seq<Word>, top: int, l: Layout, va: Word)
    requires Laid(m, cr3, stack, top, l) && HEAP_START + PAGE_SIZE * |l.pages| <= va
    ensures cr3 + PAGE_SIZE <= |m| && Walk(m, cr3, va) == None == StoreWalk(m, cr3, va)
  {
    TableBounds(m, cr3, 0);
    assert Pte(m, cr3, va / PAGE_SIZE) == 0;
    hide Laid, WordAt, Pte, Walk, StoreWalk, UserWalk;
    WalkIsPte(m, cr3, va);
  }

  lemma NoUserAccess(m: Ram, cr3: Word, stack: seq<Word>, top: int, l: Layout, va: Word)
    requires Laid(m, cr3, stack, top, l)
    ensures cr3 + PAGE_SIZE <= |m| && UserWalk(m, cr3, va) == None
  {
    LaidParts(m, cr3, stack, top, l);
    hide Laid, Walk, StoreWalk, UserWalk, Pte, Tables, DirectMap;
    WalkIsPte(m, cr3, va);
  }

  /**
   * Which requests a caller may make: kmalloc adds the header in 32 bits and then takes hole i, or the end of the
   * list; the block that starts there ends inside the address space if and only if the request is servable.
   */
  lemma ServableIff(cs: seq<Chunk>, n: Word, i: int)
    requires WellFormed(cs, HEAP_START) && End(cs, HEAP_START) < TWO32 && FirstFit(cs, (n + HEADER) % TWO32, i)
    ensures var a := if i < |cs| then cs[i].addr else End(cs, HEAP_START);
            Servable(cs, n) <==> a + HEADER + n < TWO32
  {
    hide FirstHole;
    if i < |cs| {
      Within(cs, HEAP_START, i);
    } else {
      EndFrom(cs);
    }
    if n + HEADER < TWO32 {
      OneFirst(cs, n + HEADER, i, FirstHole(cs, n + HEADER));
    }
  }

  lemma EndFrom(cs: seq<Chunk>)
    requires WellFormed(cs, HEAP_START)
    ensures HEAP_START <= End(cs, HEAP_START)
  {
    if cs != [] {
      Within(cs, HEAP_START, |cs| - 1);
    }
  }

  /** A request that wraps the header's addition gets a hole that is too small for it, if it gets a hole. */
  lemma HoleTooSmall(cs: seq<Chunk>, n: Word, i: int)
    requires Tiled(cs, HEAP_START) && End(cs, HEAP_START) <= TWO32 - PAGE_SIZE && !Servable(cs, n)
    requires FirstFit(cs, (n + HEADER) % TWO32, i) && i < |cs|
    ensures cs[i].len < n + HEADER
  {
    hide FirstHole;
    Within(cs, HEAP_START, i);
    if n + HEADER < TWO32 {
      OneFirst(cs, n + HEADER, i, FirstHole(cs, n + HEADER));
    }
  }

  /**
   * Any other request that is not servable: alloc_chunk returns without having mapped the block. Some byte behind the
   * pointer that kmalloc goes on to hand out is not mapped; if only the second addition wraps, no page is mapped at
   * all.
   */
  method GrowTooFar(h: Heap, start: Word, n: Word) returns (ok: bool)
    requires h.Valid() && start == End(h.chunks, HEAP_START) && !Servable(h.chunks, n)
    requires FirstFit(h.chunks, (n + HEADER) % TWO32, |h.chunks|)
    modifies h, h.vmm, h.vmm.pmm, h.vmm.pmm.stack
    ensures ok ==> h.Mapped() && h.vmm.cr3 + PAGE_SIZE <= |h.vmm.ram|
    ensures ok ==> HasHole(h.vmm.ram, h.vmm.cr3, start + HEADER, n)
    ensures n + HEADER < TWO32 ==> ok && h.heapMax == old(h.heapMax)
  {
    hide Heap.Valid, Heap.Mapped, Walk, StoreWalk, Cost, Servable, HasHole, SameFrames;
    TooFarReady(h, start, n);
    h.MappedCount();
    ok := h.AllocChunk(start, (n + HEADER) % TWO32);
    if ok {
      h.MappedCount();
      AboveHeap(h, if h.heapMax < start + HEADER then start + HEADER else h.heapMax, start + HEADER, n);
    }
  }

  lemma TooFarReady(h: Heap, start: Word, n: Word)
    requires h.Valid() && start == End(h.chunks, HEAP_START) && !Servable(h.chunks, n)
    requires FirstFit(h.chunks, (n + HEADER) % TWO32, |h.chunks|)
    ensures h.Mapped() && start + HEADER < TWO32 <= start + HEADER + n && start <= h.heapMax
    ensures n + HEADER < TWO32 ==>
              Target(start, n + HEADER) < start && Cost(h.lay, Target(start, n + HEADER)) <= h.vmm.pmm.top
  {
    hide Laid, Encodes, Canonical, View, Tiled, Untouched, InRam, Cost, Servable;
    ServableIff(h.chunks, n, |h.chunks|);
    BelowHeapMax(h);
    h.MappedCount();
    NoCost(h.lay, h.heapMax, Target(start, (n + HEADER) % TWO32));
  }

  /** Some byte of the n from va on is in the address space and not mapped. */
  ghost predicate HasHole(m: Ram, cr3: Word, va: int, n: int)
    requires cr3 + PAGE_SIZE <= |m|
  {
    exists a: Word :: va <= a < va + n && Walk(m, cr3, a) == None
  }

  lemma NoCost(l: Layout, heapMax: int, target: int)
    requires heapMax == HEAP_START + PAGE_SIZE * |l.pages|
    ensures target <= heapMax ==> Cost(l, target) == 0
  {
  }

  lemma AboveHeap(h: Heap, va: Word, from: int, n: int)
    requires h.Mapped() && h.heapMax <= va && from <= va < from + n
    ensures h.vmm.cr3 + PAGE_SIZE <= |h.vmm.ram| && HasHole(h.vmm.ram, h.vmm.cr3, from, n)
  {
    hide Walk, StoreWalk, Laid, View, InRam, Untouched;
    Unmapped(h.vmm.ram, h.vmm.cr3, h.vmm.pmm.stack[..], h.vmm.pmm.top, h.lay, va);
  }

  /**
   * On an empty heap, 512 MB less the header is too much: no page is mapped, and kmalloc would go on to write a
   * header.
   */
  method FirstRequestTooLarge(h: Heap) returns (ok: bool)
    requires h.Valid() && h.chunks == []
    modifies h, h.vmm, h.vmm.pmm, h.vmm.pmm.stack
    ensures !Servable([], 0x1FFF_FFF4) && Servable([], 0x1FFF_FFF3)
    ensures ok && h.heapMax == old(h.heapMax) && h.Mapped() && h.vmm.cr3 + PAGE_SIZE <= |h.vmm.ram|
    ensures HasHole(h.vmm.ram, h.vmm.cr3, HEAP_START + HEADER, 0x1FFF_FFF4)
  {
    hide Heap.Valid, Heap.Mapped, HasHole;
    assert FirstHole([], 0x1FFF_FFF4 + HEADER) == 0 && FirstFit([], 0x2000_0000, 0);
    ok := GrowTooFar(h, HEAP_START, 0x1FFF_FFF4);
  }

  /** Every pointer held leads to a block, and every block is held. */
  lemma HeldIff(h: Heap, s: State, p: Word)
    requires InState(h, s)
    ensures p in HeldBy(s.log) <==> UsedAt(s.chunks, p - HEADER) < |s.chunks|
  {
    hide HeldBy, Written, Payload, Laid, View, Encodes;
    var i := UsedAt(s.chunks, p - HEADER);
    if i < |s.chunks| {
      assert Intact(h.bytes, s.chunks[i], s.log);
    }
    if p in HeldBy(s.log) {
      assert Present(s.chunks, p);
    }
  }

  /**
   * What a caller finds: every byte of a block it holds can be written through the page tables, and a byte it has
   * stored is read back through them. Blocks of different pointers have no address in common.
   */
  lemma BlockUsable(h: Heap, s: State, p: Word, k: Word)
    requires InState(h, s) && p in HeldBy(s.log) && k < HeldBy(s.log)[p]
    ensures Found(h.vmm.ram, h.vmm.cr3, p + k, if k in Written(s.log, p) then Some(Written(s.log, p)[k]) else None)
  {
    hide HeldBy, Written, InState, Intact;
    var i := HeldChunk(h, s, p);
    HeldByte(h.bytes, h.chunks[i], s.log, k);
    ByteFound(h, s, p + k);
    hide Vmm.Writable;
  }

  /** The hardware lets the kernel write at va, and finds the given byte there. */
  ghost predicate Found(m: Ram, cr3: Word, va: int, b: Option<Byte>) {
    exists a :: Vmm.Writable(m, cr3, va, a) && (b.Some? ==> m[a] == b.value)
  }

  lemma ByteFound(h: Heap, s: State, va: int)
    requires InState(h, s) && HEAP_START <= va < HEAP_START + |h.bytes|
    ensures Found(h.vmm.ram, h.vmm.cr3, va, Some(h.bytes[va - HEAP_START]))
  {
    hide HeldBy, Written, Laid, Walk, StoreWalk, Encodes, Untouched, Tiled, Canonical, InRam, Explains;
    var o := va - HEAP_START;
    HeapWalk(h.vmm.ram, h.vmm.cr3, h.vmm.pmm.stack[..], h.vmm.pmm.top, h.lay, o);
    assert h.bytes[o] == h.vmm.ram[Translate(h.lay, o)];
  }

  /** The chunk of a pointer held, inside the mapped heap. */
  lemma HeldChunk(h: Heap, s: State, p: Word) returns (i: int)
    requires InState(h, s) && p in HeldBy(s.log)
    ensures 0 <= i < |h.chunks| && h.chunks[i].addr + HEADER == p && Intact(h.bytes, h.chunks[i], s.log)
    ensures HEAP_START <= h.chunks[i].addr && h.chunks[i].addr + h.chunks[i].len <= HEAP_START + |h.bytes|
  {
    hide HeldBy, Intact, Laid, View, Encodes, Untouched, Canonical, InRam;
    HeldIsLive(h.bytes, h.chunks, s.log, p);
    i :| 0 <= i < |h.chunks| && h.chunks[i].used && h.chunks[i].addr + HEADER == p;
    Within(h.chunks, HEAP_START, i);
  }

  lemma HeldByte(v: seq<Byte>, c: Chunk, t: seq<Event>, k: Word)
    requires Intact(v, c, t) && HEAP_START <= c.addr && c.addr + c.len <= HEAP_START + |v|
    requires k < HeldBy(t)[c.addr + HEADER]
    ensures 0 <= c.addr + HEADER + k - HEAP_START < |v|
    ensures k in Written(t, c.addr + HEADER) ==>
              v[c.addr + HEADER + k - HEAP_START] == Written(t, c.addr + HEADER)[k]
  {
    hide HeldBy, Written;
  }

  // ----- The kernel's own test -----

  const MALLOCS: seq<Op> := [Malloc(500), Malloc(5000), Malloc(50000)]
  const FREES: seq<Op> := [Op.Free(0xE000_000C), Op.Free(0xE000_020C), Op.Free(0xE000_15A0)]

  /** After the three requests of kern/init/entry.c: blocks back to back from the start of the heap, on 14 pages. */
  function Three(): State {
    State([Chunk(0xE000_0000, 512, true), Chunk(0xE000_0200, 5012, true), Chunk(0xE000_1594, 50012, true)], 14, 14,
          [Got(0xE000_000C, 500), Got(0xE000_020C, 5000), Got(0xE000_15A0, 50000)])
  }

  lemma ThreeMallocs()
    ensures Play(NOTHING, MALLOCS) == Three()
  {
    var s1 := State([Chunk(0xE000_0000, 512, true)], 1, 1, [Got(0xE000_000C, 500)]);
    var s2 := State([Chunk(0xE000_0000, 512, true), Chunk(0xE000_0200, 5012, true)], 2, 2,
                    [Got(0xE000_000C, 500), Got(0xE000_020C, 5000)]);
    hide Next;
    AppendNext(NOTHING, 500, s1);
    AppendNext(s1, 5000, s2);
    AppendNext(s2, 50000, Three());
    PlayThree(NOTHING, Malloc(500), Malloc(5000), Malloc(50000));
  }

  lemma PlayThree(s: State, a: Op, b: Op, c: Op)
    ensures Play(s, [a, b, c]) == Next(Next(Next(s, a), b), c)
  {
    hide Next;
    assert [a][..0] == [] && [a, b][..1] == [a] && [a, b, c][..2] == [a, b];
    assert Play(s, [a]) == Next(Play(s, []), a);
    assert Play(s, [a, b]) == Next(Play(s, [a]), b);
  }

  /** Freed in the same order: a hole, a larger hole, and an empty heap with one page kept. */
  lemma ThreeFrees()
    ensures Play(Three(), FREES).chunks == [] && Play(Three(), FREES).pages == 1
    ensures HeldBy(Play(Three(), FREES).log) == map[]
  {
    FirstFree();
    SecondFree();
    LastFree();
    hide HeldBy, Next, Three, OneFreed, TwoFreed, NoneLeft;
    PlayThree(Three(), FREES[0], FREES[1], FREES[2]);
    assert [FREES[0], FREES[1], FREES[2]] == FREES;
  }

  function OneFreed(): State {
    State([Three().chunks[0].(used := false), Three().chunks[1], Three().chunks[2]], 14, 14,
        Three().log + [Freed(0xE000_000C)])
  }

  function TwoFreed(): State {
    State([Chunk(0xE000_0000, 5524, false), Three().chunks[2]], 14, 14, OneFreed().log + [Freed(0xE000_020C)])
  }

  function NoneLeft(): State {
    State([], 1, 14, TwoFreed().log + [Freed(0xE000_15A0)])
  }

  lemma FirstFree()
    ensures Next(Three(), FREES[0]) == OneFreed()
    ensures HeldBy(OneFreed().log) == map[0xE000_020C := 5000, 0xE000_15A0 := 50000]
  {
    hide HeldBy, Next;
    HeldThree();
    HeldOne(Three().log, Freed(0xE000_000C));
    ReleaseFirst(Three().chunks[0], Three().chunks[1], Three().chunks[2]);
    FreeNext(Three(), 0xE000_000C, 0, OneFreed());
  }

  lemma SecondFree()
    requires HeldBy(OneFreed().log) == map[0xE000_020C := 5000, 0xE000_15A0 := 50000]
    ensures Next(OneFreed(), FREES[1]) == TwoFreed() && HeldBy(TwoFreed().log) == map[0xE000_15A0 := 50000]
  {
    hide HeldBy, Next;
    HeldOne(OneFreed().log, Freed(0xE000_020C));
    ReleaseSecond(OneFreed().chunks[0], Three().chunks[1], Three().chunks[2]);
    FreeNext(OneFreed(), 0xE000_020C, 1, TwoFreed());
  }

  lemma LastFree()
    requires HeldBy(TwoFreed().log) == map[0xE000_15A0 := 50000]
    ensures Next(TwoFreed(), FREES[2]) == NoneLeft() && HeldBy(NoneLeft().log) == map[]
    ensures NoneLeft().chunks == [] && NoneLeft().pages == 1
  {
    hide HeldBy, Next;
    HeldOne(TwoFreed().log, Freed(0xE000_15A0));
    ReleaseLast(Chunk(0xE000_0000, 5524, false), Three().chunks[2]);
    FreeNext(TwoFreed(), 0xE000_15A0, 1, NoneLeft());
  }

  lemma FreeNext(s: State, p: Word, i: nat, s': State)
    requires p in HeldBy(s.log) && i < |s.chunks| && s.chunks[i].used && s.chunks[i].addr + HEADER == p
    requires forall j | 0 <= j < i :: s.chunks[j].addr + HEADER != p
    requires s'.chunks == Release(s.chunks, i) && s'.peak == s.peak && s'.log == s.log + [Freed(p)]
    requires s'.pages == if End(s'.chunks, HEAP_START) == End(s.chunks, HEAP_START) then s.pages
                         else (PageAbove(End(s'.chunks, HEAP_START)) - HEAP_START) / PAGE_SIZE
    ensures Next(s, Op.Free(p)) == s'
  {
    hide HeldBy, Release, PageAbove;
    assert UsedAt(s.chunks, p - HEADER) == i;
  }

  lemma HeldOne(t: seq<Event>, e: Event)
    ensures HeldBy(t + [e]) == HeldAfter(HeldBy(t), e)
  {
    assert (t + [e])[..|t|] == t;
  }

  lemma HeldThree()
    ensures HeldBy(Three().log) == map[0xE000_000C := 500, 0xE000_020C := 5000, 0xE000_15A0 := 50000]
  {
    var a, b, c := Got(0xE000_000C, 500), Got(0xE000_020C, 5000), Got(0xE000_15A0, 50000);
    HeldOne([], a);
    HeldOne([a], b);
    HeldOne([a, b], c);
    assert HeldBy([]) == map[];
    hide HeldBy;
    assert [] + [a] == [a] && [a] + [b] == [a, b] && [a, b] + [c] == Three().log;
  }

  lemma ReleaseFirst(a: Chunk, b: Chunk, c: Chunk)
    requires a.used && b.used && c.used
    ensures Release([a, b, c], 0) == [a.(used := false), b, c]
  {
  }

  lemma ReleaseSecond(a: Chunk, b: Chunk, c: Chunk)
    requires !a.used && b.used && c.used
    ensures Release([a, b, c], 1) == [a.(len := a.len + b.len), c]
  {
    assert Mark([a, b, c], 1, false) == [a, b.(used := false), c];
    assert MergePrev([a, b.(used := false), c], 1) == [a.(len := a.len + b.len), c];
  }

  lemma ReleaseLast(a: Chunk, b: Chunk)
    requires !a.used && b.used
    ensures Release([a, b], 1) == []
  {
    assert Mark([a, b], 1, false) == [a, b.(used := false)];
    assert MergePrev([a, b.(used := false)], 1) == [a.(len := a.len + b.len)];
  }

  /** The kernel's test at boot, on an empty heap: the pointers it prints, and the heap empty again. */
  lemma BootTest()
    ensures var after := Play(NOTHING, MALLOCS);
            && after.log == [Got(0xE000_000C, 500), Got(0xE000_020C, 5000), Got(0xE000_15A0, 50000)]
            && Play(after, FREES).chunks == [] && HeldBy(Play(after, FREES).log) == map[]
  {
    ThreeMallocs();
    ThreeFrees();
  }

  /** With nothing free, kmalloc appends. */
  lemma AppendNext(s: State, n: Word, s': State)
    requires forall i | 0 <= i < |s.chunks| :: s.chunks[i].used
    requires var a := End(s.chunks, HEAP_START);
             && 0 <= a && a + n + HEADER < TWO32
             && s'.chunks == s.chunks + [Chunk(a, n + HEADER, true)] &&
                s'.pages == Peak(s.pages, PagesFor(a + n + HEADER))
             && s'.peak == Peak(s.peak, s'.pages) && s'.log == s.log + [Got(a + HEADER, n)]
    ensures Next(s, Malloc(n)) == s'
  {
    hide PagesFor, Peak;
    var i := FirstHole(s.chunks, n + HEADER);
    assert i == |s.chunks|;
  }
}
