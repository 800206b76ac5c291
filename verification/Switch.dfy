/**
 * kern/schedule/switchasm.S: the context switch, instruction by instruction, over the registers it
 * saves and the kernel's memory. Addresses are virtual; all kernel threads share one page directory.
 */
module Switch {
  import opened Words

  type Memory = seq<Byte>

  datatype Regs = Regs(esp: int, ebp: Word, ebx: Word, esi: Word, edi: Word, eflags: Word, eip: Word)

  const CONTEXT_SIZE := 24   // sizeof(context_t): esp, ebp, ebx, esi, edi, eflags

  /** The word at a; memory is the whole 32-bit space. */
  function Peek(m: Memory, a: int): Word {
    if 0 <= a && a + 4 <= |m| then WordAt(m, a) else 0
  }

  /** m' is m after the word w was stored at a. */
  ghost predicate Wrote(m: Memory, m': Memory, a: int, w: Word) {
    && |m'| == |m|
    && Peek(m', a) == w
    && (forall b {:trigger Peek(m', b)} :: b + 4 <= a || a + 4 <= b ==> Peek(m', b) == Peek(m, b))
    && (forall k | 0 <= k < |m| && !(a <= k < a + 4) :: m'[k] == m[k])
  }

  lemma StoredWrote(m: Memory, m': Memory, a: int, w: Word)
    requires 0 <= a && a + 4 <= |m| && Stored(m, m', a, w)
    ensures Wrote(m, m', a, w)
  {
  }

  function Put(m: Memory, a: int, w: Word): Memory
    requires 0 <= a && a + 4 <= |m|
  {
    m[a := ByteOf(w, 0)][a + 1 := ByteOf(w, 1)][a + 2 := ByteOf(w, 2)][a + 3 := ByteOf(w, 3)]
  }

  lemma PutStored(m: Memory, a: int, w: Word)
    requires 0 <= a && a + 4 <= |m|
    ensures Stored(m, Put(m, a, w), a, w)
  {
    BytesOfWord(w);
  }

  /** The saved context at c holds these registers; eip is the word that its stack pointer points at. */
  ghost predicate ContextAt(m: Memory, c: int, r: Regs) {
    && Peek(m, c) == r.esp && Peek(m, c + 4) == r.ebp && Peek(m, c + 8) == r.ebx && Peek(m, c + 12) == r.esi
    && Peek(m, c + 16) == r.edi && Peek(m, c + 20) == r.eflags && Peek(m, r.esp) == r.eip
  }

  /**
   * The six words of a saved context: esp, ebp, ebx, esi, edi, eflags; the stack pointer points at the return
   * address.
   */
  lemma ContextWords(m: Memory, c: int, r: Regs)
    requires 0 <= c && c + 24 <= |m| && 0 <= r.esp && r.esp + 4 <= |m|
    ensures ContextAt(m, c, r) <==>
              && WordAt(m, c) == r.esp && WordAt(m, c + 4) == r.ebp && WordAt(m, c + 8) == r.ebx
              && WordAt(m, c + 12) == r.esi && WordAt(m, c + 16) == r.edi && WordAt(m, c + 20) == r.eflags
              && WordAt(m, r.esp) == r.eip
  {
    hide WordAt;
  }

  predicate Clear(a: int, n: int, b: int, k: int) {
    a + n <= b || b + k <= a
  }

  /** m' differs from m at most in the outgoing context and in the scratch words below both stack pointers. */
  ghost predicate OnlySwitched(m: Memory, m': Memory, prev: int, e: int, s: int) {
    && |m'| == |m|
    && forall k | 0 <= k < |m| && !(prev <= k < prev + CONTEXT_SIZE) && !(e - 4 <= k < e) && !(s - 4 <= k < s) ::
       m'[k] == m[k]
  }

  class Machine {
    var mem: Memory
    var regs: Regs

    constructor (mem: Memory, regs: Regs)
      ensures this.mem == mem && this.regs == regs
    {
      this.mem, this.regs := mem, regs;
    }

    method Store(a: int, w: Word)
      requires 0 <= a && a + 4 <= |mem|
      modifies `mem
      ensures Wrote(old(mem), mem, a, w)
    {
      hide Put, Stored, Wrote;
      PutStored(mem, a, w);
      StoredWrote(mem, Put(mem, a, w), a, w);
      mem := Put(mem, a, w);
    }

    method Push(w: Word)
      requires 4 <= regs.esp && regs.esp <= |mem|
      modifies `mem, `regs
      ensures regs == old(regs).(esp := old(regs).esp - 4)
      ensures Wrote(old(mem), mem, old(regs).esp - 4, w)
    {
      regs := regs.(esp := regs.esp - 4);
      Store(regs.esp, w);
    }

    method Pop() returns (w: Word)
      requires 0 <= regs.esp && regs.esp + 4 <= |mem|
      modifies `regs
      ensures regs == old(regs).(esp := old(regs).esp + 4)
      ensures w == Peek(mem, old(regs).esp)
    {
      w := Peek(mem, regs.esp);
      regs := regs.(esp := regs.esp + 4);
    }

    /** Lines 4-17 of switch_to: the running registers go to the context that the first argument points at. */
    method SaveContext(ghost prev: int)
      requires Peek(mem, regs.esp + 4) == prev && 4 <= regs.esp < TWO32 && regs.esp + 12 <= |mem| &&
               prev + CONTEXT_SIZE <= |mem|
      requires Clear(prev, CONTEXT_SIZE, regs.esp - 4, 16)
      modifies `mem, `regs
      ensures regs == old(regs)
      ensures ContextAt(mem, prev, regs.(eip := Peek(old(mem), regs.esp)))
      ensures Peek(mem, regs.esp + 8) == Peek(old(mem), regs.esp + 8)
      ensures |mem| == |old(mem)|
      ensures forall k | 0 <= k < |mem| && !(prev <= k < prev + CONTEXT_SIZE) && !(regs.esp - 4 <= k < regs.esp) ::
              mem[k] == old(mem)[k]
    {
      hide Peek;
      var eax: int := Peek(mem, regs.esp + 4);
      Store(eax + 0, regs.esp);
      Store(eax + 4, regs.ebp);
      Store(eax + 8, regs.ebx);
      Store(eax + 12, regs.esi);
      Store(eax + 16, regs.edi);
      Push(regs.eflags);
      var ecx := Pop();
      Store(eax + 20, ecx);
    }

    /** Lines 18-29: the registers come from the context that the second argument points at, and ret leaves. */
    method LoadContext(ghost next: int, ghost r: Regs)
      requires 0 <= regs.esp && Peek(mem, regs.esp + 8) == next && ContextAt(mem, next, r)
      requires 4 <= r.esp < TWO32 && r.esp + 4 <= |mem|
      modifies `mem, `regs
      ensures regs == r.(esp := r.esp + 4)
      ensures Wrote(old(mem), mem, r.esp - 4, r.eflags)
    {
      hide Peek;
      var eax: int := Peek(mem, regs.esp + 8);
      regs := regs.(esp := Peek(mem, eax + 0));
      regs := regs.(ebp := Peek(mem, eax + 4));
      regs := regs.(ebx := Peek(mem, eax + 8));
      regs := regs.(esi := Peek(mem, eax + 12));
      regs := regs.(edi := Peek(mem, eax + 16));
      eax := Peek(mem, eax + 20);
      Push(eax);
      var flags := Pop();
      regs := regs.(eflags := flags);
      var eip := Pop();
      regs := regs.(eip := eip);
    }

    /**
     * switch_to(prev, next): saves what is running, resumes r. The scratch pushes around pushf and popf hit
     * only the word below each stack pointer.
     */
    method SwitchTo(ghost prev: int, ghost next: int, ghost r: Regs)
      requires 4 <= regs.esp < TWO32 && regs.esp + 12 <= |mem| && prev + CONTEXT_SIZE <= |mem| &&
               next + CONTEXT_SIZE <= |mem|
      requires Peek(mem, regs.esp + 4) == prev && Peek(mem, regs.esp + 8) == next
      requires ContextAt(mem, next, r) && 4 <= r.esp < TWO32 && r.esp + 4 <= |mem|
      requires Clear(prev, CONTEXT_SIZE, regs.esp - 4, 16) && Clear(next, CONTEXT_SIZE, prev, CONTEXT_SIZE)
      requires Clear(next, CONTEXT_SIZE, regs.esp - 4, 4) && Clear(r.esp, 4, regs.esp - 4, 4) &&
               Clear(r.esp, 4, prev, CONTEXT_SIZE)
      requires Clear(prev, CONTEXT_SIZE, r.esp - 4, 4) && Clear(regs.esp, 4, r.esp - 4, 4)
      modifies `mem, `regs
      ensures regs == r.(esp := r.esp + 4)
      ensures ContextAt(mem, prev, old(regs).(eip := Peek(old(mem), old(regs).esp)))
      ensures OnlySwitched(old(mem), mem, prev, old(regs).esp, r.esp)
    {
      ghost var m := mem;
      SaveContext(prev);
      ContextKept(m, mem, next, r);
      LoadContext(next, r);
    }
  }

  lemma SameWord(m: Memory, m': Memory, a: int)
    requires |m'| == |m| && forall k | 0 <= k < |m| && a <= k < a + 4 :: m'[k] == m[k]
    ensures Peek(m', a) == Peek(m, a)
  {
  }

  /** A context whose words and return address are untouched still holds the same registers. */
  lemma ContextKept(m: Memory, m': Memory, c: int, r: Regs)
    requires ContextAt(m, c, r) && |m'| == |m|
    requires forall k | 0 <= k < |m| && (c <= k < c + CONTEXT_SIZE || r.esp <= k < r.esp + 4) :: m'[k] == m[k]
    ensures ContextAt(m', c, r)
  {
    SameWord(m, m', c);
    SameWord(m, m', c + 4);
    SameWord(m, m', c + 8);
    SameWord(m, m', c + 12);
    SameWord(m, m', c + 16);
    SameWord(m, m', c + 20);
    SameWord(m, m', r.esp);
  }
}
