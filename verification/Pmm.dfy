/** kern/mm/pmm.c: the bounded stack of free page frames and its filling from the Multiboot memory map. */
module Pmm {
  import opened Words

  const PAGE_MAX_SIZE := 0x2_0000

  /** A 24-byte entry of the memory map of section 3.3 of the Multiboot Specification. */
  datatype MmapEntry = MmapEntry(baseLow: Word, baseHigh: Word, lengthLow: Word, lengthHigh: Word, kind: Word)

  class Pmm {
    const stack: array<Word>
    var top: nat
    var pageCount: nat

    ghost predicate Valid()
      reads this
    {
      stack.Length == PAGE_MAX_SIZE + 1 && top <= PAGE_MAX_SIZE
    }

    /** The free frames, bottom of the stack first; slot 0 is never used. */
    ghost function Free(): (s: seq<Word>)
      requires Valid()
      reads this, stack
    {
      stack[1..top + 1]
    }

    constructor ()
      ensures Valid() && fresh(stack) && Free() == [] && pageCount == 0
    {
      stack := new Word[PAGE_MAX_SIZE + 1](_ => 0);
      top := 0;
      pageCount := 0;
    }

    /** pmm_alloc_page; None is the "out of memory" panic. */
    method AllocPage() returns (r: Option<Word>)
      requires Valid()
      modifies this`top
      ensures Valid()
      ensures r.None? <==> old(top) == 0
      ensures r.None? ==> top == old(top)
      ensures r.Some? ==> top == old(top) - 1 && r.value == stack[old(top)] && old(Free()) == Free() + [r.value]
    {
      if top == 0 {
        return None;
      }
      r := Some(stack[top]);
      top := top - 1;
    }

    /** pmm_free_page; false is the "out of pmm_stack stack" panic. */
    method FreePage(p: Word) returns (ok: bool)
      requires Valid()
      modifies this`top, stack
      ensures Valid()
      ensures ok <==> old(top) < PAGE_MAX_SIZE
      ensures !ok ==> top == old(top) && stack[..] == old(stack[..])
      ensures ok ==> top == old(top) + 1 && stack[..] == old(stack[..])[top := p]
      ensures ok ==> Free() == old(Free()) + [p]
    {
      if top == PAGE_MAX_SIZE {
        return false;
      }
      top := top + 1;
      stack[top] := p;
      ok := true;
    }

    /** The inner loop of init_pmm; false is the stack-overflow panic. */
    method PushRange(begin: Word, end: Word) returns (ok: bool)
      requires Valid() && pageCount == top && begin % PAGE_SIZE == 0 && end % PAGE_SIZE == 0
      modifies this, stack
      ensures Valid() && pageCount == top
      ensures ok <==> old(top) + |PagesFrom(begin, end)| <= PAGE_MAX_SIZE
      ensures ok ==> Free() == old(Free()) + PagesFrom(begin, end)
    {
      ghost var done := Free() + PagesFrom(begin, end);
      var b: int := begin;
      while b < end
        invariant 0 <= b && b % PAGE_SIZE == 0
        invariant Valid() && pageCount == top
        invariant done == Free() + PagesFrom(b, end)
      {
        var pushed := FreePage(b);
        if !pushed {
          assert |done| > PAGE_MAX_SIZE;
          return false;
        }
        b := b + PAGE_SIZE;
        pageCount := pageCount + 1;
      }
      ok := true;
    }

    /** init_pmm; false is the stack-overflow panic. */
    method InitPmm(mmap: seq<MmapEntry>, kernEnd: Word) returns (ok: bool)
      requires Valid() && top == 0 && pageCount == 0
      modifies this, stack
      ensures Valid()
      ensures ok <==> |MapPages(mmap, kernEnd)| <= PAGE_MAX_SIZE
      ensures ok ==> Free() == MapPages(mmap, kernEnd) && pageCount == top
    {
      hide MapPages, RoundUp, RoundDown, PagesFrom;
      ghost var all := MapPages(mmap, kernEnd);
      EmptyMap(mmap, kernEnd);
      var i := 0;
      while i < |mmap|
        invariant 0 <= i <= |mmap|
        invariant Valid() && pageCount == top
        invariant all == Free() + MapPages(mmap[i..], kernEnd)
      {
        var e := mmap[i];
        MapPagesStep(Free(), mmap[i..], kernEnd);
        assert mmap[i..][1..] == mmap[i + 1..];
        i := i + 1;
        if e.kind == 1 {
          var begin := if e.baseLow < kernEnd then kernEnd else e.baseLow;
          var end := (e.baseLow + e.lengthLow) % TWO32;
          begin := RoundUp(begin);
          end := RoundDown(end);
          if end < kernEnd {
            continue;
          }
          var pushed := PushRange(begin, end);
          if !pushed {
            return false;
          }
        }
      }
      ok := true;
    }
  }

  /** The frames begin, begin + 4096, ... below end. */
  function PagesFrom(begin: int, end: int): (s: seq<Word>)
    requires 0 <= begin && end < TWO32
    decreases end - begin
  {
    if begin >= end then [] else [begin] + PagesFrom(begin + PAGE_SIZE, end)
  }

  /** The frames that one entry contributes, in the order in which they are pushed. */
  function EntryPages(e: MmapEntry, kernEnd: Word): seq<Word> {
    if e.kind != 1 then [] else
      var begin := RoundUp(if e.baseLow < kernEnd then kernEnd else e.baseLow);
      var end := RoundDown((e.baseLow + e.lengthLow) % TWO32);
      if end < kernEnd then [] else PagesFrom(begin, end)
  }

  function MapPages(mmap: seq<MmapEntry>, kernEnd: Word): seq<Word> {
    if mmap == [] then [] else EntryPages(mmap[0], kernEnd) + MapPages(mmap[1..], kernEnd)
  }

  lemma EmptyMap(mmap: seq<MmapEntry>, kernEnd: Word)
    ensures mmap[0..] == mmap && MapPages(mmap[|mmap|..], kernEnd) == []
    ensures [] + MapPages(mmap, kernEnd) == MapPages(mmap, kernEnd)
  {
  }

  lemma MapPagesStep(s: seq<Word>, mmap: seq<MmapEntry>, kernEnd: Word)
    requires mmap != []
    ensures s + MapPages(mmap, kernEnd) == s + EntryPages(mmap[0], kernEnd) + MapPages(mmap[1..], kernEnd)
    ensures s + [] == s
  {
  }

  // ----- What the stack holds -----

  function Base(e: MmapEntry): int {
    e.baseLow + TWO32 * e.baseHigh
  }

  function Limit(e: MmapEntry): int {
    Base(e) + e.lengthLow + TWO32 * e.lengthHigh
  }

  /** p is an aligned page, above the kernel, that lies wholly inside the 64-bit region of a type-1 entry. */
  predicate Usable(e: MmapEntry, kernEnd: Word, p: int) {
    e.kind == 1 && p % PAGE_SIZE == 0 && kernEnd <= p && Base(e) <= p && p + PAGE_SIZE <= Limit(e)
  }

  /** The code reads only the low words: an entry is within its reach when it ends below 4 GB. */
  predicate Reachable(e: MmapEntry) {
    e.kind == 1 ==> Limit(e) < TWO32 && Base(e) <= TWO32 - PAGE_SIZE
  }

  ghost predicate NoDup<T>(s: seq<T>) {
    forall i, j | 0 <= i < j < |s| :: s[i] != s[j]
  }

  lemma {:induction false} PagesFromAt(begin: int, end: int)
    requires 0 <= begin && end < TWO32
    ensures forall i | 0 <= i < |PagesFrom(begin, end)| :: PagesFrom(begin, end)[i] == begin + PAGE_SIZE * i < end
    ensures begin < end ==> begin + PAGE_SIZE * |PagesFrom(begin, end)| >= end
    decreases end - begin
  {
    if begin < end {
      PagesFromAt(begin + PAGE_SIZE, end);
    }
  }

  lemma PagesFromIn(begin: int, end: int, p: int)
    requires 0 <= begin && end < TWO32 && begin % PAGE_SIZE == 0 && end % PAGE_SIZE == 0
    ensures p in PagesFrom(begin, end) <==> p % PAGE_SIZE == 0 && begin <= p < end
  {
    PagesFromAt(begin, end);
    if p % PAGE_SIZE == 0 && begin <= p < end {
      assert PagesFrom(begin, end)[(p - begin) / PAGE_SIZE] == p;
    }
  }

  /** One reachable entry contributes exactly its usable pages ... */
  lemma EntryExact(e: MmapEntry, kernEnd: Word, p: int)
    requires Reachable(e) && kernEnd <= TWO32 - PAGE_SIZE
    ensures p in EntryPages(e, kernEnd) <==> Usable(e, kernEnd, p)
  {
    hide RoundUp, RoundDown, Base, Limit, PagesFrom;
    if e.kind == 1 {
      LowWords(e);
      var first := if e.baseLow < kernEnd then kernEnd else e.baseLow;
      RoundedIn(first, Limit(e), p);
      PagesFromIn(RoundUp(first), RoundDown(Limit(e)), p);
    }
  }

  /** For a reachable region the low words say it all. */
  lemma LowWords(e: MmapEntry)
    requires Reachable(e) && e.kind == 1
    ensures Base(e) == e.baseLow <= TWO32 - PAGE_SIZE &&
            Limit(e) == e.baseLow + e.lengthLow == (e.baseLow + e.lengthLow) % TWO32
  {
  }

  /** ... each once. */
  lemma EntryNoDup(e: MmapEntry, kernEnd: Word)
    ensures NoDup(EntryPages(e, kernEnd))
  {
    var begin := RoundUp(if e.baseLow < kernEnd then kernEnd else e.baseLow);
    PagesFromAt(begin, RoundDown((e.baseLow + e.lengthLow) % TWO32));
  }

  lemma RoundedIn(first: Word, limit: Word, p: int)
    requires first <= TWO32 - PAGE_SIZE
    ensures p % PAGE_SIZE == 0 && RoundUp(first) <= p < RoundDown(limit)
       <==> p % PAGE_SIZE == 0 && first <= p && p + PAGE_SIZE <= limit
  {
    var up, down := RoundUp(first), RoundDown(limit);
    hide RoundUp, RoundDown;
    if p % PAGE_SIZE == 0 {
      var k, u, d := p / PAGE_SIZE, up / PAGE_SIZE, down / PAGE_SIZE;
      assert p == PAGE_SIZE * k && up == PAGE_SIZE * u && down == PAGE_SIZE * d;
    }
  }

  ghost predicate Disjoint(mmap: seq<MmapEntry>) {
    forall i, j | 0 <= i < j < |mmap| && mmap[i].kind == 1 && mmap[j].kind == 1 ::
      Limit(mmap[i]) <= Base(mmap[j]) || Limit(mmap[j]) <= Base(mmap[i])
  }

  ghost predicate UsableIn(mmap: seq<MmapEntry>, kernEnd: Word, p: int) {
    exists i :: 0 <= i < |mmap| && Usable(mmap[i], kernEnd, p)
  }

  /** init_pmm is exact: the stack holds precisely the usable pages of the map. */
  lemma {:induction false} MapExact(mmap: seq<MmapEntry>, kernEnd: Word, p: int)
    requires kernEnd <= TWO32 - PAGE_SIZE && forall i | 0 <= i < |mmap| :: Reachable(mmap[i])
    ensures p in MapPages(mmap, kernEnd) <==> UsableIn(mmap, kernEnd, p)
  {
    if mmap != [] {
      var rest := mmap[1..];
      assert forall i | 0 <= i < |rest| :: rest[i] == mmap[i + 1];
      MapExact(rest, kernEnd, p);
      EntryExact(mmap[0], kernEnd, p);
      if UsableIn(rest, kernEnd, p) {
        var i :| 0 <= i < |rest| && Usable(rest[i], kernEnd, p);
        assert Usable(mmap[i + 1], kernEnd, p);
      }
    }
  }

  /** ... and each of them once, when the regions do not overlap. */
  lemma {:induction false} MapNoDup(mmap: seq<MmapEntry>, kernEnd: Word)
    requires kernEnd <= TWO32 - PAGE_SIZE && forall i | 0 <= i < |mmap| :: Reachable(mmap[i])
    requires Disjoint(mmap)
    ensures NoDup(MapPages(mmap, kernEnd))
  {
    if mmap != [] {
      var rest := mmap[1..];
      assert forall i | 0 <= i < |rest| :: rest[i] == mmap[i + 1];
      MapNoDup(rest, kernEnd);
      var a, b := EntryPages(mmap[0], kernEnd), MapPages(rest, kernEnd);
      EntryNoDup(mmap[0], kernEnd);
      forall i, j | 0 <= i < |a| && 0 <= j < |b|
        ensures a[i] != b[j]
      {
        EntryExact(mmap[0], kernEnd, a[i]);
        MapExact(rest, kernEnd, b[j]);
        assert a[i] in a && b[j] in b;
      }
    }
  }

  /**
   * init_pmm drops the high words, adds in 32 bits and rounds up in 32 bits. An entry with a usable page is handled
   * exactly if and only if it ends below 4 GB; one without, if and only if it is not a sliver inside the last page
   * of the 32-bit space, whose start ROUNDUP wraps to 0.
   */
  lemma EntryExactIff(e: MmapEntry, kernEnd: Word)
    requires e.kind == 1 && PAGE_SIZE < kernEnd <= TWO32 - PAGE_SIZE
    ensures Exact(e, kernEnd) <==> if HasUsable(e, kernEnd) then Limit(e) < TWO32 else !Sliver(e)
  {
    if HasUsable(e, kernEnd) {
      UsableExactIff(e, kernEnd);
    } else {
      UselessExactIff(e, kernEnd);
    }
  }

  /** The pages pushed for an entry are its usable ones. */
  ghost predicate Exact(e: MmapEntry, kernEnd: Word) {
    forall p :: p in EntryPages(e, kernEnd) <==> Usable(e, kernEnd, p)
  }

  ghost predicate HasUsable(e: MmapEntry, kernEnd: Word) {
    exists q :: Usable(e, kernEnd, q)
  }

  /** By its low words the entry begins behind the last page boundary below 4 GB and does not reach 4 GB. */
  predicate Sliver(e: MmapEntry) {
    e.baseLow > TWO32 - PAGE_SIZE && e.baseLow + e.lengthLow < TWO32
  }

  lemma UsableExactIff(e: MmapEntry, kernEnd: Word)
    requires kernEnd <= TWO32 - PAGE_SIZE && HasUsable(e, kernEnd)
    ensures Exact(e, kernEnd) <==> Limit(e) < TWO32
  {
    var q :| Usable(e, kernEnd, q);
    hide EntryPages;
    if Limit(e) < TWO32 {
      forall p
        ensures p in EntryPages(e, kernEnd) <==> Usable(e, kernEnd, p)
      {
        EntryExact(e, kernEnd, p);
      }
    } else {
      var last := RoundDown(Limit(e)) - PAGE_SIZE;
      LastPage(e, kernEnd, q);
      LastPageDropped(e, kernEnd, last);
    }
  }

  lemma LastPage(e: MmapEntry, kernEnd: Word, q: int)
    requires Usable(e, kernEnd, q) && Limit(e) >= TWO32
    ensures kernEnd <= TWO32 - PAGE_SIZE ==>
              Usable(e, kernEnd, RoundDown(Limit(e)) - PAGE_SIZE) && RoundDown(Limit(e)) >= TWO32
  {
    hide Base, Limit, RoundDown;
  }

  lemma UselessExactIff(e: MmapEntry, kernEnd: Word)
    requires e.kind == 1 && PAGE_SIZE < kernEnd <= TWO32 - PAGE_SIZE && !HasUsable(e, kernEnd)
    ensures Exact(e, kernEnd) <==> !Sliver(e)
  {
    if Sliver(e) {
      SliverPages(e, kernEnd);
    } else {
      NothingPushed(e, kernEnd);
    }
  }

  /** For a sliver the code pushes every page from 0, kernel included. */
  lemma SliverPages(e: MmapEntry, kernEnd: Word)
    requires e.kind == 1 && kernEnd <= TWO32 - PAGE_SIZE && Sliver(e)
    ensures 0 in EntryPages(e, kernEnd)
  {
    PagesFromIn(0, TWO32 - PAGE_SIZE, 0);
  }

  lemma NothingPushed(e: MmapEntry, kernEnd: Word)
    requires e.kind == 1 && PAGE_SIZE < kernEnd <= TWO32 - PAGE_SIZE && !HasUsable(e, kernEnd) && !Sliver(e)
    ensures EntryPages(e, kernEnd) == []
  {
    hide PagesFrom, RoundUp, RoundDown;
    var first := if e.baseLow < kernEnd then kernEnd else e.baseLow;
    var q := RoundDown((if Base(e) < kernEnd then kernEnd else Base(e)) + PAGE_SIZE - 1);
    assert !Usable(e, kernEnd, q);
    assert Limit(e) < q + PAGE_SIZE;
    LowSum(e, kernEnd, q);
    PagesFromEmpty(RoundUp(first), RoundDown((e.baseLow + e.lengthLow) % TWO32));
  }

  /**
   * If the first page boundary q behind the start leaves no room for a page, the code's own bounds leave none either.
   */
  lemma LowSum(e: MmapEntry, kernEnd: Word, q: int)
    requires PAGE_SIZE < kernEnd <= TWO32 - PAGE_SIZE && !Sliver(e)
    requires q % PAGE_SIZE == 0 && Limit(e) < q + PAGE_SIZE
    requires var f := if Base(e) < kernEnd then kernEnd else Base(e); f <= q < f + PAGE_SIZE
    ensures var begin := RoundUp(if e.baseLow < kernEnd then kernEnd else e.baseLow);
            var end := RoundDown((e.baseLow + e.lengthLow) % TWO32);
            end < kernEnd || begin >= end
  {
    hide RoundUp, RoundDown;
    assert e.lengthHigh == 0;
    assert e.baseLow + e.lengthLow < q - TWO32 * e.baseHigh + PAGE_SIZE;
  }

  lemma PagesFromEmpty(begin: int, end: int)
    requires 0 <= begin && end < TWO32
    ensures begin >= end ==> PagesFrom(begin, end) == []
  {
  }

  /** One kilobyte at 2 KB below 4 GB: no page of it is usable, yet page 0 and all that follow are pushed. */
  lemma SliverMisread()
    ensures var e := MmapEntry(0xFFFF_F800, 0, 0x400, 0, 1);
            Limit(e) < TWO32 && !HasUsable(e, 0x11_0000) && 0 in EntryPages(e, 0x11_0000)
  {
    SliverPages(MmapEntry(0xFFFF_F800, 0, 0x400, 0, 1), 0x11_0000);
  }

  /** No page at or above 0xFFFFF000 is ever pushed. */
  lemma LastPageDropped(e: MmapEntry, kernEnd: Word, p: int)
    requires p >= TWO32 - PAGE_SIZE
    ensures p !in EntryPages(e, kernEnd)
  {
    var begin := RoundUp(if e.baseLow < kernEnd then kernEnd else e.baseLow);
    PagesFromIn(begin, RoundDown((e.baseLow + e.lengthLow) % TWO32), p);
  }

  /** A region of 8 KB, 2 MB above 4 GB: the code pushes page 0x200000, which is not in it. */
  lemma HighRegionMisread()
    ensures var e := MmapEntry(0x20_0000, 1, 0x2000, 0, 1);
            EntryPages(e, 0x11_0000) == [0x20_0000, 0x20_1000] && !Usable(e, 0x11_0000, 0x20_0000)
  {
    assert PagesFrom(0x20_1000, 0x20_2000) == [0x20_1000] + PagesFrom(0x20_2000, 0x20_2000);
  }

  lemma {:induction false} Pigeonhole(s: seq<int>, n: nat)
    requires NoDup(s) && forall i | 0 <= i < |s| :: 0 <= s[i] < n
    ensures |s| <= n
  {
    if s != [] {
      assert s[0] < n;
      if k :| 0 <= k < |s| && s[k] == n - 1 {
        Pigeonhole(s[..k] + s[k + 1..], n - 1);
      } else {
        Pigeonhole(s, n - 1);
      }
    }
  }

  /** Distinct page frames below 512 MB, page 0 excluded, are at most 0x1FFFF. */
  lemma FrameCount(s: seq<Word>)
    requires NoDup(s) && forall i | 0 <= i < |s| :: s[i] % PAGE_SIZE == 0 && PAGE_SIZE <= s[i] < 0x2000_0000
    ensures |s| <= 0x1_FFFF
  {
    var t := seq(|s|, i requires 0 <= i < |s| => s[i] / PAGE_SIZE - 1);
    forall i, j | 0 <= i < j < |t|
      ensures t[i] != t[j]
    {
      assert s[i] != s[j];
    }
    Pigeonhole(t, 0x1_FFFF);
  }
}
