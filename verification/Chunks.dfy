/**
 * The chunk list of kern/mm/heap.c as a value: a sequence of adjacent address ranges. The steps below are
 * the list effect of split_chunk, glue_chunk and free_chunk; the class in Heap.dfy is proved to make them.
 */
module Chunks {
  import opened Words

  const HEADER := 12   // sizeof(header_t)

  datatype Chunk = Chunk(addr: int, len: int, used: bool)

  /** The chunks lie edge to edge from start, each with room for a header. */
  ghost predicate Tiled(cs: seq<Chunk>, start: int) {
    && (cs != [] ==> cs[0].addr == start)
    && (forall i | 0 <= i < |cs| :: cs[i].len >= HEADER)
    && (forall i | 0 < i < |cs| :: cs[i].addr == cs[i - 1].addr + cs[i - 1].len)
  }

  /** No two free neighbours, and the last chunk is allocated. */
  ghost predicate Canonical(cs: seq<Chunk>) {
    && (forall i | 0 < i < |cs| :: cs[i - 1].used || cs[i].used)
    && (cs != [] ==> cs[|cs| - 1].used)
  }

  ghost predicate WellFormed(cs: seq<Chunk>, start: int) {
    Tiled(cs, start) && Canonical(cs)
  }

  function End(cs: seq<Chunk>, start: int): int {
    if cs == [] then start else cs[|cs| - 1].addr + cs[|cs| - 1].len
  }

  /** The allocated (address, length) pairs. */
  ghost function Live(cs: seq<Chunk>): set<(int, int)> {
    set i | 0 <= i < |cs| && cs[i].used :: (cs[i].addr, cs[i].len)
  }

  lemma {:induction false} Ordered(cs: seq<Chunk>, start: int, i: int, j: int)
    requires Tiled(cs, start) && 0 <= i < j < |cs|
    ensures cs[i].addr + cs[i].len <= cs[j].addr
    decreases j
  {
    if i < j - 1 {
      Ordered(cs, start, i, j - 1);
    }
  }

  lemma {:induction false} Within(cs: seq<Chunk>, start: int, i: int)
    requires Tiled(cs, start) && 0 <= i < |cs|
    ensures start <= cs[i].addr && cs[i].addr + cs[i].len <= End(cs, start)
  {
    if 0 < i {
      Ordered(cs, start, 0, i);
    }
    if i < |cs| - 1 {
      Ordered(cs, start, i, |cs| - 1);
    }
  }

  // ----- Live sets -----

  lemma LiveConcat(a: seq<Chunk>, b: seq<Chunk>)
    ensures Live(a + b) == Live(a) + Live(b)
  {
    forall x | x in Live(a) + Live(b)
      ensures x in Live(a + b)
    {
      if x in Live(a) {
        var i :| 0 <= i < |a| && a[i].used && x == (a[i].addr, a[i].len);
        assert (a + b)[i] == a[i];
      } else {
        var i :| 0 <= i < |b| && b[i].used && x == (b[i].addr, b[i].len);
        assert (a + b)[|a| + i] == b[i];
      }
    }
  }

  lemma LiveSplice(a: seq<Chunk>, m: seq<Chunk>, b: seq<Chunk>)
    ensures Live(a + m + b) == Live(a) + Live(m) + Live(b)
  {
    hide Live;
    LiveConcat(a + m, b);
    LiveConcat(a, m);
  }

  lemma LiveOne(c: Chunk)
    ensures Live([c]) == if c.used then {(c.addr, c.len)} else {}
  {
    if c.used {
      assert [c][0] == c;
    }
  }

  lemma LiveTail(cs: seq<Chunk>)
    requires cs != []
    ensures Live(cs) == (if cs[0].used then {(cs[0].addr, cs[0].len)} else {}) + Live(cs[1..])
  {
    assert cs == [cs[0]] + cs[1..];
    LiveConcat([cs[0]], cs[1..]);
    LiveOne(cs[0]);
  }

  lemma {:induction false} LiveIndex(cs: seq<Chunk>, start: int, i: int)
    requires Tiled(cs, start) && 0 <= i < |cs|
    ensures (cs[i].addr, cs[i].len) in Live(cs) <==> cs[i].used
  {
    if (cs[i].addr, cs[i].len) in Live(cs) {
      var j :| 0 <= j < |cs| && cs[j].used && cs[j].addr == cs[i].addr;
      if j < i {
        Ordered(cs, start, j, i);
      } else if i < j {
        Ordered(cs, start, i, j);
      }
    }
  }

  /** Every live pair starts at or after the first chunk's end, when it is not the first chunk. */
  lemma LiveAfter(cs: seq<Chunk>, start: int, x: (int, int))
    requires Tiled(cs, start) && x in Live(cs)
    ensures x.0 >= start && cs != []
    ensures (x.0 == start && cs[0].used) || x.0 >= cs[0].addr + cs[0].len
  {
    var i :| 0 <= i < |cs| && cs[i].used && x == (cs[i].addr, cs[i].len);
    Within(cs, start, i);
    if 0 < i {
      Ordered(cs, start, 0, i);
    }
  }

  /**
   * Canonical form: the list is a function of its live set, whatever calls produced it.
   */
  lemma {:induction false} LiveDetermines(cs: seq<Chunk>, ds: seq<Chunk>, start: int)
    requires WellFormed(cs, start) && WellFormed(ds, start) && Live(cs) == Live(ds)
    ensures cs == ds
    decreases |cs|
  {
    hide Live, WellFormed;
    if cs == [] {
      NothingLive(start);
      EmptyLive(ds, start);
    } else if ds == [] {
      NothingLive(start);
      EmptyLive(cs, start);
    } else {
      FirstAgrees(cs, ds, start);
      FirstAgrees(ds, cs, start);
      assert cs[0] == ds[0];
      var next := cs[0].addr + cs[0].len;
      TailWellFormed(cs, start);
      TailWellFormed(ds, start);
      TailLive(cs, start);
      TailLive(ds, start);
      LiveDetermines(cs[1..], ds[1..], next);
      assert cs == [cs[0]] + cs[1..] && ds == [ds[0]] + ds[1..];
    }
  }

  lemma NothingLive(start: int)
    ensures Live([]) == {} && WellFormed([], start)
  {
  }

  lemma EmptyLive(cs: seq<Chunk>, start: int)
    requires WellFormed(cs, start)
    ensures Live(cs) == {} <==> cs == []
  {
    if cs != [] {
      LiveIndex(cs, start, |cs| - 1);
    }
  }

  lemma TailWellFormed(cs: seq<Chunk>, start: int)
    requires WellFormed(cs, start) && cs != []
    ensures WellFormed(cs[1..], cs[0].addr + cs[0].len)
  {
    var t := cs[1..];
    assert forall i | 0 < i < |t| :: t[i] == cs[i + 1] && t[i - 1] == cs[i];
  }

  lemma TailLive(cs: seq<Chunk>, start: int)
    requires WellFormed(cs, start) && cs != []
    ensures Live(cs[1..]) == set x | x in Live(cs) && x.0 != start
  {
    LiveTail(cs);
    TailWellFormed(cs, start);
    forall x | x in Live(cs[1..])
      ensures x.0 != start
    {
      LiveAfter(cs[1..], cs[0].addr + cs[0].len, x);
    }
  }

  /** If the live sets agree, the first chunk of cs is no longer than that of ds, and allocated only if that is. */
  lemma FirstAgrees(cs: seq<Chunk>, ds: seq<Chunk>, start: int)
    requires WellFormed(cs, start) && WellFormed(ds, start) && Live(cs) == Live(ds) && cs != [] && ds != []
    ensures cs[0].addr == ds[0].addr && (ds[0].used ==> cs[0].used) && cs[0].len <= ds[0].len
  {
    if ds[0].used {
      LiveIndex(ds, start, 0);
      LiveAfter(cs, start, (start, ds[0].len));
      FirstLive(cs, start, ds[0].len);
    } else {
      LiveIndex(ds, start, 1);
      LiveAfter(cs, start, (ds[1].addr, ds[1].len));
      if cs[0].used {
        LiveIndex(cs, start, 0);
        LiveAfter(ds, start, (start, cs[0].len));
      }
    }
  }

  lemma FirstLive(cs: seq<Chunk>, start: int, n: int)
    requires Tiled(cs, start) && (start, n) in Live(cs)
    ensures cs != [] && cs[0].len == n
  {
    var i :| 0 <= i < |cs| && cs[i].used && cs[i].addr == start && cs[i].len == n;
    if 0 < i {
      Ordered(cs, start, 0, i);
    }
  }

  // ----- The list effect of the C functions -----

  /** split_chunk: cut need bytes off chunk i, unless at most a header would remain. */
  function Split(cs: seq<Chunk>, i: int, need: int): seq<Chunk>
    requires 0 <= i < |cs|
  {
    var c := cs[i];
    if c.len - need > HEADER
    then cs[..i] + [c.(len := need), Chunk(c.addr + need, c.len - need, false)] + cs[i + 1..]
    else cs
  }

  function Mark(cs: seq<Chunk>, i: int, used: bool): seq<Chunk>
    requires 0 <= i < |cs|
  {
    cs[i := cs[i].(used := used)]
  }

  /** Chunk i swallows its successor. */
  function Merge(cs: seq<Chunk>, i: int): seq<Chunk>
    requires 0 <= i < |cs| - 1
  {
    cs[..i] + [cs[i].(len := cs[i].len + cs[i + 1].len)] + cs[i + 2..]
  }

  /** kmalloc when chunk i is the one it finds. */
  function Take(cs: seq<Chunk>, i: int, need: int): seq<Chunk>
    requires 0 <= i < |cs|
  {
    Mark(Split(cs, i, need), i, true)
  }

  /** kmalloc when it grows the heap. */
  function Append(cs: seq<Chunk>, start: int, need: int): seq<Chunk> {
    cs + [Chunk(End(cs, start), need, true)]
  }

  function MergeNext(cs: seq<Chunk>, i: int): seq<Chunk>
    requires 0 <= i < |cs|
  {
    if i < |cs| - 1 && !cs[i + 1].used then Merge(cs, i) else cs
  }

  /** Where chunk i is to be found after glue_chunk. */
  function GluedIndex(cs: seq<Chunk>, i: int): int
    requires 0 <= i < |cs|
  {
    if 0 < i && !cs[i - 1].used then i - 1 else i
  }

  function MergePrev(cs: seq<Chunk>, i: int): seq<Chunk>
    requires 0 <= i < |cs|
  {
    if 0 < i && !cs[i - 1].used then Merge(cs, i - 1) else cs
  }

  /** free_chunk, reached when the glued chunk is the last. */
  function Trim(cs: seq<Chunk>, k: int): seq<Chunk>
    requires 0 <= k < |cs|
  {
    if k == |cs| - 1 then cs[..k] else cs
  }

  // ----- What each step keeps -----

  lemma SplitStep(cs: seq<Chunk>, start: int, i: int, need: int)
    requires Tiled(cs, start) && 0 <= i < |cs| && !cs[i].used && HEADER <= need <= cs[i].len
    ensures var r := Split(cs, i, need);
            && Tiled(r, start) && End(r, start) == End(cs, start) && Live(r) == Live(cs)
            && |r| > i && !r[i].used && r[i].addr == cs[i].addr && need <= r[i].len <= need + HEADER
            && r[i].len == (if cs[i].len <= need + HEADER then cs[i].len else need)
  {
    hide Live, Tiled;
    SplitTiled(cs, start, i, need);
    if cs[i].len - need > HEADER {
      SplitLive(cs, i, need);
      SplitAt(cs, i, need);
    }
  }

  lemma SplitLive(cs: seq<Chunk>, i: int, need: int)
    requires 0 <= i < |cs| && !cs[i].used && cs[i].len - need > HEADER
    ensures Live(Split(cs, i, need)) == Live(cs)
  {
    hide Live;
    var c := cs[i];
    var a, b, mid := cs[..i], cs[i + 1..], [c.(len := need), Chunk(c.addr + need, c.len - need, false)];
    NoneLive([c]);
    NoneLive(mid);
    assert cs == a + [c] + b;
    LiveSplice(a, [c], b);
    LiveSplice(a, mid, b);
  }

  lemma NoneLive(cs: seq<Chunk>)
    requires forall i | 0 <= i < |cs| :: !cs[i].used
    ensures Live(cs) == {}
  {
  }

  lemma SplitTiled(cs: seq<Chunk>, start: int, i: int, need: int)
    requires Tiled(cs, start) && 0 <= i < |cs| && HEADER <= need <= cs[i].len
    ensures Tiled(Split(cs, i, need), start) && End(Split(cs, i, need), start) == End(cs, start)
  {
    if cs[i].len - need > HEADER {
      hide Split, Tiled;
      SplitAt(cs, i, need);
      var r := Split(cs, i, need);
      forall k | 0 <= k < |r|
        ensures Edge(r, start, k)
      {
        SplitEdge(cs, start, i, need, r, k);
      }
      TiledFrom(r, start);
    }
  }

  /** Chunk k has room for a header and begins where the one before it ends. */
  ghost predicate Edge(cs: seq<Chunk>, start: int, k: int)
    requires 0 <= k < |cs|
  {
    cs[k].len >= HEADER && cs[k].addr == if k == 0 then start else cs[k - 1].addr + cs[k - 1].len
  }

  lemma TiledFrom(cs: seq<Chunk>, start: int)
    requires forall k | 0 <= k < |cs| :: Edge(cs, start, k)
    ensures Tiled(cs, start)
  {
    if cs != [] {
      assert Edge(cs, start, 0);
    }
    assert forall k | 0 <= k < |cs| :: Edge(cs, start, k) ==> cs[k].len >= HEADER;
    assert forall k | 0 < k < |cs| :: Edge(cs, start, k) ==> cs[k].addr == cs[k - 1].addr + cs[k - 1].len;
  }

  lemma SplitEdge(cs: seq<Chunk>, start: int, i: int, need: int, r: seq<Chunk>, k: int)
    requires Tiled(cs, start) && 0 <= i < |cs| && |r| == |cs| + 1 && 0 <= k < |r|
    requires HEADER <= need && cs[i].len - need > HEADER
    requires r[i] == cs[i].(len := need) && r[i + 1] == Chunk(cs[i].addr + need, cs[i].len - need, false)
    requires (forall j | 0 <= j < i :: r[j] == cs[j]) && (forall j | i + 1 < j < |r| :: r[j] == cs[j - 1])
    ensures Edge(r, start, k)
  {
    if k < i {
      assert r[k] == cs[k] && (0 < k ==> r[k - 1] == cs[k - 1]);
    } else if k > i + 2 {
      assert r[k] == cs[k - 1] && r[k - 1] == cs[k - 2];
    }
  }

  lemma SplitAt(cs: seq<Chunk>, i: int, need: int)
    requires 0 <= i < |cs| && cs[i].len - need > HEADER
    ensures var r := Split(cs, i, need);
            && |r| == |cs| + 1 && r[i] == cs[i].(len := need)
            && r[i + 1] == Chunk(cs[i].addr + need, cs[i].len - need, false)
            && (forall k | 0 <= k < i :: r[k] == cs[k]) && (forall k | i + 1 < k < |r| :: r[k] == cs[k - 1])
  {
    var a, mid, b := cs[..i], [cs[i].(len := need), Chunk(cs[i].addr + need, cs[i].len - need, false)], cs[i + 1..];
    var r := Split(cs, i, need);
    assert r == a + mid + b;
    hide Split;
    assert r[i] == mid[0] && r[i + 1] == mid[1];
    assert forall k | 0 <= k < i :: r[k] == a[k];
    assert forall k | i + 1 < k < |r| :: r[k] == b[k - i - 2];
  }

  lemma MarkStep(cs: seq<Chunk>, start: int, i: int, used: bool)
    requires Tiled(cs, start) && 0 <= i < |cs| && cs[i].used != used
    ensures var r := Mark(cs, i, used);
            && Tiled(r, start) && End(r, start) == End(cs, start)
            && (if used then Live(r) == Live(cs) + {(cs[i].addr, cs[i].len)}
                else Live(r) == Live(cs) - {(cs[i].addr, cs[i].len)})
  {
    var r, x := Mark(cs, i, used), (cs[i].addr, cs[i].len);
    MarkTiled(cs, start, i, used);
    LiveIndex(cs, start, i);
    LiveIndex(r, start, i);
    hide Live, Tiled, Mark, End;
    MarkLive(cs, i, used);
  }

  lemma MarkTiled(cs: seq<Chunk>, start: int, i: int, used: bool)
    requires Tiled(cs, start) && 0 <= i < |cs|
    ensures Tiled(Mark(cs, i, used), start) && End(Mark(cs, i, used), start) == End(cs, start)
    ensures Mark(cs, i, used)[i] == cs[i].(used := used)
  {
  }

  lemma MarkLive(cs: seq<Chunk>, i: int, used: bool)
    requires 0 <= i < |cs| && cs[i].used != used
    ensures var r, x := Mark(cs, i, used), (cs[i].addr, cs[i].len);
            if used then Live(r) == Live(cs) + {x} else Live(cs) == Live(r) + {x}
  {
    var r := Mark(cs, i, used);
    hide Live;
    assert cs == cs[..i] + [cs[i]] + cs[i + 1..];
    assert r == cs[..i] + [r[i]] + cs[i + 1..];
    LiveSplice(cs[..i], [cs[i]], cs[i + 1..]);
    LiveSplice(cs[..i], [r[i]], cs[i + 1..]);
    LiveOne(cs[i]);
    LiveOne(r[i]);
  }

  lemma MergeStep(cs: seq<Chunk>, start: int, i: int)
    requires Tiled(cs, start) && 0 <= i < |cs| - 1 && !cs[i].used && !cs[i + 1].used
    ensures var r := Merge(cs, i); Tiled(r, start) && End(r, start) == End(cs, start) && Live(r) == Live(cs)
  {
    hide Live, Tiled;
    var r, pair, a, b := Merge(cs, i), [cs[i], cs[i + 1]], cs[..i], cs[i + 2..];
    MergeTiled(cs, start, i);
    NoneLive(pair);
    NoneLive([r[i]]);
    assert cs == a + pair + b;
    LiveSplice(a, pair, b);
    LiveSplice(a, [r[i]], b);
  }

  lemma MergeTiled(cs: seq<Chunk>, start: int, i: int)
    requires Tiled(cs, start) && 0 <= i < |cs| - 1
    ensures Tiled(Merge(cs, i), start) && End(Merge(cs, i), start) == End(cs, start)
  {
    var r := Merge(cs, i);
    assert |r| == |cs| - 1 && r[i] == cs[i].(len := cs[i].len + cs[i + 1].len);
    assert forall k | 0 <= k < i :: r[k] == cs[k];
    assert forall k | i < k < |r| :: r[k] == cs[k + 1];
    hide Merge, Tiled;
    forall k | 0 <= k < |r|
      ensures Edge(r, start, k)
    {
      MergeEdge(cs, start, i, r, k);
    }
    TiledFrom(r, start);
  }

  lemma MergeEdge(cs: seq<Chunk>, start: int, i: int, r: seq<Chunk>, k: int)
    requires Tiled(cs, start) && 0 <= i < |cs| - 1 && |r| == |cs| - 1 && 0 <= k < |r|
    requires r[i] == cs[i].(len := cs[i].len + cs[i + 1].len)
    requires (forall j | 0 <= j < i :: r[j] == cs[j]) && (forall j | i < j < |r| :: r[j] == cs[j + 1])
    ensures Edge(r, start, k)
  {
    if k < i {
      assert r[k] == cs[k] && (0 < k ==> r[k - 1] == cs[k - 1]);
    } else if k > i + 1 {
      assert r[k] == cs[k + 1] && r[k - 1] == cs[k];
    }
  }

  /** First fit into a hole: the list stays canonical and gains exactly one live pair. */
  lemma TakeKeeps(cs: seq<Chunk>, start: int, i: int, need: int)
    requires WellFormed(cs, start) && 0 <= i < |cs| && !cs[i].used && HEADER <= need <= cs[i].len
    ensures var r := Take(cs, i, need);
            && |r| > i && WellFormed(r, start) && End(r, start) == End(cs, start)
            && r[i].addr == cs[i].addr && need <= r[i].len <= need + HEADER
            && r[i].len == (if cs[i].len <= need + HEADER then cs[i].len else need)
            && Live(r) == Live(cs) + {(r[i].addr, r[i].len)}
  {
    SplitStep(cs, start, i, need);
    var s := Split(cs, i, need);
    MarkStep(s, start, i, true);
    TakeCanonical(cs, i, need);
  }

  lemma TakeCanonical(cs: seq<Chunk>, i: int, need: int)
    requires Canonical(cs) && 0 <= i < |cs| && !cs[i].used && HEADER <= need <= cs[i].len
    ensures Canonical(Take(cs, i, need))
  {
    var s, r := Split(cs, i, need), Take(cs, i, need);
    if s != cs {
      assert forall k | 0 <= k < |r| :: r[k].used == if k < i then cs[k].used else if k == i then true
        else if k == i + 1 then false else cs[k - 1].used;
    }
  }

  lemma AppendKeeps(cs: seq<Chunk>, start: int, need: int)
    requires WellFormed(cs, start) && HEADER <= need
    ensures var r := Append(cs, start, need);
            && WellFormed(r, start) && End(r, start) == End(cs, start) + need
            && Live(r) == Live(cs) + {(End(cs, start), need)}
  {
    var c := Chunk(End(cs, start), need, true);
    LiveConcat(cs, [c]);
    LiveOne(c);
  }

  /** kfree: the chunk is marked, glued to both neighbours, and dropped if that made it the last. */
  function Release(cs: seq<Chunk>, i: int): seq<Chunk>
    requires 0 <= i < |cs|
  {
    var glued := MergeNext(Mark(cs, i, false), i);
    Trim(MergePrev(glued, i), GluedIndex(glued, i))
  }

  /** One merge on each side coalesces fully: the list stays canonical and loses exactly one live pair. */
  lemma ReleaseKeeps(cs: seq<Chunk>, start: int, i: int)
    requires WellFormed(cs, start) && 0 <= i < |cs| && cs[i].used
    ensures WellFormed(Release(cs, i), start)
    ensures Live(Release(cs, i)) == Live(cs) - {(cs[i].addr, cs[i].len)}
  {
    hide Live, Tiled, Canonical, AlmostCanonical, Merge, MergeNext, MergePrev, GluedIndex, Settled, Trim;
    var a := Mark(cs, i, false);
    var b := MergeNext(a, i);
    GlueCanonical(cs, i);
    MarkStep(cs, start, i, false);
    hide Mark;
    MergeNextStep(a, start, i);
    MergePrevStep(b, start, i);
    TrimStep(MergePrev(b, i), start, GluedIndex(b, i));
  }

  lemma MergeNextStep(cs: seq<Chunk>, start: int, i: int)
    requires Tiled(cs, start) && 0 <= i < |cs| && !cs[i].used
    ensures Tiled(MergeNext(cs, i), start) && Live(MergeNext(cs, i)) == Live(cs)
  {
    hide Live, Tiled, Merge;
    if MergeNext(cs, i) != cs {
      MergeStep(cs, start, i);
    }
  }

  lemma MergePrevStep(cs: seq<Chunk>, start: int, i: int)
    requires Tiled(cs, start) && 0 <= i < |cs| && !cs[i].used
    ensures Tiled(MergePrev(cs, i), start) && Live(MergePrev(cs, i)) == Live(cs)
  {
    hide Live, Tiled, Merge;
    if MergePrev(cs, i) != cs {
      MergeStep(cs, start, i - 1);
    }
  }

  lemma GlueCanonical(cs: seq<Chunk>, i: int)
    requires Canonical(cs) && 0 <= i < |cs| && cs[i].used
    ensures var b := MergeNext(Mark(cs, i, false), i);
            i < |b| && !b[i].used && Settled(MergePrev(b, i), GluedIndex(b, i))
  {
    var a := Mark(cs, i, false);
    GlueNextCanonical(a, i);
    GluePrevCanonical(MergeNext(a, i), i);
  }

  lemma GlueNextCanonical(a: seq<Chunk>, i: int)
    requires 0 <= i < |a| && !a[i].used && Canonical(Mark(a, i, true))
    ensures AlmostCanonical(MergeNext(a, i), i)
  {
    var cs, b := Mark(a, i, true), MergeNext(a, i);
    assert forall k | 0 < k < |a| && k != i && k != i + 1 :: a[k - 1].used || a[k].used by {
      assert forall k | 0 <= k < |a| && k != i :: a[k] == cs[k];
    }
    if b != a {
      assert forall k | 0 <= k < |b| && k != i :: b[k] == if k < i then a[k] else a[k + 1];
      assert i + 2 < |a| ==> a[i + 1].used || a[i + 2].used;
    }
  }

  lemma GluePrevCanonical(b: seq<Chunk>, i: int)
    requires AlmostCanonical(b, i)
    ensures Settled(MergePrev(b, i), GluedIndex(b, i))
  {
    var c := MergePrev(b, i);
    if c != b {
      assert forall k | 0 <= k < |c| && k != i - 1 :: c[k] == if k < i - 1 then b[k] else b[k + 1];
    }
  }

  /** Chunk i is free, its successor is not, and everything away from chunk i and its predecessor is canonical. */
  ghost predicate AlmostCanonical(cs: seq<Chunk>, i: int) {
    && 0 <= i < |cs| && !cs[i].used
    && (i + 1 < |cs| ==> cs[i + 1].used)
    && (forall k | 0 < k < |cs| && k != i :: cs[k - 1].used || cs[k].used)
    && (i < |cs| - 1 ==> cs[|cs| - 1].used)
  }

  /** ... and its predecessor is allocated too. */
  ghost predicate Settled(cs: seq<Chunk>, k: int) {
    AlmostCanonical(cs, k) && (0 < k ==> cs[k - 1].used)
  }

  lemma TrimStep(cs: seq<Chunk>, start: int, k: int)
    requires Tiled(cs, start) && Settled(cs, k)
    ensures WellFormed(Trim(cs, k), start) && Live(Trim(cs, k)) == Live(cs)
  {
    if k == |cs| - 1 {
      LiveInit(cs);
      hide Live;
    }
  }

  /** A free last chunk can be left out. */
  lemma LiveInit(cs: seq<Chunk>)
    requires cs != [] && !cs[|cs| - 1].used
    ensures Live(cs[..|cs| - 1]) == Live(cs)
  {
    hide Live;
    var k := |cs| - 1;
    assert cs == cs[..k] + [cs[k]];
    LiveConcat(cs[..k], [cs[k]]);
    LiveOne(cs[k]);
  }

  // ----- kmalloc against an abstract first-fit allocator -----

  predicate Fits(c: Chunk, need: int) {
    !c.used && c.len >= need
  }

  /** i is the lowest-addressed hole that is large enough, or |cs| when there is none. */
  ghost predicate FirstFit(cs: seq<Chunk>, need: int, i: int) {
    && 0 <= i <= |cs|
    && (i < |cs| ==> Fits(cs[i], need))
    && forall j | 0 <= j < i :: !Fits(cs[j], need)
  }

  /** The index that first fit selects. */
  function FirstHole(cs: seq<Chunk>, need: int): (i: nat)
    ensures FirstFit(cs, need, i)
  {
    if cs == [] || Fits(cs[0], need) then 0
    else
      var i := FirstHole(cs[1..], need);
      assert forall j | 0 < j < |cs| :: cs[j] == cs[1..][j - 1];
      i + 1
  }

  /** Hole i is the smallest that is large enough: what the comment at the top of heap.c promises. */
  ghost predicate BestFit(cs: seq<Chunk>, need: int, i: int)
    requires 0 <= i < |cs|
  {
    Fits(cs[i], need) && forall j | 0 <= j < |cs| && Fits(cs[j], need) :: cs[i].len <= cs[j].len
  }

  ghost predicate FirstIsBest(cs: seq<Chunk>) {
    forall need, i | HEADER <= need && FirstFit(cs, need, i) && i < |cs| :: BestFit(cs, need, i)
  }

  /** A hole smaller than one before it has its size already among the holes before that one. */
  ghost predicate SmallerSeen(cs: seq<Chunk>) {
    forall i, j | 0 <= i < j < |cs| && !cs[i].used && !cs[j].used && cs[j].len < cs[i].len ::
      exists k :: 0 <= k < i && !cs[k].used && cs[k].len == cs[j].len
  }

  /** First fit finds the smallest hole that fits, whatever is asked for, if and only if the holes are so ordered. */
  lemma BestFitIff(cs: seq<Chunk>, start: int)
    requires Tiled(cs, start)
    ensures FirstIsBest(cs) <==> SmallerSeen(cs)
  {
    if FirstIsBest(cs) {
      forall i, j | 0 <= i < j < |cs| && !cs[i].used && !cs[j].used && cs[j].len < cs[i].len
        ensures exists k :: 0 <= k < i && !cs[k].used && cs[k].len == cs[j].len
      {
        var k := FirstHole(cs, cs[j].len);
        assert Fits(cs[i], cs[j].len) && Fits(cs[j], cs[j].len);
        assert BestFit(cs, cs[j].len, k);
      }
    }
    if SmallerSeen(cs) {
      forall need, i | HEADER <= need && FirstFit(cs, need, i) && i < |cs|
        ensures BestFit(cs, need, i)
      {
        forall j | 0 <= j < |cs| && Fits(cs[j], need)
          ensures cs[i].len <= cs[j].len
        {
          assert forall k | 0 <= k < i :: !Fits(cs[k], need);
        }
      }
    }
  }

  /** Holes of 100 and 50 bytes, a request of 28 and its header: the code takes the larger hole. */
  lemma FirstIsNotBest(start: int)
    ensures var cs := [Chunk(start, 100, false), Chunk(start + 100, 20, true), Chunk(start + 120, 50, false),
                       Chunk(start + 170, 20, true)];
            && WellFormed(cs, start) && FirstFit(cs, 28 + HEADER, 0) && BestFit(cs, 28 + HEADER, 2)
            && !BestFit(cs, 28 + HEADER, 0)
  {
    var cs := [Chunk(start, 100, false), Chunk(start + 100, 20, true), Chunk(start + 120, 50, false),
               Chunk(start + 170, 20, true)];
    assert Fits(cs[2], 28 + HEADER) && cs[2].len < cs[0].len;
  }

  /** Where the allocated chunk at address a is, or |cs| when there is none. */
  function UsedAt(cs: seq<Chunk>, a: int): (i: nat)
    ensures i <= |cs| && (i < |cs| ==> cs[i].used && cs[i].addr == a)
    ensures forall j | 0 <= j < i :: !(cs[j].used && cs[j].addr == a)
  {
    if cs == [] || (cs[0].used && cs[0].addr == a) then 0
    else
      var i := UsedAt(cs[1..], a);
      assert forall j | 0 < j < |cs| :: cs[j] == cs[1..][j - 1];
      i + 1
  }

  /** The list after kmalloc, given the index that first fit selects. */
  function Allocate(cs: seq<Chunk>, start: int, need: int, i: int): seq<Chunk>
    requires 0 <= i <= |cs|
  {
    if i < |cs| then Take(cs, i, need) else Append(cs, start, need)
  }

  lemma AllocateKeeps(cs: seq<Chunk>, start: int, need: int, i: int)
    requires WellFormed(cs, start) && HEADER <= need && FirstFit(cs, need, i)
    ensures var r := Allocate(cs, start, need, i);
            && i < |r| && WellFormed(r, start) && r[i].used
            && End(r, start) == (if i < |cs| then End(cs, start) else End(cs, start) + need)
            && r[i].addr == (if i < |cs| then cs[i].addr else End(cs, start))
            && need <= r[i].len <= need + HEADER
            && r[i].len == (if i < |cs| && cs[i].len <= need + HEADER then cs[i].len else need)
            && Live(r) == Live(cs) + {(r[i].addr, r[i].len)}
            && forall n :: (r[i].addr, n) !in Live(cs)
  {
    forall n
      ensures (Allocate(cs, start, need, i)[i].addr, n) !in Live(cs)
    {
      NotLive(cs, start, i, n);
    }
    hide Live, WellFormed;
    if i < |cs| {
      TakeKeeps(cs, start, i, need);
    } else {
      AppendKeeps(cs, start, need);
    }
  }

  /** Nothing live starts at a hole, or at the end of the heap. */
  lemma NotLive(cs: seq<Chunk>, start: int, i: int, n: int)
    requires Tiled(cs, start) && 0 <= i <= |cs| && (i < |cs| ==> !cs[i].used)
    ensures (if i < |cs| then cs[i].addr else End(cs, start), n) !in Live(cs)
  {
    var a := if i < |cs| then cs[i].addr else End(cs, start);
    if (a, n) in Live(cs) {
      var j :| 0 <= j < |cs| && cs[j].used && cs[j].addr == a;
      if j < i < |cs| {
        Ordered(cs, start, j, i);
      } else if i < j {
        Ordered(cs, start, i, j);
      } else {
        Within(cs, start, j);
      }
    }
  }

  /** kfree(kmalloc(n)) restores the list exactly. */
  lemma FreeUndoesAlloc(cs: seq<Chunk>, start: int, need: int, i: int)
    requires WellFormed(cs, start) && HEADER <= need && FirstFit(cs, need, i)
    ensures var r := Allocate(cs, start, need, i); i < |r| && Release(r, i) == cs
  {
    AllocateKeeps(cs, start, need, i);
    var r := Allocate(cs, start, need, i);
    hide Live, WellFormed, Allocate, Release;
    ReleaseKeeps(r, start, i);
    LiveDetermines(Release(r, i), cs, start);
  }

  /** Two blocks freed in either order leave the same list. */
  lemma FreesCommute(cs: seq<Chunk>, start: int, i: int, j: int, i': int, j': int)
    requires WellFormed(cs, start) && 0 <= i < |cs| && 0 <= j < |cs| && i != j && cs[i].used && cs[j].used
    requires 0 <= j' < |Release(cs, i)| && Release(cs, i)[j'] == cs[j]
    requires 0 <= i' < |Release(cs, j)| && Release(cs, j)[i'] == cs[i]
    ensures Release(Release(cs, i), j') == Release(Release(cs, j), i')
  {
    hide Live, WellFormed, Release;
    ReleaseKeeps(cs, start, i);
    ReleaseKeeps(cs, start, j);
    ReleaseKeeps(Release(cs, i), start, j');
    ReleaseKeeps(Release(cs, j), start, i');
    LiveDetermines(Release(Release(cs, i), j'), Release(Release(cs, j), i'), start);
  }
}
