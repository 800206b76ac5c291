/** kern/driver/keyboard.c: the ring buffer between the keyboard interrupt and its reader. */
module KeyBuffer {
  import opened Words

  const KB_IN_BYTES := 32

  // ----- The ring buffer -----

  /** count slots of the ring b from head. */
  function Ring(b: seq<Byte>, head: int, count: nat): (s: seq<Byte>)
    requires |b| == KB_IN_BYTES && 0 <= head
    ensures |s| == count
  {
    seq(count, i requires 0 <= i < count => b[(head + i) % KB_IN_BYTES])
  }

  lemma RingPush(b: seq<Byte>, head: int, count: nat, c: Byte)
    requires |b| == KB_IN_BYTES && 0 <= head < KB_IN_BYTES && count < KB_IN_BYTES
    ensures Ring(b[(head + count) % KB_IN_BYTES := c], head, count + 1) == Ring(b, head, count) + [c]
    ensures (head + count + 1) % KB_IN_BYTES ==
            (if (head + count) % KB_IN_BYTES + 1 == KB_IN_BYTES then 0 else (head + count) % KB_IN_BYTES + 1)
  {
  }

  lemma RingPop(b: seq<Byte>, head: int, count: nat)
    requires |b| == KB_IN_BYTES && 0 <= head < KB_IN_BYTES && 0 < count
    ensures var h := if head + 1 == KB_IN_BYTES then 0 else head + 1;
            && Ring(b, h, count - 1) == Ring(b, head, count)[1..] && Ring(b, head, count)[0] == b[head]
            && (h + (count - 1)) % KB_IN_BYTES == (head + count) % KB_IN_BYTES
  {
    var h := if head + 1 == KB_IN_BYTES then 0 else head + 1;
    var rest := Ring(b, head, count)[1..];
    forall i | 0 <= i < count - 1
      ensures Ring(b, h, count - 1)[i] == rest[i]
    {
      assert (h + i) % KB_IN_BYTES == (head + (i + 1)) % KB_IN_BYTES;
    }
  }

  class KbInput {
    const buff: array<Byte>
    var head: int
    var tail: int
    var count: int
    ghost var accepted: seq<Byte>    // every byte ever stored
    ghost var delivered: seq<Byte>   // every byte ever taken

    ghost predicate Valid()
      reads this, buff
    {
      && buff.Length == KB_IN_BYTES && 0 <= head < KB_IN_BYTES && 0 <= count <= KB_IN_BYTES
      && tail == (head + count) % KB_IN_BYTES
      && accepted == delivered + Pending()
    }

    /** The bytes waiting, oldest first. */
    ghost function Pending(): (s: seq<Byte>)
      requires buff.Length == KB_IN_BYTES && 0 <= head && 0 <= count
      reads this, buff
      ensures |s| == count
    {
      Ring(buff[..], head, count)
    }

    constructor ()
      ensures Valid() && fresh(buff) && accepted == [] && delivered == []
    {
      buff := new Byte[KB_IN_BYTES](_ => 0);
      head, tail, count := 0, 0, 0;
      accepted, delivered := [], [];
    }

    /** keyboard_handler, run with interrupts off. */
    method Handler(scanCode: Byte)
      requires Valid()
      modifies this, buff
      ensures Valid() && delivered == old(delivered)
      ensures accepted == if old(count) < KB_IN_BYTES then old(accepted) + [scanCode] else old(accepted)
      ensures Pending() == if old(count) < KB_IN_BYTES then old(Pending()) + [scanCode] else old(Pending())
    {
      if count < KB_IN_BYTES {
        RingPush(buff[..], head, count, scanCode);
        buff[tail] := scanCode;
        tail := tail + 1;
        if tail == KB_IN_BYTES {
          tail := 0;
        }
        count := count + 1;
        accepted := accepted + [scanCode];
      }
    }

    /** The critical section of get_byte_from_kbuf, entered once a byte is waiting. */
    method Take() returns (scanCode: Byte)
      requires Valid() && count > 0
      modifies this
      ensures Valid() && accepted == old(accepted) && count == old(count) - 1
      ensures scanCode == old(Pending())[0] && Pending() == old(Pending())[1..] &&
              delivered == old(delivered) + [scanCode]
    {
      RingPop(buff[..], head, count);
      scanCode := buff[head];
      head := head + 1;
      if head == KB_IN_BYTES {
        head := 0;
      }
      count := count - 1;
      delivered := delivered + [scanCode];
    }
  }

  // ----- Every interleaving of the interrupt with the consumer -----

  /** An interrupt with its byte, or the consumer finding out whether a byte is there and taking it. */
  datatype Action = Irq(b: Byte) | Get

  datatype Queue = Queue(accepted: seq<Byte>, delivered: seq<Byte>)

  const EMPTY := Queue([], [])

  function Waiting(q: Queue): int {
    |q.accepted| - |q.delivered|
  }

  /** The bounded queue that the ring buffer is meant to be. */
  function QueueStep(q: Queue, a: Action): Queue {
    match a
    case Irq(b) => if Waiting(q) < KB_IN_BYTES then q.(accepted := q.accepted + [b]) else q
    case Get => if 0 < Waiting(q) then q.(delivered := q.delivered + [q.accepted[|q.delivered|]]) else q
  }

  function QueueRun(run: seq<Action>): Queue {
    if run == [] then EMPTY else QueueStep(QueueRun(run[..|run| - 1]), run[|run| - 1])
  }

  /** Delivered bytes are a prefix of the accepted ones, and at most 32 are waiting. */
  lemma {:induction false} QueueInOrder(run: seq<Action>)
    ensures var q := QueueRun(run); q.delivered <= q.accepted && Waiting(q) <= KB_IN_BYTES
    decreases |run|
  {
    if run != [] {
      QueueInOrder(run[..|run| - 1]);
    }
  }

  function Gets(n: nat): seq<Action> {
    if n == 0 then [] else Gets(n - 1) + [Get]
  }

  /** Every look of the consumer takes one byte as long as there is one, and 32 looks empty the buffer. */
  lemma {:induction false} GetsDeliver(run: seq<Action>, n: nat)
    ensures var q, q' := QueueRun(run), QueueRun(run + Gets(n));
            && q'.accepted == q.accepted && |q.delivered| <= |q.accepted| <= |q.delivered| + 32
            && q'.delivered == q.accepted[..if |q.delivered| + n < |q.accepted| then |q.delivered| + n
               else |q.accepted|]
    decreases n
  {
    QueueInOrder(run);
    if n == 0 {
      hide QueueRun;
      assert run + Gets(0) == run;
    } else {
      hide QueueRun, QueueStep, Gets;
      GetsDeliver(run, n - 1);
      LastGet(run, n);
      var q := QueueRun(run + Gets(n - 1));
      OneGet(q, |q.delivered|);
    }
  }

  lemma OneGet(q: Queue, d: nat)
    requires d <= |q.accepted| && q.delivered == q.accepted[..d]
    ensures var q' := QueueStep(q, Get);
            q'.accepted == q.accepted && q'.delivered == q.accepted[..if d < |q.accepted| then d + 1 else d]
  {
  }

  lemma LastGet(run: seq<Action>, n: nat)
    requires 0 < n
    ensures QueueRun(run + Gets(n)) == QueueStep(QueueRun(run + Gets(n - 1)), Get)
  {
    var all := run + Gets(n);
    assert all[..|all| - 1] == run + Gets(n - 1) && all[|all| - 1] == Get;
  }

  function Arrivals(run: seq<Action>): seq<Byte> {
    if run == [] then []
    else Arrivals(run[..|run| - 1]) + match run[|run| - 1] case Irq(b) => [b] case Get => []
  }

  /** An interrupt found the buffer full. */
  ghost predicate Overflowed(run: seq<Action>) {
    exists i :: 0 <= i < |run| && run[i].Irq? && Waiting(QueueRun(run[..i])) == KB_IN_BYTES
  }

  /** A byte is lost if and only if it arrives while 32 are waiting; otherwise all arrive, in order. */
  lemma {:induction false} LossIff(run: seq<Action>)
    ensures if Overflowed(run) then |QueueRun(run).accepted| < |Arrivals(run)|
            else QueueRun(run).accepted == Arrivals(run)
    decreases |run|
  {
    if run != [] {
      var n := |run| - 1;
      var init := run[..n];
      LossIff(init);
      QueueInOrder(init);
      OverflowedStep(run);
    }
  }

  lemma OverflowedStep(run: seq<Action>)
    requires run != []
    ensures var init := run[..|run| - 1];
            Overflowed(run) <==> Overflowed(init) || (run[|run| - 1].Irq? && Waiting(QueueRun(init)) == KB_IN_BYTES)
  {
    hide QueueRun;
    var n := |run| - 1;
    var init := run[..n];
    assert forall i | 0 <= i < n :: init[..i] == run[..i] && init[i] == run[i];
    if Overflowed(init) {
      var i :| 0 <= i < n && init[i].Irq? && Waiting(QueueRun(init[..i])) == KB_IN_BYTES;
      assert run[i].Irq? && Waiting(QueueRun(run[..i])) == KB_IN_BYTES;
    }
    if Overflowed(run) {
      var i :| 0 <= i < |run| && run[i].Irq? && Waiting(QueueRun(run[..i])) == KB_IN_BYTES;
      if i < n {
        assert init[i].Irq? && Waiting(QueueRun(init[..i])) == KB_IN_BYTES;
      }
    }
    if run[n].Irq? && Waiting(QueueRun(init)) == KB_IN_BYTES {
      assert Waiting(QueueRun(run[..n])) == KB_IN_BYTES;
    }
  }

  /** The ring buffer is that queue, under every interleaving. */
  method Interleave(run: seq<Action>) returns (kb: KbInput)
    ensures kb.Valid() && kb.accepted == QueueRun(run).accepted && kb.delivered == QueueRun(run).delivered
  {
    hide Ring;
    kb := new KbInput();
    var i := 0;
    assert run[..0] == [];
    while i < |run|
      invariant 0 <= i <= |run| && kb.Valid() && fresh(kb) && fresh(kb.buff)
      invariant kb.accepted == QueueRun(run[..i]).accepted && kb.delivered == QueueRun(run[..i]).delivered
    {
      assert run[..i + 1][..i] == run[..i];
      match run[i] {
        case Irq(b) => kb.Handler(b);
        case Get =>
          if kb.count > 0 {
            var b := kb.Take();
          }
      }
      i := i + 1;
    }
    assert run[..|run|] == run;
  }
}
