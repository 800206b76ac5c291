/** Bytes, 32-bit words and little-endian word access: the vocabulary of every other module. */
module Words {
  datatype Option<+T> = None | Some(value: T)

  const TWO31 := 0x8000_0000
  const TWO32 := 0x1_0000_0000
  const PAGE_SIZE := 0x1000

  type Byte = b: int | 0 <= b < 0x100
  type Word = w: int | 0 <= w < TWO32

  /** The word stored in bytes a .. a+3, least significant byte first. */
  function WordAt(m: seq<Byte>, a: int): Word
    requires 0 <= a && a + 4 <= |m|
  {
    (m[a] as int) + 0x100 * (m[a + 1] as int) + 0x1_0000 * (m[a + 2] as int) + 0x100_0000 * (m[a + 3] as int)
  }

  /** The bytes of a word in memory, least significant first. */
  lemma LittleEndian(m: seq<Byte>, a: int)
    requires 0 <= a && a + 4 <= |m|
    ensures WordAt(m, a) % 0x100 == m[a] && WordAt(m, a) / 0x100 % 0x100 == m[a + 1]
    ensures WordAt(m, a) / 0x1_0000 % 0x100 == m[a + 2] && WordAt(m, a) / 0x100_0000 == m[a + 3]
  {
    var w := WordAt(m, a);
    var w1: int := (m[a + 1] as int) + 0x100 * (m[a + 2] as int) + 0x1_0000 * (m[a + 3] as int);
    var w2: int := (m[a + 2] as int) + 0x100 * (m[a + 3] as int);
    assert w == m[a] + 0x100 * w1 && w1 == m[a + 1] + 0x100 * w2;
    hide WordAt;
    HigherBytes(w);
    assert w / 0x100 == w1;
    assert w1 / 0x100 == w2;
    assert w2 / 0x100 == m[a + 3];
  }

  /** Byte i of a word. */
  function ByteOf(w: Word, i: int): Byte
    requires 0 <= i < 4
  {
    if i == 0 then w % 0x100
    else if i == 1 then w / 0x100 % 0x100
    else if i == 2 then w / 0x1_0000 % 0x100
    else w / 0x100_0000
  }

  lemma BytesOfWord(w: Word)
    ensures w == ByteOf(w, 0) + 0x100 * ByteOf(w, 1) + 0x1_0000 * ByteOf(w, 2) + 0x100_0000 * ByteOf(w, 3)
  {
    var a := w / 0x100;
    var b := a / 0x100;
    HigherBytes(w);
    assert w == 0x100 * a + w % 0x100;
    assert a == 0x100 * b + a % 0x100;
    assert b == 0x100 * (b / 0x100) + b % 0x100;
  }

  lemma HigherBytes(w: Word)
    ensures w / 0x100 / 0x100 == w / 0x1_0000 && w / 0x1_0000 / 0x100 == w / 0x100_0000
  {
  }

  /** m' is m with the word w at address a, and no other byte changed. */
  ghost predicate Stored(m: seq<Byte>, m': seq<Byte>, a: int, w: Word)
    requires 0 <= a && a + 4 <= |m|
  {
    && |m'| == |m|
    && WordAt(m', a) == w
    && forall k | 0 <= k < |m| && !(a <= k < a + 4) :: m'[k] == m[k]
  }

  function RoundDown(a: int): (r: int)
    requires 0 <= a
    ensures 0 <= r <= a < r + PAGE_SIZE && r % PAGE_SIZE == 0
  {
    a - a % PAGE_SIZE
  }

  /** ROUNDUP with the wrap-around of its 32-bit addition. */
  function RoundUp(a: Word): (r: Word)
    ensures r % PAGE_SIZE == 0
    ensures a <= TWO32 - PAGE_SIZE ==> a <= r < a + PAGE_SIZE
    ensures a > TWO32 - PAGE_SIZE ==> r == 0
  {
    RoundDown((a + PAGE_SIZE - 1) % TWO32)
  }

  // ----- Bitwise or -----

  function Pow2(k: nat): nat {
    if k == 0 then 1 else 2 * Pow2(k - 1)
  }

  /** a | b */
  function BitOr(a: nat, b: nat): nat {
    if a == 0 && b == 0 then 0 else 2 * BitOr(a / 2, b / 2) + if a % 2 == 1 || b % 2 == 1 then 1 else 0
  }

  predicate Bit(x: nat, k: nat) {
    if k == 0 then x % 2 == 1 else Bit(x / 2, k - 1)
  }

  /** Bit by bit, it is or. */
  lemma {:induction false} OrBits(a: nat, b: nat, k: nat)
    ensures Bit(BitOr(a, b), k) <==> Bit(a, k) || Bit(b, k)
    decreases k
  {
    OrStep(a, b);
    hide BitOr;
    if 0 < k {
      OrBits(a / 2, b / 2, k - 1);
    }
  }

  lemma {:induction false} OrBelow(a: nat, b: nat, k: nat)
    requires a < Pow2(k) && b < Pow2(k)
    ensures BitOr(a, b) < Pow2(k)
    decreases k
  {
    if 0 < k {
      OrBelow(a / 2, b / 2, k - 1);
    }
  }

  lemma OrParity(a: nat, b: nat)
    requires a % 2 == 0
    ensures BitOr(a, b) % 2 == b % 2
  {
    OrStep(a, b);
    hide BitOr;
  }

  lemma OrStep(a: nat, b: nat)
    ensures BitOr(a, b) == 2 * BitOr(a / 2, b / 2) + if a % 2 == 1 || b % 2 == 1 then 1 else 0
  {
  }

  lemma {:induction false} OrZero(a: nat, b: nat)
    ensures BitOr(a, b) == 0 <==> a == 0 && b == 0
  {
    if a != 0 || b != 0 {
      OrZero(a / 2, b / 2);
    }
  }

  /** For operands without a bit in common, the lower one below bit k, it is addition. */
  lemma {:induction false} OrIsSum(x: nat, y: nat, k: nat)
    requires y < Pow2(k)
    ensures BitOr(x * Pow2(k), y) == x * Pow2(k) + y == BitOr(y, x * Pow2(k))
    decreases k
  {
    if k == 0 {
      OrNothing(x);
    } else {
      var q := x * Pow2(k - 1);
      Doubled(x, k);
      OrIsSum(x, y / 2, k - 1);
      hide Pow2, BitOr;
      OrEven(q, y);
    }
  }

  lemma Doubled(x: nat, k: nat)
    requires 0 < k
    ensures x * Pow2(k) == 2 * (x * Pow2(k - 1)) && Pow2(k) == 2 * Pow2(k - 1)
  {
  }

  lemma OrEven(q: nat, y: nat)
    ensures BitOr(2 * q, y) == 2 * BitOr(q, y / 2) + y % 2 && BitOr(y, 2 * q) == 2 * BitOr(y / 2, q) + y % 2
  {
    assert 2 * q / 2 == q && 2 * q % 2 == 0;
  }

  lemma {:induction false} OrNothing(x: nat)
    ensures BitOr(x, 0) == x == BitOr(0, x)
  {
    if 0 < x {
      OrNothing(x / 2);
    }
  }

  /** RoundDown(a) | flags, for flags below a page. */
  lemma OrFlags(a: Word, flags: Word)
    ensures BitOr(RoundDown(a), flags) < TWO32
    ensures flags < PAGE_SIZE ==> BitOr(RoundDown(a), flags) == RoundDown(a) + flags
  {
    assert Pow2(12) == PAGE_SIZE;
    assert Pow2(22) == 0x40_0000;
    assert Pow2(32) == TWO32;
    OrBelow(RoundDown(a), flags, 32);
    if flags < PAGE_SIZE {
      OrIsSum(a / PAGE_SIZE, flags, 12);
    }
  }
}
