/** number() of kern/debug/printk.c: integers to text with sign, prefix, precision and padding. */
module Number {
  import opened Words

  /** The bits of the type argument. */
  datatype Flags = Flags(zeropad: bool, sign: bool, plus: bool, space: bool, left: bool, special: bool, small: bool)

  // ----- What the text means -----

  const UPPER := "0123456789ABCDEFGHIJKLMNOPQRSTUVWXYZ"
  const LOWER := "0123456789abcdefghijklmnopqrstuvwxyz"

  function DigitsOf(t: Flags): (d: string)
    ensures |d| == 36
  {
    if t.small then LOWER else UPPER
  }

  /** v in the given base, most significant digit first. */
  function Digits(v: nat, base: nat, alphabet: string): (s: string)
    requires 2 <= base <= |alphabet|
    ensures |s| > 0
    decreases v
  {
    if v < base then [alphabet[v]]
    else
      DivLess(v, base);
      Digits(v / base, base, alphabet) + [alphabet[v % base]]
  }

  function Repeat(c: char, n: int): (s: string)
    ensures |s| == if n > 0 then n else 0
    ensures forall i | 0 <= i < |s| :: s[i] == c
    decreases n
  {
    if n <= 0 then "" else Repeat(c, n - 1) + [c]
  }

  function Max(a: int, b: int): int {
    if a > b then a else b
  }

  /** num as a 32-bit two's complement number when SIGN is set, as an unsigned one otherwise. */
  function Value(num: Word, t: Flags): int {
    if t.sign && num >= TWO31 then num - TWO32 else num
  }

  function Magnitude(num: Word, t: Flags): Word {
    if t.sign && num >= TWO31 then TWO32 - num else num
  }

  function SignText(num: Word, t: Flags): string {
    if Value(num, t) < 0 then "-" else if t.plus then "+" else if t.space then " " else ""
  }

  function PrefixText(base: int, t: Flags): string {
    if t.special && base == 8 then "0"
    else if t.special && base == 16 then (if t.small then "0x" else "0X")
    else ""
  }

  /** The digits, filled up with zeros to the precision. */
  function Body(num: Word, base: nat, precision: int, t: Flags): string
    requires 2 <= base <= 36
  {
    var d := Digits(Magnitude(num, t), base, DigitsOf(t));
    Repeat('0', precision - |d|) + d
  }

  /** How far sign, prefix and body fall short of the field. */
  function Shortfall(num: Word, base: nat, size: int, precision: int, t: Flags): int
    requires 2 <= base <= 36
  {
    size - |SignText(num, t)| - |PrefixText(base, t)| - |Body(num, base, precision, t)|
  }

  /** Sign, prefix and body, brought to the field width by blanks before or after, or zeros inside. */
  function NumberText(num: Word, base: nat, size: int, precision: int, t: Flags): string
    requires 2 <= base <= 36
  {
    var gap := Shortfall(num, base, size, precision, t);
    var sign, prefix, body := SignText(num, t), PrefixText(base, t), Body(num, base, precision, t);
    if t.left then sign + prefix + body + Repeat(' ', gap)
    else if t.zeropad then sign + prefix + Repeat('0', gap) + body
    else Repeat(' ', gap) + sign + prefix + body
  }

  // ----- Properties -----

  /** Total length: the field width or what the number needs, whichever is larger. */
  lemma NumberLength(num: Word, base: nat, size: int, precision: int, t: Flags)
    requires 2 <= base <= 36
    ensures |NumberText(num, base, size, precision, t)| ==
            Max(size, |SignText(num, t)| + |PrefixText(base, t)| +
                      Max(precision, |Digits(Magnitude(num, t), base, DigitsOf(t))|))
  {
  }

  function Pow(base: nat, n: nat): nat {
    if n == 0 then 1 else base * Pow(base, n - 1)
  }

  lemma {:induction false} DigitsBound(v: nat, base: nat, alphabet: string, n: nat)
    requires 2 <= base <= |alphabet| && v < Pow(2, n) && 0 < n
    ensures |Digits(v, base, alphabet)| <= n
    decreases v
  {
    if v >= base {
      DivLess(v, base);
      DigitsBound(v / base, base, alphabet, n - 1);
    }
  }

  lemma DivLess(v: nat, base: nat)
    requires 2 <= base
    ensures 0 <= v / base <= v / 2 && 0 <= v % base < base
  {
    var q := v / base;
    assert v == q * base + v % base;
    assert 2 * q <= q * base;
  }

  /** tmp has 36 slots; no 32-bit number needs more than 32. */
  lemma AtMost32Digits(num: Word, base: nat, alphabet: string)
    requires 2 <= base <= |alphabet|
    ensures |Digits(num, base, alphabet)| <= 32
  {
    assert Pow(2, 32) == TWO32 by {
      assert Pow(2, 8) == 256;
      PowAdd(8, 8);
      PowAdd(16, 16);
    }
    DigitsBound(num, base, alphabet, 32);
  }

  lemma {:induction false} PowAdd(a: nat, b: nat)
    ensures Pow(2, a + b) == Pow(2, a) * Pow(2, b)
  {
    if a > 0 {
      PowAdd(a - 1, b);
    }
  }

  // ----- The code -----

  /** The output pointer str of printk.c: text is what has been written through it since it was at start. */
  class Writer {
    const buff: array<char>
    const start: nat
    var str: nat
    ghost const before: string
    ghost var text: string

    ghost predicate Valid()
      reads this, buff
    {
      && start <= |before| == buff.Length && str == start + |text| <= buff.Length
      && buff[..] == before[..start] + text + before[str..]
    }

    /** n more characters fit. */
    ghost predicate Room(n: int)
      reads this
    {
      str + n <= buff.Length
    }

    constructor (buff: array<char>, start: nat)
      requires start <= buff.Length
      ensures Valid() && this.buff == buff && this.start == start && text == "" && before == buff[..]
    {
      this.buff, this.start, this.str := buff, start, start;
      text, before := "", buff[..];
    }

    /** Appends one character to the output. */
    method Put(c: char)
      requires Valid() && Room(1)
      modifies this, buff
      ensures Valid() && text == old(text) + [c] && str == old(str) + 1
    {
      ghost var b := buff[..];
      buff[str] := c;
      str := str + 1;
      text := text + [c];
      assert buff[..] == b[..str - 1] + [c] + b[str..];
      assert b[..str - 1] == before[..start] + old(text);
    }

    /** A padding loop: appends c as often as size says and leaves size used up. */
    method Pad(size: int, c: char) returns (size': int)
      requires Valid() && Room(|Repeat(c, size)|)
      modifies this, buff
      ensures Valid() && text == old(text) + Repeat(c, size) && str == old(str) + |Repeat(c, size)|
      ensures size' == (if size > 0 then 0 else size) - 1
    {
      hide Valid;
      size' := size;
      ghost var n := 0;
      while size' > 0
        invariant n == size - size' && 0 <= n && (n == 0 || n <= size)
        invariant Valid() && text == old(text) + Repeat(c, n) && str == old(str) + n
        decreases size'
      {
        Put(c);
        size' := size' - 1;
        n := n + 1;
      }
      size' := size' - 1;
    }
  }

  function Rev(s: string): (r: string)
    ensures |r| == |s|
  {
    if s == "" then "" else [s[|s| - 1]] + Rev(s[..|s| - 1])
  }

  /** The digits are produced last first into tmp; num is divided as an unsigned number. */
  method ToDigits(num: Word, base: int, alphabet: string, tmp: array<char>) returns (i: nat)
    requires 2 <= base <= |alphabet| && alphabet[0] == '0' && tmp.Length == 36
    modifies tmp
    ensures i <= 32 && Rev(tmp[..i]) == Digits(num, base, alphabet)
  {
    hide Digits;
    AtMost32Digits(num, base, alphabet);
    ghost var all := Digits(num, base, alphabet);
    var n: int := num;
    i := 0;
    if n == 0 {
      tmp[i] := '0';
      i := i + 1;
      assert tmp[..i] == ['0'];
      LastDigit(0, base, alphabet);
    } else {
      while n != 0
        invariant 0 <= n < TWO32 && i + |Rest(n, base, alphabet)| == |all| <= 32
        invariant Rest(n, base, alphabet) + Rev(tmp[..i]) == all
      {
        LastDigit(n, base, alphabet);
        ghost var low, high := Rev(tmp[..i]), Rest(n / base, base, alphabet);
        var d := alphabet[n % base];
        tmp[i] := d;
        n := n / base;
        i := i + 1;
        assert tmp[..i][..i - 1] == tmp[..i - 1];
        assert high + [d] + low == high + ([d] + low);
      }
    }
  }

  /** The digits still to come; none once n is 0. */
  function Rest(n: nat, base: nat, alphabet: string): string
    requires 2 <= base <= |alphabet|
  {
    if n == 0 then "" else Digits(n, base, alphabet)
  }

  lemma LastDigit(n: nat, base: nat, alphabet: string)
    requires 2 <= base <= |alphabet|
    ensures 0 <= n / base <= n && (n > 0 ==> n / base < n) && 0 <= n % base < base
    ensures Digits(n, base, alphabet) == Rest(n / base, base, alphabet) + [alphabet[n % base]]
    ensures n == 0 ==> n % base == 0 && Rest(n / base, base, alphabet) == ""
  {
    DivLess(n, base);
    QuotientZero(n, base);
  }

  lemma QuotientZero(n: nat, base: nat)
    requires 2 <= base
    ensures n / base == 0 <==> n < base
    ensures n < base ==> n % base == n
  {
  }

  /** The precision loop: zeros in front of i digits, until there are as many digits as the precision asks for. */
  method PutZeros(w: Writer, i: int, precision: int)
    requires w.Valid() && w.Room(|Repeat('0', precision - i)|)
    modifies w, w.buff
    ensures w.Valid() && w.text == old(w.text) + Repeat('0', precision - i) &&
            w.str == old(w.str) + |Repeat('0', precision - i)|
  {
    var p := precision;
    ghost var n := 0;
    while i < p
      invariant n == precision - p && 0 <= n && (n == 0 || n <= precision - i)
      invariant w.Valid() && w.text == old(w.text) + Repeat('0', n) && w.str == old(w.str) + n
      decreases p - i
    {
      p := p - 1;
      w.Put('0');
      n := n + 1;
    }
  }

  /** Copies the digits from tmp to the output, last slot first. */
  method PutDigits(w: Writer, tmp: array<char>, count: nat)
    requires w.Valid() && w.Room(count) && count <= tmp.Length && tmp != w.buff
    modifies w, w.buff
    ensures w.Valid() && w.text == old(w.text) + Rev(tmp[..count]) && w.str == old(w.str) + count
  {
    ghost var all := Rev(tmp[..count]);
    var i := count;
    ghost var done := "";
    while i > 0
      invariant 0 <= i <= count && done + Rev(tmp[..i]) == all && |done| == count - i
      invariant w.Valid() && w.text == old(w.text) + done && w.str == old(w.str) + count - i
    {
      i := i - 1;
      assert tmp[..i + 1][..i] == tmp[..i];
      w.Put(tmp[i]);
      assert done + ([tmp[i]] + Rev(tmp[..i])) == done + [tmp[i]] + Rev(tmp[..i]);
      done := done + [tmp[i]];
    }
    assert done == all;
  }

  /** The prefix that the flag # asks for: 0 in base 8, 0x or 0X in base 16. */
  method PutPrefix(w: Writer, base: int, t: Flags)
    requires w.Valid() && w.Room(|PrefixText(base, t)|)
    modifies w, w.buff
    ensures w.Valid() && w.text == old(w.text) + PrefixText(base, t) && w.str == old(w.str) + |PrefixText(base, t)|
  {
    if t.special {
      if base == 8 {
        w.Put('0');
      } else if base == 16 {
        w.Put('0');
        w.Put(DigitsOf(t)[33]);
        assert "0" + [DigitsOf(t)[33]] == PrefixText(base, t);
      }
    }
  }

  /** Lines 112-132 of number(): the paddings before and inside, sign and prefix; left is what remains of size. */
  method WriteHead(w: Writer, sign: string, base: int, size: int, t: Flags) returns (left: int)
    requires w.Valid() && |sign| <= 1 && (t.left ==> !t.zeropad)
    requires w.Room((if t.left then 0 else Max(size, 0)) + |sign| + |PrefixText(base, t)|)
    modifies w, w.buff
    ensures w.Valid() && (if t.left then left == size else left < 0)
    ensures w.text == old(w.text) + Repeat(' ', if t.left || t.zeropad then 0 else size) + sign + PrefixText(base, t)
                      + Repeat('0', if t.zeropad then size else 0)
    ensures w.str == old(w.str) + (if t.left then 0 else Max(size, 0)) + |sign| + |PrefixText(base, t)|
  {
    hide PrefixText, Repeat, Writer.Valid;
    Blank(0);
    Blank(size);
    Blank(if size > 0 then -1 else size - 1);
    left := size;
    if !(t.zeropad || t.left) {
      left := w.Pad(left, ' ');
    }
    PutSign(w, sign);
    PutPrefix(w, base, t);
    if !t.left {
      left := w.Pad(left, if t.zeropad then '0' else ' ');
    }
  }

  /**
   * Lines 112-141 of number(): the loops that write. Each padding loop leaves its counter negative, so at most
   * one of the three writes anything.
   */
  method WriteOut(w: Writer, sign: string, base: int, size: int, precision: int, t: Flags, tmp: array<char>, i: nat)
    requires w.Valid() && tmp != w.buff && i <= tmp.Length && |sign| <= 1 && (t.left ==> !t.zeropad)
    requires w.Room(Max(size, 0) + |sign| + |PrefixText(base, t)| + Max(precision - i, 0) + i)
    modifies w, w.buff
    ensures w.Valid()
    ensures w.text ==
            InOrder(old(w.text), sign, PrefixText(base, t), size, Repeat('0', precision - i), Rev(tmp[..i]), t)
  {
    hide PrefixText, Rev, Repeat, Writer.Valid;
    var left := WriteHead(w, sign, base, size, t);
    Blank(0);
    Blank(left);
    Blank(precision - i);
    PutZeros(w, i, precision);
    PutDigits(w, tmp, i);
    left := w.Pad(left, ' ');
  }

  lemma Blank(n: int)
    ensures n <= 0 ==> Repeat('0', n) == "" == Repeat(' ', n)
    ensures |Repeat('0', n)| == Max(n, 0) == |Repeat(' ', n)|
  {
  }

  /** The sign, one character or none. */
  method PutSign(w: Writer, sign: string)
    requires w.Valid() && w.Room(|sign|) && |sign| <= 1
    modifies w, w.buff
    ensures w.Valid() && w.text == old(w.text) + sign && w.str == old(w.str) + |sign|
  {
    if sign != "" {
      w.Put(sign[0]);
      assert [sign[0]] == sign;
    }
  }

  /** The text in the order in which it is written: three paddings, of which at most one is not empty. */
  function InOrder(before: string, sign: string, prefix: string, gap: int, zeros: string, d: string, t: Flags): string {
    before + Repeat(' ', if t.left || t.zeropad then 0 else gap) + sign + prefix
      + Repeat('0', if t.zeropad && !t.left then gap else 0) + zeros + d + Repeat(' ', if t.left then gap else 0)
  }

  lemma WrittenOrder(before: string, num: Word, base: nat, size: int, precision: int, t: Flags)
    requires 2 <= base <= 36
    ensures var d := Digits(Magnitude(num, t), base, DigitsOf(t));
            InOrder(before, SignText(num, t), PrefixText(base, t), Shortfall(num, base, size, precision, t),
                Repeat('0', precision - |d|), d, t)
            == before + NumberText(num, base, size, precision, t)
  {
    hide SignText, PrefixText, Repeat, Digits, Shortfall, Magnitude;
    var gap := Shortfall(num, base, size, precision, t);
    var d := Digits(Magnitude(num, t), base, DigitsOf(t));
    var sign, prefix, zeros := SignText(num, t), PrefixText(base, t), Repeat('0', precision - |d|);
    Blank(0);
    if t.left {
      Assoc(before, [sign, prefix, zeros, d, Repeat(' ', gap)]);
    } else if t.zeropad {
      Assoc(before, [sign, prefix, Repeat('0', gap), zeros, d]);
    } else {
      Assoc(before, [Repeat(' ', gap), sign, prefix, zeros, d]);
    }
  }

  lemma Assoc(b: string, p: seq<string>)
    requires |p| == 5
    ensures b + p[0] + p[1] + p[2] + p[3] + p[4] == b + (p[0] + p[1] + p[2] + (p[3] + p[4]))
    ensures b + p[0] + p[1] + p[2] + p[3] + p[4] == b + (p[0] + p[1] + (p[2] + p[3]) + p[4])
  {
  }

  /** Lines 81-97 of number(): sign and magnitude, and the field width less sign and prefix. */
  method Prepare(num: Word, base: int, size: int, t: Flags) returns (sign: string, n: Word, left: int)
    ensures sign == SignText(num, t) && n == Magnitude(num, t) && |sign| <= 1
    ensures left == size - |sign| - |PrefixText(base, t)|
  {
    sign, n, left := "", num, size;
    if t.sign && n >= TWO31 {
      sign, n := "-", (TWO32 - n) % TWO32;
    } else if t.plus {
      sign := "+";
    } else if t.space {
      sign := " ";
    }
    if sign != "" {
      left := left - 1;
    }
    if t.special {
      if base == 16 {
        left := left - 2;
      } else if base == 8 {
        left := left - 1;
      }
    }
  }

  /** number(); false is the null pointer returned for an impossible base. */
  method PutNumber(w: Writer, num: Word, base: int, size: int, precision: int, t: Flags) returns (ok: bool)
    requires w.Valid() && (2 <= base <= 36 ==> w.Room(|NumberText(num, base, size, precision, t)|))
    modifies w, w.buff
    ensures w.Valid() && (ok <==> 2 <= base <= 36)
    ensures w.text == if ok then old(w.text) + NumberText(num, base, size, precision, t) else old(w.text)
  {
    hide Rev, Repeat, Digits, Writer.Valid, NumberText, SignText, PrefixText, Shortfall, Magnitude, DigitsOf, InOrder;
    FirstDigit(t);
    var digits := DigitsOf(t);
    var kind := if t.left then t.(zeropad := false) else t;
    if base < 2 || base > 36 {
      return false;
    }
    SameKind(num, base, t);
    var sign, n, left := Prepare(num, base, size, kind);
    var tmp := new char[36];
    var i := ToDigits(n, base, digits, tmp);
    var prec := if i > precision then i else precision;
    left := left - prec;
    FitsIn(num, base, size, precision, t);
    SamePad(i, precision);
    WriteOut(w, sign, base, left, prec, kind, tmp, i);
    WrittenOrder(old(w.text), num, base, size, precision, t);
    ok := true;
  }

  lemma FirstDigit(t: Flags)
    ensures DigitsOf(t)[0] == '0'
  {
  }

  /** Clearing ZEROPAD when LEFT is set does not change what the number needs, nor the order. */
  lemma SameKind(num: Word, base: int, t: Flags)
    ensures t.left ==> forall b, s, p, g, z, d ::
            InOrder(b, s, p, g, z, d, t.(zeropad := false)) == InOrder(b, s, p, g, z, d, t)
    ensures var k := t.(zeropad := false);
            && SignText(num, k) == SignText(num, t) && Magnitude(num, k) == Magnitude(num, t)
            && PrefixText(base, k) == PrefixText(base, t)
  {
  }

  lemma SamePad(i: int, precision: int)
    ensures Repeat('0', Max(precision, i) - i) == Repeat('0', precision - i)
    ensures |Repeat('0', precision - i)| == Max(precision, i) - i
  {
  }

  lemma FitsIn(num: Word, base: nat, size: int, precision: int, t: Flags)
    requires 2 <= base <= 36
    ensures var n := |Digits(Magnitude(num, t), base, DigitsOf(t))|;
            && Shortfall(num, base, size, precision, t) ==
               size - |SignText(num, t)| - |PrefixText(base, t)| - Max(precision, n)
            && |NumberText(num, base, size, precision, t)| ==
               Max(Shortfall(num, base, size, precision, t), 0) + |SignText(num, t)|
                 + |PrefixText(base, t)| + Max(precision, n)
  {
  }
}
