/** Reading back what number() has written: an independent parser, and the round trip. */
module NumberReading {
  import opened Words
  import opened Number

  function DigitValue(c: char): int {
    if '0' <= c <= '9' then c as int - '0' as int
    else if 'A' <= c <= 'Z' then c as int - 'A' as int + 10
    else if 'a' <= c <= 'z' then c as int - 'a' as int + 10
    else -1
  }

  /** The value of a string of digits. */
  function FromDigits(s: string, base: nat): int {
    if s == "" then 0 else FromDigits(s[..|s| - 1], base) * base + DigitValue(s[|s| - 1])
  }

  function SkipBlanks(s: string): string {
    if s != "" && s[0] == ' ' then SkipBlanks(s[1..]) else s
  }

  function TrimBlanks(s: string): string {
    if s != "" && s[|s| - 1] == ' ' then TrimBlanks(s[..|s| - 1]) else s
  }

  /** Blanks, a sign, a base prefix if one was asked for, digits, blanks. */
  function Parse(s: string, base: nat, special: bool): int {
    var a := TrimBlanks(SkipBlanks(s));
    var negative := a != "" && a[0] == '-';
    var b := if a != "" && (a[0] == '-' || a[0] == '+') then a[1..] else a;
    var c := if special && base == 16 && |b| >= 2 then b[2..] else b;
    if negative then -FromDigits(c, base) else FromDigits(c, base)
  }

  lemma DigitValueOf(i: int, t: Flags)
    requires 0 <= i < 36
    ensures DigitValue(DigitsOf(t)[i]) == i
  {
    if t.small {
      LowerValue(i);
    } else {
      UpperValue(i);
    }
  }

  lemma UpperValue(i: int)
    requires 0 <= i < 36
    ensures DigitValue(UPPER[i]) == i
  {
    if i < 18 {
      if i < 9 {} else {}
    } else {
      if i < 27 {} else {}
    }
  }

  lemma LowerValue(i: int)
    requires 0 <= i < 36
    ensures DigitValue(LOWER[i]) == i
  {
    if i < 18 {
      if i < 9 {} else {}
    } else {
      if i < 27 {} else {}
    }
  }

  /** A character that is neither a blank nor a sign. */
  predicate Solid(c: char) {
    c != ' ' && c != '-' && c != '+'
  }

  lemma SolidDigit(i: int, t: Flags)
    requires 0 <= i < 36
    ensures Solid(DigitsOf(t)[i])
  {
    DigitValueOf(i, t);
  }

  lemma {:induction false} DigitsSolid(v: nat, base: nat, t: Flags)
    requires 2 <= base <= 36
    ensures forall i | 0 <= i < |Digits(v, base, DigitsOf(t))| :: Solid(Digits(v, base, DigitsOf(t))[i])
    decreases v
  {
    hide DigitsOf, Solid;
    DivLess(v, base);
    if v < base {
      SolidDigit(v, t);
    } else {
      SolidDigit(v % base, t);
      DigitsSolid(v / base, base, t);
    }
  }

  lemma {:induction false} DigitsValue(v: nat, base: nat, t: Flags)
    requires 2 <= base <= 36
    ensures FromDigits(Digits(v, base, DigitsOf(t)), base) == v
    decreases v
  {
    hide DigitsOf, DigitValue, Digits, FromDigits;
    DigitsStep(v, base, t);
    DivLess(v, base);
    if v < base {
      DigitValueOf(v, t);
      OneDigit(DigitsOf(t)[v], base);
    } else {
      var front, c := Digits(v / base, base, DigitsOf(t)), DigitsOf(t)[v % base];
      DigitValueOf(v % base, t);
      DigitsValue(v / base, base, t);
      FromDigitsStep(front, c, base);
      assert v == v / base * base + v % base;
    }
  }

  lemma DigitsStep(v: nat, base: nat, t: Flags)
    requires 2 <= base <= 36
    ensures v % base < 36 && Digits(v, base, DigitsOf(t)) ==
            if v < base then [DigitsOf(t)[v]] else Digits(v / base, base, DigitsOf(t)) + [DigitsOf(t)[v % base]]
  {
    hide DigitsOf;
  }

  lemma FromDigitsStep(s: string, c: char, base: nat)
    ensures FromDigits(s + [c], base) == FromDigits(s, base) * base + DigitValue(c)
  {
    hide DigitValue;
    assert (s + [c])[..|s|] == s;
  }

  lemma OneDigit(c: char, base: nat)
    ensures FromDigits([c], base) == DigitValue(c)
  {
    hide DigitValue;
    assert [c][..0] == "";
    assert FromDigits("", base) * base == 0;
  }

  lemma {:induction false} LeadingZeros(k: int, s: string, base: nat)
    ensures FromDigits(Repeat('0', k) + s, base) == FromDigits(s, base)
    decreases |s|
  {
    hide DigitValue;
    var z := Repeat('0', k);
    if s != "" {
      LeadingZeros(k, s[..|s| - 1], base);
      assert (z + s)[..|z + s| - 1] == z + s[..|s| - 1];
    } else {
      ZerosOnly(k, base);
      assert z + s == z;
    }
  }

  lemma {:induction false} ZerosOnly(k: int, base: nat)
    ensures FromDigits(Repeat('0', k), base) == 0
    decreases k
  {
    if k > 0 {
      ZerosOnly(k - 1, base);
      AppendZero(Repeat('0', k - 1), base);
    }
  }

  lemma AppendZero(s: string, base: nat)
    requires FromDigits(s, base) == 0
    ensures FromDigits(s + ['0'], base) == 0
  {
    assert (s + ['0'])[..|s|] == s;
    Times0(base);
  }

  lemma Times0(base: nat)
    ensures 0 * base == 0
  {
  }

  lemma {:induction false} SkipRepeat(k: int, s: string)
    ensures SkipBlanks(Repeat(' ', k) + s) == SkipBlanks(s)
    decreases k
  {
    var z := Repeat(' ', k);
    if k > 0 {
      assert (z + s)[1..] == z[1..] + s;
      assert z[1..] == Repeat(' ', k - 1);
      SkipRepeat(k - 1, s);
    } else {
      assert z + s == s;
    }
  }

  lemma {:induction false} TrimRepeat(k: int, s: string)
    ensures TrimBlanks(s + Repeat(' ', k)) == TrimBlanks(s)
    decreases k
  {
    var z := Repeat(' ', k);
    if k > 0 {
      assert (s + z)[..|s + z| - 1] == s + Repeat(' ', k - 1);
      TrimRepeat(k - 1, s);
    } else {
      assert s + z == s;
    }
  }

  /** sign, then a core that starts and ends with solid characters, between blanks. */
  lemma Stripped(n: int, sign: string, core: string, k: int)
    requires core != "" && Solid(core[0]) && Solid(core[|core| - 1])
    requires sign == "" || sign == "-" || sign == "+" || sign == " "
    ensures TrimBlanks(SkipBlanks(Repeat(' ', n) + sign + core + Repeat(' ', k))) ==
            (if sign == " " then "" else sign) + core
  {
    hide SkipBlanks, TrimBlanks, Repeat, Solid;
    var z, lead := Repeat(' ', k), if sign == " " then "" else sign;
    Regrouped(Repeat(' ', n), sign, core, z);
    Starts(core, z);
    StrippedLeft(n, sign, core + z);
    StrippedRight(lead, core, k);
  }

  lemma Starts(a: string, b: string)
    requires a != ""
    ensures a + b != "" && (a + b)[0] == a[0]
  {
  }

  lemma StrippedRight(lead: string, core: string, k: int)
    requires core != "" && Solid(core[|core| - 1])
    ensures TrimBlanks(lead + (core + Repeat(' ', k))) == lead + core
  {
    hide TrimBlanks, Repeat, Solid;
    assert lead + (core + Repeat(' ', k)) == lead + core + Repeat(' ', k);
    TrimRepeat(k, lead + core);
    assert (lead + core)[|lead + core| - 1] == core[|core| - 1];
    TrimSolid(lead + core);
  }

  lemma StrippedLeft(n: int, sign: string, tail: string)
    requires tail != "" && Solid(tail[0])
    requires sign == "" || sign == "-" || sign == "+" || sign == " "
    ensures SkipBlanks(Repeat(' ', n) + (sign + tail)) == (if sign == " " then "" else sign) + tail
  {
    hide SkipBlanks, Repeat, Solid;
    SkipRepeat(n, sign + tail);
    SkipSigned(sign, tail);
  }

  lemma Regrouped(a: string, b: string, c: string, d: string)
    ensures a + b + c + d == a + (b + (c + d))
  {
  }

  lemma SkipSigned(sign: string, tail: string)
    requires tail != "" && Solid(tail[0])
    requires sign == "" || sign == "-" || sign == "+" || sign == " "
    ensures SkipBlanks(sign + tail) == (if sign == " " then "" else sign) + tail
  {
    if sign == " " {
      assert (sign + tail)[1..] == tail;
      assert "" + tail == tail;
    } else if sign == "" {
      assert sign + tail == tail;
    }
  }

  lemma TrimSolid(s: string)
    requires s != "" && Solid(s[|s| - 1])
    ensures TrimBlanks(s) == s
  {
  }

  /** What number() writes between sign and trailing blanks: prefix, zeros, digits. */
  function Core(num: Word, base: nat, zeros: int, t: Flags): string
    requires 2 <= base <= 36
  {
    PrefixText(base, t) + (Repeat('0', zeros) + Digits(Magnitude(num, t), base, DigitsOf(t)))
  }

  lemma CoreSolid(num: Word, base: nat, zeros: int, t: Flags)
    requires 2 <= base <= 36
    ensures var c := Core(num, base, zeros, t); c != "" && Solid(c[0]) && Solid(c[|c| - 1])
    ensures t.special && base == 16 ==> |Core(num, base, zeros, t)| >= 2
  {
    DigitsSolid(Magnitude(num, t), base, t);
    hide Digits, DigitsOf, Magnitude;
  }

  lemma CoreValue(num: Word, base: nat, zeros: int, t: Flags)
    requires 2 <= base <= 36
    ensures var c := Core(num, base, zeros, t);
            FromDigits(if t.special && base == 16 then c[2..] else c, base) == Magnitude(num, t)
  {
    hide Digits, DigitsOf, Magnitude, Repeat, FromDigits;
    var c, d := Core(num, base, zeros, t), Digits(Magnitude(num, t), base, DigitsOf(t));
    DigitsValue(Magnitude(num, t), base, t);
    LeadingZeros(zeros, d, base);
    var body := Repeat('0', zeros) + d;
    if t.special && base == 16 {
      assert c[2..] == body;
    } else if t.special && base == 8 {
      OneZero();
      LeadingZeros(1, body, base);
    } else {
      assert c == body;
    }
  }

  lemma OneZero()
    ensures Repeat('0', 1) == "0"
  {
    assert Repeat('0', 0) == "";
  }

  /** The shape of the text, whatever the flags. */
  lemma Shape(num: Word, base: nat, size: int, precision: int, t: Flags) returns (n: int, zeros: int, k: int)
    requires 2 <= base <= 36
    ensures NumberText(num, base, size, precision, t) ==
            Repeat(' ', n) + SignText(num, t) + Core(num, base, zeros, t) + Repeat(' ', k)
  {
    hide SignText, PrefixText, Repeat, Digits, Magnitude, Shortfall;
    var gap := Shortfall(num, base, size, precision, t);
    var d := Digits(Magnitude(num, t), base, DigitsOf(t));
    Blank(0);
    zeros := precision - |d|;
    n, k := 0, 0;
    var s, p := SignText(num, t), PrefixText(base, t);
    if t.left {
      k := gap;
      Regroup("", s, p, Repeat('0', zeros) + d, Repeat(' ', gap));
    } else if t.zeropad {
      Regroup("", s, p, Repeat('0', gap) + (Repeat('0', zeros) + d), "");
      assert s + p + Repeat('0', gap) + (Repeat('0', zeros) + d) ==
             s + p + (Repeat('0', gap) + (Repeat('0', zeros) + d));
      JoinZeros(gap, zeros, d);
      zeros := Max(gap, 0) + Max(zeros, 0);
    } else {
      n := gap;
      Regroup(Repeat(' ', gap), s, p, Repeat('0', zeros) + d, "");
    }
  }

  lemma Regroup(a: string, s: string, p: string, b: string, e: string)
    ensures a + s + p + b + e == a + s + (p + b) + e
    ensures a == "" ==> s + p + b + e == a + s + (p + b) + e
    ensures e == "" ==> a + s + p + b == a + s + (p + b) + e
    ensures a == "" && e == "" ==> s + p + b == a + s + (p + b) + e
  {
  }

  lemma {:induction false} JoinZeros(a: int, b: int, d: string)
    ensures Repeat('0', a) + (Repeat('0', b) + d) == Repeat('0', Max(a, 0) + Max(b, 0)) + d
  {
    assert Repeat('0', a) + Repeat('0', b) == Repeat('0', Max(a, 0) + Max(b, 0));
    assert Repeat('0', a) + (Repeat('0', b) + d) == Repeat('0', a) + Repeat('0', b) + d;
  }

  /**
   * Round trip: for every 32-bit value, base, width, precision and flags, reading the text gives the value back;
   * the most negative value included.
   */
  lemma NumberRoundTrip(num: Word, base: nat, size: int, precision: int, t: Flags)
    requires 2 <= base <= 36
    ensures Parse(NumberText(num, base, size, precision, t), base, t.special) == Value(num, t)
  {
    hide NumberText, Core, FromDigits, SkipBlanks, TrimBlanks, Digits, Repeat;
    var n, zeros, k := Shape(num, base, size, precision, t);
    var c := Core(num, base, zeros, t);
    CoreSolid(num, base, zeros, t);
    CoreValue(num, base, zeros, t);
    Stripped(n, SignText(num, t), c, k);
    var sign := SignText(num, t);
    if sign == "-" || sign == "+" {
      assert (sign + c)[1..] == c;
    } else {
      assert (if sign == " " then "" else sign) + c == c;
    }
  }

  // ----- Layout -----

  /** A numeral of the base without leading zeros, in capital or small letters. */
  ghost predicate Numeral(d: string, base: nat, small: bool) {
    && d != "" && (|d| > 1 ==> d[0] != '0')
    && forall i | 0 <= i < |d| ::
         0 <= DigitValue(d[i]) < base && if small then !('A' <= d[i] <= 'Z') else !('a' <= d[i] <= 'z')
  }

  /** What is written for v between blanks, by the flags: sign and prefix. */
  function Front(v: int, base: nat, t: Flags): string {
    (if v < 0 then "-" else if t.plus then "+" else if t.space then " " else "") +
    (if t.special && base == 8 then "0"
     else if t.special && base == 16 && t.small then "0x"
     else if t.special && base == 16 then "0X"
     else "")
  }

  /**
   * s shows the number v: blanks, sign and prefix, zeros, the numeral, blanks. Blanks come in front unless the flags
   * say left or zeros, and behind only for left; zeros beyond the precision only for the flag 0 without left; and the
   * whole is as long as the width, or as it must be.
   */
  ghost predicate Shows(s: string, v: int, base: nat, size: int, precision: int, t: Flags) {
    exists a: nat, z: nat, d: string, k: nat :: ShownBy(s, v, base, size, precision, t, a, z, d, k)
  }

  ghost predicate ShownBy(s: string, v: int, base: nat, size: int, precision: int, t: Flags, a: nat, z: nat,
      d: string, k: nat) {
    && s == Repeat(' ', a) + Front(v, base, t) + Repeat('0', z) + d + Repeat(' ', k)
    && Numeral(d, base, t.small) && FromDigits(d, base) == (if v < 0 then -v else v)
    && (a > 0 ==> !t.left && !t.zeropad) && (k > 0 ==> t.left)
    && |d| + z >= Max(precision, |d|) && (|d| + z > Max(precision, |d|) ==> t.zeropad && !t.left)
    && |s| == Max(size, |Front(v, base, t)| + Max(precision, |d|))
  }

  lemma {:induction false} DigitsNumeral(v: nat, base: nat, t: Flags)
    requires 2 <= base <= 36
    ensures Numeral(Digits(v, base, DigitsOf(t)), base, t.small)
    ensures v > 0 ==> Digits(v, base, DigitsOf(t))[0] != '0'
    decreases v
  {
    hide DigitsOf, DigitValue, Digits;
    DigitsStep(v, base, t);
    DivLess(v, base);
    if v < base {
      DigitCase(v, t);
    } else {
      DigitCase(v % base, t);
      DigitsNumeral(v / base, base, t);
      QuotientPositive(v, base);
    }
  }

  lemma QuotientPositive(v: nat, base: nat)
    requires 2 <= base <= v
    ensures v / base > 0
  {
  }

  lemma DigitCase(i: int, t: Flags)
    requires 0 <= i < 36
    ensures var c := DigitsOf(t)[i];
            && DigitValue(c) == i && (i > 0 ==> c != '0')
            && if t.small then !('A' <= c <= 'Z') else !('a' <= c <= 'z')
  {
    DigitValueOf(i, t);
    if t.small {
      SmallLetter(i);
    } else {
      CapitalLetter(i);
    }
  }

  lemma SmallLetter(i: int)
    requires 0 <= i < 36
    ensures !('A' <= LOWER[i] <= 'Z')
  {
    if i < 18 {
      if i < 9 {} else {}
    } else {
      if i < 27 {} else {}
    }
  }

  lemma CapitalLetter(i: int)
    requires 0 <= i < 36
    ensures !('a' <= UPPER[i] <= 'z')
  {
    if i < 18 {
      if i < 9 {} else {}
    } else {
      if i < 27 {} else {}
    }
  }

  lemma FrontIs(num: Word, base: nat, t: Flags)
    ensures var v := if t.sign && num >= 0x8000_0000 then num - 0x1_0000_0000 else num;
            Front(v, base, t) == SignText(num, t) + PrefixText(base, t) && Magnitude(num, t) == if v < 0 then -v else v
  {
  }

  lemma RepeatFrom0(c: char, n: int)
    ensures Repeat(c, n) == Repeat(c, Max(n, 0)) && Repeat(c, 0) == ""
  {
  }

  /** The text, cut into blanks, sign and prefix, zeros, digits and blanks. */
  lemma TextParts(num: Word, base: nat, size: int, precision: int, t: Flags, d: string) returns (a: nat, z: nat, k: nat)
    requires 2 <= base <= 36 && d == Digits(Magnitude(num, t), base, DigitsOf(t))
    ensures NumberText(num, base, size, precision, t) ==
            Repeat(' ', a) + (SignText(num, t) + PrefixText(base, t)) + Repeat('0', z) + d + Repeat(' ', k)
    ensures (a > 0 ==> !t.left && !t.zeropad) && (k > 0 ==> t.left)
    ensures |d| + z >= Max(precision, |d|) && (|d| + z > Max(precision, |d|) ==> t.zeropad && !t.left)
  {
    hide SignText, PrefixText, Repeat, Digits, DigitsOf, Magnitude, Shortfall;
    var gap, zeros := Shortfall(num, base, size, precision, t), precision - |d|;
    var s, p := SignText(num, t), PrefixText(base, t);
    RepeatFrom0(' ', gap);
    RepeatFrom0('0', zeros);
    a, z, k := 0, Max(zeros, 0), 0;
    if t.left {
      k := Max(gap, 0);
      Joined("", s, p, Repeat('0', z), d, Repeat(' ', k));
    } else if t.zeropad {
      JoinZeros(gap, zeros, d);
      Zeroed(s + p, Repeat('0', gap), Repeat('0', zeros), d, Repeat('0', Max(gap, 0) + Max(zeros, 0)));
      z := Max(gap, 0) + Max(zeros, 0);
      Joined("", s, p, Repeat('0', z), d, "");
    } else {
      a := Max(gap, 0);
      Joined(Repeat(' ', a), s, p, Repeat('0', z), d, "");
    }
  }

  lemma Zeroed(f: string, g: string, z: string, d: string, gz: string)
    requires g + (z + d) == gz + d
    ensures f + g + (z + d) == f + (gz + d)
  {
    assert f + g + (z + d) == f + (g + (z + d));
  }

  lemma Joined(a: string, s: string, p: string, z: string, d: string, k: string)
    ensures a + s + p + (z + d) == a + (s + p) + z + d
    ensures a == "" ==> s + p + (z + d) + k == a + (s + p) + z + d + k && s + p + (z + d) == a + (s + p) + z + d
    ensures k == "" ==> a + (s + p) + z + d + k == a + (s + p) + z + d
  {
    if a == "" {
      assert a + (s + p) == s + p;
    }
  }

  /** For every value, base, width, precision and flags: the text shows the number, signed or unsigned as SIGN says. */
  lemma NumberShown(num: Word, base: nat, size: int, precision: int, t: Flags)
    requires 2 <= base <= 36
    ensures Shows(NumberText(num, base, size, precision, t),
                  if t.sign && num >= 0x8000_0000 then num - 0x1_0000_0000 else num, base, size, precision, t)
  {
    hide Digits, DigitsOf, Numeral, FromDigits, Repeat, NumberText, Front, SignText, PrefixText;
    var v := if t.sign && num >= 0x8000_0000 then num - 0x1_0000_0000 else num;
    var d := Digits(Magnitude(num, t), base, DigitsOf(t));
    FrontIs(num, base, t);
    DigitsNumeral(Magnitude(num, t), base, t);
    DigitsValue(Magnitude(num, t), base, t);
    NumberLength(num, base, size, precision, t);
    var a, z, k := TextParts(num, base, size, precision, t, d);
    assert ShownBy(NumberText(num, base, size, precision, t), v, base, size, precision, t, a, z, d, k);
  }
}
