/** vsprintf() of kern/debug/printk.c: the format-string interpreter, and what a format means. */
module Printk {
  import opened Words
  import opened Number

  // ----- What a format string says -----

  datatype Field = Absent | Given(n: int) | Star

  /** conv is the conversion letter, or '\0' where the format ends first. */
  datatype Directive = Directive(flags: Flags, width: Field, precision: Field, conv: char)

  datatype Item = Literal(c: char) | Conv(d: Directive)

  /** The variable arguments: 32-bit integers (or pointers, or characters) and strings. */
  datatype Arg = Num(w: Word) | Str(s: string)

  const NO_FLAGS := Flags(false, false, false, false, false, false, false)

  function Head(s: string): char {
    if s == "" then '\0' else s[0]
  }

  predicate IsDigit(c: char) {
    '0' <= c <= '9'
  }

  predicate IsFlag(c: char) {
    c == '-' || c == '+' || c == ' ' || c == '#' || c == '0'
  }

  function WithFlag(t: Flags, c: char): Flags {
    if c == '-' then t.(left := true)
    else if c == '+' then t.(plus := true)
    else if c == ' ' then t.(space := true)
    else if c == '#' then t.(special := true)
    else if c == '0' then t.(zeropad := true)
    else t
  }

  function ReadFlags(s: string, t: Flags): (Flags, string) {
    if IsFlag(Head(s)) then ReadFlags(s[1..], WithFlag(t, s[0])) else (t, s)
  }

  /** skip_atoi */
  function ReadNumber(s: string, i: int): (int, string) {
    if IsDigit(Head(s)) then ReadNumber(s[1..], i * 10 + (s[0] as int - '0' as int)) else (i, s)
  }

  function ReadWidth(s: string): (Field, string) {
    if IsDigit(Head(s)) then var (n, r) := ReadNumber(s, 0); (Given(n), r)
    else if Head(s) == '*' then (Star, s)
    else (Absent, s)
  }

  function ReadPrecision(s: string): (Field, string) {
    if Head(s) != '.' then (Absent, s)
    else if IsDigit(Head(s[1..])) then var (n, r) := ReadNumber(s[1..], 0); (Given(n), r)
    else if Head(s[1..]) == '*' then (Star, s[1..])
    else (Given(0), s[1..])
  }

  predicate IsQualifier(c: char) {
    c == 'h' || c == 'l' || c == 'L'
  }

  function SkipQualifier(s: string): string {
    if IsQualifier(Head(s)) then s[1..] else s
  }

  /** What follows a percent sign, and what follows that. */
  function ReadDirective(s: string): (Directive, string) {
    var (t, s1) := ReadFlags(s, NO_FLAGS);
    var (w, s2) := ReadWidth(s1);
    var (p, s3) := ReadPrecision(s2);
    var s4 := SkipQualifier(s3);
    (Directive(t, w, p, Head(s4)), if s4 == "" then "" else s4[1..])
  }

  lemma {:induction false} FlagsShorter(s: string, t: Flags)
    ensures |ReadFlags(s, t).1| <= |s|
  {
    if IsFlag(Head(s)) {
      FlagsShorter(s[1..], WithFlag(t, s[0]));
    }
  }

  lemma {:induction false} NumberShorter(s: string, i: int)
    ensures |ReadNumber(s, i).1| <= |s|
  {
    if IsDigit(Head(s)) {
      NumberShorter(s[1..], i * 10 + (s[0] as int - '0' as int));
    }
  }

  lemma DirectiveShorter(s: string)
    ensures |ReadDirective(s).1| <= |s|
  {
    hide ReadFlags, ReadNumber;
    FlagsShorter(s, NO_FLAGS);
    var s1 := ReadFlags(s, NO_FLAGS).1;
    NumberShorter(s1, 0);
    var s2 := ReadWidth(s1).1;
    if s2 != "" {
      NumberShorter(s2[1..], 0);
    }
  }

  /** A format string as a list of literal characters and directives. */
  function Parse(s: string): seq<Item>
    decreases |s|
  {
    if s == "" then []
    else if s[0] != '%' then [Literal(s[0])] + Parse(s[1..])
    else
      DirectiveShorter(s[1..]);
      var (d, rest) := ReadDirective(s[1..]);
      [Conv(d)] + Parse(rest)
  }

  // ----- What it denotes -----

  function Signed(w: Word): int {
    if w >= TWO31 then w - TWO32 else w
  }

  /** Field width, whether it asks for left justification, and the arguments left. */
  function WidthOf(f: Field, args: seq<Arg>): Option<(int, bool, seq<Arg>)> {
    match f
    case Absent => Some((-1, false, args))
    case Given(n) => Some((n, false, args))
    case Star =>
      if args == [] || !args[0].Num? then None
      else
        var v := Signed(args[0].w);
        Some((if v < 0 then -v else v, v < 0, args[1..]))
  }

  function PrecisionOf(f: Field, args: seq<Arg>): Option<(int, seq<Arg>)> {
    match f
    case Absent => Some((-1, args))
    case Given(n) => Some((n, args))
    case Star =>
      if args == [] || !args[0].Num? then None
      else Some((Max(Signed(args[0].w), 0), args[1..]))
  }

  function CharText(c: char, width: int, left: bool): string {
    if left then [c] + Repeat(' ', width - 1) else Repeat(' ', width - 1) + [c]
  }

  /** At most precision characters of s, brought to the width. */
  function StrText(s: string, width: int, precision: int, left: bool): string {
    var body := if 0 <= precision < |s| then s[..precision] else s;
    if left then body + Repeat(' ', width - |body|) else Repeat(' ', width - |body|) + body
  }

  function Byte8(w: Word): char {
    (w % 0x100) as char
  }

  predicate TakesNumber(conv: char) {
    || conv == 'c' || conv == 'o' || conv == 'p' || conv == 'x' || conv == 'X' || conv == 'd' || conv == 'i'
    || conv == 'u' || conv == 'b'
  }

  /** The text of a conversion that takes an integer. */
  function NumText(conv: char, w: Word, t: Flags, width: int, precision: int): string {
    if conv == 'c' then CharText(Byte8(w), width, t.left)
    else if conv == 'o' then NumberText(w, 8, width, precision, t)
    else if conv == 'p' then
      if width == -1 then NumberText(w, 16, 8, precision, t.(zeropad := true))
      else NumberText(w, 16, width, precision, t)
    else if conv == 'x' then NumberText(w, 16, width, precision, t.(small := true))
    else if conv == 'X' then NumberText(w, 16, width, precision, t)
    else if conv == 'd' || conv == 'i' then NumberText(w, 10, width, precision, t.(sign := true))
    else if conv == 'u' then NumberText(w, 10, width, precision, t)
    else NumberText(w, 2, width, precision, t)
  }

  /** Text and arguments left; None where the argument is missing or of the wrong kind, and for %n. */
  function Converted(conv: char, t: Flags, width: int, precision: int, args: seq<Arg>): Option<(string, seq<Arg>)> {
    if TakesNumber(conv) then
      if args == [] || !args[0].Num? then None else Some((NumText(conv, args[0].w, t, width, precision), args[1..]))
    else if conv == 's' then
      if args == [] || !args[0].Str? then None else Some((StrText(args[0].s, width, precision, t.left), args[1..]))
    else if conv == 'n' then None
    else Some((if conv == '%' || conv == '\0' then "%" else ['%', conv], args))
  }

  function Denote(d: Directive, args: seq<Arg>): Option<(string, seq<Arg>)> {
    match WidthOf(d.width, args)
    case None => None
    case Some((width, left, args1)) =>
      match PrecisionOf(d.precision, args1)
      case None => None
      case Some((precision, args2)) =>
        Converted(d.conv, if left then d.flags.(left := true) else d.flags, width, precision, args2)
  }

  /** The output for a list of items: arguments are consumed from left to right. */
  function Output(items: seq<Item>, args: seq<Arg>): Option<string> {
    if items == [] then Some("")
    else match items[0]
      case Literal(c) => Prepend([c], Output(items[1..], args))
      case Conv(d) =>
        match Denote(d, args)
        case None => None
        case Some((text, rest)) => Prepend(text, Output(items[1..], rest))
  }

  function Prepend(s: string, r: Option<string>): Option<string> {
    match r
    case None => None
    case Some(u) => Some(s + u)
  }

  // ----- The code; format is a C string, so position |format| holds the terminator -----

  function At(format: string, p: nat): char {
    if p < |format| then format[p] else '\0'
  }

  function From(format: string, p: nat): string {
    if p <= |format| then format[p..] else ""
  }

  lemma FromStep(format: string, p: nat)
    requires p < |format|
    ensures From(format, p) != "" && From(format, p)[0] == format[p] && From(format, p)[1..] == From(format, p + 1)
  {
  }

  lemma HeadAt(format: string, p: nat)
    requires '\0' !in format
    ensures Head(From(format, p)) == At(format, p) && (At(format, p) == '\0' <==> p >= |format|)
    ensures p < |format| ==> From(format, p)[1..] == From(format, p + 1)
  {
  }

  /** The loop at the label repeat; p is at the percent sign. */
  method ScanFlags(format: string, p: nat) returns (t: Flags, q: nat)
    requires '\0' !in format && p < |format|
    ensures p < q <= |format|
    ensures (t, From(format, q)) == ReadFlags(From(format, p + 1), NO_FLAGS)
  {
    t, q := NO_FLAGS, p + 1;
    HeadAt(format, q);
    while IsFlag(At(format, q))
      invariant p < q <= |format|
      invariant ReadFlags(From(format, q), t) == ReadFlags(From(format, p + 1), NO_FLAGS)
      invariant Head(From(format, q)) == At(format, q)
      decreases |format| - q
    {
      HeadAt(format, q);
      t := WithFlag(t, At(format, q));
      q := q + 1;
      HeadAt(format, q);
    }
  }

  method SkipAtoi(format: string, p: nat) returns (n: int, q: nat)
    requires '\0' !in format && p <= |format|
    ensures p <= q <= |format|
    ensures (n, From(format, q)) == ReadNumber(From(format, p), 0)
  {
    n, q := 0, p;
    HeadAt(format, q);
    while IsDigit(At(format, q))
      invariant p <= q <= |format|
      invariant ReadNumber(From(format, q), n) == ReadNumber(From(format, p), 0)
      invariant Head(From(format, q)) == At(format, q)
      decreases |format| - q
    {
      HeadAt(format, q);
      n := n * 10 + (At(format, q) as int - '0' as int);
      q := q + 1;
      HeadAt(format, q);
    }
  }

  method ScanWidth(format: string, p: nat, args: seq<Arg>, a: nat) returns (width: int, left: bool, q: nat, b: nat)
    requires '\0' !in format && p <= |format| && a <= |args|
    requires WidthOf(ReadWidth(From(format, p)).0, args[a..]).Some?
    ensures p <= q <= |format| && a <= b <= |args|
    ensures From(format, q) == ReadWidth(From(format, p)).1
    ensures WidthOf(ReadWidth(From(format, p)).0, args[a..]) == Some((width, left, args[b..]))
  {
    HeadAt(format, p);
    width, left, q, b := -1, false, p, a;
    if IsDigit(At(format, p)) {
      width, q := SkipAtoi(format, p);
    } else if At(format, p) == '*' {
      width := Signed(args[a].w);
      b := a + 1;
      if width < 0 {
        width, left := -width, true;
      }
    }
  }

  method ScanPrecision(format: string, p: nat, args: seq<Arg>, a: nat) returns (precision: int, q: nat, b: nat)
    requires '\0' !in format && p <= |format| && a <= |args|
    requires PrecisionOf(ReadPrecision(From(format, p)).0, args[a..]).Some?
    ensures p <= q <= |format| && a <= b <= |args|
    ensures From(format, q) == ReadPrecision(From(format, p)).1
    ensures PrecisionOf(ReadPrecision(From(format, p)).0, args[a..]) == Some((precision, args[b..]))
  {
    HeadAt(format, p);
    precision, q, b := -1, p, a;
    if At(format, p) == '.' {
      q := p + 1;
      HeadAt(format, q);
      if IsDigit(At(format, q)) {
        DigitsPositive(From(format, q), 0);
        precision, q := SkipAtoi(format, q);
      } else if At(format, q) == '*' {
        precision := Signed(args[a].w);
        b := a + 1;
      }
      if precision < 0 {
        precision := 0;
      }
    }
  }

  lemma {:induction false} DigitsPositive(s: string, i: int)
    requires 0 <= i
    ensures ReadNumber(s, i).0 >= 0
  {
    if IsDigit(Head(s)) {
      DigitsPositive(s[1..], i * 10 + (s[0] as int - '0' as int));
    }
  }

  /** Blanks on one side of a single character: one fewer than the field is wide. */
  method PadDown(w: Writer, width: int) returns (left: int)
    requires w.Valid() && w.Room(|Repeat(' ', width - 1)|)
    modifies w, w.buff
    ensures w.Valid() && w.text == old(w.text) + Repeat(' ', width - 1) &&
            w.str == old(w.str) + |Repeat(' ', width - 1)|
    ensures left <= 0
  {
    left := width - 1;
    ghost var n := 0;
    while left > 0
      invariant n == width - 1 - left && 0 <= n && (n == 0 || n <= width - 1)
      invariant w.Valid() && w.text == old(w.text) + Repeat(' ', n) && w.str == old(w.str) + n
      decreases left
    {
      w.Put(' ');
      left := left - 1;
      n := n + 1;
    }
  }

  /** Blanks on one side of a text of len characters: as many as the field is wider. */
  method PadTo(w: Writer, len: int, width: int) returns (left: int)
    requires w.Valid() && w.Room(|Repeat(' ', width - len)|)
    modifies w, w.buff
    ensures w.Valid() && w.text == old(w.text) + Repeat(' ', width - len) &&
            w.str == old(w.str) + |Repeat(' ', width - len)|
    ensures left < len
  {
    left := width;
    ghost var n := 0;
    while len < left
      invariant n == width - left && 0 <= n && (n == 0 || n <= width - len)
      invariant w.Valid() && w.text == old(w.text) + Repeat(' ', n) && w.str == old(w.str) + n
      decreases left - len
    {
      left := left - 1;
      w.Put(' ');
      n := n + 1;
    }
    left := left - 1;
  }

  method PutCharacter(w: Writer, c: char, width: int, left: bool)
    requires w.Valid() && w.Room(|CharText(c, width, left)|)
    modifies w, w.buff
    ensures w.Valid() && w.text == old(w.text) + CharText(c, width, left)
  {
    hide Repeat, Writer.Valid;
    var field := width;
    Blank(width - 1);
    if !left {
      field := PadDown(w, field);
    }
    w.Put(c);
    Blank(field - 1);
    field := PadDown(w, field);
    assert old(w.text) + [c] + Repeat(' ', width - 1) == old(w.text) + ([c] + Repeat(' ', width - 1));
    assert old(w.text) + Repeat(' ', width - 1) + [c] == old(w.text) + (Repeat(' ', width - 1) + [c]);
  }

  /** Appends the first len characters of s to the output. */
  method Copy(w: Writer, s: string, len: nat)
    requires w.Valid() && len <= |s| && w.Room(len)
    modifies w, w.buff
    ensures w.Valid() && w.text == old(w.text) + s[..len] && w.str == old(w.str) + len
  {
    hide Writer.Valid;
    var i := 0;
    assert s[..0] == "" && w.text + "" == w.text;
    while i < len
      invariant 0 <= i <= len && w.Valid() && w.text == old(w.text) + s[..i] && w.str == old(w.str) + i
    {
      w.Put(s[i]);
      assert old(w.text) + s[..i] + [s[i]] == old(w.text) + s[..i + 1];
      i := i + 1;
    }
  }

  method PutString(w: Writer, s: string, width: int, precision: int, left: bool)
    requires w.Valid() && w.Room(|StrText(s, width, precision, left)|)
    modifies w, w.buff
    ensures w.Valid() && w.text == old(w.text) + StrText(s, width, precision, left)
  {
    hide Repeat, Writer.Valid;
    var len := |s|;
    if precision >= 0 && len > precision {
      len := precision;
    }
    assert s[..|s|] == s;
    var field := width;
    Blank(width - len);
    if !left {
      field := PadTo(w, len, field);
    }
    Copy(w, s, len);
    Blank(field - len);
    field := PadTo(w, len, field);
    StringOrder(old(w.text), s[..len], Repeat(' ', width - len));
  }

  lemma StringOrder(before: string, body: string, pad: string)
    ensures before + body + pad == before + (body + pad) && before + pad + body == before + (pad + body)
    ensures before + pad + body + "" == before + (pad + body)
  {
  }

  /** The conversions that take an integer. */
  method PutInteger(w: Writer, conv: char, t: Flags, width: int, precision: int, num: Word)
    requires w.Valid() && TakesNumber(conv) && w.Room(|NumText(conv, num, t, width, precision)|)
    modifies w, w.buff
    ensures w.Valid() && w.text == old(w.text) + NumText(conv, num, t, width, precision)
  {
    hide NumberText, Writer.Valid, CharText;
    var ok;
    match conv
    case 'c' => PutCharacter(w, Byte8(num), width, t.left);
    case 'o' => ok := PutNumber(w, num, 8, width, precision, t);
    case 'p' =>
      var field, flags := width, t;
      if field == -1 {
        field, flags := 8, t.(zeropad := true);
      }
      ok := PutNumber(w, num, 16, field, precision, flags);
    case 'x' => ok := PutNumber(w, num, 16, width, precision, t.(small := true));
    case 'X' => ok := PutNumber(w, num, 16, width, precision, t);
    case 'd' => ok := PutNumber(w, num, 10, width, precision, t.(sign := true));
    case 'i' => ok := PutNumber(w, num, 10, width, precision, t.(sign := true));
    case 'u' => ok := PutNumber(w, num, 10, width, precision, t);
    case 'b' => ok := PutNumber(w, num, 2, width, precision, t);
  }

  /** The switch on the conversion letter; the third result says that the format ended after a percent sign. */
  method PutConversion(w: Writer, conv: char, t: Flags, width: int, precision: int, args: seq<Arg>, a: nat)
    returns (b: nat, ended: bool)
    requires w.Valid() && a <= |args|
    requires var r := Converted(conv, t, width, precision, args[a..]); r.Some? && w.Room(|r.value.0|)
    modifies w, w.buff
    ensures w.Valid() && a <= b <= |args| && (ended <==> conv == '\0')
    ensures var r := Converted(conv, t, width, precision, args[a..]);
            args[b..] == r.value.1 && w.text == old(w.text) + r.value.0
  {
    hide NumText, StrText, Writer.Valid;
    b, ended := a, false;
    if TakesNumber(conv) {
      PutInteger(w, conv, t, width, precision, args[a].w);
      b := a + 1;
    } else if conv == 's' {
      PutString(w, args[a].s, width, precision, t.left);
      b := a + 1;
    } else {
      if conv != '%' {
        w.Put('%');
      }
      if conv != '\0' {
        w.Put(conv);
      } else {
        ended := true;
      }
      assert old(w.text) + ['%'] + [conv] == old(w.text) + ['%', conv];
    }
  }

  /** One turn of the main loop at a percent sign; q is where the loop's own step will continue from. */
  method PutDirective(w: Writer, format: string, p: nat, args: seq<Arg>, a: nat) returns (q: nat, b: nat)
    requires '\0' !in format && p < |format| && a <= |args| && w.Valid()
    requires var r := Denote(ReadDirective(From(format, p + 1)).0, args[a..]); r.Some? && w.Room(|r.value.0|)
    modifies w, w.buff
    ensures w.Valid() && a <= b <= |args| && p <= q < |format|
    ensures From(format, q + 1) == ReadDirective(From(format, p + 1)).1
    ensures var r := Denote(ReadDirective(From(format, p + 1)).0, args[a..]);
            args[b..] == r.value.1 && w.text == old(w.text) + r.value.0
  {
    hide ReadFlags, ReadNumber, ReadWidth, ReadPrecision, WidthOf, PrecisionOf, Converted, Writer.Valid, From;
    var t, r := ScanFlags(format, p);
    var width, left, precision;
    width, left, r, b := ScanWidth(format, r, args, a);
    if left {
      t := t.(left := true);
    }
    precision, r, b := ScanPrecision(format, r, args, b);
    HeadAt(format, r);
    if IsQualifier(At(format, r)) {
      r := r + 1;
      HeadAt(format, r);
    }
    EndsAt(format, r);
    var ended;
    b, ended := PutConversion(w, At(format, r), t, width, precision, args, b);
    q := if ended then r - 1 else r;
  }

  lemma EndsAt(format: string, r: nat)
    requires '\0' !in format && r <= |format|
    ensures r == |format| ==> From(format, r) == "" == From(format, r - 1 + 1)
    ensures r < |format| ==> From(format, r) != ""
  {
  }

  /**
   * vsprintf. For every format and argument list to which the C code gives a meaning, the buffer receives exactly
   * what the format denotes, followed by the terminator, and the result is its length.
   */
  method Vsprintf(buff: array<char>, format: string, args: seq<Arg>) returns (len: nat)
    requires '\0' !in format
    requires var out := Output(Parse(format), args); out.Some? && |out.value| < buff.Length
    modifies buff
    ensures len < buff.Length && Output(Parse(format), args) == Some(buff[..len]) && buff[len] == '\0'
  {
    hide Writer.Valid, ReadDirective, Denote, Output, Parse, From;
    ghost var out := Output(Parse(format), args).value;
    var w := new Writer(buff, 0);
    var p, a := 0, 0;
    StartText(format, args);
    while p < |format|
      invariant 0 <= p <= |format| && 0 <= a <= |args| && w.Valid() && w.buff == buff && w.start == 0
      invariant Prepend(w.text, Output(Parse(From(format, p)), args[a..])) == Some(out)
    {
      FromStep(format, p);
      OutputStep(From(format, p), args[a..]);
      WriterRoom(w);
      ghost var before := w.text;
      if format[p] != '%' {
        PrependTwice(before, [format[p]], Output(Parse(From(format, p + 1)), args[a..]));
        w.Put(format[p]);
      } else {
        p, a := PutDirective(w, format, p, args, a);
        PrependTwice(before, w.text[|before|..], Output(Parse(From(format, p + 1)), args[a..]));
      }
      p := p + 1;
    }
    EndText(format, args, a);
    WriterRoom(w);
    len := w.str;
    assert w.text + "" == w.text == out;
    w.Put('\0');
    WriterText(w);
    assert buff[..len] == buff[..len + 1][..len] == out;
  }

  lemma StartText(format: string, args: seq<Arg>)
    ensures From(format, 0) == format && args[0..] == args
    ensures forall r :: Prepend("", r) == r
  {
    forall r
      ensures Prepend("", r) == r
    {
      match r
      case None =>
      case Some(u) => assert "" + u == u;
    }
  }

  lemma PrependTwice(s: string, t: string, r: Option<string>)
    ensures Prepend(s, Prepend(t, r)) == Prepend(s + t, r)
  {
    match r
    case None =>
    case Some(u) => assert s + (t + u) == s + t + u;
  }

  lemma EndText(format: string, args: seq<Arg>, a: nat)
    requires a <= |args|
    ensures Output(Parse(From(format, |format|)), args[a..]) == Some("")
  {
  }

  lemma WriterRoom(w: Writer)
    requires w.Valid() && w.start == 0
    ensures w.str == |w.text| <= w.buff.Length
  {
  }

  lemma WriterText(w: Writer)
    requires w.Valid() && w.start == 0
    ensures |w.text| <= w.buff.Length && w.buff[..|w.text|] == w.text
  {
  }

  /** Output of a nonempty format, by its first item. */
  lemma OutputStep(s: string, args: seq<Arg>)
    requires s != ""
    ensures s[0] != '%' ==> Output(Parse(s), args) == Prepend([s[0]], Output(Parse(s[1..]), args))
    ensures s[0] == '%' ==> var (d, rest) := ReadDirective(s[1..]);
              Output(Parse(s), args) == (match Denote(d, args)
                case None => None
                case Some((text, left)) => Prepend(text, Output(Parse(rest), left)))
  {
    hide ReadDirective, Denote;
    if s[0] != '%' {
      assert Parse(s)[1..] == Parse(s[1..]);
    } else {
      assert Parse(s)[1..] == Parse(ReadDirective(s[1..]).1);
    }
  }
}
