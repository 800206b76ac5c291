/** What a format prints, conversion letter by conversion letter, said without the interpreter's own functions. */
module Printed {
  import opened Words
  import opened Number
  import opened NumberReading
  import opened Printk
  import opened Formats

  /** body between blanks up to the width: in front of it, or behind it when the flag - is there. */
  ghost predicate Padded(text: string, body: string, width: int, left: bool) {
    && |text| == (if width > |body| then width else |body|)
    && if left
       then text[..|body|] == body && forall i | |body| <= i < |text| :: text[i] == ' '
       else text[|text| - |body|..] == body && forall i | 0 <= i < |text| - |body| :: text[i] == ' '
  }

  /** The field width; -1 when there is none. */
  function Width(s: Spec): int {
    match s.width
    case Some(Number(n)) => n
    case _ => -1
  }

  /** The precision: 0 for a lone point, -1 when there is none. */
  function Precision(s: Spec): int {
    match s.precision
    case None => -1
    case Some(None) => 0
    case Some(Some(Number(n))) => n
    case Some(Some(FromArgument)) => -1
  }

  /** The flags that the characters ask for; small letters are the conversion's business, and so is the sign. */
  function AskedFor(fs: string, sign: bool, small: bool): Flags {
    Flags('0' in fs, sign, '+' in fs, ' ' in fs, '-' in fs, '#' in fs, small)
  }

  /** What %d and %i take their argument for. */
  function AsSigned(w: Word): int {
    if w >= 0x8000_0000 then w - 0x1_0000_0000 else w
  }

  ghost predicate NumberPrinted(s: Spec, w: Word, text: string) {
    var size, precision := Width(s), Precision(s);
    var t, signed, small := AskedFor(s.flags, false, false), AskedFor(s.flags, true, false),
        AskedFor(s.flags, false, true);
    && (s.conv == 'd' || s.conv == 'i' ==> Shows(text, AsSigned(w), 10, size, precision, signed))
    && (s.conv == 'u' ==> Shows(text, w, 10, size, precision, t))
    && (s.conv == 'o' ==> Shows(text, w, 8, size, precision, t))
    && (s.conv == 'x' ==> Shows(text, w, 16, size, precision, small))
    && (s.conv == 'X' ==> Shows(text, w, 16, size, precision, t))
    && (s.conv == 'b' ==> Shows(text, w, 2, size, precision, t))
    && (s.conv == 'p' && s.width.Some? ==> Shows(text, w, 16, size, precision, t))
    && (s.conv == 'p' && s.width.None? ==> Shows(text, w, 16, 8, precision, t.(zeropad := true)))
    && (s.conv == 'c' ==> Padded(text, [(w % 0x100) as char], size, '-' in s.flags))
  }

  ghost predicate StringPrinted(s: Spec, str: string, text: string) {
    var size, precision := Width(s), Precision(s);
    Padded(text, if 0 <= precision < |str| then str[..precision] else str, size, '-' in s.flags)
  }

  /** The argument that the directive takes is there, and of its kind. */
  predicate HasArgument(s: Spec, args: seq<Arg>) {
    s.conv == '%' || (args != [] && if s.conv == 's' then args[0].Str? else args[0].Num?)
  }

  /** How many arguments it takes. */
  function Taken(s: Spec): int {
    if s.conv == '%' then 0 else 1
  }

  ghost predicate DirectivePrinted(s: Spec, args: seq<Arg>, text: string)
    requires HasArgument(s, args)
  {
    if s.conv == '%' then text == "%"
    else if s.conv == 's' then StringPrinted(s, args[0].s, text)
    else NumberPrinted(s, args[0].w, text)
  }

  /** Every directive finds its argument. */
  predicate Supplied(ps: seq<Piece>, args: seq<Arg>) {
    ps == [] ||
    match ps[0]
    case Text(_) => Supplied(ps[1..], args)
    case Dir(s) => HasArgument(s, args) && Supplied(ps[1..], args[Taken(s)..])
  }

  /** out is what the pieces print for the arguments, taken from left to right. */
  ghost predicate Prints(ps: seq<Piece>, args: seq<Arg>, out: string)
    requires Supplied(ps, args)
    decreases |ps|, 1
  {
    if ps == [] then out == ""
    else
      match ps[0]
      case Text(c) => out != "" && out[0] == c && Prints(ps[1..], args, out[1..])
      case Dir(s) => exists n :: PrintsFirst(s, ps, args, out, n)
  }

  /** The first n characters are the directive's, and the rest is what the other pieces print. */
  ghost predicate PrintsFirst(s: Spec, ps: seq<Piece>, args: seq<Arg>, out: string, n: int)
    requires ps != [] && ps[0] == Dir(s) && Supplied(ps, args)
    decreases |ps|, 0
  {
    0 <= n <= |out| && DirectivePrinted(s, args, out[..n]) && Prints(ps[1..], args[Taken(s)..], out[n..])
  }

  // ----- The interpreter prints so -----

  /** Each flag character sets its flag, in any order and number. */
  lemma {:induction false} FlagsMeant(fs: string, t: Flags)
    requires forall i | 0 <= i < |fs| :: IsFlag(fs[i])
    ensures AllFlags(fs, t) == Flags(t.zeropad || '0' in fs, t.sign, t.plus || '+' in fs, t.space || ' ' in fs,
                                     t.left || '-' in fs, t.special || '#' in fs, t.small)
    decreases |fs|
  {
    if fs != "" {
      var rest := fs[1..];
      FlagsMeant(rest, WithFlag(t, fs[0]));
      FirstOrRest(fs, '0', rest);
      FirstOrRest(fs, '+', rest);
      FirstOrRest(fs, ' ', rest);
      FirstOrRest(fs, '-', rest);
      FirstOrRest(fs, '#', rest);
      FlagSet(t, fs[0]);
      assert IsFlag(fs[0]);
      hide WithFlag, IsFlag;
    }
  }

  lemma FlagSet(t: Flags, c: char)
    requires IsFlag(c)
    ensures WithFlag(t, c) == Flags(t.zeropad || c == '0', t.sign, t.plus || c == '+', t.space || c == ' ',
                                    t.left || c == '-', t.special || c == '#', t.small)
  {
  }

  lemma FirstOrRest(fs: string, c: char, rest: string)
    requires fs != "" && rest == fs[1..]
    ensures c in fs <==> c == fs[0] || c in rest
  {
    assert fs == [fs[0]] + rest;
  }

  lemma CharPadded(c: char, width: int, left: bool)
    ensures Padded(CharText(c, width, left), [c], width, left)
  {
  }

  lemma TextPadded(s: string, width: int, precision: int, left: bool)
    ensures Padded(StrText(s, width, precision, left), if 0 <= precision < |s| then s[..precision] else s, width, left)
  {
  }

  lemma NumberConverted(s: Spec, w: Word)
    requires WellFormed(s) && TakesNumber(s.conv) && !HasStar(s)
    ensures var size, precision := Width(s), Precision(s);
            NumberPrinted(s, w, NumText(s.conv, w, AskedFor(s.flags, false, false), size, precision))
  {
    hide NumberText, CharText, Shows, Padded;
    var size, precision := Width(s), Precision(s);
    var t, signed, small := AskedFor(s.flags, false, false), AskedFor(s.flags, true, false),
        AskedFor(s.flags, false, true);
    CharPadded((w % 0x100) as char, size, '-' in s.flags);
    NumberShown(w, 10, size, precision, signed);
    NumberShown(w, 10, size, precision, t);
    NumberShown(w, 8, size, precision, t);
    NumberShown(w, 16, size, precision, small);
    NumberShown(w, 16, size, precision, t);
    NumberShown(w, 2, size, precision, t);
    NumberShown(w, 16, 8, precision, t.(zeropad := true));
  }

  /**
   * One directive: it is denied its text exactly when its argument is missing, and the text is what its letter says.
   */
  lemma DirectiveDenotes(s: Spec, args: seq<Arg>)
    requires WellFormed(s) && !HasStar(s)
    ensures Denote(Meaning(s), args).Some? <==> HasArgument(s, args)
    ensures HasArgument(s, args) ==>
              var (text, rest) := Denote(Meaning(s), args).value;
              DirectivePrinted(s, args, text) && rest == args[Taken(s)..]
  {
    hide NumText, StrText, NumberPrinted, StringPrinted, AllFlags, WellFormed, TakesNumber, WidthOf, PrecisionOf,
         WidthField,
         PrecisionField, IsFlag;
    WellFormedLetters(s);
    FlagsMeant(s.flags, NO_FLAGS);
    FieldsMeant(s, args);
    NumbersOnly(s);
    if TakesNumber(s.conv) && HasArgument(s, args) {
      NumberConverted(s, args[0].w);
    } else if s.conv == 's' && HasArgument(s, args) {
      StringConverted(s, args[0].s);
    }
  }

  lemma FieldsMeant(s: Spec, args: seq<Arg>)
    requires WellFormed(s) && !HasStar(s)
    ensures WidthOf(WidthField(s.width), args) == Some((Width(s), false, args))
    ensures PrecisionOf(PrecisionField(s.precision), args) == Some((Precision(s), args))
  {
    match s.width
    case None =>
    case Some(c) =>
      match c
      case Number(n) =>
      case FromArgument =>
  }

  lemma NumbersOnly(s: Spec)
    ensures TakesNumber(s.conv) ==> s.conv != 's' && s.conv != '%'
  {
  }

  lemma StringConverted(s: Spec, str: string)
    ensures StringPrinted(s, str, StrText(str, Width(s), Precision(s), '-' in s.flags))
  {
    TextPadded(str, Width(s), Precision(s), '-' in s.flags);
  }

  lemma {:induction false} ItemsPrint(ps: seq<Piece>, args: seq<Arg>)
    requires Starless(ps) && forall i | 0 <= i < |ps| :: WellFormedPiece(ps[i])
    ensures Output(Items(ps), args).Some? <==> Supplied(ps, args)
    ensures Supplied(ps, args) ==> Prints(ps, args, Output(Items(ps), args).value)
    decreases |ps|
  {
    hide Denote, Meaning, WellFormed, HasStar, DirectivePrinted;
    if ps != [] {
      StarlessStep(ps);
      assert WellFormedPiece(ps[0]);
      assert Items(ps)[1..] == Items(ps[1..]);
      match ps[0]
      case Text(c) =>
        ItemsPrint(ps[1..], args);
        TextFirst(ps, c, args);
      case Dir(s) =>
        DirectiveDenotes(s, args);
        if HasArgument(s, args) {
          ItemsPrint(ps[1..], args[Taken(s)..]);
          DirectiveFirst(ps, s, args);
        }
    }
  }

  lemma {:induction false} TextFirst(ps: seq<Piece>, c: char, args: seq<Arg>)
    requires ps != [] && ps[0] == Text(c)
    requires Supplied(ps[1..], args) ==>
               Output(Items(ps[1..]), args).Some? && Prints(ps[1..], args, Output(Items(ps[1..]), args).value)
    ensures Supplied(ps, args) ==> Output(Items(ps), args).Some? && Prints(ps, args, Output(Items(ps), args).value)
  {
    assert Items(ps)[1..] == Items(ps[1..]);
    if Supplied(ps, args) {
      var u := Output(Items(ps[1..]), args).value;
      assert ([c] + u)[1..] == u;
    }
  }

  lemma {:induction false} DirectiveFirst(ps: seq<Piece>, s: Spec, args: seq<Arg>)
    requires ps != [] && ps[0] == Dir(s) && HasArgument(s, args) && Denote(Meaning(s), args).Some?
    requires DirectivePrinted(s, args, Denote(Meaning(s), args).value.0)
    requires Denote(Meaning(s), args).value.1 == args[Taken(s)..]
    requires Supplied(ps[1..], args[Taken(s)..]) ==>
               Output(Items(ps[1..]), args[Taken(s)..]).Some? &&
               Prints(ps[1..], args[Taken(s)..], Output(Items(ps[1..]), args[Taken(s)..]).value)
    ensures Supplied(ps, args) ==> Output(Items(ps), args).Some? && Prints(ps, args, Output(Items(ps), args).value)
  {
    hide Denote, Meaning, DirectivePrinted;
    assert Items(ps)[1..] == Items(ps[1..]);
    if Supplied(ps, args) {
      var text := Denote(Meaning(s), args).value.0;
      var u := Output(Items(ps[1..]), args[Taken(s)..]).value;
      assert (text + u)[..|text|] == text && (text + u)[|text|..] == u;
      assert PrintsFirst(s, ps, args, text + u, |text|);
    }
  }

  /**
   * What vsprintf prints: for every list of literals and directives without a star, written as a format, there is an
   * output exactly when every directive finds its argument, and it is what the letters, flags, widths and precisions
   * say.
   */
  lemma FormatPrints(ps: seq<Piece>, args: seq<Arg>)
    requires Starless(ps) && forall i | 0 <= i < |ps| :: WellFormedPiece(ps[i])
    ensures Output(Printk.Parse(Render(ps)), args).Some? <==> Supplied(ps, args)
    ensures Supplied(ps, args) ==> Prints(ps, args, Output(Printk.Parse(Render(ps)), args).value)
  {
    hide Starless, WellFormedPiece, Prints, Render, Items, Supplied;
    FormatMeaning(ps, args);
    ItemsPrint(ps, args);
  }

  /** The same of vsprintf's buffer. */
  method PrintFormat(buff: array<char>, ps: seq<Piece>, args: seq<Arg>) returns (len: nat)
    requires Starless(ps) && (forall i | 0 <= i < |ps| :: WellFormedPiece(ps[i])) && Supplied(ps, args)
    requires var out := Output(Printk.Parse(Render(ps)), args); out.Some? ==> |out.value| < buff.Length
    modifies buff
    ensures len < buff.Length && Prints(ps, args, buff[..len]) && buff[len] == '\0'
  {
    hide Starless, WellFormedPiece, Prints, Render, Items, Supplied;
    FormatMeaning(ps, args);
    FormatPrints(ps, args);
    len := Vsprintf(buff, Render(ps), args);
  }
}
