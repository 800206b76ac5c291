/** Formats as a grammar: what a caller writes, and that vsprintf's interpreter reads exactly that. */
module Formats {
  import opened Words
  import opened Number
  import opened Printk

  /** A width or precision: a decimal number, or a star, which is meant to take it from the arguments. */
  datatype Count = Number(n: nat) | FromArgument

  /** A directive as written: flag characters in any order, width and precision, a length qualifier, a conversion. */
  datatype Spec = Spec(flags: string, width: Option<Count>, precision: Option<Option<Count>>, qualifier: Option<char>,
                       conv: char)

  datatype Piece = Text(c: char) | Dir(s: Spec)

  const FLAGS := "-+ #0"
  const QUALIFIERS := "hlL"
  const CONVERSIONS := "csopxXdiub%"

  ghost predicate WellFormed(s: Spec) {
    && (forall i | 0 <= i < |s.flags| :: s.flags[i] in FLAGS)
    && (s.width.Some? && s.width.value.Number? ==> s.width.value.n > 0)
    && (s.qualifier.Some? ==> s.qualifier.value in QUALIFIERS)
    && s.conv in CONVERSIONS
  }

  /** The characters that the interpreter knows. */
  lemma Letters(c: char)
    ensures (c in FLAGS <==> IsFlag(c)) && (c in QUALIFIERS <==> IsQualifier(c))
    ensures c in CONVERSIONS <==> TakesNumber(c) || c == 's' || c == '%'
  {
  }

  lemma WellFormedLetters(s: Spec)
    requires WellFormed(s)
    ensures s.width.Some? && s.width.value.Number? ==> s.width.value.n > 0
    ensures forall i | 0 <= i < |s.flags| :: IsFlag(s.flags[i])
    ensures s.qualifier.Some? ==> IsQualifier(s.qualifier.value)
    ensures TakesNumber(s.conv) || s.conv == 's' || s.conv == '%'
  {
    hide TakesNumber, IsFlag, IsQualifier;
    forall i | 0 <= i < |s.flags|
      ensures IsFlag(s.flags[i])
    {
      Letters(s.flags[i]);
    }
    if s.qualifier.Some? {
      Letters(s.qualifier.value);
    }
    Letters(s.conv);
  }

  ghost predicate WellFormedPiece(p: Piece) {
    match p
    case Text(c) => c != '%' && c != '\0'
    case Dir(s) => WellFormed(s)
  }

  function Decimal(n: nat): string {
    Digits(n, 10, UPPER)
  }

  function CountText(c: Count): string {
    if c.Number? then Decimal(c.n) else "*"
  }

  function WidthText(w: Option<Count>): string {
    if w.Some? then CountText(w.value) else ""
  }

  function PrecisionText(p: Option<Option<Count>>): string {
    match p
    case None => ""
    case Some(None) => "."
    case Some(Some(c)) => "." + CountText(c)
  }

  function QualifierText(q: Option<char>): string {
    if q.Some? then [q.value] else ""
  }

  /** The directive without its percent sign. */
  function Written(s: Spec): string {
    s.flags + (WidthText(s.width) + (PrecisionText(s.precision) + (QualifierText(s.qualifier) + [s.conv])))
  }

  function Render(ps: seq<Piece>): string {
    if ps == [] then ""
    else match ps[0]
      case Text(c) => [c] + Render(ps[1..])
      case Dir(s) => "%" + (Written(s) + Render(ps[1..]))
  }

  function AllFlags(fs: string, t: Flags): Flags {
    if fs == "" then t else AllFlags(fs[1..], WithFlag(t, fs[0]))
  }

  function CountField(c: Count): Field {
    if c.Number? then Given(c.n) else Star
  }

  function WidthField(w: Option<Count>): Field {
    if w.Some? then CountField(w.value) else Absent
  }

  /** A lone point is precision 0. */
  function PrecisionField(p: Option<Option<Count>>): Field {
    match p
    case None => Absent
    case Some(None) => Given(0)
    case Some(Some(c)) => CountField(c)
  }

  /** What the directive means. */
  function Meaning(s: Spec): Directive {
    Directive(AllFlags(s.flags, NO_FLAGS), WidthField(s.width), PrecisionField(s.precision), s.conv)
  }

  predicate HasStar(s: Spec) {
    s.width == Some(FromArgument) || s.precision == Some(Some(FromArgument))
  }

  /** What the code takes for the directive when there is a star: it stops at the first, as the conversion letter. */
  function CutShort(s: Spec): Directive {
    var flags := AllFlags(s.flags, NO_FLAGS);
    if s.width == Some(FromArgument) then Directive(flags, Star, Absent, '*')
    else Directive(flags, WidthField(s.width), Star, '*')
  }

  /** The text behind the first star. */
  function AfterStar(s: Spec): string {
    if s.width == Some(FromArgument) then PrecisionText(s.precision) + (QualifierText(s.qualifier) + [s.conv])
    else QualifierText(s.qualifier) + [s.conv]
  }

  function Items(ps: seq<Piece>): seq<Item> {
    if ps == [] then []
    else [match ps[0] case Text(c) => Literal(c) case Dir(s) => Conv(Meaning(s))] + Items(ps[1..])
  }

  lemma {:induction false} FlagsRead(fs: string, rest: string, t: Flags)
    requires (forall i | 0 <= i < |fs| :: IsFlag(fs[i])) && !IsFlag(Head(rest))
    ensures ReadFlags(fs + rest, t) == (AllFlags(fs, t), rest)
    decreases |fs|
  {
    if fs == "" {
      assert fs + rest == rest;
    } else {
      assert (fs + rest)[1..] == fs[1..] + rest;
      FlagsRead(fs[1..], rest, WithFlag(t, fs[0]));
    }
  }

  function Folded(d: string, i: int): int {
    if d == "" then i else Folded(d[1..], i * 10 + (d[0] as int - '0' as int))
  }

  lemma {:induction false} NumberRead(d: string, rest: string, i: int)
    requires (forall j | 0 <= j < |d| :: IsDigit(d[j])) && !IsDigit(Head(rest))
    ensures ReadNumber(d + rest, i) == (Folded(d, i), rest)
    decreases |d|
  {
    if d == "" {
      assert d + rest == rest;
    } else {
      assert (d + rest)[1..] == d[1..] + rest;
      NumberRead(d[1..], rest, i * 10 + (d[0] as int - '0' as int));
    }
  }

  lemma {:induction false} FoldedLast(d: string, c: char, i: int)
    ensures Folded(d + [c], i) == Folded(d, i) * 10 + (c as int - '0' as int)
    decreases |d|
  {
    if d == "" {
      assert d + [c] == [c] && [c][1..] == "";
    } else {
      assert (d + [c])[1..] == d[1..] + [c];
      FoldedLast(d[1..], c, i * 10 + (d[0] as int - '0' as int));
    }
  }

  /** Decimal notation: digits only, no leading zero, and skip_atoi reads the number back. */
  lemma {:induction false} DecimalRead(n: nat)
    ensures Decimal(n) != "" && forall j | 0 <= j < |Decimal(n)| :: IsDigit(Decimal(n)[j])
    ensures n > 0 ==> Decimal(n)[0] != '0'
    ensures Folded(Decimal(n), 0) == n
    decreases n
  {
    assert forall i | 0 <= i < 10 :: IsDigit(UPPER[i]) && UPPER[i] as int - '0' as int == i;
    if n < 10 {
      assert Folded([UPPER[n]][1..], n) == n;
    } else {
      DecimalRead(n / 10);
      FoldedLast(Decimal(n / 10), UPPER[n % 10], 0);
    }
  }

  /** The character that a rendered tail starts with. */
  lemma TailHead(s: Spec, rest: string)
    requires WellFormed(s)
    ensures var q := QualifierText(s.qualifier) + [s.conv] + rest;
            q != "" && !IsFlag(q[0]) && !IsDigit(q[0]) && q[0] != '.' && q[0] != '*'
    ensures var q := QualifierText(s.qualifier) + [s.conv] + rest; SkipQualifier(q) == [s.conv] + rest
  {
    var q := QualifierText(s.qualifier) + [s.conv] + rest;
    if s.qualifier.Some? {
      assert q[1..] == [s.conv] + rest;
    } else {
      assert q == [s.conv] + rest;
    }
  }

  /** A star is left where it is. */
  function Unread(starred: bool): string {
    if starred then "*" else ""
  }

  lemma PrecisionRead(p: Option<Option<Count>>, rest: string)
    requires !IsDigit(Head(rest)) && Head(rest) != '.' && Head(rest) != '*'
    ensures ReadPrecision(PrecisionText(p) + rest) == (PrecisionField(p), Unread(p == Some(Some(FromArgument))) + rest)
    ensures var q := PrecisionText(p) + rest; Head(q) == (if p.Some? then '.' else Head(rest))
  {
    hide Decimal, ReadNumber;
    assert "" + rest == rest;
    match p
    case None =>
    case Some(None) => assert (PrecisionText(p) + rest)[1..] == rest;
    case Some(Some(Number(n))) => PrecisionNumber(n, rest);
    case Some(Some(FromArgument)) =>
      assert PrecisionText(p) == ".*";
      PrecisionStar(rest);
  }

  lemma PrecisionStar(rest: string)
    ensures ReadPrecision(".*" + rest) == (Star, "*" + rest)
  {
    assert (".*" + rest)[1..] == "*" + rest;
  }

  lemma PrecisionNumber(n: nat, rest: string)
    requires !IsDigit(Head(rest))
    ensures ReadPrecision("." + Decimal(n) + rest) == (Given(n), rest)
  {
    hide Decimal, ReadNumber, Folded;
    var d := Decimal(n);
    DecimalRead(n);
    NumberRead(d, rest, 0);
    assert ("." + d + rest)[1..] == d + rest;
  }

  lemma WidthRead(w: Option<Count>, rest: string)
    requires !IsDigit(Head(rest)) && !IsFlag(Head(rest)) && Head(rest) != '*'
    requires w.Some? && w.value.Number? ==> w.value.n > 0
    ensures ReadWidth(WidthText(w) + rest) == (WidthField(w), Unread(w == Some(FromArgument)) + rest)
    ensures !IsFlag(Head(WidthText(w) + rest))
  {
    hide Digits, ReadNumber, Folded;
    assert "" + rest == rest;
    if w.Some? && w.value.Number? {
      DecimalRead(w.value.n);
      NumberRead(Decimal(w.value.n), rest, 0);
    }
  }

  /**
   * What the interpreter makes of a directive, whatever follows: without a star, exactly what is meant, stopping
   * right behind it; with one, it stops at the first star and leaves the rest of the directive as text.
   */
  lemma DirectiveTaken(s: Spec, rest: string)
    requires WellFormed(s)
    ensures ReadDirective(Written(s) + rest) ==
            if HasStar(s) then (CutShort(s), AfterStar(s) + rest) else (Meaning(s), rest)
  {
    hide WidthText, PrecisionText, QualifierText, ReadFlags, ReadWidth, ReadPrecision, AllFlags, SkipQualifier,
         ReadDirective, Written, WellFormed, IsFlag, IsDigit, WidthField, PrecisionField, AfterStar;
    var w, p, q := DirectiveSteps(s, rest);
    var x := Written(s) + rest;
    AfterEither(s, p, q, rest);
    if s.width == Some(FromArgument) {
      StopsAt(p);
      FieldsRead(x, w, "*" + p, "*" + p, "*" + p);
    } else if HasStar(s) {
      StopsAt(q);
      FieldsRead(x, w, p, "*" + q, "*" + q);
    } else {
      FieldsRead(x, w, p, q, [s.conv] + rest);
      assert ([s.conv] + rest)[1..] == rest;
    }
  }

  /** The directive from its width on, from its precision on, and from its qualifier on; and what reading each gives. */
  lemma DirectiveSteps(s: Spec, rest: string) returns (w: string, p: string, q: string)
    requires WellFormed(s)
    ensures q == QualifierText(s.qualifier) + [s.conv] + rest && p == PrecisionText(s.precision) + q
    ensures ReadFlags(Written(s) + rest, NO_FLAGS) == (AllFlags(s.flags, NO_FLAGS), w)
    ensures ReadWidth(w) == (WidthField(s.width), if s.width == Some(FromArgument) then "*" + p else p)
    ensures ReadPrecision(p) == (PrecisionField(s.precision), if s.precision ==
            Some(Some(FromArgument)) then "*" + q else q)
    ensures SkipQualifier(q) == [s.conv] + rest
  {
    hide WidthText, PrecisionText, QualifierText, ReadFlags, ReadWidth, ReadPrecision, AllFlags, SkipQualifier,
         ReadDirective, Written, WellFormed, IsFlag, IsDigit, WidthField, PrecisionField;
    WellFormedLetters(s);
    Point();
    q := QualifierText(s.qualifier) + [s.conv] + rest;
    p := PrecisionText(s.precision) + q;
    w := WidthText(s.width) + p;
    WrittenSplit(s, rest);
    TailHead(s, rest);
    PrecisionRead(s.precision, q);
    WidthRead(s.width, p);
    FlagsRead(s.flags, w, NO_FLAGS);
    assert "" + q == q && "" + p == p;
  }

  lemma AfterEither(s: Spec, p: string, q: string, rest: string)
    requires q == QualifierText(s.qualifier) + [s.conv] + rest && p == PrecisionText(s.precision) + q
    ensures AfterStar(s) + rest == if s.width == Some(FromArgument) then p else q
    ensures s.width == Some(FromArgument) ==> WidthField(s.width) == Star
    ensures s.precision == Some(Some(FromArgument)) ==> PrecisionField(s.precision) == Star
  {
    hide PrecisionText, QualifierText;
    assert PrecisionText(s.precision) + (QualifierText(s.qualifier) + [s.conv]) + rest == p;
  }

  lemma Point()
    ensures !IsFlag('.') && !IsDigit('.')
  {
  }

  /** The steps of reading a directive, by what each of them leaves. */
  lemma FieldsRead(s: string, s1: string, s2: string, s3: string, s4: string)
    requires ReadFlags(s, NO_FLAGS).1 == s1 && ReadWidth(s1).1 == s2 && ReadPrecision(s2).1 == s3 &&
             SkipQualifier(s3) == s4 && s4 != ""
    ensures ReadDirective(s) ==
            (Directive(ReadFlags(s, NO_FLAGS).0, ReadWidth(s1).0, ReadPrecision(s2).0, s4[0]), s4[1..])
  {
    hide ReadFlags, ReadWidth, ReadPrecision, SkipQualifier;
  }

  /** Precision, qualifier and conversion, read at a star. */
  lemma StopsAt(rest: string)
    ensures var s := "*" + rest;
            ReadPrecision(s) == (Absent, s) && SkipQualifier(s) == s && Head(s) == '*' && s[1..] == rest
  {
  }

  /** The directive is read as meant if and only if it holds no star. */
  lemma DirectiveReadIff(s: Spec, rest: string)
    requires WellFormed(s)
    ensures ReadDirective(Written(s) + rest) == (Meaning(s), rest) <==> !HasStar(s)
  {
    DirectiveTaken(s, rest);
    hide ReadDirective, Written, AllFlags;
  }

  lemma WrittenSplit(s: Spec, rest: string)
    ensures Written(s) + rest ==
            s.flags +
            (WidthText(s.width) + (PrecisionText(s.precision) + (QualifierText(s.qualifier) + [s.conv] + rest)))
  {
    hide WidthText, PrecisionText, QualifierText;
  }

  ghost predicate Starless(ps: seq<Piece>) {
    forall i | 0 <= i < |ps| && ps[i].Dir? :: !HasStar(ps[i].s)
  }

  /**
   * Meaning preservation: parsing what was rendered gives the pieces' meanings back, one by one, if and only if there
   * is no star.
   */
  lemma {:induction false} ParseRenderIff(ps: seq<Piece>, tail: string)
    requires forall i | 0 <= i < |ps| :: WellFormedPiece(ps[i])
    ensures Parse(Render(ps) + tail) == Items(ps) + Parse(tail) <==> Starless(ps)
    decreases |ps|
  {
    hide ReadDirective, Written, Meaning, WellFormed, Parse, HasStar, Starless, CutShort, AfterStar, Render, Items;
    if ps == [] {
      NoPieces(tail);
    } else {
      var rest, items := Render(ps[1..]) + tail, Items(ps[1..]) + Parse(tail);
      ParseRenderIff(ps[1..], tail);
      StarlessStep(ps);
      PieceFirst(ps, tail, Parse(tail));
      assert WellFormedPiece(ps[0]);
      match ps[0]
      case Text(c) => TextReadIff(c, rest, items);
      case Dir(s) => DirReadIff(s, rest, items);
    }
  }

  /** The first piece of a rendered list and of its meaning. */
  lemma PieceFirst(ps: seq<Piece>, tail: string, after: seq<Item>)
    requires ps != []
    ensures ps[0].Text? ==> Render(ps) + tail == [ps[0].c] + (Render(ps[1..]) + tail)
    ensures ps[0].Text? ==> Items(ps) + after == [Literal(ps[0].c)] + (Items(ps[1..]) + after)
    ensures ps[0].Dir? ==> Render(ps) + tail == "%" + (Written(ps[0].s) + (Render(ps[1..]) + tail))
    ensures ps[0].Dir? ==> Items(ps) + after == [Conv(Meaning(ps[0].s))] + (Items(ps[1..]) + after)
  {
    hide Written, Meaning;
    var r, items := Render(ps[1..]), Items(ps[1..]);
    match ps[0]
    case Text(c) =>
      assert Render(ps) == [c] + r && Items(ps) == [Literal(c)] + items;
      hide Render, Items;
      Regroup([c], r, tail);
      Regroup([Literal(c)], items, after);
    case Dir(s) =>
      assert Render(ps) == "%" + (Written(s) + r) && Items(ps) == [Conv(Meaning(s))] + items;
      hide Render, Items;
      PercentFirst(Written(s), r, tail);
      Regroup([Conv(Meaning(s))], items, after);
  }

  lemma Regroup<T>(a: seq<T>, b: seq<T>, c: seq<T>)
    ensures a + b + c == a + (b + c)
  {
  }

  lemma NoPieces(tail: string)
    ensures Starless([]) && Render([]) + tail == tail && Items([]) + Parse(tail) == Parse(tail)
  {
  }

  lemma StarlessStep(ps: seq<Piece>)
    requires ps != []
    ensures Starless(ps) <==> (ps[0].Dir? ==> !HasStar(ps[0].s)) && Starless(ps[1..])
  {
    hide HasStar;
    var t := ps[1..];
    assert forall i | 0 <= i < |t| :: t[i] == ps[i + 1];
    assert forall i | 0 < i < |ps| :: ps[i] == t[i - 1];
  }

  lemma TextReadIff(c: char, rest: string, items: seq<Item>)
    requires c != '%'
    ensures Parse([c] + rest) == [Literal(c)] + items <==> Parse(rest) == items
  {
    hide Parse;
    ParseText(c, rest);
    SameTail(Literal(c), Parse(rest), items);
  }

  lemma DirReadIff(s: Spec, rest: string, items: seq<Item>)
    requires WellFormed(s)
    ensures Parse("%" + (Written(s) + rest)) == [Conv(Meaning(s))] + items <==> !HasStar(s) && Parse(rest) == items
  {
    hide Written, Meaning, WellFormed, Parse, HasStar, CutShort, AfterStar;
    ParseDir(s, rest);
    if HasStar(s) {
      FirstDiffers(Conv(CutShort(s)), Conv(Meaning(s)), Parse(AfterStar(s) + rest), items);
    } else {
      SameTail(Conv(Meaning(s)), Parse(rest), items);
    }
  }

  lemma FirstDiffers(x: Item, y: Item, a: seq<Item>, b: seq<Item>)
    requires x != y
    ensures [x] + a != [y] + b
  {
    assert ([x] + a)[0] != ([y] + b)[0];
  }

  lemma SameTail(x: Item, a: seq<Item>, b: seq<Item>)
    ensures [x] + a == [x] + b <==> a == b
  {
    assert ([x] + a)[1..] == a && ([x] + b)[1..] == b;
  }

  lemma PercentFirst(a: string, b: string, c: string)
    ensures "%" + (a + b) + c == "%" + (a + (b + c))
  {
  }

  lemma ParseText(c: char, rest: string)
    requires c != '%'
    ensures Parse([c] + rest) == [Literal(c)] + Parse(rest)
  {
    assert ([c] + rest)[1..] == rest;
  }

  lemma ParseDir(s: Spec, rest: string)
    requires WellFormed(s)
    ensures !HasStar(s) ==> Parse("%" + (Written(s) + rest)) == [Conv(Meaning(s))] + Parse(rest)
    ensures HasStar(s) ==> Parse("%" + (Written(s) + rest)) == [Conv(CutShort(s))] + Parse(AfterStar(s) + rest)
    ensures HasStar(s) ==> CutShort(s) != Meaning(s)
  {
    hide ReadDirective, Written, AfterStar, AllFlags;
    DirectiveTaken(s, rest);
    assert ("%" + (Written(s) + rest))[1..] == Written(s) + rest;
  }

  /** vsprintf accepts every rendered format, and its output is what the pieces mean, as long as they hold no star. */
  lemma FormatMeaning(ps: seq<Piece>, args: seq<Arg>)
    requires Starless(ps) && forall i | 0 <= i < |ps| :: WellFormedPiece(ps[i])
    ensures '\0' !in Render(ps)
    ensures Output(Parse(Render(ps)), args) == Output(Items(ps), args)
  {
    NoTerminator(ps);
    hide Render, Items, WellFormedPiece, Starless;
    ParseRenderIff(ps, "");
    assert Render(ps) + "" == Render(ps);
    assert Items(ps) + Parse("") == Items(ps);
  }

  lemma {:induction false} NoTerminator(ps: seq<Piece>)
    requires forall i | 0 <= i < |ps| :: WellFormedPiece(ps[i])
    ensures '\0' !in Render(ps)
    decreases |ps|
  {
    hide Written;
    if ps != [] {
      NoTerminator(ps[1..]);
      assert WellFormedPiece(ps[0]);
      if ps[0].Dir? {
        NoTerminatorIn(ps[0].s);
      }
    }
  }

  lemma NoTerminatorIn(s: Spec)
    requires WellFormed(s)
    ensures '\0' !in Written(s)
  {
    hide Digits;
    if s.width.Some? && s.width.value.Number? {
      DecimalRead(s.width.value.n);
    }
    if s.precision.Some? && s.precision.value.Some? && s.precision.value.value.Number? {
      DecimalRead(s.precision.value.value.n);
    }
    assert '\0' !in s.flags;
    assert '\0' !in WidthText(s.width);
    assert '\0' !in PrecisionText(s.precision);
    assert '\0' !in QualifierText(s.qualifier);
  }

  // ----- Two ends of the grammar -----

  /** A percent sign that ends the format prints itself, and the interpreter stops there. */
  lemma LonePercent(ps: seq<Piece>, args: seq<Arg>, text: string)
    requires Starless(ps) && (forall i | 0 <= i < |ps| :: WellFormedPiece(ps[i])) &&
             Output(Items(ps), args) == Some(text)
    ensures Output(Parse(Render(ps) + "%"), args) == Some(text + "%")
  {
    ParseRenderIff(ps, "%");
    hide Render, Items, Starless;
    var last := Directive(NO_FLAGS, Absent, Absent, '\0');
    assert "%"[1..] == "";
    assert ReadDirective("") == (last, "");
    assert Parse("%") == [Conv(last)];
    OutputLast(Items(ps), last, args, text);
  }

  lemma {:induction false} OutputLast(items: seq<Item>, d: Directive, args: seq<Arg>, text: string)
    requires Output(items, args) == Some(text) && d == Directive(NO_FLAGS, Absent, Absent, '\0')
    ensures Output(items + [Conv(d)], args) == Some(text + "%")
    decreases |items|
  {
    if items == [] {
      assert items + [Conv(d)] == [Conv(d)] && [Conv(d)][1..] == [];
      assert "%" + "" == "" + "%";
    } else {
      assert (items + [Conv(d)])[1..] == items[1..] + [Conv(d)];
      match items[0]
      case Literal(c) =>
        var rest := Output(items[1..], args).value;
        OutputLast(items[1..], d, args, rest);
        assert [c] + (rest + "%") == [c] + rest + "%";
      case Conv(e) =>
        var (head, r) := Denote(e, args).value;
        var rest := Output(items[1..], r).value;
        OutputLast(items[1..], d, r, rest);
        assert head + (rest + "%") == head + rest + "%";
    }
  }

  /**
   * A star is meant to take a width or a precision from the arguments, and the code takes the argument; but it does
   * not step past the star. Whatever the flags, the argument and the other field, the directive comes out as the two
   * characters %*, and what stood behind the star is interpreted as if it were the next part of the format.
   */
  lemma StarIsNotHonoured(s: Spec, rest: string, w: Word, args: seq<Arg>)
    requires WellFormed(s) && HasStar(s)
    ensures Output(Parse("%" + (Written(s) + rest)), [Num(w)] + args) ==
            Prepend("%*", Output(Parse(AfterStar(s) + rest), args))
  {
    ParseDir(s, rest);
    StarDenotes(s, w, args);
    hide Written, AfterStar, Denote;
    var items := [Conv(CutShort(s))] + Parse(AfterStar(s) + rest);
    assert items[1..] == Parse(AfterStar(s) + rest);
  }

  lemma StarDenotes(s: Spec, w: Word, args: seq<Arg>)
    requires HasStar(s)
    ensures Denote(CutShort(s), [Num(w)] + args) == Some(("%*", args))
  {
    hide AllFlags;
    assert ([Num(w)] + args)[1..] == args;
  }

  /** %5d with the 5 as an argument: the number is consumed as the width, and %*d is printed. */
  lemma StarWidthPrinted(w: Word)
    ensures Output(Parse("%*d"), [Num(5), Num(w)]) == Some("%*d")
  {
    var s := Spec("", Some(FromArgument), None, None, 'd');
    StarIsNotHonoured(s, "", 5, [Num(w)]);
    assert AfterStar(s) + "" == "d" && "%" + (Written(s) + "") == "%*d" && [Num(5)] + [Num(w)] == [Num(5), Num(w)];
    OutputStep("d", [Num(w)]);
    assert "d"[1..] == "" && Output(Parse(""), [Num(w)]) == Some("");
    assert ['d'] + "" == "d" && "%*" + "d" == "%*d";
  }

  /** A letter that means nothing is printed as it stands, percent sign included, and takes no argument. */
  lemma UnknownLetter(c: char, rest: string, args: seq<Arg>)
    requires !IsFlag(c) && !IsDigit(c) && !IsQualifier(c) && c !in CONVERSIONS
    requires c != '.' && c != '*' && c != 'n' && c != '\0'
    ensures Output(Parse("%" + ([c] + rest)), args) == Prepend("%" + [c], Output(Parse(rest), args))
  {
    var s := [c] + rest;
    assert s[1..] == rest && ("%" + s)[1..] == s;
    assert ReadDirective(s) == (Directive(NO_FLAGS, Absent, Absent, c), rest);
    OutputStep("%" + s, args);
    assert "%" + [c] == ['%', c];
  }
}
