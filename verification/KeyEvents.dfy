/** Key presses and releases, how the keyboard encodes them, and that keyboard_read decodes exactly that. */
module KeyEvents {
  import opened Words
  import opened Keymap
  import opened Keyboard

  /**
   * A key going down (make) or up: a plain code, one with the E0 prefix, PrintScreen, or Pause, which only goes down.
   */
  datatype KeyEvent = Plain(code: int, make: bool) | Extended(code: int, make: bool) | PrintScreen(make: bool) | Pause

  function CodeByte(code: int, make: bool): int {
    if make then code else code + 0x80
  }

  predicate WellFormed(e: KeyEvent) {
    match e
    case Plain(code, make) => 0 <= code < 0x80 && CodeByte(code, make) != 0xE0 && CodeByte(code, make) != 0xE1
    case Extended(code, make) => 0 <= code < 0x80 && CodeByte(code, make) != 0x2A && CodeByte(code, make) != 0xB7
    case _ => true
  }

  function Encode(e: KeyEvent): seq<Byte>
    requires WellFormed(e)
  {
    match e
    case Plain(code, make) => [CodeByte(code, make)]
    case Extended(code, make) => [0xE0, CodeByte(code, make)]
    case PrintScreen(make) => if make then [0xE0, 0x2A, 0xE0, 0x37] else [0xE0, 0xB7, 0xE0, 0xAA]
    case Pause => PAUSE
  }

  predicate AllWellFormed(es: seq<KeyEvent>) {
    forall i | 0 <= i < |es| :: WellFormed(es[i])
  }

  function EncodeAll(es: seq<KeyEvent>): seq<Byte>
    requires AllWellFormed(es)
  {
    if es == [] then [] else Encode(es[0]) + EncodeAll(es[1..])
  }

  // ----- What an event means, by the physical key -----

  datatype Modifier = ShiftL | ShiftR | CtrlL | CtrlR | AltL | AltR

  function ModifierOf(e: KeyEvent): Option<Modifier> {
    match e
    case Plain(code, _) =>
      if code == 0x2A then Some(ShiftL) else if code == 0x36 then Some(ShiftR)
      else if code == 0x1D then Some(CtrlL) else if code == 0x38 then Some(AltL) else None
    case Extended(code, _) => if code == 0x1D then Some(CtrlR) else if code == 0x38 then Some(AltR) else None
    case _ => None
  }

  /** Whether the key of modifier k is down after the events, if it was as given before. */
  function IsDown(es: seq<KeyEvent>, k: Modifier, before: bool): bool {
    if es == [] then before
    else
      var e := es[|es| - 1];
      if ModifierOf(e) == Some(k) then IsMake(e) else IsDown(es[..|es| - 1], k, before)
  }

  predicate IsMake(e: KeyEvent) {
    match e
    case Plain(_, make) => make
    case Extended(_, make) => make
    case PrintScreen(make) => make
    case Pause => true
  }

  /** Modifier state after one event, as the code keeps it: both Alt keys share the left flag. */
  function Track(m: Mods, e: KeyEvent): Mods {
    match ModifierOf(e)
    case None => m
    case Some(ShiftL) => m.(shiftL := IsMake(e))
    case Some(ShiftR) => m.(shiftR := IsMake(e))
    case Some(CtrlL) => m.(ctrlL := IsMake(e))
    case Some(CtrlR) => m.(ctrlR := IsMake(e))
    case Some(AltL) => m.(altL := IsMake(e))
    case Some(AltR) => m.(altL := IsMake(e))
  }

  /**
   * The key reported for an event as coded: only keys going down, with the modifiers as they are then. PrintScreen
   * and Pause are recognised, but their keys never reach in_process.
   */
  function Reported(m: Mods, e: KeyEvent): Option<int> {
    match e
    case Plain(code, make) =>
      if make then Some(KeyAt(code, if m.shiftL || m.shiftR then 1 else 0) + FlagBits(Track(m, e))) else None
    case Extended(code, make) => if make then Some(KeyAt(code, 2) + FlagBits(Track(m, e))) else None
    case _ => None
  }

  function TrackAll(m: Mods, es: seq<KeyEvent>): Mods {
    if es == [] then m else Track(TrackAll(m, es[..|es| - 1]), es[|es| - 1])
  }

  function ReportedAll(m: Mods, es: seq<KeyEvent>): seq<int> {
    if es == [] then []
    else ReportedAll(m, es[..|es| - 1]) + Listed(Reported(TrackAll(m, es[..|es| - 1]), es[|es| - 1]))
  }

  function Listed(o: Option<int>): seq<int> {
    if o.Some? then [o.value] else []
  }

  // ----- Decoding inverts encoding -----

  /** One event is consumed exactly, whatever follows, and means what its key means. */
  lemma EventRead(e: KeyEvent, rest: seq<Byte>, m: Mods)
    requires WellFormed(e)
    ensures Read(Encode(e) + rest, m) == Done(Track(m, e), Reported(m, e), |Encode(e)|)
  {
    hide RowOf, KeyAt, Decoded, Track, Reported;
    var s := Encode(e) + rest;
    match e
    case Plain(code, make) =>
      DecodedEvent(e, code, make, false, m, 1);
    case Extended(code, make) =>
      DecodedEvent(e, code, make, true, m, 2);
    case PrintScreen(make) =>
      NoModifier(e, m);
    case Pause =>
      NoModifier(e, m);
      PauseRead(s, m);
  }

  lemma DecodedEvent(e: KeyEvent, code: int, make: bool, e0: bool, m: Mods, n: nat)
    requires WellFormed(e) && e == if e0 then Extended(code, make) else Plain(code, make)
    ensures Decoded(CodeByte(code, make), e0, m, n) == Done(Track(m, e), Reported(m, e), n)
  {
    hide RowOf, KeyAt, FlagBits, WithFlags;
    FlagsApart(code, if e0 then 2 else if m.shiftL || m.shiftR then 1 else 0, Track(m, e));
    ModifierKeys(code, if e0 then 2 else if m.shiftL || m.shiftR then 1 else 0);
    assert CodeByte(code, make) % 0x80 == code;
  }

  lemma NoModifier(e: KeyEvent, m: Mods)
    requires e.PrintScreen? || e.Pause?
    ensures Track(m, e) == m && Reported(m, e) == None
  {
  }

  lemma PauseRead(s: seq<Byte>, m: Mods)
    requires PAUSE <= s
    ensures PauseFrom(s, 1, m) == Done(m, None, 6)
  {
    hide Decoded;
    assert forall i | 0 <= i < 6 :: s[i] == PAUSE[i];
    assert PauseFrom(s, 6, m) == Done(m, None, 6);
    assert PauseFrom(s, 5, m) == PauseFrom(s, 6, m);
    assert PauseFrom(s, 4, m) == PauseFrom(s, 5, m);
    assert PauseFrom(s, 3, m) == PauseFrom(s, 4, m);
    assert PauseFrom(s, 2, m) == PauseFrom(s, 3, m);
    assert PauseFrom(s, 1, m) == PauseFrom(s, 2, m);
  }

  /** Each shift and ctrl flag is the last make or break of its key, counted from the state m. */
  ghost predicate FlagsAgree(r: Mods, m: Mods, es: seq<KeyEvent>) {
    && r.shiftL == IsDown(es, ShiftL, m.shiftL) && r.shiftR == IsDown(es, ShiftR, m.shiftR)
    && r.ctrlL == IsDown(es, CtrlL, m.ctrlL) && r.ctrlR == IsDown(es, CtrlR, m.ctrlR)
  }

  lemma IsDownStep(es: seq<KeyEvent>, k: Modifier, before: bool)
    requires es != []
    ensures var e := es[|es| - 1];
            IsDown(es, k, before) == if ModifierOf(e) == Some(k) then IsMake(e) else IsDown(es[..|es| - 1], k, before)
  {
  }

  lemma {:induction false} FlagsFollowKeys(m: Mods, es: seq<KeyEvent>)
    ensures FlagsAgree(TrackAll(m, es), m, es)
    decreases |es|
  {
    hide ModifierOf, IsDown, IsMake;
    if es == [] {
      NoEvents(m);
    } else {
      FlagsFollowKeys(m, es[..|es| - 1]);
      IsDownStep(es, ShiftL, m.shiftL);
      IsDownStep(es, ShiftR, m.shiftR);
      IsDownStep(es, CtrlL, m.ctrlL);
      IsDownStep(es, CtrlR, m.ctrlR);
    }
  }

  lemma NoEvents(m: Mods)
    ensures FlagsAgree(m, m, [])
  {
  }

  /** Whether the last make or break of either Alt key was a make. */
  function LastAlt(es: seq<KeyEvent>, before: bool): bool {
    if es == [] then before
    else
      var e := es[|es| - 1];
      if ModifierOf(e) == Some(AltL) || ModifierOf(e) == Some(AltR) then IsMake(e) else LastAlt(es[..|es| - 1], before)
  }

  /** The left Alt flag follows whichever Alt key moved last; the right one never moves. */
  lemma {:induction false} AltFollowsEither(m: Mods, es: seq<KeyEvent>)
    ensures TrackAll(m, es).altL == LastAlt(es, m.altL) && TrackAll(m, es).altR == m.altR
    decreases |es|
  {
    hide ModifierOf, IsMake, Track;
    if es != [] {
      AltFollowsEither(m, es[..|es| - 1]);
      AltStep(TrackAll(m, es[..|es| - 1]), es[|es| - 1]);
    }
  }

  lemma AltStep(m: Mods, e: KeyEvent)
    ensures Track(m, e).altR == m.altR
    ensures Track(m, e).altL == if ModifierOf(e) == Some(AltL) || ModifierOf(e) == Some(AltR) then IsMake(e) else m.altL
  {
    hide ModifierOf, IsMake;
    match ModifierOf(e)
    case None =>
    case Some(k) =>
  }

  /**
   * When the Alt flags are right, after any events: the left one if and only if the last move of either Alt key was
   * what left Alt last did; the right one if and only if right Alt is as it was at the start.
   */
  lemma {:induction false} AltFlagsIff(m: Mods, es: seq<KeyEvent>)
    ensures TrackAll(m, es).altL == IsDown(es, AltL, m.altL) <==> LastAlt(es, m.altL) == IsDown(es, AltL, m.altL)
    ensures TrackAll(m, es).altR == IsDown(es, AltR, m.altR) <==> IsDown(es, AltR, m.altR) == m.altR
  {
    AltFollowsEither(m, es);
    hide TrackAll, LastAlt, IsDown;
  }

  /**
   * A wrong left Alt flag is put right by the next event if and only if that is one of left Alt, or right Alt doing
   * what left Alt last did.
   */
  lemma AltRecoversIff(m: Mods, es: seq<KeyEvent>, e: KeyEvent)
    requires TrackAll(m, es).altL != IsDown(es, AltL, m.altL)
    ensures TrackAll(m, es + [e]).altL == IsDown(es + [e], AltL, m.altL)
       <==> ModifierOf(e) == Some(AltL) || (ModifierOf(e) == Some(AltR) && IsMake(e) == IsDown(es, AltL, m.altL))
  {
    assert (es + [e])[..|es|] == es;
  }

  /** Left Alt held while right Alt is tapped: the flag says that no left Alt is down. */
  lemma AltLost(m: Mods)
    ensures var es := [Plain(0x38, true), Extended(0x38, true), Extended(0x38, false)];
            AllWellFormed(es) && IsDown(es, AltL, m.altL) && !TrackAll(m, es).altL
  {
    var es := [Plain(0x38, true), Extended(0x38, true), Extended(0x38, false)];
    assert es[..2] == [Plain(0x38, true), Extended(0x38, true)];
    assert es[..2][..1] == [Plain(0x38, true)];
    assert es[..2][..1][..0] == [];
  }

  /**
   * The one-byte and E0-prefixed codes that make sequences of their own, whatever follows, are exactly the
   * well-formed ones.
   */
  lemma WellFormedIff(code: int, make: bool, m: Mods)
    requires 0 <= code < 0x80
    ensures WellFormed(Plain(code, make)) <==> (forall r :: UsesUp([CodeByte(code, make)], r, m))
    ensures WellFormed(Extended(code, make)) <==> (forall r :: UsesUp([0xE0, CodeByte(code, make)], r, m))
  {
    hide Decoded;
    var b := CodeByte(code, make);
    DecodedUse(b, false, m);
    DecodedUse(b, true, m);
    if b == 0xE0 || b == 0xE1 {
      assert [b] + [] == [b] && !UsesUp([b], [], m);
    } else {
      forall r
        ensures UsesUp([b], r, m)
      {
        assert ([b] + r)[0] == b;
      }
    }
    if b == 0x2A || b == 0xB7 {
      assert [0xE0, b] + [] == [0xE0, b] && !UsesUp([0xE0, b], [], m);
    } else {
      forall r
        ensures UsesUp([0xE0, b], r, m)
      {
        assert ([0xE0, b] + r)[0] == 0xE0 && ([0xE0, b] + r)[1] == b;
      }
    }
  }

  /** One call of keyboard_read uses up the sequence s, no more and no less, when r follows. */
  predicate UsesUp(s: seq<Byte>, r: seq<Byte>, m: Mods) {
    Read(s + r, m).Done? && Read(s + r, m).used == |s|
  }

  // ----- What the keys type -----

  function Num(b: bool): int {
    if b then 1 else 0
  }

  /** A key with the modifiers that are down, each in a bit of its own. */
  function WithModifiers(key: int, m: Mods): int {
    key + 0x200 * Num(m.shiftL) + 0x400 * Num(m.shiftR) + 0x800 * Num(m.ctrlL) + 0x1000 * Num(m.ctrlR)
    + 0x2000 * Num(m.altL) + 0x4000 * Num(m.altR)
  }

  /** Typing: the scan code of a key reports its character, with either shift down its shifted one. */
  lemma TypedKey(r: KeyRow, k: int, rest: seq<Byte>, m: Mods)
    requires IsRow(r) && 0 <= k < |r.plain|
    ensures |r.shifted| == |r.plain| && 0 < r.first + k < 0x80
    ensures var c := if m.shiftL || m.shiftR then r.shifted[k] else r.plain[k];
            Read([r.first + k] + rest, m) == Done(m, Some(WithModifiers(c as int, m)), 1)
  {
    hide KeyAt, Read;
    RowKeys(r, k);
    PlainKey(r.first + k, rest, m);
  }

  /** A plain key that is no modifier, by the table: what it reports, with shift down and without. */
  lemma PlainKey(code: int, rest: seq<Byte>, m: Mods)
    requires 0 < code < 0x80 && code !in {0x1D, 0x2A, 0x36, 0x38}
    ensures Read([code] + rest, m) ==
            Done(m, Some(WithModifiers(KeyAt(code, if m.shiftL || m.shiftR then 1 else 0), m)), 1)
  {
    hide KeyAt, Read;
    var e := Plain(code, true);
    EventRead(e, rest, m);
    assert Encode(e) == [code];
  }

  lemma SingleKey(k: int, rest: seq<Byte>, m: Mods)
    requires 0 <= k < |SINGLE|
    ensures 0 < SINGLE[k].0 < 0x80 && Read([SINGLE[k].0] + rest, m) == Done(m, Some(WithModifiers(SINGLE[k].1, m)), 1)
  {
    hide KeyAt, Read;
    SingleKeys(k);
    hide SINGLE;
    PlainKey(SINGLE[k].0, rest, m);
  }

  lemma FunctionKey(k: int, rest: seq<Byte>, m: Mods)
    requires 0 <= k < 10
    ensures Read([0x3B + k] + rest, m) == Done(m, Some(WithModifiers(0x111 + k, m)), 1)
  {
    hide KeyAt, Read;
    FunctionKeys(k);
    PlainKey(0x3B + k, rest, m);
  }

  lemma KeypadKey(k: int, rest: seq<Byte>, m: Mods)
    requires 0 <= k < 13
    ensures var key: int := if m.shiftL || m.shiftR then KEYPAD_SHIFTED[k] as int else KEYPAD[k];
            Read([0x47 + k] + rest, m) == Done(m, Some(WithModifiers(key, m)), 1)
  {
    hide KeyAt, Read;
    KeypadKeys(k);
    PlainKey(0x47 + k, rest, m);
  }

  /** The keys after E0 report their own codes, whether shift is down or not. */
  lemma ExtendedKey(k: int, rest: seq<Byte>, m: Mods)
    requires 0 <= k < |AFTER_E0|
    ensures 0 <= AFTER_E0[k].0 < 0x80
    ensures Read([0xE0, AFTER_E0[k].0] + rest, m) == Done(m, Some(WithModifiers(AFTER_E0[k].1, m)), 2)
  {
    hide KeyAt, Read;
    ExtendedKeys(k);
    hide AFTER_E0;
    var e := Extended(AFTER_E0[k].0, true);
    EventRead(e, rest, m);
    assert Encode(e) == [0xE0, AFTER_E0[k].0];
  }

  predicate Special(e: KeyEvent) {
    e.PrintScreen? || e.Pause?
  }

  /** A key that goes down is passed on if and only if it is neither PrintScreen nor Pause. */
  lemma SwallowedIff(e: KeyEvent, rest: seq<Byte>, m: Mods)
    requires WellFormed(e) && IsMake(e)
    ensures var r := Read(Encode(e) + rest, m); r.Done? && (r.key.Some? <==> !Special(e))
  {
    EventRead(e, rest, m);
    hide Read, Encode, KeyAt, FlagBits;
  }

  /** The two of them, pressed: all bytes are used up and no key is reported. */
  lemma PressesSwallowed(m: Mods)
    ensures Read([0xE0, 0x2A, 0xE0, 0x37], m) == Done(m, None, 4)
    ensures Read([0xE1, 0x1D, 0x45, 0xE1, 0x9D, 0xC5], m) == Done(m, None, 6)
  {
    EventRead(PrintScreen(true), [], m);
    EventRead(Pause, [], m);
    assert Encode(PrintScreen(true)) + [] == [0xE0, 0x2A, 0xE0, 0x37];
    assert Encode(Pause) + [] == [0xE1, 0x1D, 0x45, 0xE1, 0x9D, 0xC5];
  }

  /** How many keys went down. */
  function Presses(es: seq<KeyEvent>): nat {
    if es == [] then 0 else Presses(es[..|es| - 1]) + if IsMake(es[|es| - 1]) then 1 else 0
  }

  /** Every press is reported if and only if none is of PrintScreen or Pause; otherwise some are missing. */
  lemma {:induction false} AllReportedIff(m: Mods, es: seq<KeyEvent>)
    ensures |ReportedAll(m, es)| <= Presses(es)
    ensures |ReportedAll(m, es)| == Presses(es) <==> forall i | 0 <= i < |es| && Special(es[i]) :: !IsMake(es[i])
    decreases |es|
  {
    hide KeyAt, FlagBits, Track, TrackAll;
    if es != [] {
      var init := es[..|es| - 1];
      AllReportedIff(m, init);
      assert forall i | 0 <= i < |init| :: init[i] == es[i];
    }
  }

  // ----- Broken sequences -----

  const PAUSE_BYTES: seq<Byte> := [0xE1, 0x1D, 0x45, 0xE1, 0x9D, 0xC5]

  /** A Pause sequence that breaks off: the byte that does not fit is lost with the rest, and nothing is reported. */
  lemma BrokenPause(i: nat, b: Byte, rest: seq<Byte>, m: Mods)
    requires 1 <= i < 6 && b != PAUSE_BYTES[i]
    ensures Read(PAUSE_BYTES[..i] + [b] + rest, m) == Done(m, None, i + 1)
  {
    var s := PAUSE_BYTES[..i] + [b] + rest;
    assert forall j | 0 <= j < i :: s[j] == PAUSE[j];
    assert s[i] == b && s[0] == 0xE1;
    DecodedBreak(m, i + 1);
    BrokenAt(s, 1, i, m);
  }

  lemma DecodedBreak(m: Mods, n: nat)
    ensures Decoded(0xE1, false, m, n) == Done(m, None, n)
  {
    hide WithFlags, RowOf, KeyAt;
    ModifierKeys(0x61, if m.shiftL || m.shiftR then 1 else 0);
  }

  lemma {:induction false} BrokenAt(s: seq<Byte>, j: nat, i: nat, m: Mods)
    requires 1 <= j <= i < 6 && i < |s| && s[i] != PAUSE[i] && forall k | j <= k < i :: s[k] == PAUSE[k]
    ensures PauseFrom(s, j, m) == Decoded(0xE1, false, m, i + 1)
    decreases i - j
  {
    hide Decoded;
    if j < i {
      BrokenAt(s, j + 1, i, m);
    }
  }

  /**
   * A PrintScreen sequence that breaks off after n bytes: a press reports key 0, a release nothing; n bytes are lost.
   */
  lemma BrokenPrintScreen(make: bool, b: Byte, c: Byte, rest: seq<Byte>, m: Mods)
    requires c != if make then 0x37 else 0xAA
    ensures var code: Byte := if make then 0x2A else 0xB7; var key := if make then Some(WithModifiers(0, m)) else None;
            && (b != 0xE0 ==> Read([0xE0, code, b] + rest, m) == Done(m, key, 3))
            && Read([0xE0, code, 0xE0, c] + rest, m) == Done(m, key, 4)
  {
    hide RowOf, WithFlags, FlagBits;
    DecodedPrefix(make, m, 3);
    DecodedPrefix(make, m, 4);
    var code: Byte := if make then 0x2A else 0xB7;
    var s, t := [0xE0, code, b] + rest, [0xE0, code, 0xE0, c] + rest;
    assert s[0] == 0xE0 && s[1] == code && s[2] == b;
    assert t[0] == 0xE0 && t[1] == code && t[2] == 0xE0 && t[3] == c;
    hide Decoded;
  }

  lemma DecodedPrefix(make: bool, m: Mods, n: nat)
    ensures Decoded(if make then 0x2A else 0xB7, true, m, n) ==
            Done(m, if make then Some(WithModifiers(0, m)) else None, n)
  {
    hide RowOf, KeyAt, WithFlags;
    NoKeyAfterE0();
    ModifierKeys(0x2A, 2);
    ModifierKeys(0x37, 2);
    FlagsApart(0x2A, 2, m);
  }

  lemma NoKeyAfterE0()
    ensures KeyAt(0x2A, 2) == 0 && KeyAt(0x37, 2) == 0
  {
  }

  // ----- Whole streams -----

  lemma EncodeAllStep(es: seq<KeyEvent>, i: int)
    requires AllWellFormed(es) && 0 <= i < |es|
    ensures EncodeAll(es[i..]) == Encode(es[i]) + EncodeAll(es[i + 1..])
  {
    assert es[i..][1..] == es[i + 1..];
  }

  lemma UpTo(m: Mods, es: seq<KeyEvent>, i: int)
    requires 0 <= i < |es|
    ensures TrackAll(m, es[..i + 1]) == Track(TrackAll(m, es[..i]), es[i])
    ensures ReportedAll(m, es[..i + 1]) == ReportedAll(m, es[..i]) + Listed(Reported(TrackAll(m, es[..i]), es[i]))
  {
    assert es[..i + 1][..i] == es[..i];
  }

  /**
   * Scan-code round trip: when the bytes of a list of events arrive, in whatever portions the interrupts bring
   * them, one call of keyboard_read per event uses up exactly that event's bytes and reports its key.
   */
  method ReadAll(es: seq<KeyEvent>) returns (k: Keyboard)
    requires AllWellFormed(es)
    ensures k.Valid() && k.Stream() == []
    ensures k.mods == TrackAll(Mods(false, false, false, false, false, false), es)
    ensures k.emitted == ReportedAll(Mods(false, false, false, false, false, false), es)
  {
    hide Encode, Track, Reported, Read;
    var m := Mods(false, false, false, false, false, false);
    k := new Keyboard(EncodeAll(es));
    var i := 0;
    assert es[0..] == es && es[..0] == [];
    while i < |es|
      invariant 0 <= i <= |es| && k.Valid() && fresh(k) && fresh(k.kb) && fresh(k.kb.buff)
      invariant k.Stream() == EncodeAll(es[i..])
      invariant k.mods == TrackAll(m, es[..i]) && k.emitted == ReportedAll(m, es[..i])
    {
      EncodeAllStep(es, i);
      EventRead(es[i], EncodeAll(es[i + 1..]), k.mods);
      EncodeNonempty(es[i]);
      k.Arrive();
      k.KeyboardRead();
      UpTo(m, es, i);
      i := i + 1;
    }
    assert es[|es|..] == [] && es[..|es|] == es;
  }

  lemma EncodeNonempty(e: KeyEvent)
    requires WellFormed(e)
    ensures |Encode(e)| > 0
  {
  }
}
