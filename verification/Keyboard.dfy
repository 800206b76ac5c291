/** keyboard_read of kern/driver/keyboard.c: scan-code sequences to keys. */
module Keyboard {
  import opened Words
  import opened Keymap
  import opened KeyBuffer

  datatype Mods = Mods(shiftL: bool, shiftR: bool, ctrlL: bool, ctrlR: bool, altL: bool, altR: bool)

  function FlagBits(m: Mods): int {
    (if m.shiftL then 0x200 else 0) + (if m.shiftR then 0x400 else 0) + (if m.ctrlL then 0x800 else 0)
    + (if m.ctrlR then 0x1000 else 0) + (if m.altL then 0x2000 else 0) + (if m.altR then 0x4000 else 0)
  }

  function Flagged(key: nat, on: bool, flag: nat): nat {
    BitOr(key, if on then flag else 0)
  }

  /** key |= flag, for each modifier in turn. */
  function WithFlags(key: nat, m: Mods): nat {
    Flagged(Flagged(Flagged(Flagged(Flagged(Flagged(key, m.shiftL, 0x200), m.shiftR, 0x400), m.ctrlL, 0x800),
                                    m.ctrlR, 0x1000), m.altL, 0x2000), m.altR, 0x4000)
  }

  /** No key of the table uses a flag's bit, so key and flags add up, and both can be told from the sum. */
  lemma FlagsApart(code: int, column: int, m: Mods)
    ensures var key := KeyAt(code, column);
            && 0 <= key && WithFlags(key, m) == key + FlagBits(m) && WithFlags(key, m) % 0x200 == key
  {
    hide RowOf, KeyAt, Flagged, Pow2;
    KeyRange(code, column);
    FlagsAdd(KeyAt(code, column), m);
    KeyBelow(KeyAt(code, column), m);
  }

  lemma FlagsAdd(key: nat, m: Mods)
    requires key < 0x200
    ensures WithFlags(key, m) == key + FlagBits(m)
  {
    hide Flagged, Pow2;
    var k1 := Flagged(key, m.shiftL, 0x200);
    var k2 := Flagged(k1, m.shiftR, 0x400);
    var k3 := Flagged(k2, m.ctrlL, 0x800);
    var k4 := Flagged(k3, m.ctrlR, 0x1000);
    var k5 := Flagged(k4, m.altL, 0x2000);
    Powers();
    OneFlag(key, m.shiftL, 9, 0x200);
    OneFlag(k1, m.shiftR, 10, 0x400);
    OneFlag(k2, m.ctrlL, 11, 0x800);
    OneFlag(k3, m.ctrlR, 12, 0x1000);
    OneFlag(k4, m.altL, 13, 0x2000);
    OneFlag(k5, m.altR, 14, 0x4000);
  }

  lemma Powers()
    ensures Pow2(9) == 0x200 && Pow2(10) == 0x400 && Pow2(11) == 0x800
    ensures Pow2(12) == 0x1000 && Pow2(13) == 0x2000 && Pow2(14) == 0x4000
  {
    assert Pow2(4) == 16;
    assert Pow2(9) == 0x200;
  }

  lemma KeyBelow(key: nat, m: Mods)
    requires key < 0x200
    ensures (key + FlagBits(m)) % 0x200 == key
  {
    var n := (if m.shiftL then 1 else 0) + (if m.shiftR then 2 else 0) + (if m.ctrlL then 4 else 0)
             + (if m.ctrlR then 8 else 0) + (if m.altL then 16 else 0) + (if m.altR then 32 else 0);
    assert FlagBits(m) == 0x200 * n;
  }

  lemma OneFlag(key: nat, on: bool, k: nat, flag: nat)
    requires key < Pow2(k) == flag
    ensures Flagged(key, on, flag) == key + (if on then flag else 0) < 2 * flag
  {
    OrIsSum(if on then 1 else 0, key, k);
  }

  // ----- What one call of keyboard_read does to a stream of bytes -----

  /**
   * Modifier state, the key passed to in_process if any, and the number of bytes used; or the call still waits for
   * bytes.
   */
  datatype Outcome = Blocked | Done(mods: Mods, key: Option<int>, used: nat)

  /** Lines 116-167: the table lookup for one scan code. ALT_R sets the left flag, as the code does. */
  function Decoded(code: Byte, e0: bool, m: Mods, used: nat): Outcome {
    var make := code < 0x80;
    var key := KeyAt(code % 0x80, if e0 then 2 else if m.shiftL || m.shiftR then 1 else 0);
    var m' := if key == SHIFT_L then m.(shiftL := make)
              else if key == SHIFT_R then m.(shiftR := make)
              else if key == CTRL_L then m.(ctrlL := make)
              else if key == CTRL_R then m.(ctrlR := make)
              else if key == ALT_L || key == ALT_R then m.(altL := make)
              else m;
    Done(m', if make then Some(WithFlags(key, m')) else None, used)
  }

  const PAUSE: seq<Byte> := [0xE1, 0x1D, 0x45, 0xE1, 0x9D, 0xC5]

  /** The matching loop on the Pause sequence, from its byte i. */
  function PauseFrom(s: seq<Byte>, i: nat, m: Mods): Outcome
    requires 1 <= i <= 6
    decreases 6 - i
  {
    if i == 6 then Done(m, None, 6)
    else if i >= |s| then Blocked
    else if s[i] != PAUSE[i] then Decoded(0xE1, false, m, i + 1)
    else PauseFrom(s, i + 1, m)
  }

  /** The PrintScreen attempts: after E0 c, the bytes E0 last complete it. */
  function PrintScreenFrom(s: seq<Byte>, last: Byte, m: Mods): Outcome
    requires |s| >= 2
  {
    if |s| < 3 then Blocked
    else if s[2] != 0xE0 then Decoded(s[1], true, m, 3)
    else if |s| < 4 then Blocked
    else if s[3] == last then Done(m, None, 4)
    else Decoded(s[1], true, m, 4)
  }

  function Read(s: seq<Byte>, m: Mods): Outcome {
    if s == [] then Blocked
    else if s[0] == 0xE1 then PauseFrom(s, 1, m)
    else if s[0] == 0xE0 then
      if |s| < 2 then Blocked
      else if s[1] == 0x2A then PrintScreenFrom(s, 0x37, m)
      else if s[1] == 0xB7 then PrintScreenFrom(s, 0xAA, m)
      else Decoded(s[1], true, m, 2)
    else Decoded(s[0], false, m, 1)
  }

  // ----- The code -----

  class Keyboard {
    const kb: KbInput
    var wire: seq<Byte>       // bytes the controller has yet to deliver
    var mods: Mods
    var emitted: seq<int>     // keys passed to in_process

    ghost predicate Valid()
      reads this, kb, kb.buff
    {
      kb.Valid()
    }

    /** All bytes that the reader will see, as long as none is dropped. */
    ghost function Stream(): seq<Byte>
      requires Valid()
      reads this, kb, kb.buff
    {
      kb.Pending() + wire
    }

    /** init_keyboard */
    constructor (wire: seq<Byte>)
      ensures Valid() && fresh(kb) && fresh(kb.buff) && Stream() == wire && emitted == []
      ensures mods == Mods(false, false, false, false, false, false)
    {
      kb := new KbInput();
      this.wire := wire;
      mods := Mods(false, false, false, false, false, false);
      emitted := [];
      new;
      assert kb.Pending() == [];
    }

    /** An interrupt, if the reader has caught up: the next byte arrives. */
    method Arrive()
      requires Valid() && Stream() != []
      modifies this`wire, kb, kb.buff
      ensures Valid() && Stream() == old(Stream()) && kb.count > 0
    {
      hide Ring;
      if kb.count == 0 {
        ghost var waiting := kb.Pending();
        kb.Handler(wire[0]);
        NextByte(waiting, wire);
        wire := wire[1..];
      }
    }

    /** get_byte_from_kbuf: while it waits, and before, any number of interrupts may come that fit the buffer. */
    method GetByte() returns (b: Byte)
      requires Valid() && Stream() != []
      modifies this`wire, kb, kb.buff
      ensures Valid() && b == old(Stream())[0] && Stream() == old(Stream())[1..]
    {
      ghost var stream := Stream();
      var k: nat :| k <= |wire| && k <= KB_IN_BYTES - kb.count && (kb.count == 0 ==> k > 0);
      ghost var least := kb.count + k;
      while k > 0
        invariant Valid() && Stream() == stream && k <= |wire| && kb.count + k == least <= KB_IN_BYTES
      {
        ghost var waiting := kb.Pending();
        kb.Handler(wire[0]);
        NextByte(waiting, wire);
        wire := wire[1..];
        k := k - 1;
      }
      b := kb.Take();
    }

    /** The matching loop: whether the whole Pause sequence was there. */
    method MatchPause() returns (isPause: bool)
      requires Valid() && |Stream()| >= 0 && PauseFrom([0xE1] + Stream(), 1, mods) != Blocked
      modifies this`wire, kb, kb.buff
      ensures Valid()
      ensures var r := PauseFrom([0xE1] + old(Stream()), 1, mods);
              && 1 <= r.used <= |old(Stream())| + 1 && Stream() == old(Stream())[r.used - 1..]
              && r == if isPause then Done(mods, None, 6) else Decoded(0xE1, false, mods, r.used)
    {
      ghost var s := [0xE1] + Stream();
      ghost var rest := Stream();
      isPause := true;
      var i := 1;
      while i < 6
        invariant 1 <= i <= 6 && i <= |s| && Valid() && Stream() == s[i..] && isPause
        invariant PauseFrom(s, i, mods) == PauseFrom(s, 1, mods) != Blocked
      {
        var b := GetByte();
        i := i + 1;
        if b != PAUSE[i - 1] {
          assert s[i..] == rest[i - 1..];
          return false;
        }
      }
      assert s[6..] == rest[5..];
    }

    /** The rest of a PrintScreen sequence: whether it was there. */
    method MatchPrintScreen(code: Byte, last: Byte) returns (found: bool)
      requires Valid() && PrintScreenFrom([0xE0, code] + Stream(), last, mods) != Blocked
      modifies this`wire, kb, kb.buff
      ensures Valid()
      ensures var r := PrintScreenFrom([0xE0, code] + old(Stream()), last, mods);
              && 2 <= r.used <= |old(Stream())| + 2 && Stream() == old(Stream())[r.used - 2..]
              && r == if found then Done(mods, None, 4) else Decoded(code, true, mods, r.used)
    {
      var b := GetByte();
      if b == 0xE0 {
        b := GetByte();
        found := b == last;
      } else {
        found := false;
      }
    }

    /** Lines 116-167: look the scan code up, track the modifiers, pass a made key on. */
    method LookUp(scanCode: Byte, codeWithE0: bool)
      modifies this`mods, this`emitted
      ensures var r := Decoded(scanCode, codeWithE0, old(mods), 0);
              mods == r.mods && emitted == (if r.key.Some? then old(emitted) + [r.key.value] else old(emitted))
    {
      hide RowOf, KeyAt;
      var make := scanCode / 0x80 == 0;
      var column := 0;
      if mods.shiftL || mods.shiftR {
        column := 1;
      }
      if codeWithE0 {
        column := 2;
      }
      var key := KeyAt(scanCode % 0x80, column);
      match key {
        case 0x108 => mods := mods.(shiftL := make);
        case 0x109 => mods := mods.(shiftR := make);
        case 0x10A => mods := mods.(ctrlL := make);
        case 0x10B => mods := mods.(ctrlR := make);
        case 0x10C => mods := mods.(altL := make);
        case 0x10D => mods := mods.(altL := make);
        case _ =>
      }
      if make {
        emitted := emitted + [WithFlags(key, mods)];
      }
    }

    /** Lines 89-114: the byte after E0, and whether it began a PrintScreen sequence. */
    method ReadExtended() returns (scanCode: Byte, special: bool)
      requires Valid() && Read([0xE0] + Stream(), mods) != Blocked
      modifies this`wire, kb, kb.buff
      ensures Valid()
      ensures var r := Read([0xE0] + old(Stream()), mods);
              && 1 <= r.used <= |old(Stream())| + 1 && Stream() == old(Stream())[r.used - 1..]
              && r == if special then Done(mods, None, 4) else Decoded(scanCode, true, mods, r.used)
    {
      hide Decoded, PrintScreenFrom, PauseFrom, RowOf, KbInput.Valid, Ring;
      ghost var s := Stream();
      special := false;
      scanCode := GetByte();
      DecodedUse(scanCode, true, mods);
      assert [0xE0] + s == [0xE0, s[0]] + Stream();
      if scanCode == 0x2A {
        special := MatchPrintScreen(scanCode, 0x37);
      }
      if scanCode == 0xB7 {
        special := MatchPrintScreen(scanCode, 0xAA);
      }
    }

    /** keyboard_read; it does nothing while the buffer is empty. */
    method KeyboardRead()
      requires Valid() && (kb.count > 0 ==> Read(Stream(), mods) != Blocked)
      modifies this, kb, kb.buff
      ensures Valid()
      ensures old(kb.count) == 0 ==> Stream() == old(Stream()) && mods == old(mods) && emitted == old(emitted)
      ensures old(kb.count) > 0 ==> var r := Read(old(Stream()), old(mods));
                && r.used <= |old(Stream())| && Stream() == old(Stream())[r.used..] && mods == r.mods
                && emitted == if r.key.Some? then old(emitted) + [r.key.value] else old(emitted)
    {
      if kb.count > 0 {
        hide Decoded, PauseFrom, PrintScreenFrom, RowOf, KbInput.Valid, Ring;
        ghost var s := Stream();
        var codeWithE0, special := false, false;
        var scanCode := GetByte();
        assert s == [s[0]] + Stream();
        if scanCode == 0xE1 {
          special := MatchPause();
        } else if scanCode == 0xE0 {
          scanCode, special := ReadExtended();
          if !special {
            codeWithE0 := true;
          }
        }
        if !special {
          DecodedUse(scanCode, codeWithE0, mods);
          LookUp(scanCode, codeWithE0);
        }
      }
    }
  }

  lemma NextByte(waiting: seq<Byte>, wire: seq<Byte>)
    requires wire != []
    ensures waiting + wire == waiting + [wire[0]] + wire[1..]
  {
  }

  lemma DecodedUse(code: Byte, e0: bool, m: Mods)
    ensures forall n: nat :: Decoded(code, e0, m, n).Done? && Decoded(code, e0, m, n).used == n
              && Decoded(code, e0, m, n).mods == Decoded(code, e0, m, 0).mods &&
                 Decoded(code, e0, m, n).key == Decoded(code, e0, m, 0).key
  {
    hide RowOf;
  }
}
