/** kern/driver/keymap.h: the US keyboard, scan code to key in three columns: plain, shifted, after E0. */
module Keymap {
  datatype Row = Row(plain: nat, shifted: nat, extended: nat)

  const SHIFT_L := 0x108
  const SHIFT_R := 0x109
  const CTRL_L := 0x10A
  const CTRL_R := 0x10B
  const ALT_L := 0x10C
  const ALT_R := 0x10D

  function RowOf(code: int): Row {
    match code
    case 0x01 => Row(0x101, 0x101, 0x0)
    case 0x02 => Row(0x31, 0x21, 0x0)
    case 0x03 => Row(0x32, 0x40, 0x0)
    case 0x04 => Row(0x33, 0x23, 0x0)
    case 0x05 => Row(0x34, 0x24, 0x0)
    case 0x06 => Row(0x35, 0x25, 0x0)
    case 0x07 => Row(0x36, 0x5E, 0x0)
    case 0x08 => Row(0x37, 0x26, 0x0)
    case 0x09 => Row(0x38, 0x2A, 0x0)
    case 0x0A => Row(0x39, 0x28, 0x0)
    case 0x0B => Row(0x30, 0x29, 0x0)
    case 0x0C => Row(0x2D, 0x5F, 0x0)
    case 0x0D => Row(0x3D, 0x2B, 0x0)
    case 0x0E => Row(0x104, 0x104, 0x0)
    case 0x0F => Row(0x102, 0x102, 0x0)
    case 0x10 => Row(0x71, 0x51, 0x0)
    case 0x11 => Row(0x77, 0x57, 0x0)
    case 0x12 => Row(0x65, 0x45, 0x0)
    case 0x13 => Row(0x72, 0x52, 0x0)
    case 0x14 => Row(0x74, 0x54, 0x0)
    case 0x15 => Row(0x79, 0x59, 0x0)
    case 0x16 => Row(0x75, 0x55, 0x0)
    case 0x17 => Row(0x69, 0x49, 0x0)
    case 0x18 => Row(0x6F, 0x4F, 0x0)
    case 0x19 => Row(0x70, 0x50, 0x0)
    case 0x1A => Row(0x5B, 0x7B, 0x0)
    case 0x1B => Row(0x5D, 0x7D, 0x0)
    case 0x1C => Row(0x103, 0x103, 0x130)
    case 0x1D => Row(0x10A, 0x10A, 0x10B)
    case 0x1E => Row(0x61, 0x41, 0x0)
    case 0x1F => Row(0x73, 0x53, 0x0)
    case 0x20 => Row(0x64, 0x44, 0x0)
    case 0x21 => Row(0x66, 0x46, 0x0)
    case 0x22 => Row(0x67, 0x47, 0x0)
    case 0x23 => Row(0x68, 0x48, 0x0)
    case 0x24 => Row(0x6A, 0x4A, 0x0)
    case 0x25 => Row(0x6B, 0x4B, 0x0)
    case 0x26 => Row(0x6C, 0x4C, 0x0)
    case 0x27 => Row(0x3B, 0x3A, 0x0)
    case 0x28 => Row(0x27, 0x22, 0x0)
    case 0x29 => Row(0x60, 0x7E, 0x0)
    case 0x2A => Row(0x108, 0x108, 0x0)
    case 0x2B => Row(0x5C, 0x7C, 0x0)
    case 0x2C => Row(0x7A, 0x5A, 0x0)
    case 0x2D => Row(0x78, 0x58, 0x0)
    case 0x2E => Row(0x63, 0x43, 0x0)
    case 0x2F => Row(0x76, 0x56, 0x0)
    case 0x30 => Row(0x62, 0x42, 0x0)
    case 0x31 => Row(0x6E, 0x4E, 0x0)
    case 0x32 => Row(0x6D, 0x4D, 0x0)
    case 0x33 => Row(0x2C, 0x3C, 0x0)
    case 0x34 => Row(0x2E, 0x3E, 0x0)
    case 0x35 => Row(0x2F, 0x3F, 0x12C)
    case 0x36 => Row(0x109, 0x109, 0x0)
    case 0x37 => Row(0x2A, 0x2A, 0x0)
    case 0x38 => Row(0x10C, 0x10C, 0x10D)
    case 0x39 => Row(0x20, 0x20, 0x0)
    case 0x3A => Row(0x10E, 0x10E, 0x0)
    case 0x3B => Row(0x111, 0x111, 0x0)
    case 0x3C => Row(0x112, 0x112, 0x0)
    case 0x3D => Row(0x113, 0x113, 0x0)
    case 0x3E => Row(0x114, 0x114, 0x0)
    case 0x3F => Row(0x115, 0x115, 0x0)
    case 0x40 => Row(0x116, 0x116, 0x0)
    case 0x41 => Row(0x117, 0x117, 0x0)
    case 0x42 => Row(0x118, 0x118, 0x0)
    case 0x43 => Row(0x119, 0x119, 0x0)
    case 0x44 => Row(0x11A, 0x11A, 0x0)
    case 0x45 => Row(0x10F, 0x10F, 0x0)
    case 0x46 => Row(0x110, 0x110, 0x0)
    case 0x47 => Row(0x139, 0x37, 0x121)
    case 0x48 => Row(0x13A, 0x38, 0x125)
    case 0x49 => Row(0x13B, 0x39, 0x123)
    case 0x4A => Row(0x12E, 0x2D, 0x0)
    case 0x4B => Row(0x136, 0x34, 0x127)
    case 0x4C => Row(0x137, 0x35, 0x0)
    case 0x4D => Row(0x138, 0x36, 0x128)
    case 0x4E => Row(0x12F, 0x2B, 0x0)
    case 0x4F => Row(0x133, 0x31, 0x122)
    case 0x50 => Row(0x134, 0x32, 0x126)
    case 0x51 => Row(0x135, 0x33, 0x124)
    case 0x52 => Row(0x132, 0x30, 0x11F)
    case 0x53 => Row(0x131, 0x2E, 0x120)
    case 0x57 => Row(0x11B, 0x11B, 0x0)
    case 0x58 => Row(0x11C, 0x11C, 0x0)
    case 0x5B => Row(0x0, 0x0, 0x105)
    case 0x5C => Row(0x0, 0x0, 0x106)
    case 0x5D => Row(0x0, 0x0, 0x107)
    case _ => Row(0, 0, 0)
  }

  function KeyAt(code: int, column: int): nat {
    var r := RowOf(code);
    if column == 2 then r.extended else if column == 1 then r.shifted else r.plain
  }

  /** Keys leave bits 9 and up free for the modifier flags. */
  lemma KeyRange(code: int, column: int)
    ensures 0 <= KeyAt(code, column) < 0x200
  {
  }

  /** A row of keys: its first scan code, what the keys type, and what they type with shift. */
  datatype KeyRow = KeyRow(first: int, plain: string, shifted: string)

  const DIGIT_ROW := KeyRow(0x02, "1234567890-=", "!@#$%^&*()_+")
  const TOP_ROW := KeyRow(0x10, "qwertyuiop[]", "QWERTYUIOP{}")
  const HOME_ROW := KeyRow(0x1E, "asdfghjkl;'`", "ASDFGHJKL:\"~")
  const BOTTOM_ROW := KeyRow(0x2B, "\\zxcvbnm,./", "|ZXCVBNM<>?")
  const SPACE_ROW := KeyRow(0x39, " ", " ")

  predicate IsRow(r: KeyRow) {
    r == DIGIT_ROW || r == TOP_ROW || r == HOME_ROW || r == BOTTOM_ROW || r == SPACE_ROW
  }

  /** The table has them so. */
  lemma RowKeys(r: KeyRow, k: int)
    requires IsRow(r) && 0 <= k < |r.plain|
    ensures |r.shifted| == |r.plain| && KeyAt(r.first + k, 0) == r.plain[k] as int
    ensures KeyAt(r.first + k, 1) == r.shifted[k] as int
  {
    if r == DIGIT_ROW {
      DigitKeys(k);
    } else if r == TOP_ROW {
      TopKeys(k);
    } else if r == HOME_ROW {
      HomeKeys(k);
    } else if r == BOTTOM_ROW {
      BottomKeys(k);
    }
  }

  lemma DigitKeys(k: int)
    requires 0 <= k < 12
    ensures KeyAt(0x02 + k, 0) == DIGIT_ROW.plain[k] as int && KeyAt(0x02 + k, 1) == DIGIT_ROW.shifted[k] as int
  {
  }

  lemma TopKeys(k: int)
    requires 0 <= k < 12
    ensures KeyAt(0x10 + k, 0) == TOP_ROW.plain[k] as int && KeyAt(0x10 + k, 1) == TOP_ROW.shifted[k] as int
  {
  }

  lemma HomeKeys(k: int)
    requires 0 <= k < 12
    ensures KeyAt(0x1E + k, 0) == HOME_ROW.plain[k] as int && KeyAt(0x1E + k, 1) == HOME_ROW.shifted[k] as int
  {
  }

  lemma BottomKeys(k: int)
    requires 0 <= k < 11
    ensures KeyAt(0x2B + k, 0) == BOTTOM_ROW.plain[k] as int && KeyAt(0x2B + k, 1) == BOTTOM_ROW.shifted[k] as int
  {
  }

  /** The keys that come after E0, with their codes: keypad enter and slash, the arrow block, the menu keys. */
  const AFTER_E0: seq<(int, int)> :=
    [(0x1C, 0x130), (0x35, 0x12C), (0x47, 0x121), (0x48, 0x125), (0x49, 0x123), (0x4B, 0x127), (0x4D, 0x128),
     (0x4F, 0x122), (0x50, 0x126), (0x51, 0x124), (0x52, 0x11F), (0x53, 0x120), (0x5B, 0x105), (0x5C, 0x106),
         (0x5D, 0x107)]

  lemma ExtendedKeys(k: int)
    requires 0 <= k < |AFTER_E0|
    ensures 0 <= AFTER_E0[k].0 < 0x80 && KeyAt(AFTER_E0[k].0, 2) == AFTER_E0[k].1
    ensures AFTER_E0[k].0 != 0x1D && AFTER_E0[k].0 != 0x2A && AFTER_E0[k].0 != 0x38
  {
    if k < 5 {
    } else if k < 10 {
    } else {
    }
  }

  /**
   * Keys that report one code of their own, with shift or without: Esc, Backspace, Tab, Enter, keypad star, the
   * locks, F11, F12.
   */
  const SINGLE: seq<(int, int)> :=
    [(0x01, 0x101), (0x0E, 0x104), (0x0F, 0x102), (0x1C, 0x103), (0x37, 0x2A), (0x3A, 0x10E), (0x45, 0x10F),
     (0x46, 0x110), (0x57, 0x11B), (0x58, 0x11C)]

  lemma SingleKeys(k: int)
    requires 0 <= k < |SINGLE|
    ensures var (code, key) := SINGLE[k];
            && 0 < code < 0x80 && code !in {0x1D, 0x2A, 0x36, 0x38}
            && KeyAt(code, 0) == key && KeyAt(code, 1) == key
  {
    if k < 5 {
    } else {
    }
  }

  lemma FunctionKeys(k: int)
    requires 0 <= k < 10
    ensures KeyAt(0x3B + k, 0) == 0x111 + k && KeyAt(0x3B + k, 1) == 0x111 + k
  {
  }

  /** The keypad, from scan code 0x47: keys of its own, and with shift the characters printed on it. */
  const KEYPAD: seq<int> := [0x139, 0x13A, 0x13B, 0x12E, 0x136, 0x137, 0x138, 0x12F, 0x133, 0x134, 0x135, 0x132, 0x131]
  const KEYPAD_SHIFTED := "789-456+1230."

  lemma KeypadKeys(k: int)
    requires 0 <= k < 13
    ensures KeyAt(0x47 + k, 0) == KEYPAD[k] && KeyAt(0x47 + k, 1) == KEYPAD_SHIFTED[k] as int
  {
    if k < 7 {
    } else {
    }
  }

  /** Which scan codes carry modifiers: the table has no others. */
  lemma ModifierKeys(code: int, column: int)
    ensures var k, e := KeyAt(code, column), column == 2;
            && (k == SHIFT_L <==> code == 0x2A && !e) && (k == SHIFT_R <==> code == 0x36 && !e)
            && (k == CTRL_L <==> code == 0x1D && !e) && (k == CTRL_R <==> code == 0x1D && e)
            && (k == ALT_L <==> code == 0x38 && !e) && (k == ALT_R <==> code == 0x38 && e)
  {
  }
}
