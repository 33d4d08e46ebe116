/** Constants and small value types shared by the whole model (types.go). */
module Types {
  const MINUTES := 10080       // slots of a ring file: 7 days of minutes
  const LIVE_SLOTS := 180      // 15 minutes at 5 s
  const MAX_SERIES := 48       // series per item
  const MAX_ITEMS := 256       // live items
  const MAX_FORGOTTEN := 256   // forgotten items kept
  const MAX_KEY_LEN := 63      // bytes of a series key
  const MAX_ITEM_LEN := 256    // bytes of an item name
  const STAMP_LIMIT := 0x1_0000_0000  // stamps are unsigned 32-bit

  datatype Option<+T> = None | Some(value: T)

  /** A 64-bit float of the source without its rounding: exact reals, infinities and NaN. */
  datatype Float = NaN | NegInf | PosInf | Fin(r: real)

  /** A stored float32 without its rounding; the NaN that marks a gap is a constructor of its own. */
  datatype Num = Absent | Val(r: real)

  /** What one minute holds for one series. */
  datatype MinuteValue = MinuteValue(avg: real, min: real, max: real)

  /** One minute of one series as a reader sees it: a gap, or a whole value. */
  type Cell = Option<MinuteValue>

  function Min(a: int, b: int): int {
    if a <= b then a else b
  }

  function Max(a: int, b: int): int {
    if a >= b then a else b
  }

  /** Integer division of the source: it truncates toward zero. */
  function TruncDiv(a: int, b: int): int
    requires b > 0
  {
    if a >= 0 then a / b else -(-a / b)
  }

  /** Remainder of the source: it has the sign of the dividend. */
  function TruncMod(a: int, b: int): int
    requires b > 0
  {
    a - b * TruncDiv(a, b)
  }

  function MinReal(a: real, b: real): real {
    if a <= b then a else b
  }

  function MaxReal(a: real, b: real): real {
    if a >= b then a else b
  }

  predicate Continuation(c: char) {
    0x80 as char <= c <= 0xBF as char
  }

  /** The bytes of s are well-formed UTF-8: no overlong form, no surrogate, nothing above U+10FFFF. */
  predicate ValidUtf8(s: string) {
    if s == "" then true
    else
      var b := s[0];
      if b < 0x80 as char then ValidUtf8(s[1..])
      else if 0xC2 as char <= b <= 0xDF as char then
        |s| >= 2 && Continuation(s[1]) && ValidUtf8(s[2..])
      else if 0xE0 as char <= b <= 0xEF as char then
        && |s| >= 3 && Continuation(s[1]) && Continuation(s[2])
        && (b == 0xE0 as char ==> s[1] >= 0xA0 as char)
        && (b == 0xED as char ==> s[1] <= 0x9F as char)
        && ValidUtf8(s[3..])
      else if 0xF0 as char <= b <= 0xF4 as char then
        && |s| >= 4 && Continuation(s[1]) && Continuation(s[2]) && Continuation(s[3])
        && (b == 0xF0 as char ==> s[1] >= 0x90 as char)
        && (b == 0xF4 as char ==> s[1] <= 0x8F as char)
        && ValidUtf8(s[4..])
      else false
  }
}
