/** Escape sequences in text typed by users: the printer of keys, and reading one sequence back. */
module Escapes {

  import opened ByteStrings
  import opened Options

  const SPACE: Byte := 0x20
  const QUOTE: Byte := 0x22
  const SEMICOLON: Byte := 0x3b
  const BACKSLASH: Byte := 0x5c
  const LETTER_X: Byte := 0x78

  /** A digit in lower or upper case. */
  function HexDigit(n: nat, upper: bool): Byte
    requires n < 16
  {
    if n < 10 then 0x30 + n else if upper then 0x41 + n - 10 else 0x61 + n - 10
  }

  /** The value of a digit in either case. */
  function HexValue(c: Byte): (r: Option<nat>)
    ensures r.Some? ==> r.value < 16
  {
    if 0x30 <= c <= 0x39 then Some(c - 0x30)
    else if 0x61 <= c <= 0x66 then Some(c - 0x61 + 10)
    else if 0x41 <= c <= 0x46 then Some(c - 0x41 + 10)
    else None
  }

  predicate IsSpace(c: Byte) {
    c == SPACE || 0x09 <= c <= 0x0d
  }

  /**
   * What the C function for unsigned numbers makes of two characters in base 16, if it reads all of them up to a
   * terminating zero, with the result cut to a byte: leading white space and a sign are allowed, and so is no
   * character at all.
   */
  function HexPair(c: Byte, d: Byte): (r: Option<Byte>) {
    if c == 0 then Some(0)
    else match (HexValue(c), HexValue(d))
    case (Some(m), Some(n)) => Some(16 * m + n)
    case (Some(m), None) => if d == 0 then Some(m) else None
    case (None, Some(n)) =>
      if IsSpace(c) || c == 0x2b then Some(n)
      else if c == 0x2d then Some((256 - n) % 256)
      else None
    case (None, None) => None
  }

  // ---------- The C function ----------

  function SpaceCount(s: Bytes): (n: nat)
    ensures n <= |s|
  {
    if s != [] && IsSpace(s[0]) then 1 + SpaceCount(s[1..]) else 0
  }

  function DigitCount(s: Bytes): (n: nat)
    ensures n <= |s| && forall i :: 0 <= i < n ==> HexValue(s[i]).Some?
  {
    if s != [] && HexValue(s[0]).Some? then 1 + DigitCount(s[1..]) else 0
  }

  function Number(digits: Bytes): nat
    requires forall i :: 0 <= i < |digits| ==> HexValue(digits[i]).Some?
  {
    if digits == [] then 0 else
      var last := |digits| - 1;
      16 * Number(digits[..last]) + HexValue(digits[last]).value
  }

  /** The digits from `k` on: their number, and the position after them. */
  function DigitsAt(s: Bytes, k: nat): (r: Option<(nat, nat)>)
    requires k <= |s|
    ensures r.Some? ==> k < r.value.1 <= |s|
  {
    var rest := s[k..];
    var n := DigitCount(rest);
    if n == 0 then None else Some((Number(rest[..n]), k + n))
  }

  predicate IsSign(c: Byte) {
    c == 0x2b || c == 0x2d
  }

  /** A prefix `0x`, before a digit. */
  predicate IsPrefix(s: Bytes, j: nat) {
    j + 2 < |s| && s[j] == 0x30 && (s[j + 1] == 0x78 || s[j + 1] == 0x58) && HexValue(s[j + 2]).Some?
  }

  /**
   * The number at the start of a text in base 16, cut to a byte, and the position after it: white space, a sign, a
   * prefix and digits.  Without digits the number is 0 and the position that of the text.
   */
  function ReadNumber(s: Bytes): (Byte, nat) {
    var i := SpaceCount(s);
    var j := if i < |s| && IsSign(s[i]) then i + 1 else i;
    match DigitsAt(s, if IsPrefix(s, j) then j + 2 else j)
    case None => (0, 0)
    case Some((v, end)) => (if j > i && s[i] == 0x2d then (0 - v) % 256 else v % 256, end)
  }

  /** Two characters are accepted exactly if the number read from them ends at a zero byte. */
  lemma HexPairReads(c: Byte, d: Byte)
    ensures var s := [c, d, 0];
            var (v, end) := ReadNumber(s);
            HexPair(c, d) == if end < 3 && s[end] == 0 then Some(v) else None
  {
    hide DigitsAt, SpaceCount;
    var s := [c, d, 0];
    SpacesOfPair(c, d);
    DigitsOfPair(c, d);
    assert !IsPrefix(s, 0) && !IsPrefix(s, 1) && !IsPrefix(s, 2);
  }

  lemma SpacesOfPair(c: Byte, d: Byte)
    ensures SpaceCount([c, d, 0]) == if !IsSpace(c) then 0 else if !IsSpace(d) then 1 else 2
  {
    assert [c, d, 0][1..] == [d, 0] && [d, 0][1..] == [0];
    assert SpaceCount([0]) == 0;
    assert SpaceCount([d, 0]) == if IsSpace(d) then 1 else 0;
  }

  lemma DigitsOfPair(c: Byte, d: Byte)
    ensures var s := [c, d, 0];
            && DigitsAt(s, 2) == None
            && DigitsAt(s, 1) == (if HexValue(d).Some? then Some((HexValue(d).value, 2)) else None)
            && DigitsAt(s, 0) == if HexValue(c).None? then None
                                 else if HexValue(d).None? then Some((HexValue(c).value, 1))
                                 else Some((16 * HexValue(c).value + HexValue(d).value, 2))
  {
    var s := [c, d, 0];
    assert s[0..] == s && s[1..] == [d, 0] && s[2..] == [0] && [d, 0][1..] == [0];
    assert DigitCount([0]) == 0;
    hide HexValue, Number;
    assert s[..1] == [c] && s[..2] == [c, d] && [d, 0][..1] == [d];
    NumberOfOne(c);
    NumberOfOne(d);
    NumberOfTwo(c, d);
  }

  lemma NumberOfOne(c: Byte)
    ensures HexValue(c).Some? ==> Number([c]) == HexValue(c).value
  {
    if HexValue(c).Some? { assert [c][..0] == [] && Number([]) == 0; }
  }

  lemma NumberOfTwo(c: Byte, d: Byte)
    ensures HexValue(c).Some? && HexValue(d).Some? ==> Number([c, d]) == 16 * HexValue(c).value + HexValue(d).value
  {
    if HexValue(c).Some? && HexValue(d).Some? {
      assert [c, d][..1] == [c];
      NumberOfOne(c);
    }
  }

  // ---------- Escape sequences ----------

  /** An escape sequence at the start of `rest`: the byte it stands for and its length. */
  function Escape(rest: Bytes): (r: Option<(Byte, nat)>)
    requires rest != [] && rest[0] == BACKSLASH
    ensures r.Some? ==> 2 <= r.value.1 <= |rest|
  {
    if |rest| < 2 then None
    else if rest[1] == QUOTE || rest[1] == BACKSLASH || rest[1] == SPACE || rest[1] == SEMICOLON then Some((rest[1], 2))
    else if rest[1] != LETTER_X || |rest| < 4 then None
    else match HexPair(rest[2], rest[3])
      case None => None
      case Some(b) => Some((b, 4))
  }

  /** The ways to write a byte: as it is, behind a backslash, or as two characters of a number. */
  datatype Form = Plain | Backslashed | Hexed(first: Byte, second: Byte)

  function SpellByte(b: Byte, form: Form): (r: Bytes)
    ensures r != []
  {
    match form
    case Plain => [b]
    case Backslashed => [BACKSLASH, b]
    case Hexed(first, second) => [BACKSLASH, LETTER_X, first, second]
  }

  /** An escape sequence may stand for the byte. */
  predicate StandsFor(form: Form, b: Byte) {
    match form
    case Plain => false
    case Backslashed => b == QUOTE || b == BACKSLASH || b == SPACE || b == SEMICOLON
    case Hexed(first, second) => HexPair(first, second) == Some(b)
  }

  function Spell(s: Bytes, forms: seq<Form>): Bytes
    requires |forms| == |s|
  {
    if s == [] then [] else SpellByte(s[0], forms[0]) + Spell(s[1..], forms[1..])
  }

  /** A byte written as an escape sequence is read back, whatever follows it. */
  lemma EscapeOfSpelled(b: Byte, form: Form, rest: Bytes)
    requires StandsFor(form, b)
    ensures Escape(SpellByte(b, form) + rest) == Some((b, |SpellByte(b, form)|))
    ensures (SpellByte(b, form) + rest)[|SpellByte(b, form)|..] == rest
  {
    var text := SpellByte(b, form) + rest;
    if form.Hexed? { assert text[1] == LETTER_X && text[2] == form.first && text[3] == form.second; }
  }

  /** What is read is written in some way. */
  lemma SpelledByEscape(text: Bytes) returns (form: Form)
    requires text != [] && text[0] == BACKSLASH && Escape(text).Some?
    ensures var (b, n) := Escape(text).value; StandsFor(form, b) && n <= |text| && text == SpellByte(b, form) + text[n..]
  {
    form := if text[1] == LETTER_X then Hexed(text[2], text[3]) else Backslashed;
  }

  /** The digits of a byte, each in either case, stand for it. */
  lemma DigitsStandFor(b: Byte, upperFirst: bool, upperSecond: bool)
    ensures StandsFor(Hexed(HexDigit(b / 16, upperFirst), HexDigit(b % 16, upperSecond)), b)
  {
  }

  function HexByte(b: Byte): (r: Bytes) {
    [BACKSLASH, LETTER_X, HexDigit(b / 16, false), HexDigit(b % 16, false)]
  }

  /** `toHex`: every byte as a backslash, an x and two digits. */
  function ToHex(s: Bytes): (r: Bytes)
    ensures |r| == 4 * |s|
  {
    if s == [] then [] else HexByte(s[0]) + ToHex(s[1..])
  }

  /** A printed byte is read back, whatever follows it. */
  lemma EscapeOfHexByte(b: Byte, rest: Bytes)
    ensures Escape(HexByte(b) + rest) == Some((b, 4))
    ensures (HexByte(b) + rest)[4..] == rest
  {
    DigitsStandFor(b, false, false);
    EscapeOfSpelled(b, Hexed(HexDigit(b / 16, false), HexDigit(b % 16, false)), rest);
  }
}
