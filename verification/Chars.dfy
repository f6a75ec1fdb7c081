/** C's plain `char` on the platforms the server targets: a signed byte, widened to `int` when it is read. */
module Chars {
  type Char = c: int | -128 <= c < 128

  datatype Option<T> = None | Some(value: T)

  const NUL := 0
  const HT := 9
  const LF := 10
  const CR := 13
  const SP := 32
  const COLON := 58

  /** The end-of-input marker of the request parser. It is a value a buffer byte can have. */
  const H_EOF := -1

  predicate IsBlank(c: int) { c == SP || c == HT }
  predicate IsDigit(c: int) { '0' as int <= c <= '9' as int }
  predicate IsLower(c: int) { 'a' as int <= c <= 'z' as int }
  predicate IsUpper(c: int) { 'A' as int <= c <= 'Z' as int }

  function Lower(c: int): int { if IsUpper(c) then c + 32 else c }

  /** The byte value of a char, as an unsigned number. */
  function Byte(c: Char): nat { if c < 0 then c + 256 else c }

  /** Conversion of a byte value to `char`. */
  function ToChar(b: int): Char { if b % 256 < 128 then b % 256 else b % 256 - 256 }

  /** A line end: CR LF, or a lone LF. */
  function Eol(lf: bool): seq<Char> { if lf then [LF] else [CR, LF] }

  predicate IsHex(c: int) { IsDigit(c) || 'a' as int <= c <= 'f' as int || 'A' as int <= c <= 'F' as int }

  predicate OneOf(c: int, bytes: string) { 0 <= c < 128 && (c as char) in bytes }

  const HEX_BYTES := "0123456789abcdefABCDEF"

  /** The hex digits are these bytes and no others. */
  lemma HexBytes(c: Char)
    ensures OneOf(c, HEX_BYTES) <==> IsHex(c)
  {
  }

  function LowerHex(n: nat): Char
    requires n < 16
  {
    if n < 10 then '0' as int + n else 'a' as int + n - 10
  }
}
