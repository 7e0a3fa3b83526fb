/**
 * Values shared by the scanner and the AST: source spans, token kinds, lexical states,
 * diagnostics, decoded literal text and the per-token semantic value.
 */
module Syntax {
  import opened Machine

  /** A region of the source: start offset and length in characters. */
  datatype Span = Span(start: int, length: int)

  /** `Span.Invalid`; the Span type itself is not part of this model, its invalid value is start -1, length 0. */
  const INVALID_SPAN: Span := Span(-1, 0)

  /** The token kinds the helper layer produces. */
  datatype Tokens =
    | END
    | EOF
    | T_LNUMBER
    | T_DNUMBER
    | T_NUM_STRING
    | T_STRING
    | T_VARIABLE
    | T_CONSTANT_ENCAPSED_STRING
    | T_ENCAPSED_AND_WHITESPACE
    | T_SINGLE_QUOTES
    | T_DOUBLE_QUOTES

  /**
   * Lexical states are the members of a generated C# enum; only their integer codes matter
   * (a code outside the enum, -1, stands for "no previous state"). The numbering of the
   * generated enum is not part of this model; the constants below fix one.
   */
  newtype LexicalState = x: int | -0x8000_0000 <= x < 0x8000_0000

  const INITIAL: LexicalState := 0
  const ST_IN_SCRIPTING: LexicalState := 1
  const ST_IN_STRING: LexicalState := 2
  const ST_IN_SHELL: LexicalState := 3
  const ST_IN_HEREDOC: LexicalState := 4
  const ST_END_HEREDOC: LexicalState := 5
  /** `(LexicalStates)(-1)`. */
  const NO_STATE: LexicalState := -1

  /** What the scanner reports through its error sink (the message formatting is not modelled). */
  datatype DiagnosticKind =
    | TooBigIntegerConversion(tokenText: string)
    | SyntaxError(message: string)

  datatype Diagnostic = Diagnostic(span: Span, kind: DiagnosticKind)

  const INCORRECT_HEREDOC_INDENTATION: string := "Incorrect heredoc indentation."

  /** A 0..255 value appended to a PHP string builder by `\x` and octal escapes. */
  newtype byte = x: int | 0 <= x < 256

  /** One item appended to the PHP string builder: a character, or a raw byte. */
  datatype Piece = Char(c: char) | Byte(b: byte)

  /**
   * Decoded literal text. `Plain` is the interned slice of the source buffer returned when
   * no builder was needed; `Built` is the content of the lazily created builder together
   * with the binary flag it was created with.
   */
  datatype Text = Plain(s: string) | Built(pieces: seq<Piece>, binary: bool)

  /** A piece as a character in the builder's string result (a byte b becomes the character with code b). */
  function PieceChar(p: Piece): char
  {
    match p
    case Char(c) => c
    case Byte(b) => b as int as char
  }

  function PiecesString(ps: seq<Piece>): (s: string)
    ensures |s| == |ps|
  {
    if ps == [] then [] else PiecesString(ps[..|ps| - 1]) + [PieceChar(ps[|ps| - 1])]
  }

  /** The characters of a string as builder pieces (`PhpStringBuilder.Append(string)` and `Append(char[], int, int)`). */
  function CharPieces(s: string): (ps: seq<Piece>)
    ensures |ps| == |s|
  {
    seq(|s|, k requires 0 <= k < |s| => Char(s[k]))
  }

  /** The `(string)` cast the scanner applies to a decoded literal. */
  function TextString(t: Text): string
  {
    match t
    case Plain(s) => s
    case Built(ps, _) => PiecesString(ps)
  }

  /** The object part of a token's semantic value. */
  datatype TokenObject =
    | NoObject
    | Str(s: string)
    | Literal(t: Text)
    | Pair(text: string, source: string)

  /** The fields of the generated `SemanticValueType` that the helper layer writes. */
  datatype SemanticValue = SemanticValue(longValue: int64, obj: TokenObject, quoteToken: Tokens)
}
