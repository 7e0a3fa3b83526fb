/**
 * Escape decoding in PHP string literals: the two escape handlers the scanner passes to
 * `ProcessStringText` (single-quoted and double-quoted), the `\u` code point reader, and
 * a recursive statement of what the decoding loop of `ProcessStringText` produces.
 *
 * A handler is called on the character right after a backslash. It either consumes a
 * sequence and appends pieces to the builder (`Handled`, with the index of the last
 * character it consumed), declines (`Unhandled`, the C# `-1`), or reads past the end of
 * the buffer, which raises in C# (`OutOfRange`).
 */
module Escapes {
  import opened Machine
  import opened Chars
  import opened Syntax

  /** Which `ProcessStringDelegate` a literal is decoded with. */
  datatype EscapeHandler = SingleQuoted | DoubleQuoted

  /** What the double-quoted handler reads from the scanner: the current lexical state and `EnableUtfCodepoints`. */
  datatype EscapeContext = EscapeContext(state: LexicalState, utfCodepoints: bool)

  datatype Escape =
    | Handled(last: int, out: seq<Piece>)
    | Unhandled
    | OutOfRange

  /** `_processSingleQuotedString`: only `\\` and `\'` are escapes. */
  function SingleQuotedEscape(buf: seq<char>, pos: int): (e: Escape)
    requires 0 <= pos < |buf|
    ensures e.Handled? ==> e.last == pos
  {
    var c := buf[pos];
    if c == '\\' || c == '\'' then Handled(pos, [Char(c)]) else Unhandled
  }

  /** The one-character escapes of double-quoted strings and what each stands for. */
  const SIMPLE_ESCAPES: map<char, char> :=
    map['n' := '\n', 'r' := '\r', 't' := '\t', 'v' := 11 as char, 'e' := 0x1B as char,
        'f' := 12 as char, '\\' := '\\', '$' := '$', '"' := '"']

  /** `_processDoubleQuotedString`. */
  function DoubleQuotedEscape(buf: seq<char>, pos: int, ctx: EscapeContext): (e: Escape)
    requires 0 <= pos < |buf|
    ensures e.Handled? ==> e.last >= pos
  {
    match buf[pos]
    case 'n' => Handled(pos, [Char('\n')])
    case 'r' => Handled(pos, [Char('\r')])
    case 't' => Handled(pos, [Char('\t')])
    case 'v' => Handled(pos, [Char(11 as char)])
    case 'e' => Handled(pos, [Char(0x1B as char)])
    case 'f' => Handled(pos, [Char(12 as char)])
    case '\\' => Handled(pos, [Char('\\')])
    case '$' => Handled(pos, [Char('$')])
    case '"' => Handled(pos, [Char('"')])
    case '`' => if ctx.state == ST_IN_SHELL then Handled(pos, [Char('`')]) else Unhandled
    case 'u' => if ctx.utfCodepoints then UnicodeEscape(buf, pos + 1) else Unhandled
    case 'x' => HexEscape(buf, pos)
    case _ => OctalEscape(buf, pos)
  }

  /** `\x[0-9A-Fa-f]{1,2}`; `pos` is the index of the 'x'. The second digit is consumed only if it is hexadecimal. */
  function HexEscape(buf: seq<char>, pos: int): (e: Escape)
    requires 0 <= pos < |buf|
    ensures e.Handled? ==> pos + 1 <= e.last <= pos + 2
  {
    if pos + 1 >= |buf| then OutOfRange
    else
      var d1 := AlphaNumericToDigit(buf[pos + 1]);
      if d1 >= 16 then Unhandled
      else if pos + 2 >= |buf| then OutOfRange
      else
        var d2 := AlphaNumericToDigit(buf[pos + 2]);
        if d2 < 16 then Handled(pos + 2, [Byte((d1 * 16 + d2) as byte)])
        else Handled(pos + 1, [Byte(d1 as byte)])
  }

  /** `\[0-7]{1,3}`; `pos` is the index of the first digit. The `(byte)` cast keeps the code modulo 256. */
  function OctalEscape(buf: seq<char>, pos: int): (e: Escape)
    requires 0 <= pos < |buf|
    ensures e.Handled? ==> pos <= e.last <= pos + 2
  {
    var d1 := NumericToDigit(buf[pos]);
    if d1 >= 8 then Unhandled
    else if pos + 1 >= |buf| then OutOfRange
    else
      var d2 := NumericToDigit(buf[pos + 1]);
      if d2 >= 8 then Handled(pos, [Byte(d1 as byte)])
      else if pos + 2 >= |buf| then OutOfRange
      else
        var d3 := NumericToDigit(buf[pos + 2]);
        if d3 >= 8 then Handled(pos + 1, [Byte((d1 * 8 + d2) as byte)])
        else Handled(pos + 2, [Byte(((d1 * 64 + d2 * 8 + d3) % 256) as byte)])
  }

  /**
   * The loop of `ParseCodePoint` from index `pos` with `maxLength` digits still allowed:
   * the code point reached and the index after the last digit. Digits are recognised with
   * `NumericToDigit`, so only '0'-'9' qualify, and each step computes `code_point << 4 + digit`,
   * which C# parses as a shift by `4 + digit`.
   */
  function CodePointScan(buf: seq<char>, pos: int, maxLength: int, cp: int32): (r: Outcome<(int32, int)>)
    requires 0 <= pos
    ensures r.Done? ==> pos <= r.value.1 <= pos + (if maxLength < 0 then 0 else maxLength)
    ensures r.Done? && cp == 0 ==> r.value.0 == 0
    decreases maxLength
  {
    if maxLength <= 0 then Done((cp, pos))
    else if pos >= |buf| then IndexOutOfRange
    else if NumericToDigit(buf[pos]) >= 16 then Done((cp, pos))
    else CodePointScan(buf, pos + 1, maxLength - 1, Shl32(cp, 4 + NumericToDigit(buf[pos])))
  }

  /** The text `ParseCodePoint` returns for a code point: "?" outside the Unicode scalar values. */
  function CodePointText(cp: int32): (s: string)
    ensures |s| == 1
  {
    if cp < 0 || cp > 0x10ffff || (0xd800 <= cp <= 0xdfff) then "?" else [cp as int as char]
  }

  /** `\u` as the double-quoted handler processes it; `pos` is the index after the 'u'. */
  function UnicodeEscape(buf: seq<char>, pos: int): (e: Escape)
    requires 1 <= pos
    ensures e.Handled? ==> e.last >= pos - 1
  {
    match CodePointScan(buf, pos, 4, 0)
    case IndexOutOfRange => OutOfRange
    case Done((cp, q)) => Handled(q - 1, CharPieces(CodePointText(cp)))
  }

  /**
   * `ParseCodePoint(buffer, ref pos, maxLength)`: returns the text and the new position.
   * Because `code_point` starts at 0 and is only ever shifted, it stays 0, so the text is
   * always the single character U+0000.
   */
  method ParseCodePoint(buffer: array<char>, pos: int, maxLength: int) returns (r: Outcome<(string, int)>)
    requires 0 <= pos
    ensures r == (match CodePointScan(buffer[..], pos, maxLength, 0)
                  case IndexOutOfRange => IndexOutOfRange
                  case Done((cp, q)) => Done((CodePointText(cp), q)))
    ensures r.Done? ==> r.value.0 == [0 as char]
  {
    var codePoint: int32 := 0;
    var p := pos;
    var remaining := maxLength;
    while remaining > 0
      invariant pos <= p
      invariant codePoint == 0
      invariant CodePointScan(buffer[..], p, remaining, codePoint) == CodePointScan(buffer[..], pos, maxLength, 0)
      decreases remaining
    {
      if p >= buffer.Length {
        return IndexOutOfRange;
      }
      var digit := NumericToDigit(buffer[p]);
      if digit >= 16 {
        break;
      }
      codePoint := Shl32(codePoint, 4 + digit);
      p := p + 1;
      remaining := remaining - 1;
    }
    r := Done((CodePointText(codePoint), p));
  }

  /** The handler `ProcessStringText` was given, applied at `pos`. */
  function Handle(h: EscapeHandler, buf: seq<char>, pos: int, ctx: EscapeContext): (e: Escape)
    requires 0 <= pos < |buf|
    ensures e.Handled? ==> e.last >= pos
  {
    match h
    case SingleQuoted => SingleQuotedEscape(buf, pos)
    case DoubleQuoted => DoubleQuotedEscape(buf, pos, ctx)
  }

  function Prepend(ps: seq<Piece>, o: Outcome<seq<Piece>>): Outcome<seq<Piece>>
  {
    match o
    case Done(rest) => Done(ps + rest)
    case IndexOutOfRange => IndexOutOfRange
  }

  /**
   * What the `for` loop of `ProcessStringText` appends to the builder from index `i` on.
   * A backslash with a successor inside the literal is offered to the handler; when the
   * handler declines, the backslash is copied and the next character is processed normally.
   * The handler reads the whole buffer, so a sequence may run past `to`.
   */
  function UnescapeFrom(buf: seq<char>, i: int, end: int, h: EscapeHandler, ctx: EscapeContext): Outcome<seq<Piece>>
    requires 0 <= i && end <= |buf|
    decreases end - i
  {
    if i >= end then Done([])
    else if buf[i] == '\\' && i + 1 < end then
      match Handle(h, buf, i + 1, ctx)
      case Handled(last, out) => Prepend(out, UnescapeFrom(buf, last + 1, end, h, ctx))
      case Unhandled => Prepend([Char('\\')], UnescapeFrom(buf, i + 1, end, h, ctx))
      case OutOfRange => IndexOutOfRange
    else Prepend([Char(buf[i])], UnescapeFrom(buf, i + 1, end, h, ctx))
  }

  /** Index of the first backslash in buf[i..to], or `to` when there is none. */
  function FirstBackslash(buf: seq<char>, i: int, end: int): (j: int)
    requires 0 <= i <= end <= |buf|
    ensures i <= j <= end
    ensures j < end ==> buf[j] == '\\'
    decreases end - i
  {
    if i == end || buf[i] == '\\' then i else FirstBackslash(buf, i + 1, end)
  }

  /** No backslash precedes the one `FirstBackslash` finds. */
  lemma {:induction false} FirstBackslashIsFirst(buf: seq<char>, i: int, end: int)
    requires 0 <= i <= end <= |buf|
    ensures forall k :: i <= k < FirstBackslash(buf, i, end) ==> buf[k] != '\\'
    decreases end - i
  {
    if i < end && buf[i] != '\\' {
      FirstBackslashIsFirst(buf, i + 1, end);
    }
  }

  /**
   * `ProcessStringText(buffer, start, length, tryprocess, binary)`. An empty literal is "";
   * a literal with no backslash that has a successor inside it is returned as the slice
   * itself; otherwise the builder is created at the first backslash with the characters
   * before it and the loop continues from there.
   */
  function StringText(buf: seq<char>, start: int, length: int, h: EscapeHandler, ctx: EscapeContext, binary: bool): Outcome<Text>
    requires 0 <= start && 0 <= length && start + length <= |buf|
  {
    if length == 0 then Done(Plain(""))
    else
      var end := start + length;
      var b := FirstBackslash(buf, start, end);
      if b + 1 < end then
        match UnescapeFrom(buf, b, end, h, ctx)
        case Done(ps) => Done(Built(CharPieces(buf[start..b]) + ps, binary))
        case IndexOutOfRange => IndexOutOfRange
      else Done(Plain(buf[start..end]))
  }

  // ----- properties of the handlers -----

  /** The single-quoted handler accepts exactly `\\` and `\'` and copies the escaped character. */
  lemma SingleQuotedEscapes(buf: seq<char>, pos: int)
    requires 0 <= pos < |buf|
    ensures SingleQuotedEscape(buf, pos).Handled? <==> (buf[pos] == '\\' || buf[pos] == '\'')
    ensures SingleQuotedEscape(buf, pos).Handled? ==> SingleQuotedEscape(buf, pos) == Handled(pos, [Char(buf[pos])])
    ensures !SingleQuotedEscape(buf, pos).OutOfRange?
  {
  }

  /** Every one-character escape consumes only its letter and appends the character the table gives. */
  lemma DoubleQuotedSimpleEscapes(buf: seq<char>, pos: int, ctx: EscapeContext)
    requires 0 <= pos < |buf| && buf[pos] in SIMPLE_ESCAPES
    ensures DoubleQuotedEscape(buf, pos, ctx) == Handled(pos, [Char(SIMPLE_ESCAPES[buf[pos]])])
  {
  }

  /** A backtick is an escape only while the scanner is inside a shell command. */
  lemma BacktickEscape(buf: seq<char>, pos: int, ctx: EscapeContext)
    requires 0 <= pos < |buf| && buf[pos] == '`'
    ensures DoubleQuotedEscape(buf, pos, ctx).Handled? <==> ctx.state == ST_IN_SHELL
  {
  }

  /** A hexadecimal digit character for a value below 16. */
  function HexDigit(n: int): (c: char)
    requires 0 <= n < 16
    ensures AlphaNumericToDigit(c) == n
  {
    if n < 10 then ('0' as int + n) as char else ('a' as int + n - 10) as char
  }

  /** An octal digit character for a value below 8. */
  function OctalDigit(n: int): (c: char)
    requires 0 <= n < 8
    ensures NumericToDigit(c) == n
  {
    ('0' as int + n) as char
  }

  /** Round trip: `\x` followed by the two hex digits of any byte decodes to that byte and consumes both digits. */
  lemma HexEscapeRoundTrip(buf: seq<char>, pos: int, v: byte, ctx: EscapeContext)
    requires 0 <= pos && pos + 2 < |buf| && buf[pos] == 'x'
    requires buf[pos + 1] == HexDigit(v as int / 16) && buf[pos + 2] == HexDigit(v as int % 16)
    ensures DoubleQuotedEscape(buf, pos, ctx) == Handled(pos + 2, [Byte(v)])
  {
    assert HexEscape(buf, pos) == Handled(pos + 2, [Byte(v)]);
  }

  /** A single hex digit followed by a non-hex character is consumed alone and rolled back from the follower. */
  lemma HexEscapeOneDigit(buf: seq<char>, pos: int, ctx: EscapeContext)
    requires 0 <= pos && pos + 2 < |buf| && buf[pos] == 'x'
    requires AlphaNumericToDigit(buf[pos + 1]) < 16 && AlphaNumericToDigit(buf[pos + 2]) >= 16
    ensures DoubleQuotedEscape(buf, pos, ctx) == Handled(pos + 1, [Byte(AlphaNumericToDigit(buf[pos + 1]) as byte)])
  {
    assert HexEscape(buf, pos) == Handled(pos + 1, [Byte(AlphaNumericToDigit(buf[pos + 1]) as byte)]);
  }

  /** `\x` not followed by a hex digit is not an escape (there is no fall back to octal). */
  lemma HexEscapeWithoutDigit(buf: seq<char>, pos: int, ctx: EscapeContext)
    requires 0 <= pos && pos + 1 < |buf| && buf[pos] == 'x' && AlphaNumericToDigit(buf[pos + 1]) >= 16
    ensures DoubleQuotedEscape(buf, pos, ctx) == Unhandled
  {
    assert HexEscape(buf, pos) == Unhandled;
  }

  /** Round trip: the three octal digits of any byte decode to that byte. */
  lemma OctalEscapeRoundTrip(buf: seq<char>, pos: int, v: byte, ctx: EscapeContext)
    requires 0 <= pos && pos + 2 < |buf|
    requires buf[pos] == OctalDigit(v as int / 64) && buf[pos + 1] == OctalDigit(v as int / 8 % 8)
    requires buf[pos + 2] == OctalDigit(v as int % 8)
    ensures DoubleQuotedEscape(buf, pos, ctx) == Handled(pos + 2, [Byte(v)])
  {
    var d1, d2, d3 := v as int / 64, v as int / 8 % 8, v as int % 8;
    assert d1 * 64 + d2 * 8 + d3 == v as int;
    assert buf[pos] != 'x' && buf[pos] != 'u' && buf[pos] !in SIMPLE_ESCAPES && buf[pos] != '`';
    assert OctalEscape(buf, pos) == Handled(pos + 2, [Byte(v)]);
  }

  /** One or two octal digits followed by a non-octal character: the follower is rolled back. */
  lemma OctalEscapeShort(buf: seq<char>, pos: int, ctx: EscapeContext)
    requires 0 <= pos && pos + 2 < |buf|
    requires NumericToDigit(buf[pos]) < 8
    ensures NumericToDigit(buf[pos + 1]) >= 8 ==>
      DoubleQuotedEscape(buf, pos, ctx) == Handled(pos, [Byte(NumericToDigit(buf[pos]) as byte)])
    ensures NumericToDigit(buf[pos + 1]) < 8 && NumericToDigit(buf[pos + 2]) >= 8 ==>
      DoubleQuotedEscape(buf, pos, ctx)
      == Handled(pos + 1, [Byte((NumericToDigit(buf[pos]) * 8 + NumericToDigit(buf[pos + 1])) as byte)])
  {
    assert buf[pos] != 'x' && buf[pos] != 'u' && buf[pos] !in SIMPLE_ESCAPES && buf[pos] != '`';
  }

  /** Octal codes above 255 are truncated by the `(byte)` cast: `\777` is the byte 255. */
  lemma OctalEscapeTruncates(buf: seq<char>, pos: int, ctx: EscapeContext)
    requires 0 <= pos && pos + 2 < |buf| && buf[pos] == '7' && buf[pos + 1] == '7' && buf[pos + 2] == '7'
    ensures DoubleQuotedEscape(buf, pos, ctx) == Handled(pos + 2, [Byte(255)])
  {
    assert OctalEscape(buf, pos) == Handled(pos + 2, [Byte(255)]);
  }

  /** Characters that are neither escape letters nor octal digits are not escapes. */
  lemma DoubleQuotedUnknownEscape(buf: seq<char>, pos: int, ctx: EscapeContext)
    requires 0 <= pos < |buf|
    requires buf[pos] !in SIMPLE_ESCAPES && buf[pos] != '`' && buf[pos] != 'u' && buf[pos] != 'x'
    requires !('0' <= buf[pos] <= '7')
    ensures DoubleQuotedEscape(buf, pos, ctx) == Unhandled
  {
  }

  /** `\u41` with code points enabled: both digits are consumed and the result is U+0000, not 'A'. */
  lemma UnicodeEscapeExample(buf: seq<char>, pos: int, ctx: EscapeContext)
    requires 0 <= pos && pos + 3 < |buf| && ctx.utfCodepoints
    requires buf[pos] == 'u' && buf[pos + 1] == '4' && buf[pos + 2] == '1' && buf[pos + 3] == '"'
    ensures DoubleQuotedEscape(buf, pos, ctx) == Handled(pos + 2, [Char(0 as char)])
  {
    var c3 := CodePointScan(buf, pos + 3, 2, 0);
    assert NumericToDigit(buf[pos + 3]) >= 16;
    assert c3 == Done((0, pos + 3));
    var c2 := CodePointScan(buf, pos + 2, 3, 0);
    assert Shl32(0, 5) == 0;
    assert c2 == c3;
    var c1 := CodePointScan(buf, pos + 1, 4, 0);
    assert Shl32(0, 8) == 0;
    assert c1 == c2;
    assert UnicodeEscape(buf, pos + 1) == Handled(pos + 2, CharPieces(CodePointText(0)));
    assert CodePointText(0) == [0 as char];
  }

  // ----- properties of the decoding loop -----

  /** Each character of the builder's string is the character of the piece at that position. */
  lemma {:induction false} PiecesStringAt(ps: seq<Piece>)
    ensures forall k :: 0 <= k < |ps| ==> PiecesString(ps)[k] == PieceChar(ps[k])
  {
    if ps != [] {
      PiecesStringAt(ps[..|ps| - 1]);
    }
  }

  lemma PiecesOfChars(s: string)
    ensures PiecesString(CharPieces(s)) == s
  {
    PiecesStringAt(CharPieces(s));
  }

  lemma PiecesStringAppend(a: seq<Piece>, b: seq<Piece>)
    ensures PiecesString(a + b) == PiecesString(a) + PiecesString(b)
  {
    PiecesStringAt(a + b);
    PiecesStringAt(a);
    PiecesStringAt(b);
    var l, r := PiecesString(a + b), PiecesString(a) + PiecesString(b);
    assert |l| == |r|;
    forall k | 0 <= k < |l| ensures l[k] == r[k] {
      if k < |a| {
        assert (a + b)[k] == a[k];
      } else {
        assert (a + b)[k] == b[k - |a|];
      }
    }
  }

  /**
   * `ProcessStringText` returns the slice itself exactly when no backslash of the literal is
   * followed by another character of the literal (an empty literal gives "").
   */
  lemma StringTextVerbatim(buf: seq<char>, start: int, length: int, h: EscapeHandler, ctx: EscapeContext, binary: bool)
    requires 0 <= start && 0 < length && start + length <= |buf|
    ensures StringText(buf, start, length, h, ctx, binary) == Done(Plain(buf[start..start + length]))
        <==> forall k :: start <= k < start + length - 1 ==> buf[k] != '\\'
  {
    var end := start + length;
    var b := FirstBackslash(buf, start, end);
    FirstBackslashIsFirst(buf, start, end);
    if b + 1 < end {
      assert buf[b] == '\\';
      var r := StringText(buf, start, length, h, ctx, binary);
      assert r.Done? ==> r.value.Built?;
    }
  }

  /** PHP's single-quoted string semantics as a reference: `\\` and `\'` stand for the escaped character, nothing else is special. */
  function SingleQuotedDecode(s: string): string
    decreases |s|
  {
    if |s| == 0 then ""
    else if |s| >= 2 && s[0] == '\\' && (s[1] == '\\' || s[1] == '\'') then [s[1]] + SingleQuotedDecode(s[2..])
    else [s[0]] + SingleQuotedDecode(s[1..])
  }

  lemma {:induction false} UnescapeSingleQuoted(buf: seq<char>, i: int, end: int, ctx: EscapeContext)
    requires 0 <= i <= end <= |buf|
    ensures UnescapeFrom(buf, i, end, SingleQuoted, ctx) == Done(CharPieces(SingleQuotedDecode(buf[i..end])))
    decreases end - i
  {
    var s := buf[i..end];
    if i < end {
      assert s[0] == buf[i];
      if buf[i] == '\\' && i + 1 < end && (buf[i + 1] == '\\' || buf[i + 1] == '\'') {
        UnescapeSingleQuoted(buf, i + 2, end, ctx);
        assert SingleQuotedDecode(s) == [buf[i + 1]] + SingleQuotedDecode(buf[i + 2..end]) by {
          assert s[1] == buf[i + 1] && s[2..] == buf[i + 2..end];
        }
        CharPiecesCons(buf[i + 1], SingleQuotedDecode(buf[i + 2..end]));
      } else {
        UnescapeSingleQuoted(buf, i + 1, end, ctx);
        assert SingleQuotedDecode(s) == [buf[i]] + SingleQuotedDecode(buf[i + 1..end]) by {
          assert s[1..] == buf[i + 1..end];
        }
        CharPiecesCons(buf[i], SingleQuotedDecode(buf[i + 1..end]));
      }
    }
  }

  lemma CharPiecesCons(c: char, t: string)
    ensures CharPieces([c] + t) == [Char(c)] + CharPieces(t)
  {
    assert CharPieces([c] + t)[1..] == CharPieces(t);
  }

  /** Characters before the first backslash pass through the reference decoding unchanged. */
  lemma {:induction false} SingleQuotedDecodePrefix(s: string, b: int)
    requires 0 <= b <= |s|
    requires forall k :: 0 <= k < b ==> s[k] != '\\'
    ensures SingleQuotedDecode(s) == s[..b] + SingleQuotedDecode(s[b..])
    decreases b
  {
    if b > 0 {
      var t := s[1..];
      assert SingleQuotedDecode(s) == [s[0]] + SingleQuotedDecode(t) by {
        assert s[0] != '\\';
      }
      SingleQuotedDecodePrefix(t, b - 1);
      assert t[..b - 1] == s[1..b] && t[b - 1..] == s[b..];
      assert s[..b] == [s[0]] + s[1..b];
    }
  }

  /** The builder case of `StringTextSingleQuoted`: the characters before the first backslash, then the decoded rest. */
  lemma SingleQuotedBuilt(buf: seq<char>, start: int, b: int, end: int, ctx: EscapeContext)
    requires 0 <= start <= b && b + 1 < end <= |buf|
    requires forall k :: start <= k < b ==> buf[k] != '\\'
    ensures UnescapeFrom(buf, b, end, SingleQuoted, ctx).Done?
    ensures PiecesString(CharPieces(buf[start..b]) + UnescapeFrom(buf, b, end, SingleQuoted, ctx).value)
         == SingleQuotedDecode(buf[start..end])
  {
    var s := buf[start..end];
    SingleQuotedDecodePrefix(s, b - start);
    assert s[..b - start] == buf[start..b] && s[b - start..] == buf[b..end];
    UnescapeSingleQuoted(buf, b, end, ctx);
    var ps := CharPieces(SingleQuotedDecode(buf[b..end]));
    PiecesStringAppend(CharPieces(buf[start..b]), ps);
    PiecesOfChars(buf[start..b]);
    PiecesOfChars(SingleQuotedDecode(buf[b..end]));
  }

  /** The verbatim case of `StringTextSingleQuoted`: no backslash before the last character. */
  lemma SingleQuotedPlain(buf: seq<char>, start: int, b: int, end: int)
    requires 0 <= start <= b <= end <= |buf| && end <= b + 1
    requires forall k :: start <= k < b ==> buf[k] != '\\'
    ensures SingleQuotedDecode(buf[start..end]) == buf[start..end]
  {
    var s := buf[start..end];
    SingleQuotedDecodePrefix(s, b - start);
    assert s[..b - start] == buf[start..b] && s[b - start..] == buf[b..end];
    if b == end {
      assert buf[b..end] == [];
    } else {
      assert buf[b..end] == [buf[b]];
      assert SingleQuotedDecode(buf[b..end]) == [buf[b]] + SingleQuotedDecode([]);
    }
  }

  /**
   * Single-quoted literals decode as the reference says: the scanner's text equals
   * `SingleQuotedDecode` of the literal body, so every backslash sequence other than
   * `\\` and `\'` is kept verbatim, and decoding never fails.
   */
  lemma StringTextSingleQuoted(buf: seq<char>, start: int, length: int, ctx: EscapeContext, binary: bool)
    requires 0 <= start && 0 <= length && start + length <= |buf|
    ensures StringText(buf, start, length, SingleQuoted, ctx, binary).Done?
    ensures TextString(StringText(buf, start, length, SingleQuoted, ctx, binary).value)
         == SingleQuotedDecode(buf[start..start + length])
  {
    var end := start + length;
    if length > 0 {
      var b := FirstBackslash(buf, start, end);
      FirstBackslashIsFirst(buf, start, end);
      if b + 1 < end {
        SingleQuotedBuilt(buf, start, b, end, ctx);
      } else {
        SingleQuotedPlain(buf, start, b, end);
      }
    }
  }

  /** In a double-quoted literal a backslash before a character that starts no escape is kept together with that character. */
  lemma DoubleQuotedKeepsUnknownEscape(buf: seq<char>, i: int, end: int, ctx: EscapeContext)
    requires 0 <= i && i + 1 < end <= |buf| && buf[i] == '\\'
    requires buf[i + 1] !in SIMPLE_ESCAPES && buf[i + 1] != '`' && buf[i + 1] != 'u' && buf[i + 1] != 'x'
    requires !('0' <= buf[i + 1] <= '7')
    ensures UnescapeFrom(buf, i, end, DoubleQuoted, ctx)
         == Prepend([Char('\\'), Char(buf[i + 1])], UnescapeFrom(buf, i + 2, end, DoubleQuoted, ctx))
  {
    DoubleQuotedUnknownEscape(buf, i + 1, ctx);
    assert buf[i + 1] != '\\';
    var rest := UnescapeFrom(buf, i + 2, end, DoubleQuoted, ctx);
    if rest.Done? {
      assert [Char('\\')] + ([Char(buf[i + 1])] + rest.value) == [Char('\\'), Char(buf[i + 1])] + rest.value;
    }
  }

  /** The single-quoted body `a\\nb\'c` decodes to the six characters `a\nb'c`. */
  lemma SingleQuotedExample(ctx: EscapeContext)
    ensures StringText("'a\\\\nb\\'c'", 1, 8, SingleQuoted, ctx, false)
         == Done(Built([Char('a'), Char('\\'), Char('n'), Char('b'), Char('\''), Char('c')], false))
  {
    var buf := "'a\\\\nb\\'c'";
    assert FirstBackslash(buf, 1, 9) == 2;
    var u9 := UnescapeFrom(buf, 9, 9, SingleQuoted, ctx);
    assert u9 == Done([]);
    var u8 := UnescapeFrom(buf, 8, 9, SingleQuoted, ctx);
    assert u8 == Prepend([Char('c')], u9);
    var u6 := UnescapeFrom(buf, 6, 9, SingleQuoted, ctx);
    assert u6 == Prepend([Char('\'')], u8);
    var u5 := UnescapeFrom(buf, 5, 9, SingleQuoted, ctx);
    assert u5 == Prepend([Char('b')], u6);
    var u4 := UnescapeFrom(buf, 4, 9, SingleQuoted, ctx);
    assert u4 == Prepend([Char('n')], u5);
    var u2 := UnescapeFrom(buf, 2, 9, SingleQuoted, ctx);
    assert u2 == Prepend([Char('\\')], u4);
    assert u2.value == [Char('\\'), Char('n'), Char('b'), Char('\''), Char('c')];
    assert CharPieces(buf[1..2]) == [Char('a')];
    assert StringText(buf, 1, 8, SingleQuoted, ctx, false) == Done(Built(CharPieces(buf[1..2]) + u2.value, false));
    assert CharPieces(buf[1..2]) + u2.value == [Char('a'), Char('\\'), Char('n'), Char('b'), Char('\''), Char('c')];
  }

  /** The double-quoted body `a\tb\$c\x41` decodes to `a`, TAB, `b$c` and the byte 0x41. */
  lemma DoubleQuotedExample(ctx: EscapeContext)
    ensures StringText("\"a\\tb\\$c\\x41\"", 1, 11, DoubleQuoted, ctx, false)
         == Done(Built([Char('a'), Char('\t'), Char('b'), Char('$'), Char('c'), Byte(0x41)], false))
  {
    var buf := "\"a\\tb\\$c\\x41\"";
    assert FirstBackslash(buf, 1, 12) == 2;
    var u12 := UnescapeFrom(buf, 12, 12, DoubleQuoted, ctx);
    assert u12 == Done([]);
    assert HexEscape(buf, 9) == Handled(11, [Byte(0x41)]);
    var u8 := UnescapeFrom(buf, 8, 12, DoubleQuoted, ctx);
    assert u8 == Prepend([Byte(0x41)], u12);
    var u7 := UnescapeFrom(buf, 7, 12, DoubleQuoted, ctx);
    assert u7 == Prepend([Char('c')], u8);
    var u5 := UnescapeFrom(buf, 5, 12, DoubleQuoted, ctx);
    assert u5 == Prepend([Char('$')], u7);
    var u4 := UnescapeFrom(buf, 4, 12, DoubleQuoted, ctx);
    assert u4 == Prepend([Char('b')], u5);
    var u2 := UnescapeFrom(buf, 2, 12, DoubleQuoted, ctx);
    assert u2 == Prepend([Char('\t')], u4);
    assert u2.value == [Char('\t'), Char('b'), Char('$'), Char('c'), Byte(0x41)];
    assert CharPieces(buf[1..2]) == [Char('a')];
    assert StringText(buf, 1, 11, DoubleQuoted, ctx, false) == Done(Built(CharPieces(buf[1..2]) + u2.value, false));
    assert CharPieces(buf[1..2]) + u2.value == [Char('a'), Char('\t'), Char('b'), Char('$'), Char('c'), Byte(0x41)];
  }
}
