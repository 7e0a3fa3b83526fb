/**
 * The hand-written helper layer of the PHP scanner: token text and position bookkeeping,
 * numeric literal helpers, string-literal decoding, heredoc handling, the lexical state
 * stack and its snapshots.
 *
 * The generated automaton that matches tokens is not part of this model; it shows up here
 * through the fields it shares with the helpers: the character buffer, the token bounds
 * `token_start`/`token_end`, `lookahead_index`, the state stack and the current state.
 */
module PhpLexer {
  import opened Machine
  import opened Chars
  import opened Syntax
  import opened NumericLiterals
  import opened Escapes
  import opened Heredoc
  import opened Snapshots

  /** `Map`: characters above 127 become 'a', the others are kept. */
  function Map(c: char): (r: char)
    ensures r as int <= 127
    ensures r == c <==> c as int <= 127
    ensures c as int > 127 ==> r == 'a'
  {
    if c as int > 127 then 'a' else c
  }

  /**
   * The spans `UpdateTokenPosition` assigns to tokens of the given lengths, starting at
   * `offset`: they are contiguous and never move backwards.
   */
  function TokenSpans(offset: int, lengths: seq<nat>): (spans: seq<Span>)
    ensures |spans| == |lengths|
    ensures |lengths| > 0 ==> spans[0].start == offset
    ensures forall k :: 0 <= k < |spans| ==> spans[k].length == lengths[k] && spans[k].start >= offset
    ensures forall k :: 0 <= k < |spans| - 1 ==> spans[k + 1].start == spans[k].start + spans[k].length
    decreases |lengths|
  {
    if lengths == [] then [] else [Span(offset, lengths[0])] + TokenSpans(offset + lengths[0], lengths[1..])
  }

  /** The token with all its digits, as `GetTokenAsDecimalNumber` reads it from `from` in `base`. */
  function NumberValue(buf: seq<char>, from: nat, base: int): int64
  {
    if from > |buf| then 0 else Wrap64(DigitsValue(buf[from..from + DigitRun(buf, from, base)], base))
  }

  lemma DigitRunStep(buf: seq<char>, pos: nat, base: int)
    requires pos < |buf| && AlphaNumericToDigit(buf[pos]) < base
    ensures DigitRun(buf, pos, base) == 1 + DigitRun(buf, pos + 1, base)
  {
  }

  lemma DigitsValueSnoc(buf: seq<char>, from: nat, pos: nat, base: int)
    requires from <= pos < |buf|
    ensures DigitsValue(buf[from..pos + 1], base) == DigitsValue(buf[from..pos], base) * base + AlphaNumericToDigit(buf[pos])
  {
    assert buf[from..pos + 1][..pos - from] == buf[from..pos];
  }

  /** The value of the digits buf[from..pos], accumulated the way the scanner's loops do. */
  function RunValue(buf: seq<char>, from: int, pos: int, base: int): int
    requires 0 <= from <= pos <= |buf|
    decreases pos - from
  {
    if pos == from then 0 else RunValue(buf, from, pos - 1, base) * base + AlphaNumericToDigit(buf[pos - 1])
  }

  lemma {:induction false} RunValueIsDigitsValue(buf: seq<char>, from: nat, pos: nat, base: int)
    requires from <= pos <= |buf|
    ensures RunValue(buf, from, pos, base) == DigitsValue(buf[from..pos], base)
    decreases pos - from
  {
    if pos > from {
      RunValueIsDigitsValue(buf, from, pos - 1, base);
      DigitsValueSnoc(buf, from, pos - 1, base);
    }
  }

  /** One of the characters `LabelTrailLength` counts: whitespace or ';'. */
  predicate IsTrail(c: char)
  {
    IsWhiteSpace(c) || c == ';'
  }

  /** Number of whitespace or ';' characters at the end of buf[lo..hi]. */
  function TrailLength(buf: seq<char>, lo: int, hi: int): (n: nat)
    requires 0 <= lo && hi <= |buf|
    ensures n <= (if hi > lo then hi - lo else 0)
    decreases hi - lo
  {
    if hi <= lo || !IsTrail(buf[hi - 1]) then 0 else 1 + TrailLength(buf, lo, hi - 1)
  }

  /** `TrailLength` counts exactly the maximal run of whitespace and ';' at the end of buf[lo..hi]. */
  lemma {:induction false} TrailLengthIsMaximalRun(buf: seq<char>, lo: int, hi: int)
    requires 0 <= lo && hi <= |buf|
    ensures var n := TrailLength(buf, lo, hi);
            (forall k :: hi - n <= k < hi ==> IsTrail(buf[k])) && (hi - n > lo ==> !IsTrail(buf[hi - n - 1]))
    decreases hi - lo
  {
    if hi > lo && IsTrail(buf[hi - 1]) {
      TrailLengthIsMaximalRun(buf, lo, hi - 1);
    }
  }

  /** The error `LocateHeredocPrefix` logs for a heredoc body, at the given token position. */
  function HeredocDiagnostics(text: string, position: Span): seq<Diagnostic>
  {
    if IndentationError(text) then [Diagnostic(position, SyntaxError(INCORRECT_HEREDOC_INDENTATION))] else []
  }

  /** Where `GetTokenAsQuotedString` finds the literal body, and whether it is binary. */
  datatype QuotedBody = QuotedBody(start: int, end: int, binary: bool)

  /**
   * The body of the token buf[ts..te] decoded by `GetTokenAsQuotedString`: an optional 'b'
   * prefix, then the text between two `quote` characters; without both quotes the whole
   * token is the body and it is not binary.
   */
  function QuotedBodyOf(buf: seq<char>, ts: int, te: int, quote: char): (q: QuotedBody)
    requires 0 <= ts < te <= |buf|
    ensures ts <= q.start <= q.end <= te
  {
    var binary := buf[ts] == 'b';
    var start := if binary then ts + 1 else ts;
    if te - start >= 2 && buf[start] == quote && buf[te - 1] == quote then QuotedBody(start + 1, te - 1, binary)
    else QuotedBody(ts, te, false)
  }

  /**
   * `QuotedBodyOf` strips exactly an optional 'b' and a pair of surrounding quotes: when it
   * strips, the token is the prefix, a quote, the body and a quote; when it does not, the
   * token has neither form and all of it is the body.
   */
  lemma QuotedBodyRoundTrip(buf: seq<char>, ts: int, te: int, quote: char)
    requires 0 <= ts < te <= |buf| && quote != 'b'
    ensures var q := QuotedBodyOf(buf, ts, te, quote);
            q.start > ts ==> buf[ts..te] == (if q.binary then "b" else "") + [quote] + buf[q.start..q.end] + [quote]
    ensures var q := QuotedBodyOf(buf, ts, te, quote);
            q.start == ts ==>
              q == QuotedBody(ts, te, false) &&
              !(te - ts >= 2 && buf[ts] == quote && buf[te - 1] == quote) &&
              !(te - ts >= 3 && buf[ts] == 'b' && buf[ts + 1] == quote && buf[te - 1] == quote)
  {
    var q := QuotedBodyOf(buf, ts, te, quote);
    if q.start > ts {
      var p := if q.binary then "b" else "";
      assert buf[ts..te] == p + [quote] + buf[q.start..q.end] + [quote] by {
        assert |buf[ts..te]| == |p| + 1 + (q.end - q.start) + 1;
        forall k | 0 <= k < te - ts
          ensures buf[ts..te][k] == (p + [quote] + buf[q.start..q.end] + [quote])[k]
        {
          if k < |p| + 1 {
          } else if k < te - ts - 1 {
            assert (p + [quote] + buf[q.start..q.end] + [quote])[k] == buf[q.start..q.end][k - |p| - 1];
          }
        }
      }
    }
  }

  /** What `GetTokenAsQuotedString` decodes from the token buf[ts..te]. */
  function QuotedLiteral(buf: seq<char>, ts: int, te: int, h: EscapeHandler, quote: char, ctx: EscapeContext): Outcome<Text>
    requires 0 <= ts <= te <= |buf|
  {
    if ts == te then Done(Plain(""))
    else
      var q := QuotedBodyOf(buf, ts, te, quote);
      StringText(buf, q.start, q.end - q.start, h, ctx, q.binary)
  }

  /** A single-quoted literal always decodes. */
  lemma SingleQuotedLiteralDone(buf: seq<char>, ts: int, te: int, ctx: EscapeContext)
    requires 0 <= ts <= te <= |buf|
    ensures QuotedLiteral(buf, ts, te, SingleQuoted, '\'', ctx).Done?
  {
    if ts < te {
      StringTextSingleQuoted(buf, QuotedBodyOf(buf, ts, te, '\'').start,
        QuotedBodyOf(buf, ts, te, '\'').end - QuotedBodyOf(buf, ts, te, '\'').start, ctx, QuotedBodyOf(buf, ts, te, '\'').binary);
    }
  }

  /** The literal ends with `ending` right after a "$" or "{": the start of an interpolation. */
  predicate EndsBeforeInterpolation(buf: seq<char>, start: int, length: int, ending: char)
    requires 0 <= start && start + length <= |buf|
  {
    length >= 2 && buf[start + length - 1] == ending && (buf[start + length - 2] == '$' || buf[start + length - 2] == '{')
  }

  /**
   * What `ProcessEscapedStringWithEnding` decodes from buf[start..start+length] with the
   * double-quoted handler, and by how many characters it then shortens the token. An empty
   * literal at offset 0 reads `buffer[-1]`.
   */
  function EscapedWithEnding(buf: seq<char>, start: int, length: int, ending: char, ctx: EscapeContext): (Outcome<Text>, nat)
    requires 0 <= start && 0 <= length && start + length <= |buf|
  {
    if start + length - 1 < 0 then (IndexOutOfRange, 0)
    else if EndsBeforeInterpolation(buf, start, length, ending) then
      var o := StringText(buf, start, length - 1, DoubleQuoted, ctx, false);
      (o, if o.Done? then 1 else 0)
    else (StringText(buf, start, length, DoubleQuoted, ctx, false), 0)
  }

  /** One iteration of the `GetTokenAsDecimalNumber` loop keeps its invariant. */
  lemma LongStep(buf: seq<char>, from: nat, pos: nat, base: int, result: int64, digit: int)
    requires from <= pos < |buf| && digit == AlphaNumericToDigit(buf[pos]) && digit < base
    requires DigitRun(buf, from, base) == (pos - from) + DigitRun(buf, pos, base)
    requires result == Wrap64(RunValue(buf, from, pos, base))
    ensures DigitRun(buf, from, base) == (pos + 1 - from) + DigitRun(buf, pos + 1, base)
    ensures Wrap64(result as int * base + digit) == Wrap64(RunValue(buf, from, pos + 1, base))
  {
    DigitRunStep(buf, pos, base);
    Wrap64MulAdd(RunValue(buf, from, pos, base), base, digit);
  }


  /** One iteration of the `GetTokenAsInteger` loop keeps its invariant. */
  lemma IntegerStep(buf: seq<char>, from: nat, pos: nat, base: int, result: int32, digit: int)
    requires from <= pos < |buf| && digit == AlphaNumericToDigit(buf[pos]) && digit < base
    requires DigitRun(buf, from, base) == (pos - from) + DigitRun(buf, pos, base)
    requires result == Wrap32(RunValue(buf, from, pos, base))
    ensures DigitRun(buf, from, base) == (pos + 1 - from) + DigitRun(buf, pos + 1, base)
    ensures Wrap32(result as int * base + digit) == Wrap32(RunValue(buf, from, pos + 1, base))
  {
    DigitRunStep(buf, pos, base);
    Wrap32MulAdd(RunValue(buf, from, pos, base), base, digit);
  }


  /** An escape the handler decodes: the builder grows by its output and the loop resumes after it. */
  lemma EscapeHandledStep(buf: seq<char>, i: int, end: int, h: EscapeHandler, ctx: EscapeContext, acc: seq<Piece>, goal: Outcome<seq<Piece>>)
    requires 0 <= i && i + 1 < end <= |buf| && buf[i] == '\\'
    requires Handle(h, buf, i + 1, ctx).Handled?
    requires Prepend(acc, UnescapeFrom(buf, i, end, h, ctx)) == goal
    ensures var e := Handle(h, buf, i + 1, ctx);
            Prepend(acc + e.out, UnescapeFrom(buf, e.last + 1, end, h, ctx)) == goal
  {
    var e := Handle(h, buf, i + 1, ctx);
    PrependAppend(acc, e.out, UnescapeFrom(buf, e.last + 1, end, h, ctx));
  }

  /** A backslash the handler declines is copied, and the loop goes on with the next character. */
  lemma EscapeUnhandledStep(buf: seq<char>, i: int, end: int, h: EscapeHandler, ctx: EscapeContext, acc: seq<Piece>, goal: Outcome<seq<Piece>>)
    requires 0 <= i && i + 1 < end <= |buf| && buf[i] == '\\'
    requires Handle(h, buf, i + 1, ctx).Unhandled?
    requires Prepend(acc, UnescapeFrom(buf, i, end, h, ctx)) == goal
    ensures Prepend(acc + [Char(buf[i])], UnescapeFrom(buf, i + 1, end, h, ctx)) == goal
  {
    PrependAppend(acc, [Char(buf[i])], UnescapeFrom(buf, i + 1, end, h, ctx));
  }

  /** A handler that reads past the buffer makes the whole decoding fail. */
  lemma EscapeFailedStep(buf: seq<char>, i: int, end: int, h: EscapeHandler, ctx: EscapeContext, acc: seq<Piece>, goal: Outcome<seq<Piece>>)
    requires 0 <= i && i + 1 < end <= |buf| && buf[i] == '\\'
    requires Handle(h, buf, i + 1, ctx).OutOfRange?
    requires Prepend(acc, UnescapeFrom(buf, i, end, h, ctx)) == goal
    ensures goal == IndexOutOfRange
  {
  }

  /** Any other character is copied. */
  lemma CharStep(buf: seq<char>, i: int, end: int, h: EscapeHandler, ctx: EscapeContext, acc: seq<Piece>, goal: Outcome<seq<Piece>>)
    requires 0 <= i < end <= |buf| && !(buf[i] == '\\' && i + 1 < end)
    requires Prepend(acc, UnescapeFrom(buf, i, end, h, ctx)) == goal
    ensures Prepend(acc + [Char(buf[i])], UnescapeFrom(buf, i + 1, end, h, ctx)) == goal
  {
    PrependAppend(acc, [Char(buf[i])], UnescapeFrom(buf, i + 1, end, h, ctx));
  }

  /** The two ways `EscapedWithEnding` decodes a literal that starts inside the buffer. */
  lemma EscapedWithEndingCases(buf: seq<char>, start: int, length: int, ending: char, ctx: EscapeContext)
    requires 0 <= start && 0 <= length && start + length <= |buf| && start + length - 1 >= 0
    ensures EndsBeforeInterpolation(buf, start, length, ending) ==>
      var o := StringText(buf, start, length - 1, DoubleQuoted, ctx, false);
      EscapedWithEnding(buf, start, length, ending, ctx) == (o, if o.Done? then 1 else 0)
    ensures !EndsBeforeInterpolation(buf, start, length, ending) ==>
      EscapedWithEnding(buf, start, length, ending, ctx) == (StringText(buf, start, length, DoubleQuoted, ctx, false), 0)
  {
  }

  lemma PrependAppend(a: seq<Piece>, b: seq<Piece>, o: Outcome<seq<Piece>>)
    ensures Prepend(a + b, o) == Prepend(a, Prepend(b, o))
  {
    match o
    case Done(rest) => assert (a + b) + rest == a + (b + rest);
    case IndexOutOfRange =>
  }

  lemma FirstBackslashIs(buf: seq<char>, i: int, end: int, j: int)
    requires 0 <= i <= j <= end <= |buf|
    requires forall k :: i <= k < j ==> buf[k] != '\\'
    requires j < end ==> buf[j] == '\\'
    ensures FirstBackslash(buf, i, end) == j
  {
    FirstBackslashIsFirst(buf, i, end);
  }

  /**
   * `ProcessStringText(buffer, start, length, tryprocess, binary)`: copies the literal,
   * creating the builder at the first backslash that has a successor inside the literal,
   * and lets the handler decode each such escape. The caller always passes the scanner's
   * own buffer.
   */
  method ProcessStringText(buf: seq<char>, start: int, length: int, h: EscapeHandler, ctx: EscapeContext, binary: bool) returns (r: Outcome<Text>)
    requires 0 <= start && 0 <= length && start + length <= |buf|
    ensures r == StringText(buf, start, length, h, ctx, binary)
  {
    if length == 0 {
      return Done(Plain(""));
    }
    var end := start + length;
    var index := start;
    while index < end && buf[index] != '\\'
      invariant start <= index <= end
      invariant forall k :: start <= k < index ==> buf[k] != '\\'
    {
      index := index + 1;
    }
    FirstBackslashIs(buf, start, end, index);
    if index + 1 >= end {
      // the builder is never created: the text is the literal itself
      return Done(Plain(buf[start..start + length]));
    }
    var pieces := AppendUnescaped(buf, CharPieces(buf[start..index]), index, end, h, ctx);
    if pieces.IndexOutOfRange? {
      return IndexOutOfRange;
    }
    return Done(Built(pieces.value, binary));
  }

  /**
   * The `for` loop of `ProcessStringText` once the builder exists: appends to `builder` what
   * buf[from..end] decodes to, the handler being offered every backslash that has a
   * successor inside the literal.
   */
  method AppendUnescaped(buf: seq<char>, builder: seq<Piece>, from: int, end: int, h: EscapeHandler, ctx: EscapeContext) returns (r: Outcome<seq<Piece>>)
    requires 0 <= from <= end <= |buf|
    ensures r == Prepend(builder, UnescapeFrom(buf, from, end, h, ctx))
  {
    ghost var goal := Prepend(builder, UnescapeFrom(buf, from, end, h, ctx));
    var acc := builder;
    var index := from;
    while index < end
      invariant from <= index
      invariant Prepend(acc, UnescapeFrom(buf, index, end, h, ctx)) == goal
      decreases end - index
    {
      var c := buf[index];
      if c == '\\' && index + 1 < end {
        var e := Handle(h, buf, index + 1, ctx);
        if e.OutOfRange? {
          EscapeFailedStep(buf, index, end, h, ctx, acc, goal);
          return IndexOutOfRange;
        }
        if e.Handled? {
          EscapeHandledStep(buf, index, end, h, ctx, acc, goal);
          acc := acc + e.out;
          index := e.last + 1;
        } else {
          EscapeUnhandledStep(buf, index, end, h, ctx, acc, goal);
          acc := acc + [Char(c)];
          index := index + 1;
        }
      } else {
        CharStep(buf, index, end, h, ctx, acc, goal);
        acc := acc + [Char(c)];
        index := index + 1;
      }
    }
    assert acc + [] == acc;
    return Done(acc);
  }

  // ----- heredoc indentation -----

  /**
   * The state of the `LocateHeredocPrefix` loop after text[..i]: the prefix reconciled over
   * the lines ended so far, the indentation collected on the current line, and whether the
   * current line has been nothing but indentation.
   */
  ghost predicate PrefixScanned(text: string, i: int, prefix: string, build: string, start: bool)
    requires 0 <= i <= |text|
  {
    var ls := Lines(text[..i]);
    prefix == ReconcileAll(text, Init(ls)) && build == LeadingIndent(Last(ls)) && start == AllIndent(Last(ls))
  }

  /** One character of the `LocateHeredocPrefix` loop keeps `PrefixScanned`. */
  lemma PrefixScanStep(text: string, i: int, prefix: string, build: string, start: bool)
    requires 0 <= i < |text| && PrefixScanned(text, i, prefix, build, start)
    ensures var c := text[i];
            if start && IsIndentChar(c) then PrefixScanned(text, i + 1, prefix, build + [c], true)
            else if c == '\n' then PrefixScanned(text, i + 1, Reconcile(prefix, build), "", true)
            else PrefixScanned(text, i + 1, prefix, build, false)
  {
    var t, c := text[..i], text[i];
    assert text[..i + 1] == t + [c];
    LinesSnoc(t, c);
    var last := Last(Lines(t));
    LeadingIndentSnoc(last, c);
    AllIndentSnoc(last, c);
    if start && IsIndentChar(c) {
      AllIndentLeading(last);
    } else if c == '\n' {
      assert Init(Lines(t + [c])) == Lines(t);
    }
  }

  /**
   * The loop of `LocateHeredocPrefix`: the prefix it returns, and whether it reports that the
   * closing label is indented more than the body.
   */
  method ScanHeredocPrefix(text: string) returns (prefix: string, incorrect: bool)
    ensures prefix == HeredocPrefix(text)
    ensures incorrect == IndentationError(text)
  {
    prefix := text;
    var prefixBuild := "";
    var start := true;
    var i := 0;
    while i < |text|
      invariant 0 <= i <= |text|
      invariant PrefixScanned(text, i, prefix, prefixBuild, start)
    {
      PrefixScanStep(text, i, prefix, prefixBuild, start);
      if start && (text[i] == ' ' || text[i] == '\t') {
        prefixBuild := prefixBuild + [text[i]];
      } else {
        start := text[i] == '\n';
        if start {
          var next := prefixBuild;
          if next <= prefix {
            prefix := next;
          } else if !(prefix <= next) {
            prefix := "";
          }
          prefixBuild := "";
        }
      }
      i := i + 1;
    }
    assert text[..|text|] == text;
    incorrect := !(|prefixBuild| <= |prefix|);
    if !incorrect {
      prefix := prefixBuild;
    }
  }

  // ----- encapsed text -----

  /**
   * What decoding the token buf[ts..te] up to `ending` leaves behind, as the scanner stores
   * it: the decoded text, the token end after a final `ending` has been given back, and the
   * semantic value holding the pair of the decoded text and the token text read after the
   * give-back.
   */
  function EncapsedEffect(buf: seq<char>, ts: int, te: int, ending: char, ctx: EscapeContext, sem: SemanticValue): (r: (Outcome<Text>, int, SemanticValue))
    requires 0 <= ts <= te <= |buf|
    ensures ts <= r.1 <= te
    ensures r.1 < te ==> r.1 == te - 1 && buf[te - 1] == ending
    ensures r.0.Done? ==> r.0 == StringText(buf, ts, r.1 - ts, DoubleQuoted, ctx, false)
    ensures r.0.Done? ==> r.2 == sem.(obj := Pair(TextString(r.0.value), buf[ts..r.1]))
    ensures r.0.IndexOutOfRange? ==> r.1 == te && r.2 == sem
  {
    var e := EscapedWithEnding(buf, ts, te - ts, ending, ctx);
    var end := te - e.1;
    match e.0
    case IndexOutOfRange => (IndexOutOfRange, end, sem)
    case Done(t) => (Done(t), end, sem.(obj := Pair(TextString(t), buf[ts..end])))
  }

  /**
   * What `ProcessText` leaves behind once the token has been shortened to buf[ts..te]: an
   * empty token asks for more input (`yymore`) and reports false; otherwise the token is
   * decoded as by `EncapsedEffect` and true is reported.
   */
  function TextEffect(buf: seq<char>, ts: int, te: int, ending: char, ctx: EscapeContext, sem: SemanticValue, more: bool): (r: (Outcome<bool>, int, SemanticValue, bool))
    requires 0 <= ts <= te <= |buf|
    ensures r.0 == Done(false) <==> ts == te
    ensures ts == te ==> r.1 == te && r.2 == sem && r.3
    ensures ts < te ==> r.3 == more && (r.0 == Done(true) <==> EncapsedEffect(buf, ts, te, ending, ctx, sem).0.Done?)
  {
    if te - ts > 0 then
      var e := EncapsedEffect(buf, ts, te, ending, ctx, sem);
      (if e.0.Done? then Done(true) else IndexOutOfRange, e.1, e.2, more)
    else (Done(false), te, sem, true)
  }

  /** The heredoc body before indentation is removed: decoded with the handler when there is one, the source text otherwise. */
  function HeredocBody(buf: seq<char>, start: int, length: int, h: Option<EscapeHandler>, ctx: EscapeContext): (r: Outcome<string>)
    requires 0 <= start && 0 <= length && start + length <= |buf|
    ensures h.None? ==> r == Done(buf[start..start + length])
  {
    match h
    case None => Done(buf[start..start + length])
    case Some(handler) =>
      match StringText(buf, start, length, handler, ctx, false)
      case IndexOutOfRange => IndexOutOfRange
      case Done(t) => Done(TextString(t))
  }

  /** `tryprocess != null ? (string)ProcessStringText(buffer, start, length, tryprocess) : sourcetext` in `ProcessEndNowDoc`. */
  method DecodeHeredocBody(buf: seq<char>, start: int, length: int, h: Option<EscapeHandler>, ctx: EscapeContext) returns (r: Outcome<string>)
    requires 0 <= start && 0 <= length && start + length <= |buf|
    ensures r == HeredocBody(buf, start, length, h, ctx)
  {
    if h.None? {
      return Done(buf[start..start + length]);
    }
    var o := ProcessStringText(buf, start, length, h.value, ctx, false);
    if o.IndexOutOfRange? {
      return IndexOutOfRange;
    }
    return Done(TextString(o.value));
  }

  class Lexer {
    /** The scanner's character buffer; the helpers never replace it. */
    const buffer: seq<char>
    /** `EnableUtfCodepoints`, from the language features the scanner was created with. */
    const enableUtfCodepoints: bool

    var tokenStart: int
    var tokenEnd: int
    var lookaheadIndex: int
    var charOffset: int
    /** The lexical state stack, top last. */
    var stateStack: seq<LexicalState>
    var currentState: LexicalState
    var hereDocLabel: Option<string>
    var docBlock: Option<DocBlock>
    /** What has been reported to the error sink, oldest first. */
    var errors: seq<Diagnostic>
    var tokenPosition: Span
    /** The cached `TokenText`. */
    var tokenText: Option<string>
    var tokenSemantics: SemanticValue
    /** Set by `yymore()`: the next token continues the current one. */
    var moreRequested: bool

    /** The token lies inside the buffer and the lookahead does not precede its end. */
    ghost predicate Valid()
      reads this`tokenStart, this`tokenEnd, this`lookaheadIndex
    {
      0 <= tokenStart <= tokenEnd <= lookaheadIndex <= |buffer|
    }

    function TokenLength(): int
      reads this`tokenStart, this`tokenEnd
    {
      tokenEnd - tokenStart
    }

    /** What the double-quoted escape handler reads from the scanner. */
    function Context(): EscapeContext
      reads this`currentState
    {
      EscapeContext(currentState, enableUtfCodepoints)
    }

    /** `PreviousLexicalState`: the state on top of the stack, or -1 when the stack is empty. */
    function PreviousLexicalState(): (s: LexicalState)
      reads this
      ensures |stateStack| == 0 ==> s == NO_STATE
      ensures |stateStack| > 0 ==> s == stateStack[|stateStack| - 1]
    {
      if |stateStack| != 0 then stateStack[|stateStack| - 1] else NO_STATE
    }

    /** `Lexer(reader, encoding, errors, features, positionShift, initialState)`, with the text already read into `source`. */
    constructor(source: seq<char>, positionShift: int, initialState: LexicalState, utfCodepoints: bool)
      ensures buffer == source && enableUtfCodepoints == utfCodepoints
      ensures tokenStart == 0 && tokenEnd == 0 && lookaheadIndex == 0
      ensures charOffset == positionShift && currentState == initialState && stateStack == []
      ensures hereDocLabel == None && docBlock == None && errors == []
      ensures tokenText == None && !moreRequested
      ensures Valid()
    {
      buffer := source;
      enableUtfCodepoints := utfCodepoints;
      tokenStart, tokenEnd, lookaheadIndex := 0, 0, 0;
      charOffset := positionShift;
      stateStack := [];
      currentState := initialState;
      hereDocLabel := None;
      docBlock := None;
      errors := [];
      tokenPosition := Span(0, 0);
      tokenText := None;
      tokenSemantics := SemanticValue(0, NoObject, END);
      moreRequested := false;
    }

    // ----- token position and text -----

    /** `UpdateTokenPosition`: the token's span starts at the running offset, which then moves past the token. */
    method UpdateTokenPosition()
      modifies this`tokenPosition, this`charOffset, this`tokenText
      ensures tokenPosition == Span(old(charOffset), TokenLength())
      ensures charOffset == old(charOffset) + TokenLength()
      ensures tokenText == None
    {
      var tokenLength := TokenLength();
      tokenPosition := Span(charOffset, tokenLength);
      charOffset := charOffset + tokenLength;
      tokenText := None;
    }

    /** `_yyless(count)`: give back the last `count` characters of the token. */
    method YyLess(count: int)
      requires Valid() && 0 <= count <= TokenLength()
      modifies this`tokenEnd, this`lookaheadIndex
      ensures tokenEnd == old(tokenEnd) - count && lookaheadIndex == tokenEnd
      ensures Valid()
    {
      tokenEnd := tokenEnd - count;
      lookaheadIndex := tokenEnd;
    }

    /** `yy_push_state(state)` of the generated scanner: the current state goes on the stack. */
    method PushState(state: LexicalState)
      modifies this`stateStack, this`currentState
      ensures stateStack == old(stateStack) + [old(currentState)] && currentState == state
    {
      stateStack := stateStack + [currentState];
      currentState := state;
    }

    /**
     * `GetText(offset, length, intern)`: the characters buffer[offset..offset+length]. The
     * frequent one- and two-character strings come from constants and the rest from the
     * string pool, which is identity on content.
     */
    method GetText(offset: int, length: int, intern: bool) returns (s: string)
      requires length == 0 || (0 <= offset && 0 < length && offset + length <= |buffer|)
      ensures length == 0 ==> s == ""
      ensures length > 0 ==> s == buffer[offset..offset + length]
    {
      if length == 0 {
        return "";
      }
      if length == 1 {
        assert buffer[offset..offset + 1] == [buffer[offset]];
        match buffer[offset]
        case ' ' => return " ";
        case '\n' => return "\n";
        case ';' => return ";";
        case '(' => return "(";
        case ')' => return ")";
        case '/' => return "/";
        case '\\' => return "\\";
        case _ =>
      }
      if length == 2 && buffer[offset] == '\r' && buffer[offset + 1] == '\n' {
        assert buffer[offset..offset + 2] == [buffer[offset], buffer[offset + 1]];
        return "\r\n";
      }
      s := buffer[offset..offset + length];
    }

    /** `GetTokenString()`. */
    method GetTokenString() returns (s: string)
      requires Valid()
      ensures s == buffer[tokenStart..tokenEnd]
    {
      s := GetText(tokenStart, TokenLength(), true);
    }

    /** `GetTokenSubstring(startIndex, length)`. */
    method GetTokenSubstring(startIndex: int, length: int) returns (s: string)
      requires 0 <= tokenStart + startIndex && 0 <= length && tokenStart + startIndex + length <= |buffer|
      ensures s == buffer[tokenStart + startIndex..tokenStart + startIndex + length]
    {
      s := GetText(tokenStart + startIndex, length, true);
    }

    /** `TokenText`: the token string, computed once and cached until the next `UpdateTokenPosition`. */
    method TokenText() returns (s: string)
      requires Valid()
      modifies this`tokenText
      ensures old(tokenText).Some? ==> s == old(tokenText).value && tokenText == old(tokenText)
      ensures old(tokenText).None? ==> s == buffer[tokenStart..tokenEnd] && tokenText == Some(s)
    {
      if tokenText.Some? {
        return tokenText.value;
      }
      s := GetTokenString();
      tokenText := Some(s);
    }

    /** `GetTokenAsEscapedCharacter(startIndex)`: the character a backslash escape at startIndex stands for. */
    function GetTokenAsEscapedCharacter(startIndex: int): (c: char)
      reads this
      requires 0 <= tokenStart + startIndex && tokenStart + startIndex + 1 < |buffer|
      requires buffer[tokenStart + startIndex] == '\\'
      ensures var e := buffer[tokenStart + startIndex + 1];
              c == (if e in "ntr" then SIMPLE_ESCAPES[e] else e)
    {
      match buffer[tokenStart + startIndex + 1]
      case 'n' => '\n'
      case 't' => '\t'
      case 'r' => '\r'
      case c => c
    }

    // ----- numeric literals -----

    /**
     * `GetTokenAsDecimalNumber(startIndex, base, ref val)`: folds `result * base + digit`
     * with 64-bit wrap-around over the run of digits below `base` from the token's
     * `startIndex`, up to the end of the buffer, and always answers T_LNUMBER.
     */
    method GetTokenAsDecimalNumber(startIndex: int, base: int) returns (t: Tokens, value: int64)
      requires Valid() && 0 <= startIndex
      ensures t == T_LNUMBER
      ensures value == NumberValue(buffer, tokenStart + startIndex, base)
    {
      var lresult: int64 := 0;
      var pos := tokenStart + startIndex;
      if pos > |buffer| {
        // every loop condition fails at once
        return T_LNUMBER, lresult;
      }
      ghost var from := pos;
      while pos < |buffer| && AlphaNumericToDigit(buffer[pos]) < base && lresult as int <= INT64_MAX
        invariant from <= pos <= |buffer|
        invariant DigitRun(buffer, from, base) == (pos - from) + DigitRun(buffer, pos, base)
        invariant lresult == Wrap64(RunValue(buffer, from, pos, base))
        decreases |buffer| - pos
      {
        var digit := AlphaNumericToDigit(buffer[pos]);
        LongStep(buffer, from, pos, base, lresult, digit);
        lresult := Wrap64(lresult as int * base + digit);
        pos := pos + 1;
      }
      // `lresult <= long.MaxValue` holds for every 64-bit value, so the loop above stops only
      // at the end of the buffer or at a character that is not a digit: the loop that would go
      // on with checked arithmetic and the fallback that would finish the number as a double
      // and return T_DNUMBER never run.
      if pos < |buffer| && AlphaNumericToDigit(buffer[pos]) < base {
        assert false;
      }
      assert DigitRun(buffer, from, base) == pos - from;
      RunValueIsDigitsValue(buffer, from, pos, base);
      return T_LNUMBER, lresult;
    }

    /**
     * `GetTokenAsInteger(startIndex, base)`: folds `result * base + digit` with 32-bit
     * wrap-around; the loop has no bound check, so a run of digits reaching the end of the
     * buffer raises.
     */
    method GetTokenAsInteger(startIndex: int, base: int) returns (r: Outcome<int32>)
      requires Valid() && 0 <= startIndex <= TokenLength()
      ensures r.IndexOutOfRange? <==> tokenStart + startIndex + DigitRun(buffer, tokenStart + startIndex, base) >= |buffer|
      ensures r.Done? ==>
                var from := tokenStart + startIndex;
                r.value == Wrap32(DigitsValue(buffer[from..from + DigitRun(buffer, from, base)], base))
    {
      var result: int32 := 0;
      var pos := tokenStart + startIndex;
      ghost var from := pos;
      while true
        invariant from <= pos <= |buffer|
        invariant DigitRun(buffer, from, base) == (pos - from) + DigitRun(buffer, pos, base)
        invariant result == Wrap32(RunValue(buffer, from, pos, base))
        decreases |buffer| - pos
      {
        if pos >= |buffer| {
          assert DigitRun(buffer, from, base) == pos - from;
          return IndexOutOfRange;
        }
        var digit := AlphaNumericToDigit(buffer[pos]);
        if digit >= base {
          assert DigitRun(buffer, from, base) == pos - from;
          RunValueIsDigitsValue(buffer, from, pos, base);
          return Done(result);
        }
        IntegerStep(buffer, from, pos, base, result, digit);
        result := Wrap32(result as int * base + digit);
        pos := pos + 1;
      }
    }

    /** `GetIntegerTokenType(startIndex)`: the kind of a decimal or octal literal. */
    method GetIntegerTokenType(startIndex: int) returns (t: Tokens)
      requires Valid() && 0 <= startIndex <= TokenLength()
      ensures t == IntegerKind(buffer, tokenStart + startIndex, tokenEnd)
    {
      var i := tokenStart + startIndex;
      while i < tokenEnd && buffer[i] == '0'
        invariant tokenStart + startIndex <= i <= tokenEnd
        invariant SkipZeros(buffer, tokenStart + startIndex, tokenEnd) == SkipZeros(buffer, i, tokenEnd)
      {
        i := i + 1;
      }
      var numberLength := tokenEnd - i;
      if i != tokenStart + startIndex {
        if numberLength < 22 {
          return T_LNUMBER;
        }
        return T_DNUMBER;
      } else {
        var token, _ := GetTokenAsDecimalNumber(startIndex, 10);
        return token;
      }
    }

    /** `GetHexIntegerTokenType(startIndex)`: the kind of a hexadecimal literal. */
    method GetHexIntegerTokenType(startIndex: int) returns (t: Tokens)
      requires Valid() && 0 <= startIndex <= TokenLength()
      ensures t == HexKind(buffer, tokenStart + startIndex, tokenEnd)
    {
      var i := tokenStart + startIndex;
      while i < tokenEnd && buffer[i] == '0'
        invariant tokenStart + startIndex <= i <= tokenEnd
        invariant SkipZeros(buffer, tokenStart + startIndex, tokenEnd) == SkipZeros(buffer, i, tokenEnd)
      {
        i := i + 1;
      }
      if tokenEnd - i < 16 || (tokenEnd - i == 16 && buffer[i] >= '0' && buffer[i] < '8') {
        return T_LNUMBER;
      }
      return T_DNUMBER;
    }

    /** `ProcessBinaryNumber`: the value of the digits after "0b"; never reported as too big. */
    method ProcessBinaryNumber() returns (t: Tokens)
      requires Valid()
      modifies this`tokenSemantics
      ensures t == T_LNUMBER
      ensures tokenSemantics == old(tokenSemantics).(longValue := NumberValue(buffer, tokenStart + 2, 2))
    {
      var token, value := GetTokenAsDecimalNumber(2, 2);
      tokenSemantics := tokenSemantics.(longValue := value);
      if token == T_DNUMBER {
        // the TooBigIntegerConversion warning: unreachable
        assert false;
      }
      return token;
    }

    /**
     * `ProcessDecimalNumber`: octal after a leading '0', decimal otherwise; never reported as
     * too big. Reading the first character raises when the token starts at the end of the buffer.
     */
    method ProcessDecimalNumber() returns (r: Outcome<Tokens>)
      requires Valid()
      modifies this`tokenSemantics
      ensures tokenStart == |buffer| ==> r == IndexOutOfRange && tokenSemantics == old(tokenSemantics)
      ensures tokenStart < |buffer| ==>
                r == Done(T_LNUMBER) &&
                tokenSemantics == old(tokenSemantics).(longValue :=
                  if buffer[tokenStart] == '0' then NumberValue(buffer, tokenStart + 1, 8)
                  else NumberValue(buffer, tokenStart, 10))
    {
      if tokenStart == |buffer| {
        return IndexOutOfRange;
      }
      var token: Tokens, value: int64;
      if buffer[tokenStart] == '0' {
        token, value := GetTokenAsDecimalNumber(1, 8);
      } else {
        token, value := GetTokenAsDecimalNumber(0, 10);
      }
      tokenSemantics := tokenSemantics.(longValue := value);
      if token == T_DNUMBER {
        // the TooBigIntegerConversion warning: unreachable
        assert false;
      }
      return Done(token);
    }

    /** `ProcessHexadecimalNumber`: the value of the digits after "0x"; never reported as too big. */
    method ProcessHexadecimalNumber() returns (t: Tokens)
      requires Valid()
      modifies this`tokenSemantics
      ensures t == T_LNUMBER
      ensures tokenSemantics == old(tokenSemantics).(longValue := NumberValue(buffer, tokenStart + 2, 16))
    {
      var token, value := GetTokenAsDecimalNumber(2, 16);
      tokenSemantics := tokenSemantics.(longValue := value);
      if token == T_DNUMBER {
        // the TooBigIntegerConversion warning: unreachable
        assert false;
      }
      return token;
    }

    /** `ProcessVariableOffsetNumber`: a numeric array offset inside a string is always T_NUM_STRING. */
    method ProcessVariableOffsetNumber() returns (t: Tokens)
      requires Valid()
      modifies this`tokenSemantics
      ensures t == T_NUM_STRING
      ensures tokenSemantics == old(tokenSemantics).(longValue := NumberValue(buffer, tokenStart, 10))
    {
      var token, value := GetTokenAsDecimalNumber(0, 10);
      tokenSemantics := tokenSemantics.(longValue := value);
      if token == T_DNUMBER {
        // the conversion of the double value back to long: unreachable
        assert false;
      }
      return T_NUM_STRING;
    }

    /** `ProcessLabel`. */
    method ProcessLabel() returns (t: Tokens)
      requires Valid()
      modifies this`tokenSemantics
      ensures t == T_STRING
      ensures tokenSemantics == old(tokenSemantics).(obj := Str(buffer[tokenStart..tokenEnd]))
    {
      var s := GetTokenString();
      tokenSemantics := tokenSemantics.(obj := Str(s));
      return T_STRING;
    }

    /** `ProcessVariable`: the name without its '$'. */
    method ProcessVariable() returns (t: Tokens)
      requires Valid() && TokenLength() >= 1
      modifies this`tokenSemantics
      ensures t == T_VARIABLE
      ensures tokenSemantics == old(tokenSemantics).(obj := Str(buffer[tokenStart + 1..tokenEnd]))
    {
      var s := GetTokenSubstring(1, TokenLength() - 1);
      tokenSemantics := tokenSemantics.(obj := Str(s));
      return T_VARIABLE;
    }

    /** `ProcessVariableOffsetString`. */
    method ProcessVariableOffsetString() returns (t: Tokens)
      requires Valid()
      modifies this`tokenSemantics
      ensures t == T_NUM_STRING
      ensures tokenSemantics == old(tokenSemantics).(obj := Str(buffer[tokenStart..tokenEnd]))
    {
      var s := GetTokenString();
      tokenSemantics := tokenSemantics.(obj := Str(s));
      return T_NUM_STRING;
    }

    // ----- string literals -----

    /** `GetTokenAsQuotedString(tryprocess, quote)`. */
    method GetTokenAsQuotedString(h: EscapeHandler, quote: char) returns (r: Outcome<Text>)
      requires Valid()
      ensures r == QuotedLiteral(buffer, tokenStart, tokenEnd, h, quote, Context())
    {
      if tokenStart == tokenEnd {
        return Done(Plain(""));
      }
      var q := QuotedBodyOf(buffer, tokenStart, tokenEnd, quote);
      r := ProcessStringText(buffer, q.start, q.end - q.start, h, Context(), q.binary);
    }

    /**
     * `ProcessEscapedStringWithEnding(buffer, BufferTokenStart, TokenLength, ending)`, the
     * way every caller uses it: decodes the current token with the double-quoted handler,
     * leaving out and giving back a final `ending` that follows "$" or "{".
     */
    method ProcessEscapedStringWithEnding(ending: char) returns (r: Outcome<Text>)
      requires Valid()
      modifies this`tokenEnd, this`lookaheadIndex
      ensures Valid()
      ensures var e := old(EscapedWithEnding(buffer, tokenStart, tokenEnd - tokenStart, ending, Context()));
              r == e.0 && tokenEnd == old(tokenEnd) - e.1
      ensures lookaheadIndex == if tokenEnd == old(tokenEnd) then old(lookaheadIndex) else tokenEnd
    {
      var start, length := tokenStart, TokenLength();
      if start + length - 1 < 0 {
        return IndexOutOfRange;
      }
      var ctx := Context();
      EscapedWithEndingCases(buffer, start, length, ending, ctx);
      var c2 := if length >= 2 then buffer[start + length - 2] else 0 as char;
      if buffer[start + length - 1] == ending && (c2 == '$' || c2 == '{') {
        assert EndsBeforeInterpolation(buffer, start, length, ending);
        r := ProcessStringText(buffer, start, length - 1, DoubleQuoted, ctx, false);
        if r.IndexOutOfRange? {
          return;
        }
        YyLess(1);
      } else {
        assert !EndsBeforeInterpolation(buffer, start, length, ending);
        r := ProcessStringText(buffer, start, length, DoubleQuoted, ctx, false);
      }
    }

    /** `ProcessSingleQuotedString`: decoding a single-quoted literal never fails. */
    method ProcessSingleQuotedString() returns (t: Tokens)
      requires Valid()
      modifies this`tokenSemantics
      ensures t == T_CONSTANT_ENCAPSED_STRING
      ensures var o := QuotedLiteral(buffer, tokenStart, tokenEnd, SingleQuoted, '\'', Context());
              o.Done? && tokenSemantics == old(tokenSemantics).(obj := Literal(o.value), quoteToken := T_SINGLE_QUOTES)
    {
      SingleQuotedLiteralDone(buffer, tokenStart, tokenEnd, Context());
      var o := GetTokenAsQuotedString(SingleQuoted, '\'');
      tokenSemantics := tokenSemantics.(obj := Literal(o.value), quoteToken := T_SINGLE_QUOTES);
      return T_CONSTANT_ENCAPSED_STRING;
    }

    /** `ProcessDoubleQuotedString`. */
    method ProcessDoubleQuotedString() returns (r: Outcome<Tokens>)
      requires Valid()
      modifies this`tokenSemantics
      ensures var o := QuotedLiteral(buffer, tokenStart, tokenEnd, DoubleQuoted, '"', Context());
              (o.Done? ==> (r == Done(T_CONSTANT_ENCAPSED_STRING) &&
                            tokenSemantics == old(tokenSemantics).(obj := Literal(o.value), quoteToken := T_DOUBLE_QUOTES))) &&
              (o.IndexOutOfRange? ==> r == IndexOutOfRange && tokenSemantics == old(tokenSemantics))
    {
      var o := GetTokenAsQuotedString(DoubleQuoted, '"');
      if o.IndexOutOfRange? {
        return IndexOutOfRange;
      }
      tokenSemantics := tokenSemantics.(obj := Literal(o.value), quoteToken := T_DOUBLE_QUOTES);
      return Done(T_CONSTANT_ENCAPSED_STRING);
    }

    // ----- heredoc -----

    /** `LocateHeredocPrefix(text)`: the indentation to strip; an over-indented closing label is reported at the token position. */
    method LocateHeredocPrefix(text: string) returns (prefix: string)
      modifies this`errors
      ensures prefix == HeredocPrefix(text)
      ensures errors == old(errors) + HeredocDiagnostics(text, tokenPosition)
    {
      var incorrect;
      prefix, incorrect := ScanHeredocPrefix(text);
      if incorrect {
        errors := errors + [Diagnostic(tokenPosition, SyntaxError(INCORRECT_HEREDOC_INDENTATION))];
      }
    }

    /** `FixHeredocIndent(text)`: the text without its first prefix and with the prefix removed after every newline. */
    method FixHeredocIndent(text: string) returns (r: string)
      modifies this`errors
      ensures r == FixedHeredoc(text)
      ensures errors == old(errors) + HeredocDiagnostics(text, tokenPosition)
    {
      var prefix := LocateHeredocPrefix(text);
      HeredocPrefixFits(text);
      r := ReplaceAll(text[|prefix|..], "\n" + prefix, "\n");
    }

    /** `LabelTrailLength()`: how many whitespace and ';' characters the token ends with. */
    method LabelTrailLength() returns (length: int)
      requires Valid()
      ensures length == TrailLength(buffer, tokenStart, tokenEnd)
    {
      length := 0;
      var i := tokenEnd - 1;
      while i >= tokenStart
        invariant tokenStart - 1 <= i < tokenEnd
        invariant length == tokenEnd - 1 - i
        invariant TrailLength(buffer, tokenStart, tokenEnd) == length + TrailLength(buffer, tokenStart, i + 1)
        decreases i
      {
        if IsWhiteSpace(buffer[i]) || buffer[i] == ';' {
          length := length + 1;
        } else {
          break;
        }
        i := i - 1;
      }
    }

    /** How many characters the closing label and the whitespace or ';' after it take at the end of the token. */
    function ClosingCut(): int
      reads this`tokenStart, this`tokenEnd, this`lookaheadIndex, this`hereDocLabel
      requires Valid() && hereDocLabel.Some?
    {
      |hereDocLabel.value| + TrailLength(buffer, tokenStart, tokenEnd)
    }


    /**
     * `ProcessEndNowDoc(tryprocess)`: the token is a heredoc or nowdoc body followed by its
     * closing label and trailing whitespace or ';'. The state becomes ST_END_HEREDOC before the
     * body is decoded; the body loses its indentation, the token end moves back by the label
     * and its trail (counted from `lookahead_index`), and the pair of the fixed text and the
     * source text becomes the semantic value. The answer says whether the fixed text is
     * non-empty; `body` is the decoded body before its indentation is removed.
     */
    method ProcessEndNowDoc(tryprocess: Option<EscapeHandler>) returns (r: Outcome<bool>, ghost body: Outcome<string>)
      requires Valid() && hereDocLabel.Some? && ClosingCut() <= TokenLength()
      modifies this`currentState, this`tokenEnd, this`lookaheadIndex, this`errors, this`tokenSemantics
      ensures currentState == ST_END_HEREDOC && Valid()
      ensures body == HeredocBody(buffer, tokenStart, old(TokenLength() - ClosingCut()), tryprocess, Context())
      ensures body.IndexOutOfRange? ==>
                r == IndexOutOfRange && tokenEnd == old(tokenEnd) && lookaheadIndex == old(lookaheadIndex) &&
                errors == old(errors) && tokenSemantics == old(tokenSemantics)
      ensures body.Done? ==>
                var text := FixedHeredoc(body.value);
                r == Done(|text| != 0) &&
                tokenEnd == old(lookaheadIndex - ClosingCut()) && lookaheadIndex == tokenEnd &&
                errors == old(errors) + HeredocDiagnostics(body.value, tokenPosition) &&
                tokenSemantics == old(tokenSemantics.(obj := Pair(text, buffer[tokenStart..tokenEnd - ClosingCut()])))
    {
      var decoded, sourceText, cut := ReadClosingBody(tryprocess);
      body := decoded;
      if decoded.IndexOutOfRange? {
        return IndexOutOfRange, body;
      }
      var nonEmpty := CloseHeredoc(decoded.value, sourceText, cut);
      return Done(nonEmpty), body;
    }

    /**
     * The second half of `ProcessEndNowDoc`: remove the indentation from the decoded body,
     * move the token end (and the lookahead) back by `cut` from the lookahead, and store the
     * pair of the fixed text and the source text; the answer says whether the fixed text is
     * non-empty.
     */
    method CloseHeredoc(decoded: string, sourceText: string, cut: int) returns (nonEmpty: bool)
      requires Valid() && tokenStart <= lookaheadIndex - cut <= lookaheadIndex
      modifies this`tokenEnd, this`lookaheadIndex, this`errors, this`tokenSemantics
      ensures Valid()
      ensures var text := FixedHeredoc(decoded);
              nonEmpty == (|text| != 0) &&
              tokenEnd == old(lookaheadIndex) - cut && lookaheadIndex == tokenEnd &&
              errors == old(errors) + HeredocDiagnostics(decoded, tokenPosition) &&
              tokenSemantics == old(tokenSemantics).(obj := Pair(text, sourceText))
    {
      var text := FixHeredocIndent(decoded);
      ghost var logged := errors;
      tokenEnd := lookaheadIndex - cut;
      lookaheadIndex := tokenEnd;
      tokenSemantics := tokenSemantics.(obj := Pair(text, sourceText));
      assert errors == logged;
      return |text| != 0;
    }

    /**
     * The first half of `ProcessEndNowDoc`: enter ST_END_HEREDOC, measure the closing label
     * with its trail, and read the body in front of it both as source text and decoded.
     */
    method ReadClosingBody(tryprocess: Option<EscapeHandler>) returns (body: Outcome<string>, sourceText: string, cut: int)
      requires Valid() && hereDocLabel.Some? && ClosingCut() <= TokenLength()
      modifies this`currentState
      ensures currentState == ST_END_HEREDOC
      ensures cut == old(ClosingCut()) && sourceText == old(buffer[tokenStart..tokenEnd - ClosingCut()])
      ensures body == HeredocBody(buffer, tokenStart, old(TokenLength() - ClosingCut()), tryprocess, Context())
    {
      currentState := ST_END_HEREDOC;
      var trail := LabelTrailLength();
      var closing := hereDocLabel.value;
      var length := TokenLength() - |closing| - trail;
      sourceText := GetTokenSubstring(0, length);
      body := DecodeHeredocBody(buffer, tokenStart, length, tryprocess, Context());
      cut := |closing| + trail;
    }

    // ----- text inside strings -----

    /**
     * `_tokenSemantics.Object = new KeyValuePair<string, string>((string)ProcessEscapedStringWithEnding(buffer,
     * BufferTokenStart, TokenLength, ending), GetTokenString())`, the statement `ProcessStringEOF` and
     * `ProcessText` share: the token is decoded first (giving back a final `ending`), then read.
     */
    method StoreEncapsedText(ending: char) returns (r: Outcome<Text>)
      requires Valid()
      modifies this`tokenEnd, this`lookaheadIndex, this`tokenSemantics
      ensures Valid()
      ensures var e := old(EncapsedEffect(buffer, tokenStart, tokenEnd, ending, Context(), tokenSemantics));
              r == e.0 && tokenEnd == e.1 && tokenSemantics == e.2
      ensures lookaheadIndex == if tokenEnd == old(tokenEnd) then old(lookaheadIndex) else tokenEnd
    {
      r := ProcessEscapedStringWithEnding(ending);
      if r.IndexOutOfRange? {
        return;
      }
      var source := GetTokenString();
      tokenSemantics := tokenSemantics.(obj := Pair(TextString(r.value), source));
    }

    /**
     * `ProcessStringEOF`: at the end of input inside a string, a token opening with '"' is cut
     * to that quote; anything else is decoded up to a final '"' after "$" or "{".
     */
    method ProcessStringEOF() returns (r: Outcome<Tokens>)
      requires Valid()
      modifies this`tokenEnd, this`lookaheadIndex, this`tokenSemantics
      ensures Valid()
      ensures old(TokenLength() > 1 && buffer[tokenStart] == '"') ==>
                r == Done(T_DOUBLE_QUOTES) && tokenEnd == tokenStart + 1 && lookaheadIndex == tokenEnd &&
                tokenSemantics == old(tokenSemantics)
      ensures !old(TokenLength() > 1 && buffer[tokenStart] == '"') ==>
                var e := old(EncapsedEffect(buffer, tokenStart, tokenEnd, '"', Context(), tokenSemantics));
                r == (if e.0.Done? then Done(T_ENCAPSED_AND_WHITESPACE) else IndexOutOfRange) &&
                tokenEnd == e.1 && tokenSemantics == e.2 &&
                lookaheadIndex == if tokenEnd == old(tokenEnd) then old(lookaheadIndex) else tokenEnd
    {
      if TokenLength() > 1 && buffer[tokenStart] == '"' {
        YyLess(TokenLength() - 1);
        return Done(T_DOUBLE_QUOTES);
      }
      var o := StoreEncapsedText('"');
      return if o.Done? then Done(T_ENCAPSED_AND_WHITESPACE) else IndexOutOfRange;
    }

    /** `ProcessEof(token)`: the rest of the input as a last token of the given kind, or EOF when there is none. */
    method ProcessEof(token: Tokens) returns (t: Tokens)
      requires Valid()
      modifies this`tokenSemantics
      ensures TokenLength() > 0 ==>
                var text := buffer[tokenStart..tokenEnd];
                t == token &&
                tokenSemantics == old(tokenSemantics).(obj := if token == T_ENCAPSED_AND_WHITESPACE then Pair(text, text) else Str(text))
      ensures TokenLength() == 0 ==> t == EOF && tokenSemantics == old(tokenSemantics)
    {
      if TokenLength() > 0 {
        var text := GetTokenString();
        tokenSemantics := tokenSemantics.(obj := if token == T_ENCAPSED_AND_WHITESPACE then Pair(text, text) else Str(text));
        return token;
      }
      return EOF;
    }

    /** `WithTokenString(token)`. */
    method WithTokenString(token: Tokens) returns (t: Tokens)
      requires Valid()
      modifies this`tokenSemantics
      ensures t == token && tokenSemantics == old(tokenSemantics).(obj := Str(buffer[tokenStart..tokenEnd]))
    {
      var s := GetTokenString();
      tokenSemantics := tokenSemantics.(obj := Str(s));
      return token;
    }

    /**
     * `ProcessText(count, newState, ending, out token)`: gives back `count` characters, enters
     * `newState` (so the text is decoded in it) and decodes what is left of the token; an
     * empty token asks for more input instead.
     */
    method ProcessText(count: int, newState: LexicalState, ending: char) returns (r: Outcome<bool>, token: Tokens)
      requires Valid() && 0 <= count <= TokenLength()
      modifies this`tokenEnd, this`lookaheadIndex, this`stateStack, this`currentState, this`tokenSemantics, this`moreRequested
      ensures Valid() && token == T_ENCAPSED_AND_WHITESPACE
      ensures stateStack == old(stateStack) + [old(currentState)] && currentState == newState
      ensures old(tokenEnd) - count == tokenStart ==>
                r == Done(false) && moreRequested && tokenEnd == tokenStart && tokenSemantics == old(tokenSemantics)
      ensures old(tokenEnd) - count > tokenStart ==>
                var e := EncapsedEffect(buffer, tokenStart, old(tokenEnd) - count, ending, Context(), old(tokenSemantics));
                r == (if e.0.Done? then Done(true) else IndexOutOfRange) &&
                tokenEnd == e.1 && tokenSemantics == e.2 && moreRequested == old(moreRequested)
      ensures lookaheadIndex == tokenEnd
    {
      YyLess(count);
      token := T_ENCAPSED_AND_WHITESPACE;
      PushState(newState);
      if TokenLength() > 0 {
        ghost var e := EncapsedEffect(buffer, tokenStart, tokenEnd, ending, Context(), tokenSemantics);
        assert e == EncapsedEffect(buffer, tokenStart, old(tokenEnd) - count, ending, Context(), old(tokenSemantics));
        var o := StoreEncapsedText(ending);
        return if o.Done? then Done(true) else IndexOutOfRange, token;
      }
      moreRequested := true;
      return Done(false), token;
    }

    /**
     * `ProcessString(count, out token)`: a whole "..." literal (when one character is given
     * back) is decoded in ST_IN_SCRIPTING; another token opening with '"' is cut to that
     * quote; the rest is text inside a double-quoted string.
     */
    method ProcessString(count: int) returns (r: Outcome<bool>, token: Tokens)
      requires Valid()
      requires (TokenLength() > 1 && buffer[tokenStart] == '"') || 0 <= count <= TokenLength()
      modifies this`tokenEnd, this`lookaheadIndex, this`stateStack, this`currentState, this`tokenSemantics, this`moreRequested
      ensures Valid()
      ensures var whole := count == 1 && old(TokenLength()) > 1 && buffer[tokenStart] == '"' && buffer[old(tokenEnd) - 1] == '"';
              var opening := !whole && old(TokenLength()) > 1 && buffer[tokenStart] == '"';
              (whole ==>
                 var o := QuotedLiteral(buffer, tokenStart, tokenEnd, DoubleQuoted, '"', EscapeContext(ST_IN_SCRIPTING, enableUtfCodepoints));
                 currentState == ST_IN_SCRIPTING && stateStack == old(stateStack) &&
                 tokenEnd == old(tokenEnd) && lookaheadIndex == old(lookaheadIndex) && moreRequested == old(moreRequested) &&
                 (o.Done? ==> r == Done(true) && token == T_CONSTANT_ENCAPSED_STRING &&
                              tokenSemantics == old(tokenSemantics).(obj := Literal(o.value), quoteToken := T_DOUBLE_QUOTES)) &&
                 (o.IndexOutOfRange? ==> r == IndexOutOfRange && tokenSemantics == old(tokenSemantics))) &&
              (opening ==>
                 r == Done(true) && token == T_DOUBLE_QUOTES && tokenEnd == tokenStart + 1 && lookaheadIndex == tokenEnd &&
                 currentState == old(currentState) && stateStack == old(stateStack) &&
                 tokenSemantics == old(tokenSemantics) && moreRequested == old(moreRequested)) &&
              (!whole && !opening ==>
                 token == T_ENCAPSED_AND_WHITESPACE &&
                 stateStack == old(stateStack) + [old(currentState)] && currentState == ST_IN_STRING &&
                 (r, tokenEnd, tokenSemantics, moreRequested) ==
                 TextEffect(buffer, tokenStart, old(tokenEnd) - count, '"', EscapeContext(ST_IN_STRING, enableUtfCodepoints), old(tokenSemantics), old(moreRequested)) &&
                 lookaheadIndex == tokenEnd)
    {
      if count == 1 && TokenLength() > 1 && buffer[tokenStart] == '"' && buffer[tokenEnd - 1] == '"' {
        currentState := ST_IN_SCRIPTING;
        var o := ProcessDoubleQuotedString();
        if o.IndexOutOfRange? {
          return IndexOutOfRange, END;
        }
        return Done(true), o.value;
      } else if TokenLength() > 1 && buffer[tokenStart] == '"' {
        YyLess(TokenLength() - 1);
        return Done(true), T_DOUBLE_QUOTES;
      }
      r, token := ProcessText(count, ST_IN_STRING, '"');
    }

    /** `ProcessShell(count, out token)`: text inside a `...` command. */
    method ProcessShell(count: int) returns (r: Outcome<bool>, token: Tokens)
      requires Valid() && 0 <= count <= TokenLength()
      modifies this`tokenEnd, this`lookaheadIndex, this`stateStack, this`currentState, this`tokenSemantics, this`moreRequested
      ensures Valid() && token == T_ENCAPSED_AND_WHITESPACE
      ensures stateStack == old(stateStack) + [old(currentState)] && currentState == ST_IN_SHELL
      ensures (r, tokenEnd, tokenSemantics, moreRequested) ==
              TextEffect(buffer, tokenStart, old(tokenEnd) - count, '`', EscapeContext(ST_IN_SHELL, enableUtfCodepoints), old(tokenSemantics), old(moreRequested))
      ensures lookaheadIndex == tokenEnd
    {
      r, token := ProcessText(count, ST_IN_SHELL, '`');
    }

    /** `ProcessHeredoc(count, out token)`: text inside a heredoc, where no character ends the literal (the ending is '\0'). */
    method ProcessHeredoc(count: int) returns (r: Outcome<bool>, token: Tokens)
      requires Valid() && 0 <= count <= TokenLength()
      modifies this`tokenEnd, this`lookaheadIndex, this`stateStack, this`currentState, this`tokenSemantics, this`moreRequested
      ensures Valid() && token == T_ENCAPSED_AND_WHITESPACE
      ensures stateStack == old(stateStack) + [old(currentState)] && currentState == ST_IN_HEREDOC
      ensures (r, tokenEnd, tokenSemantics, moreRequested) ==
              TextEffect(buffer, tokenStart, old(tokenEnd) - count, '\0', EscapeContext(ST_IN_HEREDOC, enableUtfCodepoints), old(tokenSemantics), old(moreRequested))
      ensures lookaheadIndex == tokenEnd
    {
      r, token := ProcessText(count, ST_IN_HEREDOC, '\0');
    }

    // ----- compressed state -----

    /** `GetCompressedState()`: a snapshot of the heredoc label, the current state, the stack (top first) and the doc block. */
    method GetCompressedState() returns (s: CompressedState)
      ensures s.hereDocLabel == hereDocLabel && s.currentState == currentState && s.phpDoc == docBlock
      ensures s.stateStack == Reverse(stateStack)
    {
      s := CompressedState(hereDocLabel, currentState, StackToArray(stateStack), docBlock);
    }

    /** `RestoreCompressedState(state)`: the fields come back from the snapshot, the stack rebuilt from its array. */
    method RestoreCompressedState(s: CompressedState)
      modifies this`hereDocLabel, this`stateStack, this`currentState, this`docBlock
      ensures hereDocLabel == s.hereDocLabel && currentState == s.currentState && docBlock == s.phpDoc
      ensures stateStack == GetStateStack(s)
    {
      hereDocLabel := s.hereDocLabel;
      stateStack := GetStateStack(s);
      currentState := s.currentState;
      docBlock := s.phpDoc;
    }
  }
}
