/**
 * Heredoc indentation (PHP 7.3 flexible heredoc): the closing label may be indented, and
 * that indentation is removed from every line of the body. The scanner computes the
 * prefix to remove from the lines of the text, reconciling the indentation of each line
 * with the prefix found so far, and then strips it with an ordinal string replace.
 *
 * This module states that computation line by line; the scanner's character loop is
 * proved equal to it in the Lexer module.
 */
module Heredoc {
  import opened Chars

  /** A string made only of spaces and tabs. */
  predicate AllIndent(s: string)
  {
    forall k :: 0 <= k < |s| ==> IsIndentChar(s[k])
  }

  /** The maximal run of spaces and tabs a line starts with. */
  function LeadingIndent(line: string): (p: string)
    ensures p <= line && AllIndent(p)
    ensures |p| < |line| ==> !IsIndentChar(line[|p|])
  {
    if |line| > 0 && IsIndentChar(line[0]) then [line[0]] + LeadingIndent(line[1..]) else ""
  }

  /** The text cut at every '\n'; the last element is what follows the last newline. */
  function Lines(text: string): (ls: seq<string>)
    ensures |ls| >= 1
    decreases |text|
  {
    if text == [] then [""]
    else
      var init := Lines(text[..|text| - 1]);
      var c := text[|text| - 1];
      if c == '\n' then init + [""] else init[..|init| - 1] + [init[|init| - 1] + [c]]
  }

  function Last<T>(s: seq<T>): T
    requires |s| > 0
  {
    s[|s| - 1]
  }

  function Init<T>(s: seq<T>): seq<T>
    requires |s| > 0
  {
    s[..|s| - 1]
  }

  /**
   * One reconciliation step between the prefix so far and the indentation `next` of the
   * line just ended: a shorter indentation that the prefix starts with replaces it, an
   * indentation that does not extend the prefix clears it, and a longer one keeps it.
   */
  function Reconcile(prefix: string, next: string): (r: string)
    ensures r == next || r == "" || r == prefix
    ensures r <= prefix && r <= next
  {
    if next <= prefix then next
    else if !(prefix <= next) then ""
    else prefix
  }

  /** The prefix after the lines `ls` have ended, starting from the whole text. */
  function ReconcileAll(text: string, ls: seq<string>): string
  {
    if ls == [] then text else Reconcile(ReconcileAll(text, Init(ls)), LeadingIndent(Last(ls)))
  }

  /** The prefix reconciled over every line that ends with a newline. */
  function ReconciledPrefix(text: string): string
  {
    ReconcileAll(text, Init(Lines(text)))
  }

  /** The indentation of the last line: the whitespace in front of the closing label. */
  function ClosingIndent(text: string): string
  {
    LeadingIndent(Last(Lines(text)))
  }

  /** "Incorrect heredoc indentation.": the closing label is indented more than the reconciled prefix. */
  predicate IndentationError(text: string)
  {
    |ClosingIndent(text)| > |ReconciledPrefix(text)|
  }

  /** What `LocateHeredocPrefix` returns. */
  function HeredocPrefix(text: string): string
  {
    if IndentationError(text) then ReconciledPrefix(text) else ClosingIndent(text)
  }

  /** C# ordinal `String.Replace`: every occurrence of `pattern`, scanning left to right without overlap. */
  function ReplaceAll(s: string, pattern: string, replacement: string): string
    requires |pattern| > 0
    decreases |s|
  {
    if |s| < |pattern| then s
    else if s[..|pattern|] == pattern then replacement + ReplaceAll(s[|pattern|..], pattern, replacement)
    else [s[0]] + ReplaceAll(s[1..], pattern, replacement)
  }

  /** `FixHeredocIndent` once the prefix is known: drop |prefix| characters, then every "\n" + prefix becomes "\n". */
  function FixIndent(text: string, prefix: string): string
    requires |prefix| <= |text|
  {
    ReplaceAll(text[|prefix|..], "\n" + prefix, "\n")
  }

  // ----- how the lines grow, one character at a time -----

  lemma AllIndentLeading(s: string)
    requires AllIndent(s)
    ensures LeadingIndent(s) == s
  {
    if |s| > 0 {
      assert AllIndent(s[1..]);
      AllIndentLeading(s[1..]);
    }
  }

  /** Appending a character to a line changes its indentation only while the line is still all indentation. */
  lemma {:induction false} LeadingIndentSnoc(x: string, c: char)
    ensures LeadingIndent(x + [c]) == (if AllIndent(x) && IsIndentChar(c) then x + [c] else LeadingIndent(x))
  {
    if |x| == 0 {
      assert x + [c] == [c];
      assert [c][1..] == [];
    } else {
      assert (x + [c])[0] == x[0];
      assert (x + [c])[1..] == x[1..] + [c];
      LeadingIndentSnoc(x[1..], c);
      if IsIndentChar(x[0]) {
        assert AllIndent(x) <==> AllIndent(x[1..]) by {
          if AllIndent(x[1..]) {
            forall k | 0 <= k < |x| ensures IsIndentChar(x[k]) {
              if k > 0 {
                assert x[k] == x[1..][k - 1];
              }
            }
          }
        }
        if AllIndent(x) && IsIndentChar(c) {
          assert [x[0]] + (x[1..] + [c]) == x + [c];
        }
      } else {
        assert !AllIndent(x);
      }
    }
  }

  lemma AllIndentSnoc(x: string, c: char)
    ensures AllIndent(x + [c]) <==> AllIndent(x) && IsIndentChar(c)
  {
    if AllIndent(x + [c]) {
      assert (x + [c])[|x|] == c;
      forall k | 0 <= k < |x| ensures IsIndentChar(x[k]) {
        assert (x + [c])[k] == x[k];
      }
    }
  }

  /** The lines of t + [c] in terms of the lines of t. */
  lemma LinesSnoc(t: string, c: char)
    ensures Lines(t + [c]) == (if c == '\n' then Lines(t) + [""]
                               else Init(Lines(t)) + [Last(Lines(t)) + [c]])
  {
    assert (t + [c])[..|t|] == t;
  }

  // ----- properties -----

  /** The first line is a prefix of the text. */
  lemma {:induction false} FirstLineIsPrefix(text: string)
    ensures Lines(text)[0] <= text
    ensures |Lines(text)| == 1 ==> Lines(text)[0] == text
    decreases |text|
  {
    if text != [] {
      var t, c := text[..|text| - 1], text[|text| - 1];
      assert t + [c] == text;
      FirstLineIsPrefix(t);
      LinesSnoc(t, c);
      if c == '\n' {
        assert Lines(text)[0] == Lines(t)[0];
      } else if |Lines(t)| > 1 {
        assert Lines(text)[0] == Lines(t)[0];
      } else {
        assert Lines(text)[0] == t + [c];
      }
    }
  }

  /** Without a newline there is nothing to reconcile and the closing indentation always fits. */
  lemma SingleLineNoError(text: string)
    requires |Lines(text)| == 1
    ensures !IndentationError(text)
  {
    FirstLineIsPrefix(text);
    assert LeadingIndent(Lines(text)[0]) <= text;
  }

  /** After at least one line has ended the prefix consists of spaces and tabs. */
  lemma {:induction false} ReconcileAllIsIndent(text: string, ls: seq<string>)
    requires |ls| >= 1 && ls[0] <= text
    ensures AllIndent(ReconcileAll(text, ls))
  {
    var p := ReconcileAll(text, Init(ls));
    var next := LeadingIndent(Last(ls));
    if |ls| == 1 {
      assert next <= ls[0];
      assert Reconcile(text, next) == next;
    } else {
      assert Init(ls)[0] == ls[0];
      ReconcileAllIsIndent(text, Init(ls));
      var r := Reconcile(p, next);
      assert r <= p;
      assert forall k :: 0 <= k < |r| ==> r[k] == p[k];
    }
  }

  /** The prefix `LocateHeredocPrefix` returns consists only of spaces and tabs. */
  lemma HeredocPrefixIsIndent(text: string)
    ensures AllIndent(HeredocPrefix(text))
  {
    var ls := Lines(text);
    if |ls| == 1 {
      SingleLineNoError(text);
    } else if IndentationError(text) {
      FirstLineIsPrefix(text);
      assert Init(ls)[0] == ls[0];
      ReconcileAllIsIndent(text, Init(ls));
    }
  }

  /**
   * The reconciled prefix is a prefix of the indentation of every line that ends with a
   * newline: reconciliation never keeps a character some line does not start with.
   */
  lemma {:induction false} ReconciledIsCommonPrefix(text: string, ls: seq<string>, k: int)
    requires 0 <= k < |ls|
    ensures ReconcileAll(text, ls) <= LeadingIndent(ls[k])
  {
    if k == |ls| - 1 {
    } else {
      ReconciledIsCommonPrefix(text, Init(ls), k);
      assert Init(ls)[k] == ls[k];
    }
  }

  /** Once a line with no indentation (a blank line, say) has ended, the prefix stays empty. */
  lemma {:induction false} EmptyIndentClears(text: string, ls: seq<string>, k: int)
    requires 0 <= k < |ls| && LeadingIndent(ls[k]) == ""
    ensures ReconcileAll(text, ls) == ""
  {
    ReconciledIsCommonPrefix(text, ls, k);
  }

  /**
   * A heredoc with a blank line in its body and an indented closing label is reported as
   * incorrectly indented, and nothing is stripped from it.
   */
  lemma BlankLineRejectsIndentedClosing(text: string, k: int)
    requires 0 <= k < |Lines(text)| - 1 && Lines(text)[k] == ""
    requires ClosingIndent(text) != ""
    ensures IndentationError(text) && HeredocPrefix(text) == ""
  {
    var ls := Lines(text);
    assert Init(ls)[k] == ls[k];
    EmptyIndentClears(text, Init(ls), k);
  }

  /**
   * Any body line indented less than the closing label makes the heredoc incorrectly
   * indented, and the prefix stays the reconciled one rather than the closing indentation.
   */
  lemma LessIndentedLineErrors(text: string, k: int)
    requires 0 <= k < |Lines(text)| - 1
    requires |LeadingIndent(Lines(text)[k])| < |ClosingIndent(text)|
    ensures IndentationError(text) && HeredocPrefix(text) == ReconciledPrefix(text)
  {
    var ls := Lines(text);
    assert Init(ls)[k] == ls[k];
    ReconciledIsCommonPrefix(text, Init(ls), k);
  }

  /** When every line of the body is indented exactly like the closing label, that indentation is the prefix and no error is reported. */
  lemma UniformIndent(text: string)
    requires forall k :: 0 <= k < |Lines(text)| ==> LeadingIndent(Lines(text)[k]) == ClosingIndent(text)
    ensures !IndentationError(text) && HeredocPrefix(text) == ClosingIndent(text)
  {
    var ls := Lines(text);
    var w := ClosingIndent(text);
    FirstLineIsPrefix(text);
    if |ls| == 1 {
      SingleLineNoError(text);
    } else {
      assert Init(ls)[0] == ls[0];
      forall k | 0 <= k < |Init(ls)| ensures LeadingIndent(Init(ls)[k]) == w {
        assert Init(ls)[k] == ls[k];
      }
      UniformReconcile(text, Init(ls), w);
    }
  }

  lemma {:induction false} UniformReconcile(text: string, ls: seq<string>, w: string)
    requires |ls| >= 1 && ls[0] <= text
    requires forall k :: 0 <= k < |ls| ==> LeadingIndent(ls[k]) == w
    ensures ReconcileAll(text, ls) == w
  {
    if |ls| == 1 {
      assert w <= ls[0];
    } else {
      assert Init(ls)[0] == ls[0];
      UniformReconcile(text, Init(ls), w);
    }
  }

  /** The prefix is never longer than the text, so `text.Substring(prefix.Length)` cannot fail. */
  lemma HeredocPrefixFits(text: string)
    ensures |HeredocPrefix(text)| <= |text|
  {
    var ls := Lines(text);
    FirstLineIsPrefix(text);
    if |ls| == 1 {
      assert ClosingIndent(text) <= ls[0];
    } else {
      assert Init(ls)[0] == ls[0];
      ReconciledIsCommonPrefix(text, Init(ls), 0);
      assert LeadingIndent(ls[0]) <= ls[0];
    }
  }

  /** Replacing a string by itself changes nothing. */
  lemma {:induction false} ReplaceAllSelf(s: string, pattern: string)
    requires |pattern| > 0
    ensures ReplaceAll(s, pattern, pattern) == s
    decreases |s|
  {
    if |s| >= |pattern| {
      if s[..|pattern|] == pattern {
        ReplaceAllSelf(s[|pattern|..], pattern);
        assert pattern + s[|pattern|..] == s;
      } else {
        ReplaceAllSelf(s[1..], pattern);
        assert [s[0]] + s[1..] == s;
      }
    }
  }

  /** With an empty prefix the text comes back unchanged. */
  lemma FixIndentEmptyPrefix(text: string)
    ensures FixIndent(text, "") == text
  {
    assert text[0..] == text;
    assert "\n" + "" == "\n";
    ReplaceAllSelf(text, "\n");
  }

  /** Replacing by something no longer never makes the text longer. */
  lemma {:induction false} ReplaceAllShrinks(s: string, pattern: string, replacement: string)
    requires |replacement| <= |pattern| && |pattern| > 0
    ensures |ReplaceAll(s, pattern, replacement)| <= |s|
    decreases |s|
  {
    if |s| >= |pattern| {
      if s[..|pattern|] == pattern {
        ReplaceAllShrinks(s[|pattern|..], pattern, replacement);
      } else {
        ReplaceAllShrinks(s[1..], pattern, replacement);
      }
    }
  }

  /** `pattern` occurs in `s` at index i. */
  predicate MatchAt(s: string, pattern: string, i: int)
  {
    0 <= i && i + |pattern| <= |s| && s[i..i + |pattern|] == pattern
  }

  /** Text without an occurrence of `pattern` passes through unchanged. */
  lemma {:induction false} ReplaceAllNoMatch(s: string, pattern: string, replacement: string)
    requires |pattern| > 0
    requires forall i :: !MatchAt(s, pattern, i)
    ensures ReplaceAll(s, pattern, replacement) == s
    decreases |s|
  {
    if |s| >= |pattern| {
      assert !MatchAt(s, pattern, 0);
      assert s[0..|pattern|] == s[..|pattern|];
      forall i ensures !MatchAt(s[1..], pattern, i) {
        if 0 <= i && i + |pattern| <= |s| - 1 {
          assert s[1..][i..i + |pattern|] == s[i + 1..i + 1 + |pattern|];
          assert !MatchAt(s, pattern, i + 1);
        }
      }
      ReplaceAllNoMatch(s[1..], pattern, replacement);
      assert [s[0]] + s[1..] == s;
    }
  }

  /**
   * What `FixHeredocIndent` returns for a heredoc body: the body with the prefix
   * `LocateHeredocPrefix` finds removed; it is never longer than the body.
   */
  function FixedHeredoc(text: string): (r: string)
    ensures |r| <= |text|
  {
    HeredocPrefixFits(text);
    var p := HeredocPrefix(text);
    ReplaceAllShrinks(text[|p|..], "\n" + p, "\n");
    FixIndent(text, p)
  }
}
