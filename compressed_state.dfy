/**
 * `Lexer.CompressedState`: a value snapshot of the scanner's heredoc label, current lexical
 * state, state stack and doc block, with its equality and hash.
 *
 * The scanner's state stack is a `Stack<LexicalStates>`, modelled as a sequence whose LAST
 * element is the top. `Stack.ToArray()` lists the elements top first, and the
 * `Stack(IEnumerable)` constructor pushes the elements in the order given, so the array's
 * last element ends up on top.
 */
module Snapshots {
  import opened Machine
  import opened Syntax

  /** `PHPDocBlock`, kept as an opaque value: its text and span. */
  datatype DocBlock = DocBlock(text: string, span: Span)

  /** The snapshot; `stateStack` is the array `ToArray` produced, top first. */
  datatype CompressedState = CompressedState(
    hereDocLabel: Option<string>,
    currentState: LexicalState,
    stateStack: seq<LexicalState>,
    phpDoc: Option<DocBlock>)

  function Reverse<T>(s: seq<T>): (r: seq<T>)
    ensures |r| == |s|
    ensures forall k :: 0 <= k < |s| ==> r[k] == s[|s| - 1 - k]
  {
    if s == [] then [] else [s[|s| - 1]] + Reverse(s[..|s| - 1])
  }

  lemma ReverseReverse<T>(s: seq<T>)
    ensures Reverse(Reverse(s)) == s
  {
    var r := Reverse(Reverse(s));
    assert |r| == |s|;
    forall k | 0 <= k < |s| ensures r[k] == s[k] {
      assert r[k] == Reverse(s)[|s| - 1 - k];
    }
  }

  /** `Stack.ToArray()`: top first. */
  function StackToArray(stack: seq<LexicalState>): (a: seq<LexicalState>)
    ensures |a| == |stack| && (|stack| > 0 ==> a[0] == stack[|stack| - 1])
  {
    Reverse(stack)
  }

  /** `CompressedState.GetStateStack()`: `new Stack<LexicalStates>(array)` pushes the array front to back. */
  function GetStateStack(s: CompressedState): (stack: seq<LexicalState>)
    ensures |stack| == |s.stateStack|
    ensures |stack| > 0 ==> stack[|stack| - 1] == s.stateStack[|s.stateStack| - 1]
  {
    s.stateStack
  }

  /** `new CompressedState(lexer)` from the lexer's four fields. */
  function Snapshot(heredocLabel: Option<string>, current: LexicalState, stack: seq<LexicalState>, doc: Option<DocBlock>): CompressedState
  {
    CompressedState(heredocLabel, current, StackToArray(stack), doc)
  }

  /** What `Equals` compares: the heredoc label and the stack arrays element by element, not the current state or doc block. */
  predicate SameSnapshot(a: CompressedState, b: CompressedState)
  {
    a.hereDocLabel == b.hereDocLabel && a.stateStack == b.stateStack
  }

  /** Every snapshot `Equals` itself. */
  lemma SameSnapshotReflexive(a: CompressedState)
    ensures SameSnapshot(a, a)
  {
  }

  /** `a.Equals(b)` and `b.Equals(a)` agree. */
  lemma SameSnapshotSymmetric(a: CompressedState, b: CompressedState)
    ensures SameSnapshot(a, b) <==> SameSnapshot(b, a)
  {
  }

  /** `Equals` is transitive, so snapshots fall into classes by label and stack. */
  lemma SameSnapshotTransitive(a: CompressedState, b: CompressedState, c: CompressedState)
    requires SameSnapshot(a, b) && SameSnapshot(b, c)
    ensures SameSnapshot(a, c)
  {
  }

  /** `CompressedState.Equals(other)`. */
  method Equals(a: CompressedState, b: CompressedState) returns (eq: bool)
    ensures eq <==> SameSnapshot(a, b)
  {
    if a.hereDocLabel != b.hereDocLabel {
      return false;
    }
    if |a.stateStack| != |b.stateStack| {
      return false;
    }
    var i := 0;
    while i < |a.stateStack|
      invariant 0 <= i <= |a.stateStack|
      invariant forall k :: 0 <= k < i ==> a.stateStack[k] == b.stateStack[k]
    {
      if a.stateStack[i] != b.stateStack[i] {
        return false;
      }
      i := i + 1;
    }
    return true;
  }

  /** n modulo 2^k as a bit pattern, built one bit at a time (the lowest bit is or-ed in last). */
  function LowBits(n: nat, k: nat): bv32
    requires k <= 32
  {
    if k == 0 then 0 else (LowBits(n / 2, k - 1) << 1) | (if n % 2 == 1 then 1 else 0)
  }

  /** The 32 bits of a lexical state code, `(int)state` in two's complement. */
  function StateBits(x: LexicalState): bv32
  {
    LowBits(x as int % TWO_32, 32)
  }

  /** `b << n`, one position at a time. */
  function ShiftLeft(b: bv32, n: nat): bv32
    decreases n
  {
    if n == 0 then b else ShiftLeft(b << 1, n - 1)
  }

  /** `(int)_stateStack[i] << i`; C# masks the shift count to five bits. */
  function Term(x: LexicalState, i: nat): bv32
  {
    ShiftLeft(StateBits(x), i % 32)
  }

  /** `result ^= (int)_stateStack[i] << i` over the first n elements, starting from `seed`. */
  function StackHash(seed: bv32, a: seq<LexicalState>, n: nat): bv32
    requires n <= |a|
  {
    if n == 0 then seed else StackHash(seed, a, n - 1) ^ Term(a[n - 1], n - 1)
  }

  /** The label's hash, or the constant 0x2312347 for a null label. */
  function LabelHash(heredocLabel: Option<string>, stringHash: string -> bv32): bv32
  {
    match heredocLabel
    case None => 0x2312347
    case Some(l) => stringHash(l)
  }

  /** `(int)_currentState << 7`. */
  function CurrentTerm(x: LexicalState): bv32
  {
    StateBits(x) << 7
  }

  /** The hash of a snapshot: the label hash, XOR the stack terms, XOR the current-state term. */
  function Hash(s: CompressedState, stringHash: string -> bv32): bv32
  {
    StackHash(LabelHash(s.hereDocLabel, stringHash), s.stateStack, |s.stateStack|) ^ CurrentTerm(s.currentState)
  }

  /**
   * `CompressedState.GetHashCode()`. `String.GetHashCode` is randomised per process in .NET,
   * so it is a parameter.
   */
  method GetHashCode(s: CompressedState, stringHash: string -> bv32) returns (h: bv32)
    ensures h == Hash(s, stringHash)
  {
    var result: bv32 := if s.hereDocLabel.None? then 0x2312347 else stringHash(s.hereDocLabel.value);
    var i := 0;
    while i < |s.stateStack|
      invariant 0 <= i <= |s.stateStack|
      invariant result == StackHash(LabelHash(s.hereDocLabel, stringHash), s.stateStack, i)
    {
      result := result ^ Term(s.stateStack[i], i);
      i := i + 1;
    }
    return result ^ CurrentTerm(s.currentState);
  }

  /**
   * `Equals` and `GetHashCode` disagree: a snapshot taken in INITIAL and the same snapshot
   * in ST_IN_SCRIPTING are equal, yet their hashes differ, whatever the label, the stack and
   * the string hash.
   */
  lemma EqualSnapshotsHashDifferently(s: CompressedState, stringHash: string -> bv32)
    requires s.currentState == INITIAL
    ensures SameSnapshot(s, s.(currentState := ST_IN_SCRIPTING))
    ensures Hash(s, stringHash) != Hash(s.(currentState := ST_IN_SCRIPTING), stringHash)
  {
    LowBitsOfSmall(32);
    assert StateBits(INITIAL) == 0 && StateBits(ST_IN_SCRIPTING) == 1;
    XorCancel(StackHash(LabelHash(s.hereDocLabel, stringHash), s.stateStack, |s.stateStack|), 0 << 7, 1 << 7);
  }

  lemma LowBitsOfSmall(k: nat)
    requires 1 <= k <= 32
    ensures LowBits(0, k) == 0 && LowBits(1, k) == 1
  {
    if k > 1 {
      LowBitsOfSmall(k - 1);
    }
  }

  lemma XorCancel(b: bv32, x: bv32, y: bv32)
    requires x != y
    ensures b ^ x != b ^ y
  {
  }

  /** Restoring a snapshot brings back the state stack in reverse order (top and bottom swapped). */
  lemma RestoreReversesStack(heredocLabel: Option<string>, current: LexicalState, stack: seq<LexicalState>, doc: Option<DocBlock>)
    ensures GetStateStack(Snapshot(heredocLabel, current, stack, doc)) == Reverse(stack)
    ensures Snapshot(heredocLabel, current, stack, doc).hereDocLabel == heredocLabel
    ensures Snapshot(heredocLabel, current, stack, doc).currentState == current
    ensures Snapshot(heredocLabel, current, stack, doc).phpDoc == doc
  {
  }

  /**
   * A snapshot taken after restoring a snapshot is `Equals` to the original exactly when the
   * stack reads the same in both directions.
   */
  lemma ResnapshotEqualsIffPalindrome(heredocLabel: Option<string>, current: LexicalState, stack: seq<LexicalState>, doc: Option<DocBlock>)
    ensures var s := Snapshot(heredocLabel, current, stack, doc);
            SameSnapshot(Snapshot(heredocLabel, current, GetStateStack(s), doc), s) <==> stack == Reverse(stack)
  {
    ReverseReverse(stack);
    var s := Snapshot(heredocLabel, current, stack, doc);
    if stack == Reverse(stack) {
      assert Reverse(Reverse(stack)) == Reverse(stack);
    } else {
      assert Snapshot(heredocLabel, current, GetStateStack(s), doc).stateStack == stack;
    }
  }

  /** With two different states on the stack, a restore leaves a different state on top. */
  lemma RestoreChangesTop(a: LexicalState, b: LexicalState, heredocLabel: Option<string>, current: LexicalState, doc: Option<DocBlock>)
    requires a != b
    ensures var restored := GetStateStack(Snapshot(heredocLabel, current, [a, b], doc));
            restored == [b, a] && restored[|restored| - 1] != b
  {
    assert Reverse([a, b]) == [b, a];
  }
}
