/** The rainbow-bracket post-processor of the documentation's custom lexers
    (`MixinLexer` in docs/source/_ext/lexers.py).

    The regular-expression tokenizer underneath produces a stream of
    `(position, token type, text)` triples; it is not modelled, and its output
    is an arbitrary input sequence here. The mixin rewrites each triple:
    an upper-case `Name` becomes `Name.Constant`, an opening bracket pushes a
    depth on the lexer's stack and gets that depth's level token, a closing
    bracket pops the stack and gets the popped depth's level token (or
    `Punctuation.Error` when the stack is empty), and everything else passes
    through. The stack lives in the lexer object and survives between calls. */
module Lexers {
  import opened Wrappers
  import opened Tokens
  import opened PyStr
  import Utils

  /** One triple of the token stream. */
  datatype Tok = Tok(pos: int, token: TokenType, value: string)

  /** Default of the `n_brackets` option. */
  const DefaultNBrackets: int := 4

  /** The values Python's `k % n` can take for a modulus `n`: `[0, n)` for a
      positive modulus, `(n, 0]` for a negative one, nothing for zero. */
  predicate InRange(n: int, x: int) {
    (n > 0 && 0 <= x < n) || (n < 0 && n < x <= 0)
  }

  /** Python's `a // n`: division rounding towards minus infinity. */
  function PyDiv(a: int, n: int): int
    requires n != 0
  {
    if n > 0 || a % n == 0 then a / n else a / n - 1
  }

  /** Python's `a % n`: the remainder takes the sign of the modulus, and
      together with `a // n` it satisfies Python's division identity. */
  function PyMod(a: int, n: int): (r: int)
    requires n != 0
    ensures InRange(n, r)
    ensures a == n * PyDiv(a, n) + r
  {
    if n > 0 || a % n == 0 then a % n else a % n + n
  }

  predicate IsOpener(t: Tok) {
    t.token == Punctuation && t.value in {"(", "[", "{", "<"}
  }

  predicate IsCloser(t: Tok) {
    t.token == Punctuation && t.value in {"}", "]", ")", ">"}
  }

  predicate MakesConstant(t: Tok) {
    t.token == Name && IsUpper(t.value)
  }

  /** All depths on a stack are values `_enter` can push. */
  predicate StackInRange(n: int, st: seq<int>) {
    forall i :: 0 <= i < |st| ==> InRange(n, st[i])
  }

  /** `_enter` on a stack: the depth `len(stack) % n_brackets` is pushed and its
      level token returned; `None` is the `ZeroDivisionError` raised when
      `n_brackets` is zero, before anything is pushed. */
  function EnterStep(st: seq<int>, n: int): Option<(TokenType, seq<int>)> {
    if n == 0 then None
    else
      var idx := PyMod(|st|, n);
      Some((Utils.GetBracketLevel(idx), st + [idx]))
  }

  /** `_exit` on a stack: pop the top depth and return its level token, or
      return `Punctuation.Error` when the stack is empty. */
  function ExitStep(st: seq<int>): (TokenType, seq<int>) {
    if st == [] then (PunctuationError, st)
    else (Utils.GetBracketLevel(st[|st| - 1]), st[..|st| - 1])
  }

  /** One iteration of the loop in `get_tokens_unprocessed`. */
  function StepTok(st: seq<int>, n: int, t: Tok): Option<(Tok, seq<int>)> {
    if MakesConstant(t) then Some((t.(token := NameConstant), st))
    else if IsOpener(t) then
      match EnterStep(st, n)
      case None => None
      case Some(e) => Some((t.(token := e.0), e.1))
    else if IsCloser(t) then
      var e := ExitStep(st);
      Some((t.(token := e.0), e.1))
    else Some((t, st))
  }

  /** What one call yields: the triples produced, the stack it leaves, and
      whether it stopped on an exception after yielding `out`. */
  datatype Run = Run(out: seq<Tok>, stack: seq<int>, raised: bool)

  /** `get_tokens_unprocessed` over the tokenizer's output `ts`, starting from
      the stack `st` left by earlier calls. */
  function Process(st: seq<int>, n: int, ts: seq<Tok>): Run
    decreases |ts|
  {
    if ts == [] then Run([], st, false)
    else
      match StepTok(st, n, ts[0])
      case None => Run([], st, true)
      case Some(s) =>
        var rest := Process(s.1, n, ts[1..]);
        Run([s.0] + rest.out, rest.stack, rest.raised)
  }

  /** Continue a run with more input, unless it already stopped on an exception. */
  function Chain(r: Run, n: int, more: seq<Tok>): Run {
    if r.raised then r
    else
      var r2 := Process(r.stack, n, more);
      Run(r.out + r2.out, r2.stack, r2.raised)
  }

  /** Processing a stream in two calls gives what one call on the whole stream
      gives: the second call starts from the stack the first left behind (the
      stack is not reset between calls). */
  lemma {:induction false} ProcessAppend(st: seq<int>, n: int, a: seq<Tok>, b: seq<Tok>)
    ensures Process(st, n, a + b) == Chain(Process(st, n, a), n, b)
    decreases |a|
  {
    if a == [] {
      assert a + b == b;
    } else {
      assert (a + b)[0] == a[0];
      assert (a + b)[1..] == a[1..] + b;
      match StepTok(st, n, a[0])
      case None =>
      case Some(s) =>
        ProcessAppend(s.1, n, a[1..], b);
    }
  }

  /** One triple in, at most one triple out. */
  lemma ProcessSingle(st: seq<int>, n: int, t: Tok)
    ensures Process(st, n, [t]) ==
      match StepTok(st, n, t)
      case None => Run([], st, true)
      case Some(s) => Run([s.0], s.1, false)
  {
    assert [t][1..] == [];
  }

  /** How a single output triple relates to its input triple: same position,
      same text, and only the token type rewritten by the mixin's rules. */
  predicate Rewrites(t: Tok, u: Tok) {
    && u.pos == t.pos
    && u.value == t.value
    && (if MakesConstant(t) then u.token == NameConstant
        else if IsOpener(t) then u.token.Level?
        else if IsCloser(t) then u.token.Level? || u.token == PunctuationError
        else u.token == t.token)
  }

  /** The output is the input with token types rewritten, triple for triple.
      Nothing is dropped unless the lexer has `n_brackets == 0`, and then the
      stream stops with an exception exactly at the first opening bracket. */
  lemma {:induction false} ProcessShape(st: seq<int>, n: int, ts: seq<Tok>)
    ensures var r := Process(st, n, ts);
      && |r.out| <= |ts|
      && (r.raised <==> |r.out| < |ts|)
      && (r.raised ==> n == 0 && IsOpener(ts[|r.out|]))
      && (n == 0 ==> forall j :: 0 <= j < |r.out| ==> !IsOpener(ts[j]))
      && (forall j :: 0 <= j < |r.out| ==> Rewrites(ts[j], r.out[j]))
    decreases |ts|
  {
    if ts != [] {
      match StepTok(st, n, ts[0])
      case None =>
      case Some(s) =>
        ProcessShape(s.1, n, ts[1..]);
        var rest := Process(s.1, n, ts[1..]);
        var r := Process(st, n, ts);
        assert r.out == [s.0] + rest.out;
        forall j | 0 < j < |r.out| ensures Rewrites(ts[j], r.out[j]) && (n == 0 ==> !IsOpener(ts[j])) {
          assert ts[j] == ts[1..][j - 1];
        }
        if r.raised {
          assert ts[|r.out|] == ts[1..][|rest.out|];
        }
    }
  }

  /** The stack in force just before the `k`-th triple is handled. */
  function StackAt(st: seq<int>, n: int, ts: seq<Tok>, k: nat): seq<int>
    requires k <= |ts|
  {
    Process(st, n, ts[..k]).stack
  }

  /** With a non-zero modulus every triple is handled, each against the stack
      that the triples before it left. */
  lemma OutAt(st: seq<int>, n: int, ts: seq<Tok>, k: nat)
    requires n != 0 && k < |ts|
    ensures var r := Process(st, n, ts);
      var s := StepTok(StackAt(st, n, ts, k), n, ts[k]);
      && |r.out| == |ts| && !r.raised && s.Some?
      && r.out[k] == s.value.0
      && StackAt(st, n, ts, k + 1) == s.value.1
  {
    var a := ts[..k];
    ProcessShape(st, n, ts);
    ProcessShape(st, n, a);
    assert ts == a + ts[k..];
    ProcessAppend(st, n, a, ts[k..]);
    assert ts[..k + 1] == a + [ts[k]];
    ProcessAppend(st, n, a, [ts[k]]);
    ProcessSingle(StackAt(st, n, ts, k), n, ts[k]);
    assert ts[k..][0] == ts[k];
  }

  /** +1 for an opening bracket, -1 for a closing one, 0 otherwise. */
  function Delta(t: Tok): int {
    if IsOpener(t) then 1 else if IsCloser(t) then -1 else 0
  }

  /** Openers minus closers in a stretch of the stream. */
  function Net(ts: seq<Tok>): int {
    if ts == [] then 0 else Delta(ts[0]) + Net(ts[1..])
  }

  /** Starting at depth `d`, no prefix of `ts` closes more than it opens. */
  ghost predicate NeverBelow(ts: seq<Tok>, d: int) {
    forall k :: 0 <= k <= |ts| ==> d + Net(ts[..k]) >= 0
  }

  /** A stretch that never drops below the bottom `b` entries of the stack
      leaves those entries in place and changes the depth by its net count. */
  lemma {:induction false} StackKeepsBase(st: seq<int>, n: int, ts: seq<Tok>, b: nat)
    requires n != 0 && b <= |st|
    requires NeverBelow(ts, |st| - b)
    ensures var s := Process(st, n, ts).stack;
      |s| == |st| + Net(ts) && b <= |s| && s[..b] == st[..b]
    decreases |ts|
  {
    if ts != [] {
      var t := ts[0];
      var s := StepTok(st, n, t).value;
      var st' := s.1;
      forall k | 0 <= k <= |ts| - 1 ensures Net(ts[..k + 1]) == Delta(t) + Net(ts[1..][..k]) {
        assert ts[..k + 1][0] == t;
        assert ts[..k + 1][1..] == ts[1..][..k];
      }
      if IsCloser(t) && !MakesConstant(t) {
        assert Net(ts[..1]) == -1 by {
          assert Net(ts[..1]) == Delta(t) + Net(ts[1..][..0]);
        }
        assert |st| - b - 1 >= 0;
      }
      assert |st'| == |st| + Delta(t) && b <= |st'| && st'[..b] == st[..b];
      assert NeverBelow(ts[1..], |st'| - b) by {
        forall k | 0 <= k <= |ts[1..]| ensures |st'| - b + Net(ts[1..][..k]) >= 0 {
          assert |st| - b + Net(ts[..k + 1]) >= 0;
        }
      }
      StackKeepsBase(st', n, ts[1..], b);
    }
  }

  /** A balanced stretch after position `i` leaves the stack as it was just
      after the `i`-th triple. */
  lemma StackAfterBalanced(st: seq<int>, n: int, ts: seq<Tok>, i: nat, j: nat)
    requires n != 0 && i < j <= |ts|
    requires NeverBelow(ts[i + 1..j], 0) && Net(ts[i + 1..j]) == 0
    ensures StackAt(st, n, ts, j) == StackAt(st, n, ts, i + 1)
  {
    var a := ts[..i + 1];
    var mid := ts[i + 1..j];
    var afterOpen := StackAt(st, n, ts, i + 1);
    assert ts[..j] == a + mid;
    ProcessAppend(st, n, a, mid);
    ProcessShape(st, n, a);
    StackKeepsBase(afterOpen, n, mid, |afterOpen|);
    var s := Process(afterOpen, n, mid).stack;
    assert s == s[..|afterOpen|];
  }

  /** LIFO pairing: a closing bracket that closes an opening bracket earlier in
      the same stream (everything between them balanced) gets the very level
      token that opening bracket got. */
  lemma BracketPairing(st: seq<int>, n: int, ts: seq<Tok>, i: nat, j: nat)
    requires n != 0
    requires i < j < |ts|
    requires IsOpener(ts[i]) && IsCloser(ts[j])
    requires NeverBelow(ts[i + 1..j], 0) && Net(ts[i + 1..j]) == 0
    ensures var out := Process(st, n, ts).out;
      |out| == |ts| && out[i].token.Level? && out[j].token == out[i].token
  {
    OutAt(st, n, ts, i);
    OutAt(st, n, ts, j);
    StackAfterBalanced(st, n, ts, i, j);
    var before := StackAt(st, n, ts, i);
    var idx := PyMod(|before|, n);
    assert StackAt(st, n, ts, i + 1) == before + [idx];
    assert Process(st, n, ts).out[i].token == Utils.GetBracketLevel(idx);
    assert Process(st, n, ts).out[j].token == Utils.GetBracketLevel(idx);
  }

  /** A closing bracket becomes `Punctuation.Error` exactly when the stack is
      empty at that point; any other closing bracket gets a level token. */
  lemma CloserErrorIffEmpty(st: seq<int>, n: int, ts: seq<Tok>, j: nat)
    requires n != 0 && j < |ts| && IsCloser(ts[j])
    ensures var out := Process(st, n, ts).out;
      |out| == |ts| &&
      (out[j].token == PunctuationError <==> StackAt(st, n, ts, j) == [])
  {
    OutAt(st, n, ts, j);
  }

  /** Only surplus closers are errors: on a fresh lexer, when no earlier
      prefix of the stream closed more than it opened, a closing bracket is an
      error exactly when every bracket opened before it is already closed. */
  lemma SurplusCloser(n: int, ts: seq<Tok>, j: nat)
    requires n != 0 && j < |ts| && IsCloser(ts[j])
    requires NeverBelow(ts[..j], 0)
    ensures var out := Process([], n, ts).out;
      |out| == |ts| && (out[j].token == PunctuationError <==> Net(ts[..j]) == 0)
  {
    CloserErrorIffEmpty([], n, ts, j);
    StackKeepsBase([], n, ts[..j], 0);
  }

  /** Every depth the lexer pushes is a valid remainder, so every level token
      produced for a bracket is `Level(i)` with `i` in range. */
  lemma {:induction false} ProcessKeepsRange(st: seq<int>, n: int, ts: seq<Tok>)
    requires StackInRange(n, st)
    ensures var r := Process(st, n, ts);
      && StackInRange(n, r.stack)
      && forall j :: 0 <= j < |ts| && j < |r.out| && (IsOpener(ts[j]) || IsCloser(ts[j])) ==>
           r.out[j].token == PunctuationError || (r.out[j].token.Level? && InRange(n, r.out[j].token.n))
    decreases |ts|
  {
    if ts != [] {
      match StepTok(st, n, ts[0])
      case None =>
      case Some(s) =>
        assert StackInRange(n, s.1);
        ProcessKeepsRange(s.1, n, ts[1..]);
        var r := Process(st, n, ts);
        forall j | 0 < j < |ts| && j < |r.out| && (IsOpener(ts[j]) || IsCloser(ts[j]))
          ensures r.out[j].token == PunctuationError || (r.out[j].token.Level? && InRange(n, r.out[j].token.n))
        {
          assert ts[j] == ts[1..][j - 1];
        }
    }
  }

  /** When the lexer's modulus equals the number of colours, every bracket
      token it produces is either `Punctuation.Error` or a key of the colour
      table `get_brackets(colors)`. */
  lemma BracketTokensHaveColours(st: seq<int>, colors: seq<string>, ts: seq<Tok>)
    requires StackInRange(|colors|, st)
    ensures var r := Process(st, |colors|, ts);
      forall j :: 0 <= j < |ts| && j < |r.out| && (IsOpener(ts[j]) || IsCloser(ts[j])) ==>
        r.out[j].token == PunctuationError || r.out[j].token in Utils.GetBrackets(colors)
  {
    ProcessKeepsRange(st, |colors|, ts);
  }

  /** The bracket colours the documentation style hands to `get_brackets`
      (docs/source/_ext/styles.py:133-140): `Colors.bracket`, which is
      "#F9C922" (styles.py:79), then three literal colours. */
  const StyleBracketColors: seq<string> := ["#F9C922", "#EA2EEA", "#5DCD4C", "#3B9ADE"]

  /** The configuration of this repository: a lexer built with the default
      modulus colours every bracket depth it can produce with the four
      bracket colours of the documentation style. */
  lemma DefaultLexerIsFullyColoured(ts: seq<Tok>)
    ensures var r := Process([], DefaultNBrackets, ts);
      |r.out| == |ts| &&
      forall j :: 0 <= j < |ts| && (IsOpener(ts[j]) || IsCloser(ts[j])) ==>
        r.out[j].token == PunctuationError || r.out[j].token in Utils.GetBrackets(StyleBracketColors)
  {
    ProcessShape([], DefaultNBrackets, ts);
    BracketTokensHaveColours([], StyleBracketColors, ts);
  }

  /** `MixinLexer`: the bracket stack and its modulus. */
  class MixinLexer {
    var nBrackets: int
    var stack: seq<int>

    ghost predicate Valid()
      reads this
    {
      StackInRange(nBrackets, stack)
    }

    /** `__init__`: the `n_brackets` option, 4 when not given, and an empty stack. */
    constructor (nBracketsOption: Option<int>)
      ensures nBrackets == (if nBracketsOption.Some? then nBracketsOption.value else DefaultNBrackets)
      ensures stack == [] && Valid()
    {
      nBrackets := if nBracketsOption.Some? then nBracketsOption.value else DefaultNBrackets;
      stack := [];
    }

    /** `_enter`; `None` stands for the `ZeroDivisionError` of a zero modulus. */
    method Enter() returns (r: Option<TokenType>)
      requires Valid()
      modifies this
      ensures Valid() && nBrackets == old(nBrackets)
      ensures nBrackets == 0 ==> r == None && stack == old(stack)
      ensures nBrackets != 0 ==>
        var idx := PyMod(|old(stack)|, nBrackets);
        && InRange(nBrackets, idx)
        && stack == old(stack) + [idx]
        && r == Some(Utils.GetBracketLevel(idx))
    {
      if nBrackets == 0 {
        return None;
      }
      var idx := PyMod(|stack|, nBrackets);
      stack := stack + [idx];
      r := Some(Utils.GetBracketLevel(idx));
    }

    /** `_exit`: pop and return the popped depth's level token, or
        `Punctuation.Error` on an empty stack. */
    method Exit() returns (t: TokenType)
      requires Valid()
      modifies this
      ensures Valid() && nBrackets == old(nBrackets)
      ensures old(stack) == [] ==> t == PunctuationError && stack == []
      ensures old(stack) != [] ==>
        && stack == old(stack)[..|old(stack)| - 1]
        && t == Utils.GetBracketLevel(old(stack)[|old(stack)| - 1])
        && InRange(nBrackets, t.n)
    {
      if stack == [] {
        return PunctuationError;
      }
      var idx := stack[|stack| - 1];
      stack := stack[..|stack| - 1];
      t := Utils.GetBracketLevel(idx);
    }

    /** `get_tokens_unprocessed`: rewrite the tokenizer's output; `raised`
        reports that the generator stopped on an exception after yielding `out`. */
    method GetTokensUnprocessed(input: seq<Tok>) returns (out: seq<Tok>, raised: bool)
      requires Valid()
      modifies this
      ensures Valid() && nBrackets == old(nBrackets)
      ensures Process(old(stack), nBrackets, input) == Run(out, stack, raised)
    {
      ghost var st0 := stack;
      out, raised := [], false;
      var i := 0;
      while i < |input|
        invariant 0 <= i <= |input|
        invariant Valid() && nBrackets == old(nBrackets)
        invariant Process(st0, nBrackets, input[..i]) == Run(out, stack, false)
      {
        var t := input[i];
        ghost var before := stack;
        var token := t.token;
        if t.token == Name && IsUpper(t.value) {
          token := NameConstant;
        } else if t.token == Punctuation {
          if t.value in {"(", "[", "{", "<"} {
            var r := Enter();
            if r.None? {
              raised := true;
              ProcessSingle(before, nBrackets, t);
              ProcessAppend(st0, nBrackets, input[..i], [t]);
              assert input[..i + 1] == input[..i] + [t];
              ProcessAppend(st0, nBrackets, input[..i + 1], input[i + 1..]);
              assert input == input[..i + 1] + input[i + 1..];
              return;
            }
            token := r.value;
          } else if t.value in {"}", "]", ")", ">"} {
            token := Exit();
          }
        }
        assert StepTok(before, nBrackets, t) == Some((Tok(t.pos, token, t.value), stack));
        out := out + [Tok(t.pos, token, t.value)];
        ProcessSingle(before, nBrackets, t);
        ProcessAppend(st0, nBrackets, input[..i], [t]);
        assert input[..i + 1] == input[..i] + [t];
        i := i + 1;
      }
      assert input[..i] == input;
    }
  }
}
