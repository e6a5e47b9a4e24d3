/**
 The component-value tokenizer of the scroll-timeline polyfill
 (`splitIntoComponentValues` in src/utils.js).

 The method `SplitIntoComponentValues` is the left-to-right scan of the
 source, with its shared cursor and its parenthesis depth counter. It is
 proved equal to the specification function `Split`, which is written on
 the rest of the input, one token or one whitespace run at a time.
 `Split` is in turn characterised, independently of how it scans, by
 `IsSplitting`: the input is w0 t1 w1 ... tn wn, every wk is whitespace and
 every tk is a component value that the scan must stop right after.
 */
module Tokenizer {

  /** JavaScript's `\s`: its WhiteSpace and LineTerminator code points. */
  predicate IsWs(c: char) {
    c == ' ' || c == '\t' || c == '\n' || c == '\r' || c == '\U{000B}' || c == '\U{000C}'
    || c == '\U{00A0}' || c == '\U{1680}' || ('\U{2000}' <= c <= '\U{200A}')
    || c == '\U{2028}' || c == '\U{2029}' || c == '\U{202F}' || c == '\U{205F}'
    || c == '\U{3000}' || c == '\U{FEFF}'
  }

  predicate AllWs(w: string) {
    forall k :: 0 <= k < |w| ==> IsWs(w[k])
  }

  // ---------------------------------------------------------------------
  // The scan, as functions on the rest of the input
  // ---------------------------------------------------------------------

  /** How many characters `consumeWhitespace` skips at the start of `s`
      (`WhitespaceRun` proves it is the longest all-whitespace prefix). */
  function WhitespaceLen(s: string): (n: nat)
    ensures n <= |s|
    decreases |s|
  {
    if |s| > 0 && IsWs(s[0]) then 1 + WhitespaceLen(s[1..]) else 0
  }

  /** How many characters `consumeComponentValue` takes from the start of
      `s` when the depth counter stands at `level`. */
  function ComponentLen(s: string, level: int): (n: nat)
    ensures n <= |s|
    ensures |s| > 0 && !(IsWs(s[0]) && level == 0) ==> n > 0
    decreases |s|
  {
    if |s| == 0 then 0
    else if IsWs(s[0]) && level == 0 then 0
    else if s[0] == '(' then 1 + ComponentLen(s[1..], level + 1)
    else if s[0] == ')' then
      if level - 1 == 0 then 1 else 1 + ComponentLen(s[1..], level - 1)
    else 1 + ComponentLen(s[1..], level)
  }

  /** The tokens of `s`, in order: the value `splitIntoComponentValues`
      returns. */
  function Split(s: string): seq<string>
    decreases |s|
  {
    if |s| == 0 then []
    else if IsWs(s[0]) then Split(s[WhitespaceLen(s)..])
    else
      var n := ComponentLen(s, 0);
      [s[..n]] + Split(s[n..])
  }

  // ---------------------------------------------------------------------
  // The scan as the source writes it
  // ---------------------------------------------------------------------

  /** `consumeWhitespace`: advances the cursor over the whitespace run at
      `i`. */
  method ConsumeWhitespace(input: string, i: nat) returns (j: nat)
    requires i <= |input|
    ensures j == i + WhitespaceLen(input[i..])
  {
    j := i;
    while j < |input| && IsWs(input[j])
      invariant i <= j <= |input|
      invariant (j - i) + WhitespaceLen(input[j..]) == WhitespaceLen(input[i..])
      decreases |input| - j
    {
      assert input[j..][1..] == input[j + 1..];
      j := j + 1;
    }
  }

  /** `consumeComponentValue`: advances the cursor over one component value
      starting at `i`, counting the parenthesis depth in `level`. */
  method ConsumeComponentValue(input: string, i: nat) returns (j: nat, token: string)
    requires i <= |input|
    ensures j == i + ComponentLen(input[i..], 0)
    ensures token == input[i..j]
  {
    j := i;
    var level := 0;
    while j < |input|
      invariant i <= j <= |input|
      invariant (j - i) + ComponentLen(input[j..], level) == ComponentLen(input[i..], 0)
      decreases |input| - j
    {
      assert input[j..][1..] == input[j + 1..];
      var c := input[j];
      if IsWs(c) && level == 0 {
        break;
      } else if c == '(' {
        level := level + 1;
      } else if c == ')' {
        level := level - 1;
        if level == 0 {
          // the closing parenthesis is part of the token
          j := j + 1;
          break;
        }
      }
      j := j + 1;
    }
    token := input[i..j];
  }

  /** `splitIntoComponentValues`: the outer loop over the shared cursor. */
  method SplitIntoComponentValues(input: string) returns (res: seq<string>)
    ensures res == Split(input)
  {
    res := [];
    var i := 0;
    assert input[i..] == input;
    while i < |input|
      invariant 0 <= i <= |input|
      invariant res + Split(input[i..]) == Split(input)
      decreases |input| - i
    {
      if IsWs(input[i]) {
        var j := ConsumeWhitespace(input, i);
        assert Split(input[j..]) == Split(input[i..]) by { SplitAtWhitespace(input, i); }
        i := j;
      } else {
        var j, token := ConsumeComponentValue(input, i);
        assert Split(input[i..]) == [token] + Split(input[j..]) by { SplitAtComponent(input, i); }
        assert (res + [token]) + Split(input[j..]) == res + Split(input[i..]);
        res, i := res + [token], j;
      }
    }
  }

  // ---------------------------------------------------------------------
  // An independent description of the result
  // ---------------------------------------------------------------------

  function Delta(c: char): int {
    if c == '(' then 1 else if c == ')' then -1 else 0
  }

  /** Parenthesis depth after reading `p`: opened minus closed. */
  function Depth(p: string): int
    decreases |p|
  {
    if p == [] then 0 else Depth(p[..|p| - 1]) + Delta(p[|p| - 1])
  }

  /** `p` ends with a `)` that brings the depth back to 0. */
  predicate Closed(p: string) {
    0 < |p| && p[|p| - 1] == ')' && Depth(p) == 0
  }

  /** A component scan that began at `s[0]` has stopped once it reaches
      position `k`: the input is exhausted, `s[k]` is whitespace at depth 0,
      or the character before `k` closed the outermost parenthesis. */
  predicate StopsAt(s: string, k: nat)
    requires k <= |s|
  {
    k == |s| || (IsWs(s[k]) && Depth(s[..k]) == 0) || Closed(s[..k])
  }

  /** A component value: non-empty, and a scan that began at its first
      character does not stop anywhere inside it (in particular its first
      character is not whitespace, and its top-level parentheses close
      only at its last character). */
  predicate IsComponentValue(t: string) {
    |t| > 0 && forall k :: 0 <= k < |t| ==> !StopsAt(t, k)
  }

  /** w0 + t1 + w1 + ... + tn + wn. */
  function Interleave(gaps: seq<string>, toks: seq<string>): string
    requires |gaps| == |toks| + 1
    decreases toks
  {
    if toks == [] then gaps[0]
    else gaps[0] + toks[0] + Interleave(gaps[1..], toks[1..])
  }

  /** `s` is w0 t1 w1 ... tn wn where every gap wk is whitespace (possibly
      empty) and every tk is a component value at whose end the scan stops
      when it is followed by the rest of `s`. */
  predicate IsSplitting(s: string, gaps: seq<string>, toks: seq<string>)
    decreases toks
  {
    |gaps| == |toks| + 1 && AllWs(gaps[0]) &&
    if toks == [] then s == gaps[0]
    else
      var rest := Interleave(gaps[1..], toks[1..]);
      s == gaps[0] + toks[0] + rest
      && IsComponentValue(toks[0])
      && StopsAt(toks[0] + rest, |toks[0]|)
      && IsSplitting(rest, gaps[1..], toks[1..])
  }

  // ---------------------------------------------------------------------
  // Lemmas
  // ---------------------------------------------------------------------

  /** One step of the outer loop over whitespace. */
  lemma SplitAtWhitespace(input: string, i: nat)
    requires i < |input| && IsWs(input[i])
    ensures WhitespaceLen(input[i..]) > 0
    ensures Split(input[i..]) == Split(input[i + WhitespaceLen(input[i..])..])
  {
    SuffixSlices(input, i, WhitespaceLen(input[i..]));
  }

  /** One step of the outer loop over a component value. */
  lemma SplitAtComponent(input: string, i: nat)
    requires i < |input| && !IsWs(input[i])
    ensures ComponentLen(input[i..], 0) > 0
    ensures Split(input[i..]) == [input[i..i + ComponentLen(input[i..], 0)]] + Split(input[i + ComponentLen(input[i..], 0)..])
  {
    SuffixSlices(input, i, ComponentLen(input[i..], 0));
  }

  lemma DepthSnoc(p: string, c: char)
    ensures Depth(p + [c]) == Depth(p) + Delta(c)
  {
    assert (p + [c])[..|p|] == p;
  }

  /** Whether the scan has stopped at `k` depends only on `s[..k+1]`. */
  lemma StopsAtPrefix(t: string, rest: string, k: nat)
    requires k < |t|
    ensures StopsAt(t + rest, k) == StopsAt(t, k)
  {
    assert (t + rest)[..k] == t[..k];
  }

  /** Scanning from position `m`, with the depth counter equal to the depth
      of `s[..m]`, ends at the first position from `m` on where the scan
      stops. */
  lemma {:induction false} ComponentLenFrom(s: string, m: nat)
    requires m <= |s|
    requires !Closed(s[..m])
    ensures m + ComponentLen(s[m..], Depth(s[..m])) <= |s|
    ensures StopsAt(s, m + ComponentLen(s[m..], Depth(s[..m])))
    ensures forall k :: m <= k < m + ComponentLen(s[m..], Depth(s[..m])) ==> !StopsAt(s, k)
    decreases |s| - m
  {
    var level := Depth(s[..m]);
    var n := ComponentLen(s[m..], level);
    if m == |s| || (IsWs(s[m]) && level == 0) {
      assert n == 0;
    } else {
      ScanStep(s, m);
      assert s[..m + 1][m] == s[m];
      if s[m] == ')' && level == 1 {
        assert Closed(s[..m + 1]);
        assert n == 1;
      } else {
        assert !Closed(s[..m + 1]);
        ComponentLenFrom(s, m + 1);
        assert n == 1 + ComponentLen(s[m + 1..], Depth(s[..m + 1]));
      }
    }
  }

  /** One step of the component scan at position `m`, where it does not
      stop. */
  lemma ScanStep(s: string, m: nat)
    requires m < |s| && !Closed(s[..m]) && !(IsWs(s[m]) && Depth(s[..m]) == 0)
    ensures !StopsAt(s, m)
    ensures Depth(s[..m + 1]) == Depth(s[..m]) + Delta(s[m])
    ensures ComponentLen(s[m..], Depth(s[..m])) ==
              if s[m] == ')' && Depth(s[..m]) == 1 then 1
              else 1 + ComponentLen(s[m + 1..], Depth(s[..m + 1]))
  {
    var c := s[m];
    assert s[m..][0] == c && s[m..][1..] == s[m + 1..];
    assert s[..m + 1] == s[..m] + [c];
    DepthSnoc(s[..m], c);
  }

  /** `ComponentLen(s, 0)` is the first position at which the scan stops. */
  lemma ComponentLenIsFirstStop(s: string)
    ensures StopsAt(s, ComponentLen(s, 0))
    ensures forall k :: 0 <= k < ComponentLen(s, 0) ==> !StopsAt(s, k)
  {
    assert s[..0] == [] && s[0..] == s;
    ComponentLenFrom(s, 0);
  }

  /** A component value followed by text at which the scan stops is
      consumed exactly. */
  lemma ComponentLenOfComponent(t: string, rest: string)
    requires IsComponentValue(t)
    requires StopsAt(t + rest, |t|)
    ensures ComponentLen(t + rest, 0) == |t|
  {
    var s := t + rest;
    ComponentLenIsFirstStop(s);
    var j := ComponentLen(s, 0);
    if j < |t| {
      StopsAtPrefix(t, rest, j);
    }
  }

  /** `WhitespaceLen(s)` is the length of the longest all-whitespace
      prefix of `s`. */
  lemma {:induction false} WhitespaceRun(s: string)
    ensures AllWs(s[..WhitespaceLen(s)])
    ensures WhitespaceLen(s) < |s| ==> !IsWs(s[WhitespaceLen(s)])
    decreases |s|
  {
    if |s| > 0 && IsWs(s[0]) {
      var m := WhitespaceLen(s[1..]);
      WhitespaceRun(s[1..]);
      assert s[..1 + m] == [s[0]] + s[1..][..m];
    }
  }

  /** `WhitespaceLen` is the one length whose prefix is whitespace and
      which is not followed by whitespace. */
  lemma {:induction false} WhitespaceLenExact(s: string, m: nat)
    requires m <= |s| && AllWs(s[..m])
    requires m == |s| || !IsWs(s[m])
    ensures WhitespaceLen(s) == m
    decreases m
  {
    if m > 0 {
      assert s[..m][0] == s[0];
      assert s[1..][..m - 1] == s[..m][1..];
      WhitespaceLenExact(s[1..], m - 1);
    }
  }


  /** A whitespace gap in front of a token (or of nothing) is skipped. */
  lemma SplitSkipsGap(g: string, u: string)
    requires AllWs(g)
    requires u == [] || !IsWs(u[0])
    ensures Split(g + u) == Split(u)
  {
    var s := g + u;
    assert s[..|g|] == g && s[|g|..] == u;
    WhitespaceLenExact(s, |g|);
  }

  /** A whitespace-only input has no tokens. */
  lemma SplitOfWhitespace(s: string)
    requires AllWs(s)
    ensures Split(s) == []
  {
    SplitSkipsGap(s, []);
    AppendEmpty(s);
  }

  /** Only inputs made entirely of whitespace have no tokens. */
  lemma {:induction false} EmptySplitIsWhitespace(s: string)
    requires Split(s) == []
    ensures AllWs(s)
    decreases |s|
  {
    if |s| > 0 {
      if IsWs(s[0]) {
        var n := WhitespaceLen(s);
        WhitespaceRun(s);
        EmptySplitIsWhitespace(s[n..]);
        AllWsConcat(s[..n], s[n..]);
        assert s == s[..n] + s[n..];
      }
    }
  }

  /** No tokens if and only if the input is whitespace only. */
  lemma SplitEmptyIff(s: string)
    ensures Split(s) == [] <==> AllWs(s)
  {
    if AllWs(s) { SplitOfWhitespace(s); }
    if Split(s) == [] { EmptySplitIsWhitespace(s); }
  }

  /** A splitting reassembles to the input. */
  lemma SplittingInterleaves(s: string, gaps: seq<string>, toks: seq<string>)
    requires IsSplitting(s, gaps, toks)
    ensures s == Interleave(gaps, toks)
  {
  }

  lemma AllWsConcat(a: string, b: string)
    requires AllWs(a) && AllWs(b)
    ensures AllWs(a + b)
  {
    assert forall k :: |a| <= k < |a + b| ==> (a + b)[k] == b[k - |a|];
  }

  lemma PrependToFirstGap(w: string, u: string, gaps: seq<string>, toks: seq<string>)
    requires AllWs(w)
    requires IsSplitting(u, gaps, toks)
    ensures IsSplitting(w + u, [w + gaps[0]] + gaps[1..], toks)
  {
    var gaps' := [w + gaps[0]] + gaps[1..];
    assert gaps'[1..] == gaps[1..];
    AllWsConcat(w, gaps[0]);
    if toks != [] {
      var rest := Interleave(gaps[1..], toks[1..]);
      assert w + u == (w + gaps[0]) + toks[0] + rest;
    }
  }

  /** The token the scan takes from an input that starts with a
      non-whitespace character is a component value, and the scan stops
      after it. */
  lemma ScannedTokenIsComponent(s: string)
    requires |s| > 0 && !IsWs(s[0])
    ensures IsComponentValue(s[..ComponentLen(s, 0)])
    ensures StopsAt(s, ComponentLen(s, 0))
  {
    var n := ComponentLen(s, 0);
    var t, rest := s[..n], s[n..];
    SliceJoin(s, n);
    ComponentLenIsFirstStop(s);
    forall k | 0 <= k < |t| ensures !StopsAt(t, k) {
      StopsAtPrefix(t, rest, k);
    }
  }

  lemma ConsSplitting(t: string, rest: string, gaps: seq<string>, toks: seq<string>)
    requires IsComponentValue(t) && StopsAt(t + rest, |t|)
    requires IsSplitting(rest, gaps, toks)
    ensures IsSplitting(t + rest, [[]] + gaps, [t] + toks)
  {
    var gaps', toks' := [[]] + gaps, [t] + toks;
    assert gaps'[1..] == gaps && toks'[1..] == toks;
    SplittingInterleaves(rest, gaps, toks);
    assert t + rest == gaps'[0] + toks'[0] + Interleave(gaps'[1..], toks'[1..]);
  }

  /** The whitespace gaps around the tokens of `s`: the parts the scan
      skips. */
  ghost function Gaps(s: string): (gaps: seq<string>)
    ensures |gaps| == |Split(s)| + 1
    decreases |s|
  {
    if |s| == 0 then [s]
    else if IsWs(s[0]) then
      var n := WhitespaceLen(s);
      var g := Gaps(s[n..]);
      [s[..n] + g[0]] + g[1..]
    else
      [[]] + Gaps(s[ComponentLen(s, 0)..])
  }

  /** The tokens `Split` returns decompose the input as w0 t1 w1 ... tn wn,
      with whitespace gaps and component values at which the scan stops. */
  lemma {:induction false} SplitIsSplitting(s: string)
    ensures IsSplitting(s, Gaps(s), Split(s))
    decreases |s|
  {
    if |s| == 0 {
      assert Split(s) == [];
    } else if IsWs(s[0]) {
      SplitIsSplitting(s[WhitespaceLen(s)..]);
      SplittingAfterGap(s);
    } else {
      SplitIsSplitting(s[ComponentLen(s, 0)..]);
      SplittingAfterToken(s);
    }
  }

  lemma SplittingAfterGap(s: string)
    requires |s| > 0 && IsWs(s[0])
    requires var u := s[WhitespaceLen(s)..]; IsSplitting(u, Gaps(u), Split(u))
    ensures IsSplitting(s, Gaps(s), Split(s))
  {
    var n := WhitespaceLen(s);
    var u := s[n..];
    assert Gaps(s) == [s[..n] + Gaps(u)[0]] + Gaps(u)[1..];
    assert Split(s) == Split(u) by {
      SplitAtWhitespace(s, 0);
      assert s[0..] == s;
    }
    WhitespaceRun(s);
    PrependToFirstGap(s[..n], u, Gaps(u), Split(u));
    SliceJoin(s, n);
  }

  lemma SplittingAfterToken(s: string)
    requires |s| > 0 && !IsWs(s[0])
    requires var rest := s[ComponentLen(s, 0)..]; IsSplitting(rest, Gaps(rest), Split(rest))
    ensures IsSplitting(s, Gaps(s), Split(s))
  {
    var n := ComponentLen(s, 0);
    var t, rest := s[..n], s[n..];
    assert Gaps(s) == [[]] + Gaps(rest);
    assert Split(s) == [t] + Split(rest) by {
      SplitAtComponent(s, 0);
      assert s[0..] == s;
    }
    ScannedTokenIsComponent(s);
    SliceJoin(s, n);
    ConsSplitting(t, rest, Gaps(rest), Split(rest));
  }

  // Sequence identities. Each holds with an empty proof; they are stated
  // apart so that the proofs in this module use them as one-step facts instead of
  // re-deriving them element by element amid many other facts, which makes
  // those proofs slow.

  lemma SuffixSlices(s: string, i: nat, n: nat)
    requires i + n <= |s|
    ensures s[i..][..n] == s[i..i + n] && s[i..][n..] == s[i + n..]
  {
  }

  lemma AppendEmpty(a: string)
    ensures a + [] == a && [] + a == a
  {
  }

  lemma AppendAssoc(a: string, b: string, c: string)
    ensures a + b + c == a + (b + c)
  {
  }

  lemma SliceJoin(s: string, n: nat)
    requires n <= |s|
    ensures s[..n] + s[n..] == s
  {
  }

  /** The scan skips a whitespace gap, takes a component value after which
      it stops, and goes on with the rest. */
  lemma SplitCons(g: string, t: string, rest: string)
    requires AllWs(g) && IsComponentValue(t) && StopsAt(t + rest, |t|)
    ensures Split(g + t + rest) == [t] + Split(rest)
  {
    assert !StopsAt(t, 0);
    AppendAssoc(g, t, rest);
    SplitSkipsGap(g, t + rest);
    ComponentLenOfComponent(t, rest);
    SplitAtComponent(t + rest, 0);
    assert (t + rest)[0..] == t + rest;
    assert (t + rest)[..|t|] == t && (t + rest)[|t|..] == rest;
  }

  /** Conversely, any such decomposition is the one `Split` finds: the
      decomposition determines the tokens. */
  lemma {:induction false} SplittingIsSplit(s: string, gaps: seq<string>, toks: seq<string>)
    requires IsSplitting(s, gaps, toks)
    ensures Split(s) == toks
    decreases toks
  {
    if toks == [] {
      SplitOfWhitespace(s);
    } else {
      var rest := Interleave(gaps[1..], toks[1..]);
      SplitCons(gaps[0], toks[0], rest);
      SplittingIsSplit(rest, gaps[1..], toks[1..]);
    }
  }

  /** Every token is non-empty and does not start with whitespace. */
  lemma {:induction false} TokensAreNonEmpty(s: string)
    ensures forall t :: t in Split(s) ==> |t| > 0 && !IsWs(t[0])
    decreases |s|
  {
    if |s| > 0 {
      if IsWs(s[0]) {
        TokensAreNonEmpty(s[WhitespaceLen(s)..]);
      } else {
        TokensAreNonEmpty(s[ComponentLen(s, 0)..]);
      }
    }
  }

  /** A token whose parentheses never balance, on any non-empty prefix,
      runs to the end of the input: whitespace inside it does not split it. */
  lemma UnbalancedRunsToEnd(s: string)
    requires |s| > 0 && !IsWs(s[0])
    requires forall k :: 0 < k <= |s| ==> Depth(s[..k]) != 0
    ensures Split(s) == [s]
  {
    forall k | 0 <= k < |s| ensures !StopsAt(s, k) {
      if k > 0 { assert Depth(s[..k]) != 0; }
    }
    AppendEmpty(s);
    SplitOne(s);
  }

  // ---------------------------------------------------------------------
  // Shapes of component values
  // ---------------------------------------------------------------------

  predicate NoParens(p: string) {
    forall k :: 0 <= k < |p| ==> p[k] != '(' && p[k] != ')'
  }

  /** A keyword or number literal: no whitespace and no parentheses. */
  predicate IsPlain(p: string) {
    NoParens(p) && forall k :: 0 <= k < |p| ==> !IsWs(p[k])
  }

  /** Parentheses that never close more than they opened and end balanced. */
  predicate Balanced(p: string) {
    Depth(p) == 0 && forall k :: 0 <= k <= |p| ==> Depth(p[..k]) >= 0
  }

  lemma {:induction false} DepthConcat(a: string, b: string)
    ensures Depth(a + b) == Depth(a) + Depth(b)
    decreases |b|
  {
    if b == [] {
      assert a + b == a;
    } else {
      var b' := b[..|b| - 1];
      assert a + b == (a + b') + [b[|b| - 1]];
      assert b == b' + [b[|b| - 1]];
      DepthConcat(a, b');
      DepthSnoc(a + b', b[|b| - 1]);
      DepthSnoc(b', b[|b| - 1]);
    }
  }

  lemma {:induction false} NoParensDepth(p: string)
    requires NoParens(p)
    ensures Depth(p) == 0
    decreases |p|
  {
    if p != [] {
      NoParensDepth(p[..|p| - 1]);
    }
  }

  lemma NoParensBalanced(p: string)
    requires NoParens(p)
    ensures Balanced(p)
  {
    NoParensDepth(p);
    forall k | 0 <= k <= |p| ensures Depth(p[..k]) >= 0 {
      NoParensDepth(p[..k]);
    }
  }

  lemma BalancedConcat(a: string, b: string)
    requires Balanced(a) && Balanced(b)
    ensures Balanced(a + b)
  {
    DepthConcat(a, b);
    forall k | 0 <= k <= |a + b| ensures Depth((a + b)[..k]) >= 0 {
      if k <= |a| {
        assert (a + b)[..k] == a[..k];
      } else {
        assert (a + b)[..k] == a + b[..k - |a|];
        DepthConcat(a, b[..k - |a|]);
      }
    }
  }

  /** Inside the name of a call, or at its opening parenthesis, the depth
      is 0 and the scan goes on. */
  lemma CallPrefixInName(name: string, args: string, k: nat)
    requires IsPlain(name) && k <= |name|
    ensures Depth((name + "(" + args + ")")[..k]) == 0
    ensures !StopsAt(name + "(" + args + ")", k)
  {
    var t := name + "(" + args + ")";
    assert t[..k] == name[..k];
    NoParensDepth(name[..k]);
    if 0 < k { assert t[k - 1] == name[k - 1]; }
    if k < |name| { assert t[k] == name[k]; } else { assert t[k] == '('; }
  }

  /** Inside the arguments of a call, and at its closing parenthesis, the
      depth is at least 1 and the scan goes on. */
  lemma CallPrefixInArgs(name: string, args: string, k: nat)
    requires IsPlain(name) && Balanced(args) && |name| < k <= |name| + 1 + |args|
    ensures Depth((name + "(" + args + ")")[..k]) > 0
    ensures !StopsAt(name + "(" + args + ")", k)
  {
    var open := name + "(";
    var t := open + args + ")";
    assert t[..k] == open + args[..k - |open|];
    NoParensDepth(name);
    DepthConcat(name, "(");
    DepthConcat(open, args[..k - |open|]);
  }

  /** A call `name(args)` of a plain name on balanced arguments is a single
      component value, whatever whitespace the arguments hold, and the scan
      stops right after its closing parenthesis. */
  lemma FunctionCallIsComponent(name: string, args: string)
    requires IsPlain(name) && Balanced(args)
    ensures IsComponentValue(name + "(" + args + ")")
    ensures Closed(name + "(" + args + ")")
    ensures Balanced(name + "(" + args + ")")
  {
    var open := name + "(";
    var t := open + args + ")";
    forall k | 0 <= k < |t| ensures Depth(t[..k]) >= 0 && !StopsAt(t, k) {
      if k <= |name| {
        CallPrefixInName(name, args, k);
      } else {
        CallPrefixInArgs(name, args, k);
      }
    }
    assert Depth(t) == 0 by {
      NoParensDepth(name);
      DepthConcat(name, "(");
      DepthConcat(open, args);
      DepthConcat(open + args, ")");
    }
    assert t[..|t|] == t;
  }

  /** Inside the name of an unclosed call, or at its opening parenthesis,
      the depth is 0 and the scan goes on. */
  lemma OpenPrefixInName(name: string, args: string, k: nat)
    requires IsPlain(name) && k <= |name|
    ensures Depth((name + "(" + args)[..k]) == 0
    ensures !StopsAt(name + "(" + args, k)
  {
    var t := name + "(" + args;
    assert t[..k] == name[..k];
    NoParensDepth(name[..k]);
    if 0 < k { assert t[k - 1] == name[k - 1]; }
    if k < |name| { assert t[k] == name[k]; } else { assert t[k] == '('; }
  }

  /** Inside the arguments of an unclosed call the depth is at least 1, so
      neither whitespace nor a `)` ends the token. */
  lemma OpenPrefixInArgs(name: string, args: string, k: nat)
    requires IsPlain(name) && |name| < k < |name| + 1 + |args|
    requires forall j :: 0 <= j <= |args| ==> Depth(args[..j]) >= 0
    ensures Depth((name + "(" + args)[..k]) > 0
    ensures !StopsAt(name + "(" + args, k)
  {
    var open := name + "(";
    var t := open + args;
    assert t[..k] == open + args[..k - |open|];
    NoParensDepth(name);
    DepthConcat(name, "(");
    DepthConcat(open, args[..k - |open|]);
  }

  /** A call whose parenthesis is never closed, because the depth never
      comes back to 0 after it, runs to the end of the input: whitespace in
      its arguments does not split it. */
  lemma UnclosedCallRunsToEnd(name: string, args: string)
    requires IsPlain(name)
    requires forall k :: 0 <= k <= |args| ==> Depth(args[..k]) >= 0
    ensures Split(name + "(" + args) == [name + "(" + args]
  {
    var t := name + "(" + args;
    forall k | 0 <= k < |t| ensures !StopsAt(t, k) {
      if k <= |name| {
        OpenPrefixInName(name, args, k);
      } else {
        OpenPrefixInArgs(name, args, k);
      }
    }
    AppendEmpty(t);
    SplitOne(t);
  }

  /** A non-empty plain word is a component value of depth 0. */
  lemma PlainIsComponent(t: string)
    requires |t| > 0 && IsPlain(t)
    ensures IsComponentValue(t) && Depth(t) == 0
  {
    NoParensDepth(t);
    forall k | 0 <= k < |t| ensures !StopsAt(t, k) {
      if 0 < k { assert t[..k][k - 1] == t[k - 1]; }
    }
  }

  /** A component value of depth 0 ends at whitespace or at the end of the
      input; one that ends by closing its parentheses ends there whatever
      follows. */
  lemma StopsAfter(t: string, rest: string)
    requires (Depth(t) == 0 && (rest == [] || IsWs(rest[0]))) || Closed(t)
    ensures StopsAt(t + rest, |t|)
  {
    assert (t + rest)[..|t|] == t;
  }

  // ---------------------------------------------------------------------
  // Examples
  // ---------------------------------------------------------------------

  lemma KeywordExample()
    ensures Split("cover") == ["cover"]
  {
    PlainIsComponent("cover");
    StopsAfter("cover", []);
    SplitOne("cover");
  }

  /** A single token. */
  lemma SplitOne(t: string)
    requires IsComponentValue(t) && StopsAt(t + [], |t|)
    ensures Split(t) == [t]
  {
    SplitCons([], t, []);
    AppendEmpty(t);
    SplitOfWhitespace([]);
  }

  /** Two tokens with a whitespace gap (possibly empty) between them. */
  lemma SplitTwo(t1: string, g: string, t2: string)
    requires IsComponentValue(t1) && StopsAt(t1 + (g + t2), |t1|)
    requires AllWs(g) && IsComponentValue(t2) && StopsAt(t2 + [], |t2|)
    ensures Split(t1 + (g + t2)) == [t1, t2]
  {
    assert Split(t1 + (g + t2)) == [t1] + Split(g + t2) by {
      SplitCons([], t1, g + t2);
      AppendEmpty(t1);
    }
    assert Split(g + t2) == [t2] by {
      SplitCons(g, t2, []);
      AppendEmpty(g + t2);
      SplitOfWhitespace([]);
    }
  }

  lemma TwoWordsExample()
    ensures Split("auto 100%") == ["auto", "100%"]
  {
    PlainIsComponent("auto");
    PlainIsComponent("100%");
    StopsAfter("auto", " 100%");
    StopsAfter("100%", "");
    assert "auto" + (" " + "100%") == "auto 100%";
    assert "100%" + [] == "100%" + "";
    SplitTwo("auto", " ", "100%");
  }

  /** A closing parenthesis ends a token even without whitespace after it. */
  lemma AdjacentExample()
    ensures Split("f(a)b") == ["f(a)", "b"]
  {
    NoParensBalanced("a");
    FunctionCallIsComponent("f", "a");
    assert "f" + "(" + "a" + ")" == "f(a)";
    StopsAfter("f(a)", "b");
    PlainIsComponent("b");
    StopsAfter("b", "");
    assert "f(a)" + ("" + "b") == "f(a)b";
    assert "b" + [] == "b" + "";
    SplitTwo("f(a)", "", "b");
  }

  /** Whitespace inside parentheses stays in the token. */
  lemma CalcExample()
    ensures Split("calc(0% + 50px) calc(100% - 50px)") == ["calc(0% + 50px)", "calc(100% - 50px)"]
  {
    var t1, t2 := "calc(0% + 50px)", "calc(100% - 50px)";
    CalcSpelling();
    CalcTokenSpelling();
    CalcTokenIsComponent("0% + 50px");
    CalcTokenIsComponent("100% - 50px");
    StopsAfter(t1, " " + t2);
    StopsAfter(t2, []);
    SplitTwo(t1, " ", t2);
  }

  // The spelling lemmas below check how the example literals are
  // assembled, each on its own, for the same reason.

  lemma CalcSpelling()
    ensures "calc(0% + 50px)" + (" " + "calc(100% - 50px)") == "calc(0% + 50px) calc(100% - 50px)"
  {
  }

  lemma CalcTokenSpelling()
    ensures "calc" + "(" + "0% + 50px" + ")" == "calc(0% + 50px)"
    ensures "calc" + "(" + "100% - 50px" + ")" == "calc(100% - 50px)"
  {
  }

  lemma CalcTokenIsComponent(args: string)
    requires NoParens(args)
    ensures IsComponentValue("calc" + "(" + args + ")") && Closed("calc" + "(" + args + ")")
  {
    NoParensBalanced(args);
    FunctionCallIsComponent("calc", args);
  }

  /** Nested calls form one token. */
  lemma NestedExample()
    ensures Split("min(1px, max(2px, 3px))") == ["min(1px, max(2px, 3px))"]
  {
    var inner, t := "max(2px, 3px)", "min(1px, max(2px, 3px))";
    NestedSpelling();
    assert Balanced("1px, " + inner) by {
      NoParensBalanced("2px, 3px");
      FunctionCallIsComponent("max", "2px, 3px");
      NoParensBalanced("1px, ");
      BalancedConcat("1px, ", inner);
    }
    assert IsComponentValue(t) && Closed(t) by {
      FunctionCallIsComponent("min", "1px, " + inner);
    }
    StopsAfter(t, []);
    SplitOne(t);
  }

  lemma NestedSpelling()
    ensures "max" + "(" + "2px, 3px" + ")" == "max(2px, 3px)"
    ensures "min" + "(" + ("1px, " + "max(2px, 3px)") + ")" == "min(1px, max(2px, 3px))"
  {
  }

  /** An unclosed call keeps the rest of the input, spaces included. */
  lemma UnclosedCallExample()
    ensures Split("calc(1px 2px") == ["calc(1px 2px"]
  {
    UnclosedSpelling();
    NoParensBalanced("1px 2px");
    UnclosedCallRunsToEnd("calc", "1px 2px");
  }

  lemma UnclosedSpelling()
    ensures "calc" + "(" + "1px 2px" == "calc(1px 2px"
  {
  }

  /** A stray `)` takes the depth below 0, where whitespace no longer
      separates tokens. */
  lemma StrayParenExample()
    ensures Split(") b") == [") b"]
  {
    var s := ") b";
    assert s[..1] == ")" && s[..2] == ") " && s[..3] == s;
    assert Depth(")") == -1;
    DepthSnoc(")", ' ');
    assert ")" + [' '] == ") ";
    DepthSnoc(") ", 'b');
    assert ") " + ['b'] == s;
    UnbalancedRunsToEnd(s);
  }
}
