/** The textual side of a dice expression (lib/dice.js, lines 33-58): removal of
    whitespace, the grammar `Node ([+-] Node)*` checked by a hand-written scanner,
    the node pattern as the regular-expression engine matches it, and the split
    of a valid expression into signed nodes. */
module Notation {
  import opened Wrappers

  /** The characters matched by `\s` in a JavaScript regular expression. */
  predicate IsWhitespace(c: char) {
    || c == '\t' || c == '\n' || c == '\U{000B}' || c == '\U{000C}' || c == '\r' || c == ' '
    || c == '\U{00A0}' || c == '\U{1680}' || '\U{2000}' <= c <= '\U{200A}'
    || c == '\U{2028}' || c == '\U{2029}' || c == '\U{202F}' || c == '\U{205F}'
    || c == '\U{3000}' || c == '\U{FEFF}'
  }

  predicate NoWhitespace(s: string) {
    forall i :: 0 <= i < |s| ==> !IsWhitespace(s[i])
  }

  predicate AllWhitespace(s: string) {
    forall i :: 0 <= i < |s| ==> IsWhitespace(s[i])
  }

  /** `replace(/\s/g, '')`: every whitespace character removed, the rest kept in order. */
  function Strip(s: string): string {
    if s == [] then []
    else if IsWhitespace(s[0]) then Strip(s[1..])
    else [s[0]] + Strip(s[1..])
  }

  /** Stripping leaves no whitespace, and what is left is at most as long. */
  lemma {:induction false} StripRemovesWhitespace(s: string)
    ensures NoWhitespace(Strip(s)) && |Strip(s)| <= |s|
  {
    if s != [] {
      StripRemovesWhitespace(s[1..]);
    }
  }

  /** Stripping works piecewise: it commutes with concatenation. */
  lemma {:induction false} StripConcat(a: string, b: string)
    ensures Strip(a + b) == Strip(a) + Strip(b)
  {
    if a == [] {
      assert a + b == b;
    } else {
      assert (a + b)[0] == a[0] && (a + b)[1..] == a[1..] + b;
      StripConcat(a[1..], b);
    }
  }

  /** A string that holds no whitespace is left as it is, so stripping is idempotent. */
  lemma {:induction false} StripKeeps(s: string)
    requires NoWhitespace(s)
    ensures Strip(s) == s
  {
    if s != [] {
      StripKeeps(s[1..]);
    }
  }

  /** A run of whitespace strips to nothing. */
  lemma {:induction false} StripWhitespace(w: string)
    requires AllWhitespace(w)
    ensures Strip(w) == []
  {
    if w != [] {
      StripWhitespace(w[1..]);
    }
  }

  /** Whitespace inserted anywhere is invisible after stripping. */
  lemma InsertedWhitespaceVanishes(a: string, w: string, b: string)
    requires AllWhitespace(w)
    ensures Strip(a + w + b) == Strip(a + b)
  {
    StripConcat(a + w, b);
    StripConcat(a, w);
    StripWhitespace(w);
    StripConcat(a, b);
  }

  /** Whitespace on both sides of an operator is invisible after stripping. */
  lemma SpacedOperator(a: string, op: char, b: string)
    ensures Strip(a + " " + [op] + " " + b) == Strip(a + [op] + b)
  {
    InsertedWhitespaceVanishes(a + " " + [op], " ", b);
    InsertedWhitespaceVanishes(a, " ", [op] + b);
    assert a + " " + [op] + " " + b == (a + " " + [op]) + " " + b;
    assert a + " " + [op] + b == a + " " + ([op] + b);
    assert a + [op] + b == a + ([op] + b);
  }

  predicate IsDigit(c: char) { '0' <= c <= '9' }

  /** The dice marker `[dD]`. */
  predicate IsMarker(c: char) { c == 'd' || c == 'D' }

  predicate IsOperator(c: char) { c == '+' || c == '-' }

  predicate AllDigits(s: string) {
    forall i :: 0 <= i < |s| ==> IsDigit(s[i])
  }

  /** The length of the longest run of digits at the start of `t`. */
  function DigitRun(t: string): (n: nat)
    ensures n <= |t|
    ensures n == |t| || !IsDigit(t[n])
  {
    if t != [] && IsDigit(t[0]) then 1 + DigitRun(t[1..]) else 0
  }

  /** The run holds only digits. */
  lemma {:induction false} DigitRunDigits(t: string)
    ensures AllDigits(t[..DigitRun(t)])
  {
    if t != [] && IsDigit(t[0]) {
      DigitRunDigits(t[1..]);
      var n := DigitRun(t);
      assert t[..n] == [t[0]] + t[1..][..n - 1];
    }
  }

  /** A digit run is determined by where it stops. */
  lemma {:induction false} DigitRunIs(t: string, n: nat)
    requires n <= |t| && AllDigits(t[..n]) && (n == |t| || !IsDigit(t[n]))
    ensures DigitRun(t) == n
  {
    if n > 0 {
      assert t[..n][0] == t[0];
      assert t[1..][..n - 1] == t[..n][1..];
      DigitRunIs(t[1..], n - 1);
    }
  }

  /** A constant node: 1 to 8 digits. */
  predicate IsConstantNode(t: string) {
    1 <= |t| <= 8 && AllDigits(t)
  }

  /** The sides of a dice node: 1 to 4 digits, or `%`. */
  predicate IsSides(t: string) {
    t == "%" || (1 <= |t| <= 4 && AllDigits(t))
  }

  /** A dice node: 0 to 4 digits, a marker, then the sides. The count is exactly the
      leading run of digits, because a marker is not a digit. */
  predicate IsDiceNode(t: string) {
    var k := DigitRun(t);
    k <= 4 && k < |t| && IsMarker(t[k]) && IsSides(t[k + 1..])
  }

  predicate IsNode(t: string) {
    IsConstantNode(t) || IsDiceNode(t)
  }

  /** A node holds no operator, so operators delimit nodes. */
  lemma NodeHasNoOperator(t: string, i: nat)
    requires IsNode(t) && i < |t|
    ensures !IsOperator(t[i])
  {
    if IsDiceNode(t) {
      var k := DigitRun(t);
      DigitRunDigits(t);
      if i < k {
        assert t[..k][i] == t[i];
      } else if k < i {
        assert t[k + 1..][i - k - 1] == t[i];
      }
    }
  }

  function Min(a: nat, b: nat): nat { if a <= b then a else b }

  /** The first alternative of the node pattern, `\d{1,8}(?![Dd\d])`, matched at the
      start of `t` with backtracking: the length of the match, if any. Backing off
      the greedy digits always leaves a digit next, which the lookahead refuses, so
      only the whole run can match. */
  function MatchConstant(t: string): (r: Option<nat>)
    ensures r.Some? ==> 1 <= r.value <= 8 && r.value <= |t|
    ensures r.Some? ==> r.value == |t| || !(IsDigit(t[r.value]) || IsMarker(t[r.value]))
  {
    var n := DigitRun(t);
    if 1 <= n <= 8 && (n == |t| || !IsMarker(t[n])) then Some(n) else None
  }

  /** The second alternative, `\d{0,4}[dD](\d{1,4}|%)`, matched at the start of `t`. */
  function MatchDice(t: string): (r: Option<nat>)
    ensures r.Some? ==> 2 <= r.value <= |t|
  {
    var n := DigitRun(t);
    if n <= 4 && n < |t| && IsMarker(t[n]) then
      var s := DigitRun(t[n + 1..]);
      if s >= 1 then Some(n + 1 + Min(s, 4))
      else if n + 1 < |t| && t[n + 1] == '%' then Some(n + 1 + 1)
      else None
    else None
  }

  /** The node pattern `(\d{1,8}(?![Dd\d])|\d{0,4}[dD](\d{1,4}|%))` matched at the
      start of `t`: the first alternative is tried first. */
  function NodeMatch(t: string): (r: Option<nat>)
    ensures r.Some? ==> 1 <= r.value <= |t|
  {
    match MatchConstant(t)
    case Some(n) => Some(n)
    case None => MatchDice(t)
  }

  /** A prefix of digits is digits. */
  lemma DigitsPrefix(s: string, k: nat)
    requires AllDigits(s) && k <= |s|
    ensures AllDigits(s[..k])
  {
    assert forall i :: 0 <= i < k ==> s[..k][i] == s[i];
  }

  /** Up to four digits, a marker and `k` characters of sides make a dice node. */
  lemma DiceNodeAt(t: string, n: nat, k: nat)
    requires n < |t| && n + 1 + k <= |t| && n <= 4 && AllDigits(t[..n]) && IsMarker(t[n])
    requires IsSides(t[n + 1..][..k])
    ensures IsDiceNode(t[..n + 1 + k])
  {
    var p := t[..n + 1 + k];
    assert p[..n] == t[..n] && p[n] == t[n] && p[n + 1..] == t[n + 1..][..k];
    DigitRunIs(p, n);
  }

  /** Digits, a marker and then a run of `s` digits: the first four of them are the
      sides of a dice node. */
  lemma DiceWithDigits(t: string, n: nat, s: nat, k: nat)
    requires n == DigitRun(t) && n <= 4 && n < |t| && IsMarker(t[n])
    requires s == DigitRun(t[n + 1..]) && s >= 1 && k == Min(s, 4)
    ensures n + 1 + k <= |t| && IsDiceNode(t[..n + 1 + k])
  {
    var u := t[n + 1..];
    DigitRunDigits(t);
    DigitRunDigits(u);
    DigitsPrefix(u[..s], k);
    assert u[..s][..k] == u[..k];
    DiceNodeAt(t, n, k);
  }

  /** Digits, a marker and then `%` make a dice node. */
  lemma DiceWithPercent(t: string, n: nat)
    requires n == DigitRun(t) && n <= 4 && n + 1 < |t| && IsMarker(t[n]) && t[n + 1] == '%'
    ensures IsDiceNode(t[..n + 1 + 1])
  {
    DigitRunDigits(t);
    assert t[n + 1..][..1] == "%";
    DiceNodeAt(t, n, 1);
  }

  /** What `MatchDice` gives once the digit runs before and after the marker are
      known. */
  lemma MatchDiceUnfold(t: string, n: nat, s: nat, r: Option<nat>)
    requires n == DigitRun(t) && n <= 4 && n < |t| && IsMarker(t[n]) && s == DigitRun(t[n + 1..])
    requires r == if s >= 1 then Some(n + 1 + Min(s, 4))
                  else if n + 1 < |t| && t[n + 1] == '%' then Some(n + 1 + 1)
                  else None
    ensures MatchDice(t) == r
  {
  }

  /** Whatever the first alternative matches is a constant node. */
  lemma ConstantMatchIsNode(t: string)
    ensures MatchConstant(t).Some? ==> IsConstantNode(t[..MatchConstant(t).value])
  {
    DigitRunDigits(t);
  }

  /** Whatever the second alternative matches is a dice node. */
  lemma DiceMatchIsNode(t: string)
    ensures MatchDice(t).Some? ==> IsDiceNode(t[..MatchDice(t).value])
  {
    var n := DigitRun(t);
    if n <= 4 && n < |t| && IsMarker(t[n]) {
      var s := DigitRun(t[n + 1..]);
      if s >= 1 {
        MatchDiceUnfold(t, n, s, Some(n + 1 + Min(s, 4)));
        DiceWithDigits(t, n, s, Min(s, 4));
      } else if n + 1 < |t| && t[n + 1] == '%' {
        MatchDiceUnfold(t, n, s, Some(n + 1 + 1));
        DiceWithPercent(t, n);
      }
    }
  }

  /** Whatever the node pattern matches is a node. */
  lemma NodeMatchIsNode(t: string)
    ensures NodeMatch(t).Some? ==> IsNode(t[..NodeMatch(t).value])
  {
    ConstantMatchIsNode(t);
    DiceMatchIsNode(t);
  }

  /** A run of digits directly followed by a dice marker is never matched as a
      constant: the node pattern takes the whole dice node instead. */
  lemma DigitsBeforeMarkerAreDice(t: string, n: nat)
    requires n < |t| && AllDigits(t[..n]) && IsMarker(t[n])
    ensures MatchConstant(t) == None
    ensures NodeMatch(t) == MatchDice(t)
  {
    DigitRunIs(t, n);
  }

  /** The index of the first operator in `t`, or `|t|` when there is none. */
  function NextOperator(t: string): (j: nat)
    ensures j <= |t|
    ensures j < |t| ==> IsOperator(t[j])
  {
    if t == [] || IsOperator(t[0]) then 0 else 1 + NextOperator(t[1..])
  }

  /** No operator comes before the next operator. */
  lemma {:induction false} BeforeNextOperator(t: string)
    ensures forall k :: 0 <= k < NextOperator(t) ==> !IsOperator(t[k])
  {
    if t != [] && !IsOperator(t[0]) {
      BeforeNextOperator(t[1..]);
      assert forall k :: 0 < k < NextOperator(t) ==> t[k] == t[1..][k - 1];
    }
  }

  /** The next operator is determined by the operator-free prefix before it. */
  lemma {:induction false} NextOperatorIs(t: string, j: nat)
    requires j <= |t| && (j < |t| ==> IsOperator(t[j]))
    requires forall k :: 0 <= k < j ==> !IsOperator(t[k])
    ensures NextOperator(t) == j
  {
    if j > 0 {
      assert !IsOperator(t[0]);
      assert forall k :: 0 <= k < j - 1 ==> t[1..][k] == t[k + 1];
      NextOperatorIs(t[1..], j - 1);
    }
  }

  /** The validation pattern `^Node([+-]Node)*$`, scanned piece by piece: the text up
      to the first operator must be a node, and the text after it must again be an
      expression. The empty string is not an expression. */
  predicate IsExpression(t: string)
    decreases |t|
  {
    var j := NextOperator(t);
    IsNode(t[..j]) && (j == |t| || IsExpression(t[j + 1..]))
  }

  /** A node is made of digits, a marker and `%`, none of them whitespace. */
  lemma NodeHasNoWhitespace(t: string)
    requires IsNode(t)
    ensures NoWhitespace(t)
  {
    if !IsConstantNode(t) {
      var k := DigitRun(t);
      DigitRunDigits(t);
      forall i | 0 <= i < |t|
        ensures !IsWhitespace(t[i])
      {
        if i < k {
          assert t[i] == t[..k][i];
        } else if i > k {
          assert t[i] == t[k + 1..][i - k - 1];
        }
      }
    }
  }

  lemma NoWhitespaceJoin(a: string, c: char, b: string)
    requires NoWhitespace(a) && !IsWhitespace(c) && NoWhitespace(b)
    ensures NoWhitespace(a + ([c] + b))
  {
    var t := a + ([c] + b);
    forall i | 0 <= i < |t|
      ensures !IsWhitespace(t[i])
    {
      if i < |a| {
        assert t[i] == a[i];
      } else if i > |a| {
        assert t[i] == b[i - |a| - 1];
      }
    }
  }

  /** A valid expression holds no whitespace, so stripping it changes nothing. */
  lemma {:induction false} ExpressionHasNoWhitespace(t: string)
    requires IsExpression(t)
    ensures NoWhitespace(t) && Strip(t) == t
    decreases |t|
  {
    var j := NextOperator(t);
    NodeHasNoWhitespace(t[..j]);
    if j == |t| {
      assert t[..j] == t;
    } else {
      ExpressionSplit(t, '+', j);
      ExpressionHasNoWhitespace(t[j + 1..]);
      SplitAround(t, j);
      NoWhitespaceJoin(t[..j], t[j], t[j + 1..]);
    }
    StripKeeps(t);
  }

  /** One match of the node pattern with the sign in front of it (`{sign, item}`). */
  datatype Node = Node(sign: char, item: string)

  /** The nodes of the expression `t`, the first one carrying `sign`. */
  function TokensFrom(t: string, sign: char): (ns: seq<Node>)
    requires IsExpression(t)
    decreases |t|
  {
    var j := NextOperator(t);
    [Node(sign, t[..j])] + if j == |t| then [] else TokensFrom(t[j + 1..], t[j])
  }

  /** The nodes of a valid expression in source order; the first one is signed `+`. */
  function Tokens(t: string): seq<Node>
    requires IsExpression(t)
  {
    TokensFrom(t, '+')
  }

  /** An expression with an operator unfolds at the first one into a node and,
      after the operator, another expression. */
  lemma ExpressionSplit(t: string, sign: char, j: nat)
    requires IsExpression(t) && j == NextOperator(t) && j < |t|
    ensures IsOperator(t[j]) && IsExpression(t[j + 1..])
    ensures TokensFrom(t, sign) == [Node(sign, t[..j])] + TokensFrom(t[j + 1..], t[j])
  {
  }

  /** An expression without an operator is a single node. */
  lemma ExpressionEnd(t: string, sign: char)
    requires IsExpression(t) && NextOperator(t) == |t|
    ensures TokensFrom(t, sign) == [Node(sign, t)]
  {
    assert t[..|t|] == t;
  }

  lemma Slices(s: string, pos: nat, j: nat, end: nat)
    requires end == pos + j && end <= |s|
    ensures s[pos..][..j] == s[pos..end]
    ensures end < |s| ==> s[pos..][j] == s[end] && s[pos..][j + 1..] == s[end + 1..]
  {
  }

  function RenderTail(ns: seq<Node>): string {
    if ns == [] then [] else [ns[0].sign] + ns[0].item + RenderTail(ns[1..])
  }

  /** The text of a sequence of nodes: the first item, then each later node's sign
      and item. */
  function Render(ns: seq<Node>): string {
    if ns == [] then [] else ns[0].item + RenderTail(ns[1..])
  }

  /** Nodes whose signs after the first are operators and whose items are nodes. */
  predicate Signed(ns: seq<Node>) {
    && |ns| >= 1
    && (forall i :: 0 < i < |ns| ==> IsOperator(ns[i].sign))
    && (forall i :: 0 <= i < |ns| ==> IsNode(ns[i].item))
  }

  /** What the tokenizer can produce: signed nodes whose first sign is `+`. */
  predicate WellFormed(ns: seq<Node>) {
    Signed(ns) && ns[0].sign == '+'
  }

  /** A node in front of signed nodes, joined by its operator, stays signed. */
  lemma SignedCons(n: Node, rest: seq<Node>)
    requires IsNode(n.item) && Signed(rest) && IsOperator(rest[0].sign)
    ensures Signed([n] + rest)
  {
    var ns := [n] + rest;
    forall i | 0 < i < |ns| ensures IsOperator(ns[i].sign) && IsNode(ns[i].item) {
      assert ns[i] == rest[i - 1];
    }
  }

  /** Splitting yields signed nodes, the first carrying the given sign. */
  lemma {:induction false} TokensFromSigned(t: string, sign: char)
    requires IsExpression(t)
    ensures Signed(TokensFrom(t, sign)) && TokensFrom(t, sign)[0].sign == sign
  {
    var j := NextOperator(t);
    if j < |t| {
      TokensFromSigned(t[j + 1..], t[j]);
      SignedCons(Node(sign, t[..j]), TokensFrom(t[j + 1..], t[j]));
    }
  }

  lemma RenderTailFirst(ns: seq<Node>)
    requires ns != []
    ensures RenderTail(ns) == [ns[0].sign] + Render(ns)
  {
  }

  /** A string is its part before position `j`, the character at `j`, and the rest. */
  lemma SplitAround(t: string, j: nat)
    requires j < |t|
    ensures t == t[..j] + ([t[j]] + t[j + 1..])
  {
  }

  /** Splitting then rendering gives back the expression. */
  lemma {:induction false} TokensFromRender(t: string, sign: char)
    requires IsExpression(t)
    ensures Render(TokensFrom(t, sign)) == t
  {
    var j := NextOperator(t);
    if j == |t| {
      ExpressionEnd(t, sign);
      assert Render([Node(sign, t)]) == t + RenderTail([]);
    } else {
      ExpressionSplit(t, sign, j);
      var u := t[j + 1..];
      var rest := TokensFrom(u, t[j]);
      var ns := [Node(sign, t[..j])] + rest;
      TokensFromRender(u, t[j]);
      TokensFromSigned(u, t[j]);
      RenderTailFirst(rest);
      assert ns[0].item == t[..j] && ns[1..] == rest;
      assert Render(ns) == t[..j] + ([t[j]] + u);
      SplitAround(t, j);
    }
  }

  /** A node on its own is an expression of one node. */
  lemma NodeAlone(a: string, sign: char)
    requires IsNode(a)
    ensures IsExpression(a) && TokensFrom(a, sign) == [Node(sign, a)]
  {
    forall k | 0 <= k < |a| ensures !IsOperator(a[k]) {
      NodeHasNoOperator(a, k);
    }
    NextOperatorIs(a, |a|);
    assert a[..|a|] == a;
  }

  /** A node, an operator and an expression make an expression whose first node is
      that node, followed by the nodes of the rest. */
  lemma NodeThenRest(a: string, op: char, r: string, sign: char)
    requires IsNode(a) && IsOperator(op) && IsExpression(r)
    ensures IsExpression(a + ([op] + r))
    ensures TokensFrom(a + ([op] + r), sign) == [Node(sign, a)] + TokensFrom(r, op)
  {
    var t := a + ([op] + r);
    forall k | 0 <= k < |a| ensures !IsOperator(t[k]) {
      NodeHasNoOperator(a, k);
      assert t[k] == a[k];
    }
    assert t[|a|] == op;
    NextOperatorIs(t, |a|);
    assert t[..|a|] == a && t[|a| + 1..] == r;
  }

  /** One step of `RenderTokensFrom`: a node in front of nodes that render and split
      back render and split back too. */
  lemma RenderConsStep(ns: seq<Node>)
    requires |ns| >= 2 && IsNode(ns[0].item) && IsOperator(ns[1].sign)
    requires IsExpression(Render(ns[1..])) && TokensFrom(Render(ns[1..]), ns[1].sign) == ns[1..]
    ensures IsExpression(Render(ns)) && TokensFrom(Render(ns), ns[0].sign) == ns
  {
    var rest := ns[1..];
    RenderTailFirst(rest);
    assert Render(ns) == ns[0].item + ([rest[0].sign] + Render(rest));
    NodeThenRest(ns[0].item, rest[0].sign, Render(rest), ns[0].sign);
    assert ns == [ns[0]] + rest;
  }

  /** The base case of `RenderTokensFrom`: a single node. */
  lemma RenderOne(ns: seq<Node>)
    requires |ns| == 1 && IsNode(ns[0].item)
    ensures IsExpression(Render(ns)) && TokensFrom(Render(ns), ns[0].sign) == ns
  {
    assert Render(ns) == ns[0].item + RenderTail([]);
    assert Render(ns) == ns[0].item;
    NodeAlone(ns[0].item, ns[0].sign);
    assert ns == [Node(ns[0].sign, ns[0].item)];
  }

  /** Rendering then splitting gives back the nodes. */
  lemma {:induction false} RenderTokensFrom(ns: seq<Node>)
    requires Signed(ns)
    ensures IsExpression(Render(ns)) && TokensFrom(Render(ns), ns[0].sign) == ns
  {
    if |ns| == 1 {
      RenderOne(ns);
    } else {
      var rest := ns[1..];
      assert Signed(rest) by {
        assert forall i :: 0 <= i < |rest| ==> rest[i] == ns[i + 1];
      }
      RenderTokensFrom(rest);
      RenderConsStep(ns);
    }
  }

  /** The tokenizer's output is well formed and spells out the expression. */
  lemma TokensRender(t: string)
    requires IsExpression(t)
    ensures WellFormed(Tokens(t)) && Render(Tokens(t)) == t
  {
    TokensFromSigned(t, '+');
    TokensFromRender(t, '+');
  }

  /** The validation grammar, read generatively: every rendering of well-formed nodes
      is an expression, and tokenizing it recovers exactly those nodes. Together with
      TokensRender this says an expression is exactly `Node ([+-] Node)*`. */
  lemma RenderTokens(ns: seq<Node>)
    requires WellFormed(ns)
    ensures IsExpression(Render(ns)) && Tokens(Render(ns)) == ns
  {
    RenderTokensFrom(ns);
  }

  function OperatorCount(t: string): nat {
    if t == [] then 0 else (if IsOperator(t[0]) then 1 else 0) + OperatorCount(t[1..])
  }

  lemma {:induction false} OperatorCountConcat(a: string, b: string)
    ensures OperatorCount(a + b) == OperatorCount(a) + OperatorCount(b)
  {
    if a == [] {
      assert a + b == b;
    } else {
      assert (a + b)[0] == a[0] && (a + b)[1..] == a[1..] + b;
      OperatorCountConcat(a[1..], b);
    }
  }

  lemma {:induction false} NoOperatorCount(a: string)
    requires forall k :: 0 <= k < |a| ==> !IsOperator(a[k])
    ensures OperatorCount(a) == 0
  {
    if a != [] {
      NoOperatorCount(a[1..]);
    }
  }

  /** There is one node more than there are operators. */
  lemma {:induction false} TokenCount(t: string, sign: char)
    requires IsExpression(t)
    ensures |TokensFrom(t, sign)| == OperatorCount(t) + 1
  {
    var j := NextOperator(t);
    var a := t[..j];
    assert OperatorCount(a) == 0 by {
      BeforeNextOperator(t);
      assert forall k :: 0 <= k < |a| ==> a[k] == t[k];
      NoOperatorCount(a);
    }
    if j == |t| {
      ExpressionEnd(t, sign);
      assert a == t;
    } else {
      ExpressionSplit(t, sign, j);
      var u := t[j + 1..];
      TokenCount(u, t[j]);
      SplitAround(t, j);
      OperatorCountConcat(a, [t[j]] + u);
      assert OperatorCount([t[j]] + u) == 1 + OperatorCount(u) by {
        assert ([t[j]] + u)[1..] == u;
      }
    }
  }

  /** On an expression the node pattern matches exactly the text up to the next
      operator. */
  lemma NodeMatchIsPiece(t: string)
    requires IsExpression(t)
    ensures NodeMatch(t) == Some(NextOperator(t))
  {
    var j := NextOperator(t);
    if IsConstantNode(t[..j]) {
      DigitRunIs(t, j);
    } else {
      DiceMatchIsPiece(t, j);
    }
  }

  /** Digit sides that end at an operator or at the end of the text are matched whole
      by `\d{1,4}`. */
  lemma DigitSidesMatch(t: string, k: nat, len: nat)
    requires k == DigitRun(t) && k <= 4 && k + 1 + len <= |t| && IsMarker(t[k])
    requires k + 1 + len < |t| ==> IsOperator(t[k + 1 + len])
    requires 1 <= len <= 4 && AllDigits(t[k + 1..][..len])
    ensures MatchDice(t) == Some(k + 1 + len)
  {
    var u := t[k + 1..];
    assert len < |u| ==> u[len] == t[k + 1 + len];
    DigitRunIs(u, len);
    assert Min(len, 4) == len;
    MatchDiceUnfold(t, k, len, Some(k + 1 + len));
  }

  /** Sides `%` are matched by the `%` alternative. */
  lemma PercentSidesMatch(t: string, k: nat, j: nat)
    requires k == DigitRun(t) && k <= 4 && j == k + 1 + 1 && j <= |t| && IsMarker(t[k])
    requires t[k + 1] == '%'
    ensures MatchDice(t) == Some(j)
  {
    DigitRunIs(t[k + 1..], 0);
    MatchDiceUnfold(t, k, 0, Some(j));
  }

  /** A dice node that ends at an operator or at the end of the text is matched whole
      by the second alternative, and not at all by the first. */
  lemma DiceMatchIsPiece(t: string, j: nat)
    requires j <= |t| && (j < |t| ==> IsOperator(t[j]))
    requires IsDiceNode(t[..j])
    ensures NodeMatch(t) == Some(j)
  {
    var p := t[..j];
    var k := DigitRun(p);
    DigitRunDigits(p);
    assert p[..k] == t[..k] && t[k] == p[k] && p[k + 1..] == t[k + 1..j];
    DigitRunIs(t, k);
    DigitsBeforeMarkerAreDice(t, k);
    if p[k + 1..] == "%" {
      assert t[k + 1..j][0] == t[k + 1];
      PercentSidesMatch(t, k, j);
    } else {
      assert t[k + 1..][..j - k - 1] == p[k + 1..];
      DigitSidesMatch(t, k, j - k - 1);
    }
  }

  /** The node pattern never matches at an operator. */
  lemma NoMatchAtOperator(t: string)
    requires |t| > 0 && IsOperator(t[0])
    ensures NodeMatch(t) == None
  {
    DigitRunIs(t, 0);
  }

  /** The sign of the node starting at `pos`: the character before it, or `+` at the
      start of the text. */
  function SignAt(s: string, pos: nat): char
    requires pos <= |s|
  {
    if pos == 0 then '+' else s[pos - 1]
  }

  /** The tokenizer stands at the start of a node, `nodes` holds the nodes before it,
      and the sign of this node is the character before it (`+` at the start). */
  ghost predicate AtNode(s: string, pos: nat, nodes: seq<Node>) {
    && IsExpression(s)
    && pos < |s|
    && (pos == 0 || IsOperator(s[pos - 1]))
    && IsExpression(s[pos..])
    && nodes + TokensFrom(s[pos..], SignAt(s, pos)) == Tokens(s)
  }

  /** The tokenizer stands on an operator, and `nodes` holds the nodes before it. */
  ghost predicate AtOperator(s: string, pos: nat, nodes: seq<Node>) {
    && IsExpression(s)
    && pos < |s|
    && IsOperator(s[pos])
    && IsExpression(s[pos + 1..])
    && nodes + TokensFrom(s[pos + 1..], s[pos]) == Tokens(s)
  }

  /** Appending one node moves it from the pending nodes to the recorded ones. */
  lemma RecordNode(nodes: seq<Node>, node: Node, rest: seq<Node>, nodes': seq<Node>, all: seq<Node>)
    requires nodes + ([node] + rest) == all && nodes' == nodes + [node]
    ensures nodes' + rest == all
  {
    assert nodes + ([node] + rest) == nodes' + rest;
  }

  /** Recording the node that starts at `pos` and ends at the operator at `end`
      leaves the tokenizer on that operator. */
  lemma NextOperatorSplit(s: string, pos: nat, nodes: seq<Node>, sign: char, j: nat, end: nat, nodes': seq<Node>)
    requires IsExpression(s) && pos <= |s| && IsExpression(s[pos..])
    requires nodes + TokensFrom(s[pos..], sign) == Tokens(s)
    requires j == NextOperator(s[pos..]) && end == pos + j && end < |s|
    requires nodes' == nodes + [Node(sign, s[pos..end])]
    ensures AtOperator(s, end, nodes')
  {
    ExpressionSplit(s[pos..], sign, j);
    Slices(s, pos, j, end);
    RecordNode(nodes, Node(sign, s[pos..end]), TokensFrom(s[end + 1..], s[end]), nodes', Tokens(s));
  }

  /** On an operator the pattern does not match, and the search moves on to the
      start of the next node. */
  lemma SkipStep(s: string, pos: nat, nodes: seq<Node>)
    requires AtOperator(s, pos, nodes)
    ensures NodeMatch(s[pos..]) == None
    ensures AtNode(s, pos + 1, nodes)
  {
    NoMatchAtOperator(s[pos..]);
    TokensFromSigned(s[pos + 1..], s[pos]);
  }

  /** The state of the tokenizer at position `pos`: done, at a node, or at an operator. */
  ghost predicate Scanning(s: string, pos: nat, nodes: seq<Node>) {
    || (IsExpression(s) && pos == |s| && nodes == Tokens(s))
    || AtNode(s, pos, nodes)
    || AtOperator(s, pos, nodes)
  }

  /** At the start of a node the search matches the whole node; recording it leaves
      the tokenizer on the next operator, or at the end with all nodes found. */
  lemma ScanAtNode(s: string, pos: nat, nodes: seq<Node>, len: nat, end: nat, nodes': seq<Node>)
    requires AtNode(s, pos, nodes) && NodeMatch(s[pos..]) == Some(len)
    requires end == pos + len && end <= |s| && nodes' == nodes + [Node(SignAt(s, pos), s[pos..end])]
    ensures Scanning(s, end, nodes')
  {
    var t := s[pos..];
    NodeMatchIsPiece(t);
    Slices(s, pos, len, end);
    if end < |s| {
      NextOperatorSplit(s, pos, nodes, SignAt(s, pos), len, end, nodes');
    } else {
      ExpressionEnd(t, SignAt(s, pos));
      assert t == s[pos..end];
    }
  }

  /** A search that matches keeps the tokenizer's state: the match is a whole node,
      recorded with the character before it as its sign, and the search resumes
      after it. */
  lemma ScanMatch(s: string, pos: nat, nodes: seq<Node>, len: nat, pos': nat, nodes': seq<Node>)
    requires Scanning(s, pos, nodes) && pos < |s| && NodeMatch(s[pos..]) == Some(len)
    requires pos' == pos + len && pos' <= |s| && nodes' == nodes + [Node(SignAt(s, pos), s[pos..pos'])]
    ensures Scanning(s, pos', nodes')
  {
    if AtNode(s, pos, nodes) {
      ScanAtNode(s, pos, nodes, len, pos', nodes');
    } else {
      SkipStep(s, pos, nodes);
      assert false;
    }
  }

  /** A search that does not match keeps the tokenizer's state when it moves one
      character on: it stood on an operator. */
  lemma ScanMiss(s: string, pos: nat, nodes: seq<Node>, pos': nat)
    requires Scanning(s, pos, nodes) && pos < |s| && NodeMatch(s[pos..]) == None
    requires pos' == pos + 1
    ensures Scanning(s, pos', nodes)
  {
    if AtNode(s, pos, nodes) {
      NodeMatchIsPiece(s[pos..]);
      assert false;
    } else {
      SkipStep(s, pos, nodes);
    }
  }
}
