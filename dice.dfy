/** The `DiceExpression` constructor (lib/dice.js, lines 24-172): input checks, the
    tokenizer and term conversion loops, the random engine, and the object whose
    `min`, `max` and `roll` members the constructor returns. */
module Dice {
  import opened Wrappers
  import opened Notation
  import opened Conversion
  import opened Rolls

  /** The JavaScript values a caller can pass as `inputExpression`. */
  datatype JsValue =
    | Undefined
    | Null
    | Boolean(b: bool)
    | Number(n: int)
    | BigInt(n: int)
    | NaN
    | Text(s: string)
    | Object

  /** The values `!inputExpression` holds for. */
  predicate Falsy(v: JsValue) {
    || v == Undefined || v == Null || v == Boolean(false)
    || v == Number(0) || v == BigInt(0) || v == NaN || v == Text("")
  }

  /** The three errors the constructor throws; `NotValid` carries the original input. */
  datatype Error = MissingInput | NotLiteral | NotValid(input: string)

  function Message(e: Error): string {
    match e
    case MissingInput => "The input parameter has not been passed."
    case NotLiteral => "The input parameter is not a literal type."
    case NotValid(input) => "The input parameter '" + input + "' is not valid."
  }

  /** The checks the constructor makes before it tokenizes: a falsy input is missing,
      a non-string is refused, and the whitespace-stripped string must be an
      expression. On success, the stripped string. */
  function Check(input: JsValue): (r: Result<string, Error>)
    ensures r == Failure(MissingInput) <==> Falsy(input)
    ensures r == Failure(NotLiteral) <==> !Falsy(input) && !input.Text?
    ensures r.Success? <==> input.Text? && IsExpression(Strip(input.s))
    ensures r.Success? ==> r.value == Strip(input.s)
    ensures r.Failure? && r.error.NotValid? ==> input.Text? && r.error.input == input.s
  {
    if Falsy(input) then
      Failure(MissingInput)
    else if !input.Text? then
      Failure(NotLiteral)
    else
      var expression := Strip(input.s);
      if !IsExpression(expression) then Failure(NotValid(input.s)) else Success(expression)
  }

  /** Whitespace inserted anywhere into a string input changes neither whether it
      is accepted nor the expression it yields. */
  lemma WhitespaceIsIgnored(a: string, w: string, b: string)
    requires AllWhitespace(w)
    ensures Check(Text(a + w + b)).Success? <==> Check(Text(a + b)).Success?
    ensures Check(Text(a + w + b)).Success? ==> Check(Text(a + w + b)).value == Check(Text(a + b)).value
  {
    InsertedWhitespaceVanishes(a, w, b);
  }

  /** The `nodes` loop: the node pattern is searched from the last match onwards,
      and each match is recorded with the character before it as its sign (`+` at
      the start). */
  method Tokenize(expression: string) returns (nodes: seq<Node>)
    requires IsExpression(expression)
    ensures nodes == Tokens(expression)
    ensures WellFormed(nodes) && Render(nodes) == expression
  {
    var s := expression;
    nodes := [];
    var pos := 0;
    while pos < |s|
      invariant pos <= |s| && Scanning(s, pos, nodes)
      decreases |s| - pos
    {
      var m := NodeMatch(s[pos..]);
      match m {
        case Some(len) =>
          var end := pos + len;
          var next := nodes + [Node(SignAt(s, pos), s[pos..end])];
          ScanMatch(s, pos, nodes, len, end, next);
          pos, nodes := end, next;
        case None =>
          var end := pos + 1;
          ScanMiss(s, pos, nodes, end);
          pos := end;
      }
    }
    TokensRender(s);
  }

  /** The `dices` loop: each node is converted, and `min` and `max` are accumulated
      as it goes. */
  method Convert(nodes: seq<Node>) returns (dices: seq<Term>, min: int, max: int)
    requires AllNodes(nodes)
    ensures dices == Terms(nodes)
    ensures min == MinBound(nodes) && max == MaxBound(nodes)
  {
    dices, min, max := [], 0, 0;
    for i := 0 to |nodes|
      invariant dices == Terms(nodes[..i])
      invariant min == MinBound(nodes[..i]) && max == MaxBound(nodes[..i])
    {
      var node := nodes[i];
      ghost var min0, max0 := min, max;
      var k: int := if node.sign == '+' then 1 else -1;
      var diceCnt := 0;
      var sideCnt := 0;
      if IsConstantNode(node.item) {
        sideCnt := DecimalValue(node.item);
        min := min + sideCnt * k;
        max := max + sideCnt * k;
      } else {
        var count := CountText(node.item);
        var sides := SidesText(node.item);
        if count != [] {
          diceCnt := DecimalValue(count);
        } else {
          diceCnt := 1;
        }
        if sides == "%" {
          sideCnt := 100;
        } else {
          sideCnt := DecimalValue(sides);
        }
        min := min + diceCnt * k;
        max := max + diceCnt * sideCnt * k;
      }
      assert min == min0 + MinContribution(node) && max == max0 + MaxContribution(node);
      assert Term(k, diceCnt, sideCnt) == ToTerm(node);
      assert nodes[..i + 1] == nodes[..i] + [node];
      ConvertSnoc(nodes[..i], node);
      dices := dices + [Term(k, diceCnt, sideCnt)];
    }
    assert nodes[..|nodes|] == nodes;
  }

  /** The engine's state after `n` draws from state `s`. */
  function Steps(step: nat -> nat, s: nat, n: nat): nat {
    if n == 0 then s else step(Steps(step, s, n - 1))
  }

  /** `a` draws followed by `b` draws are `a + b` draws. */
  lemma {:induction false} StepsAdd(step: nat -> nat, s: nat, a: nat, b: nat)
    ensures Steps(step, Steps(step, s, a), b) == Steps(step, s, a + b)
  {
    if b > 0 {
      StepsAdd(step, s, a, b - 1);
    }
  }

  /** Rolling term `i` after the terms before it: the draws add up. */
  lemma DrawsStep(step: nat -> nat, s: nat, ts: seq<Term>, i: nat, before: nat, after: nat)
    requires i < |ts| && before == Steps(step, s, DiceCount(ts[..i]))
    requires after == Steps(step, before, ts[i].dices)
    ensures after == Steps(step, s, DiceCount(ts[..i + 1]))
  {
    assert ts[..i + 1][..i] == ts[..i];
    StepsAdd(step, s, DiceCount(ts[..i]), ts[i].dices);
  }

  /** The random engine: its state advances with every draw, by a step function
      that stands for the generator. Only the range of a draw is modelled. */
  class Random {
    var state: nat
    const step: nat -> nat

    constructor (seed: nat, step: nat -> nat)
      ensures state == seed && this.step == step
    {
      state := seed;
      this.step := step;
    }

    /** `random.integer(lo, hi)`: a draw from `[lo, hi]`. */
    method Integer(lo: int, hi: int) returns (v: int)
      requires lo <= hi
      modifies this
      ensures lo <= v <= hi
      ensures state == step(old(state))
    {
      state := step(state);
      v := lo + state % (hi - lo + 1);
    }
  }

  /** The result of `.roll()`: the total and the per-term values. */
  datatype RollResult = RollResult(roll: int, dice: seq<int>)

  /** What the constructor returns: the converted terms, the bounds computed once,
      and the random engine every roll draws from. */
  class DiceExpression {
    /** The whitespace-stripped input the expression was built from. */
    ghost const expression: string
    const dices: seq<Term>
    const min: int
    const max: int
    const random: Random

    ghost predicate Valid() {
      && IsExpression(expression)
      && WellFormed(Tokens(expression))
      && dices == Terms(Tokens(expression))
      && min == MinBound(Tokens(expression))
      && max == MaxBound(Tokens(expression))
    }

    /** Tokenizes and converts a validated expression and seeds the engine. */
    constructor (expression: string, seed: nat, step: nat -> nat)
      requires IsExpression(expression)
      ensures Valid() && this.expression == expression
      ensures fresh(random) && random.state == seed && random.step == step
    {
      var nodes := Tokenize(expression);
      TokensRender(expression);
      var ds, lo, hi := Convert(nodes);
      this.expression := expression;
      dices := ds;
      min := lo;
      max := hi;
      random := new Random(seed, step);
    }

    /** `.min()`: the bound accumulated at construction. */
    function Min(): (m: int)
      requires Valid()
      ensures m == MinBound(Tokens(expression))
    {
      min
    }

    /** `.max()`: the bound accumulated at construction. */
    function Max(): (m: int)
      requires Valid()
      ensures m == MaxBound(Tokens(expression))
    {
      max
    }

    /** `_rollDice`: a constant yields `op * sides`; otherwise `dices` draws from
      `[1, sides]` are summed and signed. The faces drawn are returned as ghosts. */
    method RollDice(dice: Term) returns (value: int, ghost faces: seq<int>)
      requires dice.dices > 0 ==> dice.sides >= 1
      modifies random
      ensures FacesFit(dice, faces) && value == TermValue(dice, faces)
      ensures random.state == Steps(random.step, old(random.state), dice.dices)
    {
      if dice.dices == 0 {
        return dice.sides * dice.op, [];
      }
      var rolledValue := 0;
      faces := [];
      for i := 0 to dice.dices
        invariant |faces| == i && rolledValue == Sum(faces)
        invariant forall k :: 0 <= k < i ==> 1 <= faces[k] <= dice.sides
        invariant random.state == Steps(random.step, old(random.state), i)
      {
        var face := random.Integer(1, dice.sides);
        assert (faces + [face])[..i] == faces;
        faces := faces + [face];
        rolledValue := rolledValue + face;
      }
      value := rolledValue * dice.op;
    }

    /** `_roll`: one value per term, in term order. */
    method RollAll() returns (values: seq<int>, ghost faces: seq<seq<int>>)
      requires Valid() && Rollable(dices)
      modifies random
      ensures AllFit(dices, faces) && values == Values(dices, faces)
      ensures random.state == Steps(random.step, old(random.state), DiceCount(dices))
    {
      var terms := dices;
      values, faces := [], [];
      for i := 0 to |terms|
        invariant AllFit(terms[..i], faces)
        invariant values == Values(terms[..i], faces)
        invariant random.state == Steps(random.step, old(random.state), DiceCount(terms[..i]))
      {
        ghost var before := random.state;
        var v, f := RollDice(terms[i]);
        DrawsStep(random.step, old(random.state), terms, i, before, random.state);
        ValuesStep(terms, i, faces, values, f, v);
        values, faces := values + [v], faces + [f];
      }
      assert terms[..|terms|] == terms;
    }

    /** `.roll()`: the per-term values and their sum, which lies between the least
      and the greatest total the terms can roll. */
    method Roll() returns (r: RollResult, ghost faces: seq<seq<int>>)
      requires Valid() && Rollable(dices)
      modifies random
      ensures AllFit(dices, faces) && r.dice == Values(dices, faces)
      ensures |r.dice| == |dices| && r.roll == Sum(r.dice)
      ensures LeastTotal(dices) <= r.roll <= GreatestTotal(dices)
      ensures random.state == Steps(random.step, old(random.state), DiceCount(dices))
    {
      var rollResult;
      rollResult, faces := RollAll();
      r := RollResult(Sum(rollResult), rollResult);
      TermsUnitSigns(Tokens(expression));
      TotalRange(dices, faces);
    }

    /** Calling the expression itself: the sum of one roll. */
    method Value() returns (total: int, ghost faces: seq<seq<int>>)
      requires Valid() && Rollable(dices)
      modifies random
      ensures AllFit(dices, faces) && total == Sum(Values(dices, faces))
      ensures LeastTotal(dices) <= total <= GreatestTotal(dices)
      ensures random.state == Steps(random.step, old(random.state), DiceCount(dices))
    {
      var rolled;
      rolled, faces := RollAll();
      total := Sum(rolled);
      TermsUnitSigns(Tokens(expression));
      TotalRange(dices, faces);
    }
  }

  lemma TermsUnitSigns(ns: seq<Node>)
    requires AllNodes(ns)
    ensures UnitSigns(Terms(ns))
  {
  }

  /** `new DiceExpression(inputExpression)`: throws on a failed check, and otherwise
      builds the expression from the stripped input. */
  method Build(input: JsValue, seed: nat, step: nat -> nat) returns (r: Result<DiceExpression, Error>)
    ensures r.Failure? <==> Check(input).Failure?
    ensures r.Failure? ==> r.error == Check(input).error
    ensures r.Success? ==> fresh(r.value) && fresh(r.value.random) && r.value.Valid()
    ensures r.Success? ==> r.value.expression == Check(input).value && r.value.random.state == seed
    ensures r.Success? ==> r.value.random.step == step
  {
    match Check(input)
    case Failure(e) =>
      r := Failure(e);
    case Success(expression) =>
      var de := new DiceExpression(expression, seed, step);
      r := Success(de);
  }
}
