/** The behaviour the repository's tests and documentation describe
    (test/dice.test.js), stated about the model. */
module Examples {
  import opened Wrappers
  import opened Notation
  import opened Conversion
  import opened Rolls
  import opened Dice

  /** No input, and a number instead of a string, are refused with their messages. */
  lemma RefusedInputs()
    ensures Check(Undefined) == Failure(MissingInput)
    ensures Message(MissingInput) == "The input parameter has not been passed."
    ensures Check(Number(456)) == Failure(NotLiteral)
    ensures Message(NotLiteral) == "The input parameter is not a literal type."
  {
  }

  lemma SsssIsNotExpression()
    ensures !IsExpression("ssss")
  {
    var t := "ssss";
    assert forall k :: 0 <= k < 4 ==> t[k] == 's';
    NextOperatorIs(t, 4);
    assert t[..4] == t;
    DigitRunIs(t, 0);
  }

  lemma SsssHasNoWhitespace()
    ensures Strip("ssss") == "ssss"
  {
    assert NoWhitespace("ssss");
    StripKeeps("ssss");
  }

  /** `ssss` is not an expression, and the message names it. */
  lemma NotValidExample()
    ensures Check(Text("ssss")) == Failure(NotValid("ssss"))
  {
    SsssHasNoWhitespace();
    SsssIsNotExpression();
  }

  lemma NotValidMessage()
    ensures Message(NotValid("ssss")) == "The input parameter 'ssss' is not valid."
  {
  }

  /** A blank input is a string, so it passes the first two checks, but it strips
      to the empty string, which is not an expression. */
  lemma BlankIsNotValid()
    ensures Check(Text("   ")) == Failure(NotValid("   "))
  {
    StripWhitespace("   ");
  }

  /** The grammar refuses a constant of nine digits. */
  lemma NineDigitConstant()
    ensures !IsExpression("123456789")
  {
    var t := "123456789";
    assert forall k :: 0 <= k < 9 ==> IsDigit(t[k]);
    NextOperatorIs(t, 9);
    assert t[..9] == t;
    DigitRunIs(t, 9);
  }

  /** The grammar refuses a dice count of five digits. */
  lemma FiveDigitCount()
    ensures !IsExpression("12345d6")
  {
    var t := "12345d6";
    assert forall k :: 0 <= k < 7 ==> !IsOperator(t[k]);
    NextOperatorIs(t, 7);
    assert t[..7] == t;
    assert t[..5] == "12345";
    DigitRunIs(t, 5);
  }

  /** Three converted nodes, one contribution each. */
  lemma ThreeNodes(a: Node, b: Node, c: Node)
    requires IsNode(a.item) && IsNode(b.item) && IsNode(c.item)
    ensures AllNodes([a, b, c])
    ensures Terms([a, b, c]) == [ToTerm(a), ToTerm(b), ToTerm(c)]
    ensures MinBound([a, b, c]) == MinContribution(a) + MinContribution(b) + MinContribution(c)
    ensures MaxBound([a, b, c]) == MaxContribution(a) + MaxContribution(b) + MaxContribution(c)
  {
    ConvertSnoc([], a);
    assert [] + [a] == [a];
    ConvertSnoc([a], b);
    assert [a] + [b] == [a, b];
    ConvertSnoc([a, b], c);
    assert [a, b] + [c] == [a, b, c];
  }

  /** Three terms: their range is the sum of the three ranges. */
  lemma ThreeTerms(s: Term, t: Term, u: Term)
    ensures LeastTotal([s, t, u]) == Low(s) + Low(t) + Low(u)
    ensures GreatestTotal([s, t, u]) == High(s) + High(t) + High(u)
  {
    assert [s][..0] == [];
    assert LeastTotal([s]) == Low(s) && GreatestTotal([s]) == High(s);
    assert [s, t][..1] == [s];
    assert LeastTotal([s, t]) == Low(s) + Low(t) && GreatestTotal([s, t]) == High(s) + High(t);
    assert [s, t, u][..2] == [s, t];
  }

  lemma OneTerm(t: Term)
    ensures LeastTotal([t]) == Low(t) && GreatestTotal([t]) == High(t)
  {
    assert [t][..0] == [];
  }

  lemma SumThree(x: int, y: int, z: int)
    ensures Sum([x, y, z]) == x + y + z
  {
    assert [x][..0] == [];
    assert Sum([x]) == x;
    assert [x, y][..1] == [x];
    assert Sum([x, y]) == x + y;
    assert [x, y, z][..2] == [x, y];
  }

  /** A constant node: no dice, its value in `sides`, the same in both bounds. */
  lemma ConstantTerm(sign: char, ds: string, v: nat)
    requires IsConstantNode(ds) && DecimalValue(ds) == v
    ensures IsNode(ds) && ToTerm(Node(sign, ds)) == Term(Sign(sign), 0, v)
    ensures MinContribution(Node(sign, ds)) == v * Sign(sign)
    ensures MaxContribution(Node(sign, ds)) == v * Sign(sign)
  {
  }

  /** A dice node: `n` dice of `m` sides, adding `n` to `min` and `n * m` to `max`. */
  lemma DiceTerm(sign: char, count: string, marker: char, sides: string, n: nat, m: nat)
    requires |count| <= 4 && AllDigits(count) && IsMarker(marker) && IsSides(sides)
    requires n == (if count == [] then 1 else DecimalValue(count))
    requires m == (if sides == "%" then 100 else DecimalValue(sides))
    ensures IsNode(count + [marker] + sides)
    ensures ToTerm(Node(sign, count + [marker] + sides)) == Term(Sign(sign), n, m)
    ensures MinContribution(Node(sign, count + [marker] + sides)) == n * Sign(sign)
    ensures MaxContribution(Node(sign, count + [marker] + sides)) == n * m * Sign(sign)
  {
    var t := count + [marker] + sides;
    DiceRule(sign, count, marker, sides);
    assert !IsConstantNode(t) by {
      assert t[|count|] == marker;
    }
  }

  lemma Decimal20()
    ensures AllDigits("20") && DecimalValue("20") == 20
  {
    DecimalAppend("2", '0');
    assert "2" + ['0'] == "20";
  }

  lemma Decimal19()
    ensures AllDigits("19") && DecimalValue("19") == 19
  {
    DecimalAppend("1", '9');
    assert "1" + ['9'] == "19";
  }

  lemma Decimal1000()
    ensures AllDigits("200") && DecimalValue("200") == 200
    ensures AllDigits("1000") && DecimalValue("1000") == 1000
  {
    Decimal20();
    DecimalAppend("20", '0');
    assert "20" + ['0'] == "200";
    DecimalAppend("1", '0');
    assert "1" + ['0'] == "10";
    DecimalAppend("10", '0');
    assert "10" + ['0'] == "100";
    DecimalAppend("100", '0');
    assert "100" + ['0'] == "1000";
  }

  /** The nodes written the way the tests write them: a space on each side of
      every operator. */
  function Spaced(ns: seq<Node>): string {
    if ns == [] then [] else ns[0].item + SpacedTail(ns[1..])
  }

  function SpacedTail(ns: seq<Node>): string {
    if ns == [] then [] else " " + [ns[0].sign] + " " + ns[0].item + SpacedTail(ns[1..])
  }

  lemma {:induction false} SpacedTailStrips(ns: seq<Node>)
    ensures Strip(SpacedTail(ns)) == Strip(RenderTail(ns))
  {
    if ns != [] {
      SpacedTailStrips(ns[1..]);
      SpacedStep(ns[0].sign, ns[0].item, SpacedTail(ns[1..]), RenderTail(ns[1..]));
    }
  }

  /** One operator with spaces around it, then texts that strip alike. */
  lemma SpacedStep(sign: char, item: string, spaced: string, plain: string)
    requires Strip(spaced) == Strip(plain)
    ensures Strip(" " + [sign] + " " + item + spaced) == Strip([sign] + item + plain)
  {
    var p := [sign] + item;
    assert " " + [sign] + " " + item + spaced == [] + " " + [sign] + " " + (item + spaced);
    SpacedOperator([], sign, item + spaced);
    assert [] + [sign] + (item + spaced) == p + spaced;
    StripConcat(p, spaced);
    StripConcat(p, plain);
    assert [sign] + item + plain == p + plain;
  }

  /** Well-formed nodes, written with or without spaces, are accepted as their
      unspaced text, which splits back into the same nodes. */
  lemma Written(ns: seq<Node>)
    requires WellFormed(ns)
    ensures IsExpression(Render(ns)) && Tokens(Render(ns)) == ns
    ensures Check(Text(Render(ns))) == Success(Render(ns))
    ensures Check(Text(Spaced(ns))) == Success(Render(ns))
  {
    RenderTokens(ns);
    ExpressionHasNoWhitespace(Render(ns));
    SpacedTailStrips(ns[1..]);
    StripConcat(ns[0].item, SpacedTail(ns[1..]));
    StripConcat(ns[0].item, RenderTail(ns[1..]));
  }

  /** A run of digits before a marker is a dice count, never a constant:
      `12d6` is one node. */
  lemma DigitsBeforeMarker()
    ensures Render([Node('+', "12d6")]) == "12d6"
    ensures IsExpression(Render([Node('+', "12d6")]))
    ensures Tokens(Render([Node('+', "12d6")])) == [Node('+', "12d6")]
  {
    DiceRule('+', "12", 'd', "6");
    assert "12" + ['d'] + "6" == "12d6";
    Written([Node('+', "12d6")]);
  }

  /** The node pattern matches `12d6` whole, through its dice alternative. */
  lemma TwelveDiceMatch()
    ensures MatchConstant("12d6") == None && NodeMatch("12d6") == Some(4)
  {
    DigitsBeforeMarker();
    var t := "12d6";
    assert IsExpression(t);
    assert t[..2] == "12" && AllDigits(t[..2]);
    DigitsBeforeMarkerAreDice(t, 2);
    NodeMatchIsPiece(t);
    assert forall k :: 0 <= k < 4 ==> !IsOperator(t[k]);
    NextOperatorIs(t, 4);
  }

  /** A dice count of zero converts to the shape of a constant: `0d6` adds nothing
      to `min` and `max`, yet rolls 6. */
  lemma ZeroCountDice(faces: seq<int>)
    requires FacesFit(Term(1, 0, 6), faces)
    ensures IsDiceNode("0d6") && ToTerm(Node('+', "0d6")) == Term(1, 0, 6)
    ensures MinContribution(Node('+', "0d6")) == 0 && MaxContribution(Node('+', "0d6")) == 0
    ensures TermValue(Term(1, 0, 6), faces) == 6
  {
    assert DecimalValue("0") == 0 by { assert "0"[..0] == []; }
    assert DecimalValue("6") == 6 by { assert "6"[..0] == []; }
    DiceTerm('+', "0", 'd', "6", 0, 6);
    assert "0" + ['d'] + "6" == "0d6";
  }

  // '2d20 - 7 + 9': min 4, max 42.

  const MinMaxNodes := [Node('+', "2d20"), Node('-', "7"), Node('+', "9")]

  lemma MinMaxText()
    ensures Spaced(MinMaxNodes) == "2d20 - 7 + 9" && Render(MinMaxNodes) == "2d20-7+9"
  {
  }

  lemma MinMaxTerms()
    ensures AllNodes(MinMaxNodes)
    ensures MinBound(MinMaxNodes) == 4 && MaxBound(MinMaxNodes) == 42
  {
    Decimal20();
    DiceTerm('+', "2", 'd', "20", 2, 20);
    assert "2" + ['d'] + "20" == "2d20";
    ConstantTerm('-', "7", 7);
    ConstantTerm('+', "9", 9);
    ThreeNodes(MinMaxNodes[0], MinMaxNodes[1], MinMaxNodes[2]);
  }

  /** `2d20 - 7 + 9` is accepted; its accumulated bounds are 4 and 42. */
  lemma MinMaxExample()
    ensures AllNodes(MinMaxNodes)
    ensures IsExpression(Render(MinMaxNodes)) && Tokens(Render(MinMaxNodes)) == MinMaxNodes
    ensures Check(Text(Spaced(MinMaxNodes))) == Success(Render(MinMaxNodes))
    ensures MinBound(MinMaxNodes) == 4 && MaxBound(MinMaxNodes) == 42
  {
    MinMaxTerms();
    Written(MinMaxNodes);
  }

  // '3d% - d7 + 19': a percentile die, an implicit count of one, and a constant.

  const PercentileNodes := [Node('+', "3d%"), Node('-', "d7"), Node('+', "19")]

  lemma PercentileText()
    ensures Spaced(PercentileNodes) == "3d% - d7 + 19" && Render(PercentileNodes) == "3d%-d7+19"
  {
  }

  lemma PercentileTerms()
    ensures AllNodes(PercentileNodes)
    ensures Terms(PercentileNodes) == [Term(1, 3, 100), Term(-1, 1, 7), Term(1, 0, 19)]
    ensures MinBound(PercentileNodes) == 21 && MaxBound(PercentileNodes) == 312
  {
    DiceTerm('+', "3", 'd', "%", 3, 100);
    assert "3" + ['d'] + "%" == "3d%";
    DiceTerm('-', "", 'd', "7", 1, 7);
    assert "" + ['d'] + "7" == "d7";
    Decimal19();
    ConstantTerm('+', "19", 19);
    ThreeNodes(PercentileNodes[0], PercentileNodes[1], PercentileNodes[2]);
  }

  lemma PercentileSpan()
    ensures AllNodes(PercentileNodes)
    ensures LeastTotal(Terms(PercentileNodes)) == 15
    ensures GreatestTotal(Terms(PercentileNodes)) == 318
  {
    PercentileTerms();
    ThreeTerms(Term(1, 3, 100), Term(-1, 1, 7), Term(1, 0, 19));
  }

  /** `3d% - d7 + 19` is accepted: three hundred-sided dice, minus one seven-sided
      die, plus nineteen. Its totals span [15, 318]; the accumulated bounds are
      21 and 312. */
  lemma PercentileExample()
    ensures AllNodes(PercentileNodes)
    ensures IsExpression(Render(PercentileNodes)) && Tokens(Render(PercentileNodes)) == PercentileNodes
    ensures Check(Text(Spaced(PercentileNodes))) == Success(Render(PercentileNodes))
    ensures Terms(PercentileNodes) == [Term(1, 3, 100), Term(-1, 1, 7), Term(1, 0, 19)]
    ensures LeastTotal(Terms(PercentileNodes)) == 15
    ensures GreatestTotal(Terms(PercentileNodes)) == 318
    ensures MinBound(PercentileNodes) == 21 && MaxBound(PercentileNodes) == 312
  {
    PercentileTerms();
    PercentileSpan();
    Written(PercentileNodes);
  }

  // '1 - 2D6 + 20': a subtracted pair of dice between two constants.

  const SubtractedNodes := [Node('+', "1"), Node('-', "2D6"), Node('+', "20")]

  lemma SubtractedText()
    ensures Spaced(SubtractedNodes) == "1 - 2D6 + 20" && Render(SubtractedNodes) == "1-2D6+20"
  {
  }

  lemma SubtractedTerms()
    ensures AllNodes(SubtractedNodes)
    ensures Terms(SubtractedNodes) == [Term(1, 0, 1), Term(-1, 2, 6), Term(1, 0, 20)]
    ensures MinBound(SubtractedNodes) == 19 && MaxBound(SubtractedNodes) == 9
  {
    ConstantTerm('+', "1", 1);
    DiceTerm('-', "2", 'D', "6", 2, 6);
    assert "2" + ['D'] + "6" == "2D6";
    Decimal20();
    ConstantTerm('+', "20", 20);
    ThreeNodes(SubtractedNodes[0], SubtractedNodes[1], SubtractedNodes[2]);
  }

  /** `1 - 2D6 + 20` is accepted. */
  lemma SubtractedAccepted()
    ensures AllNodes(SubtractedNodes)
    ensures IsExpression(Render(SubtractedNodes)) && Tokens(Render(SubtractedNodes)) == SubtractedNodes
    ensures Check(Text(Spaced(SubtractedNodes))) == Success(Render(SubtractedNodes))
    ensures Terms(SubtractedNodes) == [Term(1, 0, 1), Term(-1, 2, 6), Term(1, 0, 20)]
  {
    SubtractedTerms();
    Written(SubtractedNodes);
  }

  /** Every roll of `1 - 2D6 + 20` yields three values: 1, a negative one, and 20;
      the total is positive. */
  lemma SubtractedDiceExample(faces: seq<seq<int>>)
    requires AllFit([Term(1, 0, 1), Term(-1, 2, 6), Term(1, 0, 20)], faces)
    ensures |Values([Term(1, 0, 1), Term(-1, 2, 6), Term(1, 0, 20)], faces)| == 3
    ensures Values([Term(1, 0, 1), Term(-1, 2, 6), Term(1, 0, 20)], faces)[0] == 1
    ensures Values([Term(1, 0, 1), Term(-1, 2, 6), Term(1, 0, 20)], faces)[1] < 0
    ensures Values([Term(1, 0, 1), Term(-1, 2, 6), Term(1, 0, 20)], faces)[2] == 20
    ensures Sum(Values([Term(1, 0, 1), Term(-1, 2, 6), Term(1, 0, 20)], faces)) > 0
  {
    var ts := [Term(1, 0, 1), Term(-1, 2, 6), Term(1, 0, 20)];
    assert FacesFit(ts[1], faces[1]);
    TermValueRange(ts[1], faces[1]);
    var vs := Values(ts, faces);
    SumThree(vs[0], vs[1], vs[2]);
    assert vs == [vs[0], vs[1], vs[2]];
  }

  /** The accumulated `min` of `1 - 2D6 + 20` is 19 and its `max` is 9, yet two
      sixes roll 9: `min` counts each subtracted die as showing one and `max` as
      showing its top face, so the subtracted term puts its greatest value into
      `min` and its least into `max`. The totals really span [9, 19]. */
  lemma MinAboveARoll()
    ensures AllNodes(SubtractedNodes)
    ensures MinBound(SubtractedNodes) == 19 && MaxBound(SubtractedNodes) == 9
    ensures AllFit(Terms(SubtractedNodes), [[], [6, 6], []])
    ensures Sum(Values(Terms(SubtractedNodes), [[], [6, 6], []])) == 9
    ensures LeastTotal(Terms(SubtractedNodes)) == 9
    ensures GreatestTotal(Terms(SubtractedNodes)) == 19
  {
    SubtractedTerms();
    var ts := [Term(1, 0, 1), Term(-1, 2, 6), Term(1, 0, 20)];
    TwoSixes(ts);
    ThreeTerms(ts[0], ts[1], ts[2]);
  }

  lemma TwoSixes(ts: seq<Term>)
    requires ts == [Term(1, 0, 1), Term(-1, 2, 6), Term(1, 0, 20)]
    ensures AllFit(ts, [[], [6, 6], []]) && Sum(Values(ts, [[], [6, 6], []])) == 9
  {
    assert Sum([6, 6]) == 12 by {
      assert [6, 6][..1] == [6] && [6][..0] == [];
    }
    var vs := Values(ts, [[], [6, 6], []]);
    assert vs == [vs[0], vs[1], vs[2]];
    SumThree(vs[0], vs[1], vs[2]);
  }

  // '1d6-1d6': one die added and the same die subtracted.

  const OppositeNodes := [Node('+', "1d6"), Node('-', "1d6")]

  lemma OppositeText()
    ensures Render(OppositeNodes) == "1d6-1d6"
  {
  }

  /** `1d6-1d6` is accepted with `min` and `max` both 0, yet a six and a one roll 5:
      with dice of both signs a roll can lie outside the bounds in either order. */
  lemma OppositeDice()
    ensures AllNodes(OppositeNodes)
    ensures IsExpression(Render(OppositeNodes)) && Tokens(Render(OppositeNodes)) == OppositeNodes
    ensures MinBound(OppositeNodes) == 0 && MaxBound(OppositeNodes) == 0
    ensures AllFit(Terms(OppositeNodes), [[6], [1]])
    ensures Sum(Values(Terms(OppositeNodes), [[6], [1]])) == 5
  {
    OppositeTerms();
    Written(OppositeNodes);
    OppositeRoll(Terms(OppositeNodes));
  }

  lemma OppositeTerms()
    ensures AllNodes(OppositeNodes)
    ensures Terms(OppositeNodes) == [Term(1, 1, 6), Term(-1, 1, 6)]
    ensures MinBound(OppositeNodes) == 0 && MaxBound(OppositeNodes) == 0
  {
    assert DecimalValue("1") == 1 by { assert "1"[..0] == []; }
    assert DecimalValue("6") == 6 by { assert "6"[..0] == []; }
    DiceTerm('+', "1", 'd', "6", 1, 6);
    DiceTerm('-', "1", 'd', "6", 1, 6);
    assert "1" + ['d'] + "6" == "1d6";
    TwoNodes(OppositeNodes[0], OppositeNodes[1]);
  }

  /** Two converted nodes, one contribution each. */
  lemma TwoNodes(a: Node, b: Node)
    requires IsNode(a.item) && IsNode(b.item)
    ensures AllNodes([a, b])
    ensures Terms([a, b]) == [ToTerm(a), ToTerm(b)]
    ensures MinBound([a, b]) == MinContribution(a) + MinContribution(b)
    ensures MaxBound([a, b]) == MaxContribution(a) + MaxContribution(b)
  {
    ConvertSnoc([], a);
    assert [] + [a] == [a];
    ConvertSnoc([a], b);
    assert [a] + [b] == [a, b];
  }

  lemma OppositeRoll(ts: seq<Term>)
    requires ts == [Term(1, 1, 6), Term(-1, 1, 6)]
    ensures AllFit(ts, [[6], [1]]) && Sum(Values(ts, [[6], [1]])) == 5
  {
    assert [6][..0] == [] && [1][..0] == [];
    var vs := Values(ts, [[6], [1]]);
    assert vs == [6, -1];
    assert [6, -1][..1] == [6] && [6][..0] == [];
  }

  // '1000 - 200 - 20': constants only, so every roll is the same.

  const ConstantNodes := [Node('+', "1000"), Node('-', "200"), Node('-', "20")]

  lemma ConstantText()
    ensures Spaced(ConstantNodes) == "1000 - 200 - 20" && Render(ConstantNodes) == "1000-200-20"
  {
  }

  lemma ConstantTerms()
    ensures AllNodes(ConstantNodes)
    ensures Terms(ConstantNodes) == [Term(1, 0, 1000), Term(-1, 0, 200), Term(-1, 0, 20)]
  {
    Decimal1000();
    Decimal20();
    ConstantTerm('+', "1000", 1000);
    ConstantTerm('-', "200", 200);
    ConstantTerm('-', "20", 20);
    ThreeNodes(ConstantNodes[0], ConstantNodes[1], ConstantNodes[2]);
  }

  /** `1000 - 200 - 20` is accepted and always rolls `[1000, -200, -20]`, totalling 780. */
  lemma ConstantsExample(faces: seq<seq<int>>)
    requires AllFit([Term(1, 0, 1000), Term(-1, 0, 200), Term(-1, 0, 20)], faces)
    ensures AllNodes(ConstantNodes)
    ensures IsExpression(Render(ConstantNodes)) && Tokens(Render(ConstantNodes)) == ConstantNodes
    ensures Check(Text(Spaced(ConstantNodes))) == Success(Render(ConstantNodes))
    ensures Terms(ConstantNodes) == [Term(1, 0, 1000), Term(-1, 0, 200), Term(-1, 0, 20)]
    ensures Values([Term(1, 0, 1000), Term(-1, 0, 200), Term(-1, 0, 20)], faces) == [1000, -200, -20]
    ensures Sum(Values([Term(1, 0, 1000), Term(-1, 0, 200), Term(-1, 0, 20)], faces)) == 780
  {
    ConstantTerms();
    Written(ConstantNodes);
    SumThree(1000, -200, -20);
  }

  lemma ConstantsTotal(faces: seq<seq<int>>)
    requires AllFit([Term(1, 0, 1000), Term(-1, 0, 200), Term(-1, 0, 20)], faces)
    ensures Values([Term(1, 0, 1000), Term(-1, 0, 200), Term(-1, 0, 20)], faces) == [1000, -200, -20]
    ensures Sum([1000, -200, -20]) == 780
  {
    SumThree(1000, -200, -20);
  }

  /** Building `1000 - 200 - 20`: the check passes, and the terms roll no dice. */
  lemma ConstantsBuilt()
    ensures Check(Text(Spaced(ConstantNodes))) == Success(Render(ConstantNodes))
    ensures IsExpression(Render(ConstantNodes)) && Tokens(Render(ConstantNodes)) == ConstantNodes
    ensures AllNodes(ConstantNodes) && Terms(ConstantNodes) == [Term(1, 0, 1000), Term(-1, 0, 200), Term(-1, 0, 20)]
  {
    ConstantTerms();
    Written(ConstantNodes);
  }

  /** `new DiceExpression('1000 - 200 - 20').roll()` from start to end: the object
      is built, and rolling it gives 780 and the three signed constants without a
      single draw from the engine. */
  method ConstantsRolled(seed: nat, step: nat -> nat) returns (r: RollResult, state: nat)
    ensures r == RollResult(780, [1000, -200, -20])
    ensures state == seed
  {
    ConstantsBuilt();
    ConstantsDrawNothing(ConstantNodes);
    var built := Build(Text(Spaced(ConstantNodes)), seed, step);
    var de := built.value;
    ghost var faces;
    r, faces := de.Roll();
    ConstantsTotal(faces);
    state := de.random.state;
  }

  // '7-4', '1d1' and '1d6', written without spaces.

  const DifferenceNodes := [Node('+', "7"), Node('-', "4")]

  lemma DifferenceText()
    ensures Render(DifferenceNodes) == "7-4"
  {
  }

  /** `7-4` is accepted and always evaluates to 3. */
  lemma DifferenceExample(faces: seq<seq<int>>)
    requires AllFit([Term(1, 0, 7), Term(-1, 0, 4)], faces)
    ensures AllNodes(DifferenceNodes)
    ensures IsExpression(Render(DifferenceNodes)) && Tokens(Render(DifferenceNodes)) == DifferenceNodes
    ensures Check(Text(Render(DifferenceNodes))) == Success(Render(DifferenceNodes))
    ensures Terms(DifferenceNodes) == [Term(1, 0, 7), Term(-1, 0, 4)]
    ensures Sum(Values([Term(1, 0, 7), Term(-1, 0, 4)], faces)) == 3
  {
    ConstantTerm('+', "7", 7);
    ConstantTerm('-', "4", 4);
    Written(DifferenceNodes);
    assert Terms(DifferenceNodes) == [ToTerm(DifferenceNodes[0]), ToTerm(DifferenceNodes[1])];
    assert Values([Term(1, 0, 7), Term(-1, 0, 4)], faces) == [7, -4];
    assert [7, -4][..1] == [7] && [7][..0] == [];
  }

  /** `1d` and one digit of sides: one die of that many sides. */
  lemma OneDie(sides: char, m: nat)
    requires IsDigit(sides) && m == DigitValue(sides)
    ensures IsNode("1d" + [sides]) && Render([Node('+', "1d" + [sides])]) == "1d" + [sides]
    ensures Check(Text("1d" + [sides])) == Success("1d" + [sides])
    ensures Terms(Tokens("1d" + [sides])) == [Term(1, 1, m)]
  {
    assert DecimalValue([sides]) == m by { assert [sides][..0] == []; }
    assert DecimalValue("1") == 1;
    DiceTerm('+', "1", 'd', [sides], 1, m);
    assert "1" + ['d'] + [sides] == "1d" + [sides];
    var ns := [Node('+', "1d" + [sides])];
    assert Render(ns) == "1d" + [sides] + RenderTail([]);
    Written(ns);
  }

  /** `1d1` is accepted and always evaluates to 1. */
  lemma OneSidedExample(faces: seq<seq<int>>)
    requires AllFit([Term(1, 1, 1)], faces)
    ensures Check(Text("1d" + ['1'])) == Success("1d" + ['1'])
    ensures Terms(Tokens("1d" + ['1'])) == [Term(1, 1, 1)]
    ensures Sum(Values([Term(1, 1, 1)], faces)) == 1
  {
    OneDie('1', 1);
    TotalRange([Term(1, 1, 1)], faces);
    OneTerm(Term(1, 1, 1));
  }

  /** `new DiceExpression('1d1')` called from start to end: it totals 1, after
      exactly one draw from the engine. */
  method OneSidedRolled(seed: nat, step: nat -> nat) returns (total: int, state: nat)
    ensures total == 1
    ensures state == step(seed)
  {
    OneDie('1', 1);
    var built := Build(Text("1d" + ['1']), seed, step);
    var de := built.value;
    assert de.dices == [Term(1, 1, 1)];
    ghost var faces;
    total, faces := de.Value();
    OneSidedExample(faces);
    assert [Term(1, 1, 1)][..0] == [];
    state := de.random.state;
  }

  /** `1d6` is accepted and evaluates to a number between 1 and 6 inclusive. */
  lemma SixSidedExample(faces: seq<seq<int>>)
    requires AllFit([Term(1, 1, 6)], faces)
    ensures Check(Text("1d" + ['6'])) == Success("1d" + ['6'])
    ensures Terms(Tokens("1d" + ['6'])) == [Term(1, 1, 6)]
    ensures 1 <= Sum(Values([Term(1, 1, 6)], faces)) <= 6
  {
    OneDie('6', 6);
    TotalRange([Term(1, 1, 6)], faces);
    OneTerm(Term(1, 1, 6));
  }
}
