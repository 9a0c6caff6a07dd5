/** What a roll can yield (lib/dice.js, lines 100-124 and 154-168), stated over the
    faces the random engine returned: each term's value, the per-term array, its
    sum, the ranges these fall in, and how the bounds `min` and `max` relate to them. */
module Rolls {
  import opened Notation
  import opened Conversion

  /** `reduce((previousValue, currentValue) => previousValue + currentValue)`. */
  function Sum(xs: seq<int>): int {
    if xs == [] then 0 else Sum(xs[..|xs| - 1]) + xs[|xs| - 1]
  }

  /** The faces drawn for one term: none for `dices == 0`, otherwise `dices` draws
      from `[1, sides]`. */
  predicate FacesFit(t: Term, faces: seq<int>) {
    if t.dices == 0 then faces == []
    else |faces| == t.dices && forall k :: 0 <= k < |faces| ==> 1 <= faces[k] <= t.sides
  }

  /** `_rollDice` once the faces are known. */
  function TermValue(t: Term, faces: seq<int>): int {
    if t.dices == 0 then t.sides * t.op else Sum(faces) * t.op
  }

  predicate AllFit(ts: seq<Term>, faces: seq<seq<int>>) {
    |faces| == |ts| && forall i :: 0 <= i < |ts| ==> FacesFit(ts[i], faces[i])
  }

  /** `_roll` once the faces are known: one value per term, in term order. */
  function Values(ts: seq<Term>, faces: seq<seq<int>>): seq<int>
    requires |faces| == |ts|
  {
    seq(|ts|, i requires 0 <= i < |ts| => TermValue(ts[i], faces[i]))
  }

  predicate UnitSigns(ts: seq<Term>) {
    forall i :: 0 <= i < |ts| ==> ts[i].op == 1 || ts[i].op == -1
  }

  /** Every dice term has at least one side, so that each draw has a range. */
  predicate Rollable(ts: seq<Term>) {
    forall i :: 0 <= i < |ts| && ts[i].dices > 0 ==> ts[i].sides >= 1
  }

  /** The least value a term can roll. */
  function Low(t: Term): int {
    if t.dices == 0 then t.sides * t.op
    else if t.op >= 0 then t.dices * t.op
    else t.dices * t.sides * t.op
  }

  /** The greatest value a term can roll. */
  function High(t: Term): int {
    if t.dices == 0 then t.sides * t.op
    else if t.op >= 0 then t.dices * t.sides * t.op
    else t.dices * t.op
  }

  /** The number of dice the terms roll: one draw each, none for a `dices == 0` term. */
  function DiceCount(ts: seq<Term>): nat {
    if ts == [] then 0 else DiceCount(ts[..|ts| - 1]) + ts[|ts| - 1].dices
  }

  function LeastTotal(ts: seq<Term>): int {
    if ts == [] then 0 else LeastTotal(ts[..|ts| - 1]) + Low(ts[|ts| - 1])
  }

  function GreatestTotal(ts: seq<Term>): int {
    if ts == [] then 0 else GreatestTotal(ts[..|ts| - 1]) + High(ts[|ts| - 1])
  }

  /** `n` dice all showing `v`. */
  function Repeat(v: int, n: nat): (r: seq<int>)
    ensures |r| == n && forall k :: 0 <= k < n ==> r[k] == v
  {
    if n == 0 then [] else Repeat(v, n - 1) + [v]
  }

  lemma {:induction false} SumRepeat(v: int, n: nat)
    ensures Sum(Repeat(v, n)) == n * v
  {
    if n > 0 {
      assert Repeat(v, n)[..n - 1] == Repeat(v, n - 1);
      SumRepeat(v, n - 1);
    }
  }

  /** A sum of draws from `[1, sides]` lies between their number and their number
      times `sides`. */
  lemma {:induction false} SumOfDraws(faces: seq<int>, sides: int)
    requires forall k :: 0 <= k < |faces| ==> 1 <= faces[k] <= sides
    ensures |faces| <= Sum(faces) <= |faces| * sides
  {
    if faces != [] {
      var n := |faces|;
      SumOfDraws(faces[..n - 1], sides);
      assert (n - 1) * sides + sides == n * sides;
    }
  }

  /** A term rolls within `[Low, High]`; for a dice term these are `op * dices` and
      `op * dices * sides`, in the order the sign puts them. */
  lemma TermValueRange(t: Term, faces: seq<int>)
    requires FacesFit(t, faces) && (t.op == 1 || t.op == -1)
    ensures Low(t) <= TermValue(t, faces) <= High(t)
    ensures t.dices > 0 ==> Low(t) == (if t.op == 1 then t.dices else -((t.dices * t.sides) as int))
    ensures t.dices > 0 ==> High(t) == (if t.op == 1 then t.dices * t.sides else -(t.dices as int))
  {
    if t.dices > 0 {
      SumOfDraws(faces, t.sides);
    }
  }

  /** Rolling one more term appends its value. */
  lemma ValuesSnoc(ts: seq<Term>, faces: seq<seq<int>>, t: Term, f: seq<int>)
    requires |faces| == |ts|
    ensures Values(ts + [t], faces + [f]) == Values(ts, faces) + [TermValue(t, f)]
    ensures AllFit(ts, faces) && FacesFit(t, f) ==> AllFit(ts + [t], faces + [f])
  {
  }

  /** One more rolled term extends the values and the faces of a prefix of the terms. */
  lemma ValuesStep(ts: seq<Term>, i: nat, faces: seq<seq<int>>, values: seq<int>, f: seq<int>, v: int)
    requires i < |ts| && AllFit(ts[..i], faces) && values == Values(ts[..i], faces)
    requires FacesFit(ts[i], f) && v == TermValue(ts[i], f)
    ensures AllFit(ts[..i + 1], faces + [f]) && values + [v] == Values(ts[..i + 1], faces + [f])
  {
    assert ts[..i + 1] == ts[..i] + [ts[i]];
    ValuesSnoc(ts[..i], faces, ts[i], f);
  }

  lemma ValuesPrefix(ts: seq<Term>, faces: seq<seq<int>>, n: nat)
    requires |faces| == |ts| && n <= |ts|
    ensures Values(ts[..n], faces[..n]) == Values(ts, faces)[..n]
  {
  }

  /** Every roll total lies between the least and the greatest total. */
  lemma {:induction false} TotalRange(ts: seq<Term>, faces: seq<seq<int>>)
    requires AllFit(ts, faces) && UnitSigns(ts)
    ensures LeastTotal(ts) <= Sum(Values(ts, faces)) <= GreatestTotal(ts)
  {
    if ts != [] {
      var n := |ts|;
      ValuesPrefix(ts, faces, n - 1);
      TotalRange(ts[..n - 1], faces[..n - 1]);
      TermValueRange(ts[n - 1], faces[n - 1]);
    }
  }

  /** The faces that give every term its least value. */
  function LowestFaces(ts: seq<Term>): (faces: seq<seq<int>>)
    ensures |faces| == |ts|
  {
    seq(|ts|, i requires 0 <= i < |ts| =>
      Repeat(if ts[i].op >= 0 then 1 else ts[i].sides, ts[i].dices))
  }

  /** The faces that give every term its greatest value. */
  function HighestFaces(ts: seq<Term>): (faces: seq<seq<int>>)
    ensures |faces| == |ts|
  {
    seq(|ts|, i requires 0 <= i < |ts| =>
      Repeat(if ts[i].op >= 0 then ts[i].sides else 1, ts[i].dices))
  }

  /** The least total is reached by a roll, so it is the minimum of all rolls. */
  lemma {:induction false} LeastTotalReached(ts: seq<Term>)
    requires Rollable(ts)
    ensures AllFit(ts, LowestFaces(ts))
    ensures Sum(Values(ts, LowestFaces(ts))) == LeastTotal(ts)
  {
    if ts != [] {
      var n := |ts|;
      var t := ts[n - 1];
      assert LowestFaces(ts)[..n - 1] == LowestFaces(ts[..n - 1]);
      ValuesPrefix(ts, LowestFaces(ts), n - 1);
      LeastTotalReached(ts[..n - 1]);
      SumRepeat(if t.op >= 0 then 1 else t.sides, t.dices);
    }
  }

  /** The greatest total is reached by a roll, so it is the maximum of all rolls. */
  lemma {:induction false} GreatestTotalReached(ts: seq<Term>)
    requires Rollable(ts)
    ensures AllFit(ts, HighestFaces(ts))
    ensures Sum(Values(ts, HighestFaces(ts))) == GreatestTotal(ts)
  {
    if ts != [] {
      var n := |ts|;
      var t := ts[n - 1];
      assert HighestFaces(ts)[..n - 1] == HighestFaces(ts[..n - 1]);
      ValuesPrefix(ts, HighestFaces(ts), n - 1);
      GreatestTotalReached(ts[..n - 1]);
      SumRepeat(if t.op >= 0 then t.sides else 1, t.dices);
    }
  }

  /** The faces with every die showing one. */
  function OnesFaces(ts: seq<Term>): (faces: seq<seq<int>>)
    ensures |faces| == |ts|
  {
    seq(|ts|, i requires 0 <= i < |ts| => Repeat(1, ts[i].dices))
  }

  /** The faces with every die showing its top face. */
  function TopFaces(ts: seq<Term>): (faces: seq<seq<int>>)
    ensures |faces| == |ts|
  {
    seq(|ts|, i requires 0 <= i < |ts| => Repeat(ts[i].sides, ts[i].dices))
  }

  /** No dice node has a zero count (such as `0d6`), which converts to the shape of
      a constant. */
  predicate NoZeroCountDice(ns: seq<Node>)
    requires AllNodes(ns)
  {
    forall i :: 0 <= i < |ns| && IsDiceNode(ns[i].item) ==> ToTerm(ns[i]).dices > 0
  }

  lemma TermsPrefix(ns: seq<Node>, n: nat)
    requires AllNodes(ns) && n <= |ns|
    ensures AllNodes(ns[..n]) && Terms(ns[..n]) == Terms(ns)[..n]
  {
  }

  /** `min` is the total rolled when every die shows one, as long as no dice node
      has a zero count. */
  lemma {:induction false} MinIsAllOnes(ns: seq<Node>)
    requires AllNodes(ns) && NoZeroCountDice(ns)
    ensures MinBound(ns) == Sum(Values(Terms(ns), OnesFaces(Terms(ns))))
  {
    if ns != [] {
      var n := |ns|;
      var ts := Terms(ns);
      TermsPrefix(ns, n - 1);
      assert OnesFaces(ts)[..n - 1] == OnesFaces(ts[..n - 1]);
      ValuesPrefix(ts, OnesFaces(ts), n - 1);
      MinIsAllOnes(ns[..n - 1]);
      SumRepeat(1, ts[n - 1].dices);
    }
  }

  /** `max` is the total rolled when every die shows its top face, as long as no
      dice node has a zero count. */
  lemma {:induction false} MaxIsAllTop(ns: seq<Node>)
    requires AllNodes(ns) && NoZeroCountDice(ns)
    ensures MaxBound(ns) == Sum(Values(Terms(ns), TopFaces(Terms(ns))))
  {
    if ns != [] {
      var n := |ns|;
      var ts := Terms(ns);
      TermsPrefix(ns, n - 1);
      assert TopFaces(ts)[..n - 1] == TopFaces(ts[..n - 1]);
      ValuesPrefix(ts, TopFaces(ts), n - 1);
      MaxIsAllTop(ns[..n - 1]);
      SumRepeat(ts[n - 1].sides, ts[n - 1].dices);
    }
  }

  /** No dice node is subtracted. */
  predicate NoSubtractedDice(ns: seq<Node>) {
    forall i :: 0 <= i < |ns| && IsDiceNode(ns[i].item) ==> ns[i].sign == '+'
  }

  /** Without subtracted dice and without zero-count dice, `min` and `max` are the
      least and greatest totals, so every roll lies between them. */
  lemma {:induction false} BoundsTightWithoutSubtraction(ns: seq<Node>)
    requires AllNodes(ns) && NoZeroCountDice(ns) && NoSubtractedDice(ns)
    ensures MinBound(ns) == LeastTotal(Terms(ns))
    ensures MaxBound(ns) == GreatestTotal(Terms(ns))
  {
    if ns != [] {
      var n := |ns|;
      TermsPrefix(ns, n - 1);
      BoundsTightWithoutSubtraction(ns[..n - 1]);
    }
  }

  /** Hence, for such expressions, `min <= roll <= max`. */
  lemma RollWithinBounds(ns: seq<Node>, faces: seq<seq<int>>)
    requires AllNodes(ns) && NoZeroCountDice(ns) && NoSubtractedDice(ns)
    requires AllFit(Terms(ns), faces)
    ensures MinBound(ns) <= Sum(Values(Terms(ns), faces)) <= MaxBound(ns)
  {
    BoundsTightWithoutSubtraction(ns);
    TotalRange(Terms(ns), faces);
  }

  /** No dice node is added. */
  predicate NoAddedDice(ns: seq<Node>) {
    forall i :: 0 <= i < |ns| && IsDiceNode(ns[i].item) ==> ns[i].sign != '+'
  }

  /** When every dice node is subtracted, the bounds trade places: `min` is the
      greatest total and `max` the least. */
  lemma {:induction false} BoundsSwappedWithOnlySubtraction(ns: seq<Node>)
    requires AllNodes(ns) && NoZeroCountDice(ns) && NoAddedDice(ns)
    ensures MinBound(ns) == GreatestTotal(Terms(ns))
    ensures MaxBound(ns) == LeastTotal(Terms(ns))
  {
    if ns != [] {
      var n := |ns|;
      TermsPrefix(ns, n - 1);
      BoundsSwappedWithOnlySubtraction(ns[..n - 1]);
    }
  }

  /** When all dice nodes share one sign, every roll lies between `min` and `max`,
      in whichever order the two fall. */
  lemma RollBetweenBounds(ns: seq<Node>, faces: seq<seq<int>>)
    requires AllNodes(ns) && NoZeroCountDice(ns) && (NoSubtractedDice(ns) || NoAddedDice(ns))
    requires AllFit(Terms(ns), faces)
    ensures || MinBound(ns) <= Sum(Values(Terms(ns), faces)) <= MaxBound(ns)
            || MaxBound(ns) <= Sum(Values(Terms(ns), faces)) <= MinBound(ns)
  {
    TotalRange(Terms(ns), faces);
    if NoSubtractedDice(ns) {
      BoundsTightWithoutSubtraction(ns);
    } else {
      BoundsSwappedWithOnlySubtraction(ns);
    }
  }

  predicate AllConstants(ns: seq<Node>) {
    forall i :: 0 <= i < |ns| ==> IsConstantNode(ns[i].item)
  }

  /** In an expression of constants only, each rolled value is the constant with
      its sign. */
  lemma ConstantValues(ns: seq<Node>, faces: seq<seq<int>>)
    requires AllNodes(ns) && AllConstants(ns) && AllFit(Terms(ns), faces)
    ensures forall i :: 0 <= i < |ns| ==>
      Values(Terms(ns), faces)[i] == Sign(ns[i].sign) * DecimalValue(ns[i].item)
  {
  }

  /** An expression of constants only rolls no dice, so rolling it draws nothing
      from the engine. */
  lemma {:induction false} ConstantsDrawNothing(ns: seq<Node>)
    requires AllNodes(ns) && AllConstants(ns)
    ensures DiceCount(Terms(ns)) == 0
  {
    if ns != [] {
      var n := |ns|;
      assert Terms(ns)[..n - 1] == Terms(ns[..n - 1]);
      ConstantsDrawNothing(ns[..n - 1]);
    }
  }

  /** An expression of constants only always rolls the same total, equal to both
      `min` and `max`. */
  lemma {:induction false} ConstantsAreDeterministic(ns: seq<Node>, faces: seq<seq<int>>)
    requires AllNodes(ns) && AllConstants(ns) && AllFit(Terms(ns), faces)
    ensures Sum(Values(Terms(ns), faces)) == MinBound(ns) == MaxBound(ns)
  {
    if ns != [] {
      var n := |ns|;
      var ts := Terms(ns);
      TermsPrefix(ns, n - 1);
      ValuesPrefix(ts, faces, n - 1);
      assert AllConstants(ns[..n - 1]);
      ConstantsAreDeterministic(ns[..n - 1], faces[..n - 1]);
      assert Values(ts, faces)[n - 1] == TermValue(ts[n - 1], faces[n - 1]);
    }
  }
}
