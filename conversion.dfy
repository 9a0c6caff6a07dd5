/** Term conversion (lib/dice.js, lines 61-97): each node becomes `{op, dices, sides}`,
    and the bounds `min` and `max` are accumulated node by node. */
module Conversion {
  import opened Notation

  /** `{op, dices, sides}`. A constant has `dices == 0` and its value in `sides`. */
  datatype Term = Term(op: int, dices: nat, sides: nat)

  function Pow10(n: nat): nat {
    if n == 0 then 1 else 10 * Pow10(n - 1)
  }

  function DigitValue(c: char): nat
    requires IsDigit(c)
  {
    c as int - '0' as int
  }

  /** Unary `+` applied to a string of decimal digits. */
  function DecimalValue(ds: string): (v: nat)
    requires AllDigits(ds)
    ensures v < Pow10(|ds|)
    decreases |ds|
  {
    if ds == [] then 0
    else
      var init := ds[..|ds| - 1];
      var v := DecimalValue(init);
      assert v + 1 <= Pow10(|init|);
      10 * v + DigitValue(ds[|ds| - 1])
  }

  /** Leading zeros do not change the value: `+"007"` is 7. */
  lemma {:induction false} LeadingZero(ds: string)
    requires AllDigits(ds)
    ensures AllDigits("0" + ds) && DecimalValue("0" + ds) == DecimalValue(ds)
  {
    if ds != [] {
      var init := ds[..|ds| - 1];
      assert ("0" + ds)[..|ds|] == "0" + init;
      LeadingZero(init);
    }
  }

  /** Positional notation: one more digit on the right multiplies by ten and adds it. */
  lemma DecimalAppend(ds: string, c: char)
    requires AllDigits(ds) && IsDigit(c)
    ensures AllDigits(ds + [c]) && DecimalValue(ds + [c]) == 10 * DecimalValue(ds) + DigitValue(c)
  {
    assert (ds + [c])[..|ds|] == ds;
  }

  /** `node.sign == '+' ? 1 : -1` */
  function Sign(c: char): int {
    if c == '+' then 1 else -1
  }

  /** The count of a dice node: the digits before the marker. */
  function CountText(item: string): (count: string)
    requires IsDiceNode(item)
    ensures |count| <= 4 && AllDigits(count)
  {
    DigitRunDigits(item);
    item[..DigitRun(item)]
  }

  /** The sides of a dice node: the text after the marker. */
  function SidesText(item: string): (sides: string)
    requires IsDiceNode(item)
    ensures IsSides(sides)
  {
    item[DigitRun(item) + 1..]
  }

  /** The conversion of one node: a number is a constant; otherwise the text is split
      at the marker, an empty count means one die and `%` means 100 sides. */
  function ToTerm(n: Node): (t: Term)
    requires IsNode(n.item)
    ensures t.op == 1 || t.op == -1
    ensures t.dices <= 9999 && t.sides < 100000000
    ensures IsConstantNode(n.item) ==> t.dices == 0
    ensures IsDiceNode(n.item) ==> t.sides <= 9999
  {
    var k := Sign(n.sign);
    if IsConstantNode(n.item) then
      var v := DecimalValue(n.item);
      assert Pow10(|n.item|) <= Pow10(8) by { Pow10Monotonic(|n.item|, 8); }
      Term(k, 0, v)
    else
      var count := CountText(n.item);
      var sides := SidesText(n.item);
      var dices := if count != [] then DecimalValue(count) else 1;
      var sideCount := if sides == "%" then 100 else DecimalValue(sides);
      assert Pow10(|count|) <= Pow10(4) by { Pow10Monotonic(|count|, 4); }
      assert sides != "%" ==> Pow10(|sides|) <= Pow10(4) by {
        if sides != "%" { Pow10Monotonic(|sides|, 4); }
      }
      Term(k, dices, sideCount)
  }

  lemma {:induction false} Pow10Monotonic(m: nat, n: nat)
    requires m <= n
    ensures Pow10(m) <= Pow10(n)
  {
    if m < n {
      Pow10Monotonic(m, n - 1);
    }
  }

  /** A constant token gives `dices = 0`, its value in `sides`, and the sign as `op`. */
  lemma ConstantRule(sign: char, ds: string)
    requires IsConstantNode(ds)
    ensures ToTerm(Node(sign, ds)) == Term(Sign(sign), 0, DecimalValue(ds))
    ensures Sign(sign) == (if sign == '+' then 1 else -1)
  {
  }

  /** A dice token `count marker sides` is a node, and converts to the count (1 when
      the count is empty) and the sides (100 for `%`). */
  lemma DiceRule(sign: char, count: string, marker: char, sides: string)
    requires |count| <= 4 && AllDigits(count) && IsMarker(marker) && IsSides(sides)
    ensures IsDiceNode(count + [marker] + sides)
    ensures ToTerm(Node(sign, count + [marker] + sides)) ==
            Term(Sign(sign),
                 if count == [] then 1 else DecimalValue(count),
                 if sides == "%" then 100 else DecimalValue(sides))
  {
    var t := count + [marker] + sides;
    assert t[..|count|] == count;
    DigitRunIs(t, |count|);
    assert t[|count| + 1..] == sides;
  }

  predicate AllNodes(ns: seq<Node>) {
    forall i :: 0 <= i < |ns| ==> IsNode(ns[i].item)
  }

  /** The `dices` array: the nodes converted one by one, in order. */
  function Terms(ns: seq<Node>): seq<Term>
    requires AllNodes(ns)
  {
    seq(|ns|, i requires 0 <= i < |ns| => ToTerm(ns[i]))
  }

  /** What one node adds to `min`: its value for a constant, `op * dices` for dice. */
  function MinContribution(n: Node): int
    requires IsNode(n.item)
  {
    var t := ToTerm(n);
    if IsConstantNode(n.item) then t.sides * t.op else t.dices * t.op
  }

  /** What one node adds to `max`: its value for a constant, `op * dices * sides` for dice. */
  function MaxContribution(n: Node): int
    requires IsNode(n.item)
  {
    var t := ToTerm(n);
    if IsConstantNode(n.item) then t.sides * t.op else t.dices * t.sides * t.op
  }

  /** The `min` accumulator after the given nodes. */
  function MinBound(ns: seq<Node>): int
    requires AllNodes(ns)
  {
    if ns == [] then 0 else MinBound(ns[..|ns| - 1]) + MinContribution(ns[|ns| - 1])
  }

  /** The `max` accumulator after the given nodes. */
  function MaxBound(ns: seq<Node>): int
    requires AllNodes(ns)
  {
    if ns == [] then 0 else MaxBound(ns[..|ns| - 1]) + MaxContribution(ns[|ns| - 1])
  }

  /** Converting one more node appends its term and adds its contributions. */
  lemma ConvertSnoc(ns: seq<Node>, n: Node)
    requires AllNodes(ns) && IsNode(n.item)
    ensures AllNodes(ns + [n])
    ensures Terms(ns + [n]) == Terms(ns) + [ToTerm(n)]
    ensures MinBound(ns + [n]) == MinBound(ns) + MinContribution(n)
    ensures MaxBound(ns + [n]) == MaxBound(ns) + MaxContribution(n)
  {
    assert (ns + [n])[..|ns|] == ns;
  }
}
