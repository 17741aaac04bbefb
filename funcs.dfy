/** Model of the coin classifier of funcs.py and of the target-size arithmetic of
    its image resize. Radii, rates and the tolerance are exact rationals (`real`);
    coin values are whole centavos, so the rounded total is an exact integer sum. */
module Funcs {

  // ---------------------------------------------------------------------------
  // The denomination table
  // ---------------------------------------------------------------------------

  /** A Brazilian coin: the key naming it in the source's table, its value in centavos
      and its physical diameter in millimetres. */
  datatype Denomination = Denomination(name: string, value: nat, diameterMm: nat)

  /** Diameter of the 1-centavo coin; every rate is a diameter divided by this one. */
  const OneCentDiameterMm: nat := 17

  /** Largest accepted distance between an observed ratio and a table rate. */
  const Tolerance: real := 0.035

  /** The table, in the order the classifier scans it. */
  const Brl: seq<Denomination> := [
    Denomination("1_cent", 1, 17),
    Denomination("5_cents", 5, 22),
    Denomination("10_cents", 10, 20),
    Denomination("25_cents", 25, 25),
    Denomination("50_cents", 50, 23),
    Denomination("1_brl", 100, 27)
  ]

  /** Expected ratio of a coin's radius to the 1-centavo radius. */
  function Rate(d: Denomination): (r: real)
    ensures r * OneCentDiameterMm as real == d.diameterMm as real
  {
    d.diameterMm as real / OneCentDiameterMm as real
  }

  function Abs(x: real): (r: real)
    ensures 0.0 <= r && (r == x || r == -x)
  {
    if x < 0.0 then -x else x
  }

  /** A ratio matches a coin when it lies within the tolerance of the coin's rate,
      both ends of the window included. */
  predicate Matches(ratio: real, d: Denomination)
  {
    Abs(ratio - Rate(d)) <= Tolerance
  }

  /** The values the classifier appends for one ratio while it scans `table`. */
  function MatchingValues(ratio: real, table: seq<Denomination>): (vs: seq<nat>)
    ensures |vs| <= |table|
  {
    if table == [] then []
    else
      var last := table[|table| - 1];
      MatchingValues(ratio, table[..|table| - 1]) + (if Matches(ratio, last) then [last.value] else [])
  }

  /** Positions of the entries of `table` that `ratio` matches: exactly those, ascending. */
  ghost function MatchIndices(ratio: real, table: seq<Denomination>): (ix: seq<nat>)
    ensures forall i :: 0 <= i < |ix| ==> ix[i] < |table| && Matches(ratio, table[ix[i]])
    ensures forall i, j :: 0 <= i < j < |ix| ==> ix[i] < ix[j]
    ensures forall k :: 0 <= k < |table| && Matches(ratio, table[k]) ==> k in ix
  {
    if table == [] then []
    else
      var n := |table| - 1;
      MatchIndices(ratio, table[..n]) + (if Matches(ratio, table[n]) then [n] else [])
  }

  /** What the classifier appends, read against the table: the values of exactly the
      matching entries, in table order. */
  lemma {:induction false} MatchingValuesAreMatchingEntries(ratio: real, table: seq<Denomination>)
    ensures |MatchingValues(ratio, table)| == |MatchIndices(ratio, table)|
    ensures forall i :: 0 <= i < |MatchIndices(ratio, table)| ==>
      MatchingValues(ratio, table)[i] == table[MatchIndices(ratio, table)[i]].value
  {
    if table != [] {
      var n, pre := |table| - 1, table[..|table| - 1];
      MatchingValuesAreMatchingEntries(ratio, pre);
      var vs, ix := MatchingValues(ratio, table), MatchIndices(ratio, table);
      var pvs, pix := MatchingValues(ratio, pre), MatchIndices(ratio, pre);
      assert vs == pvs + (if Matches(ratio, table[n]) then [table[n].value] else []);
      assert ix == pix + (if Matches(ratio, table[n]) then [n] else []);
      forall i | 0 <= i < |ix| ensures vs[i] == table[ix[i]].value {
        if i < |pix| {
          assert vs[i] == pvs[i] && ix[i] == pix[i] && pre[pix[i]] == table[pix[i]];
        }
      }
    }
  }

  /** The six coin values are distinct, so a value in the output names its coin. */
  lemma BrlValuesDistinct()
    ensures forall i, j :: 0 <= i < j < |Brl| ==> Brl[i].value != Brl[j].value
  {
  }

  /** One ratio contributes the value of table entry k exactly when it matches entry k. */
  lemma {:induction false} ValueCountedIffMatches(ratio: real, k: nat)
    requires k < |Brl|
    ensures Brl[k].value in MatchingValues(ratio, Brl) <==> Matches(ratio, Brl[k])
  {
    MatchingValuesAreMatchingEntries(ratio, Brl);
    BrlValuesDistinct();
    var vs, ix := MatchingValues(ratio, Brl), MatchIndices(ratio, Brl);
    if Brl[k].value in vs {
      var i :| 0 <= i < |vs| && vs[i] == Brl[k].value;
      assert Brl[ix[i]].value == Brl[k].value;
      assert ix[i] == k;
    }
    if Matches(ratio, Brl[k]) {
      var i :| 0 <= i < |ix| && ix[i] == k;
      assert vs[i] == Brl[k].value;
    }
  }

  /** A ratio within the tolerance of no entry contributes nothing. */
  lemma {:induction false} NoMatchNoValues(ratio: real, table: seq<Denomination>)
    requires forall k :: 0 <= k < |table| ==> !Matches(ratio, table[k])
    ensures MatchingValues(ratio, table) == []
  {
    if table != [] {
      NoMatchNoValues(ratio, table[..|table| - 1]);
    }
  }

  // ---------------------------------------------------------------------------
  // The classifier
  // ---------------------------------------------------------------------------

  /** A detected circle (centre and radius, in pixels). */
  datatype Circle = Circle(x: real, y: real, radius: real)

  /** The quotient radius / reference as the detector's float32 arithmetic gives it: an
      ordinary number, or infinity / not-a-number when the reference is 0. */
  datatype Ratio = Finite(value: real) | NonFinite

  /** The ratio `radius / min_radius` the classifier compares with the table: finite
      exactly when the reference is not zero. */
  function Divide(radius: real, oneCentRadius: real): (q: Ratio)
    ensures q.Finite? <==> oneCentRadius != 0.0
  {
    if oneCentRadius == 0.0 then NonFinite else Finite(radius / oneCentRadius)
  }

  /** What the nested loop appends for the circles `cs` when every ratio is finite. */
  function ScanBatch(cs: seq<Circle>, oneCentRadius: real): seq<nat>
    requires oneCentRadius != 0.0
  {
    if cs == [] then []
    else
      var n := |cs| - 1;
      ScanBatch(cs[..n], oneCentRadius) + MatchingValues(cs[n].radius / oneCentRadius, Brl)
  }

  /** Everything the classifier appends for the circles `cs`, in order. With a zero
      reference every ratio is non-finite and is more than the tolerance away from every
      rate (every comparison with it is false), so nothing is appended. */
  function Classified(cs: seq<Circle>, oneCentRadius: real): (vs: seq<nat>)
  {
    if oneCentRadius == 0.0 then [] else ScanBatch(cs, oneCentRadius)
  }

  /** Sum of a list of centavo values. */
  function Sum(s: seq<nat>): (total: nat)
  {
    if s == [] then 0 else Sum(s[..|s| - 1]) + s[|s| - 1]
  }

  /** Scanning one more table entry appends at most that entry's value. */
  lemma ScanStep(ratio: real, j: nat)
    requires j < |Brl|
    ensures MatchingValues(ratio, Brl[..j + 1])
      == MatchingValues(ratio, Brl[..j]) + (if Matches(ratio, Brl[j]) then [Brl[j].value] else [])
  {
    assert Brl[..j + 1][..j] == Brl[..j];
  }

  /** Classifying one more circle appends what the scan of the table gives for it. */
  lemma ClassifyStep(cs: seq<Circle>, i: nat, oneCentRadius: real)
    requires oneCentRadius != 0.0 && i < |cs|
    ensures Classified(cs[..i + 1], oneCentRadius)
      == Classified(cs[..i], oneCentRadius) + MatchingValues(cs[i].radius / oneCentRadius, Brl)
  {
    assert cs[..i + 1][..i] == cs[..i];
  }

  /** The classifier's answer: the total in centavos and the value of each counted coin. */
  datatype Count = Count(total: nat, coins: seq<nat>)

  /** coins_counter: classifies the circles of the last detection batch against the
      1-centavo radius and totals them. */
  method CoinsCounter(circle: seq<seq<Circle>>, oneCentRadius: real) returns (r: Count)
    requires |circle| > 0
    ensures var coins := Classified(circle[|circle| - 1], oneCentRadius);
      r == Count(Sum(coins), coins)
    ensures circle[|circle| - 1] == [] ==> r == Count(0, [])
    ensures oneCentRadius == 0.0 ==> r == Count(0, [])
  {
    var minRadius := oneCentRadius;
    var batch := circle[|circle| - 1];
    var coins: seq<nat> := [];
    var i := 0;
    while i < |batch|
      invariant 0 <= i <= |batch|
      invariant coins == Classified(batch[..i], minRadius)
    {
      var rate := Divide(batch[i].radius, minRadius);
      ghost var done := coins;
      var j := 0;
      while j < |Brl|
        invariant 0 <= j <= |Brl|
        invariant coins == done + (if rate.Finite? then MatchingValues(rate.value, Brl[..j]) else [])
      {
        ghost var scanned := if rate.Finite? then MatchingValues(rate.value, Brl[..j]) else [];
        if rate.Finite? {
          ScanStep(rate.value, j);
        }
        var value := Rate(Brl[j]);
        if rate.Finite? && Abs(rate.value - value) <= Tolerance {
          coins := coins + [Brl[j].value];
          assert coins == done + (scanned + [Brl[j].value]);
        }
        j := j + 1;
      }
      assert Brl[..j] == Brl;
      if minRadius != 0.0 {
        ClassifyStep(batch, i, minRadius);
      }
      i := i + 1;
    }
    assert batch[..i] == batch;
    if minRadius == 0.0 {
      NonPositiveReferenceCountsNothing(batch, minRadius);
    }
    r := Count(Sum(coins), coins);
  }

  // ---------------------------------------------------------------------------
  // Properties of the classification
  // ---------------------------------------------------------------------------

  /** The concatenation of what `f` gives for each element of `xs`, in order. */
  function FlatMap<T>(f: T -> seq<nat>, xs: seq<T>): seq<nat>
  {
    if xs == [] then [] else FlatMap(f, xs[..|xs| - 1]) + f(xs[|xs| - 1])
  }

  /** Flattening a concatenation appends the flattened parts. */
  lemma {:induction false} FlatMapAppend<T>(f: T -> seq<nat>, a: seq<T>, b: seq<T>)
    ensures FlatMap(f, a + b) == FlatMap(f, a) + FlatMap(f, b)
  {
    if b == [] {
      assert a + b == a;
    } else {
      var n, ab := |b| - 1, a + b;
      FlatMapAppend(f, a, b[..n]);
      assert ab[..|ab| - 1] == a + b[..n] && ab[|ab| - 1] == b[n];
      assert FlatMap(f, ab) == FlatMap(f, a + b[..n]) + f(b[n]);
      assert FlatMap(f, b) == FlatMap(f, b[..n]) + f(b[n]);
    }
  }

  /** The scan of a batch appends, circle after circle, what the table gives for each. */
  lemma {:induction false} ScanBatchIsFlatMap(cs: seq<Circle>, oneCentRadius: real)
    requires oneCentRadius != 0.0
    ensures ScanBatch(cs, oneCentRadius)
      == FlatMap((c: Circle) => MatchingValues(c.radius / oneCentRadius, Brl), cs)
  {
    if cs != [] {
      ScanBatchIsFlatMap(cs[..|cs| - 1], oneCentRadius);
    }
  }

  /** Output order follows input order: classifying a concatenation appends the parts. */
  lemma ClassifiedAppend(a: seq<Circle>, b: seq<Circle>, oneCentRadius: real)
    ensures Classified(a + b, oneCentRadius) == Classified(a, oneCentRadius) + Classified(b, oneCentRadius)
  {
    if oneCentRadius != 0.0 {
      ScanBatchIsFlatMap(a + b, oneCentRadius);
      ScanBatchIsFlatMap(a, oneCentRadius);
      ScanBatchIsFlatMap(b, oneCentRadius);
      FlatMapAppend((c: Circle) => MatchingValues(c.radius / oneCentRadius, Brl), a, b);
    }
  }

  /** A circle contributes the value of entry k exactly when its ratio to the reference
      is within the tolerance of entry k's rate, the boundary included. */
  lemma {:induction false} CircleCountedIffWithinTolerance(cs: seq<Circle>, c: Circle, oneCentRadius: real, k: nat)
    requires oneCentRadius != 0.0 && k < |Brl|
    ensures Classified(cs + [c], oneCentRadius) == Classified(cs, oneCentRadius) + MatchingValues(c.radius / oneCentRadius, Brl)
    ensures Brl[k].value in MatchingValues(c.radius / oneCentRadius, Brl)
      <==> Abs(c.radius / oneCentRadius - Rate(Brl[k])) <= Tolerance
  {
    assert (cs + [c])[..|cs|] == cs;
    ValueCountedIffMatches(c.radius / oneCentRadius, k);
  }

  /** A circle within the tolerance of no entry is silently dropped. */
  lemma {:induction false} UnmatchedCircleDropped(cs: seq<Circle>, c: Circle, oneCentRadius: real)
    requires oneCentRadius != 0.0
    requires forall k :: 0 <= k < |Brl| ==> !Matches(c.radius / oneCentRadius, Brl[k])
    ensures Classified(cs + [c], oneCentRadius) == Classified(cs, oneCentRadius)
  {
    assert (cs + [c])[..|cs|] == cs;
    NoMatchNoValues(c.radius / oneCentRadius, Brl);
  }

  /** Only the radius of each circle is read. */
  lemma {:induction false} OnlyRadiusRead(a: seq<Circle>, b: seq<Circle>, oneCentRadius: real)
    requires |a| == |b| && forall i :: 0 <= i < |a| ==> a[i].radius == b[i].radius
    ensures Classified(a, oneCentRadius) == Classified(b, oneCentRadius)
  {
    if a != [] {
      var n := |a| - 1;
      OnlyRadiusRead(a[..n], b[..n], oneCentRadius);
    }
  }

  /** The output holds at most six values per circle. */
  lemma {:induction false} ClassifiedLength(cs: seq<Circle>, oneCentRadius: real)
    ensures |Classified(cs, oneCentRadius)| <= |Brl| * |cs|
  {
    if cs != [] {
      var n := |cs| - 1;
      ClassifiedLength(cs[..n], oneCentRadius);
    }
  }

  /** The total of a batch is the sum of the totals of its parts. */
  lemma {:induction false} SumAppend(a: seq<nat>, b: seq<nat>)
    ensures Sum(a + b) == Sum(a) + Sum(b)
  {
    if b == [] {
      assert a + b == a;
    } else {
      var n := |b| - 1;
      SumAppend(a, b[..n]);
      assert (a + b)[..|a + b| - 1] == a + b[..n];
    }
  }

  /** The scan of the fixed table, written out entry by entry. */
  lemma MatchingValuesOnBrl(ratio: real)
    ensures MatchingValues(ratio, Brl) ==
      (if Matches(ratio, Brl[0]) then [1] else []) + (if Matches(ratio, Brl[1]) then [5] else []) +
      (if Matches(ratio, Brl[2]) then [10] else []) + (if Matches(ratio, Brl[3]) then [25] else []) +
      (if Matches(ratio, Brl[4]) then [50] else []) + (if Matches(ratio, Brl[5]) then [100] else [])
  {
    var t := Brl;
    assert t[..6] == t;
    assert t[..6][..5] == t[..5] && t[..5][..4] == t[..4] && t[..4][..3] == t[..3];
    assert t[..3][..2] == t[..2] && t[..2][..1] == t[..1] && t[..1][..0] == [];
    assert MatchingValues(ratio, t[..1]) == (if Matches(ratio, Brl[0]) then [1] else []);
    assert MatchingValues(ratio, t[..2]) == MatchingValues(ratio, t[..1]) + (if Matches(ratio, Brl[1]) then [5] else []);
    assert MatchingValues(ratio, t[..3]) == MatchingValues(ratio, t[..2]) + (if Matches(ratio, Brl[2]) then [10] else []);
    assert MatchingValues(ratio, t[..4]) == MatchingValues(ratio, t[..3]) + (if Matches(ratio, Brl[3]) then [25] else []);
    assert MatchingValues(ratio, t[..5]) == MatchingValues(ratio, t[..4]) + (if Matches(ratio, Brl[4]) then [50] else []);
  }

  /** A circle whose radius is exactly the reference times a coin's rate is counted as
      that coin and nothing else (radius == reference gives 1 centavo; 27/17 of it, R$ 1). */
  lemma ExactRateCountedOnce(c: Circle, oneCentRadius: real, k: nat)
    requires oneCentRadius != 0.0 && k < |Brl|
    requires c.radius == oneCentRadius * Rate(Brl[k])
    ensures Classified([c], oneCentRadius) == [Brl[k].value]
  {
    var ratio := c.radius / oneCentRadius;
    assert ratio == Rate(Brl[k]);
    assert [c][..0] == [];
    assert ScanBatch([c], oneCentRadius) == ScanBatch([], oneCentRadius) + MatchingValues(ratio, Brl);
    MatchingValuesOnBrl(ratio);
  }

  /** Two close denominations overlap: a radius 22.5/17 of the reference is within the
      tolerance of both 5 centavos (22/17) and 50 centavos (23/17), and both are counted. */
  lemma DoubleCount(c: Circle, oneCentRadius: real)
    requires oneCentRadius != 0.0
    requires c.radius == oneCentRadius * 22.5 / 17.0
    ensures Classified([c], oneCentRadius) == [5, 50]
    ensures Sum(Classified([c], oneCentRadius)) == 55
  {
    var ratio := c.radius / oneCentRadius;
    assert ratio == 22.5 / 17.0;
    assert [c][..0] == [];
    assert ScanBatch([c], oneCentRadius) == ScanBatch([], oneCentRadius) + MatchingValues(ratio, Brl);
    MatchingValuesOnBrl(ratio);
    assert [5, 50][..1] == [5] && [5][..0] == [];
  }

  /** A reference radius that is not positive is not rejected. A zero reference makes
      every ratio non-finite; a negative one makes the ratio of every circle of
      non-negative radius non-positive. Either way nothing matches and the total is 0. */
  lemma {:induction false} NonPositiveReferenceCountsNothing(cs: seq<Circle>, oneCentRadius: real)
    requires oneCentRadius <= 0.0
    requires oneCentRadius < 0.0 ==> forall i :: 0 <= i < |cs| ==> cs[i].radius >= 0.0
    ensures Classified(cs, oneCentRadius) == []
  {
    if cs != [] {
      var n := |cs| - 1;
      NonPositiveReferenceCountsNothing(cs[..n], oneCentRadius);
      if oneCentRadius < 0.0 {
        var ratio := cs[n].radius / oneCentRadius;
        assert ratio <= 0.0;
        forall k | 0 <= k < |Brl| ensures !Matches(ratio, Brl[k]) {
          assert Rate(Brl[k]) >= 1.0;
        }
        NoMatchNoValues(ratio, Brl);
      }
    }
  }

  // ---------------------------------------------------------------------------
  // Target size of resize_image
  // ---------------------------------------------------------------------------

  /** An image's shape: shape[0] rows (the height) and shape[1] columns (the width). */
  datatype Shape = Shape(rows: nat, cols: nat)

  /** Python's int() on a number: truncation toward zero. */
  function Truncate(x: real): (n: int)
    ensures 0.0 <= x ==> 0 <= n && n as real <= x < n as real + 1.0
    ensures x < 0.0 ==> n <= 0 && n as real - 1.0 < x <= n as real
  {
    if 0.0 <= x then x.Floor else -((-x).Floor)
  }

  /** One scaled side: int(side * percent / 100). */
  function ScaledSide(side: nat, percent: int): (n: int)
  {
    Truncate(side as real * percent as real / 100.0)
  }

  /** The (width, height) handed to the resize. */
  function ResizeDimensions(shape: Shape, percent: int): (dim: (int, int))
  {
    (ScaledSide(shape.cols, percent), ScaledSide(shape.rows, percent))
  }

  /** For a non-negative percentage a side becomes the floor of side * percent / 100. */
  lemma ScaledSideIsFloor(side: nat, percent: int)
    requires 0 <= percent
    ensures 0 <= ScaledSide(side, percent)
    ensures 100 * ScaledSide(side, percent) <= side * percent < 100 * ScaledSide(side, percent) + 100
  {
    var x := side as real * percent as real / 100.0;
    var n := ScaledSide(side, percent);
    assert n as real <= x < n as real + 1.0;
    assert (100 * n) as real <= (side * percent) as real < (100 * n + 100) as real;
  }

  /** For a percentage between 0 and 100 a side never grows, and 100 keeps it. */
  lemma ScaledSideBounded(side: nat, percent: int)
    requires 0 <= percent <= 100
    ensures 0 <= ScaledSide(side, percent) <= side
    ensures percent == 100 ==> ScaledSide(side, percent) == side
  {
    ScaledSideIsFloor(side, percent);
    var n := ScaledSide(side, percent);
    assert side * percent <= side * 100 by {
      assert side * (100 - percent) >= 0;
    }
    if percent == 100 {
      assert side as real * percent as real / 100.0 == side as real;
    }
  }

  /** A percentage between 0 and 100 never enlarges the image, and 100 keeps it. */
  lemma ResizeNeverEnlarges(shape: Shape, percent: int)
    requires 0 <= percent <= 100
    ensures 0 <= ResizeDimensions(shape, percent).0 <= shape.cols
    ensures 0 <= ResizeDimensions(shape, percent).1 <= shape.rows
    ensures percent == 100 ==> ResizeDimensions(shape, percent) == (shape.cols, shape.rows)
  {
    ScaledSideBounded(shape.cols, percent);
    ScaledSideBounded(shape.rows, percent);
  }
}
