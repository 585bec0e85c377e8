/** Weighted means and least elements over the reals, as the confidence calculus
    uses them. */
module ConfidenceArithmetic {

  datatype Weighted = Weighted(value: real, weight: real)

  function Total(ws: seq<Weighted>): real
  {
    if ws == [] then 0.0 else ws[0].weight + Total(ws[1..])
  }

  function WeightedSum(ws: seq<Weighted>): real
  {
    if ws == [] then 0.0 else ws[0].value * ws[0].weight + WeightedSum(ws[1..])
  }

  /** The mean, or zero when nothing carries weight. */
  function Mean(ws: seq<Weighted>): real
  {
    if Total(ws) != 0.0 then WeightedSum(ws) / Total(ws) else 0.0
  }

  function Min(a: real, b: real): real
  {
    if b < a then b else a
  }

  function Max(a: real, b: real): real
  {
    if b > a then b else a
  }

  function Lowest(values: seq<real>): real
    requires values != []
  {
    if |values| == 1 then values[0] else Min(values[0], Lowest(values[1..]))
  }

  function Highest(values: seq<real>): real
    requires values != []
  {
    if |values| == 1 then values[0] else Max(values[0], Highest(values[1..]))
  }

  function Values(ws: seq<Weighted>): seq<real>
  {
    if ws == [] then [] else [ws[0].value] + Values(ws[1..])
  }

  /** Seven tenths of the mean and three tenths of the lowest. */
  function Blend(mean: real, lowest: real): real
  {
    0.7 * mean + 0.3 * lowest
  }

  ghost predicate NonNegative(ws: seq<Weighted>)
  {
    forall i :: 0 <= i < |ws| ==> ws[i].weight >= 0.0
  }

  ghost predicate Between(values: seq<real>, lo: real, hi: real)
  {
    forall i :: 0 <= i < |values| ==> lo <= values[i] <= hi
  }

  /** Position by position, the weights agree and no value is larger. */
  ghost predicate Below(a: seq<Weighted>, b: seq<Weighted>)
  {
    |a| == |b| && forall i :: 0 <= i < |a| ==> a[i].weight == b[i].weight && a[i].value <= b[i].value
  }

  lemma {:induction false} Scale(a: real, b: real, w: real)
    requires a <= b && w >= 0.0
    ensures a * w <= b * w
  {
  }

  lemma {:induction false} Compare(a: real, b: real, t: real)
    requires t > 0.0
    ensures a <= b <==> a * t <= b * t
  {
    if a < b {
      assert (b - a) * t > 0.0;
    }
    if b < a {
      assert (a - b) * t > 0.0;
    }
  }

  lemma {:induction false} Quotient(a: real, b: real, t: real)
    requires t > 0.0
    ensures a <= b * t <==> a / t <= b
    ensures b * t <= a <==> b <= a / t
  {
    var q := a / t;
    assert q * t == a;
    Compare(q, b, t);
    Compare(b, q, t);
  }

  lemma {:induction false} LengthOfValues(ws: seq<Weighted>)
    ensures |Values(ws)| == |ws|
    ensures forall i :: 0 <= i < |ws| ==> Values(ws)[i] == ws[i].value
  {
    if ws != [] {
      LengthOfValues(ws[1..]);
    }
  }

  lemma {:induction false} LowestIsLeast(values: seq<real>)
    requires values != []
    ensures forall i :: 0 <= i < |values| ==> Lowest(values) <= values[i]
    ensures exists i :: 0 <= i < |values| && Lowest(values) == values[i]
  {
    if |values| > 1 {
      LowestIsLeast(values[1..]);
      assert forall i :: 1 <= i < |values| ==> values[i] == values[1..][i - 1];
      var j :| 0 <= j < |values[1..]| && Lowest(values[1..]) == values[1..][j];
      assert values[j + 1] == values[1..][j];
      var k := if Lowest(values) == values[0] then 0 else j + 1;
      assert Lowest(values) == values[k];
    } else {
      assert Lowest(values) == values[0];
    }
  }

  lemma {:induction false} HighestIsGreatest(values: seq<real>)
    requires values != []
    ensures forall i :: 0 <= i < |values| ==> values[i] <= Highest(values)
    ensures exists i :: 0 <= i < |values| && Highest(values) == values[i]
  {
    if |values| > 1 {
      HighestIsGreatest(values[1..]);
      assert forall i :: 1 <= i < |values| ==> values[i] == values[1..][i - 1];
      var j :| 0 <= j < |values[1..]| && Highest(values[1..]) == values[1..][j];
      assert values[j + 1] == values[1..][j];
      var k := if Highest(values) == values[0] then 0 else j + 1;
      assert Highest(values) == values[k];
    } else {
      assert Highest(values) == values[0];
    }
  }

  lemma {:induction false} TotalNonNegative(ws: seq<Weighted>)
    requires NonNegative(ws)
    ensures Total(ws) >= 0.0
    ensures Total(ws) == 0.0 <==> forall i :: 0 <= i < |ws| ==> ws[i].weight == 0.0
  {
    if ws != [] {
      TotalNonNegative(ws[1..]);
      assert forall i :: 1 <= i < |ws| ==> ws[i] == ws[1..][i - 1];
      assert forall i :: 0 <= i < |ws[1..]| ==> ws[1..][i] == ws[i + 1];
    }
  }

  lemma {:induction false} SumBetween(ws: seq<Weighted>, lo: real, hi: real)
    requires NonNegative(ws) && Between(Values(ws), lo, hi)
    ensures lo * Total(ws) <= WeightedSum(ws) <= hi * Total(ws)
  {
    if ws != [] {
      TailBetween(ws, lo, hi);
      SumBetween(ws[1..], lo, hi);
      hide Between, Values;
      Scale(lo, ws[0].value, ws[0].weight);
      Scale(ws[0].value, hi, ws[0].weight);
      Distribute(lo, ws[0].weight, Total(ws[1..]));
      Distribute(hi, ws[0].weight, Total(ws[1..]));
    }
  }

  lemma {:induction false} Distribute(a: real, b: real, c: real)
    ensures a * (b + c) == a * b + a * c
  {
  }

  lemma {:induction false} TailBetween(ws: seq<Weighted>, lo: real, hi: real)
    requires ws != [] && NonNegative(ws) && Between(Values(ws), lo, hi)
    ensures lo <= ws[0].value <= hi && NonNegative(ws[1..]) && Between(Values(ws[1..]), lo, hi)
  {
    LengthOfValues(ws);
    LengthOfValues(ws[1..]);
    hide Values;
    var vs := Values(ws);
    assert forall i :: 0 <= i < |ws[1..]| ==> ws[1..][i] == ws[i + 1] && lo <= vs[i + 1] <= hi;
    assert lo <= vs[0] <= hi;
  }

  /** With some weight, the mean lies between any bounds of the values. */
  lemma {:induction false} MeanBetween(ws: seq<Weighted>, lo: real, hi: real)
    requires NonNegative(ws) && Total(ws) > 0.0 && Between(Values(ws), lo, hi)
    ensures lo <= Mean(ws) <= hi
  {
    SumBetween(ws, lo, hi);
    Quotient(WeightedSum(ws), hi, Total(ws));
    Quotient(WeightedSum(ws), lo, Total(ws));
  }

  lemma {:induction false} SumMonotone(a: seq<Weighted>, b: seq<Weighted>)
    requires Below(a, b) && NonNegative(a)
    ensures Total(a) == Total(b) && WeightedSum(a) <= WeightedSum(b)
  {
    if a != [] {
      SumMonotone(a[1..], b[1..]);
      Scale(a[0].value, b[0].value, a[0].weight);
    }
  }

  lemma {:induction false} MeanMonotone(a: seq<Weighted>, b: seq<Weighted>)
    requires Below(a, b) && NonNegative(a)
    ensures Mean(a) <= Mean(b)
  {
    SumMonotone(a, b);
    TotalNonNegative(a);
    if Total(a) > 0.0 {
      var t := Total(a);
      assert (WeightedSum(b) / t) * t == WeightedSum(b);
      Quotient(WeightedSum(a), WeightedSum(b) / t, t);
    }
  }

  ghost predicate SomeAtMost(values: seq<real>, bound: real)
  {
    exists j :: 0 <= j < |values| && values[j] <= bound
  }

  /** A list with something at or below every value of another has a smaller
      least value. */
  lemma {:induction false} LowestBelow(a: seq<real>, b: seq<real>)
    requires a != [] && b != []
    requires forall i :: 0 <= i < |b| ==> SomeAtMost(a, b[i])
    ensures Lowest(a) <= Lowest(b)
  {
    LowestIsLeast(a);
    LowestIsLeast(b);
    var i :| 0 <= i < |b| && Lowest(b) == b[i];
    assert SomeAtMost(a, b[i]);
  }

  /** The blend stays within the values exactly when something carries weight or
      the lowest value is zero. */
  lemma {:induction false} BlendBetweenExactly(ws: seq<Weighted>)
    requires ws != [] && NonNegative(ws) && Between(Values(ws), 0.0, 100.0)
    ensures Values(ws) != []
    ensures var lo, hi := Lowest(Values(ws)), Highest(Values(ws));
            lo <= Blend(Mean(ws), lo) <= hi <==> Total(ws) > 0.0 || lo == 0.0
  {
    LengthOfValues(ws);
    var vs := Values(ws);
    var lo, hi := Lowest(vs), Highest(vs);
    LowestIsLeast(vs);
    HighestIsGreatest(vs);
    TotalNonNegative(ws);
    if Total(ws) > 0.0 {
      MeanBetween(ws, lo, hi);
    }
  }

  lemma {:induction false} BlendInRange(ws: seq<Weighted>, values: seq<real>)
    requires NonNegative(ws) && Between(Values(ws), 0.0, 100.0) && values != [] && Between(values, 0.0, 100.0)
    ensures 0.0 <= Mean(ws) <= 100.0 && 0.0 <= Lowest(values) <= 100.0
    ensures 0.0 <= Blend(Mean(ws), Lowest(values)) <= 100.0
  {
    LowestIsLeast(values);
    TotalNonNegative(ws);
    if Total(ws) > 0.0 {
      MeanBetween(ws, 0.0, 100.0);
    }
  }
}
