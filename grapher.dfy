/**
  The grapher nested in the window: it compiles an equation in the variable x
  and samples it on the grid -10, -9.9, ..., 10, keeping only the points where
  the expression evaluates to a finite number.

  The expression library is not modelled: compiling is a function the caller
  supplies, and a compiled expression is a total function from an x value to
  the outcome of one evaluation.
 */
module Grapher {
  import opened Wrappers

  /** What one evaluation of a compiled expression at one x does. */
  datatype Evaluation =
    | Finite(y: real)  // a finite double
    | NonFinite        // NaN or an infinity
    | Rejected         // throws IllegalArgumentException, which the loop catches
    | Aborts           // throws any other exception, which ends the whole plot

  type Compiled = real -> Evaluation

  datatype Point = Point(x: real, y: real)

  /** The chart: its title, the series key and the series' points in insertion order. */
  datatype Chart = Chart(title: string, seriesKey: string, points: seq<Point>)

  /** Number of grid positions x = -10 + i / 10 with x <= 10. */
  const GridCount: nat := 201

  function GridX(i: int): real {
    -10.0 + (i as real) / 10.0
  }

  /** The point kept at grid position i, if any. */
  function PointAt(f: Compiled, i: int): seq<Point> {
    match f(GridX(i))
    case Finite(y) => [Point(GridX(i), y)]
    case _ => []
  }

  /** The series built from the first n grid positions. */
  function Kept(f: Compiled, n: nat): (series: seq<Point>)
    ensures |series| <= n
  {
    if n == 0 then [] else Kept(f, n - 1) + PointAt(f, n - 1)
  }

  /** No grid position makes the evaluation escape the per-point handler. */
  ghost predicate SamplesWithoutAbort(f: Compiled) {
    forall i :: 0 <= i < GridCount ==> f(GridX(i)) != Aborts
  }

  /** The panel that createChartPanelForEquation returns, None standing for null. */
  ghost function ChartFor(compile: string -> Option<Compiled>, equation: string, title: string): (panel: Option<Chart>)
    ensures panel.Some? ==> compile(equation).Some?
    ensures panel.Some? ==> panel.value.title == title && panel.value.seriesKey == "y = " + equation
    ensures panel.Some? ==> |panel.value.points| <= GridCount
  {
    match compile(equation)
    case None => None
    case Some(f) =>
      if SamplesWithoutAbort(f) then Some(Chart(title, "y = " + equation, Kept(f, GridCount)))
      else None
  }

  /** Every kept point lies on the grid below position n and carries the finite value f has there. */
  lemma {:induction false} KeptSound(f: Compiled, n: nat)
    ensures forall p :: p in Kept(f, n) ==> f(p.x) == Finite(p.y)
    ensures forall p :: p in Kept(f, n) ==> exists i :: 0 <= i < n && p.x == GridX(i)
  {
    if n > 0 {
      KeptSound(f, n - 1);
    }
  }

  /** A grid position below n is kept exactly when f is finite there, with that value. */
  lemma {:induction false} KeptComplete(f: Compiled, n: nat, i: nat)
    requires i < n
    ensures f(GridX(i)).Finite? ==> Point(GridX(i), f(GridX(i)).y) in Kept(f, n)
    ensures !f(GridX(i)).Finite? ==> forall p :: p in Kept(f, n) ==> p.x != GridX(i)
  {
    KeptSound(f, n);
    if i < n - 1 {
      KeptComplete(f, n - 1, i);
    }
  }

  /** Kept x values strictly increase and stay below grid position n. */
  lemma {:induction false} KeptIncreasing(f: Compiled, n: nat)
    ensures forall k :: 0 <= k < |Kept(f, n)| ==> Kept(f, n)[k].x < GridX(n)
    ensures forall j, k :: 0 <= j < k < |Kept(f, n)| ==> Kept(f, n)[j].x < Kept(f, n)[k].x
  {
    if n > 0 {
      KeptIncreasing(f, n - 1);
    }
  }

  /** At most one point per grid position: no two kept points share an x, so there are at most n of them. */
  lemma {:induction false} KeptAtMostOnePerPosition(f: Compiled, n: nat)
    ensures forall j, k :: 0 <= j < k < |Kept(f, n)| ==> Kept(f, n)[j].x != Kept(f, n)[k].x
    ensures |Kept(f, n)| <= n
  {
    KeptIncreasing(f, n);
  }

  /** An expression that compiles but is nowhere finite still yields a chart, with an empty series. */
  lemma {:induction false} NowhereFiniteKeepsNothing(f: Compiled, n: nat)
    requires forall i :: 0 <= i < n ==> !f(GridX(i)).Finite?
    ensures Kept(f, n) == []
  {
    if n > 0 {
      NowhereFiniteKeepsNothing(f, n - 1);
    }
  }

  /**
    Sampling y = x^2 on any stretch of the exact grid -10 + i/10 that reaches
    x = 2, the full grid of GridCount positions included, plots the points
    (0, 0) and (2, 4).
   */
  lemma SquareKeepsGridPoints(f: Compiled, n: nat)
    requires forall x :: f(x) == Finite(x * x)
    requires 120 < n
    ensures Point(0.0, 0.0) in Kept(f, n) && Point(2.0, 4.0) in Kept(f, n)
  {
    assert GridX(100) == 0.0 && f(GridX(100)) == Finite(0.0);
    assert GridX(120) == 2.0 && f(GridX(120)) == Finite(4.0);
    KeptComplete(f, n, 100);
    KeptComplete(f, n, 120);
  }

  /** Every point plotted for y = x^2 lies on the parabola. */
  lemma SquareStaysOnParabola(f: Compiled, n: nat)
    requires forall x :: f(x) == Finite(x * x)
    ensures forall p :: p in Kept(f, n) ==> p.y == p.x * p.x
  {
    KeptSound(f, n);
  }

  /** The sampling loop: x runs from -10 in steps of 0.1 while x <= 10. */
  method SampleSeries(f: Compiled) returns (series: Option<seq<Point>>)
    ensures series.None? <==> !SamplesWithoutAbort(f)
    ensures series.Some? ==> series.value == Kept(f, GridCount)
  {
    var points: seq<Point> := [];
    var i: nat := 0;
    var x: real := -10.0;
    while x <= 10.0
      invariant i <= GridCount && x == GridX(i)
      invariant points == Kept(f, i)
      invariant forall j :: 0 <= j < i ==> f(GridX(j)) != Aborts
      decreases GridCount - i
    {
      var outcome := f(x);
      if outcome == Aborts {
        return None;
      }
      if outcome.Finite? {
        points := points + [Point(x, outcome.y)];
      }
      i, x := i + 1, x + 0.1;
    }
    return Some(points);
  }

  /** createChartPanelForEquation: null when compiling fails or an evaluation escapes the per-point handler. */
  method CreateChartPanelForEquation(compile: string -> Option<Compiled>, equation: string, title: string)
    returns (panel: Option<Chart>)
    ensures panel == ChartFor(compile, equation, title)
  {
    var built := compile(equation);
    if built.None? {
      return None;
    }
    var series := SampleSeries(built.value);
    if series.None? {
      return None;
    }
    panel := Some(Chart(title, "y = " + equation, series.value));
  }
}
