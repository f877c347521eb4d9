/** The canvas starfield (assets/main.js, lines 29-53). On every resize the star
    array is rebuilt for the new viewport; every frame moves each star right by a
    fixed step and wraps it to the left edge once it passes the right edge.
    Coordinates are exact reals; the `Math.random()` values a resize consumes are
    given as input, each in [0, 1). */
module Starfield {

  const MaxStars := 280
  const PixelsPerStar := 7000
  const Drift: real := 0.02

  datatype Star = Star(x: real, y: real, r: real, s: real)

  /** The four `Math.random()` results one star consumes, in the order they are drawn. */
  datatype Draw = Draw(ux: real, uy: real, ur: real, us: real)

  predicate IsUnit(u: real) { 0.0 <= u < 1.0 }

  predicate ValidDraw(d: Draw)
  {
    IsUnit(d.ux) && IsUnit(d.uy) && IsUnit(d.ur) && IsUnit(d.us)
  }

  /** `Math.min(280, Math.floor(w*h/7000))`: the largest count with one star per
      7000 square pixels, capped at 280. */
  function StarCount(w: nat, h: nat): (n: nat)
    ensures n <= MaxStars
    ensures n * PixelsPerStar <= w * h
    ensures n < MaxStars ==> w * h < (n + 1) * PixelsPerStar
  {
    var perArea := w * h / PixelsPerStar;
    if MaxStars < perArea then MaxStars else perArea
  }

  /** A resize only places stars on a surface with positive width and height. */
  lemma StarsNeedArea(w: nat, h: nat)
    requires StarCount(w, h) > 0
    ensures w > 0 && h > 0
  {
  }

  /** Every star stays within the surface horizontally (the right edge included),
      strictly above its bottom edge, and keeps the radius and speed ranges it was
      created with. */
  predicate InField(st: Star, w: nat, h: nat)
  {
    && 0.0 <= st.x <= w as real
    && 0.0 <= st.y < h as real
    && 0.2 <= st.r < 1.4
    && 0.2 <= st.s < 1.0
  }

  /** One star of `Array.from`: uniform position on the surface, radius
      `u*1.2+0.2`, speed `u*0.8+0.2`. */
  function MakeStar(d: Draw, w: nat, h: nat): (st: Star)
    requires ValidDraw(d)
    ensures 0.2 <= st.r < 1.4 && 0.2 <= st.s < 1.0
    ensures w > 0 ==> 0.0 <= st.x < w as real
    ensures h > 0 ==> 0.0 <= st.y < h as real
  {
    var x := Scale(d.ux, w);
    var y := Scale(d.uy, h);
    Star(x, y, d.ur * 1.2 + 0.2, d.us * 0.8 + 0.2)
  }

  /** `Math.random() * n` for a unit draw lies in [0, n), or is 0 when n is 0. */
  function Scale(u: real, n: nat): (v: real)
    requires IsUnit(u)
    ensures 0.0 <= v <= n as real
    ensures n > 0 ==> v < n as real
  {
    var m := n as real;
    assert m - u * m == (1.0 - u) * m;
    assert 0.0 <= u * m;
    assert n > 0 ==> (1.0 - u) * m > 0.0;
    u * m
  }

  /** What one frame does to one star: `st.x += 0.02; if (st.x > w) st.x = 0`. */
  function Step(st: Star, w: nat): (st': Star)
    ensures st'.y == st.y && st'.r == st.r && st'.s == st.s
    ensures st'.x == 0.0 || st'.x == st.x + Drift
    ensures st'.x <= w as real
  {
    var x := st.x + Drift;
    st.(x := if x > w as real then 0.0 else x)
  }

  /** A frame keeps a star inside the field. */
  lemma StepKeepsInField(st: Star, w: nat, h: nat)
    requires InField(st, w, h)
    ensures InField(Step(st, w), w, h)
  {
  }

  /** The right edge itself is reachable, because the wrap test is strict. */
  lemma StepCanLandOnRightEdge(w: nat, y: real, r: real, s: real)
    requires w > 0
    ensures Step(Star(w as real - Drift, y, r, s), w).x == w as real
  {
  }

  /** The star after `k` frames. */
  function StepN(st: Star, w: nat, k: nat): Star
  {
    if k == 0 then st else Step(StepN(st, w, k - 1), w)
  }

  /** Any number of frames keeps a star inside the field and leaves `y`, `r` and `s` alone. */
  lemma {:induction false} StepNKeepsInField(st: Star, w: nat, h: nat, k: nat)
    requires InField(st, w, h)
    ensures InField(StepN(st, w, k), w, h)
    ensures StepN(st, w, k).(x := st.x) == st
  {
    if k > 0 {
      StepNKeepsInField(st, w, h, k - 1);
      StepKeepsInField(StepN(st, w, k - 1), w, h);
    }
  }

  /** Until it reaches the right edge a star drifts by exactly `k` steps. */
  lemma {:induction false} StepNDrifts(st: Star, w: nat, k: nat)
    requires 0.0 <= st.x && st.x + k as real * Drift <= w as real
    ensures StepN(st, w, k).x == st.x + k as real * Drift
  {
    if k > 0 {
      StepNDrifts(st, w, k - 1);
    }
  }

  /** The `Array.from` of a resize: a fresh array of `StarCount(w, h)` stars, the
      i-th built from the i-th draw. */
  method Generate(w: nat, h: nat, draws: seq<Draw>) returns (a: array<Star>)
    requires StarCount(w, h) <= |draws|
    requires forall i :: 0 <= i < |draws| ==> ValidDraw(draws[i])
    ensures fresh(a)
    ensures a.Length == StarCount(w, h)
    ensures forall i :: 0 <= i < a.Length ==> a[i] == MakeStar(draws[i], w, h)
  {
    var n := StarCount(w, h);
    a := new Star[n];
    var i := 0;
    while i < n
      invariant 0 <= i <= n
      invariant forall j :: 0 <= j < i ==> a[j] == MakeStar(draws[j], w, h)
    {
      a[i] := MakeStar(draws[i], w, h);
      i := i + 1;
    }
  }

  class Starfield {
    /** Width and height of the canvas, taken from the viewport. */
    var w: nat
    var h: nat
    var stars: array<Star>

    ghost predicate Valid()
      reads this, stars
    {
      && stars.Length <= MaxStars
      && forall i :: 0 <= i < stars.Length ==> InField(stars[i], w, h)
    }

    /** The first `resize()`, run when the script starts. */
    constructor (w: nat, h: nat, draws: seq<Draw>)
      requires StarCount(w, h) <= |draws|
      requires forall i :: 0 <= i < |draws| ==> ValidDraw(draws[i])
      ensures Valid() && fresh(stars)
      ensures this.w == w && this.h == h
      ensures stars.Length == StarCount(w, h)
      ensures forall i :: 0 <= i < stars.Length ==> stars[i] == MakeStar(draws[i], w, h)
    {
      var a := Generate(w, h, draws);
      StarsPlaced(a, w, h, draws);
      this.w := w;
      this.h := h;
      stars := a;
    }

    /** `resize()`: adopt the viewport size and rebuild the stars wholesale. */
    method Resize(newW: nat, newH: nat, draws: seq<Draw>)
      requires StarCount(newW, newH) <= |draws|
      requires forall i :: 0 <= i < |draws| ==> ValidDraw(draws[i])
      modifies this
      ensures Valid() && fresh(stars)
      ensures w == newW && h == newH
      ensures stars.Length == StarCount(newW, newH)
      ensures forall i :: 0 <= i < stars.Length ==> stars[i] == MakeStar(draws[i], newW, newH)
    {
      w, h := newW, newH;
      stars := Generate(newW, newH, draws);
      StarsPlaced(stars, w, h, draws);
    }

    /** The state update of one `draw()` frame: every star steps, in place. */
    method DrawFrame()
      requires Valid()
      modifies stars
      ensures Valid()
      ensures forall i :: 0 <= i < stars.Length ==> stars[i] == Step(old(stars[i]), w)
    {
      var i := 0;
      while i < stars.Length
        invariant 0 <= i <= stars.Length
        invariant forall j :: 0 <= j < i ==> stars[j] == Step(old(stars[j]), w)
        invariant forall j :: i <= j < stars.Length ==> stars[j] == old(stars[j])
        invariant forall j :: 0 <= j < stars.Length ==> InField(stars[j], w, h)
      {
        StepKeepsInField(stars[i], w, h);
        stars[i] := Step(stars[i], w);
        i := i + 1;
      }
    }
  }

  /** A freshly generated array satisfies the field invariant. */
  lemma StarsPlaced(a: array<Star>, w: nat, h: nat, draws: seq<Draw>)
    requires a.Length == StarCount(w, h) <= |draws|
    requires forall i :: 0 <= i < |draws| ==> ValidDraw(draws[i])
    requires forall i :: 0 <= i < a.Length ==> a[i] == MakeStar(draws[i], w, h)
    ensures a.Length <= MaxStars
    ensures forall i :: 0 <= i < a.Length ==> InField(a[i], w, h)
  {
    if a.Length > 0 {
      StarsNeedArea(w, h);
    }
  }
}
