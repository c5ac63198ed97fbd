/** `GradientTable` and its lookup `GetInterpolatedColorFor`. */
module Gradient {
  import opened Colorful

  datatype Keypoint = Keypoint(col: Color, pos: real)

  /** An ordered list of colour keypoints. */
  type GradientTable = seq<Keypoint>

  /** Positions never decrease along the table. */
  ghost predicate Sorted(table: GradientTable)
  {
    forall i, j :: 0 <= i <= j < |table| ==> table[i].pos <= table[j].pos
  }

  /** The consecutive pair (i, i + 1) brackets t. */
  predicate Brackets(table: GradientTable, i: nat, t: real)
    requires i + 1 < |table|
  {
    table[i].pos <= t <= table[i + 1].pos
  }

  /** No consecutive pair brackets t. */
  ghost predicate NoBracket(table: GradientTable, t: real)
  {
    forall i :: 0 <= i < |table| - 1 ==> !Brackets(table, i, t)
  }

  /** The blend fraction (t - Pos[i]) / (Pos[i+1] - Pos[i]) inside a bracketing pair. */
  function SegmentWeight(table: GradientTable, i: nat, t: real): (w: Weight)
    requires i + 1 < |table| && Brackets(table, i, t)
    ensures w.NaN? <==> table[i].pos == table[i + 1].pos
    ensures table[i].pos < table[i + 1].pos ==> w.Frac? && 0.0 <= w.v <= 1.0
    ensures w.Frac? ==> table[i].pos + w.v * (table[i + 1].pos - table[i].pos) == t
  {
    var lo, hi := table[i].pos, table[i + 1].pos;
    var w := Quotient(t - lo, hi - lo);
    if lo < hi then
      UnitQuotient(t - lo, hi - lo);
      w
    else
      w
  }

  lemma UnitQuotient(a: real, b: real)
    requires 0.0 <= a <= b && b > 0.0
    ensures 0.0 <= a / b <= 1.0
  {
    assert a / b * b == a;
  }

  /** The colour GetInterpolatedColorFor returns from bracketing pair i. */
  function SegmentColor(table: GradientTable, i: nat, t: real): (c: Color)
    requires i + 1 < |table| && Brackets(table, i, t)
  {
    Clamped(BlendHcl(table[i].col, table[i + 1].col, SegmentWeight(table, i, t)))
  }

  /** The scan from pair i on: the first bracketing pair wins, else the last keypoint. */
  function ScanFrom(table: GradientTable, t: real, i: nat): (c: Color)
    requires i < |table|
    decreases |table| - i
  {
    if i == |table| - 1 then table[i].col
    else if Brackets(table, i, t) then SegmentColor(table, i, t)
    else ScanFrom(table, t, i + 1)
  }

  /** The colour of the table at t. */
  function ColorAt(table: GradientTable, t: real): (c: Color)
    requires |table| > 0
  {
    ScanFrom(table, t, 0)
  }

  /** `GetInterpolatedColorFor`: a linear scan for the first bracketing pair,
      falling back to the last keypoint's colour. */
  method GetInterpolatedColorFor(table: GradientTable, t: real) returns (c: Color)
    requires |table| > 0
    ensures c == ColorAt(table, t)
  {
    var i := 0;
    while i < |table| - 1
      invariant 0 <= i <= |table| - 1
      invariant ScanFrom(table, t, i) == ColorAt(table, t)
    {
      var c1, c2 := table[i], table[i + 1];
      if c1.pos <= t && t <= c2.pos {
        var w := Quotient(t - c1.pos, c2.pos - c1.pos);
        return Clamped(BlendHcl(c1.col, c2.col, w));
      }
      i := i + 1;
    }
    return table[|table| - 1].col;
  }

  lemma {:induction false} ScanFromFirst(table: GradientTable, t: real, from: nat, i: nat)
    requires from <= i && i + 1 < |table| && Brackets(table, i, t)
    requires forall j :: from <= j < i ==> !Brackets(table, j, t)
    ensures ScanFrom(table, t, from) == SegmentColor(table, i, t)
    decreases i - from
  {
    if from < i {
      ScanFromFirst(table, t, from + 1, i);
    }
  }

  lemma {:induction false} ScanFromNone(table: GradientTable, t: real, from: nat)
    requires from < |table|
    requires forall j :: from <= j < |table| - 1 ==> !Brackets(table, j, t)
    ensures ScanFrom(table, t, from) == table[|table| - 1].col
    decreases |table| - from
  {
    if from < |table| - 1 {
      ScanFromNone(table, t, from + 1);
    }
  }

  /** The lookup returns the blend of the least i with Pos[i] <= t <= Pos[i+1]. */
  lemma ColorAtFirstBracket(table: GradientTable, t: real, i: nat)
    requires i + 1 < |table| && Brackets(table, i, t)
    requires forall j :: 0 <= j < i ==> !Brackets(table, j, t)
    ensures ColorAt(table, t) == SegmentColor(table, i, t)
  {
    ScanFromFirst(table, t, 0, i);
  }

  /** With no bracketing pair the lookup returns the last keypoint's colour unmodified. */
  lemma ColorAtFallback(table: GradientTable, t: real)
    requires |table| > 0 && NoBracket(table, t)
    ensures ColorAt(table, t) == table[|table| - 1].col
  {
    ScanFromNone(table, t, 0);
  }

  /** Some pair from lo on brackets any t between Pos[lo] and the last position. */
  lemma {:induction false} BracketFrom(table: GradientTable, t: real, lo: nat)
    requires Sorted(table) && lo + 1 < |table|
    requires table[lo].pos <= t <= table[|table| - 1].pos
    ensures exists i :: lo <= i && i + 1 < |table| && Brackets(table, i, t)
    decreases |table| - lo
  {
    if t > table[lo + 1].pos {
      BracketFrom(table, t, lo + 1);
    } else {
      assert Brackets(table, lo, t);
    }
  }

  /** On a sorted table of two or more keypoints, the lookup falls back exactly
      when t lies below the first position or above the last. */
  lemma FallbackIffOutsideRange(table: GradientTable, t: real)
    requires Sorted(table) && |table| >= 2
    ensures NoBracket(table, t) <==> (t < table[0].pos || table[|table| - 1].pos < t)
  {
    if table[0].pos <= t <= table[|table| - 1].pos {
      BracketFrom(table, t, 0);
    }
  }

  lemma {:induction false} ScanFromFound(table: GradientTable, t: real, from: nat)
    requires from < |table|
    requires exists i :: from <= i && i + 1 < |table| && Brackets(table, i, t)
    ensures exists i :: from <= i && i + 1 < |table| && Brackets(table, i, t)
                        && ScanFrom(table, t, from) == SegmentColor(table, i, t)
    decreases |table| - from
  {
    var i :| from <= i && i + 1 < |table| && Brackets(table, i, t);
    if !Brackets(table, from, t) {
      assert from < i;
      ScanFromFound(table, t, from + 1);
    }
  }

  /** Where some pair brackets t, the lookup is the blend of a bracketing pair. */
  lemma ColorAtBracketed(table: GradientTable, t: real)
    requires exists i: nat :: i + 1 < |table| && Brackets(table, i, t)
    ensures exists i: nat :: i + 1 < |table| && Brackets(table, i, t) && ColorAt(table, t) == SegmentColor(table, i, t)
  {
    ScanFromFound(table, t, 0);
  }

  /** A sorted table whose positions run from at most 0 to at least 1 never falls
      back for t in [0, 1]: the lookup is always the blend of a bracketing pair. */
  lemma SpanningTableBlends(table: GradientTable, t: real)
    requires Sorted(table) && |table| >= 2
    requires table[0].pos <= 0.0 && 1.0 <= table[|table| - 1].pos && 0.0 <= t <= 1.0
    ensures exists i: nat :: i + 1 < |table| && Brackets(table, i, t) && ColorAt(table, t) == SegmentColor(table, i, t)
  {
    BracketFrom(table, t, 0);
    ColorAtBracketed(table, t);
  }
}
