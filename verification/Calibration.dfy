/** Sensor calibration (software/gos/src/gos_device.c): piecewise conversion of a raw
    reading, with `double` taken as a real number. */
module Calibration {

  import opened Basics

  datatype Knot = Knot(raw: real, val: real)

  /** gos_cvt_segment_t */
  datatype Segment = Segment(from: real, to: real, slope: real, intercept: real)

  const ZERO_SEGMENT := Segment(0.0, 0.0, 0.0, 0.0)

  /** gos_cvt_t without GOS_CVT_VSENSOR */
  datatype Kind = NoConversion | Linear | TableMap | Ratio | ORatio

  /** gos_convert_linear, _tablemap, _ratio, _oratio */
  function ConvertWith(kind: Kind, seg: Segment, offset: real, value: int): real
    requires kind != NoConversion
  {
    match kind
    case Linear => offset + seg.intercept + seg.slope * (value as real - seg.from)
    case TableMap => offset + seg.intercept
    case Ratio => offset + seg.slope * value as real + seg.intercept
    case ORatio => if value == 0 then 0.0 else offset + seg.slope / value as real + seg.intercept
  }

  predicate Covers(seg: Segment, raw: int) { seg.from <= raw as real <= seg.to }

  /** The first segment that covers the reading, or -1. */
  function FirstMatch(segs: seq<Segment>, raw: int): (r: int)
    ensures -1 <= r < |segs|
    ensures r >= 0 ==> Covers(segs[r], raw)
    ensures forall j :: 0 <= j < (if r < 0 then |segs| else r) ==> !Covers(segs[j], raw)
  {
    if segs == [] then -1
    else
      var n := |segs| - 1;
      var r := FirstMatch(segs[..n], raw);
      if r >= 0 then r else if Covers(segs[n], raw) then n else -1
  }

  /** gos_convert_env */
  function Convert(kind: Kind, segs: seq<Segment>, offset: real, raw: int): Option<real>
  {
    if kind == NoConversion then Some(0.0)
    else
      var i := FirstMatch(segs, raw);
      if i < 0 then None else Some(ConvertWith(kind, segs[i], offset, raw))
  }

  /** gos_convert_env as its loop */
  method ConvertEnv(kind: Kind, segs: array<Segment>, offset: real, raw: int) returns (r: Option<real>)
    ensures r == Convert(kind, segs[..], offset, raw)
  {
    if kind == NoConversion { return Some(0.0); }
    for i := 0 to segs.Length
      invariant forall j :: 0 <= j < i ==> !Covers(segs[j], raw)
    {
      if segs[i].from <= raw as real && raw as real <= segs[i].to {
        MatchIsFirst(segs[..], raw, i);
        return Some(ConvertWith(kind, segs[i], offset, raw));
      }
    }
    return None;
  }

  lemma MatchIsFirst(segs: seq<Segment>, raw: int, i: nat)
    requires i < |segs| && Covers(segs[i], raw) && forall j :: 0 <= j < i ==> !Covers(segs[j], raw)
    ensures FirstMatch(segs, raw) == i
  {
  }

  // ------------------------------------------------------------------ knots

  ghost predicate Increasing(knots: seq<Knot>)
  {
    forall i, j :: 0 <= i < j < |knots| ==> knots[i].raw < knots[j].raw
  }

  function Slope(a: Knot, b: Knot): real
  {
    if a.raw == b.raw then 0.0 else (b.val - a.val) / (b.raw - a.raw)
  }

  function SegmentOf(kind: Kind, a: Knot, b: Knot): Segment
  {
    Segment(a.raw, b.raw, if kind == Linear then Slope(a, b) else 0.0, a.val)
  }

  /** One segment from each knot to the next. */
  function Segments(kind: Kind, knots: seq<Knot>): (segs: seq<Segment>)
    ensures |segs| == if knots == [] then 0 else |knots| - 1
    ensures forall i :: 0 <= i < |segs| ==> segs[i] == SegmentOf(kind, knots[i], knots[i + 1])
  {
    if |knots| < 2 then []
    else Segments(kind, knots[..|knots| - 1]) + [SegmentOf(kind, knots[|knots| - 2], knots[|knots| - 1])]
  }

  // ------------------------------------------------------------------- laws

  lemma MulMono(q: real, a: real, b: real)
    requires a <= b
    ensures q >= 0.0 ==> q * a <= q * b
    ensures q <= 0.0 ==> q * a >= q * b
  {
  }

  /** The straight line through two knots. */
  function Line(a: Knot, b: Knot, x: real): real { a.val + Slope(a, b) * (x - a.raw) }

  /** The line is exact at both knots, in between elsewhere. */
  lemma LineBetween(a: Knot, b: Knot, x: real)
    requires a.raw < b.raw && a.raw <= x <= b.raw
    ensures x == a.raw ==> Line(a, b, x) == a.val
    ensures x == b.raw ==> Line(a, b, x) == b.val
    ensures Between(a.val, Line(a, b, x), b.val)
  {
    var q, d := Slope(a, b), b.raw - a.raw;
    assert q * d == b.val - a.val;
    assert a.val <= b.val ==> q >= 0.0;
    assert a.val >= b.val ==> q <= 0.0;
    MulMono(q, 0.0, x - a.raw);
    MulMono(q, x - a.raw, d);
  }

  predicate Between(a: real, x: real, b: real) { a <= x <= b || a >= x >= b }

  /** The value of a segment as the code computes it is the line through its knots. */
  lemma SegmentIsLine(a: Knot, b: Knot, offset: real, raw: int)
    ensures ConvertWith(Linear, SegmentOf(Linear, a, b), offset, raw) == offset + Line(a, b, raw as real)
  {
  }

  /** A reading is covered exactly between the first and the last knot. */
  lemma {:induction false} CoveredRange(kind: Kind, knots: seq<Knot>, raw: int)
    requires |knots| >= 2 && Increasing(knots)
    ensures FirstMatch(Segments(kind, knots), raw) >= 0
            <==> knots[0].raw <= raw as real <= knots[|knots| - 1].raw
    decreases |knots|
  {
    var n := |knots| - 1;
    var segs := Segments(kind, knots);
    if n == 1 {
      assert Covers(segs[0], raw) <==> knots[0].raw <= raw as real <= knots[1].raw;
    } else {
      CoveredRange(kind, knots[..n], raw);
      assert segs[..n - 1] == Segments(kind, knots[..n]);
      assert Covers(segs[n - 1], raw) <==> knots[n - 1].raw <= raw as real <= knots[n].raw;
    }
  }

  /** A segment that covers the reading other than the first one touches it there. */
  lemma MatchesTouch(kind: Kind, knots: seq<Knot>, raw: int, j: nat)
    requires Increasing(knots) && j < |Segments(kind, knots)| && Covers(Segments(kind, knots)[j], raw)
    ensures var i := FirstMatch(Segments(kind, knots), raw);
      0 <= i <= j && (i < j ==> i + 1 == j && raw as real == knots[j].raw)
  {
    var segs := Segments(kind, knots);
    var i := FirstMatch(segs, raw);
    EndsOfSegment(kind, knots, i);
    EndsOfSegment(kind, knots, j);
    hide Segments, FirstMatch;
    if i < j {
      assert knots[i + 1].raw >= raw as real >= knots[j].raw;
    }
  }

  lemma EndsOfSegment(kind: Kind, knots: seq<Knot>, i: nat)
    requires i < |Segments(kind, knots)|
    ensures Segments(kind, knots)[i].from == knots[i].raw && Segments(kind, knots)[i].to == knots[i + 1].raw
  {
  }

  /** Linear conversion does not depend on which of the covering segments is used. */
  lemma AnySegmentWillDo(knots: seq<Knot>, offset: real, raw: int, j: nat)
    requires Increasing(knots) && j < |Segments(Linear, knots)| && Covers(Segments(Linear, knots)[j], raw)
    ensures Convert(Linear, Segments(Linear, knots), offset, raw)
            == Some(ConvertWith(Linear, Segments(Linear, knots)[j], offset, raw))
  {
    hide Line, ConvertWith, FirstMatch, Segments, SegmentOf;
    MatchesTouch(Linear, knots, raw, j);
    var i := FirstMatch(Segments(Linear, knots), raw);
    SegmentIsLine(knots[i], knots[i + 1], offset, raw);
    SegmentIsLine(knots[j], knots[j + 1], offset, raw);
    if i < j {
      LineBetween(knots[i], knots[j], raw as real);
      LineBetween(knots[j], knots[j + 1], raw as real);
    }
  }

  /** Linear conversion succeeds exactly on the covered range, with a value between those
      of the two knots around the reading. */
  lemma LinearMeaning(knots: seq<Knot>, offset: real, raw: int)
    requires |knots| >= 2 && Increasing(knots)
    ensures var r := Convert(Linear, Segments(Linear, knots), offset, raw);
      && (r.Some? <==> knots[0].raw <= raw as real <= knots[|knots| - 1].raw)
      && (r.Some? ==> exists i :: 0 <= i < |knots| - 1 && knots[i].raw <= raw as real <= knots[i + 1].raw
                                  && r.value == offset + Line(knots[i], knots[i + 1], raw as real)
                                  && Between(knots[i].val, r.value - offset, knots[i + 1].val))
  {
    hide Line, ConvertWith, FirstMatch, Segments, Between;
    CoveredRange(Linear, knots, raw);
    var i := FirstMatch(Segments(Linear, knots), raw);
    if i >= 0 {
      hide Slope;
      assert Covers(SegmentOf(Linear, knots[i], knots[i + 1]), raw);
      SegmentIsLine(knots[i], knots[i + 1], offset, raw);
      LineBetween(knots[i], knots[i + 1], raw as real);
    }
  }

  /** Linear conversion returns the value of every knot it is asked for. */
  lemma LinearHitsKnots(knots: seq<Knot>, offset: real, raw: int, k: nat)
    requires |knots| >= 2 && Increasing(knots) && k < |knots| && raw as real == knots[k].raw
    ensures Convert(Linear, Segments(Linear, knots), offset, raw) == Some(offset + knots[k].val)
  {
    hide Line, ConvertWith, FirstMatch, Convert, Slope;
    var j := if k == 0 then 0 else k - 1;
    assert Covers(Segments(Linear, knots)[j], raw);
    AnySegmentWillDo(knots, offset, raw, j);
    SegmentIsLine(knots[j], knots[j + 1], offset, raw);
    LineBetween(knots[j], knots[j + 1], raw as real);
  }

  ghost predicate Rising(knots: seq<Knot>)
  {
    forall i, j :: 0 <= i < j < |knots| ==> knots[i].val <= knots[j].val
  }

  /** On one segment the line rises with the reading. */
  lemma LineRises(a: Knot, b: Knot, x: real, y: real)
    requires a.raw < b.raw && a.val <= b.val && x <= y
    ensures Line(a, b, x) <= Line(a, b, y)
  {
    var q, d := Slope(a, b), b.raw - a.raw;
    assert q * d == b.val - a.val && q >= 0.0;
    MulMono(q, x - a.raw, y - a.raw);
  }

  /** A smaller reading is found in the same or an earlier segment. */
  lemma MatchesInOrder(knots: seq<Knot>, x: int, y: int)
    requires Increasing(knots) && x <= y
    requires FirstMatch(Segments(Linear, knots), x) >= 0 && FirstMatch(Segments(Linear, knots), y) >= 0
    ensures FirstMatch(Segments(Linear, knots), x) <= FirstMatch(Segments(Linear, knots), y)
  {
    hide Slope, FirstMatch;
    var segs := Segments(Linear, knots);
    var i, j := FirstMatch(segs, x), FirstMatch(segs, y);
    assert segs[i] == SegmentOf(Linear, knots[i], knots[i + 1]) && segs[j] == SegmentOf(Linear, knots[j], knots[j + 1]);
    assert Covers(segs[i], x) && Covers(segs[j], y);
  }

  /** If the knot values rise, the conversion is monotone over the whole range. */
  lemma LinearMonotone(knots: seq<Knot>, offset: real, x: int, y: int)
    requires |knots| >= 2 && Increasing(knots) && Rising(knots) && x <= y
    requires knots[0].raw <= x as real && y as real <= knots[|knots| - 1].raw
    ensures var segs := Segments(Linear, knots);
      var rx, ry := Convert(Linear, segs, offset, x), Convert(Linear, segs, offset, y);
      rx.Some? && ry.Some? && rx.value <= ry.value
  {
    hide Line, ConvertWith, FirstMatch, Segments, Slope;
    CoveredRange(Linear, knots, x);
    CoveredRange(Linear, knots, y);
    MatchesInOrder(knots, x, y);
    var i, j := FirstMatch(Segments(Linear, knots), x), FirstMatch(Segments(Linear, knots), y);
    assert Covers(SegmentOf(Linear, knots[i], knots[i + 1]), x);
    assert Covers(SegmentOf(Linear, knots[j], knots[j + 1]), y);
    SegmentIsLine(knots[i], knots[i + 1], offset, x);
    SegmentIsLine(knots[j], knots[j + 1], offset, y);
    LinesInOrder(knots, i, j, x as real, y as real);
  }

  /** Lines of the same or a later segment are not lower. */
  lemma LinesInOrder(knots: seq<Knot>, i: nat, j: nat, x: real, y: real)
    requires Increasing(knots) && Rising(knots) && i <= j < |knots| - 1 && x <= y
    requires knots[i].raw <= x <= knots[i + 1].raw && knots[j].raw <= y <= knots[j + 1].raw
    ensures Line(knots[i], knots[i + 1], x) <= Line(knots[j], knots[j + 1], y)
  {
    hide Line, Slope;
    LineBetween(knots[i], knots[i + 1], x);
    LineBetween(knots[j], knots[j + 1], y);
    if i == j { LineRises(knots[i], knots[i + 1], x, y); }
  }

  /** The table form is a step function: the value of knot i on (raw_i, raw_i+1], and the
      first value also at the first knot. */
  lemma TableMeaning(knots: seq<Knot>, offset: real, raw: int)
    requires |knots| >= 2 && Increasing(knots)
    ensures var r := Convert(TableMap, Segments(TableMap, knots), offset, raw);
      && (r.Some? <==> knots[0].raw <= raw as real <= knots[|knots| - 1].raw)
      && (raw as real == knots[0].raw ==> r == Some(offset + knots[0].val))
      && (forall i :: 0 <= i < |knots| - 1 && knots[i].raw < raw as real <= knots[i + 1].raw ==>
            r == Some(offset + knots[i].val))
  {
    hide FirstMatch, Slope, Segments;
    CoveredRange(TableMap, knots, raw);
    if raw as real == knots[0].raw {
      StepAt(knots, raw, 0);
      assert Segments(TableMap, knots)[0] == SegmentOf(TableMap, knots[0], knots[1]);
    }
    forall i | 0 <= i < |knots| - 1 && knots[i].raw < raw as real <= knots[i + 1].raw
      ensures FirstMatch(Segments(TableMap, knots), raw) == i
    {
      StepAt(knots, raw, i);
    }
  }

  lemma StepAt(knots: seq<Knot>, raw: int, i: nat)
    requires Increasing(knots) && i < |knots| - 1
    requires knots[i].raw < raw as real <= knots[i + 1].raw || (i == 0 && raw as real == knots[0].raw)
    ensures FirstMatch(Segments(TableMap, knots), raw) == i
  {
    hide FirstMatch, Slope;
    assert knots[i].raw < knots[i + 1].raw;
    assert Segments(TableMap, knots)[i] == SegmentOf(TableMap, knots[i], knots[i + 1]);
    assert Covers(Segments(TableMap, knots)[i], raw);
    MatchesTouch(TableMap, knots, raw, i);
  }

  /** The ratio form is affine in the reading: offset and intercept at 0, and the slope more for
      each step. The inverse form is 0 at 0; elsewhere what is left of its value without
      offset and intercept, times the reading, is the slope. */
  lemma RatioMeaning(seg: Segment, offset: real, x: int, steps: int)
    ensures ConvertWith(Ratio, seg, offset, 0) == offset + seg.intercept
    ensures ConvertWith(Ratio, seg, offset, x + steps) - ConvertWith(Ratio, seg, offset, x) == steps as real * seg.slope
    ensures ConvertWith(ORatio, seg, offset, 0) == 0.0
    ensures x != 0 ==> (ConvertWith(ORatio, seg, offset, x) - offset - seg.intercept) * x as real == seg.slope
  {
    assert (x + steps) as real == x as real + steps as real;
  }
}
