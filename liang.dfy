/** Liang-Barsky line clipping. The segment from (x1, y1) by (dx, dy) is
    P(u) = (x1 + dx * u, y1 + dy * u) for 0 <= u <= 1. Each window edge i gives
    the constraint u * p[i] <= q[i]; u1 collects the largest entering bound
    and u2 the smallest leaving bound. */
module Liang {
  import opened Geometry

  /** The window edges as this clipper reads them: left and bottom from the
      lower-left corner, right from the lower-right corner, top from the
      upper-right corner. */
  function LeftEdge(window: Window): real reads window.xminYmin { window.xminYmin.xNorm }
  function RightEdge(window: Window): real reads window.xmaxYmin { window.xmaxYmin.xNorm }
  function BottomEdge(window: Window): real reads window.xminYmin { window.xminYmin.yNorm }
  function TopEdge(window: Window): real reads window.xmaxYmax { window.xmaxYmax.yNorm }

  /** The p and q vectors of the four constraints: left, right, bottom, top. */
  function PVec(dx: real, dy: real): seq<real>
  {
    [-dx, dx, -dy, dy]
  }

  function QVec(x1: real, y1: real, left: real, right: real, bottom: real, top: real): seq<real>
  {
    [x1 - left, right - x1, y1 - bottom, top - y1]
  }

  /** The point (x, y) lies in the closed rectangle. */
  predicate InRect(x: real, y: real, left: real, right: real, bottom: real, top: real)
  {
    left <= x <= right && bottom <= y <= top
  }

  /** u meets every constraint. */
  predicate Meets(p: seq<real>, q: seq<real>, u: real)
    requires |p| == |q|
  {
    forall i :: 0 <= i < |p| ==> u * p[i] <= q[i]
  }

  /** With four constraints, Meets is their conjunction. */
  lemma MeetsFour(p: seq<real>, q: seq<real>, u: real)
    requires |p| == 4 && |q| == 4
    ensures Meets(p, q, u) <==>
      u * p[0] <= q[0] && u * p[1] <= q[1] && u * p[2] <= q[2] && u * p[3] <= q[3]
  {
    if u * p[0] <= q[0] && u * p[1] <= q[1] && u * p[2] <= q[2] && u * p[3] <= q[3] {
      forall i | 0 <= i < 4
        ensures u * p[i] <= q[i]
      {
        if i == 0 {
        } else if i == 1 {
        } else if i == 2 {
        } else {
        }
      }
    }
  }

  /** The two constraints of one axis say that x1 + d * u lies in [lo, hi]. */
  lemma AxisConstraints(x1: real, d: real, u: real, lo: real, hi: real)
    ensures (u * -d <= x1 - lo && u * d <= hi - x1) <==> lo <= x1 + d * u <= hi
  {
    assert u * -d == -(d * u) && u * d == d * u;
  }

  /** Outcome of scanning the constraints: a parallel edge outside the window,
      or the parameter range [u1, u2] still open. */
  datatype Scan = Parallel | Range(u1: real, u2: real)

  /** The first n constraints, in order, starting from [0, 1]. A zero p[i]
      (the line is parallel to that edge) rejects when q[i] < 0; a negative
      p[i] raises u1 to q[i] / p[i], a positive one lowers u2 to it. */
  function ScanUpTo(p: seq<real>, q: seq<real>, n: nat): Scan
    requires n <= |p| && n <= |q|
  {
    if n == 0 then Range(0.0, 1.0)
    else
      match ScanUpTo(p, q, n - 1)
      case Parallel => Parallel
      case Range(u1, u2) =>
        var i := n - 1;
        if p[i] == 0.0 then
          if q[i] < 0.0 then Parallel else Range(u1, u2)
        else
          var r := q[i] / p[i];
          if p[i] < 0.0 then Range(if u1 >= r then u1 else r, u2)
          else Range(u1, if u2 <= r then u2 else r)
  }

  /** u1 starts at 0 and only grows, u2 starts at 1 and only shrinks. */
  lemma {:induction false} ScanMonotone(p: seq<real>, q: seq<real>, m: nat, n: nat)
    requires m <= n <= |p| && n <= |q|
    requires ScanUpTo(p, q, n).Range?
    ensures ScanUpTo(p, q, m).Range?
    ensures ScanUpTo(p, q, m).u1 <= ScanUpTo(p, q, n).u1
    ensures ScanUpTo(p, q, n).u2 <= ScanUpTo(p, q, m).u2
    decreases n - m
  {
    if m < n {
      ScanMonotone(p, q, m, n - 1);
    }
  }

  /** Hence 0 <= u1 and u2 <= 1 throughout. */
  lemma ScanUnit(p: seq<real>, q: seq<real>, n: nat)
    requires n <= |p| && n <= |q|
    requires ScanUpTo(p, q, n).Range?
    ensures 0.0 <= ScanUpTo(p, q, n).u1 && ScanUpTo(p, q, n).u2 <= 1.0
  {
    ScanMonotone(p, q, 0, n);
  }

  /** u * p <= q for p < 0 and u at least q / p. */
  lemma EnteringBound(p: real, q: real, u: real)
    requires p < 0.0 && q / p <= u
    ensures u * p <= q
  {
    assert (q / p) * p == q;
    assert (u - q / p) * p <= 0.0;
  }

  /** u * p <= q for p > 0 and u at most q / p. */
  lemma LeavingBound(p: real, q: real, u: real)
    requires p > 0.0 && u <= q / p
    ensures u * p <= q
  {
    assert (q / p) * p == q;
    assert (q / p - u) * p >= 0.0;
  }

  /** Conversely, u * p <= q with p < 0 puts u at or above q / p. */
  lemma EnteringBoundBack(p: real, q: real, u: real)
    requires p < 0.0 && u * p <= q
    ensures q / p <= u
  {
    assert (q / p) * p == q;
    assert (u - q / p) * p <= 0.0;
    assert (u - q / p) * (-p) >= 0.0;
    assert u - q / p == ((u - q / p) * (-p)) / (-p);
  }

  /** ... and with p > 0 at or below q / p. */
  lemma LeavingBoundBack(p: real, q: real, u: real)
    requires p > 0.0 && u * p <= q
    ensures u <= q / p
  {
    assert (q / p) * p == q;
    assert (q / p - u) * p >= 0.0;
    assert q / p - u == ((q / p - u) * p) / p;
  }

  /** Soundness: every u in the final range meets every constraint scanned. */
  lemma {:induction false} ScanSound(p: seq<real>, q: seq<real>, n: nat, u: real)
    requires n <= |p| && n <= |q|
    requires ScanUpTo(p, q, n).Range?
    requires ScanUpTo(p, q, n).u1 <= u <= ScanUpTo(p, q, n).u2
    ensures forall i :: 0 <= i < n ==> u * p[i] <= q[i]
  {
    if n > 0 {
      var i := n - 1;
      ScanMonotone(p, q, n - 1, n);
      ScanSound(p, q, n - 1, u);
      if p[i] < 0.0 {
        EnteringBound(p[i], q[i], u);
      } else if p[i] > 0.0 {
        LeavingBound(p[i], q[i], u);
      }
    }
  }

  /** Completeness: a u in [0, 1] that meets every constraint scanned was never
      cut off, so no parallel edge rejected and u lies in the range. */
  lemma {:induction false} ScanComplete(p: seq<real>, q: seq<real>, n: nat, u: real)
    requires n <= |p| && n <= |q|
    requires 0.0 <= u <= 1.0
    requires forall i :: 0 <= i < n ==> u * p[i] <= q[i]
    ensures ScanUpTo(p, q, n).Range?
    ensures ScanUpTo(p, q, n).u1 <= u <= ScanUpTo(p, q, n).u2
  {
    if n > 0 {
      var i := n - 1;
      ScanComplete(p, q, n - 1, u);
      assert u * p[i] <= q[i];
      if p[i] < 0.0 {
        EnteringBoundBack(p[i], q[i], u);
      } else if p[i] > 0.0 {
        LeavingBoundBack(p[i], q[i], u);
      }
    }
  }

  /** The loop of the clipper over the four constraints, leaving early on a
      parallel edge outside the window. */
  method ScanParameters(p: seq<real>, q: seq<real>) returns (s: Scan)
    requires |p| == 4 && |q| == 4
    ensures s == ScanUpTo(p, q, |p|)
  {
    var u1, u2 := 0.0, 1.0;
    for i := 0 to 4
      invariant ScanUpTo(p, q, i) == Range(u1, u2)
    {
      if p[i] == 0.0 {
        if q[i] < 0.0 {
          ParallelStays(p, q, i + 1, |p|);
          return Parallel;
        }
      } else {
        var r := q[i] / p[i];
        if p[i] < 0.0 {
          u1 := if u1 >= r then u1 else r;
        } else {
          u2 := if u2 <= r then u2 else r;
        }
      }
    }
    return Range(u1, u2);
  }

  /** Once a parallel edge has rejected, later constraints do not matter. */
  lemma {:induction false} ParallelStays(p: seq<real>, q: seq<real>, m: nat, n: nat)
    requires m <= n <= |p| && n <= |q|
    requires ScanUpTo(p, q, m) == Parallel
    ensures ScanUpTo(p, q, n) == Parallel
    decreases n - m
  {
    if m < n {
      ParallelStays(p, q, m, n - 1);
    }
  }

  /** Result of clipping one segment, as values: hidden, or the two endpoints. */
  datatype Clipped = Hidden | Shown(p1: PontoData, p2: PontoData)

  /** The normalized-coordinate comparison of Ponto.CompareNormCoordinates, on values. */
  predicate SameNorm(a: PontoData, b: PontoData)
  {
    Round8(a.xNorm) == Round8(b.xNorm) && Round8(a.yNorm) == Round8(b.yNorm) && a.visible == b.visible
  }

  lemma SameNormAgrees(a: Ponto, b: Ponto)
    ensures a.CompareNormCoordinates(b) <==> SameNorm(Data(a), Data(b))
  {
  }

  /** The scan of the segment a-b against the window edges. */
  function ScanSegment(a: PontoData, b: PontoData, left: real, right: real, bottom: real, top: real): Scan
  {
    var dx, dy := b.xNorm - a.xNorm, b.yNorm - a.yNorm;
    var p := PVec(dx, dy);
    ScanUpTo(p, QVec(a.xNorm, a.yNorm, left, right, bottom, top), |p|)
  }

  /** The first visible endpoint before the nudge: a itself when u1 is 0,
      else P(u1) tagged as an entering intersection. */
  function EnteringPoint(a: PontoData, b: PontoData, u1: real): PontoData
  {
    if u1 > 0.0 then
      a.(xNorm := a.xNorm + (b.xNorm - a.xNorm) * u1, yNorm := a.yNorm + (b.yNorm - a.yNorm) * u1,
         intersecao := true, orientacao := Entrando)
    else a
  }

  /** The second visible endpoint before the nudge: b itself when u2 is 1,
      else P(u2) tagged as a leaving intersection (b's other fields kept). */
  function LeavingPoint(a: PontoData, b: PontoData, u2: real): PontoData
  {
    if u2 < 1.0 then
      b.(xNorm := a.xNorm + (b.xNorm - a.xNorm) * u2, yNorm := a.yNorm + (b.yNorm - a.yNorm) * u2,
         intersecao := true, orientacao := Saindo)
    else b
  }

  /** The last step of the clipper: two endpoints that compare equal on
      normalized coordinates are set apart by moving the second one by
      -Epsilon in x and in y and untagging the first; others are kept. */
  function SetApartValues(q1: PontoData, q2: PontoData): (c: Clipped)
    ensures c.Shown?
  {
    if SameNorm(q1, q2) then
      Shown(q1.(orientacao := NaoUtilizada), q2.(xNorm := q2.xNorm - Epsilon, yNorm := q2.yNorm - Epsilon))
    else Shown(q1, q2)
  }

  /** The whole clipper on values: hidden on a parallel edge outside the
      window or on an empty range; otherwise the entering and leaving points,
      where two points that compare equal on normalized coordinates are set
      apart by moving the second one by -Epsilon in x and in y and untagging
      the first. */
  function Clip(a: PontoData, b: PontoData, left: real, right: real, bottom: real, top: real): Clipped
  {
    match ScanSegment(a, b, left, right, bottom, top)
    case Parallel => Hidden
    case Range(u1, u2) =>
      if u1 > u2 then Hidden
      else
        SetApartValues(EnteringPoint(a, b, u1), LeavingPoint(a, b, u2))
  }

  /** The point of the segment a-b at parameter u lies in the window. */
  predicate SegmentPointInside(a: PontoData, b: PontoData, u: real, left: real, right: real, bottom: real, top: real)
  {
    InRect(a.xNorm + (b.xNorm - a.xNorm) * u, a.yNorm + (b.yNorm - a.yNorm) * u, left, right, bottom, top)
  }

  /** Every parameter in the final range meets every constraint. */
  lemma ScanSoundAll(p: seq<real>, q: seq<real>)
    requires |p| == |q| && ScanUpTo(p, q, |p|).Range?
    ensures forall u :: ScanUpTo(p, q, |p|).u1 <= u <= ScanUpTo(p, q, |p|).u2 ==> Meets(p, q, u)
  {
    forall u | ScanUpTo(p, q, |p|).u1 <= u <= ScanUpTo(p, q, |p|).u2
      ensures Meets(p, q, u)
    {
      ScanSound(p, q, |p|, u);
    }
  }

  /** Every parameter in [0, 1] meeting every constraint is in the final range. */
  lemma ScanCompleteAll(p: seq<real>, q: seq<real>)
    requires |p| == |q|
    ensures forall u :: 0.0 <= u <= 1.0 && Meets(p, q, u) ==>
      ScanUpTo(p, q, |p|).Range? && ScanUpTo(p, q, |p|).u1 <= u <= ScanUpTo(p, q, |p|).u2
  {
    forall u | 0.0 <= u <= 1.0 && Meets(p, q, u)
      ensures ScanUpTo(p, q, |p|).Range? && ScanUpTo(p, q, |p|).u1 <= u <= ScanUpTo(p, q, |p|).u2
    {
      ScanComplete(p, q, |p|, u);
    }
  }

  /** The four constraints at u say exactly that the point of the segment a-b
      at parameter u lies in the window. */
  lemma ConstraintsMeanInside(a: PontoData, b: PontoData, u: real, left: real, right: real, bottom: real, top: real)
    ensures Meets(PVec(b.xNorm - a.xNorm, b.yNorm - a.yNorm), QVec(a.xNorm, a.yNorm, left, right, bottom, top), u) <==>
            SegmentPointInside(a, b, u, left, right, bottom, top)
  {
    var p, q := PVec(b.xNorm - a.xNorm, b.yNorm - a.yNorm), QVec(a.xNorm, a.yNorm, left, right, bottom, top);
    MeetsFour(p, q, u);
    AxisConstraints(a.xNorm, b.xNorm - a.xNorm, u, left, right);
    AxisConstraints(a.yNorm, b.yNorm - a.yNorm, u, bottom, top);
    assert p[0] == -(b.xNorm - a.xNorm) && p[1] == b.xNorm - a.xNorm && p[2] == -(b.yNorm - a.yNorm) && p[3] == b.yNorm - a.yNorm;
    assert q[0] == a.xNorm - left && q[1] == right - a.xNorm && q[2] == a.yNorm - bottom && q[3] == top - a.yNorm;
  }

  /** On a segment, meeting the constraints is lying in the window. */
  lemma SegmentConstraints(a: PontoData, b: PontoData, left: real, right: real, bottom: real, top: real)
    ensures var dx, dy := b.xNorm - a.xNorm, b.yNorm - a.yNorm;
      forall u :: Meets(PVec(dx, dy), QVec(a.xNorm, a.yNorm, left, right, bottom, top), u) <==>
                  SegmentPointInside(a, b, u, left, right, bottom, top)
  {
    var dx, dy := b.xNorm - a.xNorm, b.yNorm - a.yNorm;
    forall u
      ensures Meets(PVec(dx, dy), QVec(a.xNorm, a.yNorm, left, right, bottom, top), u) <==>
              SegmentPointInside(a, b, u, left, right, bottom, top)
    {
      ConstraintsMeanInside(a, b, u, left, right, bottom, top);
    }
  }

  /** The scan of a segment rejects (a parallel edge outside, or an empty
      range) exactly when no point of the segment lies in the window. */
  lemma ScanSegmentRejectsExactly(a: PontoData, b: PontoData, left: real, right: real, bottom: real, top: real)
    ensures var s := ScanSegment(a, b, left, right, bottom, top);
      (s.Parallel? || s.u1 > s.u2) <==>
      forall u :: 0.0 <= u <= 1.0 ==> !SegmentPointInside(a, b, u, left, right, bottom, top)
  {
    var dx, dy := b.xNorm - a.xNorm, b.yNorm - a.yNorm;
    var p, q := PVec(dx, dy), QVec(a.xNorm, a.yNorm, left, right, bottom, top);
    var s := ScanUpTo(p, q, |p|);
    SegmentConstraints(a, b, left, right, bottom, top);
    ScanCompleteAll(p, q);
    if s.Range? && s.u1 <= s.u2 {
      ScanUnit(p, q, |p|);
      ScanSoundAll(p, q);
      assert Meets(p, q, s.u1);
      assert SegmentPointInside(a, b, s.u1, left, right, bottom, top);
    }
  }

  /** A range that is not empty lies within [0, 1] and is exactly the set of
      parameters in [0, 1] whose point lies in the window. */
  lemma ScanSegmentRange(a: PontoData, b: PontoData, left: real, right: real, bottom: real, top: real)
    requires ScanSegment(a, b, left, right, bottom, top).Range?
    ensures var s := ScanSegment(a, b, left, right, bottom, top);
      && 0.0 <= s.u1 && s.u2 <= 1.0
      && (forall u :: s.u1 <= u <= s.u2 ==> SegmentPointInside(a, b, u, left, right, bottom, top))
      && (forall u :: 0.0 <= u <= 1.0 && SegmentPointInside(a, b, u, left, right, bottom, top) ==> s.u1 <= u <= s.u2)
  {
    var dx, dy := b.xNorm - a.xNorm, b.yNorm - a.yNorm;
    var p, q := PVec(dx, dy), QVec(a.xNorm, a.yNorm, left, right, bottom, top);
    SegmentConstraints(a, b, left, right, bottom, top);
    ScanUnit(p, q, |p|);
    ScanSoundAll(p, q);
    ScanCompleteAll(p, q);
  }

  /** A hidden result means that no point of the segment lies in the window;
      a shown one means that some does. */
  lemma ClipHiddenExactly(a: PontoData, b: PontoData, left: real, right: real, bottom: real, top: real)
    ensures Clip(a, b, left, right, bottom, top).Hidden? <==>
      forall u :: 0.0 <= u <= 1.0 ==> !SegmentPointInside(a, b, u, left, right, bottom, top)
  {
    ScanSegmentRejectsExactly(a, b, left, right, bottom, top);
  }

  /** A shown result is the part of the segment inside the window: the
      parameters satisfy 0 <= u1 <= u2 <= 1, every point between them lies in
      the window, every point of the segment in the window lies between them. */
  lemma ClipShownIsInsidePart(a: PontoData, b: PontoData, left: real, right: real, bottom: real, top: real)
    requires Clip(a, b, left, right, bottom, top).Shown?
    ensures var s := ScanSegment(a, b, left, right, bottom, top);
      && s.Range? && 0.0 <= s.u1 <= s.u2 <= 1.0
      && (forall u :: s.u1 <= u <= s.u2 ==> SegmentPointInside(a, b, u, left, right, bottom, top))
      && (forall u :: 0.0 <= u <= 1.0 && SegmentPointInside(a, b, u, left, right, bottom, top) ==> s.u1 <= u <= s.u2)
  {
    ScanSegmentRange(a, b, left, right, bottom, top);
  }

  /** The entering point sits at P(u1) for u1 >= 0 (at a itself for u1 = 0). */
  lemma EnteringAt(a: PontoData, b: PontoData, u1: real)
    requires 0.0 <= u1
    ensures EnteringPoint(a, b, u1).xNorm == a.xNorm + (b.xNorm - a.xNorm) * u1
    ensures EnteringPoint(a, b, u1).yNorm == a.yNorm + (b.yNorm - a.yNorm) * u1
  {
    if u1 == 0.0 {
      assert (b.xNorm - a.xNorm) * u1 == 0.0 && (b.yNorm - a.yNorm) * u1 == 0.0;
    }
  }

  /** The leaving point sits at P(u2) for u2 <= 1 (at b itself for u2 = 1). */
  lemma LeavingAt(a: PontoData, b: PontoData, u2: real)
    requires u2 <= 1.0
    ensures LeavingPoint(a, b, u2).xNorm == a.xNorm + (b.xNorm - a.xNorm) * u2
    ensures LeavingPoint(a, b, u2).yNorm == a.yNorm + (b.yNorm - a.yNorm) * u2
  {
    if u2 == 1.0 {
      assert (b.xNorm - a.xNorm) * u2 == b.xNorm - a.xNorm && (b.yNorm - a.yNorm) * u2 == b.yNorm - a.yNorm;
    }
  }

  /** A shown result is made of the entering and leaving points, the second
      moved by -Epsilon in each coordinate (and the first untagged) when the two
      compare equal on normalized coordinates. */
  lemma ClipShownParts(a: PontoData, b: PontoData, left: real, right: real, bottom: real, top: real)
    requires Clip(a, b, left, right, bottom, top).Shown?
    ensures var s := ScanSegment(a, b, left, right, bottom, top);
      var c := Clip(a, b, left, right, bottom, top);
      var q1, q2 := EnteringPoint(a, b, s.u1), LeavingPoint(a, b, s.u2);
      && s.Range? && s.u1 <= s.u2
      && c.p1 == (if SameNorm(q1, q2) then q1.(orientacao := NaoUtilizada) else q1)
      && c.p2 == (if SameNorm(q1, q2) then q2.(xNorm := q2.xNorm - Epsilon, yNorm := q2.yNorm - Epsilon) else q2)
  {
  }

  /** The tags of a shown result: the first endpoint is an entering
      intersection exactly when u1 > 0 (untagged by the nudge), the second a
      leaving one exactly when u2 < 1; an endpoint that is not moved keeps
      every field of the original. */
  lemma ClipShownTags(a: PontoData, b: PontoData, left: real, right: real, bottom: real, top: real)
    requires Clip(a, b, left, right, bottom, top).Shown?
    ensures var s := ScanSegment(a, b, left, right, bottom, top);
      var c := Clip(a, b, left, right, bottom, top);
      var q1, q2 := EnteringPoint(a, b, s.u1), LeavingPoint(a, b, s.u2);
      var nudged := SameNorm(q1, q2);
      && s.Range?
      && (s.u1 > 0.0 ==> c.p1.intersecao && c.p1.orientacao == (if nudged then NaoUtilizada else Entrando))
      && (s.u1 <= 0.0 ==> c.p1 == (if nudged then a.(orientacao := NaoUtilizada) else a))
      && (s.u2 < 1.0 ==> c.p2.intersecao && c.p2.orientacao == Saindo)
      && (s.u2 >= 1.0 && !nudged ==> c.p2 == b)
      && c.p1.cor == a.cor && c.p2.cor == b.cor && c.p1.visible == a.visible && c.p2.visible == b.visible
  {
  }

  /** A fresh copy of ponto; when cut holds, the copy is moved to the point
      (x0, y0) + (deltaX, deltaY) * u and tagged as an intersection with the
      given orientation. */
  method CutCopy(ponto: Ponto, x0: real, y0: real, deltaX: real, deltaY: real, u: real, cut: bool, tag: Orientacao)
    returns (q: Ponto)
    ensures fresh(q)
    ensures Data(q) == if cut then Data(ponto).(xNorm := x0 + deltaX * u, yNorm := y0 + deltaY * u,
                                                 intersecao := true, orientacao := tag)
                       else Data(ponto)
  {
    q := CopyPonto(ponto);
    if cut {
      q.xNorm := x0 + deltaX * u;
      q.yNorm := y0 + deltaY * u;
      q.intersecao := true;
      q.orientacao := tag;
    }
  }

  /** The accepted branch: reta's endpoints are replaced by fresh points, the
      entering point at u1 and the leaving point at u2, set apart if they
      compare equal, and the line is made visible. */
  method ShowClipped(reta: Reta, u1: real, u2: real, deltaX: real, deltaY: real)
    requires deltaX == reta.ponto2.xNorm - reta.ponto1.xNorm && deltaY == reta.ponto2.yNorm - reta.ponto1.yNorm
    modifies reta
    ensures fresh(reta.ponto1) && fresh(reta.ponto2) && reta.ponto1 != reta.ponto2
    ensures reta.visible && reta.cor == old(reta.cor)
    ensures Shown(Data(reta.ponto1), Data(reta.ponto2)) ==
      SetApartValues(EnteringPoint(old(Data(reta.ponto1)), old(Data(reta.ponto2)), u1),
                     LeavingPoint(old(Data(reta.ponto1)), old(Data(reta.ponto2)), u2))
  {
    ghost var a, b := Data(reta.ponto1), Data(reta.ponto2);
    var q1 := CutCopy(reta.ponto1, reta.ponto1.xNorm, reta.ponto1.yNorm, deltaX, deltaY, u1, u1 > 0.0, Entrando);
    var q2 := CutCopy(reta.ponto2, reta.ponto1.xNorm, reta.ponto1.yNorm, deltaX, deltaY, u2, u2 < 1.0, Saindo);
    assert Data(q1) == EnteringPoint(a, b, u1);
    assert Data(q2) == LeavingPoint(a, b, u2);
    reta.ponto1 := q1;
    reta.ponto2 := q2;
    reta.visible := true;
    SetApart(q1, q2);
  }

  /** Sets two distinct points apart when they compare equal on normalized
      coordinates: the second moves by -Epsilon in x and in y, the first loses
      its tag. */
  method SetApart(q1: Ponto, q2: Ponto)
    requires q1 != q2
    modifies q1, q2
    ensures Shown(Data(q1), Data(q2)) == SetApartValues(old(Data(q1)), old(Data(q2)))
  {
    SameNormAgrees(q1, q2);
    if q1.CompareNormCoordinates(q2) {
      q2.xNorm := q2.xNorm - Epsilon;
      q2.yNorm := q2.yNorm - Epsilon;
      q1.orientacao := NaoUtilizada;
    }
  }

  /** Liang-Barsky clipping of a copy of linha (linha itself is never written:
      the method has no modifies clause). The result is a fresh line whose
      visibility and endpoint fields are those of Clip; a hidden result keeps
      copies of the original endpoints, sharing one object exactly when
      linha's endpoints are one object. */
  method LiangBarskyClipping(window: Window, linha: Reta) returns (res: Reta)
    ensures fresh(res) && fresh(res.ponto1) && fresh(res.ponto2)
    ensures var c := Clip(old(Data(linha.ponto1)), old(Data(linha.ponto2)), old(LeftEdge(window)),
                          old(RightEdge(window)), old(BottomEdge(window)), old(TopEdge(window)));
      && res.visible == c.Shown?
      && (c.Shown? ==> res.ponto1 != res.ponto2 && Data(res.ponto1) == c.p1 && Data(res.ponto2) == c.p2)
      && (c.Hidden? ==> Data(res.ponto1) == old(Data(linha.ponto1)) && Data(res.ponto2) == old(Data(linha.ponto2))
                        && (res.ponto1 == res.ponto2 <==> linha.ponto1 == linha.ponto2))
    ensures res.cor == old(linha.cor)
  {
    var reta := CopyReta(linha);
    ghost var a, b := Data(linha.ponto1), Data(linha.ponto2);
    ghost var left, right, bottom, top := LeftEdge(window), RightEdge(window), BottomEdge(window), TopEdge(window);
    assert Data(reta.ponto1) == a && Data(reta.ponto2) == b;
    var deltaX := reta.ponto2.xNorm - reta.ponto1.xNorm;
    var deltaY := reta.ponto2.yNorm - reta.ponto1.yNorm;
    assert deltaX == b.xNorm - a.xNorm && deltaY == b.yNorm - a.yNorm;
    var p := [-deltaX, deltaX, -deltaY, deltaY];
    var q := [reta.ponto1.xNorm - window.xminYmin.xNorm, window.xmaxYmin.xNorm - reta.ponto1.xNorm,
              reta.ponto1.yNorm - window.xminYmin.yNorm, window.xmaxYmax.yNorm - reta.ponto1.yNorm];
    assert p == PVec(b.xNorm - a.xNorm, b.yNorm - a.yNorm) && q == QVec(a.xNorm, a.yNorm, left, right, bottom, top);
    var s := ScanParameters(p, q);
    assert s == ScanSegment(a, b, left, right, bottom, top);
    if s.Parallel? || s.u1 > s.u2 {
      reta.visible := false;
      return reta;
    }
    ShowClipped(reta, s.u1, s.u2, deltaX, deltaY);
    ClipShownParts(a, b, left, right, bottom, top);
    res := CopyReta(reta);
  }
}
