/** Cohen-Sutherland line clipping, with the Python program's single scratch point
    `p` that every iteration overwrites and installs as the replaced endpoint. */
module Cohen {
  import opened Geometry

  // The window bounds as this clipper reads them.
  function Left(window: Window): real reads window.xminYmin { window.xminYmin.xNorm }
  function Right(window: Window): real reads window.xmaxYmin { window.xmaxYmin.xNorm }
  function Bottom(window: Window): real reads window.xminYmin { window.xminYmin.yNorm }
  function Top(window: Window): real reads window.xminYmax { window.xminYmax.yNorm }

  /** The window has min <= max in both directions (callers must ensure it). */
  predicate WellFormed(window: Window)
    reads window.Footprint()
  {
    Left(window) <= Right(window) && Bottom(window) <= Top(window)
  }

  /** A region code, kept as its four flags. The integer the Python program computes
      is Bits(): TOP = 8, BOTTOM = 4, RIGHT = 2, LEFT = 1; Or, And and
      IsZero are its `|`, `&` and `== 0` (lemma BitsAgree). */
  datatype Outcode = Outcode(top: bool, bottom: bool, right: bool, left: bool)
  {
    function Bits(): bv4
    {
      (if top then 8 else 0) | (if bottom then 4 else 0) | (if right then 2 else 0) | (if left then 1 else 0)
    }

    predicate IsZero()
    {
      !top && !bottom && !right && !left
    }

    function Or(other: Outcode): Outcode
    {
      Outcode(top || other.top, bottom || other.bottom, right || other.right, left || other.left)
    }

    function And(other: Outcode): Outcode
    {
      Outcode(top && other.top, bottom && other.bottom, right && other.right, left && other.left)
    }
  }

  /** The flags and the integer code carry the same information, and the flag
      operations are the integer bit operations. */
  lemma BitsAgree(a: Outcode, b: Outcode)
    ensures a.IsZero() <==> a.Bits() == 0
    ensures a.Or(b).Bits() == a.Bits() | b.Bits()
    ensures a.And(b).Bits() == a.Bits() & b.Bits()
    ensures (a.Bits() & 8 != 0) == a.top && (a.Bits() & 4 != 0) == a.bottom
    ensures (a.Bits() & 2 != 0) == a.right && (a.Bits() & 1 != 0) == a.left
    ensures a == b <==> a.Bits() == b.Bits()
  {
  }

  /** The region code of a point: above is tested before below and right
      before left, so at most one flag of each pair is set. */
  function RegionCode(ponto: Ponto, window: Window): Outcode
    reads ponto, window.Footprint()
  {
    var top := ponto.yNorm > window.xminYmax.yNorm;
    var bottom := !top && ponto.yNorm < window.xminYmin.yNorm;
    var right := ponto.xNorm > window.xmaxYmin.xNorm;
    var left := !right && ponto.xNorm < window.xminYmin.xNorm;
    Outcode(top, bottom, right, left)
  }

  /** The code is one of the nine the Python program can produce, and it is 0
      exactly when the point lies in the closed window. */
  lemma RegionCodeMeaning(ponto: Ponto, window: Window)
    ensures var c := RegionCode(ponto, window);
      && c.Bits() in {0, 1, 2, 4, 5, 6, 8, 9, 10}
      && (c.IsZero() <==> Bottom(window) <= ponto.yNorm <= Top(window) && Left(window) <= ponto.xNorm <= Right(window))
  {
  }

  /** Number of directions (vertical, horizontal) in which a code says "outside". */
  function Parts(c: Outcode): nat
  {
    (if c.top || c.bottom then 1 else 0) + (if c.right || c.left then 1 else 0)
  }

  // Two field identities about the slope m = dy / dx.
  lemma DivBySlope(a: real, dx: real, dy: real)
    requires dx != 0.0 && dy != 0.0
    ensures dy / dx != 0.0
    ensures (a / (dy / dx)) * dy == a * dx
  {
    var m := dy / dx;
    assert m * dx == dy;
    assert (a / m) * m == a;
    calc {
      (a / m) * dy;
      (a / m) * (m * dx);
      ((a / m) * m) * dx;
      a * dx;
    }
  }

  lemma MulBySlope(a: real, dx: real, dy: real)
    requires dx != 0.0
    ensures (dy / dx * a) * dx == a * dy
  {
    var m := dy / dx;
    assert m * dx == dy;
    calc {
      (m * a) * dx;
      a * (m * dx);
      a * dy;
    }
  }

  lemma MulNonNeg(a: real, b: real)
    requires 0.0 <= a && 0.0 <= b
    ensures 0.0 <= a * b
  {
  }

  lemma DivideOut(e: real, d: real, c: real)
    requires d > 0.0 && e * d <= c * d
    ensures e <= c
  {
    assert (c - e) * d == c * d - e * d;
    assert c - e == ((c - e) * d) / d;
  }

  /** Multiplying by a nonnegative factor keeps the order. */
  lemma MulMonotone(a: real, b: real, k: real)
    requires a <= b && 0.0 <= k
    ensures a * k <= b * k
  {
    MulNonNeg(b - a, k);
    assert (b - a) * k == b * k - a * k;
  }

  /** Multiplying by a nonpositive factor reverses the order. */
  lemma MulAntitone(a: real, b: real, k: real)
    requires a <= b && k <= 0.0
    ensures b * k <= a * k
  {
    MulNonNeg(b - a, -k);
    assert (b - a) * -k == a * k - b * k;
  }

  lemma MulCommutes(a: real, b: real)
    ensures a * b == b * a
  {
  }

  /** e * d == u * f with u between 0 and d puts e between 0 and f. */
  lemma ScaledBetween(e: real, f: real, u: real, d: real)
    requires d > 0.0 && 0.0 <= u <= d && e * d == u * f
    ensures 0.0 <= e <= f || f <= e <= 0.0
  {
    MulCommutes(d, f);
    if f >= 0.0 {
      MulMonotone(0.0, u, f);
      DivideOut(0.0, d, e);
      MulMonotone(u, d, f);
      DivideOut(e, d, f);
    } else {
      MulAntitone(0.0, u, f);
      DivideOut(e, d, 0.0);
      MulAntitone(u, d, f);
      DivideOut(f, d, e);
    }
  }

  /** A point on the line through A and B whose x lies between A's and B's has
      its y between theirs. */
  lemma BetweenOnSegment(xa: real, ya: real, xb: real, yb: real, x: real, y: real)
    requires xa != xb
    requires Collinear(xa, ya, xb, yb, x, y)
    requires xa <= x <= xb || xb <= x <= xa
    ensures ya <= y <= yb || yb <= y <= ya
  {
    if xa < xb {
      ScaledBetween(y - ya, yb - ya, x - xa, xb - xa);
    } else {
      assert (y - ya) * (xa - xb) == (xa - x) * (yb - ya);
      ScaledBetween(y - ya, yb - ya, xa - x, xa - xb);
    }
  }

  /** A and B on one line with the point (x, y). */
  predicate Collinear(xa: real, ya: real, xb: real, yb: real, x: real, y: real)
  {
    (x - xa) * (yb - ya) == (y - ya) * (xb - xa)
  }

  /** The slope of a line that is neither vertical nor horizontal is not 0. */
  lemma SlopeNonZero(xa: real, ya: real, xb: real, yb: real)
    requires xa != xb && ya != yb
    ensures (yb - ya) / (xb - xa) != 0.0
    ensures 0.0 / ((yb - ya) / (xb - xa)) == 0.0
  {
    DivBySlope(0.0, xb - xa, yb - ya);
  }

  /** The point of the line AB at height y0, as the clipper computes it. */
  lemma CrossingAtY(xa: real, ya: real, xb: real, yb: real, y0: real)
    requires xa != xb && ya != yb
    ensures Collinear(xa, ya, xb, yb, xa + (y0 - ya) / ((yb - ya) / (xb - xa)), y0)
  {
    DivBySlope(y0 - ya, xb - xa, yb - ya);
    var q := (y0 - ya) / ((yb - ya) / (xb - xa));
    assert (xa + q) - xa == q;
  }

  /** The point of the line AB at abscissa x0, as the clipper computes it. */
  lemma CrossingAtX(xa: real, ya: real, xb: real, yb: real, x0: real)
    requires xa != xb
    ensures Collinear(xa, ya, xb, yb, x0, ya + (yb - ya) / (xb - xa) * (x0 - xa))
  {
    MulBySlope(x0 - xa, xb - xa, yb - ya);
    var q := (yb - ya) / (xb - xa) * (x0 - xa);
    assert (ya + q) - ya == q;
  }

  /** A pair of normalized coordinates. */
  datatype Coords = Coords(x: real, y: real)

  /** The point the clipper writes into the shared point p, for the line from
      ponto1 = (xa, ya) to ponto2 = (xb, yb) and the window edges left, right,
      bottom, top. Vertical lines take the top or bottom edge at ponto1's x,
      horizontal lines the left or right edge at ponto1's y; sloped lines take
      the first of top, bottom, right, left whose flag codOut sets, moving
      along the slope from ponto1. When ponto1 IS p (alias), the coordinate of
      ponto1 that the formula reads has already been overwritten with the edge. */
  function EdgeCrossing(codOut: Outcode, xa: real, ya: real, xb: real, yb: real,
                        left: real, right: real, bottom: real, top: real, alias: bool): Coords
    requires !codOut.IsZero()
  {
    if xa == xb then
      Coords(xa, if codOut.top then top else bottom)
    else if ya == yb then
      Coords(if codOut.left then left else right, ya)
    else
      SlopeNonZero(xa, ya, xb, yb);
      var m := (yb - ya) / (xb - xa);
      if codOut.top then
        Coords(xa + (top - (if alias then top else ya)) / m, top)
      else if codOut.bottom then
        Coords(xa + (bottom - (if alias then bottom else ya)) / m, bottom)
      else if codOut.right then
        Coords(right, ya + m * (right - (if alias then right else xa)))
      else
        Coords(left, ya + m * (left - (if alias then left else xa)))
  }

  /** Where the crossing lies: on the edge codOut selects (top before bottom,
      right before left), on the line through ponto1 and ponto2 when ponto1 is
      not p, and at ponto1's other coordinate when it is. */
  lemma EdgeCrossingMeaning(codOut: Outcode, xa: real, ya: real, xb: real, yb: real,
                            left: real, right: real, bottom: real, top: real, alias: bool)
    requires !codOut.IsZero()
    ensures var Coords(x, y) := EdgeCrossing(codOut, xa, ya, xb, yb, left, right, bottom, top, alias);
      && (xa == xb ==> y == (if codOut.top then top else bottom) && x == xa)
      && (xa != xb && ya == yb ==> x == (if codOut.left then left else right) && y == ya)
      && (xa != xb && ya != yb ==>
            && (codOut.top ==> y == top)
            && (!codOut.top && codOut.bottom ==> y == bottom)
            && (!codOut.top && !codOut.bottom && codOut.right ==> x == right)
            && (!codOut.top && !codOut.bottom && !codOut.right ==> x == left)
            && (alias && (codOut.top || codOut.bottom) ==> x == xa)
            && (alias && !codOut.top && !codOut.bottom ==> y == ya)
            && (!alias ==> Collinear(xa, ya, xb, yb, x, y)))
  {
    if xa != xb && ya != yb {
      SlopeNonZero(xa, ya, xb, yb);
      if codOut.top {
        CrossingAtY(xa, ya, xb, yb, top);
      } else if codOut.bottom {
        CrossingAtY(xa, ya, xb, yb, bottom);
      } else if codOut.right {
        CrossingAtX(xa, ya, xb, yb, right);
      } else {
        CrossingAtX(xa, ya, xb, yb, left);
      }
    }
  }

  /** One replacement point: overwrites the coordinates of the shared point p
      with the edge crossing, reading ponto1 and ponto2 as they are between
      the two writes. */
  method Intersecao(window: Window, reta: Reta, codOut: Outcode, p: Ponto)
    requires !codOut.IsZero()
    requires p !in window.Footprint()
    modifies p`xNorm, p`yNorm
    ensures Coords(p.xNorm, p.yNorm) ==
      EdgeCrossing(codOut, old(reta.ponto1.xNorm), old(reta.ponto1.yNorm),
                   old(reta.ponto2.xNorm), old(reta.ponto2.yNorm),
                   Left(window), Right(window), Bottom(window), Top(window), reta.ponto1 == p)
  {
    ghost var xa, ya, xb, yb := reta.ponto1.xNorm, reta.ponto1.yNorm, reta.ponto2.xNorm, reta.ponto2.yNorm;
    if reta.ponto1.xNorm == reta.ponto2.xNorm {
      if codOut.top {
        p.yNorm := window.xminYmax.yNorm;
      } else {
        p.yNorm := window.xminYmin.yNorm;
      }
      p.xNorm := reta.ponto1.xNorm;
    } else if reta.ponto1.yNorm == reta.ponto2.yNorm {
      if codOut.left {
        p.xNorm := window.xminYmin.xNorm;
      } else {
        p.xNorm := window.xmaxYmin.xNorm;
      }
      p.yNorm := reta.ponto1.yNorm;
    } else {
      var m := (reta.ponto2.yNorm - reta.ponto1.yNorm) / (reta.ponto2.xNorm - reta.ponto1.xNorm);
      SlopeNonZero(xa, ya, xb, yb);
      if codOut.top {
        p.yNorm := window.xminYmax.yNorm;
        p.xNorm := reta.ponto1.xNorm + (window.xminYmax.yNorm - reta.ponto1.yNorm) / m;
      } else if codOut.bottom {
        p.yNorm := window.xminYmin.yNorm;
        p.xNorm := reta.ponto1.xNorm + (window.xminYmin.yNorm - reta.ponto1.yNorm) / m;
      } else if codOut.right {
        p.xNorm := window.xmaxYmin.xNorm;
        p.yNorm := reta.ponto1.yNorm + m * (window.xmaxYmin.xNorm - reta.ponto1.xNorm);
      } else if codOut.left {
        p.xNorm := window.xminYmin.xNorm;
        p.yNorm := reta.ponto1.yNorm + m * (window.xminYmin.xNorm - reta.ponto1.xNorm);
      }
    }
  }

  /** Termination measure of the clipping loop: while ponto1 is outside, at most
      two more replacements of ponto1 (fewer once ponto1 is the shared point)
      plus two of ponto2; afterwards at most two replacements of ponto2. */
  ghost function Measure(codA: Outcode, codB: Outcode, alias1: bool, alias2: bool): nat
  {
    if !codA.IsZero() then (if alias1 then Parts(codA) else 2) + 2
    else if alias2 then Parts(codB) else 2
  }

  /** What the loop knows about its two cached outcodes, given the current
      codes code1 and code2 of the endpoints and whether each endpoint is the
      shared point. While ponto1 is outside both caches are current and
      ponto2 is not the shared point. Once ponto1 is inside, codB is current;
      and if ponto2 has become the shared point while still outside, ponto1 is
      a different object and only the left/right flags can remain. */
  predicate Phases(codA: Outcode, codB: Outcode, code1: Outcode, code2: Outcode, shared1: bool, shared2: bool)
  {
    && (shared1 && shared2 ==> code1 == code2)
    && (!codA.IsZero() ==> codA == code1 && codB == code2 && !shared2)
    && (codA.IsZero() && !shared2 ==> code1.IsZero() && codB == code2)
    && (codA.IsZero() && shared2 ==>
          && codB == code2
          && (!shared1 ==> code1.IsZero())
          && (!codB.IsZero() ==> !shared1 && !codB.top && !codB.bottom))
  }

  /** One pass of the loop body when neither trivial case applies: the
      outside endpoint (ponto1 first) is replaced by the shared point p moved
      onto the window edge, and that endpoint's code is recomputed. */
  method ReplaceOutsideEndpoint(window: Window, reta: Reta, p: Ponto, codA: Outcode, codB: Outcode)
    returns (newA: Outcode, newB: Outcode)
    requires WellFormed(window) && p !in window.Footprint()
    requires !codA.Or(codB).IsZero() && codA.And(codB).IsZero()
    requires Phases(codA, codB, RegionCode(reta.ponto1, window), RegionCode(reta.ponto2, window), reta.ponto1 == p, reta.ponto2 == p)
    modifies reta`ponto1, reta`ponto2, p`xNorm, p`yNorm
    ensures Phases(newA, newB, RegionCode(reta.ponto1, window), RegionCode(reta.ponto2, window), reta.ponto1 == p, reta.ponto2 == p)
    ensures !codA.IsZero() ==> reta.ponto1 == p && reta.ponto2 == old(reta.ponto2) && newB == codB
    ensures codA.IsZero() ==> reta.ponto2 == p && reta.ponto1 == old(reta.ponto1) && newA.IsZero()
    ensures Measure(newA, newB, reta.ponto1 == p, reta.ponto2 == p)
          < Measure(codA, codB, old(reta.ponto1) == p, old(reta.ponto2) == p)
  {
    var codOut := if !codA.IsZero() then codA else codB;
    ghost var xa, ya := reta.ponto1.xNorm, reta.ponto1.yNorm;
    ghost var xb, yb := reta.ponto2.xNorm, reta.ponto2.yNorm;
    ghost var alias1 := reta.ponto1 == p;
    Intersecao(window, reta, codOut, p);
    EdgeCrossingMeaning(codOut, xa, ya, xb, yb, Left(window), Right(window), Bottom(window), Top(window), alias1);
    if codA.IsZero() && !alias1 && xa != xb && !codOut.top && !codOut.bottom {
      // ponto2 is replaced along the true line from the inside point ponto1.
      BetweenOnSegment(xa, ya, xb, yb, p.xNorm, p.yNorm);
    }
    if codOut == codA {
      reta.ponto1 := p;
      newA, newB := RegionCode(reta.ponto1, window), codB;
    } else {
      reta.ponto2 := p;
      newA, newB := codA, RegionCode(reta.ponto2, window);
    }
  }

  /** Two points with the same fields have the same outcode. */
  lemma RegionCodeOfCopy(a: Ponto, b: Ponto, window: Window)
    requires SameFields(a, b)
    ensures RegionCode(a, window) == RegionCode(b, window)
  {
  }

  /** Leaving the loop by trivial acceptance: both endpoints are inside. */
  lemma AcceptExit(codA: Outcode, codB: Outcode, code1: Outcode, code2: Outcode, shared1: bool, shared2: bool)
    requires Phases(codA, codB, code1, code2, shared1, shared2) && codA.Or(codB).IsZero()
    ensures code1.IsZero() && code2.IsZero()
  {
  }

  /** Leaving the loop by trivial rejection: the endpoints share an outside flag. */
  lemma RejectExit(codA: Outcode, codB: Outcode, code1: Outcode, code2: Outcode, shared1: bool, shared2: bool)
    requires Phases(codA, codB, code1, code2, shared1, shared2) && !codA.And(codB).IsZero()
    ensures !code1.And(code2).IsZero()
  {
  }

  /** Which object each endpoint is, in terms of the codes: an endpoint whose
      initial code was 0 is never replaced, one that was outside and is now
      inside has become the shared point, and an initial rejection leaves the
      loop on its first pass. */
  predicate Bookkeeping(codA0: Outcode, codB0: Outcode, codA: Outcode, codB: Outcode,
                        first1: bool, shared1: bool, first2: bool, shared2: bool, done: bool)
  {
    && (codA0.IsZero() ==> first1 && codA.IsZero())
    && (codB0.IsZero() ==> first2 && codB.IsZero())
    && (!codA0.IsZero() && codA.IsZero() ==> shared1)
    && (!codB0.IsZero() && codB.IsZero() ==> shared2)
    && (!codA0.And(codB0).IsZero() ==> !done && codA == codA0 && codB == codB0 && first1 && first2)
  }

  /** A replacement pass keeps the bookkeeping: it replaces ponto1 (which then
      is the shared point) while ponto1 is outside, and otherwise ponto2. */
  lemma BookkeepingAfterReplace(codA0: Outcode, codB0: Outcode, codA: Outcode, codB: Outcode,
                                newA: Outcode, newB: Outcode,
                                first1: bool, shared1: bool, first2: bool, shared2: bool,
                                first1': bool, shared1': bool, first2': bool, shared2': bool)
    requires Bookkeeping(codA0, codB0, codA, codB, first1, shared1, first2, shared2, false)
    requires !codA.Or(codB).IsZero() && codA.And(codB).IsZero()
    requires !codA.IsZero() ==> shared1' && first2' == first2 && shared2' == shared2 && newB == codB
    requires codA.IsZero() ==> shared2' && first1' == first1 && shared1' == shared1 && newA.IsZero()
    ensures Bookkeeping(codA0, codB0, newA, newB, first1', shared1', first2', shared2', false)
  {
  }

  /** The loop invariant of the clipping loop: each endpoint is its original
      object or the shared point, the cached codes are as Phases says until
      the loop is done, and a done loop has both endpoints inside. */
  ghost predicate LoopInvariant(window: Window, reta: Reta, p: Ponto, c1: Ponto, c2: Ponto,
                                codA0: Outcode, codB0: Outcode, codA: Outcode, codB: Outcode, done: bool)
    reads reta, reta.ponto1, reta.ponto2, p, window.Footprint()
  {
    && (reta.ponto1 == c1 || reta.ponto1 == p)
    && (reta.ponto2 == c2 || reta.ponto2 == p)
    && (!done ==> Phases(codA, codB, RegionCode(reta.ponto1, window), RegionCode(reta.ponto2, window),
                         reta.ponto1 == p, reta.ponto2 == p))
    && (done ==> reta.visible && RegionCode(reta.ponto1, window).IsZero() && RegionCode(reta.ponto2, window).IsZero())
    && Bookkeeping(codA0, codB0, codA, codB, reta.ponto1 == c1, reta.ponto1 == p, reta.ponto2 == c2, reta.ponto2 == p, done)
  }

  /** One pass of the clipping loop: accept (done), reject, or replace the
      outside endpoint. A rejecting pass leaves the endpoints as they were. */
  method ClipPass(window: Window, reta: Reta, p: Ponto, ghost c1: Ponto, ghost c2: Ponto,
                  ghost codA0: Outcode, ghost codB0: Outcode, codA: Outcode, codB: Outcode)
    returns (done: bool, rejected: bool, newA: Outcode, newB: Outcode)
    requires WellFormed(window) && p !in window.Footprint()
    requires LoopInvariant(window, reta, p, c1, c2, codA0, codB0, codA, codB, false)
    modifies reta, p`xNorm, p`yNorm
    ensures rejected ==> !done && !reta.visible
    ensures rejected ==> reta.ponto1 == old(reta.ponto1) && reta.ponto2 == old(reta.ponto2)
    ensures rejected ==> !RegionCode(reta.ponto1, window).And(RegionCode(reta.ponto2, window)).IsZero()
    ensures !rejected ==> LoopInvariant(window, reta, p, c1, c2, codA0, codB0, newA, newB, done)
    ensures !rejected && !done ==> Measure(newA, newB, reta.ponto1 == p, reta.ponto2 == p)
                                   < Measure(codA, codB, old(reta.ponto1) == p, old(reta.ponto2) == p)
  {
    done, rejected, newA, newB := false, false, codA, codB;
    ghost var code1, code2 := RegionCode(reta.ponto1, window), RegionCode(reta.ponto2, window);
    ghost var shared1, shared2 := reta.ponto1 == p, reta.ponto2 == p;
    if codA.Or(codB).IsZero() {
      AcceptExit(codA, codB, code1, code2, shared1, shared2);
      done := true;
      reta.visible := true;
    } else if !codA.And(codB).IsZero() {
      RejectExit(codA, codB, code1, code2, shared1, shared2);
      reta.visible := false;
      rejected := true;
    } else {
      ghost var first1, first2 := reta.ponto1 == c1, reta.ponto2 == c2;
      newA, newB := ReplaceOutsideEndpoint(window, reta, p, codA, codB);
      BookkeepingAfterReplace(codA0, codB0, codA, codB, newA, newB, first1, shared1, first2, shared2,
                              reta.ponto1 == c1, reta.ponto1 == p, reta.ponto2 == c2, reta.ponto2 == p);
    }
  }

  /** The clipping loop on the working copy `reta`, with `p` the one scratch
      point that every replacement overwrites. It stops with reta.visible set:
      true once both endpoints are inside, false as soon as both lie beyond one
      window edge. An endpoint that starts inside is never replaced, and a
      replaced endpoint is always the object p. */
  method ClipLoop(window: Window, reta: Reta, p: Ponto, ghost codA0: Outcode, ghost codB0: Outcode)
    returns (accepted: bool)
    requires WellFormed(window) && p !in window.Footprint()
    requires reta.ponto1 != p && reta.ponto2 != p
    requires codA0 == RegionCode(reta.ponto1, window) && codB0 == RegionCode(reta.ponto2, window)
    modifies reta, p`xNorm, p`yNorm
    ensures reta.visible == accepted
    ensures accepted ==> RegionCode(reta.ponto1, window).IsZero() && RegionCode(reta.ponto2, window).IsZero()
    ensures !accepted ==> !RegionCode(reta.ponto1, window).And(RegionCode(reta.ponto2, window)).IsZero()
    ensures reta.ponto1 == old(reta.ponto1) || reta.ponto1 == p
    ensures reta.ponto2 == old(reta.ponto2) || reta.ponto2 == p
    ensures codA0.IsZero() ==> reta.ponto1 == old(reta.ponto1)
    ensures codB0.IsZero() ==> reta.ponto2 == old(reta.ponto2)
    ensures !codA0.And(codB0).IsZero() ==> !accepted && reta.ponto1 == old(reta.ponto1) && reta.ponto2 == old(reta.ponto2)
    ensures accepted && !codA0.IsZero() && !codB0.IsZero() ==> reta.ponto1 == p && reta.ponto2 == p
  {
    var done := false;
    var codA := RegionCode(reta.ponto1, window);
    var codB := RegionCode(reta.ponto2, window);
    ghost var c1, c2 := reta.ponto1, reta.ponto2;

    while !done
      invariant LoopInvariant(window, reta, p, c1, c2, codA0, codB0, codA, codB, done)
      decreases !done, Measure(codA, codB, reta.ponto1 == p, reta.ponto2 == p)
    {
      var rejected;
      done, rejected, codA, codB := ClipPass(window, reta, p, c1, c2, codA0, codB0, codA, codB);
      if rejected {
        return false;
      }
    }
    return true;
  }

  /** How the returned copy inherits the loop's outcome: copying keeps every
      field and whether the two endpoints are one object. */
  lemma ResultOfCopy(window: Window, r: Reta, reta: Reta, res: Reta, codA0: Outcode, codB0: Outcode)
    requires codA0 == RegionCode(r.ponto1, window) && codB0 == RegionCode(r.ponto2, window)
    requires SameFields(res.ponto1, reta.ponto1) && SameFields(res.ponto2, reta.ponto2)
    requires (res.ponto1 == res.ponto2 <==> reta.ponto1 == reta.ponto2) && res.visible == reta.visible
    requires reta.visible ==> RegionCode(reta.ponto1, window).IsZero() && RegionCode(reta.ponto2, window).IsZero()
    requires !reta.visible ==> !RegionCode(reta.ponto1, window).And(RegionCode(reta.ponto2, window)).IsZero()
    requires codA0.IsZero() ==> SameFields(reta.ponto1, r.ponto1)
    requires codB0.IsZero() ==> SameFields(reta.ponto2, r.ponto2)
    requires !codA0.And(codB0).IsZero() ==> !reta.visible && SameFields(reta.ponto1, r.ponto1) && SameFields(reta.ponto2, r.ponto2)
    requires reta.visible && !codA0.IsZero() && !codB0.IsZero() ==> reta.ponto1 == reta.ponto2
    ensures res.visible ==> RegionCode(res.ponto1, window).IsZero() && RegionCode(res.ponto2, window).IsZero()
    ensures !res.visible ==> !RegionCode(res.ponto1, window).And(RegionCode(res.ponto2, window)).IsZero()
    ensures codA0.IsZero() ==> SameFields(res.ponto1, r.ponto1)
    ensures codA0.IsZero() && codB0.IsZero() ==> res.visible && SameFields(res.ponto2, r.ponto2)
    ensures !codA0.And(codB0).IsZero() ==> !res.visible && SameFields(res.ponto1, r.ponto1) && SameFields(res.ponto2, r.ponto2)
    ensures res.visible && !codA0.IsZero() && !codB0.IsZero() ==> res.ponto1 == res.ponto2
  {
    RegionCodeOfCopy(res.ponto1, reta.ponto1, window);
    RegionCodeOfCopy(res.ponto2, reta.ponto2, window);
  }

  /** Cohen-Sutherland clipping of a copy of r (r itself is never written: the
      method has no modifies clause). A visible result has both endpoints in
      the window; an invisible one has both endpoints in one outer half-plane.
      An endpoint that starts inside is kept. Because one point object serves
      every replacement, a visible result whose two endpoints both started
      outside has ponto1 and ponto2 as the SAME object. */
  method CohenSutherlandClipping(window: Window, r: Reta) returns (res: Reta)
    requires WellFormed(window)
    ensures fresh(res) && fresh(res.ponto1) && fresh(res.ponto2)
    ensures res.visible ==> RegionCode(res.ponto1, window).IsZero() && RegionCode(res.ponto2, window).IsZero()
    ensures !res.visible ==> !RegionCode(res.ponto1, window).And(RegionCode(res.ponto2, window)).IsZero()
    ensures RegionCode(r.ponto1, window).IsZero() ==> SameFields(res.ponto1, r.ponto1)
    ensures RegionCode(r.ponto1, window).IsZero() && RegionCode(r.ponto2, window).IsZero() ==>
              res.visible && SameFields(res.ponto2, r.ponto2)
    ensures !RegionCode(r.ponto1, window).And(RegionCode(r.ponto2, window)).IsZero() ==>
              !res.visible && SameFields(res.ponto1, r.ponto1) && SameFields(res.ponto2, r.ponto2)
    ensures res.visible && !RegionCode(r.ponto1, window).IsZero() && !RegionCode(r.ponto2, window).IsZero() ==>
              res.ponto1 == res.ponto2
  {
    var reta := CopyReta(r);
    var p := new Ponto(0.0, 0.0, NaoUtilizada, "black");
    RegionCodeOfCopy(reta.ponto1, r.ponto1, window);
    RegionCodeOfCopy(reta.ponto2, r.ponto2, window);
    ghost var codA0, codB0 := RegionCode(r.ponto1, window), RegionCode(r.ponto2, window);
    var _ := ClipLoop(window, reta, p, codA0, codB0);
    res := CopyReta(reta);
    ResultOfCopy(window, r, reta, res, codA0, codB0);
  }
}
