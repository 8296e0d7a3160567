/** Geometry primitives of the clipping kernel: points (Ponto), lines (Reta),
    polygons (Poligono), the clip window and the per-point orientation tag.
    Coordinates are exact reals; the epsilon constants of the Python program are kept
    as literals. */
module Geometry {

  /** Orientation state of a point during polygon clipping. */
  datatype Orientacao = NaoUtilizada | Entrando | Saindo | Utilizada

  /** The absolute tolerance 1e-14 used by the inside test and the Liang-Barsky nudge. */
  const Epsilon: real := 0.00000000000001

  /** Round-half-to-even of a real to an integer. */
  function RoundHalfEven(v: real): (n: int)
    ensures n as real - 0.5 <= v <= n as real + 0.5
  {
    var f := v.Floor;
    var frac := v - f as real;
    if frac < 0.5 then f
    else if frac > 0.5 then f + 1
    else if f % 2 == 0 then f else f + 1
  }

  /** Rounding to 8 decimal places, as the equality helpers do. */
  function Round8(v: real): (r: real)
    ensures v - 0.000000005 <= r <= v + 0.000000005
  {
    RoundHalfEven(v * 100000000.0) as real / 100000000.0
  }

  /** A point: original and normalized coordinates, visibility, orientation tag
      and the flag marking a synthesized intersection point. */
  class Ponto {
    var cor: string
    var x: real
    var y: real
    var xNorm: real
    var yNorm: real
    var visible: bool
    var orientacao: Orientacao
    var intersecao: bool

    /** A new point starts normalized to its own coordinates, visible and not an intersection. */
    constructor (x: real, y: real, orientacao: Orientacao, cor: string)
      ensures this.x == x && this.y == y && xNorm == x && yNorm == y
      ensures visible && !intersecao
      ensures this.orientacao == orientacao && this.cor == cor
    {
      this.cor := cor;
      this.x := x;
      this.y := y;
      xNorm := x;
      yNorm := y;
      visible := true;
      this.orientacao := orientacao;
      intersecao := false;
    }

    /** Full equality: both coordinate pairs to 8 places, and visibility. */
    predicate Equals(other: Ponto)
      reads this, other
      ensures Equals(other) ==> CompareNormCoordinates(other)
    {
      Round8(x) == Round8(other.x) && Round8(y) == Round8(other.y) &&
      visible == other.visible &&
      Round8(xNorm) == Round8(other.xNorm) && Round8(yNorm) == Round8(other.yNorm)
    }

    /** Equality on the normalized coordinates (8 places) and visibility only. */
    predicate CompareNormCoordinates(other: Ponto)
      reads this, other
    {
      Round8(xNorm) == Round8(other.xNorm) && Round8(yNorm) == Round8(other.yNorm) &&
      visible == other.visible
    }
  }

  lemma EqualsReflexiveSymmetric(a: Ponto, b: Ponto)
    ensures a.Equals(a) && a.CompareNormCoordinates(a)
    ensures a.Equals(b) <==> b.Equals(a)
    ensures a.CompareNormCoordinates(b) <==> b.CompareNormCoordinates(a)
  {
  }

  /** CompareNormCoordinates does not look at x, y, orientation, colour or the
      intersection flag: two candidates that agree on the normalized coordinates
      and visibility compare alike with any point. */
  lemma CompareNormIgnoresOtherFields(a: Ponto, b: Ponto, c: Ponto)
    requires b.xNorm == c.xNorm && b.yNorm == c.yNorm && b.visible == c.visible
    ensures a.CompareNormCoordinates(b) <==> a.CompareNormCoordinates(c)
  {
  }

  /** The values of all fields of a point. */
  datatype PontoData = PontoData(
    cor: string, x: real, y: real, xNorm: real, yNorm: real,
    visible: bool, orientacao: Orientacao, intersecao: bool)

  function Data(p: Ponto): PontoData
    reads p
  {
    PontoData(p.cor, p.x, p.y, p.xNorm, p.yNorm, p.visible, p.orientacao, p.intersecao)
  }

  /** Two points agree on every field, for copies and frames. */
  predicate SameFields(a: Ponto, b: Ponto)
    reads a, b
  {
    Data(a) == Data(b)
  }

  /** copy.deepcopy of a point. */
  method CopyPonto(p: Ponto) returns (c: Ponto)
    ensures fresh(c) && SameFields(c, p)
  {
    c := new Ponto(p.x, p.y, p.orientacao, p.cor);
    c.xNorm, c.yNorm := p.xNorm, p.yNorm;
    c.visible, c.intersecao := p.visible, p.intersecao;
  }

  /** No point object occurs twice. */
  predicate Distinct(ps: seq<Ponto>)
  {
    forall i, j :: 0 <= i < j < |ps| ==> ps[i] != ps[j]
  }

  /** Two occurrences of a value put it twice in the multiset. */
  lemma TwiceInMultiset<T>(s: seq<T>, i: int, j: int)
    requires 0 <= i < j < |s| && s[i] == s[j]
    ensures multiset(s)[s[i]] >= 2
  {
    assert s == s[..i] + [s[i]] + s[i + 1..j] + [s[j]] + s[j + 1..];
  }

  /** Without repetitions, every value occurs at most once in the multiset. */
  lemma {:induction false} DistinctOnce(ps: seq<Ponto>, q: Ponto)
    requires Distinct(ps)
    ensures multiset(ps)[q] <= 1
  {
    if ps != [] {
      var t := ps[1..];
      assert Distinct(t) by {
        forall i, j | 0 <= i < j < |t| ensures t[i] != t[j] {
          assert t[i] == ps[i + 1] && t[j] == ps[j + 1];
        }
      }
      DistinctOnce(t, q);
      assert ps == [ps[0]] + t;
      assert forall k :: 0 <= k < |t| ==> t[k] == ps[k + 1] != ps[0];
    }
  }

  /** A permutation of a list without repetitions has none either: sorting or
      rotating a list of distinct points keeps them distinct. */
  lemma DistinctPermutation(a: seq<Ponto>, b: seq<Ponto>)
    requires multiset(a) == multiset(b) && Distinct(a)
    ensures Distinct(b)
  {
    forall i, j | 0 <= i < j < |b|
      ensures b[i] != b[j]
    {
      if b[i] == b[j] {
        TwiceInMultiset(b, i, j);
        DistinctOnce(a, b[i]);
      }
    }
  }

  /** copy.deepcopy of a list of pairwise distinct points: fresh, pairwise
      distinct copies in the same order. */
  method CopyPontos(pontos: seq<Ponto>) returns (copies: seq<Ponto>)
    requires Distinct(pontos)
    ensures |copies| == |pontos|
    ensures forall i :: 0 <= i < |copies| ==> fresh(copies[i]) && SameFields(copies[i], pontos[i])
    ensures forall i, j :: 0 <= i < j < |copies| ==> copies[i] != copies[j]
  {
    copies := [];
    for k := 0 to |pontos|
      invariant |copies| == k
      invariant forall i :: 0 <= i < k ==> fresh(copies[i]) && SameFields(copies[i], pontos[i])
      invariant forall i, j :: 0 <= i < j < k ==> copies[i] != copies[j]
    {
      var c := CopyPonto(pontos[k]);
      copies := copies + [c];
    }
  }

  /** A line segment between two points. */
  class Reta {
    var cor: string
    var ponto1: Ponto
    var ponto2: Ponto
    var visible: bool

    constructor (ponto1: Ponto, ponto2: Ponto, cor: string)
      ensures this.ponto1 == ponto1 && this.ponto2 == ponto2 && this.cor == cor && visible
    {
      this.cor := cor;
      this.ponto1 := ponto1;
      this.ponto2 := ponto2;
      visible := true;
    }
  }

  /** copy.deepcopy of a line: a fresh line with fresh endpoint copies; the
      copy shares one endpoint object exactly when the original does. */
  method CopyReta(r: Reta) returns (c: Reta)
    ensures fresh(c) && fresh(c.ponto1) && fresh(c.ponto2)
    ensures c.ponto1 == c.ponto2 <==> r.ponto1 == r.ponto2
    ensures SameFields(c.ponto1, r.ponto1) && SameFields(c.ponto2, r.ponto2)
    ensures c.visible == r.visible && c.cor == r.cor
  {
    var q1 := CopyPonto(r.ponto1);
    var q2 := q1;
    if r.ponto2 != r.ponto1 {
      q2 := CopyPonto(r.ponto2);
    }
    c := new Reta(q1, q2, r.cor);
    c.visible := r.visible;
  }

  /** A polygon: its vertices in boundary order (the closing edge is implicit). */
  class Poligono {
    var cor: string
    var visible: bool
    var pontos: seq<Ponto>

    constructor (pontos: seq<Ponto>, cor: string)
      ensures this.pontos == pontos && this.cor == cor && visible
    {
      this.cor := cor;
      visible := true;
      this.pontos := pontos;
    }

    /** Orders the points clockwise around the centre: ascending by minus the
        angle atan2(y - cy, x - cx). */
    method OrdenarPontos(centro: Ponto, atan2: (real, real) -> real)
      modifies this`pontos
      ensures pontos == SortByKey(old(pontos), centro.xNorm, centro.yNorm, atan2)
      ensures multiset(pontos) == multiset(old(pontos))
      ensures SortedByKey(pontos, centro.xNorm, centro.yNorm, atan2)
    {
      var cx := centro.xNorm;
      var cy := centro.yNorm;
      SortByKeySorted(pontos, cx, cy, atan2);
      pontos := SortByKey(pontos, cx, cy, atan2);
    }
  }

  /** The sort key of ordenar_pontos: minus the angle of the point seen from
      the centre (cx, cy); atan2 is a parameter of the model. */
  function AngleKey(p: Ponto, cx: real, cy: real, atan2: (real, real) -> real): real
    reads p
  {
    -atan2(p.yNorm - cy, p.xNorm - cx)
  }

  predicate SortedByKey(ps: seq<Ponto>, cx: real, cy: real, atan2: (real, real) -> real)
    reads set q | q in ps
  {
    forall i, j :: 0 <= i < j < |ps| ==> AngleKey(ps[i], cx, cy, atan2) <= AngleKey(ps[j], cx, cy, atan2)
  }

  /** Inserts p after every element whose key is not larger (so equal keys
      keep their order). */
  function InsertByKey(p: Ponto, ps: seq<Ponto>, cx: real, cy: real, atan2: (real, real) -> real): (r: seq<Ponto>)
    reads p, set q | q in ps
    ensures multiset(r) == multiset(ps) + multiset{p}
    ensures forall q :: q in r ==> q in ps || q == p
  {
    if ps == [] then [p]
    else
      var last := ps[|ps| - 1];
      if AngleKey(last, cx, cy, atan2) <= AngleKey(p, cx, cy, atan2) then ps + [p]
      else
        var init := ps[..|ps| - 1];
        assert ps == init + [last];
        InsertByKey(p, init, cx, cy, atan2) + [last]
  }

  /** Inserting into a sorted list keeps it sorted. */
  lemma {:induction false} InsertByKeySorted(p: Ponto, ps: seq<Ponto>, cx: real, cy: real, atan2: (real, real) -> real)
    requires SortedByKey(ps, cx, cy, atan2)
    ensures SortedByKey(InsertByKey(p, ps, cx, cy, atan2), cx, cy, atan2)
  {
    if ps != [] {
      var last := ps[|ps| - 1];
      if AngleKey(p, cx, cy, atan2) < AngleKey(last, cx, cy, atan2) {
        var init := ps[..|ps| - 1];
        InsertByKeySorted(p, init, cx, cy, atan2);
        var t := InsertByKey(p, init, cx, cy, atan2);
        forall k | 0 <= k < |t|
          ensures AngleKey(t[k], cx, cy, atan2) <= AngleKey(last, cx, cy, atan2)
        {
          assert t[k] in init || t[k] == p;
        }
      }
    }
  }

  /** The points in ascending key order (the model of Python's sorted). */
  function SortByKey(ps: seq<Ponto>, cx: real, cy: real, atan2: (real, real) -> real): (r: seq<Ponto>)
    reads set q | q in ps
    ensures multiset(r) == multiset(ps)
    ensures forall q :: q in r ==> q in ps
  {
    if ps == [] then []
    else
      assert ps == ps[..|ps| - 1] + [ps[|ps| - 1]];
      InsertByKey(ps[|ps| - 1], SortByKey(ps[..|ps| - 1], cx, cy, atan2), cx, cy, atan2)
  }

  /** The sorted list is in ascending key order. */
  lemma {:induction false} SortByKeySorted(ps: seq<Ponto>, cx: real, cy: real, atan2: (real, real) -> real)
    ensures SortedByKey(SortByKey(ps, cx, cy, atan2), cx, cy, atan2)
  {
    if ps != [] {
      SortByKeySorted(ps[..|ps| - 1], cx, cy, atan2);
      InsertByKeySorted(ps[|ps| - 1], SortByKey(ps[..|ps| - 1], cx, cy, atan2), cx, cy, atan2);
    }
  }

  /** The axis-aligned clip window, given by its four corner points. */
  class Window {
    const xminYmin: Ponto
    const xminYmax: Ponto
    const xmaxYmax: Ponto
    const xmaxYmin: Ponto

    constructor (xmin: real, ymin: real, xmax: real, ymax: real)
      ensures Valid() && fresh(Footprint())
      ensures xminYmin.xNorm == xmin && xminYmin.yNorm == ymin
      ensures xminYmax.xNorm == xmin && xminYmax.yNorm == ymax
      ensures xmaxYmax.xNorm == xmax && xmaxYmax.yNorm == ymax
      ensures xmaxYmin.xNorm == xmax && xmaxYmin.yNorm == ymin
      ensures forall c :: c in Corners() ==> c.x == c.xNorm && c.y == c.yNorm && !c.intersecao
    {
      xminYmin := new Ponto(xmin, ymin, NaoUtilizada, "black");
      xminYmax := new Ponto(xmin, ymax, NaoUtilizada, "black");
      xmaxYmax := new Ponto(xmax, ymax, NaoUtilizada, "black");
      xmaxYmin := new Ponto(xmax, ymin, NaoUtilizada, "black");
    }

    /** The corners in attribute order: (xmin,ymin), (xmin,ymax), (xmax,ymax), (xmax,ymin). */
    function Corners(): seq<Ponto>
    {
      [xminYmin, xminYmax, xmaxYmax, xmaxYmin]
    }

    function Footprint(): set<object>
    {
      {xminYmin, xminYmax, xmaxYmax, xmaxYmin}
    }

    /** The four corners are four different objects, none of them an
        intersection point. */
    ghost predicate Valid()
      reads Footprint()
    {
      xminYmin != xminYmax && xminYmin != xmaxYmax && xminYmin != xmaxYmin &&
      xminYmax != xmaxYmax && xminYmax != xmaxYmin && xmaxYmax != xmaxYmin &&
      !xminYmin.intersecao && !xminYmax.intersecao && !xmaxYmax.intersecao && !xmaxYmin.intersecao
    }
  }

  /** The single-point test: inclusive bounds on the point's normalized
      coordinates against the corners' RAW coordinates. */
  predicate InsideRaw(window: Window, ponto: Ponto)
    reads ponto, window.Footprint()
  {
    ponto.xNorm <= window.xmaxYmax.x && ponto.xNorm >= window.xminYmax.x &&
    ponto.yNorm <= window.xminYmax.y && ponto.yNorm >= window.xminYmin.y
  }

  /** Sets the visibility of a point to whether it lies in the window, and
      returns that same point. */
  method PointClipping(window: Window, ponto: Ponto) returns (r: Ponto)
    modifies ponto`visible
    ensures r == ponto
    ensures ponto.visible <==> InsideRaw(window, ponto)
  {
    if !(ponto.xNorm <= window.xmaxYmax.x && ponto.xNorm >= window.xminYmax.x &&
         ponto.yNorm <= window.xminYmax.y && ponto.yNorm >= window.xminYmin.y) {
      ponto.visible := false;
    } else {
      ponto.visible := true;
    }
    r := ponto;
  }

  // ---------------------------------------------------------------------------
  // Centroid

  function XNorms(pontos: seq<Ponto>): (xs: seq<real>)
    reads set p | p in pontos
    ensures |xs| == |pontos| && forall i :: 0 <= i < |xs| ==> xs[i] == pontos[i].xNorm
  {
    if pontos == [] then [] else [pontos[0].xNorm] + XNorms(pontos[1..])
  }

  function YNorms(pontos: seq<Ponto>): (ys: seq<real>)
    reads set p | p in pontos
    ensures |ys| == |pontos| && forall i :: 0 <= i < |ys| ==> ys[i] == pontos[i].yNorm
  {
    if pontos == [] then [] else [pontos[0].yNorm] + YNorms(pontos[1..])
  }

  function Sum(xs: seq<real>): real
  {
    if xs == [] then 0.0 else xs[0] + Sum(xs[1..])
  }

  /** A sum of values in [lo, hi] lies in [n*lo, n*hi]. */
  lemma {:induction false} SumBounds(xs: seq<real>, lo: real, hi: real)
    requires forall i :: 0 <= i < |xs| ==> lo <= xs[i] <= hi
    ensures |xs| as real * lo <= Sum(xs) <= |xs| as real * hi
  {
    if xs != [] {
      SumBounds(xs[1..], lo, hi);
    }
  }

  /** The mean of the values lies within any bounds of the values: the
      centroid is inside the bounding box of the points it averages. */
  lemma MeanWithinBounds(xs: seq<real>, lo: real, hi: real)
    requires |xs| > 0
    requires forall i :: 0 <= i < |xs| ==> lo <= xs[i] <= hi
    ensures lo <= Sum(xs) / |xs| as real <= hi
  {
    SumBounds(xs, lo, hi);
    var n := |xs| as real;
    assert lo * n <= Sum(xs) <= hi * n;
  }

  /** The arithmetic mean of the normalized coordinates of the polygon's
      points, as a new point (its raw coordinates stay 0). */
  method CalculaCentroidePoligono(poligono: Poligono) returns (c: Ponto)
    requires |poligono.pontos| > 0
    ensures fresh(c)
    ensures c.xNorm == Sum(XNorms(poligono.pontos)) / |poligono.pontos| as real
    ensures c.yNorm == Sum(YNorms(poligono.pontos)) / |poligono.pontos| as real
    ensures c.x == 0.0 && c.y == 0.0 && c.orientacao == NaoUtilizada
  {
    c := new Ponto(0.0, 0.0, NaoUtilizada, "black");
    c.xNorm := Sum(XNorms(poligono.pontos)) / |poligono.pontos| as real;
    c.yNorm := Sum(YNorms(poligono.pontos)) / |poligono.pontos| as real;
  }

  // ---------------------------------------------------------------------------
  // Whole-polygon inside test

  /** The point lies in the window widened by Epsilon on every side. */
  predicate InsideEps(window: Window, p: Ponto)
    reads p, window.Footprint()
  {
    p.xNorm + Epsilon >= window.xminYmin.xNorm && p.xNorm <= window.xmaxYmin.xNorm + Epsilon &&
    p.yNorm + Epsilon >= window.xminYmin.yNorm && p.yNorm <= window.xminYmax.yNorm + Epsilon
  }

  /** True exactly when every vertex lies in the epsilon-widened window
      (vacuously true for a polygon without vertices). The loop checks each
      edge's two endpoints and returns early on the first failure. */
  method ChecaPoligonoTotalmenteDentroWindow(window: Window, poligono: Poligono) returns (dentro: bool)
    ensures dentro <==> forall k :: 0 <= k < |poligono.pontos| ==> InsideEps(window, poligono.pontos[k])
  {
    var n := |poligono.pontos|;
    for i := 0 to n
      invariant forall k :: 0 <= k < i ==> InsideEps(window, poligono.pontos[k])
    {
      var p1 := poligono.pontos[i];
      var p2 := poligono.pontos[(i + 1) % n];
      if !(((p1.xNorm + Epsilon >= window.xminYmin.xNorm) && (p1.xNorm <= window.xmaxYmin.xNorm + Epsilon)) &&
           ((p2.xNorm + Epsilon >= window.xminYmin.xNorm) && (p2.xNorm <= window.xmaxYmin.xNorm + Epsilon)) &&
           ((p1.yNorm + Epsilon >= window.xminYmin.yNorm) && (p1.yNorm <= window.xminYmax.yNorm + Epsilon)) &&
           ((p2.yNorm + Epsilon >= window.xminYmin.yNorm) && (p2.yNorm <= window.xminYmax.yNorm + Epsilon))) {
        return false;
      }
    }
    return true;
  }
}
