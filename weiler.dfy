/** Weiler-Atherton polygon clipping. The polygon's boundary, with the
    intersection points Liang-Barsky finds on each edge, becomes ring A; the
    window corners with the same intersection points, ordered by angle around
    their centroid, become ring B. The clipper walks ring A from an entering
    point to a leaving point and ring B from that leaving point back to an
    entering point, marking every point it emits as used. */
module Weiler {
  import opened Geometry
  import opened Ring
  import opened Liang

  // ---------------------------------------------------------------------------
  // The clipping lists, on values

  /** The window bounds as the Liang-Barsky clipper reads them. */
  datatype Bounds = Bounds(left: real, right: real, bottom: real, top: real)

  function WindowBounds(window: Window): Bounds
    reads window.Footprint()
  {
    Bounds(LeftEdge(window), RightEdge(window), BottomEdge(window), TopEdge(window))
  }

  /** The fresh point built for a vertex from its normalized coordinates. */
  function VertexData(x: real, y: real): PontoData
  {
    PontoData("black", x, y, x, y, true, NaoUtilizada, false)
  }

  /** The endpoints of a clipped edge that are tagged as intersections, in order. */
  function Cuts(c: Clipped): (cs: seq<PontoData>)
    ensures |cs| <= 2 && forall k :: 0 <= k < |cs| ==> cs[k].intersecao
  {
    match c
    case Hidden => []
    case Shown(p1, p2) => (if p1.intersecao then [p1] else []) + (if p2.intersecao then [p2] else [])
  }

  /** The intersection points Liang-Barsky reports on the edge from (x1, y1)
      to (x2, y2). */
  function EdgeBlock(x1: real, y1: real, x2: real, y2: real, w: Bounds): seq<PontoData>
  {
    Cuts(Clip(VertexData(x1, y1), VertexData(x2, y2), w.left, w.right, w.bottom, w.top))
  }

  /** The intersection points on the edge from vertex i to vertex i + 1 (the
      last vertex closes the boundary with the first). */
  function EdgeCuts(xs: seq<real>, ys: seq<real>, i: nat, w: Bounds): seq<PontoData>
    requires |xs| == |ys| && i < |xs|
  {
    var j := (i + 1) % |xs|;
    EdgeBlock(xs[i], ys[i], xs[j], ys[j], w)
  }

  /** The intersection points of the first k edges, edge by edge. */
  function EdgeCutsList(xs: seq<real>, ys: seq<real>, w: Bounds, k: nat): (cs: seq<seq<PontoData>>)
    requires |xs| == |ys| && k <= |xs|
    ensures |cs| == k
  {
    if k == 0 then [] else EdgeCutsList(xs, ys, w, k - 1) + [EdgeCuts(xs, ys, k - 1, w)]
  }

  lemma {:induction false} EdgeCutsListAt(xs: seq<real>, ys: seq<real>, w: Bounds, k: nat, i: nat)
    requires |xs| == |ys| && i < k <= |xs|
    ensures EdgeCutsList(xs, ys, w, k)[i] == EdgeCuts(xs, ys, i, w)
  {
    if i < k - 1 {
      EdgeCutsListAt(xs, ys, w, k - 1, i);
    }
  }

  /** The first k vertices, as fresh points. */
  function VertexList(xs: seq<real>, ys: seq<real>, k: nat): (vs: seq<PontoData>)
    requires |xs| == |ys| && k <= |xs|
    ensures |vs| == k && forall i :: 0 <= i < k ==> vs[i] == VertexData(xs[i], ys[i])
  {
    if k == 0 then [] else VertexList(xs, ys, k - 1) + [VertexData(xs[k - 1], ys[k - 1])]
  }

  /** The first k blocks joined. */
  function Flatten(cs: seq<seq<PontoData>>, k: nat): seq<PontoData>
    requires k <= |cs|
  {
    if k == 0 then [] else Flatten(cs, k - 1) + cs[k - 1]
  }

  /** The first k vertices, each followed by the intersection points of the
      edge that starts at it. */
  function Interleave(xs: seq<real>, ys: seq<real>, cs: seq<seq<PontoData>>, k: nat): seq<PontoData>
    requires |xs| == |ys| && k <= |xs| && k <= |cs|
  {
    if k == 0 then [] else Interleave(xs, ys, cs, k - 1) + [VertexData(xs[k - 1], ys[k - 1])] + cs[k - 1]
  }

  /** All intersection points, edge by edge. */
  function CutsData(xs: seq<real>, ys: seq<real>, w: Bounds): seq<PontoData>
    requires |xs| == |ys|
  {
    Flatten(EdgeCutsList(xs, ys, w, |xs|), |xs|)
  }

  /** List 1: each vertex followed by the intersection points of the edge that
      starts at it. */
  function List1Data(xs: seq<real>, ys: seq<real>, w: Bounds): seq<PontoData>
    requires |xs| == |ys|
  {
    Interleave(xs, ys, EdgeCutsList(xs, ys, w, |xs|), |xs|)
  }

  /** The points tagged as intersections, in order. */
  function IntersecaoOnly(ds: seq<PontoData>): (r: seq<PontoData>)
  {
    if ds == [] then []
    else IntersecaoOnly(ds[..|ds| - 1]) + (if ds[|ds| - 1].intersecao then [ds[|ds| - 1]] else [])
  }

  /** The points not tagged as intersections, in order. */
  function VerticesOnly(ds: seq<PontoData>): (r: seq<PontoData>)
  {
    if ds == [] then []
    else VerticesOnly(ds[..|ds| - 1]) + (if ds[|ds| - 1].intersecao then [] else [ds[|ds| - 1]])
  }

  lemma {:induction false} IntersecaoOnlyAppend(a: seq<PontoData>, b: seq<PontoData>)
    ensures IntersecaoOnly(a + b) == IntersecaoOnly(a) + IntersecaoOnly(b)
    decreases |b|
  {
    if b == [] {
      assert a + b == a;
    } else {
      var b', x := b[..|b| - 1], b[|b| - 1];
      IntersecaoOnlyAppend(a, b');
      calc {
        IntersecaoOnly(a + b);
        { assert (a + b)[..|a + b| - 1] == a + b' && (a + b)[|a + b| - 1] == x; }
        IntersecaoOnly(a + b') + (if x.intersecao then [x] else []);
        IntersecaoOnly(a) + (IntersecaoOnly(b') + (if x.intersecao then [x] else []));
        IntersecaoOnly(a) + IntersecaoOnly(b);
      }
    }
  }

  lemma {:induction false} VerticesOnlyAppend(a: seq<PontoData>, b: seq<PontoData>)
    ensures VerticesOnly(a + b) == VerticesOnly(a) + VerticesOnly(b)
    decreases |b|
  {
    if b == [] {
      assert a + b == a;
    } else {
      var b', x := b[..|b| - 1], b[|b| - 1];
      VerticesOnlyAppend(a, b');
      calc {
        VerticesOnly(a + b);
        { assert (a + b)[..|a + b| - 1] == a + b' && (a + b)[|a + b| - 1] == x; }
        VerticesOnly(a + b') + (if x.intersecao then [] else [x]);
        VerticesOnly(a) + (VerticesOnly(b') + (if x.intersecao then [] else [x]));
        VerticesOnly(a) + VerticesOnly(b);
      }
    }
  }

  predicate AllTagged(ds: seq<PontoData>)
  {
    forall k :: 0 <= k < |ds| ==> ds[k].intersecao
  }

  /** Blocks of at most two points, all tagged: what each edge contributes. */
  predicate CutsShaped(cs: seq<seq<PontoData>>)
  {
    forall i :: 0 <= i < |cs| ==> AllTagged(cs[i]) && |cs[i]| <= 2
  }

  /** A list of tagged points is its own intersection part and has no vertices. */
  lemma {:induction false} CutsAllTagged(cs: seq<PontoData>)
    requires AllTagged(cs)
    ensures IntersecaoOnly(cs) == cs && VerticesOnly(cs) == []
  {
    if cs != [] {
      var init, last := cs[..|cs| - 1], cs[|cs| - 1];
      assert AllTagged(init) by {
        forall k | 0 <= k < |init| ensures init[k].intersecao { assert init[k] == cs[k]; }
      }
      CutsAllTagged(init);
      assert IntersecaoOnly(cs) == init + [last];
      assert init + [last] == cs;
    }
  }

  /** With tagged blocks, the tagged part of list 1 is the joined blocks. */
  lemma {:induction false} InterleaveCuts(xs: seq<real>, ys: seq<real>, cs: seq<seq<PontoData>>, k: nat)
    requires |xs| == |ys| && k <= |xs| && k <= |cs|
    requires CutsShaped(cs)
    ensures IntersecaoOnly(Interleave(xs, ys, cs, k)) == Flatten(cs, k)
  {
    if k > 0 {
      InterleaveCuts(xs, ys, cs, k - 1);
      var prev, v := Interleave(xs, ys, cs, k - 1), [VertexData(xs[k - 1], ys[k - 1])];
      IntersecaoOnlyAppend(prev + v, cs[k - 1]);
      IntersecaoOnlyAppend(prev, v);
      CutsAllTagged(cs[k - 1]);
      assert IntersecaoOnly(v) == [] by {
        assert v[..0] == [];
      }
      assert IntersecaoOnly(prev + v) == IntersecaoOnly(prev);
    }
  }

  /** With tagged blocks, the untagged part of list 1 is the vertices. */
  lemma {:induction false} InterleaveVertices(xs: seq<real>, ys: seq<real>, cs: seq<seq<PontoData>>, k: nat)
    requires |xs| == |ys| && k <= |xs| && k <= |cs|
    requires CutsShaped(cs)
    ensures VerticesOnly(Interleave(xs, ys, cs, k)) == VertexList(xs, ys, k)
  {
    if k > 0 {
      InterleaveVertices(xs, ys, cs, k - 1);
      var prev, v := Interleave(xs, ys, cs, k - 1), [VertexData(xs[k - 1], ys[k - 1])];
      VerticesOnlyAppend(prev + v, cs[k - 1]);
      VerticesOnlyAppend(prev, v);
      CutsAllTagged(cs[k - 1]);
      assert VerticesOnly(v) == v by {
        assert v[..0] == [];
      }
      assert Interleave(xs, ys, cs, k) == prev + v + cs[k - 1];
      assert VertexList(xs, ys, k) == VertexList(xs, ys, k - 1) + v;
    }
  }

  /** Blocks of at most two points join to at most 2k points; list 1 has k
      vertices more. */
  lemma {:induction false} FlattenLength(xs: seq<real>, ys: seq<real>, cs: seq<seq<PontoData>>, k: nat)
    requires |xs| == |ys| && k <= |xs| && k <= |cs|
    requires CutsShaped(cs)
    ensures |Flatten(cs, k)| <= 2 * k
    ensures |Interleave(xs, ys, cs, k)| == k + |Flatten(cs, k)|
  {
    if k > 0 {
      FlattenLength(xs, ys, cs, k - 1);
    }
  }

  /** Every edge has at most two intersection points, all tagged. */
  lemma EdgeCutsShape(xs: seq<real>, ys: seq<real>, w: Bounds)
    requires |xs| == |ys|
    ensures CutsShaped(EdgeCutsList(xs, ys, w, |xs|))
  {
    var cs := EdgeCutsList(xs, ys, w, |xs|);
    forall i | 0 <= i < |xs|
      ensures AllTagged(cs[i]) && |cs[i]| <= 2
    {
      EdgeCutsListAt(xs, ys, w, |xs|, i);
    }
  }

  /** The intersection points of list 1 are exactly the cuts of all edges, in
      edge order. */
  lemma List1Cuts(xs: seq<real>, ys: seq<real>, w: Bounds)
    requires |xs| == |ys|
    ensures IntersecaoOnly(List1Data(xs, ys, w)) == CutsData(xs, ys, w)
  {
    EdgeCutsShape(xs, ys, w);
    InterleaveCuts(xs, ys, EdgeCutsList(xs, ys, w, |xs|), |xs|);
  }

  /** The other points of list 1 are exactly the polygon's vertices, in order. */
  lemma List1Vertices(xs: seq<real>, ys: seq<real>, w: Bounds)
    requires |xs| == |ys|
    ensures VerticesOnly(List1Data(xs, ys, w)) == VertexList(xs, ys, |xs|)
  {
    EdgeCutsShape(xs, ys, w);
    InterleaveVertices(xs, ys, EdgeCutsList(xs, ys, w, |xs|), |xs|);
  }

  /** Each edge adds at most two points: list 1 holds the n vertices and at
      most 2n intersection points. */
  lemma List1Length(xs: seq<real>, ys: seq<real>, w: Bounds)
    requires |xs| == |ys|
    ensures |CutsData(xs, ys, w)| <= 2 * |xs|
    ensures |List1Data(xs, ys, w)| == |xs| + |CutsData(xs, ys, w)|
  {
    EdgeCutsShape(xs, ys, w);
    FlattenLength(xs, ys, EdgeCutsList(xs, ys, w, |xs|), |xs|);
  }

  // ---------------------------------------------------------------------------
  // The clipping lists, on the heap

  /** The snapshots of a list of points. */
  function Datas(ps: seq<Ponto>): (ds: seq<PontoData>)
    reads set q | q in ps
    ensures |ds| == |ps| && forall i :: 0 <= i < |ps| ==> ds[i] == Data(ps[i])
  {
    if ps == [] then [] else [Data(ps[0])] + Datas(ps[1..])
  }

  lemma DatasAppend(a: seq<Ponto>, b: seq<Ponto>)
    ensures Datas(a + b) == Datas(a) + Datas(b)
  {
  }

  /** Field-for-field copies have the same snapshots. */
  lemma CopiesDatas(copies: seq<Ponto>, pontos: seq<Ponto>)
    requires |copies| == |pontos| && forall i :: 0 <= i < |copies| ==> SameFields(copies[i], pontos[i])
    ensures Datas(copies) == Datas(pontos)
  {
  }

  lemma DatasOrients(a: seq<Ponto>, b: seq<Ponto>)
    requires Datas(a) == Datas(b)
    ensures Orients(a) == Orients(b)
  {
    assert forall i :: 0 <= i < |a| ==> Orients(a)[i] == Datas(a)[i].orientacao;
  }

  /** The snapshots with visibility switched on. */
  function ShowAll(ds: seq<PontoData>): seq<PontoData>
  {
    seq(|ds|, i requires 0 <= i < |ds| => ds[i].(visible := true))
  }

  /** The images of the elements of s under f, in order. */
  function MapSeq<T, U>(s: seq<T>, f: T -> U): seq<U>
  {
    seq(|s|, k requires 0 <= k < |s| => f(s[k]))
  }

  lemma MapSeqAppend<T, U>(a: seq<T>, b: seq<T>, f: T -> U)
    ensures MapSeq(a + b, f) == MapSeq(a, f) + MapSeq(b, f)
  {
    assert forall k :: 0 <= k < |a| + |b| ==> MapSeq(a + b, f)[k] == (MapSeq(a, f) + MapSeq(b, f))[k];
  }

  /** Taking the i-th element out of b, for the list and for its images. */
  lemma TakeOutAt<T, U>(b: seq<T>, i: nat, f: T -> U)
    requires i < |b|
    ensures multiset(b) == multiset(b[..i] + b[i + 1..]) + multiset{b[i]}
    ensures multiset(MapSeq(b, f)) == multiset(MapSeq(b[..i] + b[i + 1..], f)) + multiset{f(b[i])}
  {
    var l, x, r := b[..i], b[i], b[i + 1..];
    assert b == l + [x] + r;
    assert multiset(b) == multiset(l) + multiset{x} + multiset(r);
    assert multiset(l + r) == multiset(l) + multiset(r);
    MapSeqAppend(l, [x], f);
    MapSeqAppend(l + [x], r, f);
    MapSeqAppend(l, r, f);
    assert MapSeq([x], f) == [f(x)];
    ghost var fl, fr := MapSeq(l, f), MapSeq(r, f);
    assert MapSeq(b, f) == fl + [f(x)] + fr;
    assert MapSeq(l + r, f) == fl + fr;
    assert multiset(fl + [f(x)] + fr) == multiset(fl) + multiset{f(x)} + multiset(fr);
    assert multiset(fl + fr) == multiset(fl) + multiset(fr);
  }

  /** One element added to both sides of a multiset equality cancels out. */
  lemma CancelOne<T>(p: multiset<T>, q: multiset<T>, x: T)
    requires p + multiset{x} == q + multiset{x}
    ensures p == q
  {
    assert p == p + multiset{x} - multiset{x};
    assert q == q + multiset{x} - multiset{x};
  }

  /** Rearranging a list rearranges its images the same way. */
  lemma {:induction false} MapSeqPermutation<T, U>(a: seq<T>, b: seq<T>, f: T -> U)
    requires multiset(a) == multiset(b)
    ensures multiset(MapSeq(a, f)) == multiset(MapSeq(b, f))
    decreases |a|
  {
    if a == [] {
      assert |b| == |multiset(b)| == 0;
      assert MapSeq(b, f) == [];
    } else {
      var x := a[0];
      assert x in multiset(b);
      var i :| 0 <= i < |b| && b[i] == x;
      TakeOutAt(a, 0, f);
      TakeOutAt(b, i, f);
      var a', b' := a[..0] + a[1..], b[..i] + b[i + 1..];
      CancelOne(multiset(a'), multiset(b'), x);
      MapSeqPermutation(a', b', f);
    }
  }

  /** The points tagged as intersections, in order. */
  function IntersecaoPontos(ps: seq<Ponto>): (r: seq<Ponto>)
    reads set q | q in ps
  {
    if ps == [] then []
    else IntersecaoPontos(ps[..|ps| - 1]) + (if ps[|ps| - 1].intersecao then [ps[|ps| - 1]] else [])
  }

  /** The filtered list holds exactly the list's points that are tagged as
      intersections. */
  lemma {:induction false} IntersecaoPontosMembers(ps: seq<Ponto>)
    ensures forall q :: q in IntersecaoPontos(ps) ==> q in ps && q.intersecao
    ensures forall q :: q in ps ==> (q in IntersecaoPontos(ps) <==> q.intersecao)
  {
    if ps != [] {
      var init, last := ps[..|ps| - 1], ps[|ps| - 1];
      IntersecaoPontosMembers(init);
      assert ps == init + [last];
      assert IntersecaoPontos(ps) == IntersecaoPontos(init) + (if last.intersecao then [last] else []);
    }
  }

  /** Mean of the normalized coordinates, as the centroid computes it. */
  function MeanX(ps: seq<Ponto>): real
    reads set q | q in ps
  {
    if ps == [] then 0.0 else Sum(XNorms(ps)) / |ps| as real
  }

  function MeanY(ps: seq<Ponto>): real
    reads set q | q in ps
  {
    if ps == [] then 0.0 else Sum(YNorms(ps)) / |ps| as real
  }

  lemma {:induction false} IntersecaoPontosAppend(a: seq<Ponto>, b: seq<Ponto>)
    ensures IntersecaoPontos(a + b) == IntersecaoPontos(a) + IntersecaoPontos(b)
    decreases |b|
  {
    if b == [] {
      assert a + b == a;
    } else {
      var b', x := b[..|b| - 1], b[|b| - 1];
      var ab := a + b';
      assert a + b == ab + [x] && b == b' + [x];
      assert (a + b)[..|a + b| - 1] == ab && (a + b)[|a + b| - 1] == x;
      IntersecaoPontosAppend(a, b');
      assert IntersecaoPontos(a + b) == IntersecaoPontos(ab) + (if x.intersecao then [x] else []);
      assert IntersecaoPontos(b) == IntersecaoPontos(b') + (if x.intersecao then [x] else []);
    }
  }

  lemma {:induction false} IntersecaoPontosAllTagged(cs: seq<Ponto>)
    requires forall k :: 0 <= k < |cs| ==> cs[k].intersecao
    ensures IntersecaoPontos(cs) == cs
  {
    if cs != [] {
      var init, last := cs[..|cs| - 1], cs[|cs| - 1];
      assert forall k :: 0 <= k < |init| ==> init[k].intersecao by {
        forall k | 0 <= k < |init|
          ensures init[k].intersecao
        {
          assert init[k] == cs[k];
        }
      }
      IntersecaoPontosAllTagged(init);
      assert IntersecaoPontos(cs) == init + [last];
      assert init + [last] == cs;
    }
  }

  /** Two lists of distinct points with no point in common join to a list of
      distinct points. */
  lemma DistinctAppend(a: seq<Ponto>, b: seq<Ponto>)
    requires Distinct(a) && Distinct(b)
    requires forall q :: q in b ==> q !in a
    ensures Distinct(a + b)
  {
    var s := a + b;
    forall i, j | 0 <= i < j < |s|
      ensures s[i] != s[j]
    {
      if |a| <= i {
        assert s[i] == b[i - |a|] && s[j] == b[j - |a|];
      } else if |a| <= j {
        assert s[j] in b && s[i] in a;
      }
    }
  }

  /** The intersection points of a list of distinct points are distinct. */
  lemma {:induction false} IntersecaoPontosDistinct(ps: seq<Ponto>)
    requires Distinct(ps)
    ensures Distinct(IntersecaoPontos(ps))
  {
    if ps != [] {
      var init, last := ps[..|ps| - 1], ps[|ps| - 1];
      assert Distinct(init);
      IntersecaoPontosDistinct(init);
      IntersecaoPontosMembers(init);
      if last.intersecao {
        assert last !in init;
        DistinctAppend(IntersecaoPontos(init), [last]);
      }
    }
  }

  /** The four distinct corners followed by distinct points allocated later
      are distinct. */
  lemma CornersAndCutsDistinct(window: Window, inter: seq<Ponto>)
    requires window.Valid() && Distinct(inter)
    requires forall q :: q in inter ==> q !in window.Corners()
    ensures Distinct(window.Corners() + inter)
  {
    var s := window.Corners() + inter;
    forall i, j | 0 <= i < j < |s|
      ensures s[i] != s[j]
    {
      if 4 <= i {
        assert s[i] == inter[i - 4] && s[j] == inter[j - 4];
      } else if 4 <= j {
        assert s[j] in inter && s[i] in window.Corners();
      }
    }
  }

  /** Result of calcula_listas_recorte: whether the polygon lies inside the
      window when no edge is cut, or else the two lists. */
  datatype Listas = Dentro(dentro: bool) | Listas(list1: Poligono, list2: Poligono)

  /** The intersection points of the edge from ponto1 to ponto2 that
      Liang-Barsky reports, in the order they are appended to the lists. */
  method EdgeIntersections(window: Window, ponto1: Ponto, ponto2: Ponto) returns (cuts: seq<Ponto>)
    requires !ponto1.intersecao && !ponto2.intersecao
    ensures Datas(cuts) == Cuts(Clip(old(Data(ponto1)), old(Data(ponto2)), old(LeftEdge(window)),
                                     old(RightEdge(window)), old(BottomEdge(window)), old(TopEdge(window))))
    ensures forall q :: q in cuts ==> fresh(q)
    ensures Distinct(cuts)
  {
    var reta := new Reta(ponto1, ponto2, "black");
    var res := LiangBarskyClipping(window, reta);
    cuts := [];
    if res.ponto1.intersecao {
      cuts := cuts + [res.ponto1];
    }
    if res.ponto2.intersecao {
      cuts := cuts + [res.ponto2];
    }
  }

  /** The window's list: the four corners, in declaration order, then the
      intersection points, sorted by angle around the centroid of them all. */
  method WindowList(window: Window, inter: seq<Ponto>, atan2: (real, real) -> real) returns (list2: Poligono)
    requires window.Valid() && Distinct(inter)
    requires forall q :: q in inter ==> q !in window.Corners()
    ensures fresh(list2) && Distinct(list2.pontos)
    ensures multiset(list2.pontos) == multiset(window.Corners() + inter)
    ensures var base := window.Corners() + inter;
      SortedByKey(list2.pontos, MeanX(base), MeanY(base), atan2)
  {
    list2 := new Poligono([], "black");
    for k := 0 to 4
      invariant list2.pontos == window.Corners()[..k]
    {
      list2.pontos := list2.pontos + [window.Corners()[k]];
    }
    for k := 0 to |inter|
      invariant list2.pontos == window.Corners() + inter[..k]
    {
      list2.pontos := list2.pontos + [inter[k]];
    }
    ghost var base := list2.pontos;
    assert inter[..|inter|] == inter;
    CornersAndCutsDistinct(window, inter);
    var centro := CalculaCentroidePoligono(list2);
    list2.OrdenarPontos(centro, atan2);
    DistinctPermutation(base, list2.pontos);
  }

  /** One iteration over the polygon's edges: a fresh point for the vertex
      (x1, y1) and the intersection points of the edge from it to (x2, y2). */
  method EdgeStep(window: Window, x1: real, y1: real, x2: real, y2: real, ghost before: seq<Ponto>)
    returns (ponto1: Ponto, cuts: seq<Ponto>)
    ensures fresh(ponto1) && Data(ponto1) == VertexData(x1, y1)
    ensures Datas(cuts) == EdgeBlock(x1, y1, x2, y2, WindowBounds(window))
    ensures Distinct(cuts) && ponto1 !in cuts && ponto1 !in before
    ensures forall q :: q in cuts ==> fresh(q) && q !in before
  {
    ponto1 := new Ponto(x1, y1, NaoUtilizada, "black");
    var ponto2 := new Ponto(x2, y2, NaoUtilizada, "black");
    cuts := EdgeIntersections(window, ponto1, ponto2);
  }

  /** One edge step: appending an untagged vertex and distinct, tagged cuts
      that are new to list 1 keeps it distinct, extends its intersection part
      by the cuts and its snapshot by the vertex and the cuts' snapshots. */
  lemma ListStep(before: seq<Ponto>, inter: seq<Ponto>, ponto1: Ponto, cuts: seq<Ponto>,
                 v: PontoData, block: seq<PontoData>)
    requires inter == IntersecaoPontos(before) && Distinct(before)
    requires Data(ponto1) == v && !v.intersecao
    requires Datas(cuts) == block && AllTagged(block)
    requires Distinct(cuts) && ponto1 !in cuts && ponto1 !in before
    requires forall q :: q in cuts ==> q !in before
    ensures IntersecaoPontos(before + [ponto1] + cuts) == inter + cuts
    ensures Distinct(before + [ponto1] + cuts)
    ensures Datas(before + [ponto1] + cuts) == Datas(before) + [v] + block
    ensures Datas(inter + cuts) == Datas(inter) + block
  {
    var s1 := before + [ponto1];
    IntersecaoPontosAppend(s1, cuts);
    IntersecaoPontosAppend(before, [ponto1]);
    assert forall k :: 0 <= k < |cuts| ==> cuts[k].intersecao by {
      assert forall k :: 0 <= k < |cuts| ==> Data(cuts[k]) == block[k];
    }
    IntersecaoPontosAllTagged(cuts);
    assert IntersecaoPontos([ponto1]) == [] by {
      assert [ponto1][..0] == [];
    }
    assert IntersecaoPontos(s1) == inter;
    DistinctAppend(before, [ponto1]);
    DistinctAppend(s1, cuts);
    DatasAppend(s1, cuts);
    DatasAppend(before, [ponto1]);
    DatasAppend(inter, cuts);
    assert Datas([ponto1]) == [v];
  }

  /** One iteration over the polygon's edges: appends a fresh point for the
      vertex (x1, y1), then the intersection points of the edge from it to
      (x2, y2), to list 1 and the intersection points to their own list. */
  method AppendEdge(window: Window, pontos1: seq<Ponto>, inter: seq<Ponto>, x1: real, y1: real, x2: real, y2: real)
    returns (pontos1': seq<Ponto>, inter': seq<Ponto>)
    requires inter == IntersecaoPontos(pontos1) && Distinct(pontos1)
    ensures var block := old(EdgeBlock(x1, y1, x2, y2, WindowBounds(window)));
      && Datas(pontos1') == Datas(pontos1) + [VertexData(x1, y1)] + block
      && Datas(inter') == Datas(inter) + block
    ensures Datas(pontos1) == old(Datas(pontos1)) && Datas(inter) == old(Datas(inter))
    ensures inter' == IntersecaoPontos(pontos1') && Distinct(pontos1')
    ensures forall q :: q in pontos1' ==> q in pontos1 || fresh(q)
  {
    var ponto1, cuts := EdgeStep(window, x1, y1, x2, y2, pontos1);
    ListStep(pontos1, inter, ponto1, cuts, VertexData(x1, y1), Datas(cuts));
    pontos1' := pontos1 + [ponto1] + cuts;
    inter' := inter + cuts;
  }

  /** One more edge extends list 1 by its vertex and its intersection
      points, and the intersection list by those points. */
  lemma EdgeStepData(xs: seq<real>, ys: seq<real>, w: Bounds, i: nat)
    requires |xs| == |ys| && i < |xs|
    ensures var cs, j := EdgeCutsList(xs, ys, w, |xs|), (i + 1) % |xs|;
      var block := EdgeBlock(xs[i], ys[i], xs[j], ys[j], w);
      && Interleave(xs, ys, cs, i + 1) == Interleave(xs, ys, cs, i) + [VertexData(xs[i], ys[i])] + block
      && Flatten(cs, i + 1) == Flatten(cs, i) + block
  {
    EdgeCutsListAt(xs, ys, w, |xs|, i);
  }

  /** One iteration of the loop over the edges, on the loop's own terms:
      list 1 and the intersection list grow from the first i edges to the
      first i + 1. */
  method EdgeRound(window: Window, xs: seq<real>, ys: seq<real>, i: nat, pontos1: seq<Ponto>, inter: seq<Ponto>,
                   ghost w: Bounds, ghost cs: seq<seq<PontoData>>)
    returns (pontos1': seq<Ponto>, inter': seq<Ponto>)
    requires |xs| == |ys| && i < |xs| && w == WindowBounds(window) && cs == EdgeCutsList(xs, ys, w, |xs|)
    requires Datas(pontos1) == Interleave(xs, ys, cs, i) && Datas(inter) == Flatten(cs, i)
    requires inter == IntersecaoPontos(pontos1) && Distinct(pontos1)
    ensures Datas(pontos1') == Interleave(xs, ys, cs, i + 1) && Datas(inter') == Flatten(cs, i + 1)
    ensures inter' == IntersecaoPontos(pontos1') && Distinct(pontos1')
    ensures forall q :: q in pontos1' ==> q in pontos1 || fresh(q)
  {
    var j := (i + 1) % |xs|;
    EdgeStepData(xs, ys, w, i);
    pontos1', inter' := AppendEdge(window, pontos1, inter, xs[i], ys[i], xs[j], ys[j]);
  }

  /** The loop over the polygon's edges: list 1's points (each vertex as a
      fresh point, then the intersection points of the edge that starts at it)
      and the intersection points alone, in the same order. */
  method List1Points(window: Window, poligono: Poligono) returns (pontos1: seq<Ponto>, pontosIntersecao: seq<Ponto>)
    ensures var xs, ys, w := old(XNorms(poligono.pontos)), old(YNorms(poligono.pontos)), old(WindowBounds(window));
      && Datas(pontos1) == List1Data(xs, ys, w)
      && Datas(pontosIntersecao) == CutsData(xs, ys, w)
    ensures pontosIntersecao == IntersecaoPontos(pontos1)
    ensures Distinct(pontos1) && forall q :: q in pontos1 ==> fresh(q)
  {
    var n := |poligono.pontos|;
    var xs, ys := XNorms(poligono.pontos), YNorms(poligono.pontos);
    ghost var w := WindowBounds(window);
    ghost var cs := EdgeCutsList(xs, ys, w, |xs|);
    pontosIntersecao := [];
    pontos1 := [];
    for i := 0 to n
      invariant Datas(pontos1) == Interleave(xs, ys, cs, i)
      invariant Datas(pontosIntersecao) == Flatten(cs, i)
      invariant pontosIntersecao == IntersecaoPontos(pontos1)
      invariant forall q :: q in pontos1 ==> fresh(q)
      invariant Distinct(pontos1)
    {
      pontos1, pontosIntersecao := EdgeRound(window, xs, ys, i, pontos1, pontosIntersecao, w, cs);
    }
  }

  /** The two lists, once some edge is cut: list 1 holds the given points,
      list 2 the corners and the intersection points sorted by angle. */
  method MakeListas(window: Window, pontos1: seq<Ponto>, inter: seq<Ponto>, atan2: (real, real) -> real)
    returns (list1: Poligono, list2: Poligono)
    requires window.Valid() && Distinct(pontos1) && inter == IntersecaoPontos(pontos1)
    requires forall q :: q in inter ==> q !in window.Corners()
    ensures fresh(list1) && fresh(list2) && list1.pontos == pontos1
    ensures Datas(pontos1) == old(Datas(pontos1)) && IntersecaoPontos(pontos1) == inter
    ensures Datas(inter) == old(Datas(inter))
    ensures Distinct(list2.pontos)
    ensures multiset(list2.pontos) == multiset(window.Corners() + inter)
    ensures var base := window.Corners() + inter;
      SortedByKey(list2.pontos, MeanX(base), MeanY(base), atan2)
  {
    list1 := new Poligono(pontos1, "black");
    IntersecaoPontosDistinct(pontos1);
    list2 := WindowList(window, inter, atan2);
  }

  /** The polygon's list (vertices interleaved with the intersection points)
      and the window's list (corners and intersection points sorted by angle
      around their centroid); or, when no edge is cut, whether every vertex
      lies inside the window. */
  method CalculaListasRecorte(window: Window, poligono: Poligono, atan2: (real, real) -> real) returns (r: Listas)
    requires window.Valid()
    ensures var xs, ys, w := old(XNorms(poligono.pontos)), old(YNorms(poligono.pontos)), old(WindowBounds(window));
      && (r.Dentro? <==> CutsData(xs, ys, w) == [])
      && (r.Dentro? ==> r.dentro == forall k :: 0 <= k < |poligono.pontos| ==> InsideEps(window, poligono.pontos[k]))
      && (r.Listas? ==> Datas(r.list1.pontos) == List1Data(xs, ys, w))
      && (r.Listas? ==> Datas(IntersecaoPontos(r.list1.pontos)) == CutsData(xs, ys, w))
    ensures r.Listas? ==>
      && fresh(r.list1) && fresh(r.list2)
      && (forall q :: q in r.list1.pontos ==> fresh(q))
      && Distinct(r.list1.pontos) && Distinct(r.list2.pontos)
      && multiset(r.list2.pontos) == multiset(window.Corners() + IntersecaoPontos(r.list1.pontos))
      && var base := window.Corners() + IntersecaoPontos(r.list1.pontos);
         SortedByKey(r.list2.pontos, MeanX(base), MeanY(base), atan2)
  {
    var pontos1, pontosIntersecao := List1Points(window, poligono);
    if pontosIntersecao == [] {
      var dentro := ChecaPoligonoTotalmenteDentroWindow(window, poligono);
      return Dentro(dentro);
    }
    IntersecaoPontosMembers(pontos1);
    var list1, list2 := MakeListas(window, pontos1, pontosIntersecao, atan2);
    return Listas(list1, list2);
  }

  // ---------------------------------------------------------------------
  // Traversal of the two rings

  /** The orientation tags of a list of points, in order. */
  ghost function Orients(ps: seq<Ponto>): (os: seq<Orientacao>)
    reads set q | q in ps
    ensures |os| == |ps| && forall i :: 0 <= i < |ps| ==> os[i] == ps[i].orientacao
  {
    seq(|ps|, i requires 0 <= i < |ps| reads ps => ps[i].orientacao)
  }

  /** How many points of the list are still tagged ENTRANDO. */
  ghost function EntrandoCount(ps: seq<Ponto>): nat
    reads set q | q in ps
  {
    multiset(Orients(ps))[Entrando]
  }

  /** Rotating a ring keeps its tags with their multiplicities. */
  lemma OrientsRotate(s: seq<Ponto>, k: nat)
    requires k <= |s|
    ensures multiset(Orients(s[k..] + s[..k])) == multiset(Orients(s))
  {
    var os := Orients(s);
    var r := s[k..] + s[..k];
    assert |Orients(r)| == |os[k..] + os[..k]|;
    forall i | 0 <= i < |r|
      ensures Orients(r)[i] == (os[k..] + os[..k])[i]
    {
      if i < |s| - k {
        assert r[i] == s[k + i];
      } else {
        assert r[i] == s[i - (|s| - k)];
      }
    }
    assert Orients(r) == os[k..] + os[..k];
    RotatePermutes(os, k);
  }

  /** The tags after a walk has marked the first k points UTILIZADA. */
  function Marked(os: seq<Orientacao>, k: nat): (r: seq<Orientacao>)
    requires k <= |os|
    ensures |r| == |os|
    ensures forall i :: 0 <= i < |os| ==> r[i] == if i < k then Utilizada else os[i]
  {
    seq(k, _ => Utilizada) + os[k..]
  }

  /** Tags that agree point by point with a marked sequence are that sequence. */
  lemma OrientsMarked(s: seq<Ponto>, os: seq<Orientacao>, k: nat)
    requires k <= |s| == |os|
    requires forall i :: 0 <= i < |s| ==> s[i].orientacao == if i < k then Utilizada else os[i]
    ensures Orients(s) == Marked(os, k)
  {
    var a, b := Orients(s), Marked(os, k);
    assert |a| == |b|;
    forall i | 0 <= i < |a|
      ensures a[i] == b[i]
    {
    }
  }

  /** A walk that starts on a point tagged t (other than UTILIZADA) and marks
      at least that point leaves fewer points tagged t behind. */
  lemma MarkedConsumes(os: seq<Orientacao>, k: nat, t: Orientacao)
    requires 1 <= k <= |os| && os[0] == t && t != Utilizada
    ensures multiset(Marked(os, k))[t] < multiset(os)[t]
  {
    var us := seq(k, _ => Utilizada);
    assert Marked(os, k) == us + os[k..];
    assert t !in us;
    assert os == os[..k] + os[k..];
    assert os[..k][0] == t;
  }

  /** A rotation of distinct points is distinct and has the same points. */
  lemma RotateDistinct(s: seq<Ponto>, k: nat)
    requires Distinct(s) && k <= |s|
    ensures multiset(s[k..] + s[..k]) == multiset(s) && Distinct(s[k..] + s[..k])
  {
    RotatePermutes(s, k);
    DistinctPermutation(s, s[k..] + s[..k]);
  }

  /** The search key of busca_ponto_lista: equal normalized coordinates and
      equal orientation, compared exactly. */
  predicate Matches(alvo: Ponto, q: Ponto)
    reads alvo, q
  {
    alvo.xNorm == q.xNorm && alvo.yNorm == q.yNorm && alvo.orientacao == q.orientacao
  }

  /** Advances the cursor until it rests on an ENTRANDO point or
      maxIteracoes steps have been taken. After k steps the ring is the
      original rotated k times; no point passed on the way is ENTRANDO. When
      the bound covers a whole lap, an ENTRANDO point is found whenever the
      ring holds one. */
  method BuscaPontoEntrada(ring: CircularListPoligono, maxIteracoes: int) returns (p: Ponto, ghost k: nat, ghost m: nat)
    requires ring.Valid() && ring.nodes != []
    modifies ring
    ensures ring.Valid() && ring.Repr == old(ring.Repr) && ring.size == old(ring.size)
    ensures var s := old(ring.Points());
      && m < |s| && (k < |s| ==> m == k)
      && ring.Points() == s[m..] + s[..m] && p == s[m]
      && (forall j :: 0 <= j < k && j < |s| ==> s[j].orientacao != Entrando)
      && (p.orientacao == Entrando || k >= maxIteracoes)
      && (k == 0 || k <= maxIteracoes)
      && (maxIteracoes >= |s| && (exists i :: 0 <= i < |s| && s[i].orientacao == Entrando) ==> p.orientacao == Entrando)
  {
    ghost var s := ring.Points();
    ghost var n := |s|;
    var cur := ring.GetCurrent();
    p := cur;
    k, m := 0, 0;
    var iteracoes := 0;
    while p.orientacao != Entrando && iteracoes < maxIteracoes
      invariant ring.Valid() && ring.Repr == old(ring.Repr) && ring.size == old(ring.size) == n
      invariant iteracoes == k && (k == 0 || k <= maxIteracoes)
      invariant m < n && (k < n ==> m == k)
      invariant ring.Points() == s[m..] + s[..m] && p == s[m]
      invariant forall j :: 0 <= j < k && j < n ==> s[j].orientacao != Entrando
      decreases maxIteracoes - iteracoes
    {
      assert k < n ==> s[k].orientacao != Entrando;
      iteracoes := iteracoes + 1;
      p, m := ring.StepAround(s, m);
      k := k + 1;
    }
  }

  /** Advances the cursor to the first point, from the cursor on, that
      matches alvo, and returns it. The Python search never gives up;
      here it stops after one lap, with the ring back where it started, and
      returns null: no point matches, and the search would spin forever. */
  method BuscaPontoLista(alvo: Ponto, ring: CircularListPoligono) returns (p: Ponto?, ghost k: nat)
    requires ring.Valid() && ring.nodes != []
    modifies ring
    ensures ring.Valid() && ring.Repr == old(ring.Repr) && ring.size == old(ring.size)
    ensures var s := old(ring.Points());
      && k <= |s| && ring.Points() == s[k..] + s[..k]
      && (forall j :: 0 <= j < k ==> !Matches(alvo, s[j]))
      && (p != null ==> k < |s| && p == s[k] && p == ring.Points()[0] && Matches(alvo, p))
      && (p == null <==> forall j :: 0 <= j < |s| ==> !Matches(alvo, s[j]))
  {
    ghost var s := ring.Points();
    var n := ring.size;
    var cur := ring.GetCurrent();
    k := 0;
    var passos := 0;
    while passos < n && !Matches(alvo, cur)
      invariant ring.Valid() && ring.Repr == old(ring.Repr) && ring.size == n == |s|
      invariant passos == k <= n && ring.Points() == s[k..] + s[..k]
      invariant cur != null && (k < n ==> cur == s[k])
      invariant forall j :: 0 <= j < k ==> !Matches(alvo, s[j])
    {
      cur := ring.Step(s, k);
      k := k + 1;
      passos := passos + 1;
    }
    if passos == n {
      assert s[n..] + s[..n] == s;
      return null, k;
    }
    p := cur;
  }

  /** Checks, by one full lap of n = size steps, whether the ring still holds
      an ENTRANDO point; the lap leaves the ring where it was. */
  method LapHasEntrando(ring: CircularListPoligono, n: nat) returns (existe: bool)
    requires ring.Valid() && n == ring.size
    modifies ring
    ensures ring.Valid() && ring.Repr == old(ring.Repr) && ring.size == old(ring.size)
    ensures ring.Points() == old(ring.Points())
    ensures existe <==> Entrando in Orients(ring.Points())
  {
    ghost var s := ring.Points();
    ghost var os := Orients(s);
    existe := false;
    for i := 0 to n
      invariant ring.Valid() && ring.Repr == old(ring.Repr) && ring.size == n == |s|
      invariant ring.Points() == s[i..] + s[..i]
      invariant existe <==> Entrando in os[..i]
    {
      var point := ring.GetCurrent();
      assert point == s[i] && os[..i + 1] == os[..i] + [point.orientacao];
      var _ := ring.Step(s, i);
      if point.orientacao == Entrando {
        existe := true;
      }
    }
    assert s[n..] + s[..n] == s && os[..n] == os;
  }

  /** The first k points of s are UTILIZADA and the others keep the tags os. */
  ghost predicate MarkedUpTo(s: seq<Ponto>, os: seq<Orientacao>, k: nat)
    reads set q | q in s
  {
    |os| == |s| && k <= |s| &&
    forall i :: 0 <= i < |s| ==> s[i].orientacao == if i < k then Utilizada else os[i]
  }

  /** One step of a walk: emits the point under the cursor, marks it
      UTILIZADA and advances the cursor. */
  method MarkStep(ring: CircularListPoligono, cur: Ponto, acc: seq<Ponto>,
                  ghost s: seq<Ponto>, ghost os: seq<Orientacao>, ghost k: nat, ghost saida: seq<Ponto>)
    returns (acc': seq<Ponto>, next: Ponto)
    requires ring.Valid() && k < |s| && ring.Points() == s[k..] + s[..k]
    requires Distinct(s) && cur == s[k] && MarkedUpTo(s, os, k) && acc == saida + s[..k]
    modifies ring, cur`orientacao
    ensures ring.Valid() && ring.Repr == old(ring.Repr) && ring.size == old(ring.size)
    ensures ring.Points() == s[k + 1..] + s[..k + 1] && next == ring.Points()[0]
    ensures MarkedUpTo(s, os, k + 1) && acc' == saida + s[..k + 1]
  {
    cur.orientacao := Utilizada;
    acc' := acc + [cur];
    assert s[..k + 1] == s[..k] + [cur];
    next := ring.Step(s, k);
  }

  /** Emits points from the cursor on, marking each UTILIZADA, until the
      cursor rests on a point tagged `stop`, which is returned unmarked. The
      Python loop never gives up; after a whole lap every point is UTILIZADA and
      it would loop forever, so the model returns null there. */
  method Walk(ring: CircularListPoligono, stop: Orientacao, saida: seq<Ponto>)
    returns (p: Ponto?, saida': seq<Ponto>, ghost k: nat)
    requires ring.Valid() && ring.nodes != [] && Distinct(ring.Points()) && stop != Utilizada
    modifies ring, (set q | q in ring.Points())`orientacao
    ensures ring.Valid() && ring.Repr == old(ring.Repr) && ring.size == old(ring.size)
    ensures var s := old(ring.Points());
      && k <= |s| && ring.Points() == s[k..] + s[..k]
      && saida' == saida + s[..k]
      && Orients(s) == Marked(old(Orients(s)), k)
      && (forall j :: 0 <= j < k ==> old(s[j].orientacao) != stop)
      && (p == null <==> k == |s|)
      && (p != null ==> p == s[k] && p == ring.Points()[0] && p.orientacao == stop)
  {
    ghost var s := ring.Points();
    ghost var os := Orients(s);
    p, saida', k := WalkLoop(ring, stop, saida, s, os);
    OrientsMarked(s, os, k);
    if p == null {
      assert s[k..] + s[..k] == s;
    }
  }

  /** The loop of a walk: marks and emits points until one tagged `stop` is
      under the cursor or a whole lap is done. */
  method WalkLoop(ring: CircularListPoligono, stop: Orientacao, saida: seq<Ponto>,
                  ghost s: seq<Ponto>, ghost os: seq<Orientacao>)
    returns (p: Ponto?, saida': seq<Ponto>, ghost k: nat)
    requires ring.Valid() && ring.nodes != [] && ring.Points() == s && Distinct(s) && os == Orients(s)
    modifies ring, (set q | q in s)`orientacao
    ensures ring.Valid() && ring.Repr == old(ring.Repr) && ring.size == old(ring.size)
    ensures k <= |s| && ring.Points() == s[k..] + s[..k] && saida' == saida + s[..k]
    ensures MarkedUpTo(s, os, k) && forall j :: 0 <= j < k ==> os[j] != stop
    ensures p == null <==> k == |s|
    ensures p != null ==> p == s[k] && p.orientacao == stop
  {
    var n := ring.size;
    var cur := ring.GetCurrent();
    saida' := saida;
    k := 0;
    var passos := 0;
    while passos < n && cur.orientacao != stop
      invariant ring.Valid() && ring.Repr == old(ring.Repr) && ring.size == n == |s|
      invariant passos == k <= n && ring.Points() == s[k..] + s[..k]
      invariant cur != null && (k < n ==> cur == s[k])
      invariant saida' == saida + s[..k]
      invariant MarkedUpTo(s, os, k)
      invariant forall j :: 0 <= j < k ==> os[j] != stop
    {
      assert os[k] == cur.orientacao != stop;
      saida', cur := MarkStep(ring, cur, saida', s, os, k, saida);
      k := k + 1;
      passos := passos + 1;
    }
    p := if passos == n then null else cur;
  }

  /** What a walk that started on a point tagged `tag` and stopped on a point
      tagged `stop` (or went all the way round) has done: it emitted at least
      one point, every emitted point is a ring point now tagged UTILIZADA, and
      fewer points stay tagged `tag`. */
  lemma WalkEffects(s0: seq<Ponto>, s1: seq<Ponto>, os1: seq<Orientacao>, k: nat,
                    saida: seq<Ponto>, saida': seq<Ponto>, tag: Orientacao, stop: Orientacao)
    requires multiset(s1) == multiset(s0) && k <= |s1| == |os1| && 0 < |s1|
    requires Orients(s1) == Marked(os1, k) && saida' == saida + s1[..k]
    requires os1[0] == tag && tag != Utilizada && tag != stop
    requires k < |s1| ==> s1[k].orientacao == stop
    ensures 1 <= k && |saida'| > |saida|
    ensures forall i :: |saida| <= i < |saida'| ==> saida'[i] in s0 && saida'[i].orientacao == Utilizada
    ensures multiset(Orients(s1[k..] + s1[..k]))[tag] < multiset(os1)[tag]
  {
    MarkedConsumes(os1, k, tag);
    OrientsRotate(s1, k);
    forall i | |saida| <= i < |saida'|
      ensures saida'[i] in s0 && saida'[i].orientacao == Utilizada
    {
      var j := i - |saida|;
      assert saida'[i] == s1[j] && Orients(s1)[j] == Utilizada;
      assert s1[j] in multiset(s0);
    }
  }

  /** The walk of one half pass, from a cursor resting on a point tagged
      `tag`, with what it does to the ring's points and tags. */
  method WalkFrom(ring: CircularListPoligono, tag: Orientacao, stop: Orientacao, saida: seq<Ponto>,
                  ghost s0: seq<Ponto>, ghost os0: seq<Orientacao>)
    returns (p: Ponto?, saida': seq<Ponto>)
    requires ring.Valid() && ring.nodes != [] && Distinct(ring.Points())
    requires tag != stop && tag != Utilizada && stop != Utilizada
    requires ring.Points()[0].orientacao == tag
    requires multiset(ring.Points()) == multiset(s0) && multiset(Orients(ring.Points())) == multiset(os0)
    modifies ring, (set q | q in ring.Points())`orientacao
    ensures ring.Valid() && ring.Repr == old(ring.Repr) && ring.size == old(ring.size)
    ensures multiset(ring.Points()) == multiset(s0)
    ensures |saida'| > |saida| && saida'[..|saida|] == saida
    ensures forall i :: |saida| <= i < |saida'| ==> saida'[i] in s0 && saida'[i].orientacao == Utilizada
    ensures p != null ==> p == ring.Points()[0] && p.orientacao == stop
    ensures multiset(Orients(ring.Points()))[tag] < multiset(os0)[tag]
  {
    ghost var s1 := ring.Points();
    ghost var os1 := Orients(s1);
    ghost var k;
    p, saida', k := Walk(ring, stop, saida);
    WalkEffects(s0, s1, os1, k, saida, saida', tag, stop);
    RotatePermutes(s1, k);
  }

  /** One half of a pass of the outer loop: finds, from the cursor on, the
      point with normalized coordinates (x, y) tagged `tag`, then walks from
      it, emitting and marking UTILIZADA every point up to the next one tagged
      `stop`, which it returns. Null stands for the Python program's endless loops:
      no such point, or no `stop` point in the rest of the ring. Either way
      the ring keeps its points and every emitted point is a ring point now
      tagged UTILIZADA; once the point is found (achou), at least that point
      is emitted, so fewer points stay tagged `tag`. */
  method HalfPass(ring: CircularListPoligono, x: real, y: real, tag: Orientacao, stop: Orientacao, saida: seq<Ponto>)
    returns (p: Ponto?, saida': seq<Ponto>, ghost achou: bool)
    requires ring.Valid() && ring.nodes != [] && Distinct(ring.Points())
    requires tag != stop && tag != Utilizada && stop != Utilizada
    modifies ring, (set q | q in ring.Points())`orientacao
    ensures ring.Valid() && ring.Repr == old(ring.Repr) && ring.size == old(ring.size)
    ensures multiset(ring.Points()) == old(multiset(ring.Points()))
    ensures |saida'| >= |saida| && saida'[..|saida|] == saida
    ensures forall i :: |saida| <= i < |saida'| ==> saida'[i] in old(ring.Points()) && saida'[i].orientacao == Utilizada
    ensures p != null ==> achou && p == ring.Points()[0] && p.orientacao == stop
    ensures achou ==> |saida'| > |saida|
    ensures achou ==> multiset(Orients(ring.Points()))[tag] < old(multiset(Orients(ring.Points()))[tag])
  {
    ghost var s0 := ring.Points();
    ghost var os0 := Orients(s0);
    var achado := Locate(ring, x, y, tag);
    if achado == null {
      return null, saida, false;
    }
    achou := true;
    SameMembers(ring.Points(), s0);
    p, saida' := WalkFrom(ring, tag, stop, saida, s0, os0);
  }

  /** The search that opens a half pass: a target point at (x, y) tagged
      `tag` is looked up from the cursor on. The cursor moves, but the ring
      keeps its points and their tags; when found, the point under the
      cursor carries `tag`. */
  method Locate(ring: CircularListPoligono, x: real, y: real, tag: Orientacao) returns (achado: Ponto?)
    requires ring.Valid() && ring.nodes != [] && Distinct(ring.Points())
    modifies ring
    ensures ring.Valid() && ring.Repr == old(ring.Repr) && ring.size == old(ring.size)
    ensures multiset(ring.Points()) == old(multiset(ring.Points())) && Distinct(ring.Points())
    ensures multiset(Orients(ring.Points())) == old(multiset(Orients(ring.Points())))
    ensures achado != null ==> achado == ring.Points()[0] && achado.orientacao == tag
    ensures achado != null ==> achado.xNorm == x && achado.yNorm == y
  {
    ghost var s0 := ring.Points();
    ghost var os0 := Orients(s0);
    var alvo := new Ponto(x, y, tag, "black");
    ghost var k1;
    achado, k1 := BuscaPontoLista(alvo, ring);
    assert Orients(s0) == os0;
    RotateDistinct(s0, k1);
    OrientsRotate(s0, k1);
  }

  /** Sequences with the same multiset have the same members. */
  lemma SameMembers(a: seq<Ponto>, b: seq<Ponto>)
    requires multiset(a) == multiset(b)
    ensures forall q :: q in a <==> q in b
  {
    forall q
      ensures q in a <==> q in b
    {
      assert q in a <==> q in multiset(a);
      assert q in b <==> q in multiset(b);
    }
  }

  /** No point belongs to both rings. */
  ghost predicate Disjoint(a: seq<Ponto>, b: seq<Ponto>)
  {
    forall q :: q in a ==> q !in b
  }

  /** The window half of a pass: the walk along the window ring leaves the
      polygon ring and its points as they were. */
  method WindowHalf(a: CircularListPoligono, b: CircularListPoligono, q: Ponto, saida1: seq<Ponto>,
                    ghost saida: seq<Ponto>, ghost a0: seq<Ponto>)
    returns (p: Ponto?, saida': seq<Ponto>)
    requires a.Valid() && b.Valid() && a != b && b.nodes != [] && Distinct(b.Points())
    requires forall r :: r in a.Points() ==> r in a0
    requires forall r :: r in a0 ==> r !in b.Points()
    requires |saida1| >= |saida|
    requires forall i :: |saida| <= i < |saida1| ==> saida1[i] in a0
    modifies b, (set r | r in b.Points())`orientacao
    ensures a.Valid() && a.Points() == old(a.Points()) && a.Repr == old(a.Repr) && a.size == old(a.size)
    ensures EntrandoCount(a.Points()) == old(EntrandoCount(a.Points()))
    ensures b.Valid() && b.Repr == old(b.Repr) && b.size == old(b.size)
    ensures multiset(b.Points()) == old(multiset(b.Points()))
    ensures |saida'| >= |saida1| && saida'[..|saida1|] == saida1
    ensures forall i :: |saida| <= i < |saida'| ==> saida'[i] in a0 || saida'[i] in old(b.Points())
    ensures p != null ==> p == b.Points()[0] && p.orientacao == Entrando
  {
    ghost var b0 := b.Points();
    ghost var contagem := EntrandoCount(a.Points());
    ghost var achouB;
    label antes:
    p, saida', achouB := HalfPass(b, q.xNorm, q.yNorm, Saindo, Entrando, saida1);
    Untouched@antes(a);
    assert EntrandoCount(a.Points()) == contagem;
    forall i | |saida| <= i < |saida'|
      ensures saida'[i] in a0 || saida'[i] in b0
    {
      if i < |saida1| {
        assert saida'[i] == saida1[i];
      }
    }
  }

  /** One pass of the outer loop of the clipper: from the polygon's ENTRANDO
      point at (x, y), along the polygon up to its SAINDO point, then from
      that point along the window up to its next ENTRANDO point, which is
      returned (null: the search would loop forever). Each ring keeps its
      points; the emitted points are ring points; once the
      polygon's point is found (achou), something is emitted and the polygon
      has fewer ENTRANDO points, which bounds the number of passes. */
  method Pass(a: CircularListPoligono, b: CircularListPoligono, x: real, y: real, saida: seq<Ponto>)
    returns (p: Ponto?, saida': seq<Ponto>, ghost achou: bool)
    requires a.Valid() && b.Valid() && a != b && a.nodes != [] && b.nodes != []
    requires Distinct(a.Points()) && Distinct(b.Points()) && Disjoint(a.Points(), b.Points())
    modifies a, b, (set q | q in a.Points())`orientacao, (set q | q in b.Points())`orientacao
    ensures a.Valid() && a.Repr == old(a.Repr) && a.size == old(a.size)
    ensures b.Valid() && b.Repr == old(b.Repr) && b.size == old(b.size)
    ensures multiset(a.Points()) == old(multiset(a.Points())) && multiset(b.Points()) == old(multiset(b.Points()))
    ensures |saida'| >= |saida| && saida'[..|saida|] == saida
    ensures forall i :: |saida| <= i < |saida'| ==> saida'[i] in old(a.Points()) || saida'[i] in old(b.Points())
    ensures achou ==> |saida'| > |saida| && EntrandoCount(a.Points()) < old(EntrandoCount(a.Points()))
    ensures p != null ==> achou && p == b.Points()[0] && p.orientacao == Entrando
  {
    ghost var a0 := a.Points();
    var q, saida1, achouA := HalfPass(a, x, y, Entrando, Saindo, saida);
    Untouched(b);
    achou := achouA;
    if q == null {
      return null, saida1, achou;
    }
    SameMembers(a.Points(), a0);
    p, saida' := WindowHalf(a, b, q, saida1, saida, a0);
  }

  /** Two rings of distinct points with no point in common stay so while
      each keeps its points. */
  lemma RingsApart(a0: seq<Ponto>, b0: seq<Ponto>, a1: seq<Ponto>, b1: seq<Ponto>)
    requires Distinct(a0) && Distinct(b0) && Disjoint(a0, b0)
    requires multiset(a1) == multiset(a0) && multiset(b1) == multiset(b0)
    ensures Distinct(a1) && Distinct(b1) && Disjoint(a1, b1)
    ensures forall q :: q in a1 <==> q in a0
    ensures forall q :: q in b1 <==> q in b0
  {
    DistinctPermutation(a0, a1);
    DistinctPermutation(b0, b1);
    SameMembers(a1, a0);
    SameMembers(b1, b0);
  }

  /** The opening search of the clipper: the cursor of the polygon ring
      moves to its first ENTRANDO point, if one comes within a lap, and
      (x, y) are the normalized coordinates of the point it stops on; the
      ring keeps its points and their tags. */
  method EntryPoint(a: CircularListPoligono) returns (x: real, y: real)
    requires a.Valid() && a.nodes != []
    modifies a
    ensures a.Valid() && a.Repr == old(a.Repr) && a.size == old(a.size)
    ensures multiset(a.Points()) == old(multiset(a.Points()))
    ensures Entrando in Orients(a.Points()) <==> old(Entrando in Orients(a.Points()))
    ensures x == a.Points()[0].xNorm && y == a.Points()[0].yNorm
    ensures Entrando in Orients(a.Points()) ==> a.Points()[0].orientacao == Entrando
  {
    ghost var a0 := a.Points();
    ghost var os0 := Orients(a0);
    if Entrando in os0 {
      var i :| 0 <= i < |os0| && os0[i] == Entrando;
      assert a0[i].orientacao == Entrando;
    }
    var p, k, m := BuscaPontoEntrada(a, a.size);
    assert Orients(a0) == os0;
    OrientsRotate(a0, m);
    RotatePermutes(a0, m);
    ghost var os1 := Orients(a.Points());
    assert Entrando in os1 <==> Entrando in multiset(os1);
    assert Entrando in os0 <==> Entrando in multiset(os0);
    assert a.Points()[0] == p;
    x, y := p.xNorm, p.yNorm;
  }

  /** One round of the outer loop of the clipper: a lap over the polygon
      ring looks for an ENTRANDO point (existe); if there is one, a pass
      runs from the point at (x, y) and returns the window's next ENTRANDO
      point (null: the search would spin forever). The rings keep their
      points (a0 and b0 up to order), only ring points are emitted, and a
      completed pass leaves fewer ENTRANDO points in the polygon ring. */
  method Round(a: CircularListPoligono, b: CircularListPoligono, n: nat, x: real, y: real, saida: seq<Ponto>,
               ghost a0: seq<Ponto>, ghost b0: seq<Ponto>)
    returns (existe: bool, q: Ponto?, saida': seq<Ponto>)
    requires a.Valid() && b.Valid() && a != b && a.nodes != [] && b.nodes != [] && n == a.size
    requires Distinct(a0) && Distinct(b0) && Disjoint(a0, b0)
    requires multiset(a.Points()) == multiset(a0) && multiset(b.Points()) == multiset(b0)
    requires forall r :: r in saida ==> r in a0 || r in b0
    modifies a, b, (set r | r in a0)`orientacao, (set r | r in b0)`orientacao
    ensures a.Valid() && b.Valid() && a.size == n && a.nodes != [] && b.nodes != []
    ensures multiset(a.Points()) == multiset(a0) && multiset(b.Points()) == multiset(b0)
    ensures forall r :: r in saida' ==> r in a0 || r in b0
    ensures existe <==> old(Entrando in Orients(a.Points()))
    ensures !existe ==> saida' == saida && Entrando !in Orients(a.Points())
    ensures existe && q != null ==> |saida'| > |saida| && EntrandoCount(a.Points()) < old(EntrandoCount(a.Points()))
  {
    RingsApart(a0, b0, a.Points(), b.Points());
    ghost var os := Orients(a.Points());
    existe := LapHasEntrando(a, n);
    assert Orients(a.Points()) == os;
    if !existe {
      return existe, null, saida;
    }
    q, saida' := PassFrom(a, b, x, y, saida, a0, b0);
  }

  /** The pass of a round, stated over the rings' original points a0 and
      b0. */
  method PassFrom(a: CircularListPoligono, b: CircularListPoligono, x: real, y: real, saida: seq<Ponto>,
                  ghost a0: seq<Ponto>, ghost b0: seq<Ponto>)
    returns (q: Ponto?, saida': seq<Ponto>)
    requires a.Valid() && b.Valid() && a != b && a.nodes != [] && b.nodes != []
    requires Distinct(a.Points()) && Distinct(b.Points()) && Disjoint(a.Points(), b.Points())
    requires multiset(a.Points()) == multiset(a0) && multiset(b.Points()) == multiset(b0)
    requires forall r :: r in a.Points() <==> r in a0
    requires forall r :: r in b.Points() <==> r in b0
    requires forall r :: r in saida ==> r in a0 || r in b0
    modifies a, b, (set r | r in a0)`orientacao, (set r | r in b0)`orientacao
    ensures a.Valid() && b.Valid() && a.size == old(a.size) && a.nodes != [] && b.nodes != []
    ensures multiset(a.Points()) == multiset(a0) && multiset(b.Points()) == multiset(b0)
    ensures forall r :: r in saida' ==> r in a0 || r in b0
    ensures q != null ==> |saida'| > |saida| && EntrandoCount(a.Points()) < old(EntrandoCount(a.Points()))
  {
    ghost var achou: bool;
    q, saida', achou := Pass(a, b, x, y, saida);
    forall r | r in saida'
      ensures r in a0 || r in b0
    {
      var i :| 0 <= i < |saida'| && saida'[i] == r;
      if i < |saida| {
        assert saida'[i] == saida[i];
      }
    }
  }

  /** The outer loop of the clipper over the polygon ring a and the window
      ring b. First the cursor of a goes to an ENTRANDO point (within a
      lap); then, as long as a lap over a finds an ENTRANDO point, one pass
      runs from the last point found. The passes emit ring points only. When
      the loop ends (termina) no ENTRANDO point is left in a, and something
      was emitted exactly when a held an ENTRANDO point at the start. When a
      search finds nothing the Python loop would spin forever; the model
      stops there with termina false. Without an ENTRANDO point in a at the
      start, the first lap finds none and the loop ends (termina). */
  method Traverse(a: CircularListPoligono, b: CircularListPoligono) returns (saida: seq<Ponto>, termina: bool)
    requires a.Valid() && b.Valid() && a != b && a.nodes != [] && b.nodes != []
    requires Distinct(a.Points()) && Distinct(b.Points()) && Disjoint(a.Points(), b.Points())
    modifies a, b, (set q | q in a.Points())`orientacao, (set q | q in b.Points())`orientacao
    ensures a.Valid() && b.Valid()
    ensures multiset(a.Points()) == old(multiset(a.Points())) && multiset(b.Points()) == old(multiset(b.Points()))
    ensures forall q :: q in saida ==> q in old(a.Points()) || q in old(b.Points())
    ensures termina ==> Entrando !in Orients(a.Points())
    ensures termina ==> (saida == [] <==> Entrando !in old(Orients(a.Points())))
    ensures Entrando !in old(Orients(a.Points())) ==> termina
  {
    ghost var a0, b0 := a.Points(), b.Points();
    ghost var entrada0 := Entrando in Orients(a0);
    var n := a.size;
    var x, y := EntryPoint(a);
    Untouched(b);
    saida := [];
    while true
      invariant a.Valid() && b.Valid() && a.size == n && a.nodes != [] && b.nodes != []
      invariant multiset(a.Points()) == multiset(a0) && multiset(b.Points()) == multiset(b0)
      invariant forall q :: q in saida ==> q in a0 || q in b0
      invariant saida == [] ==> (Entrando in Orients(a.Points()) <==> entrada0)
      invariant saida != [] ==> entrada0
      decreases EntrandoCount(a.Points())
    {
      var existe, q, saida1 := Round(a, b, n, x, y, saida, a0, b0);
      if !existe {
        return saida, true;
      }
      saida := saida1;
      if q == null {
        return saida, false;
      }
      x, y := q.xNorm, q.yNorm;
    }
  }

  // ---------------------------------------------------------------------
  // The clipper

  /** The fallback for a cut polygon whose traversal emitted nothing: the
      intersection points of the list, in list order, each made visible.
      Only their visibility changes. */
  method MarkIntersecoes(pontos: seq<Ponto>) returns (saida: seq<Ponto>)
    modifies (set q | q in pontos && q.intersecao)`visible
    ensures saida == old(IntersecaoPontos(pontos))
    ensures forall q :: q in saida ==> q.visible && q.intersecao
  {
    saida := [];
    for i := 0 to |pontos|
      invariant saida == old(IntersecaoPontos(pontos[..i]))
      invariant forall q :: q in saida ==> q.visible && q.intersecao
    {
      var ponto := pontos[i];
      assert pontos[..i + 1][..i] == pontos[..i];
      if ponto.intersecao {
        ponto.visible := true;
        saida := saida + [ponto];
      }
    }
    assert pontos[..|pontos|] == pontos;
  }

  /** Whether some point of the list is tagged ENTRANDO. */
  predicate HasEntrando(ds: seq<PontoData>)
  {
    exists i :: 0 <= i < |ds| && ds[i].orientacao == Entrando
  }

  lemma OrientsDatas(ps: seq<Ponto>)
    ensures Entrando in Orients(ps) <==> HasEntrando(Datas(ps))
  {
    if HasEntrando(Datas(ps)) {
      var i :| 0 <= i < |ps| && Datas(ps)[i].orientacao == Entrando;
      assert Orients(ps)[i] == Entrando;
    }
  }

  /** What the clipper returns: the clipped polygon, or Diverges where the
      Python loop would spin forever. */
  datatype Outcome = Clipped(recortado: Poligono) | Diverges

  /** The two rings of the clipper, built from deep copies of the two
      lists: fresh, valid, of distinct points, with no point in common, each
      holding field-for-field copies of its list in order from the cursor. */
  method BuildRings(list1: Poligono, list2: Poligono) returns (poly: CircularListPoligono, janela: CircularListPoligono)
    requires Distinct(list1.pontos) && Distinct(list2.pontos) && list1.pontos != [] && list2.pontos != []
    ensures fresh(poly) && fresh(janela) && poly != janela
    ensures poly.Valid() && janela.Valid() && poly.nodes != [] && janela.nodes != []
    ensures Distinct(poly.Points()) && Distinct(janela.Points()) && Disjoint(poly.Points(), janela.Points())
    ensures forall q :: q in poly.Points() ==> fresh(q)
    ensures forall q :: q in janela.Points() ==> fresh(q)
    ensures CopiedFrom(poly.Points(), list1.pontos) && CopiedFrom(janela.Points(), list2.pontos)
    ensures Orients(poly.Points()) == Orients(list1.pontos)
  {
    poly := CopyRing(list1.pontos);
    assert CopiedFrom(poly.Points(), list1.pontos);
    janela := CopyRing(list2.pontos);
    DatasOrients(poly.Points(), list1.pontos);
  }

  /** The points ps agree field for field with the points qs, in order. */
  ghost predicate CopiedFrom(ps: seq<Ponto>, qs: seq<Ponto>)
    reads (set q | q in ps), (set q | q in qs)
  {
    Datas(ps) == Datas(qs)
  }

  /** A ring over a deep copy of the points. */
  method CopyRing(pontos: seq<Ponto>) returns (ring: CircularListPoligono)
    requires Distinct(pontos) && pontos != []
    ensures fresh(ring) && ring.Valid() && ring.nodes != [] && Distinct(ring.Points())
    ensures forall q :: q in ring.Points() ==> fresh(q)
    ensures Datas(ring.Points()) == Datas(pontos)
  {
    var copias := CopyPontos(pontos);
    CopiesDatas(copias, pontos);
    var pol := new Poligono(copias, "black");
    ring := new CircularListPoligono(pol);
  }

  /** The traversal of the two rings, then the fallback: when the
      traversal emits nothing, the intersection points of list 2 (whose
      points are not ring points) are emitted instead, made visible. The
      traversal always ends when the polygon ring has no ENTRANDO point. */
  method TraverseOrFallback(poly: CircularListPoligono, janela: CircularListPoligono, pontos2: seq<Ponto>)
    returns (saida: seq<Ponto>, termina: bool)
    requires poly.Valid() && janela.Valid() && poly != janela && poly.nodes != [] && janela.nodes != []
    requires Distinct(poly.Points()) && Distinct(janela.Points()) && Disjoint(poly.Points(), janela.Points())
    requires forall q :: q in pontos2 ==> q !in poly.Points() && q !in janela.Points()
    requires IntersecaoPontos(pontos2) != []
    modifies poly, janela, (set q | q in poly.Points())`orientacao, (set q | q in janela.Points())`orientacao
    modifies (set q | q in pontos2 && q.intersecao)`visible
    ensures termina ==> saida != []
    ensures old(Entrando !in Orients(poly.Points())) ==> termina
    ensures termina && old(Entrando !in Orients(poly.Points())) ==>
      saida == old(IntersecaoPontos(pontos2)) && forall q :: q in saida ==> q.visible && q.intersecao
    ensures old(Entrando in Orients(poly.Points())) ==>
      forall q :: q in saida ==> q in old(poly.Points()) || q in old(janela.Points())
  {
    ghost var inter2 := IntersecaoPontos(pontos2);
    saida, termina := Traverse(poly, janela);
    if termina && saida == [] {
      assert IntersecaoPontos(pontos2) == inter2;
      saida := MarkIntersecoes(pontos2);
    }
  }

  /** The clipper once some edge is cut: the rings are built from copies of
      the two lists and traversed, with the fallback above. The result
      carries the polygon's colour and is never empty; it is made of ring
      points (fresh copies) when list 1 has an ENTRANDO point, and
      otherwise it is always given, made of list 2's intersection points,
      made visible. */
  method ClipLists(list1: Poligono, list2: Poligono, cor: string) returns (r: Outcome)
    requires Distinct(list1.pontos) && Distinct(list2.pontos) && list1.pontos != [] && list2.pontos != []
    requires IntersecaoPontos(list2.pontos) != []
    modifies (set q | q in list2.pontos && q.intersecao)`visible
    ensures old(Entrando !in Orients(list1.pontos)) ==> r.Clipped?
    ensures r.Clipped? ==> fresh(r.recortado) && r.recortado.cor == cor && r.recortado.visible
    ensures r.Clipped? ==> r.recortado.pontos != []
    ensures r.Clipped? && old(Entrando !in Orients(list1.pontos)) ==>
      r.recortado.pontos == old(IntersecaoPontos(list2.pontos)) &&
      forall q :: q in r.recortado.pontos ==> q.visible && q.intersecao
    ensures r.Clipped? && old(Entrando in Orients(list1.pontos)) ==>
      forall q :: q in r.recortado.pontos ==> fresh(q)
  {
    ghost var entrada := Entrando in Orients(list1.pontos);
    ghost var inter2 := IntersecaoPontos(list2.pontos);
    var poly, janela := BuildRings(list1, list2);
    assert (Entrando in Orients(poly.Points())) == entrada;
    assert IntersecaoPontos(list2.pontos) == inter2;
    ghost var pa, pb := poly.Points(), janela.Points();
    assert forall q :: q in list2.pontos ==> q !in pa && q !in pb;
    r := ClipRings(poly, janela, list2.pontos, cor, entrada, inter2);
  }

  /** The traversal with its fallback, and the result polygon it gives:
      Diverges exactly when the traversal does not finish, which cannot
      happen when the polygon ring has no ENTRANDO point. */
  method ClipRings(poly: CircularListPoligono, janela: CircularListPoligono, pontos2: seq<Ponto>, cor: string,
                   ghost entrada: bool, ghost inter2: seq<Ponto>)
    returns (r: Outcome)
    requires poly.Valid() && janela.Valid() && poly != janela && poly.nodes != [] && janela.nodes != []
    requires Distinct(poly.Points()) && Distinct(janela.Points()) && Disjoint(poly.Points(), janela.Points())
    requires forall q :: q in pontos2 ==> q !in poly.Points() && q !in janela.Points()
    requires IntersecaoPontos(pontos2) != []
    requires entrada == (Entrando in Orients(poly.Points())) && inter2 == IntersecaoPontos(pontos2)
    modifies poly, janela, (set q | q in poly.Points())`orientacao, (set q | q in janela.Points())`orientacao
    modifies (set q | q in pontos2 && q.intersecao)`visible
    ensures !entrada ==> r.Clipped?
    ensures r.Clipped? ==> fresh(r.recortado) && r.recortado.cor == cor && r.recortado.visible
    ensures r.Clipped? ==> r.recortado.pontos != []
    ensures r.Clipped? && !entrada ==>
      r.recortado.pontos == inter2 &&
      forall q :: q in r.recortado.pontos ==> q.visible && q.intersecao
    ensures r.Clipped? && entrada ==>
      forall q :: q in r.recortado.pontos ==> q in old(poly.Points()) || q in old(janela.Points())
  {
    var saida, termina := TraverseOrFallback(poly, janela, pontos2);
    if !termina {
      return Diverges;
    }
    var recortado := new Poligono(saida, cor);
    return Clipped(recortado);
  }

  /** Taking one occurrence of x, which m holds, out of c + m. */
  lemma TakeOut(s: multiset<Ponto>, c: multiset<Ponto>, m: multiset<Ponto>, x: Ponto)
    requires s + multiset{x} == c + m && x in m
    ensures s == c + (m - multiset{x})
  {
    assert s == s + multiset{x} - multiset{x};
    assert m == (m - multiset{x}) + multiset{x};
    assert c + m - multiset{x} == c + (m - multiset{x});
  }

  /** A list made of untagged points c and tagged points m, in any order,
      filtered to its intersection points, is a permutation of m. */
  lemma {:induction false} IntersecaoFilter(a: seq<Ponto>, c: multiset<Ponto>, m: multiset<Ponto>)
    requires multiset(a) == c + m
    requires forall q :: q in c ==> !q.intersecao
    requires forall q :: q in m ==> q.intersecao
    ensures multiset(IntersecaoPontos(a)) == m
  {
    if a == [] {
      assert |c + m| == 0;
    } else {
      var a', x := a[..|a| - 1], a[|a| - 1];
      assert a == a' + [x];
      assert multiset(a') + multiset{x} == c + m;
      assert x in c + m by {
        assert x in multiset(a);
      }
      if x.intersecao {
        TakeOut(multiset(a'), c, m, x);
        IntersecaoFilter(a', c, m - multiset{x});
        assert IntersecaoPontos(a) == IntersecaoPontos(a') + [x];
      } else {
        assert c + m == m + c;
        TakeOut(multiset(a'), m, c, x);
        assert m + (c - multiset{x}) == (c - multiset{x}) + m;
        IntersecaoFilter(a', c - multiset{x}, m);
      }
    }
  }

  /** The window's list (the corners, which are no intersections, and list
      1's intersection points, in any order) filtered to its intersection
      points is a permutation of list 1's intersection points. */
  lemma WindowIntersecoes(window: Window, inter: seq<Ponto>, pontos2: seq<Ponto>)
    requires window.Valid() && forall k :: 0 <= k < |inter| ==> inter[k].intersecao
    requires multiset(pontos2) == multiset(window.Corners() + inter)
    ensures multiset(IntersecaoPontos(pontos2)) == multiset(inter)
  {
    assert multiset(window.Corners() + inter) == multiset(window.Corners()) + multiset(inter);
    assert forall q :: q in multiset(inter) ==> q.intersecao by {
      forall q | q in multiset(inter)
        ensures q.intersecao
      {
        assert q in inter;
      }
    }
    IntersecaoFilter(pontos2, multiset(window.Corners()), multiset(inter));
  }

  /** d is e made visible. */
  predicate Shown(d: PontoData, e: PontoData)
  {
    d == e.(visible := true)
  }

  /** Points made visible, and otherwise unchanged, rearranged: their
      snapshots are the old ones with visibility on, rearranged. */
  lemma ShownPermutation(s: seq<Ponto>, inter: seq<Ponto>, cuts: seq<PontoData>)
    requires multiset(s) == multiset(inter) && |cuts| == |inter|
    requires forall i :: 0 <= i < |inter| ==> Shown(Data(inter[i]), cuts[i])
    ensures multiset(Datas(s)) == multiset(ShowAll(cuts))
  {
    var m := map q | q in inter :: Data(q);
    var f := (q: Ponto) => if q in m then m[q] else VertexData(0.0, 0.0);
    forall q | q in s
      ensures f(q) == Data(q)
    {
      assert q in multiset(inter);
    }
    DatasAsImages(s, f);
    ShowAllAsImages(inter, cuts, f);
    MapSeqPermutation(s, inter, f);
  }

  /** The snapshots of a list are its images under any f that agrees with Data on it. */
  lemma DatasAsImages(s: seq<Ponto>, f: Ponto -> PontoData)
    requires forall q :: q in s ==> f(q) == Data(q)
    ensures Datas(s) == MapSeq(s, f)
  {
    forall k | 0 <= k < |s|
      ensures Datas(s)[k] == MapSeq(s, f)[k]
    {
    }
  }

  /** Shown snapshots of a list are its images under any f that yields them. */
  lemma ShowAllAsImages(inter: seq<Ponto>, cuts: seq<PontoData>, f: Ponto -> PontoData)
    requires |cuts| == |inter|
    requires forall i :: 0 <= i < |inter| ==> f(inter[i]) == cuts[i].(visible := true)
    ensures ShowAll(cuts) == MapSeq(inter, f)
  {
    assert forall k :: 0 <= k < |inter| ==> ShowAll(cuts)[k] == MapSeq(inter, f)[k];
  }

  /** The lists of a cut polygon: both are nonempty, and list 2's
      intersection points are list 1's, rearranged. */
  lemma CutLists(window: Window, pontos1: seq<Ponto>, pontos2: seq<Ponto>, inter: seq<Ponto>)
    requires window.Valid() && inter == IntersecaoPontos(pontos1) && inter != []
    requires multiset(pontos2) == multiset(window.Corners() + inter)
    ensures pontos1 != [] && pontos2 != [] && IntersecaoPontos(pontos2) != []
    ensures multiset(IntersecaoPontos(pontos2)) == multiset(inter)
    ensures forall q :: q in pontos2 && q.intersecao ==> q in inter
  {
    IntersecaoPontosMembers(pontos1);
    IntersecaoPontosMembers(pontos2);
    assert pontos1 != [] by {
      assert inter[0] in pontos1;
    }
    assert forall k :: 0 <= k < |inter| ==> inter[k].intersecao by {
      assert forall k :: 0 <= k < |inter| ==> inter[k] in inter;
    }
    WindowIntersecoes(window, inter, pontos2);
    assert inter[0] in multiset(IntersecaoPontos(pontos2));
    forall q | q in pontos2 && q.intersecao
      ensures q in inter
    {
      assert q in IntersecaoPontos(pontos2);
      assert q in multiset(IntersecaoPontos(pontos2));
    }
  }

  /** The clipper on the lists of a cut polygon: list 2 holds the window's
      corners and list 1's intersection points. The result is made of fresh
      copies or of list 1's intersection points; when list 1 has no ENTRANDO
      point it is always given, and it is all of them, rearranged, made
      visible and otherwise unchanged. */
  method ClipCut(window: Window, list1: Poligono, list2: Poligono, cor: string,
                 ghost inter: seq<Ponto>, ghost l1: seq<PontoData>, ghost cuts: seq<PontoData>)
    returns (r: Outcome)
    requires window.Valid() && Distinct(list1.pontos) && Distinct(list2.pontos)
    requires inter == IntersecaoPontos(list1.pontos) && inter != [] && Datas(list1.pontos) == l1
    requires Datas(inter) == cuts
    requires multiset(list2.pontos) == multiset(window.Corners() + inter)
    modifies (set q | q in inter)`visible
    ensures !HasEntrando(l1) ==> r.Clipped?
    ensures r.Clipped? ==> fresh(r.recortado) && r.recortado.cor == cor && r.recortado.visible
    ensures r.Clipped? ==> r.recortado.pontos != []
    ensures r.Clipped? ==>
      forall q :: q in r.recortado.pontos ==> fresh(q) || q in inter
    ensures r.Clipped? && !HasEntrando(l1) ==>
      |r.recortado.pontos| == |inter| &&
      forall q :: q in r.recortado.pontos ==> q.visible && q.intersecao
    ensures r.Clipped? && !HasEntrando(l1) ==>
      multiset(r.recortado.pontos) == multiset(inter) &&
      multiset(Datas(r.recortado.pontos)) == multiset(ShowAll(cuts))
  {
    assert forall i :: 0 <= i < |inter| ==> cuts[i] == Data(inter[i]);
    CutLists(window, list1.pontos, list2.pontos, inter);
    OrientsDatas(list1.pontos);
    r := ClipLists(list1, list2, cor);
    if r.Clipped? && !HasEntrando(l1) {
      ghost var s := r.recortado.pontos;
      assert multiset(s) == multiset(inter);
      assert |s| == |multiset(inter)|;
      forall i | 0 <= i < |inter|
        ensures Shown(Data(inter[i]), cuts[i])
      {
        assert inter[i] in multiset(s);
        assert cuts[i] == old(Data(inter[i]));
      }
      forall q | q in s
        ensures q in inter
      {
        assert q in multiset(s);
      }
      ShownPermutation(s, inter, cuts);
    }
  }

  /** The result for a polygon no edge of which is cut: the polygon itself
      when it lies inside the window, else an empty, invisible polygon. */
  method Uncut(poligono: Poligono, dentro: bool) returns (r: Outcome)
    ensures dentro ==> r == Clipped(poligono)
    ensures !dentro ==> r.Clipped? && fresh(r.recortado)
    ensures !dentro ==> r.recortado.pontos == [] && !r.recortado.visible && r.recortado.cor == "black"
  {
    if dentro {
      return Clipped(poligono);
    }
    var vazio := new Poligono([], "black");
    vazio.visible := false;
    return Clipped(vazio);
  }

  /** What the clipper makes of calcula_listas_recorte's result, stated in
      terms of list 1's snapshot l1, its intersection points' snapshot cuts
      and whether every vertex lies inside the window. */
  method FromListas(window: Window, poligono: Poligono, listas: Listas,
                    ghost l1: seq<PontoData>, ghost cuts: seq<PontoData>, ghost dentro: bool)
    returns (r: Outcome)
    requires window.Valid() && (listas.Dentro? <==> cuts == [])
    requires listas.Dentro? ==> listas.dentro == dentro
    requires listas.Listas? ==>
      && Distinct(listas.list1.pontos) && Distinct(listas.list2.pontos)
      && Datas(listas.list1.pontos) == l1 && Datas(IntersecaoPontos(listas.list1.pontos)) == cuts
      && multiset(listas.list2.pontos) == multiset(window.Corners() + IntersecaoPontos(listas.list1.pontos))
    modifies (set q | listas.Listas? && q in listas.list1.pontos && q.intersecao)`visible
    ensures cuts == [] && dentro ==> r == Clipped(poligono)
    ensures cuts == [] && !dentro ==> r.Clipped? && fresh(r.recortado)
    ensures cuts == [] && !dentro ==> r.recortado.pontos == [] && !r.recortado.visible && r.recortado.cor == "black"
    ensures cuts != [] && !HasEntrando(l1) ==> r.Clipped?
    ensures cuts != [] && r.Clipped? ==> fresh(r.recortado) && r.recortado.cor == poligono.cor
    ensures cuts != [] && r.Clipped? ==> r.recortado.visible && r.recortado.pontos != []
    ensures cuts != [] && r.Clipped? ==>
      forall q :: q in r.recortado.pontos ==> fresh(q) || q in listas.list1.pontos
    ensures cuts != [] && !HasEntrando(l1) && r.Clipped? ==>
      |r.recortado.pontos| == |cuts| &&
      forall q :: q in r.recortado.pontos ==> q.visible && q.intersecao
    ensures cuts != [] && !HasEntrando(l1) && r.Clipped? ==>
      multiset(r.recortado.pontos) == multiset(old(IntersecaoPontos(listas.list1.pontos))) &&
      multiset(Datas(r.recortado.pontos)) == multiset(ShowAll(cuts))
  {
    if listas.Dentro? {
      r := Uncut(poligono, listas.dentro);
      return;
    }
    ghost var inter := IntersecaoPontos(listas.list1.pontos);
    IntersecaoPontosMembers(listas.list1.pontos);
    assert |inter| == |cuts|;
    r := ClipCut(window, listas.list1, listas.list2, poligono.cor, inter, l1, cuts);
  }

  /** The intersection points the polygon's edges have with the window. */
  ghost function CutsOf(window: Window, poligono: Poligono): seq<PontoData>
    reads window.Footprint(), poligono, set q | q in poligono.pontos
  {
    CutsData(XNorms(poligono.pontos), YNorms(poligono.pontos), WindowBounds(window))
  }

  /** List 1 for the polygon and the window. */
  ghost function List1Of(window: Window, poligono: Poligono): seq<PontoData>
    reads window.Footprint(), poligono, set q | q in poligono.pontos
  {
    List1Data(XNorms(poligono.pontos), YNorms(poligono.pontos), WindowBounds(window))
  }

  /** Whether every vertex of the polygon lies inside the window. */
  ghost predicate AllInside(window: Window, poligono: Poligono)
    reads window.Footprint(), poligono, set q | q in poligono.pontos
  {
    forall k :: 0 <= k < |poligono.pontos| ==> InsideEps(window, poligono.pontos[k])
  }

  /** Weiler-Atherton: the polygon itself when no edge is cut and every
      vertex is inside; an empty, invisible polygon when no edge is cut and
      some vertex is outside; otherwise a new, nonempty, visible polygon in
      the polygon's colour, made of the traversal's points or, when list 1
      has no ENTRANDO point, always given and made of list 2's intersection
      points: the cuts, rearranged, each made visible. The polygon and the
      window are left unchanged. */
  method WeilerAthertonPolygonClipping(window: Window, poligono: Poligono, atan2: (real, real) -> real)
    returns (r: Outcome)
    requires window.Valid()
    ensures old(CutsOf(window, poligono)) == [] && old(AllInside(window, poligono)) ==> r == Clipped(poligono)
    ensures old(CutsOf(window, poligono)) == [] && !old(AllInside(window, poligono)) ==>
      r.Clipped? && fresh(r.recortado)
    ensures old(CutsOf(window, poligono)) == [] && !old(AllInside(window, poligono)) ==>
      r.recortado.pontos == [] && !r.recortado.visible && r.recortado.cor == "black"
    ensures old(CutsOf(window, poligono)) != [] && r.Clipped? ==>
      fresh(r.recortado) && r.recortado.cor == poligono.cor
    ensures old(CutsOf(window, poligono)) != [] && r.Clipped? ==>
      r.recortado.visible && r.recortado.pontos != []
    ensures old(CutsOf(window, poligono)) != [] && !HasEntrando(old(List1Of(window, poligono))) ==> r.Clipped?
    ensures old(CutsOf(window, poligono)) != [] && !HasEntrando(old(List1Of(window, poligono))) && r.Clipped? ==>
      |r.recortado.pontos| == |old(CutsOf(window, poligono))| &&
      forall q :: q in r.recortado.pontos ==> q.visible && q.intersecao
    ensures old(CutsOf(window, poligono)) != [] && !HasEntrando(old(List1Of(window, poligono))) && r.Clipped? ==>
      multiset(Datas(r.recortado.pontos)) == multiset(ShowAll(old(CutsOf(window, poligono))))
  {
    ghost var cuts, l1 := CutsOf(window, poligono), List1Of(window, poligono);
    ghost var dentro := AllInside(window, poligono);
    var listas := CalculaListasRecorte(window, poligono, atan2);
    r := FromListas(window, poligono, listas, l1, cuts, dentro);
  }
}
