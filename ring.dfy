/** The circular doubly linked list of points that the polygon clipper walks
    (CircularListPoligono). The ghost sequence `nodes` lists the nodes in ring
    order starting at the cursor `current`; moving the cursor rotates it. */
module Ring {
  import opened Geometry

  /** One step of the cursor, on the sequence seen from the cursor. */
  function Forward<T>(s: seq<T>): (r: seq<T>)
    ensures |r| == |s| && multiset(r) == multiset(s)
  {
    if s == [] then []
    else
      assert s == [s[0]] + s[1..];
      s[1..] + [s[0]]
  }

  function Backward<T>(s: seq<T>): (r: seq<T>)
    ensures |r| == |s| && multiset(r) == multiset(s)
  {
    if s == [] then []
    else
      assert s == s[..|s| - 1] + [s[|s| - 1]];
      [s[|s| - 1]] + s[..|s| - 1]
  }

  /** k steps of the cursor. */
  function ForwardN<T>(s: seq<T>, k: nat): (r: seq<T>)
    ensures |r| == |s|
    decreases k
  {
    if k == 0 then s else ForwardN(Forward(s), k - 1)
  }

  /** One step back undoes one step forward, and conversely. */
  lemma BackwardForward<T>(s: seq<T>)
    ensures Backward(Forward(s)) == s
    ensures Forward(Backward(s)) == s
  {
    if s != [] {
      var n := |s|;
      var f := Forward(s);
      assert f[..n - 1] == s[1..] && f[n - 1] == s[0];
      assert [s[0]] + s[1..] == s;
      var b := Backward(s);
      assert b[1..] == s[..n - 1] && b[0] == s[n - 1];
      assert s[..n - 1] + [s[n - 1]] == s;
    }
  }

  lemma {:induction false} ForwardNSucc<T>(s: seq<T>, k: nat)
    ensures ForwardN(s, k + 1) == Forward(ForwardN(s, k))
    decreases k
  {
    if k > 0 {
      ForwardNSucc(Forward(s), k - 1);
      assert ForwardN(s, k + 1) == ForwardN(Forward(s), k);
      assert ForwardN(s, k) == ForwardN(Forward(s), k - 1);
    }
  }

  /** Within one lap, k single steps rotate the sequence by k places. */
  lemma {:induction false} ForwardNSplit<T>(s: seq<T>, k: nat)
    requires k <= |s|
    ensures ForwardN(s, k) == s[k..] + s[..k]
  {
    if k > 0 {
      ForwardNSplit(s, k - 1);
      ForwardNSucc(s, k - 1);
      var r := s[k - 1..] + s[..k - 1];
      assert r[1..] + [r[0]] == s[k..] + s[..k];
    }
  }

  /** One more step of a rotation by j places is a rotation by j + 1 places. */
  lemma RotateStep<T>(s: seq<T>, j: nat)
    requires j < |s|
    ensures Forward(s[j..] + s[..j]) == s[j + 1..] + s[..j + 1]
  {
    var r := s[j..] + s[..j];
    assert r[1..] == s[j + 1..] + s[..j];
    assert s[..j + 1] == s[..j] + [s[j]];
  }

  /** A rotation keeps the elements with their multiplicities. */
  lemma RotatePermutes<T>(s: seq<T>, j: nat)
    requires j <= |s|
    ensures multiset(s[j..] + s[..j]) == multiset(s)
  {
    assert s == s[..j] + s[j..];
  }

  /** A full lap of n single steps brings the cursor back where it started. */
  lemma FullLap<T>(s: seq<T>)
    ensures ForwardN(s, |s|) == s
  {
    ForwardNSplit(s, |s|);
  }

  /** Moving the cursor never adds or loses an element. */
  lemma {:induction false} ForwardNPermutes<T>(s: seq<T>, k: nat)
    ensures multiset(ForwardN(s, k)) == multiset(s)
    decreases k
  {
    if k == 0 {
      assert ForwardN(s, k) == s;
    } else {
      var r := Forward(s);
      ForwardNPermutes(r, k - 1);
      calc {
        multiset(ForwardN(s, k));
        multiset(ForwardN(r, k - 1));
        multiset(r);
        multiset(s);
      }
    }
  }

  /** A node of the ring. Its point is fixed when the node is made. */
  class Node {
    const ponto: Ponto
    var next: Node?
    var prev: Node?

    constructor (ponto: Ponto)
      ensures this.ponto == ponto && next == null && prev == null
    {
      this.ponto := ponto;
      next := null;
      prev := null;
    }
  }

  /** The points held by the nodes, in order. */
  function PontosOf(ns: seq<Node>): (ps: seq<Ponto>)
    ensures |ps| == |ns|
  {
    if ns == [] then [] else [ns[0].ponto] + PontosOf(ns[1..])
  }

  lemma {:induction false} PontosOfAt(ns: seq<Node>)
    ensures forall i :: 0 <= i < |ns| ==> PontosOf(ns)[i] == ns[i].ponto
  {
    if ns != [] {
      PontosOfAt(ns[1..]);
    }
  }

  lemma PontosOfForward(ns: seq<Node>)
    ensures PontosOf(Forward(ns)) == Forward(PontosOf(ns))
  {
    PontosOfAt(ns);
    PontosOfAt(Forward(ns));
  }

  lemma PontosOfBackward(ns: seq<Node>)
    ensures PontosOf(Backward(ns)) == Backward(PontosOf(ns))
  {
    PontosOfAt(ns);
    PontosOfAt(Backward(ns));
  }

  lemma PontosOfSnoc(ns: seq<Node>, n: Node)
    ensures PontosOf(ns + [n]) == PontosOf(ns) + [n.ponto]
  {
    PontosOfAt(ns);
    PontosOfAt(ns + [n]);
  }

  /** Distinct nodes of repr, each one's next the following node and each
      one's prev the preceding node, the last linked back to the first. */
  ghost predicate Cycle(ns: seq<Node>, repr: set<Node>)
    reads repr
  {
    (forall i :: 0 <= i < |ns| ==> ns[i] in repr) &&
    (forall i, j :: 0 <= i < j < |ns| ==> ns[i] != ns[j]) &&
    (forall i {:trigger ns[i].next} :: 0 <= i < |ns| - 1 ==> ns[i].next == ns[i + 1]) &&
    (forall i {:trigger ns[i].prev} :: 1 <= i < |ns| ==> ns[i].prev == ns[i - 1]) &&
    (ns != [] ==> ns[|ns| - 1].next == ns[0] && ns[0].prev == ns[|ns| - 1])
  }

  /** A ring none of whose nodes changed is still the same valid ring. */
  twostate lemma Untouched(r: CircularListPoligono)
    requires old(r.Valid()) && unchanged(r) && unchanged(old(r.Repr))
    ensures r.Valid() && r.Points() == old(r.Points())
    ensures r.Repr == old(r.Repr) && r.size == old(r.size) && r.nodes == old(r.nodes)
  {
  }

  /** A cycle seen from the next node is still a cycle. */
  lemma CycleForward(ns: seq<Node>, repr: set<Node>)
    requires Cycle(ns, repr)
    ensures Cycle(Forward(ns), repr)
    ensures ns != [] ==> Forward(ns)[0] == ns[0].next
  {
    if ns != [] {
      var r := Forward(ns);
      assert forall i :: 0 <= i < |ns| - 1 ==> r[i] == ns[i + 1];
      assert forall i, j :: 0 <= i < j < |ns| - 1 ==> r[i] != r[j];
    }
  }

  /** A cycle seen from the previous node is still a cycle. */
  lemma CycleBackward(ns: seq<Node>, repr: set<Node>)
    requires Cycle(ns, repr)
    ensures Cycle(Backward(ns), repr)
    ensures ns != [] ==> Backward(ns)[0] == ns[0].prev
  {
    if ns != [] {
      var r := Backward(ns);
      assert forall i :: 1 <= i < |ns| ==> r[i] == ns[i - 1];
      assert forall i, j :: 1 <= i < j < |ns| ==> r[i] != r[j];
    }
  }

  class CircularListPoligono {
    var current: Node?
    var size: nat
    ghost var nodes: seq<Node>
    ghost var pontos: seq<Ponto>
    ghost var Repr: set<Node>

    /** The nodes form one cycle in `nodes` order, linked both ways, with the
        cursor at the first; `size` counts them. */
    ghost predicate Valid()
      reads this, Repr
    {
      size == |nodes| && pontos == PontosOf(nodes) &&
      (current == null <==> nodes == []) &&
      (nodes != [] ==> current == nodes[0]) &&
      Cycle(nodes, Repr)
    }

    /** The points, in ring order from the cursor. */
    ghost function Points(): seq<Ponto>
      reads this
    {
      pontos
    }

    /** Builds the ring from the polygon's points, appended in order. */
    constructor (poligono: Poligono)
      ensures Valid() && fresh(Repr)
      ensures Points() == poligono.pontos && size == |poligono.pontos|
    {
      current := null;
      size := 0;
      nodes := [];
      pontos := [];
      Repr := {};
      new;
      for i := 0 to |poligono.pontos|
        invariant Valid() && fresh(Repr)
        invariant Points() == poligono.pontos[..i]
      {
        Append(poligono.pontos[i]);
      }
    }

    /** Inserts a new node just before the cursor, i.e. as the new tail; the
        cursor does not move (on an empty ring the new node becomes the cursor). */
    method Append(ponto: Ponto)
      requires Valid()
      modifies this, Repr
      ensures Valid() && fresh(Repr - old(Repr))
      ensures |nodes| == |old(nodes)| + 1 && nodes[..|old(nodes)|] == old(nodes)
      ensures Points() == old(Points()) + [ponto]
      ensures size == old(size) + 1
      ensures old(current) != null ==> current == old(current)
    {
      var newNode := new Node(ponto);
      if current == null {
        newNode.next := newNode;
        newNode.prev := newNode;
        current := newNode;
      } else {
        var tail := current.prev;
        tail.next := newNode;
        newNode.prev := tail;
        newNode.next := current;
        current.prev := newNode;
        ghost var ns := nodes + [newNode];
        assert forall i {:trigger ns[i].next} :: 0 <= i < |ns| - 1 ==> ns[i].next == ns[i + 1];
        assert forall i {:trigger ns[i].prev} :: 1 <= i < |ns| ==> ns[i].prev == ns[i - 1];
        assert forall i, j :: 0 <= i < j < |ns| ==> ns[i] != ns[j];
      }
      size := size + 1;
      PontosOfSnoc(nodes, newNode);
      nodes := nodes + [newNode];
      pontos := pontos + [ponto];
      Repr := Repr + {newNode};
    }

    /** Advances the cursor to the next node (no-op on an empty ring). */
    method MoveForward()
      requires Valid()
      modifies this
      ensures Valid() && Repr == old(Repr) && size == old(size)
      ensures nodes == Forward(old(nodes))
      ensures Points() == Forward(old(Points()))
    {
      if current != null {
        ghost var ns := nodes;
        current := current.next;
        nodes := Forward(nodes);
        pontos := Forward(pontos);
        CycleForward(ns, Repr);
        PontosOfForward(ns);
      }
    }

    /** Moves the cursor to the previous node (no-op on an empty ring). */
    method MoveBackward()
      requires Valid()
      modifies this
      ensures Valid() && Repr == old(Repr) && size == old(size)
      ensures nodes == Backward(old(nodes))
      ensures Points() == Backward(old(Points()))
    {
      if current != null {
        ghost var ns := nodes;
        current := current.prev;
        nodes := Backward(nodes);
        pontos := Backward(pontos);
        CycleBackward(ns, Repr);
        PontosOfBackward(ns);
      }
    }

    /** MoveForward, seen as one more step of a walk that started with the
        cursor on s[0] and has taken k steps within the first lap; returns
        the point now at the cursor. */
    method Step(ghost s: seq<Ponto>, ghost k: nat) returns (cur: Ponto)
      requires Valid() && k < |s| && Points() == s[k..] + s[..k]
      modifies this
      ensures Valid() && Repr == old(Repr) && size == old(size)
      ensures Points() == s[k + 1..] + s[..k + 1] && cur == Points()[0]
    {
      MoveForward();
      RotateStep(s, k);
      cur := current.ponto;
    }

    /** MoveForward, seen as one more step of a walk that started with the
        cursor on s[0] and may go round the ring any number of times; m is
        the cursor's position in s. */
    method StepAround(ghost s: seq<Ponto>, ghost m: nat) returns (cur: Ponto, ghost m': nat)
      requires Valid() && m < |s| && Points() == s[m..] + s[..m]
      modifies this
      ensures Valid() && Repr == old(Repr) && size == old(size)
      ensures m' == if m + 1 == |s| then 0 else m + 1
      ensures m' < |s| && Points() == s[m'..] + s[..m'] && cur == s[m']
    {
      cur := Step(s, m);
      m' := m + 1;
      if m' == |s| {
        assert s[m'..] + s[..m'] == s[0..] + s[..0];
        m' := 0;
      }
    }

    /** The point at the cursor, or null on an empty ring. */
    method GetCurrent() returns (p: Ponto?)
      requires Valid()
      ensures p == null <==> Points() == []
      ensures p != null ==> p == Points()[0]
    {
      if current != null {
        return current.ponto;
      }
      return null;
    }

    /** Iteration from the cursor: every point of the ring exactly once, in
        ring order, by following `next` until the start node comes back. */
    method Elements() returns (ps: seq<Ponto>)
      requires Valid()
      ensures ps == Points()
    {
      ps := [];
      if current == null {
        return;
      }
      PontosOfAt(nodes);
      var start := current;
      ps := [start.ponto];
      var node := start.next;
      ghost var k := 1;
      while node != start
        invariant 1 <= k <= |nodes|
        invariant node == if k < |nodes| then nodes[k] else nodes[0]
        invariant ps == Points()[..k]
        decreases |nodes| - k
      {
        ps := ps + [node.ponto];
        node := node.next;
        k := k + 1;
      }
      assert k == |nodes|;
    }
  }
}
