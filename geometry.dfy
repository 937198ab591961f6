/** The candidate node positions of the half bridge and the candidate bars between them
    (`DNA.__init__`, the `loc` and `comb` tables). */
module Geometry {

  /** An integer lattice position. */
  datatype Point = Point(x: int, y: int)

  /** An index pair into the lattice, `(n1, n2)` of `comb`. */
  datatype Edge = Edge(n1: nat, n2: nat)

  /** `filter(keep, s)`: the elements of `s` that `keep` accepts, in their order. */
  function Filter<T>(keep: T -> bool, s: seq<T>): (r: seq<T>)
    ensures |r| <= |s|
    ensures forall t :: 0 <= t < |r| ==> r[t] in s && keep(r[t])
  {
    if s == [] then []
    else Filter(keep, s[..|s| - 1]) + (if keep(s[|s| - 1]) then [s[|s| - 1]] else [])
  }

  /** Every element comes strictly before every later one. */
  ghost predicate Ascending<T>(s: seq<T>, before: (T, T) -> bool)
  {
    forall i, j :: 0 <= i < j < |s| ==> before(s[i], s[j])
  }

  /** x-major lexicographic order on points. */
  predicate PointBefore(p: Point, q: Point)
  {
    p.x < q.x || (p.x == q.x && p.y < q.y)
  }

  /** Lexicographic order on index pairs. */
  predicate EdgeBefore(e: Edge, f: Edge)
  {
    e.n1 < f.n1 || (e.n1 == f.n1 && e.n2 < f.n2)
  }

  /** `length // 2`: Python floors, and Dafny's `/` does too when the divisor is positive. */
  function MirrorLine(length: int): (m: int)
    ensures 2 * m <= length < 2 * m + 2
  {
    length / 2
  }

  /** `mirror(v, m_x)`: the reflection of `v` about the vertical line x = m. */
  function Mirror(v: Point, m: int): (r: Point)
    ensures r.y == v.y && r.x - m == m - v.x
  {
    Point(m + m - v.x, v.y)
  }

  /** The points (x, 0), ..., (x, n - 1). */
  function Column(x: int, n: nat): (c: seq<Point>)
    ensures |c| == n
  {
    seq(n, y => Point(x, y))
  }

  /** `product(range(n), repeat=2)`, from first coordinate x onwards. */
  function ProductFrom(x: nat, n: int): (ps: seq<Point>)
    ensures forall t :: 0 <= t < |ps| ==> x <= ps[t].x < n && 0 <= ps[t].y < n
    decreases n - x
  {
    if x >= n then [] else Column(x, n) + ProductFrom(x + 1, n)
  }

  /** The filter of line 21: keep points no higher than `height`. */
  function LowEnough(height: int): Point -> bool
  {
    (p: Point) => p.y <= height
  }

  /** `DNA.loc`: the lattice points of the left half, up to the mirror line. */
  function Lattice(length: int, height: int): (loc: seq<Point>)
    ensures forall t :: 0 <= t < |loc| ==> 0 <= loc[t].x <= MirrorLine(length) && 0 <= loc[t].y <= height
  {
    Filter(LowEnough(height), ProductFrom(0, MirrorLine(length) + 1))
  }

  /** The pairs (i, i + 1), ..., (i, j - 1). */
  function Partners(i: nat, j: nat): (ps: seq<Edge>)
    ensures |ps| == if j <= i then 0 else j - i - 1
  {
    seq(if j <= i then 0 else j - i - 1, k requires 0 <= k => Edge(i, i + 1 + k))
  }

  /** `combinations(range(n), 2)`, from first index i onwards. */
  function PairsFrom(i: nat, n: nat): (ps: seq<Edge>)
    ensures forall t :: 0 <= t < |ps| ==> i <= ps[t].n1 < ps[t].n2 < n
    decreases n - i
  {
    if i >= n then [] else Partners(i, n) + PairsFrom(i + 1, n)
  }

  function SquaredDistance(p: Point, q: Point): int
  {
    (p.x - q.x) * (p.x - q.x) + (p.y - q.y) * (p.y - q.y)
  }

  /** `euclidean(p, q) < 1.5`, squared and scaled by four so that it stays in the integers. */
  predicate Near(p: Point, q: Point)
  {
    4 * SquaredDistance(p, q) < 9
  }

  /** The filter of line 26: keep index pairs whose points are near each other. */
  function NearIn(loc: seq<Point>): Edge -> bool
  {
    (e: Edge) => e.n1 < |loc| && e.n2 < |loc| && Near(loc[e.n1], loc[e.n2])
  }

  /** `DNA.comb`: the candidate bars, as index pairs into `loc`. */
  function Edges(loc: seq<Point>): (comb: seq<Edge>)
    ensures forall t :: 0 <= t < |comb| ==> comb[t].n1 < comb[t].n2 < |loc| && Near(loc[comb[t].n1], loc[comb[t].n2])
  {
    Filter(NearIn(loc), PairsFrom(0, |loc|))
  }

  /** Two distinct points at most one step apart in each coordinate. */
  predicate Neighbours(p: Point, q: Point)
  {
    p != q && -1 <= p.x - q.x <= 1 && -1 <= p.y - q.y <= 1
  }

  function Min(a: int, b: int): int
  {
    if a <= b then a else b
  }

  // ---------------------------------------------------------------- Filter

  lemma {:induction false} FilterContents<T>(keep: T -> bool, s: seq<T>)
    ensures forall v :: v in Filter(keep, s) ==> v in s && keep(v)
    ensures forall v :: v in s && keep(v) ==> v in Filter(keep, s)
  {
    if s != [] {
      FilterContents(keep, s[..|s| - 1]);
      assert s == s[..|s| - 1] + [s[|s| - 1]];
    }
  }

  lemma {:induction false} FilterAppend<T>(keep: T -> bool, a: seq<T>, b: seq<T>)
    ensures Filter(keep, a + b) == Filter(keep, a) + Filter(keep, b)
    decreases |b|
  {
    if b != [] {
      assert (a + b)[..|a + b| - 1] == a + b[..|b| - 1];
      FilterAppend(keep, a, b[..|b| - 1]);
    } else {
      assert a + b == a;
    }
  }

  lemma {:induction false} FilterAscending<T>(keep: T -> bool, s: seq<T>, before: (T, T) -> bool)
    requires Ascending(s, before)
    ensures Ascending(Filter(keep, s), before)
  {
    if s != [] {
      var init, last := s[..|s| - 1], s[|s| - 1];
      FilterAscending(keep, init, before);
      FilterContents(keep, init);
      var r := Filter(keep, init);
      assert forall k :: 0 <= k < |init| ==> before(init[k], last) by {
        forall k | 0 <= k < |init| ensures before(init[k], last) {
          assert s[k] == init[k];
        }
      }
      forall i | 0 <= i < |r| ensures before(r[i], last) {
        assert r[i] in r;
        var k :| 0 <= k < |init| && init[k] == r[i];
      }
      AppendAscending(r, if keep(last) then [last] else [], before);
    }
  }

  lemma AppendAscending<T>(a: seq<T>, b: seq<T>, before: (T, T) -> bool)
    requires Ascending(a, before) && Ascending(b, before)
    requires forall i, j :: 0 <= i < |a| && 0 <= j < |b| ==> before(a[i], b[j])
    ensures Ascending(a + b, before)
  {
    forall i, j | 0 <= i < j < |a + b| ensures before((a + b)[i], (a + b)[j]) {
      if j < |a| {
      } else if i < |a| {
        assert (a + b)[j] == b[j - |a|];
      } else {
        assert (a + b)[i] == b[i - |a|] && (a + b)[j] == b[j - |a|];
      }
    }
  }

  // ---------------------------------------------------------------- the lattice

  lemma {:induction false} ProductFromContents(x: nat, n: int)
    ensures forall p: Point :: p in ProductFrom(x, n) <==> x <= p.x < n && 0 <= p.y < n
    decreases n - x
  {
    if x < n {
      ProductFromContents(x + 1, n);
      forall p: Point ensures p in Column(x, n) <==> p.x == x && 0 <= p.y < n {
        if p.x == x && 0 <= p.y < n {
          assert Column(x, n)[p.y] == p;
        }
      }
    }
  }

  lemma {:induction false} ProductFromAscending(x: nat, n: int)
    ensures Ascending(ProductFrom(x, n), PointBefore)
    decreases n - x
  {
    if x < n {
      ProductFromAscending(x + 1, n);
      ProductFromContents(x + 1, n);
      var rest := ProductFrom(x + 1, n);
      forall i, j | 0 <= i < |Column(x, n)| && 0 <= j < |rest|
        ensures PointBefore(Column(x, n)[i], rest[j])
      {
        assert rest[j] in rest;
      }
      AppendAscending(Column(x, n), rest, PointBefore);
    }
  }

  /** The filter of line 21 keeps the first min(n, height + 1) points of a column. */
  lemma {:induction false} FilterColumn(x: int, n: nat, height: int)
    ensures Filter(LowEnough(height), Column(x, n))
         == Column(x, if height < 0 then 0 else Min(n, height + 1))
  {
    if n > 0 {
      assert Column(x, n)[..n - 1] == Column(x, n - 1);
      FilterColumn(x, n - 1, height);
      if n - 1 <= height {
        assert Column(x, n - 1) + [Point(x, n - 1)] == Column(x, n);
      }
    }
  }

  lemma {:induction false} FilterProductSize(x: nat, n: int, height: int)
    requires x <= n
    ensures |Filter(LowEnough(height), ProductFrom(x, n))|
         == (n - x) * (if height < 0 then 0 else Min(n, height + 1))
    decreases n - x
  {
    if x < n {
      FilterAppend(LowEnough(height), Column(x, n), ProductFrom(x + 1, n));
      FilterColumn(x, n, height);
      FilterProductSize(x + 1, n, height);
      var c := if height < 0 then 0 else Min(n, height + 1);
      assert (n - x) * c == c + (n - x - 1) * c;
    }
  }

  /** `loc` holds exactly the points (x, y) with 0 <= x <= m and 0 <= y <= min(m, height). */
  lemma LatticeContents(length: int, height: int)
    ensures var m := MirrorLine(length);
      forall p: Point :: p in Lattice(length, height) <==> 0 <= p.x <= m && 0 <= p.y <= m && p.y <= height
  {
    var n := MirrorLine(length) + 1;
    ProductFromContents(0, n);
    FilterContents(LowEnough(height), ProductFrom(0, n));
  }

  /** `loc` is in strictly increasing x-major order, so no point appears twice. */
  lemma LatticeAscending(length: int, height: int)
    ensures Ascending(Lattice(length, height), PointBefore)
    ensures var loc := Lattice(length, height);
      forall i, j :: 0 <= i < |loc| && 0 <= j < |loc| && i != j ==> loc[i] != loc[j]
  {
    var n := MirrorLine(length) + 1;
    ProductFromAscending(0, n);
    FilterAscending(LowEnough(height), ProductFrom(0, n), PointBefore);
    var loc := Lattice(length, height);
    forall i, j | 0 <= i < |loc| && 0 <= j < |loc| && i != j ensures loc[i] != loc[j] {
      if i < j {
        assert PointBefore(loc[i], loc[j]);
      } else {
        assert PointBefore(loc[j], loc[i]);
      }
    }
  }

  /** |loc| = (m + 1) * (min(m, height) + 1) for m = length // 2, and 0 when m or height is negative. */
  lemma LatticeSize(length: int, height: int)
    ensures var m := MirrorLine(length);
      |Lattice(length, height)| == if m < 0 || height < 0 then 0 else (m + 1) * (Min(m, height) + 1)
  {
    var n := MirrorLine(length) + 1;
    if n <= 0 {
      assert ProductFrom(0, n) == [];
    } else {
      FilterProductSize(0, n, height);
    }
  }

  // ---------------------------------------------------------------- the edges

  lemma {:induction false} PairsFromContents(i: nat, n: nat)
    ensures forall e: Edge :: e in PairsFrom(i, n) <==> i <= e.n1 < e.n2 < n
    decreases n - i
  {
    if i < n {
      PairsFromContents(i + 1, n);
      forall e: Edge | e.n1 == i && i < e.n2 < n ensures e in Partners(i, n) {
        assert Partners(i, n)[e.n2 - i - 1] == e;
      }
    }
  }

  lemma {:induction false} PairsFromAscending(i: nat, n: nat)
    ensures Ascending(PairsFrom(i, n), EdgeBefore)
    decreases n - i
  {
    if i < n {
      PairsFromAscending(i + 1, n);
      AppendAscending(Partners(i, n), PairsFrom(i + 1, n), EdgeBefore);
    }
  }

  /** For any two points, squared distance below 2.25 means at most one step in each coordinate. */
  lemma NearIsAtMostOneStep(p: Point, q: Point)
    ensures Near(p, q) <==> -1 <= p.x - q.x <= 1 && -1 <= p.y - q.y <= 1
  {
    var dx, dy := p.x - q.x, p.y - q.y;
    if dx < -1 || dx > 1 {
      assert dx * dx >= 4 by {
        if dx > 1 { assert dx * dx >= 2 * dx; } else { assert dx * dx >= -2 * dx; }
      }
      assert dy * dy >= 0;
    } else if dy < -1 || dy > 1 {
      assert dy * dy >= 4 by {
        if dy > 1 { assert dy * dy >= 2 * dy; } else { assert dy * dy >= -2 * dy; }
      }
      assert dx * dx >= 0;
    } else {
      assert dx * dx <= 1 && dy * dy <= 1;
    }
  }

  /** `comb` holds exactly the index pairs i < j < |loc| whose points are near, in lexicographic order. */
  lemma EdgesContents(loc: seq<Point>)
    ensures forall e: Edge :: e in Edges(loc) <==> e.n1 < e.n2 < |loc| && Near(loc[e.n1], loc[e.n2])
    ensures Ascending(Edges(loc), EdgeBefore)
  {
    PairsFromContents(0, |loc|);
    FilterContents(NearIn(loc), PairsFrom(0, |loc|));
    PairsFromAscending(0, |loc|);
    FilterAscending(NearIn(loc), PairsFrom(0, |loc|), EdgeBefore);
  }

  /** The bars of the lattice join exactly the pairs of neighbouring lattice points, each pair
      once, smaller index first, in lexicographic order. */
  lemma LatticeEdges(length: int, height: int)
    ensures var loc := Lattice(length, height);
      forall e: Edge :: e in Edges(loc) <==> e.n1 < e.n2 < |loc| && Neighbours(loc[e.n1], loc[e.n2])
    ensures Ascending(Edges(Lattice(length, height)), EdgeBefore)
  {
    var loc := Lattice(length, height);
    EdgesContents(loc);
    LatticeAscending(length, height);
    forall e: Edge | e.n1 < e.n2 < |loc|
      ensures Near(loc[e.n1], loc[e.n2]) <==> Neighbours(loc[e.n1], loc[e.n2])
    {
      NearIsAtMostOneStep(loc[e.n1], loc[e.n2]);
    }
  }

  /** A span of at least 2 with a non-negative height gives at least one point and one bar. */
  lemma GeometryNonEmpty(length: int, height: int)
    requires length >= 2 && height >= 0
    ensures |Lattice(length, height)| > 0 && |Edges(Lattice(length, height))| > 0
  {
    var loc := Lattice(length, height);
    LatticeContents(length, height);
    assert Point(0, 0) in loc && Point(1, 0) in loc;
    var i :| 0 <= i < |loc| && loc[i] == Point(0, 0);
    var j :| 0 <= j < |loc| && loc[j] == Point(1, 0);
    NeighboursGiveEdge(loc, i, j);
  }

  /** Two neighbouring points of `loc` give `comb` at least one bar. */
  lemma NeighboursGiveEdge(loc: seq<Point>, i: nat, j: nat)
    requires i < |loc| && j < |loc| && Neighbours(loc[i], loc[j])
    ensures |Edges(loc)| > 0
  {
    var e := if i < j then Edge(i, j) else Edge(j, i);
    NearIsAtMostOneStep(loc[e.n1], loc[e.n2]);
    EdgesContents(loc);
    assert e in Edges(loc);
  }

  /** The reference run `DNA(10, 3, ...)`: 24 lattice points and at least one bar. */
  lemma ReferenceGeometry()
    ensures |Lattice(10, 3)| == 24 && |Edges(Lattice(10, 3))| > 0
  {
    SizedGeometry(10, 3, 24);
  }

  lemma SizedGeometry(length: int, height: int, n: int)
    requires length >= 2 && height >= 0
    requires n == (MirrorLine(length) + 1) * (Min(MirrorLine(length), height) + 1)
    ensures |Lattice(length, height)| == n && |Edges(Lattice(length, height))| > 0
  {
    LatticeSize(length, height);
    GeometryNonEmpty(length, height);
  }

  /** Reflection about x = m is an involution whose fixed points are exactly those on the line. */
  lemma MirrorInvolution(v: Point, m: int)
    ensures Mirror(Mirror(v, m), m) == v
    ensures Mirror(v, m) == v <==> v.x == m
  {
  }
}
