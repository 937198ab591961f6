/** Decoding a genome into the bars of a left-right symmetric structure, and choosing its
    supports and its load node (the part of `DNA.build` that does not need the solver). */
module Decoding {
  import opened Geometry

  datatype Option<T> = None | Some(value: T)

  /** A bar `[l1, l2]` as handed to `add_element`. */
  datatype Element = Element(a: Point, b: Point)

  /** A decoded structure: its bars, the hinged node, the roller node, and the node that
      carries the point load with the load's vertical component. */
  datatype Structure = Structure(elements: seq<Element>, hinged: int, roller: int, loadNode: int, fz: int)

  /** What `build` records for one individual: the structure (`None` when degenerate),
      `middle_node`, `all_lengths` and `n_elements`. */
  datatype Outcome = Outcome(build: Option<Structure>, middleNode: int, length: int, nElements: int)

  /** `add_support_hinged(1)`: the hinge is always on node id 1. */
  const HingedNode := 1

  /** `point_load(middle_node_id, Fz=-100)`. */
  const LoadFz := -100

  function MirrorElement(e: Element, m: int): Element
  {
    Element(Mirror(e.a, m), Mirror(e.b, m))
  }

  /** Every bar reflected about x = m. */
  function MirrorAll(es: seq<Element>, m: int): (r: seq<Element>)
    ensures |r| == |es|
  {
    seq(|es|, i requires 0 <= i < |es| => MirrorElement(es[i], m))
  }

  /** The end points of a list of bars. */
  function Nodes(es: seq<Element>): set<Point>
  {
    (set e | e in es :: e.a) + (set e | e in es :: e.b)
  }

  /** Every index pair of `comb` addresses a point of `loc`. */
  predicate EdgesIndex(loc: seq<Point>, comb: seq<Edge>)
  {
    forall k :: 0 <= k < |comb| ==> comb[k].n1 < |loc| && comb[k].n2 < |loc|
  }

  /** `np.argwhere(g == 1)`: the positions of the genes equal to 1, ascending. */
  function SetBits(g: seq<int>): (on: seq<nat>)
    ensures forall t :: 0 <= t < |on| ==> on[t] < |g|
  {
    if g == [] then []
    else SetBits(g[..|g| - 1]) + (if g[|g| - 1] == 1 then [|g| - 1] else [])
  }

  /** The bar of candidate edge k, `[loc[n1], loc[n2]]`. */
  function EdgeElement(loc: seq<Point>, comb: seq<Edge>, k: nat): Element
    requires EdgesIndex(loc, comb) && k < |comb|
  {
    Element(loc[comb[k].n1], loc[comb[k].n2])
  }

  /** The bars added for the edge indices `on`, each followed by its mirror image. */
  function Elements(loc: seq<Point>, comb: seq<Edge>, m: int, on: seq<nat>): (es: seq<Element>)
    requires EdgesIndex(loc, comb)
    requires forall t :: 0 <= t < |on| ==> on[t] < |comb|
    ensures |es| == 2 * |on|
  {
    if on == [] then []
    else
      var e := EdgeElement(loc, comb, on[|on| - 1]);
      Elements(loc, comb, m, on[..|on| - 1]) + [e, MirrorElement(e, m)]
  }

  /** The bars of the structure that genome g encodes. */
  function Decode(loc: seq<Point>, comb: seq<Edge>, m: int, g: seq<int>): (es: seq<Element>)
    requires EdgesIndex(loc, comb) && |g| <= |comb|
    ensures |es| == 2 * |SetBits(g)|
  {
    Elements(loc, comb, m, SetBits(g))
  }

  /** The inner loop of `build` (lines 41-50): for each set gene, add its bar and the bar's mirror. */
  method AddElements(loc: seq<Point>, comb: seq<Edge>, m: int, g: seq<int>) returns (elems: seq<Element>)
    requires EdgesIndex(loc, comb) && |g| <= |comb|
    ensures elems == Decode(loc, comb, m, g)
  {
    var on := SetBits(g);
    elems := [];
    for t := 0 to |on|
      invariant elems == Elements(loc, comb, m, on[..t])
    {
      var e := Element(loc[comb[on[t]].n1], loc[comb[on[t]].n2]);
      elems := elems + [e, MirrorElement(e, m)];
      assert on[..t + 1][..t] == on[..t];
    }
    assert on[..|on|] == on;
  }

  // ---------------------------------------------------------------- the support and load nodes

  /** `np.argmax`: the first index of a largest entry. */
  function ArgMax(s: seq<int>): (k: nat)
    requires |s| > 0
    ensures k < |s|
    ensures forall i :: 0 <= i < |s| ==> s[i] <= s[k]
    ensures forall i :: 0 <= i < k ==> s[i] < s[k]
  {
    if |s| == 1 then 0
    else
      var k := ArgMax(s[..|s| - 1]);
      if s[|s| - 1] > s[k] then |s| - 1 else k
  }

  /** `np.argmin`: the first index of a smallest entry. */
  function ArgMin(s: seq<real>): (k: nat)
    requires |s| > 0
    ensures k < |s|
    ensures forall i :: 0 <= i < |s| ==> s[k] <= s[i]
    ensures forall i :: 0 <= i < k ==> s[k] < s[i]
  {
    if |s| == 1 then 0
    else
      var k := ArgMin(s[..|s| - 1]);
      if s[|s| - 1] < s[k] then |s| - 1 else k
  }

  /** `max(x_range)`. */
  function MaxOf(s: seq<int>): (r: int)
    requires |s| > 0
    ensures r in s && forall i :: 0 <= i < |s| ==> s[i] <= r
  {
    s[ArgMax(s)]
  }

  /** `min(x_range)`. */
  function MinOf(s: seq<int>): (r: int)
    requires |s| > 0
    ensures r in s && forall i :: 0 <= i < |s| ==> r <= s[i]
  {
    if |s| == 1 then s[0]
    else
      var r := MinOf(s[..|s| - 1]);
      if s[|s| - 1] < r then s[|s| - 1] else r
  }

  function Abs(r: real): real
  {
    if r < 0.0 then -r else r
  }

  function IntAbs(i: int): int
  {
    if i < 0 then -i else i
  }

  /** `np.abs(np.array(x_range) - (length + start) / 2)`, with true division. */
  function MidDistances(xs: seq<int>, start: int, length: int): (d: seq<real>)
    ensures |d| == |xs|
  {
    seq(|xs|, i requires 0 <= i < |xs| => Abs(xs[i] as real - (length + start) as real / 2.0))
  }

  /** The index, into the node list, of the node that receives the point load: the first node
      nearest to the midpoint (max + min) / 2 of the span, that is, the first whose doubled x is
      nearest to max + min. */
  function LoadIndex(xs: seq<int>): (k: nat)
    requires |xs| > 0
    ensures k < |xs|
    ensures var e := DoubledDistances(xs, MaxOf(xs) + MinOf(xs));
      (forall j :: 0 <= j < |xs| ==> e[k] <= e[j]) && (forall j :: 0 <= j < k ==> e[k] < e[j])
  {
    NearestDoubled(xs, MinOf(xs), MaxOf(xs));
    ArgMin(MidDistances(xs, MinOf(xs), MaxOf(xs)))
  }

  /** One iteration of the loop of `build` (lines 40-73), with `nodes_range('x')` and
      `node_map.keys()` of the assembled system given as `xRange` and `ids`. */
  function DecodeIndividual(loc: seq<Point>, comb: seq<Edge>, m: int, g: seq<int>, xRange: seq<int>, ids: seq<int>): (o: Outcome)
    requires EdgesIndex(loc, comb) && |g| <= |comb| && |ids| == |xRange|
    ensures o.build.Some? <==> |xRange| > 2
    ensures o.build.Some? ==> && o.build.value.hinged == HingedNode && o.build.value.fz == LoadFz
                              && o.build.value.roller in ids && o.build.value.loadNode == o.middleNode && o.middleNode in ids
  {
    if |xRange| <= 2 then Outcome(None, 0, 0, 0)
    else
      var length := MaxOf(xRange);
      var middle := ids[LoadIndex(xRange)];
      var roller := ids[ArgMax(xRange)];
      Outcome(Some(Structure(Decode(loc, comb, m, g), HingedNode, roller, middle, LoadFz)), middle, length, |SetBits(g)|)
  }

  /** One iteration of the loop of `build`: the bars come from the loop of `AddElements`; the
      rest of the record is the one `DecodeIndividual` describes. */
  method BuildIndividual(loc: seq<Point>, comb: seq<Edge>, m: int, g: seq<int>, xRange: seq<int>, ids: seq<int>)
      returns (o: Outcome)
    requires EdgesIndex(loc, comb) && |g| <= |comb| && |ids| == |xRange|
    ensures o == DecodeIndividual(loc, comb, m, g, xRange, ids)
  {
    var elems := AddElements(loc, comb, m, g);
    if |xRange| <= 2 {
      o := Outcome(None, 0, 0, 0);
    } else {
      var middle := ids[LoadIndex(xRange)];
      o := Outcome(Some(Structure(elems, HingedNode, ids[ArgMax(xRange)], middle, LoadFz)), middle, MaxOf(xRange), |SetBits(g)|);
    }
  }

  // ---------------------------------------------------------------- lemmas

  /** `SetBits(g)` holds exactly the positions of the genes equal to 1, ascending. */
  lemma {:induction false} SetBitsContents(g: seq<int>)
    ensures forall j: nat :: j in SetBits(g) ==> j < |g| && g[j] == 1
    ensures forall j: nat :: j < |g| && g[j] == 1 ==> j in SetBits(g)
    ensures forall s, t :: 0 <= s < t < |SetBits(g)| ==> SetBits(g)[s] < SetBits(g)[t]
  {
    if g != [] {
      var init := g[..|g| - 1];
      SetBitsContents(init);
      forall j: nat | j < |init| ensures g[j] == init[j] {}
    }
  }

  /** Element 2t is the bar of the t-th edge index and element 2t + 1 its mirror image. */
  lemma {:induction false} ElementsAt(loc: seq<Point>, comb: seq<Edge>, m: int, on: seq<nat>)
    requires EdgesIndex(loc, comb)
    requires forall t :: 0 <= t < |on| ==> on[t] < |comb|
    ensures |Elements(loc, comb, m, on)| == 2 * |on|
    ensures forall t :: 0 <= t < |on| ==>
      Elements(loc, comb, m, on)[2 * t] == EdgeElement(loc, comb, on[t])
      && Elements(loc, comb, m, on)[2 * t + 1] == MirrorElement(EdgeElement(loc, comb, on[t]), m)
  {
    if on != [] {
      var init := on[..|on| - 1];
      ElementsAt(loc, comb, m, init);
      var es := Elements(loc, comb, m, on);
      forall t | 0 <= t < |on|
        ensures es[2 * t] == EdgeElement(loc, comb, on[t])
        ensures es[2 * t + 1] == MirrorElement(EdgeElement(loc, comb, on[t]), m)
      {
        if t < |init| {
          assert on[t] == init[t];
        }
      }
    }
  }

  /** A genome with k genes equal to 1 decodes to 2k bars in ascending gene order: the bar of
      the t-th set gene at 2t, its mirror image at 2t + 1. */
  lemma DecodeOrder(loc: seq<Point>, comb: seq<Edge>, m: int, g: seq<int>)
    requires EdgesIndex(loc, comb) && |g| <= |comb|
    ensures var on := SetBits(g);
      |Decode(loc, comb, m, g)| == 2 * |on|
      && (forall t :: 0 <= t < |on| ==>
            Decode(loc, comb, m, g)[2 * t] == EdgeElement(loc, comb, on[t])
            && Decode(loc, comb, m, g)[2 * t + 1] == MirrorElement(EdgeElement(loc, comb, on[t]), m))
      && (forall s, t :: 0 <= s < t < |on| ==> on[s] < on[t])
      && (forall j: nat :: j in on <==> j < |g| && g[j] == 1)
  {
    SetBitsContents(g);
    ElementsAt(loc, comb, m, SetBits(g));
  }

  /** Reflecting every bar about x = m leaves the multiset of bars unchanged. */
  lemma {:induction false} ElementsMirrorInvariant(loc: seq<Point>, comb: seq<Edge>, m: int, on: seq<nat>)
    requires EdgesIndex(loc, comb)
    requires forall t :: 0 <= t < |on| ==> on[t] < |comb|
    ensures multiset(MirrorAll(Elements(loc, comb, m, on), m)) == multiset(Elements(loc, comb, m, on))
  {
    if on != [] {
      var init := on[..|on| - 1];
      ElementsMirrorInvariant(loc, comb, m, init);
      var e := EdgeElement(loc, comb, on[|on| - 1]);
      var pair := [e, MirrorElement(e, m)];
      MirrorAllAppend(Elements(loc, comb, m, init), pair, m);
      MirrorElementInvolution(e, m);
      assert MirrorAll(pair, m) == [MirrorElement(e, m), e];
    }
  }

  lemma MirrorAllAppend(a: seq<Element>, b: seq<Element>, m: int)
    ensures MirrorAll(a + b, m) == MirrorAll(a, m) + MirrorAll(b, m)
  {
  }

  lemma MirrorElementInvolution(e: Element, m: int)
    ensures MirrorElement(MirrorElement(e, m), m) == e
  {
    MirrorInvolution(e.a, m);
    MirrorInvolution(e.b, m);
  }

  /** The decoded structure is symmetric about the mirror line: reflecting every bar gives the
      same multiset of bars, every bar's mirror image is a bar, and a point is a node exactly
      when its reflection is. */
  lemma DecodeSymmetric(loc: seq<Point>, comb: seq<Edge>, m: int, g: seq<int>)
    requires EdgesIndex(loc, comb) && |g| <= |comb|
    ensures multiset(MirrorAll(Decode(loc, comb, m, g), m)) == multiset(Decode(loc, comb, m, g))
    ensures forall e :: e in Decode(loc, comb, m, g) ==> MirrorElement(e, m) in Decode(loc, comb, m, g)
    ensures forall p :: p in Nodes(Decode(loc, comb, m, g)) <==> Mirror(p, m) in Nodes(Decode(loc, comb, m, g))
  {
    ElementsMirrorInvariant(loc, comb, m, SetBits(g));
    MirrorClosed(Decode(loc, comb, m, g), m);
    MirrorNodes(Decode(loc, comb, m, g), m);
  }

  /** Bars whose reflection is a rearrangement of them contain the mirror image of each bar. */
  lemma MirrorClosed(es: seq<Element>, m: int)
    requires multiset(MirrorAll(es, m)) == multiset(es)
    ensures forall e :: e in es ==> MirrorElement(e, m) in es
  {
    forall e | e in es ensures MirrorElement(e, m) in es {
      var i :| 0 <= i < |es| && es[i] == e;
      assert MirrorAll(es, m)[i] == MirrorElement(e, m);
      assert MirrorElement(e, m) in multiset(MirrorAll(es, m));
    }
  }

  /** Bars closed under reflection have a node set closed under reflection. */
  lemma MirrorNodes(es: seq<Element>, m: int)
    requires forall e :: e in es ==> MirrorElement(e, m) in es
    ensures forall p :: p in Nodes(es) <==> Mirror(p, m) in Nodes(es)
  {
    forall p ensures p in Nodes(es) <==> Mirror(p, m) in Nodes(es) {
      MirrorInvolution(p, m);
      if p in Nodes(es) {
        var e :| e in es && (p == e.a || p == e.b);
        assert MirrorElement(e, m) in es;
      }
      if Mirror(p, m) in Nodes(es) {
        var e :| e in es && (Mirror(p, m) == e.a || Mirror(p, m) == e.b);
        assert MirrorElement(e, m) in es;
        MirrorElementInvolution(e, m);
      }
    }
  }

  /** A genome with no gene equal to 1 decodes to no bars, and a system without bars has no
      nodes, so its build is degenerate. */
  lemma EmptyGenomeIsDegenerate(loc: seq<Point>, comb: seq<Edge>, m: int, g: seq<int>)
    requires EdgesIndex(loc, comb) && |g| <= |comb|
    requires forall j :: 0 <= j < |g| ==> g[j] == 0
    ensures Decode(loc, comb, m, g) == []
    ensures Nodes(Decode(loc, comb, m, g)) == {}
    ensures DecodeIndividual(loc, comb, m, g, [], []) == Outcome(None, 0, 0, 0)
  {
    NoSetBits(g);
    assert Decode(loc, comb, m, g) == [];
  }

  lemma {:induction false} NoSetBits(g: seq<int>)
    requires forall j :: 0 <= j < |g| ==> g[j] == 0
    ensures SetBits(g) == []
  {
    if g != [] {
      NoSetBits(g[..|g| - 1]);
    }
  }

  /** The first node nearest to (start + length) / 2 is the first whose doubled x is nearest to
      start + length. */
  lemma NearestDoubled(xs: seq<int>, start: int, length: int)
    requires |xs| > 0
    ensures var k, e := ArgMin(MidDistances(xs, start, length)), DoubledDistances(xs, length + start);
      (forall j :: 0 <= j < |xs| ==> e[k] <= e[j])
      && (forall j :: 0 <= j < k ==> e[k] < e[j])
  {
    MidDistancesHalved(xs, start, length);
    FirstMinimumDoubled(MidDistances(xs, start, length), DoubledDistances(xs, length + start),
                        ArgMin(MidDistances(xs, start, length)));
  }

  /** |2x - c| for every node x. */
  function DoubledDistances(xs: seq<int>, c: int): (e: seq<int>)
    ensures |e| == |xs|
  {
    seq(|xs|, i requires 0 <= i < |xs| => IntAbs(2 * xs[i] - c))
  }

  /** The distance of a node to the midpoint is half its doubled distance. */
  lemma MidDistancesHalved(xs: seq<int>, start: int, length: int)
    ensures forall j :: 0 <= j < |xs| ==>
      MidDistances(xs, start, length)[j] == DoubledDistances(xs, length + start)[j] as real / 2.0
  {
    forall j | 0 <= j < |xs|
      ensures MidDistances(xs, start, length)[j] == DoubledDistances(xs, length + start)[j] as real / 2.0
    {
      HalfDistance(xs[j], length + start);
    }
  }

  /** A first minimum of halved values is a first minimum of the values. */
  lemma FirstMinimumDoubled(d: seq<real>, e: seq<int>, k: nat)
    requires |d| == |e| && k < |d|
    requires forall j :: 0 <= j < |d| ==> d[j] == e[j] as real / 2.0
    requires forall j :: 0 <= j < |d| ==> d[k] <= d[j]
    requires forall j :: 0 <= j < k ==> d[k] < d[j]
    ensures forall j :: 0 <= j < |e| ==> e[k] <= e[j]
    ensures forall j :: 0 <= j < k ==> e[k] < e[j]
  {
  }

  /** 2 |x - c / 2| = |2x - c|. */
  lemma HalfDistance(x: int, c: int)
    ensures 2.0 * Abs(x as real - c as real / 2.0) == IntAbs(2 * x - c) as real
  {
    assert (2 * x - c) as real == 2.0 * (x as real - c as real / 2.0);
  }

  /** `build` marks an individual degenerate exactly when its node list has at most two entries,
      and then records no structure, length 0 and element count 0. */
  lemma DecodeIndividualDegenerate(loc: seq<Point>, comb: seq<Edge>, m: int, g: seq<int>, xRange: seq<int>, ids: seq<int>)
    requires EdgesIndex(loc, comb) && |g| <= |comb| && |ids| == |xRange|
    ensures DecodeIndividual(loc, comb, m, g, xRange, ids).build.None? <==> |xRange| <= 2
    ensures |xRange| <= 2 ==> DecodeIndividual(loc, comb, m, g, xRange, ids) == Outcome(None, 0, 0, 0)
  {
  }

  /** Otherwise the structure holds the decoded bars, is hinged at node 1, rolls at the first node of
      largest x and is loaded by -100 at the node nearest the midpoint; the recorded length is the
      largest x (not max - min) and the element count is the number of set genes, half the bars. */
  lemma DecodeIndividualSupports(loc: seq<Point>, comb: seq<Edge>, m: int, g: seq<int>, xRange: seq<int>, ids: seq<int>)
    requires EdgesIndex(loc, comb) && |g| <= |comb| && |ids| == |xRange|
    requires |xRange| > 2
    ensures var o := DecodeIndividual(loc, comb, m, g, xRange, ids);
      o.build.Some?
      && o.build.value.elements == Decode(loc, comb, m, g)
      && o.build.value.hinged == 1
      && o.build.value.roller == ids[ArgMax(xRange)]
      && o.build.value.loadNode == o.middleNode == ids[LoadIndex(xRange)]
      && o.build.value.fz == -100
      && o.length in xRange && (forall i :: 0 <= i < |xRange| ==> xRange[i] <= o.length)
      && 2 * o.nElements == |o.build.value.elements|
  {
    DecodeOrder(loc, comb, m, g);
  }
}
