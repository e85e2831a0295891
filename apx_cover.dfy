/**
 * `apx_vc`, the matching-based 2-approximation: pop an uncovered edge, put
 * both endpoints into the cover, drop every edge the cover now touches.
 */
module ApxCover {
  import opened Graphs
  import opened LpRounding

  /** Two edges share no endpoint. */
  predicate Disjoint(e: Edge, f: Edge)
  {
    e.u != f.u && e.u != f.v && e.v != f.u && e.v != f.v
  }

  /** No two edges of `m` share an endpoint. */
  predicate IsMatching(m: seq<Edge>)
  {
    forall i, j :: 0 <= i < j < |m| ==> Disjoint(m[i], m[j])
  }

  /**
   * `apx_vc` on the edge set `edges`, listed in the set's iteration order.
   * The first pop is `set.pop`, which may return any edge; the filtering
   * comprehension rebinds the residual edges to a list, so every later pop is
   * `list.pop`, the last one. `matching` records the popped edges.
   */
  method ApxVc(edges: seq<Edge>) returns (cover: set<int>, ghost matching: seq<Edge>)
    ensures IsCover(edges, cover)
    ensures cover == Endpoints(matching)
    ensures IsMatching(matching)
    ensures forall e :: e in matching ==> e in edges
    ensures |cover| <= 2 * |matching|
    ensures NoSelfLoops(edges) ==> |cover| == 2 * |matching|
    ensures forall c :: IsCover(edges, c) ==> |cover| <= 2 * |c|
    ensures NoSelfLoops(edges) ==> forall x :: LpFeasible(edges, x) ==> |cover| as real <= 2.0 * Sum(x)
  {
    cover := {};
    matching := [];
    var uncovered := edges;
    var isSet := true;
    UncoveredByNothing(edges);
    while uncovered != []
      invariant uncovered == Uncovered(edges, cover)
      invariant cover == Endpoints(matching)
      invariant IsMatching(matching)
      invariant forall e :: e in matching ==> e in edges
      invariant |cover| <= 2 * |matching|
      invariant NoSelfLoops(edges) ==> |cover| == 2 * |matching|
      decreases |uncovered|
    {
      var k: nat;
      if isSet {
        k :| k < |uncovered|;
        isSet := false;
      } else {
        k := |uncovered| - 1;
      }
      var edge := uncovered[k];
      var rest := uncovered[..k] + uncovered[k + 1..];
      ApxStep(edges, cover, matching, k);
      cover := cover + {edge.u};
      cover := cover + {edge.v};
      matching := matching + [edge];
      uncovered := Uncovered(rest, cover);
    }
    NothingUncoveredIffCover(edges, cover);
    ApxBounds(edges, cover, matching);
  }

  /**
   * A cover made of the endpoints of a matching drawn from `edges` is at most
   * twice any vertex cover of `edges`, and at most twice the value of any
   * feasible point of its LP.
   */
  lemma ApxBounds(edges: seq<Edge>, cover: set<int>, matching: seq<Edge>)
    requires IsMatching(matching) && |cover| <= 2 * |matching|
    requires forall e :: e in matching ==> e in edges
    ensures forall c :: IsCover(edges, c) ==> |cover| <= 2 * |c|
    ensures NoSelfLoops(edges) ==> forall x :: LpFeasible(edges, x) ==> |cover| as real <= 2.0 * Sum(x)
  {
    forall c | IsCover(edges, c) ensures |cover| <= 2 * |c| {
      MatchingLowerBound(matching, c);
    }
    if NoSelfLoops(edges) {
      forall x | LpFeasible(edges, x) ensures |cover| as real <= 2.0 * Sum(x) {
        MatchingBelowLpValue(matching, x);
      }
    }
  }

  /** One iteration of `apx_vc` keeps its loop invariant. */
  lemma ApxStep(edges: seq<Edge>, cover: set<int>, matching: seq<Edge>, k: nat)
    requires k < |Uncovered(edges, cover)|
    requires cover == Endpoints(matching) && IsMatching(matching)
    requires |cover| <= 2 * |matching|
    requires NoSelfLoops(edges) ==> |cover| == 2 * |matching|
    ensures var uncovered := Uncovered(edges, cover);
      var edge := uncovered[k];
      var cover' := cover + {edge.u} + {edge.v};
      && Uncovered(uncovered[..k] + uncovered[k + 1..], cover') == Uncovered(edges, cover')
      && cover' == Endpoints(matching + [edge])
      && IsMatching(matching + [edge])
      && edge in edges
      && |cover'| <= 2 * |matching + [edge]|
      && (NoSelfLoops(edges) ==> |cover'| == 2 * |matching + [edge]|)
  {
    var uncovered := Uncovered(edges, cover);
    var edge := uncovered[k];
    var cover' := cover + {edge.u} + {edge.v};
    assert edge in uncovered;
    MatchingGrows(matching, edge);
    AddEndpointsCard(cover, edge);
    UncoveredWithoutTouching(uncovered, k, cover');
    UncoveredTwice(edges, cover, cover');
    assert cover + cover' == cover';
  }

  /** An edge that avoids every endpoint of a matching extends the matching. */
  lemma MatchingGrows(m: seq<Edge>, e: Edge)
    requires IsMatching(m) && !Touches(e, Endpoints(m))
    ensures IsMatching(m + [e])
    ensures Endpoints(m + [e]) == Endpoints(m) + {e.u} + {e.v}
  {
    forall i | 0 <= i < |m| ensures Disjoint(m[i], e) {
      assert m[i] in m;
    }
    EndpointsAppend(m, e);
  }

  /** Adding the two endpoints of an uncovered edge adds two nodes, or one for a self-loop. */
  lemma AddEndpointsCard(c: set<int>, e: Edge)
    requires !Touches(e, c)
    ensures |c + {e.u} + {e.v}| == |c| + (if e.u == e.v then 1 else 2)
  {
    assert |c + {e.u}| == |c| + 1;
  }

  /** A cover of a matching needs a distinct node for each of its edges. */
  lemma {:induction false} MatchingLowerBound(m: seq<Edge>, c: set<int>)
    requires IsMatching(m)
    requires IsCover(m, c)
    ensures |m| <= |c|
  {
    if m != [] {
      var n := |m|;
      var last := m[n - 1];
      assert last in m;
      var w := if last.u in c then last.u else last.v;
      var init := m[..n - 1];
      forall e | e in init ensures Touches(e, c - {w}) {
        var i :| 0 <= i < |init| && init[i] == e;
        assert Disjoint(m[i], m[n - 1]);
        assert m[i] in m;
      }
      MatchingLowerBound(init, c - {w});
      assert |c - {w}| == |c| - 1;
    }
  }

  /**
   * The LP value of a matching's edges is at least the size of the matching:
   * each edge contributes `xu + xv >= 1` and no variable is counted twice.
   */
  lemma {:induction false} MatchingBelowLpValue(m: seq<Edge>, x: seq<real>)
    requires IsMatching(m) && NoSelfLoops(m)
    requires forall e :: e in m ==> EdgeConstraint(x, e)
    requires forall i :: 0 <= i < |x| ==> x[i] >= 0.0
    ensures |m| as real <= Sum(x)
  {
    if m == [] {
      SumNonNegative(x);
    } else {
      var n := |m|;
      var last := m[n - 1];
      assert last in m;
      var init := m[..n - 1];
      var y := x[last.u - 1 := 0.0][last.v - 1 := 0.0];
      SumUpdate(x, last.u - 1, 0.0);
      SumUpdate(x[last.u - 1 := 0.0], last.v - 1, 0.0);
      forall e | e in init ensures EdgeConstraint(y, e) {
        var i :| 0 <= i < |init| && init[i] == e;
        assert Disjoint(m[i], m[n - 1]);
        assert m[i] in m;
      }
      assert x[last.u - 1 := 0.0][last.v - 1] == x[last.v - 1];
      assert Sum(y) == Sum(x) - x[last.u - 1] - x[last.v - 1];
      assert EdgeConstraint(x, last);
      MatchingBelowLpValue(init, y);
      assert |m| == |init| + 1;
    }
  }
}
