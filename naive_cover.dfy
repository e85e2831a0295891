/**
 * `naive_vc`: the loop of `apx_vc`, but each popped edge contributes only its
 * first endpoint `edge[0]` to the cover.
 */
module NaiveCover {
  import opened Graphs

  /** The first endpoints of the popped edges. */
  function Firsts(m: seq<Edge>): set<int>
  {
    set e | e in m :: e.u
  }

  /** Every popped edge avoids the nodes the earlier pops put into the cover. */
  predicate AvoidsEarlierPicks(m: seq<Edge>)
  {
    forall i, j :: 0 <= i < j < |m| ==> m[j].u != m[i].u && m[j].v != m[i].u
  }

  /**
   * `naive_vc` on the edge set `edges`, listed in the set's iteration order;
   * pops as in `apx_vc` (any edge first, then the last one of the list that
   * the filtering comprehension builds). `picked` records the popped edges.
   */
  method NaiveVc(edges: seq<Edge>) returns (cover: set<int>, ghost picked: seq<Edge>)
    ensures IsCover(edges, cover)
    ensures cover == Firsts(picked)
    ensures |cover| == |picked|
    ensures AvoidsEarlierPicks(picked)
    ensures forall e :: e in picked ==> e in edges
    ensures cover <= Endpoints(edges)
  {
    cover := {};
    picked := [];
    var uncovered := edges;
    var isSet := true;
    UncoveredByNothing(edges);
    while uncovered != []
      invariant uncovered == Uncovered(edges, cover)
      invariant cover == Firsts(picked)
      invariant |cover| == |picked|
      invariant AvoidsEarlierPicks(picked)
      invariant forall e :: e in picked ==> e in edges
      decreases |uncovered|
    {
      var k: nat;
      if isSet {
        k :| k < |uncovered|;
        isSet := false;
      } else {
        k := |uncovered| - 1;
      }
      var node := uncovered[k].u;
      var rest := uncovered[..k] + uncovered[k + 1..];
      NaiveStep(edges, cover, picked, k);
      cover := cover + {node};
      picked := picked + [uncovered[k]];
      uncovered := Uncovered(rest, cover);
    }
    NothingUncoveredIffCover(edges, cover);
    forall x | x in cover ensures x in Endpoints(edges) {
      var e :| e in picked && e.u == x;
    }
  }

  /** One iteration of `naive_vc` keeps its loop invariant and adds a new node. */
  lemma NaiveStep(edges: seq<Edge>, cover: set<int>, picked: seq<Edge>, k: nat)
    requires k < |Uncovered(edges, cover)|
    requires cover == Firsts(picked) && |cover| == |picked|
    requires AvoidsEarlierPicks(picked)
    ensures var uncovered := Uncovered(edges, cover);
      var edge := uncovered[k];
      var cover' := cover + {edge.u};
      && edge.u !in cover
      && Uncovered(uncovered[..k] + uncovered[k + 1..], cover') == Uncovered(edges, cover')
      && cover' == Firsts(picked + [edge])
      && |cover'| == |picked + [edge]|
      && AvoidsEarlierPicks(picked + [edge])
      && edge in edges
  {
    var uncovered := Uncovered(edges, cover);
    var edge := uncovered[k];
    var cover' := cover + {edge.u};
    assert edge in uncovered;
    FirstsAppend(picked, edge);
    AvoidsGrows(picked, edge);
    UncoveredWithoutTouching(uncovered, k, cover');
    UncoveredTwice(edges, cover, cover');
    assert cover + cover' == cover';
  }

  lemma FirstsAppend(m: seq<Edge>, e: Edge)
    ensures Firsts(m + [e]) == Firsts(m) + {e.u}
  {
    assert forall f :: f in m + [e] <==> f in m || f == e;
  }

  /** A popped edge that avoids the cover keeps the picks avoiding earlier ones. */
  lemma AvoidsGrows(m: seq<Edge>, e: Edge)
    requires AvoidsEarlierPicks(m) && !Touches(e, Firsts(m))
    ensures AvoidsEarlierPicks(m + [e])
  {
    forall i | 0 <= i < |m| ensures e.u != m[i].u && e.v != m[i].u {
      assert m[i] in m;
    }
  }
}
