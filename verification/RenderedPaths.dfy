/**
 The paths and ordinals of a rendered tree in terms of the tree alone: a path spells the roles and
 names from the root down, and siblings stand in the order of their shapes.
 */
module RenderedPaths {
  import opened Signatures
  import opened SnapshotPaths
  import opened SnapshotTrees
  import opened Sorting
  import StructuralKey

  /** A node's part of a path: its role and, if it has one, its name, each with its spaces collapsed. */
  function SegmentOf(node: Info): StructuralKey.Segment {
    if node.name == "" then StructuralKey.Plain(NormalizePart(node.role))
    else StructuralKey.Named(NormalizePart(node.role), NormalizePart(node.name))
  }

  lemma SegmentShows(node: Info)
    ensures StructuralKey.SegmentText(SegmentOf(node)) == "/" + Segment(node)
  {
  }

  /** A way from a root down to a node. */
  ghost predicate IsChain(g: Graph, roots: seq<Id>, chain: seq<Id>) {
    && chain != [] && chain[0] in roots && (forall id | id in chain :: id in g)
    && forall k | 0 <= k < |chain| - 1 :: chain[k + 1] in g[chain[k]].children
  }

  function Segments(g: Graph, chain: seq<Id>): (segments: seq<StructuralKey.Segment>)
    requires forall id | id in chain :: id in g
    ensures |segments| == |chain| && forall k | 0 <= k < |chain| :: segments[k] == SegmentOf(g[chain[k]])
  {
    if chain == [] then [] else Segments(g, chain[..|chain| - 1]) + [SegmentOf(g[chain[|chain| - 1]])]
  }

  lemma {:induction false} PathTextSnoc(segments: seq<StructuralKey.Segment>, last: StructuralKey.Segment)
    ensures StructuralKey.PathText(segments + [last]) ==
            StructuralKey.PathText(segments) + StructuralKey.SegmentText(last)
  {
    if segments == [] {
      assert [] + [last] == [last] && [last][1..] == [];
      assert StructuralKey.PathText([last]) == StructuralKey.SegmentText(last) + "";
    } else {
      assert (segments + [last])[1..] == segments[1..] + [last];
      PathTextSnoc(segments[1..], last);
    }
  }

  /** The parent of a node on the way is below the root the way starts at. */
  lemma {:induction false} ChainIsBelow(g: Graph, rank: Id -> nat, roots: seq<Id>, chain: seq<Id>)
    requires Acyclic(g, rank) && IsChain(g, roots, chain)
    ensures Below(g, rank, chain[0], chain[|chain| - 1])
  {
    var n := |chain| - 1;
    if n > 0 {
      var init := chain[..n];
      assert forall id | id in init :: id in chain;
      ChainIsBelow(g, rank, roots, init);
      assert chain[n] in chain;
      BelowChild(g, rank, chain[0], init[n - 1], chain[n]);
    }
  }

  /** A child's path is its parent's path with the child's segment. */
  lemma ChildPath(g: Graph, sort: Sorter, rank: Id -> nat, roots: seq<Id>, out: Placements, i: nat, x: Id, c: Id)
    requires Permutes(sort) && Acyclic(g, rank) && IsForest(g, rank, roots) && out.Keys == g.Keys
    requires i < |roots| && Below(g, rank, roots[i], x) && x in g && c in g && c in g[x].children
    ensures var p := AssignRoots(g, sort, rank, roots, out);
            x in p && c in p && p[c].path == p[x].path + "/" + Segment(g[c])
  {
    var p := AssignRoots(g, sort, rank, roots, out);
    PathsFollowTree(g, sort, rank, roots, out);
    assert SubtreePlaced(g, sort, rank, roots[i], "", i, p);
    assert c in multiset(sort(g[x].children));
    var k :| 0 <= k < |sort(g[x].children)| && sort(g[x].children)[k] == c;
    assert ChildPlaced(g, sort, p, x, k);
  }

  lemma RootPath(g: Graph, sort: Sorter, rank: Id -> nat, roots: seq<Id>, out: Placements, i: nat)
    requires Permutes(sort) && Acyclic(g, rank) && IsForest(g, rank, roots) && out.Keys == g.Keys
    requires i < |roots| && roots[i] in g
    ensures AssignRoots(g, sort, rank, roots, out)[roots[i]] == Placement("/" + Segment(g[roots[i]]), i)
  {
    PathsFollowTree(g, sort, rank, roots, out);
    assert SubtreePlaced(g, sort, rank, roots[i], "", i, AssignRoots(g, sort, rank, roots, out));
    assert "" + "/" + Segment(g[roots[i]]) == "/" + Segment(g[roots[i]]);
  }

  /** Along the way every path extends the one before. */
  ghost predicate Spelled(g: Graph, p: Placements, chain: seq<Id>, k: nat)
    requires k < |chain|
  {
    && chain[k] in g && chain[k] in p
    && if k == 0 then p[chain[k]].path == "/" + Segment(g[chain[k]])
       else chain[k - 1] in p && p[chain[k]].path == p[chain[k - 1]].path + "/" + Segment(g[chain[k]])
  }

  lemma {:induction false} SpelledAlong(g: Graph, p: Placements, chain: seq<Id>)
    requires chain != [] && (forall id | id in chain :: id in g)
    requires forall k | 0 <= k < |chain| :: Spelled(g, p, chain, k)
    ensures chain[|chain| - 1] in p && p[chain[|chain| - 1]].path == StructuralKey.PathText(Segments(g, chain))
  {
    var n := |chain| - 1;
    var init, id := chain[..n], chain[n];
    assert id in chain && Spelled(g, p, chain, n);
    SegmentShows(g[id]);
    PathTextSnoc(Segments(g, init), SegmentOf(g[id]));
    if n > 0 {
      forall k | 0 <= k < n ensures Spelled(g, p, init, k) {
        assert Spelled(g, p, chain, k);
      }
      SpelledAlong(g, p, init);
      Shift(p[chain[n - 1]].path, "/", Segment(g[id]));
    } else {
      assert StructuralKey.PathText(Segments(g, init)) == "";
    }
  }

  lemma Shift(a: string, b: string, c: string)
    ensures a + b + c == a + (b + c)
  {
  }

  lemma StepIsSpelled(g: Graph, sort: Sorter, rank: Id -> nat, roots: seq<Id>, out: Placements, chain: seq<Id>, k: nat)
    requires Permutes(sort) && Acyclic(g, rank) && IsForest(g, rank, roots) && out.Keys == g.Keys
    requires IsChain(g, roots, chain) && k < |chain|
    ensures Spelled(g, AssignRoots(g, sort, rank, roots, out), chain, k)
  {
    assert chain[k] in chain;
    var i :| 0 <= i < |roots| && roots[i] == chain[0];
    if k == 0 {
      RootPath(g, sort, rank, roots, out, i);
    } else {
      assert forall x | x in chain[..k] :: x in chain;
      ChainIsBelow(g, rank, roots, chain[..k]);
      ChildPath(g, sort, rank, roots, out, i, chain[k - 1], chain[k]);
    }
  }

  /** The path of a node spells the roles and names of its ancestors and of itself, from the root down. */
  lemma PathSpellsAncestors(g: Graph, sort: Sorter, rank: Id -> nat, roots: seq<Id>, out: Placements, chain: seq<Id>)
    requires Permutes(sort) && Acyclic(g, rank) && IsForest(g, rank, roots) && out.Keys == g.Keys
    requires IsChain(g, roots, chain)
    ensures var p := AssignRoots(g, sort, rank, roots, out);
            var id := chain[|chain| - 1];
            id in p && p[id].path == StructuralKey.PathText(Segments(g, chain))
  {
    forall k | 0 <= k < |chain| ensures Spelled(g, AssignRoots(g, sort, rank, roots, out), chain, k) {
      StepIsSpelled(g, sort, rank, roots, out, chain, k);
    }
    SpelledAlong(g, AssignRoots(g, sort, rank, roots, out), chain);
  }

  /** The structural path of a node: only the roles are left, if no name of its ancestors or its own leaks. */
  lemma StructureSpellsRoles(g: Graph, sort: Sorter, rank: Id -> nat, roots: seq<Id>, out: Placements, chain: seq<Id>)
    requires Permutes(sort) && Acyclic(g, rank) && IsForest(g, rank, roots) && out.Keys == g.Keys
    requires IsChain(g, roots, chain)
    requires forall segment | segment in Segments(g, chain) :: StructuralKey.WellNamed(segment)
    ensures var p := AssignRoots(g, sort, rank, roots, out);
            var id := chain[|chain| - 1];
            id in p && StructuralKey.Strip(p[id].path) == StructuralKey.RolesText(Segments(g, chain))
  {
    PathSpellsAncestors(g, sort, rank, roots, out, chain);
    StructuralKey.NamesDoNotMatter(Segments(g, chain));
  }

  lemma OrdinalAmong(g: Graph, sort: Sorter, rank: Id -> nat, roots: seq<Id>, out: Placements, x: Id, a: Id)
    returns (i: nat)
    requires Permutes(sort) && Acyclic(g, rank) && IsForest(g, rank, roots) && out.Keys == g.Keys
    requires x in g && FromRoots(g, rank, roots, x) && a in g[x].children && a in g
    ensures i < |sort(g[x].children)| && sort(g[x].children)[i] == a
    ensures AssignRoots(g, sort, rank, roots, out)[a].ordinal == i
  {
    assert a in multiset(sort(g[x].children));
    i :| 0 <= i < |sort(g[x].children)| && sort(g[x].children)[i] == a;
    OrdinalOf(g, sort, rank, roots, out, x, i);
  }

  lemma OrderedPositions(g: Graph, kids: seq<Id>, i: nat, j: nat)
    requires Ordered(g, kids) && i < |kids| && j < |kids| && kids[i] != kids[j]
    ensures i < j <==> ChildLeq(g, kids[i], kids[j])
  {
    ChildLeqTotal(g, kids[i], kids[j]);
  }

  /** Known siblings stand in the order of their sort keys, and only with equal ones in the order of their ids. */
  lemma SiblingOrder(g: Graph, sort: Sorter, rank: Id -> nat, roots: seq<Id>, out: Placements, x: Id, a: Id, b: Id)
    requires IsSort(g, sort) && Acyclic(g, rank) && IsForest(g, rank, roots) && out.Keys == g.Keys
    requires x in g && FromRoots(g, rank, roots, x) && Consistent(g, g[x].children)
    requires a in g[x].children && b in g[x].children && a in g && b in g && a != b
    ensures var p := AssignRoots(g, sort, rank, roots, out);
            p[a].ordinal < p[b].ordinal <==>
            if SortKey(g, a) == SortKey(g, b) then StringLeq(a, b) else StringLeq(SortKey(g, a), SortKey(g, b))
  {
    var i := OrdinalAmong(g, sort, rank, roots, out, x, a);
    var j := OrdinalAmong(g, sort, rank, roots, out, x, b);
    OrderedPositions(g, sort(g[x].children), i, j);
  }

  /** Ids decide the order of siblings only where one shape is as good as the other. */
  lemma IdsDecideOnlyTies(g: Graph, sort: Sorter, rank: Id -> nat, roots: seq<Id>, out: Placements, x: Id, a: Id, b: Id)
    requires IsSort(g, sort) && Acyclic(g, rank) && IsForest(g, rank, roots) && out.Keys == g.Keys && PlainGraph(g)
    requires x in g && FromRoots(g, rank, roots, x) && Consistent(g, g[x].children)
    requires a in g[x].children && b in g[x].children && a in g && b in g && a != b
    ensures var p := AssignRoots(g, sort, rank, roots, out);
            p[a].ordinal < p[b].ordinal <==>
            if ShapeOf(g, a, {}) == ShapeOf(g, b, {}) then StringLeq(a, b) else StringLeq(SortKey(g, a), SortKey(g, b))
  {
    SiblingOrder(g, sort, rank, roots, out, x, a, b);
    SortKeyIff(g, a, b);
  }
}
