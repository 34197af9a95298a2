/**
 What path assignment computes on a forest: the path of a child is the path of its parent with the
 child's segment appended, and its ordinal is its position among its sorted siblings.
 */
module SnapshotTrees {
  import opened InsertionSorting
  import opened SnapshotPaths
  import opened Sorting

  ghost predicate NoRepeats(ids: seq<Id>) {
    forall i, j | 0 <= i < j < |ids| :: ids[i] != ids[j]
  }

  ghost predicate OneParent(g: Graph) {
    forall a, b, c | a in g && b in g && c in g && c in g[a].children && c in g[b].children :: a == b
  }

  ghost predicate Below(g: Graph, rank: Id -> nat, top: Id, x: Id)
    requires Acyclic(g, rank)
    decreases rank(top)
  {
    top in g && (x == top || exists c :: c in g[top].children && c in g && Below(g, rank, c, x))
  }

  /** Every known node has at most one parent, which lists it once. */
  ghost predicate IsTree(g: Graph) {
    OneParent(g) && forall id | id in g :: NoRepeats(g[id].children)
  }

  /** No root is listed twice or stands below another; a root may have a parent of its own. */
  ghost predicate IsForest(g: Graph, rank: Id -> nat, roots: seq<Id>)
    requires Acyclic(g, rank)
  {
    IsTree(g) && NoRepeats(roots)
      && forall i, j | 0 <= i < |roots| && 0 <= j < |roots| && i != j :: !Below(g, rank, roots[i], roots[j])
  }

  lemma {:induction false} BelowRank(g: Graph, rank: Id -> nat, top: Id, x: Id)
    requires Acyclic(g, rank) && Below(g, rank, top, x)
    ensures x in g && rank(x) <= rank(top)
    decreases rank(top)
  {
    if x != top {
      var c :| c in g[top].children && c in g && Below(g, rank, c, x);
      BelowRank(g, rank, c, x);
    }
  }

  lemma {:induction false} BelowChild(g: Graph, rank: Id -> nat, top: Id, x: Id, c: Id)
    requires Acyclic(g, rank) && Below(g, rank, top, x) && x in g && c in g[x].children && c in g
    ensures Below(g, rank, top, c)
    decreases rank(top)
  {
    if x == top {
      assert Below(g, rank, c, c);
    } else {
      var b :| b in g[top].children && b in g && Below(g, rank, b, x);
      BelowChild(g, rank, b, x, c);
    }
  }

  lemma {:induction false} BelowParent(g: Graph, rank: Id -> nat, top: Id, x: Id) returns (p: Id)
    requires Acyclic(g, rank) && Below(g, rank, top, x) && x != top
    ensures p in g && x in g[p].children && Below(g, rank, top, p)
    decreases rank(top)
  {
    var c :| c in g[top].children && c in g && Below(g, rank, c, x);
    if c == x {
      p := top;
    } else {
      p := BelowParent(g, rank, c, x);
    }
  }

  /** Subtrees that meet are nested. */
  lemma {:induction false} Nested(g: Graph, rank: Id -> nat, a: Id, b: Id, x: Id)
    requires Acyclic(g, rank) && OneParent(g) && Below(g, rank, a, x) && Below(g, rank, b, x)
    ensures Below(g, rank, a, b) || Below(g, rank, b, a)
    decreases rank(a) - rank(x)
  {
    BelowRank(g, rank, a, x);
    if x != a && x != b {
      var p := BelowParent(g, rank, a, x);
      var q := BelowParent(g, rank, b, x);
      BelowRank(g, rank, a, p);
      Nested(g, rank, a, b, p);
    }
  }

  /** Two ids with nothing below both of them. */
  ghost predicate Apart(g: Graph, rank: Id -> nat, a: Id, b: Id)
    requires Acyclic(g, rank)
  {
    forall x | Below(g, rank, a, x) :: !Below(g, rank, b, x)
  }

  lemma SiblingsApart(g: Graph, rank: Id -> nat, id: Id, a: Id, b: Id)
    requires Acyclic(g, rank) && OneParent(g) && id in g && a in g[id].children && b in g[id].children && a != b
    ensures Apart(g, rank, a, b)
  {
    if x :| Below(g, rank, a, x) && Below(g, rank, b, x) {
      Nested(g, rank, a, b, x);
      if Below(g, rank, a, b) {
        var p := BelowParent(g, rank, a, b);
        BelowRank(g, rank, a, p);
      } else {
        var p := BelowParent(g, rank, b, a);
        BelowRank(g, rank, b, p);
      }
    }
  }

  lemma RootsApart(g: Graph, rank: Id -> nat, roots: seq<Id>, i: nat, j: nat)
    requires Acyclic(g, rank) && IsForest(g, rank, roots) && i < j < |roots|
    ensures Apart(g, rank, roots[i], roots[j])
  {
    if x :| Below(g, rank, roots[i], x) && Below(g, rank, roots[j], x) {
      Nested(g, rank, roots[i], roots[j], x);
    }
  }

  /** The roots of a whole page have no parents, and a selected element is a root alone: both are forests. */
  lemma RenderedRootsAreForest(g: Graph, rank: Id -> nat, roots: seq<Id>)
    requires Acyclic(g, rank) && IsTree(g) && NoRepeats(roots)
    requires |roots| == 1 || forall r, id | r in roots && id in g :: r !in g[id].children
    ensures IsForest(g, rank, roots)
  {
    forall i, j | 0 <= i < |roots| && 0 <= j < |roots| && i != j ensures !Below(g, rank, roots[i], roots[j]) {
      assert roots[i] in roots && roots[j] in roots && roots[i] != roots[j];
      if Below(g, rank, roots[i], roots[j]) {
        var p := BelowParent(g, rank, roots[i], roots[j]);
      }
    }
  }

  // ---------- assignment touches only what is below ----------

  /** The last child is assigned after all the others. */
  lemma LastAssigned(g: Graph, sort: Sorter, rank: Id -> nat, id: Id, kids: seq<Id>, path: string, out: Placements)
    returns (done: Placements, c: Id)
    requires Permutes(sort) && Acyclic(g, rank) && id in g && out.Keys == g.Keys && kids != []
    requires forall c | c in kids :: c in g[id].children
    ensures c == kids[|kids| - 1] && (c in g ==> rank(c) < rank(id)) && done.Keys == g.Keys
    ensures done == AssignChildren(g, sort, rank, id, kids[..|kids| - 1], path, out)
    ensures AssignChildren(g, sort, rank, id, kids, path, out) ==
            if c in g
            then Assign(g, sort, rank, c, path + "/" + Segment(g[c]), done[c := done[c].(ordinal := |kids| - 1)])
            else done
  {
    var n := |kids| - 1;
    AssignOneMore(g, sort, rank, id, kids, n, path, out);
    assert kids[..n + 1] == kids;
    done, c := AssignChildren(g, sort, rank, id, kids[..n], path, out), kids[n];
  }

  lemma {:induction false} AssignFrame(g: Graph, sort: Sorter, rank: Id -> nat, id: Id, path: string, out: Placements,
    x: Id)
    requires Permutes(sort) && Acyclic(g, rank) && id in g && out.Keys == g.Keys && x in g && !Below(g, rank, id, x)
    ensures Assign(g, sort, rank, id, path, out)[x] == out[x]
    decreases rank(id), |g[id].children| + 1
  {
    SortKeepsChildren(sort, g[id].children);
    AssignChildrenFrame(g, sort, rank, id, sort(g[id].children), path, out[id := out[id].(path := path)], x);
  }

  lemma {:induction false} AssignChildrenFrame(g: Graph, sort: Sorter, rank: Id -> nat, id: Id, kids: seq<Id>,
    path: string, out: Placements, x: Id)
    requires Permutes(sort) && Acyclic(g, rank) && id in g && out.Keys == g.Keys && x in g
    requires forall c | c in kids :: c in g[id].children && !Below(g, rank, c, x)
    ensures AssignChildren(g, sort, rank, id, kids, path, out)[x] == out[x]
    decreases rank(id), |kids|
  {
    if kids != [] {
      var n := |kids| - 1;
      var done, c := LastAssigned(g, sort, rank, id, kids, path, out);
      AssignChildrenFrame(g, sort, rank, id, kids[..n], path, out, x);
      if c in g {
        assert Below(g, rank, c, c);
        AssignFrame(g, sort, rank, c, path + "/" + Segment(g[c]), done[c := done[c].(ordinal := n)], x);
      }
    }
  }

  // ---------- the placements of a tree ----------

  ghost predicate ChildrenPlaced(g: Graph, sort: Sorter, p: Placements, x: Id)
    requires x in g
  {
    forall k | 0 <= k < |sort(g[x].children)| :: ChildPlaced(g, sort, p, x, k)
  }

  /** The `k`-th sorted child of `x`, if known, extends the path of `x` and has ordinal `k`. */
  ghost predicate ChildPlaced(g: Graph, sort: Sorter, p: Placements, x: Id, k: nat)
    requires x in g && k < |sort(g[x].children)|
  {
    var c := sort(g[x].children)[k];
    c in g ==> x in p && c in p && p[c] == Placement(p[x].path + "/" + Segment(g[c]), k)
  }

  ghost predicate TreePlaced(g: Graph, sort: Sorter, rank: Id -> nat, top: Id, p: Placements)
    requires Acyclic(g, rank)
  {
    forall x | Below(g, rank, top, x) :: x in g && ChildrenPlaced(g, sort, p, x)
  }

  lemma TreePlacedStays(g: Graph, sort: Sorter, rank: Id -> nat, top: Id, p: Placements, q: Placements)
    requires Permutes(sort) && Acyclic(g, rank) && TreePlaced(g, sort, rank, top, p) && p.Keys == q.Keys == g.Keys
    requires forall x | Below(g, rank, top, x) :: x in g && q[x] == p[x]
    ensures TreePlaced(g, sort, rank, top, q)
  {
    forall x, k | Below(g, rank, top, x) && 0 <= k < |sort(g[x].children)| ensures ChildPlaced(g, sort, q, x, k) {
      assert ChildPlaced(g, sort, p, x, k);
      var c := sort(g[x].children)[k];
      SortKeepsChildren(sort, g[x].children);
      assert c in sort(g[x].children);
      if c in g {
        BelowChild(g, rank, top, x, c);
      }
    }
  }

  ghost predicate SubtreePlaced(g: Graph, sort: Sorter, rank: Id -> nat, c: Id, path: string, k: nat, p: Placements)
    requires Acyclic(g, rank)
  {
    c in g ==> c in p && p[c] == Placement(path + "/" + Segment(g[c]), k) && TreePlaced(g, sort, rank, c, p)
  }

  lemma {:induction false} AssignPlaces(g: Graph, sort: Sorter, rank: Id -> nat, id: Id, path: string, out: Placements)
    requires Permutes(sort) && Acyclic(g, rank) && IsTree(g) && id in g && out.Keys == g.Keys
    ensures Assign(g, sort, rank, id, path, out)[id] == Placement(path, out[id].ordinal)
    ensures TreePlaced(g, sort, rank, id, Assign(g, sort, rank, id, path, out))
    decreases rank(id), |g[id].children| + 1
  {
    var kids, out' := sort(g[id].children), out[id := out[id].(path := path)];
    SortKeepsChildren(sort, g[id].children);
    SortKeepsNoRepeats(g[id].children, kids);
    AssignChildrenPlace(g, sort, rank, id, kids, path, out');
    forall c | c in kids ensures !Below(g, rank, c, id) {
      if Below(g, rank, c, id) {
        BelowRank(g, rank, c, id);
      }
    }
    AssignChildrenFrame(g, sort, rank, id, kids, path, out', id);
    PlacedFromChildren(g, sort, rank, id, path, AssignChildren(g, sort, rank, id, kids, path, out'));
  }

  lemma PlacedFromChildren(g: Graph, sort: Sorter, rank: Id -> nat, id: Id, path: string, p: Placements)
    requires Permutes(sort) && Acyclic(g, rank) && id in g && p.Keys == g.Keys && p[id].path == path
    requires forall k | 0 <= k < |sort(g[id].children)| ::
             SubtreePlaced(g, sort, rank, sort(g[id].children)[k], path, k, p)
    ensures TreePlaced(g, sort, rank, id, p)
  {
    var kids := sort(g[id].children);
    SortKeepsChildren(sort, g[id].children);
    forall x | Below(g, rank, id, x) ensures x in g && ChildrenPlaced(g, sort, p, x) {
      if x == id {
        forall k | 0 <= k < |kids| ensures ChildPlaced(g, sort, p, id, k) {
          assert SubtreePlaced(g, sort, rank, kids[k], path, k, p);
        }
      } else {
        var c :| c in g[id].children && c in g && Below(g, rank, c, x);
        var k :| 0 <= k < |kids| && kids[k] == c;
        assert SubtreePlaced(g, sort, rank, kids[k], path, k, p);
      }
    }
  }

  lemma SortKeepsNoRepeats(xs: seq<Id>, ys: seq<Id>)
    requires NoRepeats(xs) && multiset(xs) == multiset(ys)
    ensures NoRepeats(ys)
  {
    var s := set x | x in xs;
    DistinctIsSet(xs, s);
    ListingOfSet(s, ys);
  }

  lemma {:induction false} DistinctIsSet(xs: seq<Id>, s: set<Id>)
    requires NoRepeats(xs) && s == set x | x in xs
    ensures multiset(xs) == multiset(s)
  {
    if xs == [] {
      assert s == {};
    } else {
      var init, last := xs[..|xs| - 1], xs[|xs| - 1];
      assert xs == init + [last];
      DistinctIsSet(init, s - {last});
    }
  }

  lemma {:induction false} AssignChildrenPlace(g: Graph, sort: Sorter, rank: Id -> nat, id: Id, kids: seq<Id>,
    path: string, out: Placements)
    requires Permutes(sort) && Acyclic(g, rank) && IsTree(g) && id in g && out.Keys == g.Keys
    requires NoRepeats(kids) && forall c | c in kids :: c in g[id].children
    ensures forall k | 0 <= k < |kids| ::
            SubtreePlaced(g, sort, rank, kids[k], path, k, AssignChildren(g, sort, rank, id, kids, path, out))
    decreases rank(id), |kids|
  {
    if kids != [] {
      var n := |kids| - 1;
      AssignChildrenPlace(g, sort, rank, id, kids[..n], path, out);
      forall k | 0 <= k < |kids|
        ensures SubtreePlaced(g, sort, rank, kids[k], path, k, AssignChildren(g, sort, rank, id, kids, path, out))
      {
        if k < n {
          assert kids[k] == kids[..n][k];
          assert SubtreePlaced(g, sort, rank, kids[k], path, k,
            AssignChildren(g, sort, rank, id, kids[..n], path, out));
        }
        NextChild(g, sort, rank, id, kids, path, out, k);
      }
    }
  }

  lemma NextChild(g: Graph, sort: Sorter, rank: Id -> nat, id: Id, kids: seq<Id>, path: string, out: Placements, k: nat)
    requires Permutes(sort) && Acyclic(g, rank) && IsTree(g) && id in g && out.Keys == g.Keys
    requires NoRepeats(kids) && (forall c | c in kids :: c in g[id].children) && k < |kids|
    requires k < |kids| - 1
             ==> SubtreePlaced(g, sort, rank, kids[k], path, k,
             AssignChildren(g, sort, rank, id, kids[..|kids| - 1], path, out))
    ensures SubtreePlaced(g, sort, rank, kids[k], path, k, AssignChildren(g, sort, rank, id, kids, path, out))
    decreases rank(id), |kids|, 0
  {
    var n := |kids| - 1;
    var done, c := LastAssigned(g, sort, rank, id, kids, path, out);
    var path' := if c in g then path + "/" + Segment(g[c]) else "";
    if k == n {
      if c in g {
        AssignPlaces(g, sort, rank, c, path', done[c := done[c].(ordinal := n)]);
      }
    } else {
      if kids[k] in g && c in g {
        SiblingsApart(g, rank, id, kids[k], c);
      }
      EarlierStays(g, sort, rank, kids[k], c, path, k, done, n, path',
        AssignChildren(g, sort, rank, id, kids, path, out));
    }
  }

  /** Assigning one subtree leaves another, apart from it, as it was. */
  lemma SubtreeStays(g: Graph, sort: Sorter, rank: Id -> nat, d: Id, c: Id, path: string, k: nat, done: Placements,
    n: nat, path': string)
    requires Permutes(sort) && Acyclic(g, rank) && done.Keys == g.Keys && c in g && d in g
    requires Apart(g, rank, d, c) && SubtreePlaced(g, sort, rank, d, path, k, done)
    ensures SubtreePlaced(g, sort, rank, d, path, k, Assign(g, sort, rank, c, path', done[c := done[c].(ordinal := n)]))
  {
    var before := done[c := done[c].(ordinal := n)];
    var p := Assign(g, sort, rank, c, path', before);
    forall x | Below(g, rank, d, x) ensures x in g && p[x] == done[x] {
      assert Below(g, rank, c, c);
      BelowRank(g, rank, d, x);
      AssignFrame(g, sort, rank, c, path', before, x);
    }
    assert Below(g, rank, d, d);
    TreePlacedStays(g, sort, rank, d, done, p);
  }

  /** The same when the second subtree may be missing. */
  lemma EarlierStays(g: Graph, sort: Sorter, rank: Id -> nat, d: Id, c: Id, path: string, k: nat, done: Placements,
    n: nat, path': string, p: Placements)
    requires Permutes(sort) && Acyclic(g, rank) && done.Keys == g.Keys && SubtreePlaced(g, sort, rank, d, path, k, done)
    requires p == if c in g then Assign(g, sort, rank, c, path', done[c := done[c].(ordinal := n)]) else done
    requires d in g && c in g ==> Apart(g, rank, d, c)
    ensures SubtreePlaced(g, sort, rank, d, path, k, p)
  {
    if d in g && c in g {
      SubtreeStays(g, sort, rank, d, c, path, k, done, n, path');
    }
  }

  /** The path of every node below a root is determined by the paths above it, and its ordinal by its siblings. */
  lemma {:induction false} PathsFollowTree(g: Graph, sort: Sorter, rank: Id -> nat, roots: seq<Id>, out: Placements)
    requires Permutes(sort) && Acyclic(g, rank) && IsForest(g, rank, roots) && out.Keys == g.Keys
    ensures forall i | 0 <= i < |roots| ::
            SubtreePlaced(g, sort, rank, roots[i], "", i, AssignRoots(g, sort, rank, roots, out))
  {
    if roots != [] {
      var n := |roots| - 1;
      FewerRoots(g, rank, roots, n);
      PathsFollowTree(g, sort, rank, roots[..n], out);
      var done, path := LastRootAssigned(g, sort, rank, roots, out);
      forall i | 0 <= i < |roots|
        ensures SubtreePlaced(g, sort, rank, roots[i], "", i, AssignRoots(g, sort, rank, roots, out))
      {
        if i < n {
          assert roots[i] == roots[..n][i];
          RootsApart(g, rank, roots, i, n);
          EarlierStays(g, sort, rank, roots[i], roots[n], "", i, done, n, path, AssignRoots(g, sort, rank, roots, out));
        } else {
          LastRoot(g, sort, rank, roots, out);
        }
      }
    }
  }

  lemma FewerRoots(g: Graph, rank: Id -> nat, roots: seq<Id>, n: nat)
    requires Acyclic(g, rank) && IsForest(g, rank, roots) && n <= |roots|
    ensures IsForest(g, rank, roots[..n])
  {
  }

  lemma RootPath(segment: string)
    ensures "" + "/" + segment == "/" + segment
  {
  }

  /** The last root is assigned after all the others. */
  lemma LastRootAssigned(g: Graph, sort: Sorter, rank: Id -> nat, roots: seq<Id>, out: Placements)
    returns (done: Placements, path: string)
    requires Permutes(sort) && Acyclic(g, rank) && out.Keys == g.Keys && roots != []
    ensures done == AssignRoots(g, sort, rank, roots[..|roots| - 1], out) && done.Keys == g.Keys
    ensures var r := roots[|roots| - 1];
            AssignRoots(g, sort, rank, roots, out) ==
            if r in g then Assign(g, sort, rank, r, path, done[r := done[r].(ordinal := |roots| - 1)]) else done
  {
    var r := roots[|roots| - 1];
    done := AssignRoots(g, sort, rank, roots[..|roots| - 1], out);
    path := if r in g then "/" + Segment(g[r]) else "";
  }

  lemma LastRoot(g: Graph, sort: Sorter, rank: Id -> nat, roots: seq<Id>, out: Placements)
    requires Permutes(sort) && Acyclic(g, rank) && IsTree(g) && out.Keys == g.Keys && roots != []
    ensures SubtreePlaced(g, sort, rank, roots[|roots| - 1], "", |roots| - 1, AssignRoots(g, sort, rank, roots, out))
  {
    var n := |roots| - 1;
    var done, r := AssignRoots(g, sort, rank, roots[..n], out), roots[n];
    if r in g {
      RootPath(Segment(g[r]));
      AssignPlaces(g, sort, rank, r, "/" + Segment(g[r]), done[r := done[r].(ordinal := n)]);
    }
  }

  /** A node that no root leads to keeps the placement it had. */
  lemma {:induction false} OthersKeepTheirPlaces(g: Graph, sort: Sorter, rank: Id -> nat, roots: seq<Id>,
    out: Placements, x: Id)
    requires Permutes(sort) && Acyclic(g, rank) && out.Keys == g.Keys && x in g
             && forall r | r in roots :: !Below(g, rank, r, x)
    ensures AssignRoots(g, sort, rank, roots, out)[x] == out[x]
  {
    if roots != [] {
      var n := |roots| - 1;
      var done, r := AssignRoots(g, sort, rank, roots[..n], out), roots[n];
      OthersKeepTheirPlaces(g, sort, rank, roots[..n], out, x);
      if r in g {
        assert Below(g, rank, r, r);
        AssignFrame(g, sort, rank, r, "/" + Segment(g[r]), done[r := done[r].(ordinal := n)], x);
      }
    }
  }

  // ---------- when the order of children matters ----------

  ghost predicate FromRoots(g: Graph, rank: Id -> nat, roots: seq<Id>, x: Id)
    requires Acyclic(g, rank)
  {
    exists i :: 0 <= i < |roots| && Below(g, rank, roots[i], x)
  }

  lemma FineIsClosed(g: Graph, rank: Id -> nat, roots: seq<Id>, x: Id)
    requires Acyclic(g, rank) && x in g && (FromRoots(g, rank, roots, x) || x in roots)
    ensures FromRoots(g, rank, roots, x)
    ensures forall c | c in g[x].children && c in g :: FromRoots(g, rank, roots, c)
  {
    if x in roots {
      var i :| 0 <= i < |roots| && roots[i] == x;
      assert Below(g, rank, roots[i], x);
    }
    var i :| 0 <= i < |roots| && Below(g, rank, roots[i], x);
    forall c | c in g[x].children && c in g ensures FromRoots(g, rank, roots, c) {
      BelowChild(g, rank, roots[i], x, c);
    }
  }

  lemma OrdinalOf(g: Graph, sort: Sorter, rank: Id -> nat, roots: seq<Id>, out: Placements, x: Id, k: nat)
    requires Permutes(sort) && Acyclic(g, rank) && IsForest(g, rank, roots) && out.Keys == g.Keys
    requires FromRoots(g, rank, roots, x) && x in g && k < |sort(g[x].children)| && sort(g[x].children)[k] in g
    ensures AssignRoots(g, sort, rank, roots, out)[sort(g[x].children)[k]].ordinal == k
  {
    PathsFollowTree(g, sort, rank, roots, out);
    var i :| 0 <= i < |roots| && Below(g, rank, roots[i], x);
    assert SubtreePlaced(g, sort, rank, roots[i], "", i, AssignRoots(g, sort, rank, roots, out));
    assert ChildPlaced(g, sort, AssignRoots(g, sort, rank, roots, out), x, k);
  }

  lemma {:induction false} BelowIgnoresOrder(g: Graph, h: Graph, rank: Id -> nat, top: Id, x: Id)
    requires Rearranged(g, h) && Acyclic(g, rank) && Acyclic(h, rank) && Below(g, rank, top, x)
    ensures Below(h, rank, top, x)
    decreases rank(top)
  {
    if x != top {
      var c :| c in g[top].children && c in g && Below(g, rank, c, x);
      assert c in multiset(g[top].children);
      BelowIgnoresOrder(g, h, rank, c, x);
    }
  }

  lemma RearrangedBack(g: Graph, h: Graph)
    requires Rearranged(g, h)
    ensures Rearranged(h, g)
    ensures forall id, c | id in g :: c in g[id].children <==> c in h[id].children
  {
    forall id, c | id in g ensures c in g[id].children <==> c in h[id].children {
      assert c in multiset(g[id].children) <==> c in multiset(h[id].children);
    }
  }

  lemma RearrangedStaysForest(g: Graph, h: Graph, rank: Id -> nat, roots: seq<Id>)
    requires Rearranged(g, h) && Acyclic(g, rank) && Acyclic(h, rank) && IsForest(g, rank, roots)
    ensures IsForest(h, rank, roots)
  {
    RearrangedBack(g, h);
    forall id | id in h ensures NoRepeats(h[id].children) {
      SortKeepsNoRepeats(g[id].children, h[id].children);
    }
    forall i, j | 0 <= i < |roots| && 0 <= j < |roots| && i != j ensures !Below(h, rank, roots[i], roots[j]) {
      if Below(h, rank, roots[i], roots[j]) {
        BelowIgnoresOrder(h, g, rank, roots[i], roots[j]);
      }
    }
  }

  /** A missing child between two known ones closes a circle of comparisons. */
  lemma Circle(g: Graph, ids: seq<Id>) returns (a: Id, m: Id, b: Id)
    requires !NoMissingBetween(g, ids)
    ensures a in ids && m in ids && b in ids && a in g && b in g && a != m && m != b && a != b
    ensures ChildLeq(g, a, m) && ChildLeq(g, m, b) && ChildLeq(g, b, a)
  {
    a, b, m :| a in ids && b in ids && m in ids && a in g && b in g && m !in g
               && StringLeq(a, m) && StringLeq(m, b) && !ChildLeq(g, a, b);
    ChildLeqTotal(g, a, b);
    ChildLeqTotal(g, a, a);
  }

  /** The graph with another child list for one node. */
  function Relisted(g: Graph, x: Id, ids: seq<Id>): Graph
    requires x in g
  {
    g[x := g[x].(children := ids)]
  }

  /**
   A child list that starts with three ids comparing in a row gives the last of them a later ordinal than the
   other two.
   */
  lemma StartDecidesOrdinals(g: Graph, rank: Id -> nat, roots: seq<Id>, out: Placements, x: Id, a: Id, b: Id, c: Id,
    rest: seq<Id>)
    requires Acyclic(g, rank) && IsForest(g, rank, roots) && out.Keys == g.Keys && FromRoots(g, rank, roots, x)
             && x in g
    requires g[x].children == [a, b, c] + rest && c in g && ChildLeq(g, a, b) && ChildLeq(g, b, c)
    ensures var p := AssignRoots(g, Inserting(g), rank, roots, out);
            (a in g ==> p[a].ordinal < p[c].ordinal) && (b in g ==> p[b].ordinal < p[c].ordinal)
  {
    StartDecides(a, b, c, rest, Comparison(g));
    OrdinalsFollow(g, rank, roots, out, x, a, c);
    OrdinalsFollow(g, rank, roots, out, x, b, c);
  }

  lemma OrdinalsFollow(g: Graph, rank: Id -> nat, roots: seq<Id>, out: Placements, x: Id, a: Id, b: Id)
    requires Acyclic(g, rank) && IsForest(g, rank, roots) && out.Keys == g.Keys && FromRoots(g, rank, roots, x)
             && x in g
    requires Before(InsertionSort(g[x].children, Comparison(g)), a, b)
    ensures var p := AssignRoots(g, Inserting(g), rank, roots, out);
            a in g && b in g ==> p[a].ordinal < p[b].ordinal
  {
    var kids := InsertionSort(g[x].children, Comparison(g));
    var i, j :| 0 <= i < j < |kids| && kids[i] == a && kids[j] == b;
    assert kids == Inserting(g)(g[x].children);
    if a in g && b in g {
      OrdinalOf(g, Inserting(g), rank, roots, out, x, i);
      OrdinalOf(g, Inserting(g), rank, roots, out, x, j);
    }
  }

  /** Rearranging child lists changes no placement that insertion sort leads to. */
  ghost predicate ChildOrderDoesNotMatter(g: Graph, rank: Id -> nat, roots: seq<Id>, out: Placements)
    requires Acyclic(g, rank) && out.Keys == g.Keys
  {
    forall h | Rearranged(g, h) && Acyclic(h, rank) ::
      AssignRoots(g, Inserting(g), rank, roots, out) == AssignRoots(h, Inserting(h), rank, roots, out)
  }

  lemma RelistedIsRearranged(g: Graph, rank: Id -> nat, roots: seq<Id>, x: Id, ids: seq<Id>)
    requires Acyclic(g, rank) && IsForest(g, rank, roots) && x in g && FromRoots(g, rank, roots, x)
    requires multiset(ids) == multiset(g[x].children)
    ensures var h := Relisted(g, x, ids);
            && Rearranged(g, h) && Acyclic(h, rank) && IsForest(h, rank, roots) && FromRoots(h, rank, roots, x)
            && forall a, b :: ChildLeq(h, a, b) == ChildLeq(g, a, b)
  {
    var h := Relisted(g, x, ids);
    RearrangedStaysAcyclic(g, h, rank);
    RearrangedStaysForest(g, h, rank, roots);
    var i :| 0 <= i < |roots| && Below(g, rank, roots[i], x);
    BelowIgnoresOrder(g, h, rank, roots[i], x);
    forall a, b ensures ChildLeq(h, a, b) == ChildLeq(g, a, b) {
      ChildLeqIgnoresOrder(g, h, a, b);
    }
  }

  /** Some arrangement of the children gives `b` a later ordinal than `a`. */
  ghost predicate CanFollow(g: Graph, rank: Id -> nat, roots: seq<Id>, out: Placements, a: Id, b: Id)
    requires Acyclic(g, rank) && out.Keys == g.Keys && a in g && b in g
  {
    exists h :: Rearranged(g, h) && Acyclic(h, rank) &&
      AssignRoots(h, Inserting(h), rank, roots, out)[a].ordinal
        < AssignRoots(h, Inserting(h), rank, roots, out)[b].ordinal
  }

  lemma CanFollowFirst(g: Graph, rank: Id -> nat, roots: seq<Id>, out: Placements, x: Id, a: Id, b: Id, c: Id,
    rest: seq<Id>, d: Id)
    requires Acyclic(g, rank) && IsForest(g, rank, roots) && out.Keys == g.Keys && FromRoots(g, rank, roots, x)
             && x in g
    requires multiset([a, b, c] + rest) == multiset(g[x].children) && c in g && ChildLeq(g, a, b) && ChildLeq(g, b, c)
    requires d in g && (d == a || d == b)
    ensures CanFollow(g, rank, roots, out, d, c)
  {
    RelistedIsRearranged(g, rank, roots, x, [a, b, c] + rest);
    StartDecidesOrdinals(Relisted(g, x, [a, b, c] + rest), rank, roots, out, x, a, b, c, rest);
  }

  lemma BothOrdersMatter(g: Graph, rank: Id -> nat, roots: seq<Id>, out: Placements, a: Id, b: Id)
    requires Acyclic(g, rank) && out.Keys == g.Keys && a in g && b in g
    requires CanFollow(g, rank, roots, out, a, b) && CanFollow(g, rank, roots, out, b, a)
    ensures !ChildOrderDoesNotMatter(g, rank, roots, out)
  {
  }

  lemma CircleMatters(g: Graph, rank: Id -> nat, roots: seq<Id>, out: Placements, x: Id)
    requires Acyclic(g, rank) && IsForest(g, rank, roots) && out.Keys == g.Keys
    requires FromRoots(g, rank, roots, x) && x in g && !NoMissingBetween(g, g[x].children)
    ensures !ChildOrderDoesNotMatter(g, rank, roots, out)
  {
    var a, m, b := Circle(g, g[x].children);
    var rest := WithoutThree(g[x].children, a, m, b);
    CanFollowFirst(g, rank, roots, out, x, a, m, b, rest, a);
    CanFollowFirst(g, rank, roots, out, x, m, b, a, rest, b);
    BothOrdersMatter(g, rank, roots, out, a, b);
  }

  /**
   On a forest the placements that insertion sort leads to are independent of the order of all
   child lists exactly when no missing child stands between two known siblings that compare the
   other way round, anywhere below the roots.
   */
  lemma ChildOrderMattersIff(g: Graph, rank: Id -> nat, roots: seq<Id>, out: Placements)
    requires Acyclic(g, rank) && IsForest(g, rank, roots) && out.Keys == g.Keys
    ensures ChildOrderDoesNotMatter(g, rank, roots, out) <==>
            forall x | x in g && FromRoots(g, rank, roots, x) :: NoMissingBetween(g, g[x].children)
  {
    if x :| x in g && FromRoots(g, rank, roots, x) && !NoMissingBetween(g, g[x].children) {
      CircleMatters(g, rank, roots, out, x);
    } else {
      var fine := (set x | x in g && FromRoots(g, rank, roots, x)) + (set r | r in roots);
      forall x | x in fine && x in g
        ensures Consistent(g, g[x].children) && forall c | c in g[x].children && c in g :: c in fine
      {
        FineIsClosed(g, rank, roots, x);
        ConsistentIff(g, g[x].children);
      }
      InsertionSortIsSort(g);
      forall h | Rearranged(g, h) && Acyclic(h, rank)
        ensures AssignRoots(g, Inserting(g), rank, roots, out) == AssignRoots(h, Inserting(h), rank, roots, out)
      {
        InsertionSortIsSort(h);
        PathsIgnoreChildOrder(g, h, Inserting(g), Inserting(h), rank, fine, roots, out);
      }
    }
  }
}
