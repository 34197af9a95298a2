/**
 DOM paths and sibling ordinals of accessibility nodes. Children are visited in the order of a
 sort key built from subtree signatures, so the path and ordinal of every node depend on the tree
 and not on the order in which the browser happens to list children.
 */
module SnapshotPaths {
  import opened InsertionSorting
  import opened Sorting
  import opened Text

  type Id = string

  datatype Info = Info(role: string, name: string, children: seq<Id>)

  datatype Placement = Placement(path: string, ordinal: int)

  type Graph = map<Id, Info>

  type Placements = map<Id, Placement>

  // ---------- signatures and the order of children ----------

  function NormalizePart(value: string): string {
    Join(Fields(TrimSpace(value)), " ")
  }

  /** Two texts are normalised alike exactly when they have the same words, and a normalised text keeps its words. */
  lemma NormalizedIff(v: string, w: string)
    ensures NormalizePart(v) == NormalizePart(w) <==> Fields(v) == Fields(w)
    ensures Fields(NormalizePart(v)) == Fields(v)
  {
    TrimKeepsFields(v);
    TrimKeepsFields(w);
    FieldsAreWords(v);
    FieldsAreWords(w);
    FieldsOfJoin(Fields(v));
    FieldsOfJoin(Fields(w));
  }

  lemma WordIsNormal(word: string)
    requires IsWord(word)
    ensures NormalizePart(word) == word
  {
    TrimKeepsFields(word);
    assert word + "" == word;
    FieldsOfWord(word, "");
  }

  function Segment(node: Info): string {
    NormalizePart(node.role) + if node.name != "" then "[" + NormalizePart(node.name) + "]" else ""
  }

  function Map<T, U>(f: T -> U, xs: seq<T>): (ys: seq<U>)
    ensures |ys| == |xs|
  {
    if xs == [] then [] else [f(xs[0])] + Map(f, xs[1..])
  }

  /** The shape of the subtree below `id`, with child signatures sorted. */
  function Signature(g: Graph, id: Id, visiting: set<Id>): string
    decreases g.Keys - visiting
  {
    if id in visiting then "cycle"
    else if id !in g then "missing"
    else
      var below := Map((c: Id) => Signature(g, c, visiting + {id}), g[id].children);
      Segment(g[id]) + "(" + Join(Sort(below, StringLeq), ",") + ")"
  }

  function SortKey(g: Graph, id: Id): string {
    if id in g then Segment(g[id]) + "{" + Signature(g, id, {}) + "}" else ""
  }

  /** Children compare by sort key, and by id when the keys are equal or one of them is missing. */
  predicate ChildLeq(g: Graph, a: Id, b: Id) {
    if a !in g || b !in g then StringLeq(a, b)
    else
      var ka, kb := SortKey(g, a), SortKey(g, b);
      if ka == kb then StringLeq(a, b) else StringLeq(ka, kb)
  }

  /** The comparison is transitive on these ids. */
  ghost predicate Consistent(g: Graph, ids: seq<Id>) {
    forall a, b, c | a in ids && b in ids && c in ids && ChildLeq(g, a, b) && ChildLeq(g, b, c) :: ChildLeq(g, a, c)
  }

  ghost predicate Ordered(g: Graph, ids: seq<Id>) {
    forall i, j | 0 <= i < j < |ids| :: ChildLeq(g, ids[i], ids[j])
  }

  type Sorter = seq<Id> -> seq<Id>

  ghost predicate Permutes(sort: Sorter) {
    forall ids {:trigger sort(ids)} :: multiset(sort(ids)) == multiset(ids)
  }

  ghost predicate Sorts(g: Graph, sort: Sorter) {
    forall ids {:trigger sort(ids)} | Consistent(g, ids) :: Ordered(g, sort(ids))
  }

  /**
   All that is known of the library's sort: it rearranges the list, and puts it in order when the
   comparison is consistent on it.
   */
  ghost predicate IsSort(g: Graph, sort: Sorter) {
    Permutes(sort) && Sorts(g, sort)
  }

  lemma ChildLeqTotal(g: Graph, a: Id, b: Id)
    ensures ChildLeq(g, a, b) || ChildLeq(g, b, a)
    ensures ChildLeq(g, a, b) && ChildLeq(g, b, a) ==> a == b
  {
    StringTotal(a, b);
    StringTotal(SortKey(g, a), SortKey(g, b));
    if StringLeq(a, b) && StringLeq(b, a) {
      StringAntisymmetric(a, b);
    }
    if StringLeq(SortKey(g, a), SortKey(g, b)) && StringLeq(SortKey(g, b), SortKey(g, a)) {
      StringAntisymmetric(SortKey(g, a), SortKey(g, b));
    }
  }

  lemma KnownTransitive(g: Graph, a: Id, b: Id, c: Id)
    requires a in g && b in g && c in g && ChildLeq(g, a, b) && ChildLeq(g, b, c)
    ensures ChildLeq(g, a, c)
  {
    var ka, kb, kc := SortKey(g, a), SortKey(g, b), SortKey(g, c);
    if ka == kb == kc {
      StringTransitive(a, b, c);
    } else if ka != kb && kb != kc {
      StringTransitive(ka, kb, kc);
      if ka == kc {
        StringAntisymmetric(ka, kb);
      }
    }
  }

  /** No missing child stands, by id, between two known ones that compare the other way round. */
  ghost predicate NoMissingBetween(g: Graph, ids: seq<Id>) {
    forall a, b, m | a in ids && b in ids && m in ids && a in g && b in g && m !in g && StringLeq(a, m)
      && StringLeq(m, b) :: ChildLeq(g, a, b)
  }

  /** The comparison of children is a total order on a list exactly when no missing child gets in between. */
  lemma ConsistentIff(g: Graph, ids: seq<Id>)
    ensures Consistent(g, ids) <==> NoMissingBetween(g, ids)
  {
    if Consistent(g, ids) {
      forall a, b, m | a in ids && b in ids && m in ids && a in g && b in g && m !in g && StringLeq(a, m)
        && StringLeq(m, b)
        ensures ChildLeq(g, a, b)
      {
        assert ChildLeq(g, a, m) && ChildLeq(g, m, b);
      }
    }
    if NoMissingBetween(g, ids) {
      forall a, b, c | a in ids && b in ids && c in ids && ChildLeq(g, a, b) && ChildLeq(g, b, c)
        ensures ChildLeq(g, a, c)
      {
        NoMissingIsTransitive(g, ids, a, b, c);
      }
    }
  }

  lemma NoMissingIsTransitive(g: Graph, ids: seq<Id>, a: Id, b: Id, c: Id)
    requires NoMissingBetween(g, ids) && a in ids && b in ids && c in ids && ChildLeq(g, a, b) && ChildLeq(g, b, c)
    ensures ChildLeq(g, a, c)
  {
    if a in g && b in g && c in g {
      KnownTransitive(g, a, b, c);
    } else {
      StringTotal(c, a);
      if a in g && b in g && StringLeq(c, a) {
        StringTransitive(b, c, a);
        assert ChildLeq(g, b, a);
        ChildLeqTotal(g, a, b);
        StringAntisymmetric(a, c);
      } else if b in g && c in g && StringLeq(c, a) {
        StringTransitive(c, a, b);
        assert ChildLeq(g, c, b);
        ChildLeqTotal(g, b, c);
        StringAntisymmetric(a, c);
      } else if !(a in g && b in g) && !(b in g && c in g) {
        StringTransitive(a, b, c);
      }
    }
  }

  lemma KnownAreConsistent(g: Graph, ids: seq<Id>)
    requires forall id | id in ids :: id in g
    ensures Consistent(g, ids)
  {
    ConsistentIff(g, ids);
  }

  // ---------- path assignment ----------

  /** There is no cycle: ranks fall from a node to its known children. */
  ghost predicate Acyclic(g: Graph, rank: Id -> nat) {
    forall id, c | id in g && c in g[id].children && c in g :: rank(c) < rank(id)
  }

  /** Give `id` the path, then give its children, in sorted order, their ordinals and paths; skip missing ones. */
  ghost function Assign(g: Graph, sort: Sorter, rank: Id -> nat, id: Id, path: string, out: Placements):
    (out': Placements)
    requires Permutes(sort) && Acyclic(g, rank) && id in g && out.Keys == g.Keys
    ensures out'.Keys == g.Keys
    decreases rank(id), |g[id].children| + 1
  {
    SortKeepsChildren(sort, g[id].children);
    AssignChildren(g, sort, rank, id, sort(g[id].children), path, out[id := out[id].(path := path)])
  }

  ghost function AssignChildren(g: Graph, sort: Sorter, rank: Id -> nat, id: Id, kids: seq<Id>, path: string,
    out: Placements): (out': Placements)
    requires Permutes(sort) && Acyclic(g, rank) && id in g && out.Keys == g.Keys
    requires forall c | c in kids :: c in g[id].children
    ensures out'.Keys == g.Keys
    decreases rank(id), |kids|
  {
    if kids == [] then out
    else
      var done := AssignChildren(g, sort, rank, id, kids[..|kids| - 1], path, out);
      var c := kids[|kids| - 1];
      if c !in g then done
      else Assign(g, sort, rank, c, path + "/" + Segment(g[c]), done[c := done[c].(ordinal := |kids| - 1)])
  }

  ghost function AssignRoots(g: Graph, sort: Sorter, rank: Id -> nat, roots: seq<Id>, out: Placements):
    (out': Placements)
    requires Permutes(sort) && Acyclic(g, rank) && out.Keys == g.Keys
    ensures out'.Keys == g.Keys
  {
    if roots == [] then out
    else
      var done := AssignRoots(g, sort, rank, roots[..|roots| - 1], out);
      var r := roots[|roots| - 1];
      if r !in g then done
      else Assign(g, sort, rank, r, "/" + Segment(g[r]), done[r := done[r].(ordinal := |roots| - 1)])
  }

  lemma SortKeepsChildren(sort: Sorter, ids: seq<Id>)
    requires Permutes(sort)
    ensures forall c :: c in sort(ids) <==> c in ids
    ensures |sort(ids)| == |ids|
  {
    assert |multiset(sort(ids))| == |multiset(ids)|;
    forall c ensures c in sort(ids) <==> c in ids {
      assert c in multiset(sort(ids)) <==> c in multiset(ids);
    }
  }

  // ---------- independence from child order ----------

  /** The same nodes with the same children, each child list in any order. */
  ghost predicate Rearranged(g: Graph, h: Graph) {
    && g.Keys == h.Keys
    && forall id | id in g ::
         g[id].role == h[id].role && g[id].name == h[id].name && multiset(g[id].children) == multiset(h[id].children)
  }

  lemma {:induction false} MapConcat<T, U>(f: T -> U, xs: seq<T>, ys: seq<T>)
    ensures Map(f, xs + ys) == Map(f, xs) + Map(f, ys)
  {
    if xs == [] {
      assert [] + ys == ys;
    } else {
      assert (xs + ys)[1..] == xs[1..] + ys;
      MapConcat(f, xs[1..], ys);
    }
  }

  lemma TakeOut<T, U>(f: T -> U, ys: seq<T>, x: T) returns (rest: seq<T>)
    requires x in multiset(ys)
    ensures |rest| < |ys|
    ensures multiset(rest) == multiset(ys) - multiset{x}
    ensures multiset(Map(f, ys)) == multiset(Map(f, rest)) + multiset{f(x)}
  {
    var i :| 0 <= i < |ys| && ys[i] == x;
    var before, after := ys[..i], ys[i + 1..];
    rest := before + after;
    assert ys == before + ([x] + after);
    MapConcat(f, before, after);
    MapConcat(f, before, [x] + after);
    assert ([x] + after)[1..] == after;
  }

  lemma {:induction false} MapIgnoresOrder<T, U>(f: T -> U, xs: seq<T>, ys: seq<T>)
    requires multiset(xs) == multiset(ys)
    ensures multiset(Map(f, xs)) == multiset(Map(f, ys))
    decreases |xs|
  {
    if xs == [] {
      assert |multiset(ys)| == 0;
    } else {
      var xs' := TakeOut(f, xs, xs[0]);
      var ys' := TakeOut(f, ys, xs[0]);
      MapIgnoresOrder(f, xs', ys');
    }
  }

  lemma {:induction false} MapCongruent<T, U>(f: T -> U, f': T -> U, xs: seq<T>)
    requires forall x | x in xs :: f(x) == f'(x)
    ensures Map(f, xs) == Map(f', xs)
  {
    if xs != [] {
      MapCongruent(f, f', xs[1..]);
    }
  }

  lemma {:induction false} SignatureIgnoresOrder(g: Graph, h: Graph, id: Id, visiting: set<Id>)
    requires Rearranged(g, h)
    ensures Signature(g, id, visiting) == Signature(h, id, visiting)
    decreases g.Keys - visiting
  {
    if id !in visiting && id in g {
      var fg := (c: Id) => Signature(g, c, visiting + {id});
      var fh := (c: Id) => Signature(h, c, visiting + {id});
      forall c ensures fg(c) == fh(c) {
        SignatureIgnoresOrder(g, h, c, visiting + {id});
      }
      MapCongruent(fg, fh, g[id].children);
      MapIgnoresOrder(fh, g[id].children, h[id].children);
      StringOrder();
      SortIgnoresOrder(Map(fg, g[id].children), Map(fh, h[id].children), StringLeq);
    }
  }

  /** Two arrangements of the same ids, both in order, are the same. */
  lemma OrderedUnique(g: Graph, xs: seq<Id>, ys: seq<Id>)
    requires Ordered(g, xs) && Ordered(g, ys) && multiset(xs) == multiset(ys)
    ensures xs == ys
  {
    var leq := (a: Id, b: Id) => ChildLeq(g, a, b);
    forall a, b | leq(a, b) && leq(b, a) ensures a == b {
      ChildLeqTotal(g, a, b);
    }
    SortedUnique(xs, ys, leq);
  }

  lemma ChildLeqIgnoresOrder(g: Graph, h: Graph, a: Id, b: Id)
    requires Rearranged(g, h)
    ensures ChildLeq(g, a, b) == ChildLeq(h, a, b)
  {
    SignatureIgnoresOrder(g, h, a, {});
    SignatureIgnoresOrder(g, h, b, {});
  }

  lemma ConsistentIgnoresOrder(g: Graph, h: Graph, xs: seq<Id>, ys: seq<Id>)
    requires Rearranged(g, h) && Consistent(g, xs) && multiset(xs) == multiset(ys)
    ensures Consistent(h, ys)
  {
    forall a, b, c | a in ys && b in ys && c in ys && ChildLeq(h, a, b) && ChildLeq(h, b, c) ensures ChildLeq(h, a, c) {
      assert a in multiset(xs) && b in multiset(xs) && c in multiset(xs);
      ChildLeqIgnoresOrder(g, h, a, b);
      ChildLeqIgnoresOrder(g, h, b, c);
      ChildLeqIgnoresOrder(g, h, a, c);
    }
  }

  /** Whatever sorts are used, rearranged child lists on which the comparison is consistent sort alike. */
  lemma SortedChildrenIgnoreOrder(g: Graph, h: Graph, sortG: Sorter, sortH: Sorter, id: Id)
    requires Rearranged(g, h) && IsSort(g, sortG) && IsSort(h, sortH) && id in g && Consistent(g, g[id].children)
    ensures sortG(g[id].children) == sortH(h[id].children)
  {
    var xs, ys := sortG(g[id].children), sortH(h[id].children);
    ConsistentIgnoresOrder(g, h, g[id].children, h[id].children);
    forall i, j | 0 <= i < j < |ys| ensures ChildLeq(g, ys[i], ys[j]) {
      ChildLeqIgnoresOrder(g, h, ys[i], ys[j]);
    }
    OrderedUnique(g, xs, ys);
  }

  lemma RearrangedStaysAcyclic(g: Graph, h: Graph, rank: Id -> nat)
    requires Rearranged(g, h) && Acyclic(g, rank)
    ensures Acyclic(h, rank)
  {
    forall id, c | id in h && c in h[id].children && c in h ensures rank(c) < rank(id) {
      assert c in multiset(g[id].children);
    }
  }

  /** The comparison is consistent on the child list of each of these nodes, and their children are among them. */
  ghost predicate ConsistentWithin(g: Graph, fine: set<Id>) {
    forall id | id in fine && id in g ::
      Consistent(g, g[id].children) && forall c | c in g[id].children && c in g :: c in fine
  }

  /** Two graphs and sorts that should place these nodes alike. */
  ghost predicate Comparable(g: Graph, h: Graph, sortG: Sorter, sortH: Sorter, rank: Id -> nat, fine: set<Id>) {
    && Rearranged(g, h) && Acyclic(g, rank) && Acyclic(h, rank)
    && IsSort(g, sortG) && IsSort(h, sortH) && ConsistentWithin(g, fine)
  }

  lemma {:induction false} AssignIgnoresOrder(g: Graph, h: Graph, sortG: Sorter, sortH: Sorter, rank: Id -> nat,
    fine: set<Id>, id: Id, path: string, out: Placements)
    requires Comparable(g, h, sortG, sortH, rank, fine) && id in g && id in fine && out.Keys == g.Keys
    ensures Assign(g, sortG, rank, id, path, out) == Assign(h, sortH, rank, id, path, out)
    decreases rank(id), |g[id].children| + 1
  {
    SortedChildrenIgnoreOrder(g, h, sortG, sortH, id);
    SortKeepsChildren(sortG, g[id].children);
    SortKeepsChildren(sortH, h[id].children);
    AssignChildrenIgnoreOrder(g, h, sortG, sortH, rank, fine, id, sortG(g[id].children), path,
      out[id := out[id].(path := path)]);
  }

  lemma {:induction false} AssignChildrenIgnoreOrder(g: Graph, h: Graph, sortG: Sorter, sortH: Sorter, rank: Id -> nat,
    fine: set<Id>, id: Id, kids: seq<Id>, path: string, out: Placements)
    requires Comparable(g, h, sortG, sortH, rank, fine) && id in g && id in fine && out.Keys == g.Keys
    requires forall c | c in kids :: c in g[id].children && c in h[id].children
    ensures AssignChildren(g, sortG, rank, id, kids, path, out) == AssignChildren(h, sortH, rank, id, kids, path, out)
    decreases rank(id), |kids|
  {
    if kids != [] {
      AssignChildrenIgnoreOrder(g, h, sortG, sortH, rank, fine, id, kids[..|kids| - 1], path, out);
      var done := AssignChildren(g, sortG, rank, id, kids[..|kids| - 1], path, out);
      var c := kids[|kids| - 1];
      if c in g {
        AssignIgnoresOrder(g, h, sortG, sortH, rank, fine, c, path + "/" + Segment(g[c]),
          done[c := done[c].(ordinal := |kids| - 1)]);
      }
    }
  }

  /**
   Permuting child lists anywhere, and using another sort, changes neither the path nor the ordinal
   of any node, as long as the comparison is consistent on every child list the roots lead to.
   */
  lemma {:induction false} PathsIgnoreChildOrder(g: Graph, h: Graph, sortG: Sorter, sortH: Sorter, rank: Id -> nat,
    fine: set<Id>, roots: seq<Id>, out: Placements)
    requires Rearranged(g, h) && Acyclic(g, rank) && out.Keys == g.Keys
    requires IsSort(g, sortG) && IsSort(h, sortH) && ConsistentWithin(g, fine) && forall r | r in roots :: r in fine
    ensures Acyclic(h, rank)
    ensures AssignRoots(g, sortG, rank, roots, out) == AssignRoots(h, sortH, rank, roots, out)
  {
    RearrangedStaysAcyclic(g, h, rank);
    if roots != [] {
      PathsIgnoreChildOrder(g, h, sortG, sortH, rank, fine, roots[..|roots| - 1], out);
      var done := AssignRoots(g, sortG, rank, roots[..|roots| - 1], out);
      var r := roots[|roots| - 1];
      if r in g {
        AssignIgnoresOrder(g, h, sortG, sortH, rank, fine, r, "/" + Segment(g[r]),
          done[r := done[r].(ordinal := |roots| - 1)]);
      }
    }
  }

  /** In particular when all children are known. */
  lemma KnownChildrenIgnoreOrder(g: Graph, h: Graph, sortG: Sorter, sortH: Sorter, rank: Id -> nat, roots: seq<Id>,
    out: Placements)
    requires Rearranged(g, h) && Acyclic(g, rank) && out.Keys == g.Keys && IsSort(g, sortG) && IsSort(h, sortH)
    requires forall id, c | id in g && c in g[id].children :: c in g
    ensures Acyclic(h, rank) && AssignRoots(g, sortG, rank, roots, out) == AssignRoots(h, sortH, rank, roots, out)
  {
    forall id | id in g ensures Consistent(g, g[id].children) {
      KnownAreConsistent(g, g[id].children);
    }
    PathsIgnoreChildOrder(g, h, sortG, sortH, rank, g.Keys + (set r | r in roots), roots, out);
  }

  // ---------- insertion sort ----------

  function Comparison(g: Graph): (Id, Id) -> bool {
    (a, b) => ChildLeq(g, a, b)
  }

  /** What the library's sort does with lists of up to twenty ids. */
  function Inserting(g: Graph): (sort: Sorter)
    ensures Permutes(sort)
  {
    InsertingPermutes(g);
    ids => InsertionSort(ids, Comparison(g))
  }

  lemma InsertingPermutes(g: Graph)
    ensures forall ids :: multiset(InsertionSort(ids, Comparison(g))) == multiset(ids)
  {
    forall ids ensures multiset(InsertionSort(ids, Comparison(g))) == multiset(ids) {
      InsertionSortKeeps(ids, Comparison(g));
    }
  }

  /** Insertion sort is one of the sorts meant here. */
  lemma InsertionSortIsSort(g: Graph)
    ensures IsSort(g, Inserting(g))
  {
    forall ids | Consistent(g, ids) ensures Ordered(g, Inserting(g)(ids)) {
      InsertionSorts(g, ids, Comparison(g));
    }
  }

  lemma InsertionSorts(g: Graph, ids: seq<Id>, leq: (Id, Id) -> bool)
    requires Consistent(g, ids) && forall a, b :: leq(a, b) == ChildLeq(g, a, b)
    ensures Ordered(g, InsertionSort(ids, leq))
  {
    var s := set x | x in ids;
    forall a, b | a in s && b in s ensures leq(a, b) || leq(b, a) {
      ChildLeqTotal(g, a, b);
    }
    InsertionSortOrders(s, ids, leq);
  }

  // ---------- the assignment in place ----------

  class SnapshotNode {
    const info: Info
    var domPath: string
    var siblingOrdinal: int

    constructor (info: Info)
      ensures this.info == info && domPath == "" && siblingOrdinal == 0
    {
      this.info, domPath, siblingOrdinal := info, "", 0;
    }
  }

  type Parsed = map<Id, SnapshotNode>

  ghost predicate Distinct(parsed: Parsed) {
    forall a, b | a in parsed && b in parsed && a != b :: parsed[a] != parsed[b]
  }

  function View(parsed: Parsed): Graph {
    map id | id in parsed :: parsed[id].info
  }

  ghost function Placed(parsed: Parsed): Placements
    reads parsed.Values
  {
    map id | id in parsed :: Placement(parsed[id].domPath, parsed[id].siblingOrdinal)
  }

  method SetPath(parsed: Parsed, id: Id, path: string)
    requires Distinct(parsed) && id in parsed
    modifies parsed[id]
    ensures var out := old(Placed(parsed)); Placed(parsed) == out[id := out[id].(path := path)]
  {
    parsed[id].domPath := path;
  }

  method SetOrdinal(parsed: Parsed, id: Id, ordinal: int)
    requires Distinct(parsed) && id in parsed
    modifies parsed[id]
    ensures var out := old(Placed(parsed)); Placed(parsed) == out[id := out[id].(ordinal := ordinal)]
  {
    parsed[id].siblingOrdinal := ordinal;
  }

  /** Place `id` and what is below it; an unknown id is ignored. */
  method AssignSnapshotPath(parsed: Parsed, sort: Sorter, id: Id, path: string, ghost rank: Id -> nat)
    requires Distinct(parsed) && Permutes(sort) && Acyclic(View(parsed), rank)
    modifies parsed.Values
    ensures Placed(parsed) == if id in parsed then Assign(View(parsed), sort, rank, id, path, old(Placed(parsed)))
            else old(Placed(parsed))
    decreases rank(id)
  {
    if id !in parsed {
      return;
    }
    ghost var out := Placed(parsed);
    SetPath(parsed, id, path);
    var kids := sort(parsed[id].info.children);
    SortKeepsChildren(sort, parsed[id].info.children);
    assert kids[..|kids|] == kids;
    for ordinal := 0 to |kids|
      invariant Placed(parsed)
                == AssignChildren(View(parsed), sort, rank, id, kids[..ordinal], path,
                out[id := out[id].(path := path)])
    {
      AssignNext(parsed, sort, id, kids, ordinal, path, rank, out[id := out[id].(path := path)]);
    }
  }

  method AssignNext(parsed: Parsed, sort: Sorter, id: Id, kids: seq<Id>, ordinal: nat, path: string,
    ghost rank: Id -> nat, ghost out: Placements)
    requires Distinct(parsed) && Permutes(sort) && Acyclic(View(parsed), rank) && id in parsed
             && out.Keys == parsed.Keys
    requires ordinal < |kids| && forall c | c in kids :: c in View(parsed)[id].children
    requires Placed(parsed) == AssignChildren(View(parsed), sort, rank, id, kids[..ordinal], path, out)
    modifies parsed.Values
    ensures Placed(parsed) == AssignChildren(View(parsed), sort, rank, id, kids[..ordinal + 1], path, out)
    decreases rank(id), 1
  {
    AssignOneMore(View(parsed), sort, rank, id, kids, ordinal, path, out);
    if kids[ordinal] in parsed {
      AssignChild(parsed, sort, kids[ordinal], ordinal, path, rank, rank(id));
    }
  }

  lemma AssignOneMore(g: Graph, sort: Sorter, rank: Id -> nat, id: Id, kids: seq<Id>, ordinal: nat, path: string,
    out: Placements)
    requires Permutes(sort) && Acyclic(g, rank) && id in g && out.Keys == g.Keys
    requires ordinal < |kids| && forall c | c in kids :: c in g[id].children
    ensures kids[ordinal] in g ==> rank(kids[ordinal]) < rank(id)
    ensures var c, done := kids[ordinal], AssignChildren(g, sort, rank, id, kids[..ordinal], path, out);
            AssignChildren(g, sort, rank, id, kids[..ordinal + 1], path, out) ==
            if c in g then Assign(g, sort, rank, c, path + "/" + Segment(g[c]), done[c := done[c].(ordinal := ordinal)])
            else done
  {
    assert kids[..ordinal + 1][..ordinal] == kids[..ordinal];
    assert kids[ordinal] in kids;
  }

  method AssignChild(parsed: Parsed, sort: Sorter, childId: Id, ordinal: nat, path: string, ghost rank: Id -> nat,
    ghost bound: nat)
    requires Distinct(parsed) && Permutes(sort) && Acyclic(View(parsed), rank) && childId in parsed
             && rank(childId) < bound
    modifies parsed.Values
    ensures var out := old(Placed(parsed));
            Placed(parsed) == Assign(View(parsed), sort, rank, childId, path + "/" + Segment(View(parsed)[childId]),
                                     out[childId := out[childId].(ordinal := ordinal)])
    decreases bound, 0
  {
    SetOrdinal(parsed, childId, ordinal);
    AssignSnapshotPath(parsed, sort, childId, path + "/" + Segment(parsed[childId].info), rank);
  }

  /** The fields of all nodes after the traversal are the placements of the pure assignment. */
  method AssignSnapshotPaths(parsed: Parsed, sort: Sorter, roots: seq<Id>, ghost rank: Id -> nat)
    requires Distinct(parsed) && Permutes(sort) && Acyclic(View(parsed), rank)
    modifies parsed.Values
    ensures Placed(parsed) == AssignRoots(View(parsed), sort, rank, roots, old(Placed(parsed)))
  {
    assert roots[..|roots|] == roots;
    for ordinal := 0 to |roots|
      invariant Placed(parsed) == AssignRoots(View(parsed), sort, rank, roots[..ordinal], old(Placed(parsed)))
    {
      assert roots[..ordinal + 1][..ordinal] == roots[..ordinal];
      var rootId := roots[ordinal];
      if rootId in parsed {
        assert "" + "/" == "/";
        AssignChild(parsed, sort, rootId, ordinal, "", rank, rank(rootId) + 1);
      }
    }
  }
}
