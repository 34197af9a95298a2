/**
 What the signature of a subtree says. A signature is a text, but as long as no role or name has a
 parenthesis or a comma in it, two subtrees have one signature exactly when they have one shape,
 that is, when they differ at most in the order of children and in the ids of nodes.
 */
module Signatures {
  import opened SnapshotPaths
  import opened Sorting
  import opened Text

  /** The shape of a subtree: children form a multiset, and a cycle or a missing node ends it. */
  datatype Shape = Cycle | Missing | Node(segment: string, below: multiset<Shape>)

  function ShapeOf(g: Graph, id: Id, visiting: set<Id>): Shape
    decreases g.Keys - visiting
  {
    if id in visiting then Cycle
    else if id !in g then Missing
    else Node(Segment(g[id]), multiset(Map((c: Id) => ShapeOf(g, c, visiting + {id}), g[id].children)))
  }

  predicate PlainText(s: string) { '(' !in s && ')' !in s && ',' !in s }

  ghost predicate PlainGraph(g: Graph) {
    forall id | id in g :: PlainText(Segment(g[id]))
  }

  // ---------- texts with parentheses ----------

  /** How many parentheses are open after a text. */
  function Level(s: string): int {
    if s == [] then 0
    else
      var last := s[|s| - 1];
      Level(s[..|s| - 1]) + if last == '(' then 1 else if last == ')' then -1 else 0
  }

  lemma {:induction false} LevelConcat(s: string, t: string)
    ensures Level(s + t) == Level(s) + Level(t)
  {
    if t == [] {
      assert s + t == s;
    } else {
      assert (s + t)[..|s + t| - 1] == s + t[..|t| - 1];
      LevelConcat(s, t[..|t| - 1]);
    }
  }

  lemma {:induction false} PlainIsLevel(s: string)
    requires PlainText(s)
    ensures Level(s) == 0
  {
    if s != [] {
      PlainIsLevel(s[..|s| - 1]);
    }
  }

  /** A closed text whose commas all stand inside parentheses. */
  ghost predicate Item(s: string) {
    && s != "" && Level(s) == 0
    && forall k | 0 <= k < |s| :: ItemAt(s, k)
  }

  predicate ItemAt(s: string, k: nat)
    requires k < |s|
  {
    Level(s[..k]) >= 0 && (s[k] == ',' ==> Level(s[..k]) > 0)
  }

  /** A closed text, whatever its commas. */
  ghost predicate Closed(s: string) {
    Level(s) == 0 && forall k | 0 <= k <= |s| :: Level(s[..k]) >= 0
  }

  lemma ItemIsClosed(s: string)
    requires Item(s)
    ensures Closed(s)
  {
    forall k | 0 <= k <= |s| ensures Level(s[..k]) >= 0 {
      if k < |s| {
        assert ItemAt(s, k);
      } else {
        assert s[..k] == s;
      }
    }
  }

  lemma PlainItem(s: string)
    requires PlainText(s) && s != ""
    ensures Item(s)
  {
    PlainIsLevel(s);
    forall k | 0 <= k < |s| ensures ItemAt(s, k) {
      PlainIsLevel(s[..k]);
    }
  }

  lemma ClosedConcat(s: string, t: string)
    requires Closed(s) && Closed(t)
    ensures Closed(s + t)
  {
    LevelConcat(s, t);
    forall k | 0 <= k <= |s + t| ensures Level((s + t)[..k]) >= 0 {
      if k <= |s| {
        assert (s + t)[..k] == s[..k];
      } else {
        assert (s + t)[..k] == s + t[..k - |s|];
        LevelConcat(s, t[..k - |s|]);
      }
    }
  }

  lemma {:induction false} JoinIsClosed(items: seq<string>)
    requires forall s | s in items :: Item(s)
    ensures Closed(Join(items, ","))
  {
    if items == [] {
      assert Join(items, ",") == "";
    } else {
      ItemIsClosed(items[0]);
      if |items| > 1 {
        JoinIsClosed(items[1..]);
        assert Level(",") == 0;
        assert Closed(",") by {
          assert ","[..0] == "" && ","[..1] == ",";
        }
        ClosedConcat(items[0], ",");
        ClosedConcat(items[0] + ",", Join(items[1..], ","));
      }
    }
  }

  lemma NodeIsItem(segment: string, inner: string)
    requires PlainText(segment) && Closed(inner)
    ensures Item(segment + "(" + inner + ")")
  {
    var head := segment + "(";
    var whole := head + inner + ")";
    PlainIsLevel(segment);
    LevelConcat(segment, "(");
    LevelConcat(head, inner);
    LevelConcat(head + inner, ")");
    assert Level("(") == 1 && Level(")") == -1;
    forall k | 0 <= k < |whole| ensures ItemAt(whole, k) {
      if k <= |segment| {
        assert whole[..k] == segment[..k];
        PlainIsLevel(segment[..k]);
        assert k < |segment| ==> whole[k] == segment[k];
      } else {
        assert whole[..k] == head + inner[..k - |head|];
        LevelConcat(head, inner[..k - |head|]);
      }
    }
  }

  // ---------- reading them back ----------

  lemma NoCommaAfter(x: string, y: string)
    requires Item(x) && Item(y) && |x| < |y| && y[..|x|] == x
    ensures y[|x|] != ','
  {
    assert ItemAt(y, |x|);
  }

  /** What a list of items starts with is fixed by the text. */
  lemma HeadIsFixed(x: string, rest: string, y: string, more: string)
    requires Item(x) && Item(y) && x + rest == y + more && |x| <= |y|
    requires (rest == "" || rest[0] == ',') && (more == "" || more[0] == ',')
    ensures x == y && rest == more
  {
    assert (x + rest)[..|x|] == x && (y + more)[..|x|] == y[..|x|];
    if |x| < |y| {
      NoCommaAfter(x, y);
    }
    assert (x + rest)[|x|..] == rest && (y + more)[|y|..] == more;
  }

  lemma {:induction false} JoinIsInjective(xs: seq<string>, ys: seq<string>)
    requires (forall s | s in xs :: Item(s)) && (forall s | s in ys :: Item(s))
    requires Join(xs, ",") == Join(ys, ",")
    ensures xs == ys
  {
    if xs == [] || ys == [] {
      JoinEmpty(xs);
      JoinEmpty(ys);
    } else {
      var rx, ry := Rest(xs), Rest(ys);
      JoinHead(xs);
      JoinHead(ys);
      if |xs[0]| <= |ys[0]| {
        HeadIsFixed(xs[0], rx, ys[0], ry);
      } else {
        HeadIsFixed(ys[0], ry, xs[0], rx);
      }
      RestIsFixed(xs, ys);
      JoinIsInjective(xs[1..], ys[1..]);
      assert xs == [xs[0]] + xs[1..] && ys == [ys[0]] + ys[1..];
    }
  }

  function Rest(xs: seq<string>): string
    requires xs != []
  {
    if |xs| == 1 then "" else "," + Join(xs[1..], ",")
  }

  lemma JoinHead(xs: seq<string>)
    requires xs != []
    ensures Join(xs, ",") == xs[0] + Rest(xs)
  {
    if |xs| > 1 {
      assert xs[0] + "," + Join(xs[1..], ",") == xs[0] + ("," + Join(xs[1..], ","));
    } else {
      assert xs[0] + "" == xs[0];
    }
  }

  lemma RestIsFixed(xs: seq<string>, ys: seq<string>)
    requires xs != [] && ys != [] && Rest(xs) == Rest(ys)
    ensures Join(xs[1..], ",") == Join(ys[1..], ",")
  {
    assert |xs| > 1 ==> Rest(xs)[1..] == Join(xs[1..], ",");
    assert |ys| > 1 ==> Rest(ys)[1..] == Join(ys[1..], ",");
  }

  lemma JoinEmpty(xs: seq<string>)
    requires forall s | s in xs :: s != ""
    ensures Join(xs, ",") == "" <==> xs == []
  {
    if xs != [] {
      JoinHead(xs);
      assert xs[0] in xs;
    }
  }

  lemma NodeIsInjective(segment: string, inner: string, segment': string, inner': string)
    requires PlainText(segment) && PlainText(segment')
    requires segment + "(" + inner + ")" == segment' + "(" + inner' + ")"
    ensures segment == segment' && inner == inner'
  {
    var whole := segment + "(" + inner + ")";
    assert whole[|segment|] == '(' && whole[|segment'|] == '(';
    assert forall k | 0 <= k < |segment| :: whole[k] == segment[k];
    assert forall k | 0 <= k < |segment'| :: whole[k] == segment'[k];
    assert whole[..|segment|] == segment && whole[..|segment'|] == segment';
    assert whole[|segment| + 1..|whole| - 1] == inner && whole[|segment'| + 1..|whole| - 1] == inner';
  }

  // ---------- signatures and shapes ----------

  lemma {:induction false} MapAt<T, U>(f: T -> U, xs: seq<T>, i: nat)
    requires i < |xs|
    ensures Map(f, xs)[i] == f(xs[i])
  {
    if i > 0 {
      MapAt(f, xs[1..], i - 1);
    }
  }

  lemma SortedItems(items: seq<string>)
    requires forall i | 0 <= i < |items| :: Item(items[i])
    ensures multiset(Sort(items, StringLeq)) == multiset(items)
    ensures forall s | s in Sort(items, StringLeq) :: Item(s)
  {
    SortKeepsElements(items, StringLeq);
    assert forall s | s in Sort(items, StringLeq) :: s in multiset(Sort(items, StringLeq));
  }

  lemma {:induction false} SignatureIsItem(g: Graph, id: Id, visiting: set<Id>)
    requires PlainGraph(g)
    ensures Item(Signature(g, id, visiting))
    decreases g.Keys - visiting
  {
    if id in visiting {
      PlainItem("cycle");
    } else if id !in g {
      PlainItem("missing");
    } else {
      var below := SignaturesBelow(g, id, visiting);
      forall i | 0 <= i < |below| ensures Item(below[i]) {
        SignaturesBelowAt(g, id, visiting, i);
        SignatureIsItem(g, g[id].children[i], visiting + {id});
      }
      SortedItems(below);
      JoinIsClosed(Sort(below, StringLeq));
      NodeIsItem(Segment(g[id]), Join(Sort(below, StringLeq), ","));
    }
  }

  /** The signatures of the children. */
  function SignaturesBelow(g: Graph, id: Id, visiting: set<Id>): (below: seq<string>)
    requires id in g && id !in visiting
    ensures |below| == |g[id].children|
    ensures Signature(g, id, visiting) == Segment(g[id]) + "(" + Join(Sort(below, StringLeq), ",") + ")"
  {
    Map((c: Id) => Signature(g, c, visiting + {id}), g[id].children)
  }

  lemma SignaturesBelowAt(g: Graph, id: Id, visiting: set<Id>, i: nat)
    requires id in g && id !in visiting && i < |g[id].children|
    ensures SignaturesBelow(g, id, visiting)[i] == Signature(g, g[id].children[i], visiting + {id})
  {
    MapAt((c: Id) => Signature(g, c, visiting + {id}), g[id].children, i);
  }

  /** The shapes of the children. */
  function ShapesBelow(g: Graph, id: Id, visiting: set<Id>): (below: seq<Shape>)
    requires id in g && id !in visiting
    ensures |below| == |g[id].children|
    ensures ShapeOf(g, id, visiting) == Node(Segment(g[id]), multiset(below))
  {
    Map((c: Id) => ShapeOf(g, c, visiting + {id}), g[id].children)
  }

  lemma ShapesBelowAt(g: Graph, id: Id, visiting: set<Id>, i: nat)
    requires id in g && id !in visiting && i < |g[id].children|
    ensures ShapesBelow(g, id, visiting)[i] == ShapeOf(g, g[id].children[i], visiting + {id})
  {
    MapAt((c: Id) => ShapeOf(g, c, visiting + {id}), g[id].children, i);
  }

  ghost predicate Follows<A, B>(a: seq<A>, b: seq<A>, a': seq<B>, b': seq<B>)
    requires |a| == |a'| && |b| == |b'|
  {
    forall i, j | 0 <= i < |a| && 0 <= j < |b| && a[i] == b[j] :: a'[i] == b'[j]
  }

  /** If equal elements of two lists have equal images, equal multisets have equal images. */
  lemma {:induction false} SameImages<A, B>(a: seq<A>, b: seq<A>, a': seq<B>, b': seq<B>)
    requires |a| == |a'| && |b| == |b'| && Follows(a, b, a', b') && multiset(a) == multiset(b)
    ensures multiset(a') == multiset(b')
  {
    if a == [] {
      assert |b| == |multiset(b)| == 0;
    } else {
      assert a[0] in multiset(b);
      var j :| 0 <= j < |b| && b[j] == a[0];
      DropIsLess(a, 0);
      DropIsLess(b, j);
      Without(a', 0);
      Without(b', j);
      DropFollows(a, b, a', b', 0, j);
      SameImages(Drop(a, 0), Drop(b, j), Drop(a', 0), Drop(b', j));
    }
  }

  function Drop<T>(xs: seq<T>, i: nat): (ys: seq<T>)
    requires i < |xs|
    ensures |ys| == |xs| - 1
  {
    xs[..i] + xs[i + 1..]
  }

  lemma DropFollows<A, B>(a: seq<A>, b: seq<A>, a': seq<B>, b': seq<B>, i: nat, j: nat)
    requires |a| == |a'| && |b| == |b'| && Follows(a, b, a', b') && i < |a| && j < |b|
    ensures Follows(Drop(a, i), Drop(b, j), Drop(a', i), Drop(b', j))
  {
    forall k, l | 0 <= k < |a| - 1 && 0 <= l < |b| - 1 && Drop(a, i)[k] == Drop(b, j)[l]
      ensures Drop(a', i)[k] == Drop(b', j)[l]
    {
      var k', l' := if k < i then k else k + 1, if l < j then l else l + 1;
      assert a[k'] == b[l'];
    }
  }

  lemma Without<T>(xs: seq<T>, i: nat)
    requires i < |xs|
    ensures multiset(xs) == multiset(Drop(xs, i)) + multiset{xs[i]}
  {
    assert xs == xs[..i] + [xs[i]] + xs[i + 1..];
  }

  lemma DropIsLess<T>(xs: seq<T>, i: nat)
    requires i < |xs|
    ensures multiset(Drop(xs, i)) == multiset(xs) - multiset{xs[i]}
  {
    Without(xs, i);
  }

  lemma OneLeaf(g: Graph, id: Id, visiting: set<Id>)
    requires PlainGraph(g)
    ensures Signature(g, id, visiting) == "cycle" <==> id in visiting
    ensures Signature(g, id, visiting) == "missing" <==> id !in visiting && id !in g
  {
    if id !in visiting && id in g {
      var text := Segment(g[id]) + "(" + Join(Sort(SignaturesBelow(g, id, visiting), StringLeq), ",") + ")";
      assert text[|text| - 1] == ')';
    }
  }

  /** Two subtrees have one signature exactly when they have one shape. */
  lemma {:induction false} SignatureIff(g: Graph, a: Id, visiting: set<Id>, h: Graph, b: Id, visiting': set<Id>)
    requires PlainGraph(g) && PlainGraph(h)
    ensures Signature(g, a, visiting) == Signature(h, b, visiting') <==>
            ShapeOf(g, a, visiting) == ShapeOf(h, b, visiting')
    decreases g.Keys - visiting
  {
    OneLeaf(g, a, visiting);
    OneLeaf(h, b, visiting');
    if a !in visiting && a in g && b !in visiting' && b in h {
      var xs, ys := SignaturesBelow(g, a, visiting), SignaturesBelow(h, b, visiting');
      var xs', ys' := ShapesBelow(g, a, visiting), ShapesBelow(h, b, visiting');
      forall i, j | 0 <= i < |xs| && 0 <= j < |ys| ensures xs[i] == ys[j] <==> xs'[i] == ys'[j] {
        SignaturesBelowAt(g, a, visiting, i);
        SignaturesBelowAt(h, b, visiting', j);
        ShapesBelowAt(g, a, visiting, i);
        ShapesBelowAt(h, b, visiting', j);
        SignatureIff(g, g[a].children[i], visiting + {a}, h, h[b].children[j], visiting' + {b});
      }
      if Signature(g, a, visiting) == Signature(h, b, visiting') {
        SameSignature(g, a, visiting, h, b, visiting');
        SameImages(xs, ys, xs', ys');
      }
      if ShapeOf(g, a, visiting) == ShapeOf(h, b, visiting') {
        SameImages(xs', ys', xs, ys);
        StringOrder();
        SortIgnoresOrder(xs, ys, StringLeq);
      }
    }
  }

  lemma ItemsBelow(g: Graph, id: Id, visiting: set<Id>)
    requires PlainGraph(g) && id in g && id !in visiting
    ensures forall s | s in Sort(SignaturesBelow(g, id, visiting), StringLeq) :: Item(s)
    ensures multiset(Sort(SignaturesBelow(g, id, visiting), StringLeq)) == multiset(SignaturesBelow(g, id, visiting))
  {
    var below := SignaturesBelow(g, id, visiting);
    forall i | 0 <= i < |below| ensures Item(below[i]) {
      SignaturesBelowAt(g, id, visiting, i);
      SignatureIsItem(g, g[id].children[i], visiting + {id});
    }
    SortedItems(below);
  }

  /** A signature gives away the segment and the signatures below. */
  lemma SameSignature(g: Graph, a: Id, visiting: set<Id>, h: Graph, b: Id, visiting': set<Id>)
    requires PlainGraph(g) && PlainGraph(h) && a in g && a !in visiting && b in h && b !in visiting'
    requires Signature(g, a, visiting) == Signature(h, b, visiting')
    ensures Segment(g[a]) == Segment(h[b])
    ensures multiset(SignaturesBelow(g, a, visiting)) == multiset(SignaturesBelow(h, b, visiting'))
  {
    var xs, ys := Sort(SignaturesBelow(g, a, visiting), StringLeq), Sort(SignaturesBelow(h, b, visiting'), StringLeq);
    NodeIsInjective(Segment(g[a]), Join(xs, ","), Segment(h[b]), Join(ys, ","));
    ItemsBelow(g, a, visiting);
    ItemsBelow(h, b, visiting');
    JoinIsInjective(xs, ys);
  }

  /** Siblings tie, and only their ids decide, exactly when they have one shape. */
  lemma SortKeyIff(g: Graph, a: Id, b: Id)
    requires PlainGraph(g) && a in g && b in g
    ensures SortKey(g, a) == SortKey(g, b) <==> ShapeOf(g, a, {}) == ShapeOf(g, b, {})
  {
    SignatureIff(g, a, {}, g, b, {});
    if SortKey(g, a) == SortKey(g, b) {
      EqualKeys(g, a, b);
    }
  }

  lemma EqualKeys(g: Graph, a: Id, b: Id)
    requires PlainGraph(g) && a in g && b in g && SortKey(g, a) == SortKey(g, b)
    ensures Signature(g, a, {}) == Signature(g, b, {})
  {
    var ja := Join(Sort(SignaturesBelow(g, a, {}), StringLeq), ",");
    var jb := Join(Sort(SignaturesBelow(g, b, {}), StringLeq), ",");
    TwiceSegment(Segment(g[a]), ja, Segment(g[b]), jb);
  }

  /** A sort key shows its segment twice before the first parenthesis. */
  lemma TwiceSegment(s: string, inner: string, s': string, inner': string)
    requires PlainText(s) && PlainText(s')
    requires s + "{" + (s + "(" + inner + ")") + "}" == s' + "{" + (s' + "(" + inner' + ")") + "}"
    ensures s + "(" + inner + ")" == s' + "(" + inner' + ")"
  {
    assert s + "{" + (s + "(" + inner + ")") + "}" == (s + "{" + s) + "(" + (inner + ")" + "}");
    assert s' + "{" + (s' + "(" + inner' + ")") + "}" == (s' + "{" + s') + "(" + (inner' + ")" + "}");
    FirstOpen(s + "{" + s, inner + ")" + "}", s' + "{" + s', inner' + ")" + "}");
    var n := |s|;
    assert (s + "{" + s)[..n] == s && (s' + "{" + s')[..n] == s';
    assert (inner + ")" + "}")[..|inner|] == inner && (inner' + ")" + "}")[..|inner'|] == inner';
  }

  lemma FirstOpen(s: string, rest: string, s': string, rest': string)
    requires '(' !in s && '(' !in s' && s + "(" + rest == s' + "(" + rest'
    ensures s == s' && rest == rest'
  {
    var whole := s + "(" + rest;
    assert whole[|s|] == '(' && whole[|s'|] == '(';
    assert forall k | 0 <= k < |s| :: whole[k] == s[k];
    assert forall k | 0 <= k < |s'| :: whole[k] == s'[k];
    assert whole[..|s|] == s && whole[..|s'|] == s';
    assert whole[|s| + 1..] == rest && whole[|s'| + 1..] == rest';
  }

  lemma LeafSignature(g: Graph, id: Id, visiting: set<Id>, word: string)
    requires id in g && id !in visiting && g[id] == Info(word, "", []) && IsWord(word)
    ensures Signature(g, id, visiting) == word + "()"
  {
    WordIsNormal(word);
    assert SignaturesBelow(g, id, visiting) == [];
    assert word + "" + "(" + "" + ")" == word + "()";
  }

  lemma ParentOfOne(g: Graph, p: Id, q: Id, role: string, word: string)
    requires p in g && q in g && p != q && IsWord(role) && IsWord(word)
    requires g[p] == Info(role, "", [q]) && g[q] == Info(word, "", [])
    ensures Signature(g, p, {}) == role + "(" + (word + "()") + ")"
  {
    WordIsNormal(role);
    LeafSignature(g, q, {} + {p}, word);
    SignaturesBelowAt(g, p, {}, 0);
    assert SignaturesBelow(g, p, {}) == [word + "()"];
    assert Sort([word + "()"], StringLeq) == [word + "()"];
  }

  lemma ParentOfTwo(g: Graph, p: Id, q: Id, r: Id, role: string, word: string, last: string)
    requires p in g && q in g && r in g && p != q && p != r && IsWord(role) && IsWord(word) && IsWord(last)
    requires g[p] == Info(role, "", [q, r]) && g[q] == Info(word, "", []) && g[r] == Info(last, "", [])
    requires StringLeq(word + "()", last + "()")
    ensures Signature(g, p, {}) == role + "(" + (word + "()" + "," + (last + "()")) + ")"
  {
    WordIsNormal(role);
    LeafSignature(g, q, {} + {p}, word);
    LeafSignature(g, r, {} + {p}, last);
    SignaturesBelowAt(g, p, {}, 0);
    SignaturesBelowAt(g, p, {}, 1);
    assert SignaturesBelow(g, p, {}) == [word + "()", last + "()"];
    SortTwo(word + "()", last + "()");
    JoinTwo(word + "()", last + "()");
  }

  lemma JoinTwo(a: string, b: string)
    ensures Join([a, b], ",") == a + "," + b
  {
    assert [a, b][1..] == [b];
  }

  lemma TwoAsOne(word: string, last: string)
    requires IsWord(word) && IsWord(last)
    ensures IsWord(word + "()," + last)
    ensures word + "()," + last + "()" == word + "()" + "," + (last + "()")
  {
  }

  lemma FewerChildren(g: Graph, a: Id, h: Graph, b: Id)
    requires a in g && b in h && |g[a].children| < |h[b].children|
    ensures ShapeOf(g, a, {}) != ShapeOf(h, b, {})
  {
    var xs, ys := ShapesBelow(g, a, {}), ShapesBelow(h, b, {});
    assert |multiset(xs)| == |xs| && |multiset(ys)| == |ys|;
  }

  /** With a parenthesis in a role, a node with one child and a node with two can have one signature. */
  lemma ParenthesisConfuses(g: Graph, h: Graph, p: Id, q: Id, r: Id, role: string, word: string, last: string)
    requires p != q && p != r && IsWord(role) && IsWord(word) && IsWord(last) && StringLeq(word + "()", last + "()")
    requires p in g && q in g && g[p] == Info(role, "", [q]) && g[q] == Info(word + "()," + last, "", [])
    requires p in h && q in h && r in h && h[p] == Info(role, "", [q, r])
    requires h[q] == Info(word, "", []) && h[r] == Info(last, "", [])
    ensures Signature(g, p, {}) == Signature(h, p, {}) && ShapeOf(g, p, {}) != ShapeOf(h, p, {})
  {
    TwoAsOne(word, last);
    ParentOfOne(g, p, q, role, word + "()," + last);
    ParentOfTwo(h, p, q, r, role, word, last);
    FewerChildren(g, p, h, p);
  }

  lemma SortTwo(a: string, b: string)
    requires StringLeq(a, b)
    ensures Sort([a, b], StringLeq) == [a, b]
  {
    assert [a, b][1..] == [b] && [b][1..] == [];
    assert Sort([b], StringLeq) == [b];
  }
}
