/**
 The injection scanner's Aho-Corasick automaton: trie insertion, breadth-first linking of fail
 nodes, and the search. Trie nodes are heap objects whose `children`, `fail` and `output`
 fields change in place, and child maps are traversed in any order. A ghost map from words to
 nodes records which word each node stands for.
 */
module AhoCorasick {
  import opened Text
  import opened Words

  class AhoNode {
    var children: map<char, AhoNode>
    var fail: AhoNode?
    var output: Word

    constructor ()
      ensures children == map[] && fail == null && output == []
    {
      children, fail, output := map[], null, [];
    }
  }

  type Trie = map<Word, AhoNode>

  ghost function ChildMaps(trie: Trie): map<Word, map<char, AhoNode>>
    reads trie.Values`children
  {
    map w | w in trie :: trie[w].children
  }

  ghost predicate Injective(trie: Trie) {
    forall u, v | u in trie && v in trie && trie[u] == trie[v] :: u == v
  }

  /** The child map of every node leads, letter by letter, to exactly the words of the trie. */
  ghost predicate WellSpelled(trie: Trie, kids: map<Word, map<char, AhoNode>>) {
    && kids.Keys == trie.Keys
    && PrefixClosed(trie.Keys)
    && (forall u, r | u in kids :: r in kids[u] <==> Ext(u, r) in trie)
    && (forall u, r | u in kids && r in kids[u] :: kids[u][r] == trie[Ext(u, r)])
  }

  ghost predicate IsTrie(trie: Trie)
    reads trie.Values`children
  {
    Injective(trie) && WellSpelled(trie, ChildMaps(trie))
  }

  ghost function PatternSet(patterns: seq<Word>): set<Word> {
    set p | p in patterns
  }

  ghost function Prefixes(p: Word, n: nat): set<Word>
    requires n <= |p|
  {
    if n == 0 then {[]} else Prefixes(p, n - 1) + {p[..n]}
  }

  /** The words spelled by inserting the patterns: the empty word and every prefix of a pattern. */
  ghost function Spelled(patterns: seq<Word>): set<Word> {
    if patterns == [] then {[]} else
      var p := patterns[|patterns| - 1];
      Spelled(patterns[..|patterns| - 1]) + Prefixes(p, |p|)
  }

  function OwnOutput(patterns: set<Word>, w: Word): Word {
    if w in patterns then w else []
  }

  ghost predicate Unlinked(trie: Trie, patterns: set<Word>, words: set<Word>)
    requires words <= trie.Keys
    reads trie.Values`fail, trie.Values`output
  {
    forall w | w in words :: trie[w].fail == null && trie[w].output == OwnOutput(patterns, w)
  }

  /** Fail links lead to the longest proper suffix in the trie and outputs are the longest pattern ending here. */
  ghost predicate Linked(trie: Trie, patterns: set<Word>, words: set<Word>)
    requires [] in trie && words <= trie.Keys
    reads trie.Values`fail, trie.Values`output
  {
    forall w | w in words ::
      && trie[w].fail == (if w == [] then null else trie[FailWord(trie.Keys, w)])
      && trie[w].output == LongestPattern(patterns, w)
  }

  ghost predicate Automaton(root: AhoNode, trie: Trie, patterns: seq<Word>)
    reads trie.Values
  {
    && IsTrie(trie) && trie.Keys == Spelled(patterns) && trie[[]] == root
    && Linked(trie, PatternSet(patterns), trie.Keys)
  }

  // ---------- insertion ----------

  /** Descend along one letter, adding a child when there is none. */
  method Descend(curr: AhoNode, r: char, ghost trie: Trie, ghost w: Word, ghost patterns: set<Word>)
    returns (next: AhoNode, ghost grown: Trie)
    requires IsTrie(trie) && w in trie && trie[w] == curr
    requires patterns <= trie.Keys && Unlinked(trie, patterns, trie.Keys)
    modifies curr`children
    ensures IsTrie(grown) && grown.Keys == trie.Keys + {Ext(w, r)}
    ensures forall u | u in trie :: grown[u] == trie[u]
    ensures grown[Ext(w, r)] == next
    ensures Unlinked(grown, patterns, grown.Keys)
    ensures forall u | u in grown :: u in trie || fresh(grown[u])
  {
    grown := trie;
    ghost var kids := ChildMaps(trie);
    assert kids[w] == curr.children;
    if r in curr.children {
      next := curr.children[r];
    } else {
      next := AddChild(curr, r, trie, w);
      grown := trie[Ext(w, r) := next];
      GrowSpelling(trie, kids, w, r, next);
      assert forall u | u in trie :: trie[u] in trie.Values;
    }
  }

  method AddChild(curr: AhoNode, r: char, ghost trie: Trie, ghost w: Word) returns (next: AhoNode)
    requires Injective(trie) && w in trie && trie[w] == curr && Ext(w, r) !in trie
    modifies curr`children
    ensures fresh(next) && next.fail == null && next.output == []
    ensures Injective(trie[Ext(w, r) := next])
    ensures var kids := old(ChildMaps(trie));
            ChildMaps(trie[Ext(w, r) := next]) == kids[Ext(w, r) := map[]][w := kids[w][r := next]]
  {
    next := new AhoNode();
    assert forall u | u in trie :: trie[u] in trie.Values;
    assert next !in trie.Values;
    curr.children := curr.children[r := next];
  }

  lemma GrowSpelling(trie: Trie, kids: map<Word, map<char, AhoNode>>, w: Word, r: char, next: AhoNode)
    requires WellSpelled(trie, kids) && w in trie && Ext(w, r) !in trie
    ensures WellSpelled(trie[Ext(w, r) := next], kids[Ext(w, r) := map[]][w := kids[w][r := next]])
  {
    var grown, kids' := trie[Ext(w, r) := next], kids[Ext(w, r) := map[]][w := kids[w][r := next]];
    forall u, c | Ext(u, c) in grown ensures u in grown {
      ExtInjective(u, c, w, r);
    }
    forall u, c | u in kids'
      ensures c in kids'[u] <==> Ext(u, c) in grown
      ensures c in kids'[u] ==> kids'[u][c] == grown[Ext(u, c)]
    {
      ExtInjective(u, c, w, r);
    }
  }

  lemma ExtInjective(u: Word, c: char, w: Word, r: char)
    ensures Ext(u, c) == Ext(w, r) <==> u == w && c == r
    ensures Ext(w, r) != w
  {
    assert Ext(u, c)[..|u|] == u && Ext(w, r)[..|w|] == w;
  }

  lemma TakeNext<T>(s: seq<T>, i: nat)
    requires i < |s|
    ensures s[..i + 1] == s[..i] + [s[i]]
  {
  }

  lemma PrefixExt(p: Word, k: nat)
    requires k < |p|
    ensures p[..k + 1] == Ext(p[..k], p[k])
  {
  }

  /** Follow one pattern letter by letter from the root to the node it ends at. */
  method Spell(root: AhoNode, p: Word, ghost trie: Trie, ghost patterns: set<Word>)
    returns (curr: AhoNode, ghost grown: Trie)
    requires IsTrie(trie) && trie[[]] == root
    requires patterns <= trie.Keys && Unlinked(trie, patterns, trie.Keys)
    modifies trie.Values
    ensures IsTrie(grown) && grown[[]] == root && grown.Keys == trie.Keys + Prefixes(p, |p|)
    ensures p in grown && grown[p] == curr
    ensures Unlinked(grown, patterns, grown.Keys)
    ensures forall u | u in grown :: (u in trie && grown[u] == trie[u]) || fresh(grown[u])
  {
    grown, curr := trie, root;
    assert p[..0] == [] && p[..|p|] == p;
    for k := 0 to |p|
      invariant IsTrie(grown) && grown[[]] == root
      invariant p[..k] in grown && grown[p[..k]] == curr
      invariant grown.Keys == trie.Keys + Prefixes(p, k)
      invariant Unlinked(grown, patterns, grown.Keys)
      invariant forall u | u in grown :: (u in trie && grown[u] == trie[u]) || fresh(grown[u])
    {
      PrefixExt(p, k);
      curr, grown := Descend(curr, p[k], grown, p[..k], patterns);
    }
  }

  /** Insert one pattern and mark the node it ends at, unless an equal pattern already did. */
  method Insert(root: AhoNode, p: Word, ghost trie: Trie, ghost patterns: seq<Word>) returns (ghost grown: Trie)
    requires IsTrie(trie) && trie.Keys == Spelled(patterns) && trie[[]] == root
    requires Unlinked(trie, PatternSet(patterns), trie.Keys)
    modifies trie.Values
    ensures IsTrie(grown) && grown.Keys == Spelled(patterns + [p]) && grown[[]] == root
    ensures Unlinked(grown, PatternSet(patterns + [p]), grown.Keys)
    ensures forall u | u in grown :: (u in trie && grown[u] == trie[u]) || fresh(grown[u])
  {
    PatternsAreSpelled(patterns);
    var curr;
    curr, grown := Spell(root, p, trie, PatternSet(patterns));
    assert (patterns + [p])[..|patterns|] == patterns;
    Mark(curr, p, grown, PatternSet(patterns));
    assert PatternSet(patterns + [p]) == PatternSet(patterns) + {p} by {
      PatternSetSnoc(patterns, p);
    }
  }

  lemma PatternSetSnoc(patterns: seq<Word>, p: Word)
    ensures PatternSet(patterns + [p]) == PatternSet(patterns) + {p}
  {
    assert forall q :: q in patterns + [p] <==> q in patterns || q == p;
  }

  method Mark(curr: AhoNode, p: Word, ghost trie: Trie, ghost patterns: set<Word>)
    requires Injective(trie) && p in trie && trie[p] == curr
    requires Unlinked(trie, patterns, trie.Keys)
    modifies curr`output
    ensures Unlinked(trie, patterns + {p}, trie.Keys)
  {
    if curr.output == [] {
      curr.output := p;
    }
  }

  lemma {:induction false} PatternsAreSpelled(patterns: seq<Word>)
    ensures PatternSet(patterns) <= Spelled(patterns)
  {
    if patterns != [] {
      var p := patterns[|patterns| - 1];
      PatternsAreSpelled(patterns[..|patterns| - 1]);
      assert p == p[..|p|] && p in Prefixes(p, |p|);
    }
  }

  method NewRoot() returns (root: AhoNode)
    ensures fresh(root) && IsTrie(map[[] := root]) && Unlinked(map[[] := root], {}, {[]})
  {
    root := new AhoNode();
  }

  /** The trie of all the patterns, every pattern marked at its own node and nothing linked yet. */
  method BuildTrie(patterns: seq<Word>) returns (root: AhoNode, ghost trie: Trie)
    ensures IsTrie(trie) && trie.Keys == Spelled(patterns) && trie[[]] == root
    ensures Unlinked(trie, PatternSet(patterns), trie.Keys)
    ensures forall u | u in trie :: fresh(trie[u])
  {
    root := NewRoot();
    trie := map[[] := root];
    for i := 0 to |patterns|
      invariant IsTrie(trie) && trie.Keys == Spelled(patterns[..i]) && trie[[]] == root
      invariant Unlinked(trie, PatternSet(patterns[..i]), trie.Keys)
      invariant forall u | u in trie :: fresh(trie[u])
    {
      TakeNext(patterns, i);
      trie := Insert(root, patterns[i], trie, patterns[..i]);
    }
    assert patterns[..|patterns|] == patterns;
  }

  // ---------- breadth-first linking ----------

  /**
   The state of the traversal while the children of `w` are being linked: `done` words are linked,
   `queue` holds the linked words whose children are not, and the letters in `rest` are the
   children of `w` still to come. A word is linked exactly when its parent's turn has come.
   */
  ghost predicate Sweeping(keys: set<Word>, done: set<Word>, queue: seq<Word>, w: Word, rest: set<char>) {
    && w in done && done <= keys && w !in queue
    && (forall i | 0 <= i < |queue| :: queue[i] in done && queue[i] != [] && |w| <= |queue[i]| <= |w| + 1)
    && (forall i, j | 0 <= i < j < |queue| :: queue[i] != queue[j] && |queue[i]| <= |queue[j]|)
    && (forall u, r | Ext(u, r) in keys :: Ext(u, r) in done <==> u in done && u !in queue && (u == w ==> r !in rest))
  }

  lemma SweepOne(keys: set<Word>, done: set<Word>, queue: seq<Word>, w: Word, rest: set<char>, c: char)
    requires Sweeping(keys, done, queue, w, rest) && c in rest && Ext(w, c) in keys && PrefixClosed(keys)
    ensures Ext(w, c) !in done
    ensures Sweeping(keys, done + {Ext(w, c)}, queue + [Ext(w, c)], w, rest - {c})
  {
    var done', queue', rest' := done + {Ext(w, c)}, queue + [Ext(w, c)], rest - {c};
    ExtInjective(w, c, w, c);
    assert forall x :: x in queue' <==> x in queue || x == Ext(w, c);
    forall u, r | Ext(u, r) in keys
      ensures Ext(u, r) in done' <==> u in done' && u !in queue' && (u == w ==> r !in rest')
    {
      ExtInjective(u, r, w, c);
    }
  }

  lemma SweepNext(keys: set<Word>, done: set<Word>, queue: seq<Word>, w: Word, kids: set<char>)
    requires Sweeping(keys, done, queue, w, {}) && queue != []
    requires forall r | Ext(queue[0], r) in keys :: r in kids
    ensures Sweeping(keys, done, queue[1..], queue[0], kids)
  {
    assert forall x :: x in queue <==> x == queue[0] || x in queue[1..];
  }

  /** Breadth first: what is not linked yet is longer than the word being swept, or nothing is left. */
  lemma {:induction false} UnlinkedAreLonger(keys: set<Word>, done: set<Word>, queue: seq<Word>, w: Word,
    rest: set<char>, v: Word)
    requires Sweeping(keys, done, queue, w, rest) && PrefixClosed(keys) && [] in done
    requires v in keys && v !in done
    ensures |v| > |w|
    ensures queue != [] || rest != {}
    decreases |v|
  {
    var u, r := v[..|v| - 1], v[|v| - 1];
    assert v == Ext(u, r);
    if u !in done {
      UnlinkedAreLonger(keys, done, queue, w, rest, u);
    }
  }

  lemma ShortWordsAreLinked(keys: set<Word>, done: set<Word>, queue: seq<Word>, w: Word, rest: set<char>)
    requires Sweeping(keys, done, queue, w, rest) && PrefixClosed(keys) && [] in done
    ensures forall v | v in keys && |v| <= |w| :: v in done
  {
    forall v | v in keys && v !in done ensures |v| > |w| {
      UnlinkedAreLonger(keys, done, queue, w, rest, v);
    }
  }

  /** The fail-chasing loop: from the fail node of `w` to the node that fits the extension by `r`. */
  method FailTarget(curr: AhoNode, r: char, root: AhoNode, ghost trie: Trie, ghost patterns: set<Word>,
    ghost done: set<Word>, ghost w: Word)
    returns (target: AhoNode)
    requires IsTrie(trie) && trie[[]] == root && done <= trie.Keys && Linked(trie, patterns, done)
    requires w in done && w != [] && trie[w] == curr
    requires forall v | v in trie && |v| <= |w| :: v in done
    ensures target == trie[FailWord(trie.Keys, Ext(w, r))]
  {
    var f := curr.fail;
    ghost var v := FailWord(trie.Keys, w);
    assert Ext(w, r)[1..] == Ext(w[1..], r);
    SuffixOfExtension(trie.Keys, w[1..], r);
    ghost var kids := ChildMaps(trie);
    while f != null && r !in f.children
      invariant if f == null then FailWord(trie.Keys, Ext(w, r)) == []
                else && v in done && |v| < |w| && trie[v] == f
                     && FailWord(trie.Keys, Ext(w, r)) == LongestSuffix(trie.Keys, Ext(v, r))
      decreases f != null, |v|
    {
      assert kids[v] == f.children;
      ChaseFail(trie.Keys, v, r);
      f := f.fail;
      if v != [] {
        v := FailWord(trie.Keys, v);
      }
    }
    if f == null {
      target := root;
    } else {
      assert kids[v] == f.children;
      target := f.children[r];
    }
  }

  /** Link one child: its fail node is found by chasing, and it inherits the fail node's output if it has none. */
  method LinkChild(curr: AhoNode, r: char, child: AhoNode, root: AhoNode,
    ghost trie: Trie, ghost patterns: set<Word>, ghost done: set<Word>, ghost w: Word)
    requires IsTrie(trie) && trie[[]] == root && done <= trie.Keys && patterns <= trie.Keys
    requires Linked(trie, patterns, done) && Unlinked(trie, patterns, trie.Keys - done)
    requires w in done && w != [] && trie[w] == curr
    requires forall v | v in trie && |v| <= |w| :: v in done
    requires Ext(w, r) in trie.Keys - done && trie[Ext(w, r)] == child
    modifies child`fail, child`output
    ensures Linked(trie, patterns, done + {Ext(w, r)})
    ensures Unlinked(trie, patterns, trie.Keys - (done + {Ext(w, r)}))
  {
    var target := FailTarget(curr, r, root, trie, patterns, done, w);
    SetLink(child, target, trie, patterns, done, Ext(w, r));
  }

  method SetLink(child: AhoNode, target: AhoNode, ghost trie: Trie, ghost patterns: set<Word>, ghost done: set<Word>,
    ghost c: Word)
    requires Injective(trie) && [] in trie && patterns <= trie.Keys && done <= trie.Keys
    requires Linked(trie, patterns, done) && Unlinked(trie, patterns, trie.Keys - done)
    requires c in trie.Keys - done && c != [] && trie[c] == child
    requires FailWord(trie.Keys, c) in done && trie[FailWord(trie.Keys, c)] == target
    modifies child`fail, child`output
    ensures Linked(trie, patterns, done + {c})
    ensures Unlinked(trie, patterns, trie.Keys - (done + {c}))
  {
    PatternAtSuffix(trie.Keys, patterns, c[1..]);
    child.fail := target;
    if child.output == [] && child.fail != null && child.fail.output != [] {
      child.output := child.fail.output;
    }
  }

  ghost predicate Queued(trie: Trie, queue: seq<AhoNode>, words: seq<Word>) {
    |queue| == |words| && forall i | 0 <= i < |words| :: words[i] in trie && queue[i] == trie[words[i]]
  }

  /** The traversal as a whole: what is done is linked, and the queue holds the nodes of the queued words. */
  ghost predicate Traversal(trie: Trie, patterns: set<Word>, queue: seq<AhoNode>, done: set<Word>, words: seq<Word>,
    w: Word, rest: set<char>)
    reads trie.Values
  {
    && IsTrie(trie) && patterns <= trie.Keys && [] in done
    && Queued(trie, queue, words)
    && Sweeping(trie.Keys, done, words, w, rest)
    && Linked(trie, patterns, done)
    && Unlinked(trie, patterns, trie.Keys - done)
  }

  /** A child of the root fails to the root. */
  method VisitRootChild(child: AhoNode, root: AhoNode, queue: seq<AhoNode>,
    ghost r: char, ghost rest: set<char>, ghost trie: Trie, ghost patterns: set<Word>, ghost done: set<Word>,
    ghost words: seq<Word>)
    returns (queue': seq<AhoNode>)
    requires Traversal(trie, patterns, queue, done, words, [], rest) && trie[[]] == root
    requires r in rest && Ext([], r) in trie && trie[Ext([], r)] == child
    modifies child`fail
    ensures Traversal(trie, patterns, queue', done + {Ext([], r)}, words + [Ext([], r)], [], rest - {r})
  {
    SweepOne(trie.Keys, done, words, [], rest, r);
    LinkRootChild(child, root, trie, patterns, done, r);
    QueueOne(trie, queue, words, Ext([], r));
    queue' := queue + [child];
  }

  method LinkRootChild(child: AhoNode, root: AhoNode, ghost trie: Trie, ghost patterns: set<Word>,
    ghost done: set<Word>, ghost r: char)
    requires Injective(trie) && [] in done && done <= trie.Keys && trie[[]] == root
    requires Linked(trie, patterns, done) && Unlinked(trie, patterns, trie.Keys - done)
    requires Ext([], r) in trie.Keys - done && trie[Ext([], r)] == child
    modifies child`fail
    ensures Linked(trie, patterns, done + {Ext([], r)})
    ensures Unlinked(trie, patterns, trie.Keys - (done + {Ext([], r)}))
  {
    assert Ext([], r)[1..] == [];
    child.fail := root;
  }

  lemma QueueOne(trie: Trie, queue: seq<AhoNode>, words: seq<Word>, w: Word)
    requires Queued(trie, queue, words) && w in trie
    ensures Queued(trie, queue + [trie[w]], words + [w])
  {
  }

  /** A child of a later node is linked by chasing fail nodes. */
  method VisitChild(curr: AhoNode, r: char, child: AhoNode, root: AhoNode, queue: seq<AhoNode>,
    ghost w: Word, ghost rest: set<char>, ghost trie: Trie, ghost patterns: set<Word>, ghost done: set<Word>,
    ghost words: seq<Word>)
    returns (queue': seq<AhoNode>)
    requires Traversal(trie, patterns, queue, done, words, w, rest) && trie[[]] == root
    requires w != [] && trie[w] == curr
    requires r in rest && Ext(w, r) in trie && trie[Ext(w, r)] == child
    modifies child`fail, child`output
    ensures Traversal(trie, patterns, queue', done + {Ext(w, r)}, words + [Ext(w, r)], w, rest - {r})
  {
    SweepOne(trie.Keys, done, words, w, rest, r);
    LinkChild(curr, r, child, root, trie, patterns, done, w) by {
      ShortWordsAreLinked(trie.Keys, done, words, w, rest);
    }
    QueueOne(trie, queue, words, Ext(w, r));
    queue' := queue + [child];
  }

  /** Queue up the root's children, in any order. */
  method VisitRoot(root: AhoNode, ghost trie: Trie, ghost patterns: set<Word>)
    returns (queue: seq<AhoNode>, ghost done: set<Word>, ghost words: seq<Word>)
    requires IsTrie(trie) && trie[[]] == root && patterns <= trie.Keys && Unlinked(trie, patterns, trie.Keys)
    modifies trie.Values`fail
    ensures Traversal(trie, patterns, queue, done, words, [], {})
  {
    var rest := root.children.Keys;
    queue, done, words := [], {[]}, [];
    assert ChildMaps(trie)[[]] == root.children;
    forall u, r | Ext(u, r) in trie ensures Ext(u, r) != [] && (u == [] ==> r in rest) {
    }
    while rest != {}
      invariant rest <= root.children.Keys
      invariant Traversal(trie, patterns, queue, done, words, [], rest)
      decreases rest
    {
      var r :| r in rest;
      var child := root.children[r];
      assert ChildMaps(trie)[[]] == root.children;
      assert Ext([], r) in trie && trie[Ext([], r)] == child && child in trie.Values;
      queue := VisitRootChild(child, root, queue, r, rest, trie, patterns, done, words);
      done, words, rest := done + {Ext([], r)}, words + [Ext([], r)], rest - {r};
    }
  }

  /** Link the children of one node, in any order, and queue them. */
  method VisitChildren(curr: AhoNode, root: AhoNode, queue: seq<AhoNode>,
    ghost w: Word, ghost trie: Trie, ghost patterns: set<Word>, ghost done: set<Word>, ghost words: seq<Word>)
    returns (queue': seq<AhoNode>, ghost done': set<Word>, ghost words': seq<Word>)
    requires Traversal(trie, patterns, queue, done, words, w, curr.children.Keys) && trie[[]] == root
    requires w != [] && trie[w] == curr
    modifies trie.Values`fail, trie.Values`output
    ensures Traversal(trie, patterns, queue', done', words', w, {})
    ensures done <= done' && (done' == done ==> words' == words)
  {
    var rest := curr.children.Keys;
    queue', done', words' := queue, done, words;
    while rest != {}
      invariant rest <= curr.children.Keys
      invariant Traversal(trie, patterns, queue', done', words', w, rest)
      invariant done <= done' && (done' == done ==> words' == words)
      decreases rest
    {
      var r :| r in rest;
      var child := curr.children[r];
      assert ChildMaps(trie)[w] == curr.children;
      assert Ext(w, r) in trie && trie[Ext(w, r)] == child && child in trie.Values;
      assert Ext(w, r) !in done' by {
        SweepOne(trie.Keys, done', words', w, rest, r);
      }
      queue' := VisitChild(curr, r, child, root, queue', w, rest, trie, patterns, done', words');
      done', words', rest := done' + {Ext(w, r)}, words' + [Ext(w, r)], rest - {r};
    }
  }

  /** Take the first node off the queue and link its children. */
  method VisitNext(queue: seq<AhoNode>, root: AhoNode,
    ghost trie: Trie, ghost patterns: set<Word>, ghost done: set<Word>, ghost words: seq<Word>, ghost w: Word)
    returns (queue': seq<AhoNode>, ghost done': set<Word>, ghost words': seq<Word>, ghost w': Word)
    requires Traversal(trie, patterns, queue, done, words, w, {}) && trie[[]] == root && queue != []
    modifies trie.Values`fail, trie.Values`output
    ensures Traversal(trie, patterns, queue', done', words', w', {})
    ensures done < done' || (done == done' && |queue'| < |queue|)
  {
    var curr := queue[0];
    SweepNext(trie.Keys, done, words, w, curr.children.Keys);
    w' := words[0];
    queue', done', words' := VisitChildren(curr, root, queue[1..], w', trie, patterns, done, words[1..]);
  }

  /** The breadth-first loop leaves every node of the trie linked. */
  method Link(root: AhoNode, ghost trie: Trie, ghost patterns: set<Word>)
    requires IsTrie(trie) && trie[[]] == root && patterns <= trie.Keys && Unlinked(trie, patterns, trie.Keys)
    modifies trie.Values`fail, trie.Values`output
    ensures IsTrie(trie) && Linked(trie, patterns, trie.Keys)
  {
    var queue;
    ghost var done, words;
    queue, done, words := VisitRoot(root, trie, patterns);
    ghost var w := [];
    while queue != []
      invariant Traversal(trie, patterns, queue, done, words, w, {})
      decreases trie.Keys - done, |queue|
    {
      queue, done, words, w := VisitNext(queue, root, trie, patterns, done, words, w);
    }
    NothingLeft(trie.Keys, done, w);
  }

  lemma NothingLeft(keys: set<Word>, done: set<Word>, w: Word)
    requires Sweeping(keys, done, [], w, {}) && PrefixClosed(keys) && [] in done
    ensures done == keys
  {
    forall v | v in keys ensures v in done {
      if v !in done {
        UnlinkedAreLonger(keys, done, [], w, {}, v);
      }
    }
  }

  // ---------- compile and search ----------

  /** Compiling a pattern list yields the automaton of that list. */
  method Compile(patterns: seq<Word>) returns (root: AhoNode, ghost trie: Trie)
    ensures Automaton(root, trie, patterns)
  {
    root, trie := BuildTrie(patterns);
    PatternsAreSpelled(patterns);
    assert forall u | u in trie :: trie[u] in trie.Values;
    Link(root, trie, PatternSet(patterns));
  }

  /** `p` is a pattern with at least one letter, and it ends at position `end` of the text. */
  ghost predicate EndsAt(patterns: seq<Word>, p: Word, text: Word, end: nat) {
    p in patterns && p != [] && end <= |text| && IsSuffix(p, text[..end])
  }

  /** `found` is the longest pattern ending at `end`, and no pattern ends earlier. */
  ghost predicate FirstMatch(patterns: seq<Word>, text: Word, found: Word, end: nat) {
    && EndsAt(patterns, found, text, end)
    && (forall p | EndsAt(patterns, p, text, end) :: |p| <= |found|)
    && (forall p, k | 0 <= k < end :: !EndsAt(patterns, p, text, k))
  }

  lemma NothingEnds(patterns: seq<Word>, text: Word, end: nat)
    requires end <= |text| && LongestPattern(PatternSet(patterns), text[..end]) == []
    ensures forall p :: !EndsAt(patterns, p, text, end)
  {
    LongestPatternIsLongest(PatternSet(patterns), text[..end]);
    assert forall p | p in patterns :: p in PatternSet(patterns);
  }

  lemma LongestEnds(patterns: seq<Word>, text: Word, end: nat)
    requires end <= |text| && LongestPattern(PatternSet(patterns), text[..end]) != []
    ensures EndsAt(patterns, LongestPattern(PatternSet(patterns), text[..end]), text, end)
    ensures forall p | EndsAt(patterns, p, text, end) :: |p| <= |LongestPattern(PatternSet(patterns), text[..end])|
  {
    LongestPatternIsLongest(PatternSet(patterns), text[..end]);
    assert forall p | p in patterns :: p in PatternSet(patterns);
  }

  /** A pattern occurs in a text exactly when it ends at some position of it. */
  lemma OccursIffEnds(patterns: seq<Word>, p: Word, text: Word)
    requires p in patterns && p != []
    ensures Contains(text, p) <==> exists end :: EndsAt(patterns, p, text, end)
  {
    if i, j :| 0 <= i <= j <= |text| && text[i..j] == p {
      assert text[..j][|text[..j]| - |p|..] == text[i..j];
      assert EndsAt(patterns, p, text, j);
    }
    if end: nat :| EndsAt(patterns, p, text, end) {
      assert text[end - |p|..end] == text[..end][|text[..end]| - |p|..];
    }
  }

  /** One move of the search: chase fail nodes, then step along the letter if some node allows it. */
  method Move(root: AhoNode, from: AhoNode, r: char, ghost trie: Trie, ghost patterns: seq<Word>, ghost read: Word)
    returns (to: AhoNode)
    requires Automaton(root, trie, patterns)
    requires from == trie[LongestSuffix(trie.Keys, read)]
    ensures to == trie[LongestSuffix(trie.Keys, Ext(read, r))]
  {
    to := from;
    ghost var v := LongestSuffix(trie.Keys, read);
    SuffixOfExtension(trie.Keys, read, r);
    while to != root && r !in to.children
      invariant v in trie && to == trie[v]
      invariant LongestSuffix(trie.Keys, Ext(read, r)) == LongestSuffix(trie.Keys, Ext(v, r))
      decreases |v|
    {
      assert ChildMaps(trie)[v] == to.children;
      ChaseFail(trie.Keys, v, r);
      to := to.fail;
      v := FailWord(trie.Keys, v);
    }
    assert ChildMaps(trie)[v] == to.children;
    if r in to.children {
      to := to.children[r];
    } else {
      ChaseFail(trie.Keys, v, r);
    }
  }

  /** The first non-empty longest pattern met while reading the text from position `i` on. */
  function Earliest(patterns: set<Word>, text: Word, i: nat): Word
    requires i <= |text|
    decreases |text| - i
  {
    var here := LongestPattern(patterns, text[..i]);
    if here != [] || i == |text| then here else Earliest(patterns, text, i + 1)
  }

  lemma {:induction false} EarliestMeaning(patterns: seq<Word>, text: Word, i: nat)
    requires i <= |text|
    requires forall p, k | 0 <= k < i :: !EndsAt(patterns, p, text, k)
    ensures var found := Earliest(PatternSet(patterns), text, i);
            if found == [] then forall p, end :: !EndsAt(patterns, p, text, end)
            else exists end :: FirstMatch(patterns, text, found, end)
    decreases |text| - i
  {
    if LongestPattern(PatternSet(patterns), text[..i]) != [] {
      LongestEnds(patterns, text, i);
      assert FirstMatch(patterns, text, LongestPattern(PatternSet(patterns), text[..i]), i);
    } else {
      NothingEnds(patterns, text, i);
      if i < |text| {
        EarliestMeaning(patterns, text, i + 1);
      }
    }
  }

  /**
   The search reports nothing exactly when no pattern occurs in the normalised text; otherwise it
   reports the longest pattern that ends at the earliest position where any pattern ends.
   */
  method MatchPattern(root: AhoNode?, normalize: Word -> Word, text: Word, ghost trie: Trie, ghost patterns: seq<Word>)
    returns (found: Word)
    requires root != null ==> Automaton(root, trie, patterns)
    ensures root == null ==> found == []
    ensures root != null ==> (found == [] <==> forall p, end :: !EndsAt(patterns, p, normalize(text), end))
    ensures root != null && found != [] ==> exists end :: FirstMatch(patterns, normalize(text), found, end)
  {
    if root == null {
      return [];
    }
    var normalized := normalize(text);
    found := Search(root, normalized, trie, patterns);
    EarliestMeaning(patterns, normalized, 0);
  }

  /** Compiling a pattern list and searching a text, end to end. */
  method CompileAndMatch(patterns: seq<Word>, normalize: Word -> Word, text: Word) returns (found: Word)
    ensures found == [] <==> forall p | p in patterns && p != [] :: !Contains(normalize(text), p)
    ensures found != [] ==> exists end :: FirstMatch(patterns, normalize(text), found, end)
  {
    var root;
    ghost var trie;
    root, trie := Compile(patterns);
    found := MatchPattern(root, normalize, text, trie, patterns);
    forall p | p in patterns && p != []
      ensures Contains(normalize(text), p) <==> exists end :: EndsAt(patterns, p, normalize(text), end)
    {
      OccursIffEnds(patterns, p, normalize(text));
    }
  }

  method Search(root: AhoNode, text: Word, ghost trie: Trie, ghost patterns: seq<Word>) returns (found: Word)
    requires Automaton(root, trie, patterns)
    ensures found == Earliest(PatternSet(patterns), text, 0)
  {
    var curr := root;
    assert text[..0] == [];
    for i := 0 to |text|
      invariant curr == trie[LongestSuffix(trie.Keys, text[..i])]
      invariant LongestPattern(PatternSet(patterns), text[..i]) == []
      invariant Earliest(PatternSet(patterns), text, 0) == Earliest(PatternSet(patterns), text, i)
    {
      OutputAfterMove(trie, patterns, text, i);
      curr := Move(root, curr, text[i], trie, patterns, text[..i]);
      if curr.output != [] {
        return curr.output;
      }
    }
    return [];
  }

  lemma OutputAfterMove(trie: Trie, patterns: seq<Word>, text: Word, i: nat)
    requires i < |text| && trie.Keys == Spelled(patterns) && [] in trie
    ensures text[..i + 1] == Ext(text[..i], text[i])
    ensures LongestPattern(PatternSet(patterns), LongestSuffix(trie.Keys, text[..i + 1]))
            == LongestPattern(PatternSet(patterns), text[..i + 1])
  {
    PatternsAreSpelled(patterns);
    PatternAtSuffix(trie.Keys, PatternSet(patterns), text[..i + 1]);
  }

  /** The nodes of the automaton stand for exactly the empty word and the prefixes of patterns. */
  lemma {:induction false} SpelledWords(patterns: seq<Word>, w: Word)
    ensures w in Spelled(patterns) <==> w == [] || exists p | p in patterns :: w <= p
  {
    if patterns != [] {
      var init, p := patterns[..|patterns| - 1], patterns[|patterns| - 1];
      SpelledWords(init, w);
      PrefixMember(p, |p|, w);
      assert patterns == init + [p];
      assert w <= p ==> p in patterns;
      if q :| q in init && w <= q {
        assert q in patterns;
      }
    }
  }

  lemma {:induction false} PrefixMember(p: Word, n: nat, w: Word)
    requires n <= |p|
    ensures w in Prefixes(p, n) <==> |w| <= n && w <= p
  {
    if n > 0 {
      PrefixMember(p, n - 1, w);
      if |w| == n && w <= p {
        assert w == p[..n];
      }
    }
  }
}
