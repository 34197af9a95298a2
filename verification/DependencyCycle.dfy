/**
 The work-item validator's cycle check: a depth-first search that keeps the nodes on its path in
 one set and the finished ones in another, and stops at the first node it meets on its own path.
 */
module DependencyCycle {

  type Deps = map<string, seq<string>>

  /** No dangling dependencies, which the validator has checked before. */
  ghost predicate Closed(deps: Deps) {
    forall n, d | n in deps && d in deps[n] :: d in deps
  }

  /** Each node of the walk depends on the next one. */
  ghost predicate IsWalk(deps: Deps, walk: seq<string>) {
    forall i | 0 <= i < |walk| - 1 :: walk[i] in deps && walk[i + 1] in deps[walk[i]]
  }

  /** A walk of at least one step from `a` to `b`. */
  ghost predicate Leads(deps: Deps, walk: seq<string>, a: string, b: string) {
    |walk| >= 2 && walk[0] == a && walk[|walk| - 1] == b && IsWalk(deps, walk)
  }

  ghost predicate Reaches(deps: Deps, a: string, b: string) {
    exists walk :: Leads(deps, walk, a, b)
  }

  ghost predicate Acyclic(deps: Deps) {
    forall n :: !Reaches(deps, n, n)
  }

  lemma ReachesStep(deps: Deps, a: string, b: string, c: string)
    requires (a == b || Reaches(deps, a, b)) && b in deps && c in deps[b]
    ensures Reaches(deps, a, c)
  {
    if a == b {
      assert Leads(deps, [a, c], a, c);
    } else {
      var walk :| Leads(deps, walk, a, b);
      assert Leads(deps, walk + [c], a, c);
    }
  }

  /** The finished nodes depend only on finished nodes, and none of them is on a cycle. */
  ghost predicate Finished(deps: Deps, done: set<string>) {
    && done <= deps.Keys
    && (forall n, d | n in done && d in deps[n] :: d in done)
    && (forall n | n in done :: !Reaches(deps, n, n))
  }

  lemma {:induction false} WalkStaysFinished(deps: Deps, done: set<string>, walk: seq<string>, i: nat)
    requires Finished(deps, done) && IsWalk(deps, walk) && i < |walk| && walk[0] in done
    ensures walk[i] in done
  {
    if i > 0 {
      WalkStaysFinished(deps, done, walk, i - 1);
      assert walk[(i - 1) + 1] in deps[walk[i - 1]];
    }
  }

  lemma FinishNode(deps: Deps, done: set<string>, node: string)
    requires Finished(deps, done) && node in deps && node !in done && forall d | d in deps[node] :: d in done
    ensures Finished(deps, done + {node})
  {
    forall walk ensures !Leads(deps, walk, node, node) {
      if Leads(deps, walk, node, node) {
        assert walk[0 + 1] in deps[walk[0]];
        var tail := walk[1..];
        assert IsWalk(deps, tail) by {
          forall i | 0 <= i < |tail| - 1 ensures tail[i] in deps && tail[i + 1] in deps[tail[i]] {
            assert walk[(i + 1) + 1] in deps[walk[i + 1]];
          }
        }
        WalkStaysFinished(deps, done, tail, |tail| - 1);
      }
    }
  }

  class Walker {
    const deps: Deps
    var active: set<string>
    var done: set<string>

    constructor (deps: Deps)
      ensures this.deps == deps && active == {} && done == {}
    {
      this.deps, active, done := deps, {}, {};
    }

    /** The nodes on the path lead to the node being visited, and none of them is finished. */
    ghost predicate OnPath(node: string)
      reads this
    {
      active <= deps.Keys && active !! done && Finished(deps, done) && forall a | a in active :: Reaches(deps, a, node)
    }

    /**
     Visiting a node either finishes it and everything it depends on, or reports a node that
     depends on itself.
     */
    method Visit(node: string) returns (ok: bool, cycleAt: string)
      requires Closed(deps) && node in deps && OnPath(node)
      modifies this
      ensures ok ==> active == old(active) && old(done) <= done && node in done && active !! done
      ensures ok ==> Finished(deps, done)
      ensures !ok ==> Reaches(deps, cycleAt, cycleAt)
      decreases deps.Keys - active
    {
      if node in active {
        return false, node;
      }
      if node in done {
        return true, "";
      }
      active := active + {node};
      for i := 0 to |deps[node]|
        invariant active == old(active) + {node} && old(done) <= done && active !! done && Finished(deps, done)
        invariant forall j | 0 <= j < i :: deps[node][j] in done
      {
        var dep := deps[node][i];
        forall a | a in active ensures Reaches(deps, a, dep) {
          ReachesStep(deps, a, node, dep);
        }
        ok, cycleAt := Visit(dep);
        if !ok {
          return;
        }
      }
      active := active - {node};
      FinishNode(deps, done, node);
      done := done + {node};
      return true, "";
    }

    /** Visiting every item, in any order, succeeds exactly when the dependencies are acyclic. */
    method CheckAll() returns (ok: bool, cycleAt: string)
      requires Closed(deps) && done == {}
      modifies this
      ensures ok <==> Acyclic(deps)
      ensures ok ==> done == deps.Keys
      ensures !ok ==> Reaches(deps, cycleAt, cycleAt)
    {
      var rest := deps.Keys;
      while rest != {}
        invariant rest <= deps.Keys && Finished(deps, done) && deps.Keys - rest <= done
        decreases rest
      {
        var item :| item in rest;
        active := {};
        ok, cycleAt := Visit(item);
        if !ok {
          return;
        }
        rest := rest - {item};
      }
      forall n ensures !Reaches(deps, n, n) {
        if n !in deps {
          forall walk ensures !Leads(deps, walk, n, n) {
            assert IsWalk(deps, walk) && |walk| >= 2 ==> walk[0] in deps;
          }
        }
      }
      return true, "";
    }
  }
}
