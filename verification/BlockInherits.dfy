/** Which nodes lose their inherits_from when an edge of `root` goes away: bdrv_unset_inherits_from
    in block.c. */
module BlockInherits {
  import opened Basics
  import opened BlockPerms
  import opened BlockGraph

  /** Edge `d` is `child` or lies below it. */
  ghost predicate BelowEdge(g: Edges, child: EdgeId, d: EdgeId)
    requires child in g && g[child].to.Some?
  {
    d == child || exists m :: Reach(g, g[child].to.value, m) && d in ChildEdges(g, m)
  }

  /** No other edge of `root` leads where `d` leads. */
  predicate LastFrom(g: Edges, root: Node, d: EdgeId)
    requires d in g
  {
    forall c :: c in ChildEdges(g, root) && c != d ==> g[c].to != g[d].to
  }

  /** Edge `d` is a reason for clearing the node it leads to. */
  ghost predicate Clears(g: Edges, root: Node, child: EdgeId, d: EdgeId, n: Node)
    requires child in g && g[child].to.Some?
  {
    BelowEdge(g, child, d) && d in g && g[d].to == Some(n) && LastFrom(g, root, d)
  }

  /** Some edge at or below `child` leads to `n`, and no other edge of `root` itself does. */
  ghost predicate Cleared(g: Edges, root: Node, child: EdgeId, n: Node)
    requires child in g && g[child].to.Some?
  {
    exists d :: Clears(g, root, child, d, n)
  }

  /** `inh` without the entries that lead to `root` of the nodes in question. */
  ghost predicate UnsetExactly(g: Edges, inh: map<Node, Node>, inh': map<Node, Node>, root: Node, child: EdgeId)
    requires child in g && g[child].to.Some?
  {
    && (forall n :: n in inh' ==> n in inh && inh'[n] == inh[n])
    && (forall n :: n in inh ==> (n in inh' <==> !(inh[n] == root && Cleared(g, root, child, n))))
  }

  /** The same while only the children in `done` have been visited. */
  ghost predicate UnsetSome(g: Edges, inh: map<Node, Node>, inh': map<Node, Node>, root: Node, child: EdgeId,
                            done: set<EdgeId>)
    requires child in g && g[child].to.Some? && done <= ChildEdges(g, g[child].to.value)
  {
    && (forall n :: n in inh' ==> n in inh && inh'[n] == inh[n])
    && (forall n :: n in inh ==> (n in inh' <==> !(inh[n] == root && SomeClears(g, root, child, done, n))))
  }

  ghost predicate SomeClears(g: Edges, root: Node, child: EdgeId, done: set<EdgeId>, n: Node)
    requires child in g && g[child].to.Some? && done <= ChildEdges(g, g[child].to.value)
  {
    (g[child].to == Some(n) && LastFrom(g, root, child)) || exists c :: c in done && Cleared(g, root, c, n)
  }

  lemma BelowUnfold(g: Edges, child: EdgeId, d: EdgeId)
    requires child in g && g[child].to.Some?
    ensures BelowEdge(g, child, d) <==>
              d == child || exists c :: c in ChildEdges(g, g[child].to.value) && BelowEdge(g, c, d)
  {
    var to := g[child].to.value;
    if d != child && BelowEdge(g, child, d) {
      var m :| Reach(g, to, m) && d in ChildEdges(g, m);
      if m == to {
        assert BelowEdge(g, d, d);
      } else {
        var b := ReachFirst(g, to, m);
        var c :| c in g && g[c].parent == Some(to) && g[c].to == Some(b);
        assert c in ChildEdges(g, to) && BelowEdge(g, c, d);
      }
    }
    if c :| c in ChildEdges(g, to) && BelowEdge(g, c, d) {
      assert Link(g, to, g[c].to.value);
      ReachSelf(g, to);
      if d != c {
        var m :| Reach(g, g[c].to.value, m) && d in ChildEdges(g, m);
        ReachLeft(g, to, g[c].to.value, m);
      }
    }
  }

  /** Visiting all children covers everything below. */
  lemma AllVisited(g: Edges, root: Node, child: EdgeId, n: Node)
    requires child in g && g[child].to.Some?
    ensures SomeClears(g, root, child, ChildEdges(g, g[child].to.value), n) <==> Cleared(g, root, child, n)
  {
    var all := ChildEdges(g, g[child].to.value);
    if d :| Clears(g, root, child, d, n) {
      BelowUnfold(g, child, d);
      if d != child {
        var c :| c in all && BelowEdge(g, c, d);
        assert Clears(g, root, c, d, n);
      }
    }
    if g[child].to == Some(n) && LastFrom(g, root, child) {
      assert Clears(g, root, child, child, n);
    }
    if c :| c in all && Cleared(g, root, c, n) {
      var d :| Clears(g, root, c, d, n);
      BelowUnfold(g, child, d);
      assert Clears(g, root, child, d, n);
    }
  }

  lemma OneMoreVisited(g: Edges, inh: map<Node, Node>, a: map<Node, Node>, b: map<Node, Node>, root: Node,
                       child: EdgeId,
                       done: set<EdgeId>, c: EdgeId)
    requires child in g && g[child].to.Some? && done <= ChildEdges(g, g[child].to.value)
    requires c in ChildEdges(g, g[child].to.value)
    requires UnsetSome(g, inh, a, root, child, done) && UnsetExactly(g, a, b, root, c)
    ensures UnsetSome(g, inh, b, root, child, done + {c})
  {
    forall n | n in inh ensures n in b <==> !(inh[n] == root && SomeClears(g, root, child, done + {c}, n)) {
      assert SomeClears(g, root, child, done + {c}, n) <==>
             SomeClears(g, root, child, done, n) || Cleared(g, root, c, n);
    }
  }
}
