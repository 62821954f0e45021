/** bdrv_topological_dfs of block.c: the order in which permissions are refreshed. */
module BlockTopo {
  import opened Basics
  import opened BlockPerms
  import opened BlockGraph

  /** Topologically sorted and complete downwards: every child of a listed node is listed, behind
      it. */
  ghost predicate Sorted(g: Edges, list: seq<Node>) {
    && NoDuplicates(list)
    && forall i, b :: 0 <= i < |list| && Link(g, list[i], b) ==> exists j :: i < j < |list| && list[j] == b
  }

  lemma SortedClosed(g: Edges, list: seq<Node>, a: Node, b: Node)
    requires Sorted(g, list) && a in list && Reach(g, a, b)
    ensures b in list
  {
    var s := Elements(list);
    forall x, y | x in s && Link(g, x, y) ensures y in s {
      var i :| 0 <= i < |list| && list[i] == x;
      var j :| i < j < |list| && list[j] == y;
    }
    ClosedReach(g, s, a, b);
  }

  lemma SortedPrepend(g: Edges, list: seq<Node>, n: Node)
    requires Sorted(g, list) && n !in list && Acyclic(g) && forall b :: Link(g, n, b) ==> b in list
    ensures Sorted(g, [n] + list)
  {
    var l := [n] + list;
    forall i, b | 0 <= i < |l| && Link(g, l[i], b) ensures exists j :: i < j < |l| && l[j] == b {
      if i == 0 {
        var j :| 0 <= j < |list| && list[j] == b;
        assert l[j + 1] == b;
      } else {
        assert l[i] == list[i - 1];
        var j :| i - 1 < j < |list| && list[j] == b;
        assert l[j + 1] == b;
      }
    }
  }

  /** What `list'` has become: `list` with the subtree of `n` put in front. */
  ghost predicate Extends(g: Edges, list: seq<Node>, list': seq<Node>, n: Node) {
    && Sorted(g, list')
    && |list| <= |list'| && list'[|list'| - |list|..] == list
    && (forall m :: m in list' <==> m in list || Reach(g, n, m))
  }

  /** bdrv_topological_dfs: `found` are the nodes listed or being visited further up; all of the
      latter (`above`) lead to `bs`. */
  method TopologicalDfs(g: Edges, list: seq<Node>, found: set<Node>, bs: Node, ghost above: set<Node>)
    returns (list': seq<Node>, found': set<Node>)
    requires Acyclic(g) && Sorted(g, list) && found == Elements(list) + above && above !! Elements(list)
    requires forall x :: x in above ==> Reach(g, x, bs) && x != bs
    ensures Extends(g, list, list', bs) && found' == Elements(list') + above && above !! Elements(list')
    decreases Targets(g) + {bs} - found, 1
  {
    if bs in found {
      forall m | Reach(g, bs, m) ensures m in list { SortedClosed(g, list, bs, m); }
      return list, found;
    }
    list', found' := list, found + {bs};
    var rest := ChildEdges(g, bs);
    ghost var above' := above + {bs};
    while rest != {}
      invariant rest <= ChildEdges(g, bs)
      invariant Sorted(g, list') && found' == Elements(list') + above' && above' !! Elements(list')
      invariant |list| <= |list'| && list'[|list'| - |list|..] == list
      invariant forall m :: m in list' ==> m in list || Reach(g, bs, m)
      invariant forall e :: e in ChildEdges(g, bs) - rest ==> g[e].to.value in list'
      decreases rest
    {
      Inhabited(rest);
      var c :| c in rest;
      rest := rest - {c};
      var next := g[c].to.value;
      assert Link(g, bs, next);
      forall x | x in above' ensures Reach(g, x, next) && x != next {
        ReachSelf(g, bs);
        ReachRight(g, x, bs, next);
      }
      ghost var list0 := list';
      list', found' := TopologicalDfs(g, list', found', next, above');
      ReachSelf(g, next);
      forall m | m in list' ensures m in list || Reach(g, bs, m) {
        if m !in list0 { ReachLeft(g, bs, next, m); }
      }
    }
    ReachSelf(g, bs);
    SortedPrepend(g, list', bs);
    ElementsPrepend(bs, list');
    list' := [bs] + list';
    forall m | Reach(g, bs, m) ensures m in list' { SortedClosed(g, list', bs, m); }
  }

  /** The first half of bdrv_list_refresh_perms: the roots' subtrees, sorted; roots may repeat. */
  method TopologicalList(g: Edges, roots: seq<Node>) returns (list: seq<Node>)
    requires Acyclic(g)
    ensures Sorted(g, list)
    ensures forall m :: m in list <==> exists r :: r in roots && Reach(g, r, m)
  {
    list := [];
    var found := {};
    for i := 0 to |roots|
      invariant Sorted(g, list) && found == Elements(list)
      invariant forall m :: m in list <==> exists r :: r in roots[..i] && Reach(g, r, m)
    {
      ghost var list0 := list;
      list, found := TopologicalDfs(g, list, found, roots[i], {});
      assert roots[..i + 1] == roots[..i] + [roots[i]];
      forall m ensures m in list <==> exists r :: r in roots[..i + 1] && Reach(g, r, m) {
        if m in list0 {
          var r :| r in roots[..i] && Reach(g, r, m);
          assert r in roots[..i + 1];
        } else if Reach(g, roots[i], m) {
          assert roots[i] in roots[..i + 1];
        }
      }
    }
    assert roots[..|roots|] == roots;
  }
}
