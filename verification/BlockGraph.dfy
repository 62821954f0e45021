/** The block graph of block.c: nodes, BdrvChild edges, reachability, and the two searches that
    keep the graph free of cycles. */
module BlockGraph {
  import opened Basics
  import opened BlockPerms

  type Node = int
  type EdgeId = int

  /** A BdrvChild.  `parent` is None for users that are not nodes (devices, jobs); `to` is the
      node it points to, None while it is empty; `stay` is klass->stay_at_node. */
  datatype Edge = Edge(parent: Option<Node>, to: Option<Node>, role: set<Role>, use: Use, frozen: bool, stay: bool)

  type Edges = map<EdgeId, Edge>

  predicate IsChildOf(x: Edge, n: Node) { x.parent == Some(n) && x.to.Some? }
  predicate IsParentOf(x: Edge, n: Node) { x.to == Some(n) }

  /** The lists bs->children and bs->parents, in any order. */
  function ChildEdges(g: Edges, n: Node): set<EdgeId> { set e | e in g && IsChildOf(g[e], n) }
  function ParentEdges(g: Edges, n: Node): set<EdgeId> { set e | e in g && IsParentOf(g[e], n) }

  /** Node `b` is a child of node `a`. */
  predicate Link(g: Edges, a: Node, b: Node) {
    exists e :: e in g && g[e].parent == Some(a) && g[e].to == Some(b)
  }

  ghost predicate Path(g: Edges, p: seq<Node>) {
    |p| > 0 && forall k :: 0 <= k < |p| - 1 ==> Link(g, p[k], p[k + 1])
  }

  ghost predicate PathFrom(g: Edges, p: seq<Node>, a: Node, b: Node) {
    Path(g, p) && p[0] == a && p[|p| - 1] == b
  }

  /** `b` lies in the subtree of `a`, or is `a`. */
  ghost predicate Reach(g: Edges, a: Node, b: Node) {
    exists p :: PathFrom(g, p, a, b)
  }

  ghost predicate Acyclic(g: Edges) {
    forall a, b :: Link(g, a, b) ==> !Reach(g, b, a)
  }

  // ---------------------------------------------------------------- reachability

  lemma PathTail(g: Edges, p: seq<Node>)
    requires Path(g, p) && |p| > 1
    ensures Path(g, p[1..])
  {
    var q := p[1..];
    forall k | 0 <= k < |q| - 1 ensures Link(g, q[k], q[k + 1]) {
      assert Link(g, p[k + 1], p[k + 1 + 1]);
    }
  }

  lemma PathInit(g: Edges, p: seq<Node>)
    requires Path(g, p) && |p| > 1
    ensures Path(g, p[..|p| - 1]) && Link(g, p[|p| - 2], p[|p| - 1])
  {
    var q := p[..|p| - 1];
    forall k | 0 <= k < |q| - 1 ensures Link(g, q[k], q[k + 1]) {
      assert Link(g, p[k], p[k + 1]);
    }
    assert Link(g, p[|p| - 2], p[|p| - 2 + 1]);
  }

  lemma ReachSelf(g: Edges, a: Node)
    ensures Reach(g, a, a)
  {
    assert PathFrom(g, [a], a, a);
  }

  lemma ReachRight(g: Edges, a: Node, b: Node, c: Node)
    requires Reach(g, a, b) && Link(g, b, c)
    ensures Reach(g, a, c)
  {
    var p :| PathFrom(g, p, a, b);
    assert PathFrom(g, p + [c], a, c);
  }

  lemma {:induction false} PathTrans(g: Edges, a: Node, b: Node, p: seq<Node>, c: Node)
    requires Reach(g, a, b) && PathFrom(g, p, b, c)
    ensures Reach(g, a, c)
    decreases |p|
  {
    if |p| > 1 {
      ReachRight(g, a, b, p[1]);
      var q := p[1..];
      PathTail(g, p);
      assert PathFrom(g, q, p[1], c);
      PathTrans(g, a, p[1], q, c);
    }
  }

  lemma ReachTrans(g: Edges, a: Node, b: Node, c: Node)
    requires Reach(g, a, b) && Reach(g, b, c)
    ensures Reach(g, a, c)
  {
    var p :| PathFrom(g, p, b, c);
    PathTrans(g, a, b, p, c);
  }

  lemma ReachLeft(g: Edges, a: Node, b: Node, c: Node)
    requires Link(g, a, b) && Reach(g, b, c)
    ensures Reach(g, a, c)
  {
    ReachSelf(g, a);
    ReachRight(g, a, a, b);
    ReachTrans(g, a, b, c);
  }

  lemma ReachFirst(g: Edges, a: Node, c: Node) returns (b: Node)
    requires Reach(g, a, c) && a != c
    ensures Link(g, a, b) && Reach(g, b, c)
  {
    var p :| PathFrom(g, p, a, c);
    b := p[1];
    var q := p[1..];
    PathTail(g, p);
    assert PathFrom(g, q, b, c);
  }

  /** A set of nodes that contains the children of its members contains their subtrees. */
  lemma {:induction false} ClosedPath(g: Edges, s: set<Node>, p: seq<Node>)
    requires Path(g, p) && p[0] in s && forall a, b :: a in s && Link(g, a, b) ==> b in s
    ensures p[|p| - 1] in s
    decreases |p|
  {
    if |p| > 1 {
      PathInit(g, p);
      ClosedPath(g, s, p[..|p| - 1]);
    }
  }

  lemma ClosedReach(g: Edges, s: set<Node>, a: Node, b: Node)
    requires a in s && Reach(g, a, b) && forall x, y :: x in s && Link(g, x, y) ==> y in s
    ensures b in s
  {
    var p :| PathFrom(g, p, a, b);
    ClosedPath(g, s, p);
  }

  // ---------------------------------------------------------------- adding one link

  /** All links of `h` are links of `g`, except perhaps one from `u` to `v`. */
  ghost predicate OneMoreLink(g: Edges, h: Edges, u: Node, v: Node) {
    forall a, b :: Link(h, a, b) ==> Link(g, a, b) || (a == u && b == v)
  }

  lemma {:induction false} PathWithOneMore(g: Edges, h: Edges, u: Node, v: Node, p: seq<Node>)
    requires OneMoreLink(g, h, u, v) && Path(h, p)
    ensures Reach(g, p[0], p[|p| - 1]) || (Reach(g, p[0], u) && Reach(g, v, p[|p| - 1]))
    decreases |p|
  {
    var last := |p| - 1;
    if last == 0 {
      ReachSelf(g, p[0]);
    } else {
      PathInit(h, p);
      PathWithOneMore(g, h, u, v, p[..last]);
      if Link(g, p[last - 1], p[last]) {
        if Reach(g, p[0], p[last - 1]) {
          ReachRight(g, p[0], p[last - 1], p[last]);
        } else {
          ReachRight(g, v, p[last - 1], p[last]);
        }
      } else {
        ReachSelf(g, v);
      }
    }
  }

  /** The check in front of every new edge: a link from `u` to `v` closes no cycle if and only if
      `u` is not in the subtree of `v`. */
  lemma OneMoreKeepsAcyclic(g: Edges, h: Edges, u: Node, v: Node)
    requires Acyclic(g) && OneMoreLink(g, h, u, v) && !Reach(g, v, u)
    ensures Acyclic(h)
  {
    forall a, b | Link(h, a, b) ensures !Reach(h, b, a) {
      if Reach(h, b, a) {
        var p :| PathFrom(h, p, b, a);
        PathWithOneMore(g, h, u, v, p);
        if Link(g, a, b) {
          ReachRight(g, v, a, b);
          ReachTrans(g, v, b, u);
        }
      }
    }
  }

  lemma CycleOtherwise(g: Edges, h: Edges, u: Node, v: Node)
    requires (forall a, b :: Link(g, a, b) ==> Link(h, a, b)) && Link(h, u, v) && Reach(g, v, u)
    ensures !Acyclic(h)
  {
    var p :| PathFrom(g, p, v, u);
    assert PathFrom(h, p, v, u);
  }

  // ---------------------------------------------------------------- bdrv_recurse_has_child

  function Targets(g: Edges): set<Node> {
    set e | e in g && g[e].to.Some? :: g[e].to.value
  }

  /** bdrv_recurse_has_child; `unseen` are the nodes the recursion has not come through. */
  predicate RecurseHasChild(g: Edges, bs: Node, child: Node, ghost unseen: set<Node>)
    requires Acyclic(g) && bs in unseen
    requires forall x :: x in Targets(g) && x !in unseen ==> Reach(g, x, bs)
    decreases unseen
  {
    || bs == child
    || exists e :: e in ChildEdges(g, bs)
                   && (GoDown(g, bs, e, unseen); RecurseHasChild(g, g[e].to.value, child, unseen - {bs}))
  }

  lemma GoDown(g: Edges, bs: Node, e: EdgeId, unseen: set<Node>)
    requires Acyclic(g) && bs in unseen && e in ChildEdges(g, bs)
    requires forall x :: x in Targets(g) && x !in unseen ==> Reach(g, x, bs)
    ensures g[e].to.value in unseen - {bs}
    ensures forall x :: x in Targets(g) && x !in unseen - {bs} ==> Reach(g, x, g[e].to.value)
  {
    var next := g[e].to.value;
    assert Link(g, bs, next) && next in Targets(g);
    ReachSelf(g, bs);
    forall x | x in Targets(g) && x !in unseen - {bs} ensures Reach(g, x, next) {
      ReachRight(g, x, bs, next);
    }
  }

  /** bdrv_recurse_has_child decides reachability. */
  lemma {:induction false} HasChildIsReach(g: Edges, bs: Node, child: Node, unseen: set<Node>)
    requires Acyclic(g) && bs in unseen
    requires forall x :: x in Targets(g) && x !in unseen ==> Reach(g, x, bs)
    ensures RecurseHasChild(g, bs, child, unseen) <==> Reach(g, bs, child)
    decreases unseen
  {
    forall e | e in ChildEdges(g, bs)
      ensures g[e].to.value in unseen - {bs}
      ensures forall x :: x in Targets(g) && x !in unseen - {bs} ==> Reach(g, x, g[e].to.value)
      ensures RecurseHasChild(g, g[e].to.value, child, unseen - {bs}) <==> Reach(g, g[e].to.value, child)
    {
      GoDown(g, bs, e, unseen);
      HasChildIsReach(g, g[e].to.value, child, unseen - {bs});
    }
    if bs == child {
      ReachSelf(g, bs);
    } else if Reach(g, bs, child) {
      var next := ReachFirst(g, bs, child);
      var e :| e in g && g[e].parent == Some(bs) && g[e].to == Some(next);
      assert e in ChildEdges(g, bs);
    } else {
      forall e | e in ChildEdges(g, bs) ensures !Reach(g, g[e].to.value, child) {
        assert Link(g, bs, g[e].to.value);
        if Reach(g, g[e].to.value, child) { ReachLeft(g, bs, g[e].to.value, child); }
      }
    }
  }

  // ---------------------------------------------------------------- should_update_child

  /** Redirecting edge `c` to `to` is wanted and closes no cycle. */
  ghost predicate Movable(g: Edges, c: EdgeId, to: Node)
    requires c in g
  {
    !g[c].stay && forall n :: Reach(g, to, n) ==> c !in ChildEdges(g, n)
  }

  /** All children of `n` are in `found` and `c` is none of its edges. */
  ghost predicate Expanded(g: Edges, c: EdgeId, found: set<Node>, n: Node) {
    forall e :: e in ChildEdges(g, n) ==> e != c && g[e].to.value in found
  }

  /** should_update_child: a breadth-first search of the subtree of `to` for the edge `c`. */
  method ShouldUpdateChild(g: Edges, c: EdgeId, to: Node) returns (ret: bool)
    requires c in g
    ensures ret <==> Movable(g, c, to)
  {
    if g[c].stay {
      return false;
    }
    ret := true;
    var found := {to};
    var queue := [to];
    ReachSelf(g, to);
    while queue != []
      invariant to in found && found <= Targets(g) + {to}
      invariant forall x :: x in found ==> Reach(g, to, x)
      invariant forall x :: x in queue ==> x in found
      invariant ret ==> forall x :: x in found && x !in queue ==> Expanded(g, c, found, x)
      invariant !ret ==> exists n :: Reach(g, to, n) && c in ChildEdges(g, n)
      decreases Targets(g) + {to} - found, |queue|
    {
      var v := queue[0];
      ghost var queue0, found0 := queue, found;
      queue := queue[1..];
      var rest := ChildEdges(g, v);
      while rest != {}
        invariant rest <= ChildEdges(g, v)
        invariant to in found && found <= Targets(g) + {to}
        invariant forall x :: x in found ==> Reach(g, to, x)
        invariant forall x :: x in queue ==> x in found
        invariant ret ==> forall x :: x in found && x !in queue && x != v ==> Expanded(g, c, found, x)
        invariant ret ==> forall e :: e in ChildEdges(g, v) - rest ==> e != c && g[e].to.value in found
        invariant !ret ==> exists n :: Reach(g, to, n) && c in ChildEdges(g, n)
        invariant found0 <= found && (found == found0 ==> queue == queue0[1..])
        decreases rest
      {
        Inhabited(rest);
        var c2 :| c2 in rest;
        rest := rest - {c2};
        if c2 == c {
          ret := false;
          break;
        }
        var next := g[c2].to.value;
        if next in found {
          continue;
        }
        assert Link(g, v, next);
        ReachRight(g, to, v, next);
        queue := queue + [next];
        found := found + {next};
      }
    }
    if ret {
      forall n | Reach(g, to, n) ensures c !in ChildEdges(g, n) {
        forall x, y | x in found && Link(g, x, y) ensures y in found {
          var e :| e in g && g[e].parent == Some(x) && g[e].to == Some(y);
          assert e in ChildEdges(g, x);
        }
        ClosedReach(g, found, to, n);
      }
    }
  }

  // ---------------------------------------------------------------- redirecting edges

  function Redirect(g: Edges, c: EdgeId, to: Node): Edges
    requires c in g
  {
    g[c := g[c].(to := Some(to))]
  }

  /** `h` has the same links as `g` below `to`. */
  ghost predicate SameBelow(g: Edges, h: Edges, to: Node) {
    forall a, b :: Reach(g, to, a) ==> (Link(g, a, b) <==> Link(h, a, b))
  }

  lemma {:induction false} PathBelow(g: Edges, h: Edges, to: Node, p: seq<Node>)
    requires SameBelow(g, h, to) && |p| > 0 && p[0] == to && (Path(g, p) || Path(h, p))
    ensures Reach(g, to, p[|p| - 1]) && Reach(h, to, p[|p| - 1])
    decreases |p|
  {
    if |p| == 1 {
      ReachSelf(g, to);
      ReachSelf(h, to);
    } else {
      if Path(g, p) { PathInit(g, p); } else { PathInit(h, p); }
      PathBelow(g, h, to, p[..|p| - 1]);
      ReachRight(g, to, p[|p| - 2], p[|p| - 1]);
      ReachRight(h, to, p[|p| - 2], p[|p| - 1]);
    }
  }

  lemma SameReachBelow(g: Edges, h: Edges, to: Node, n: Node)
    requires SameBelow(g, h, to)
    ensures Reach(g, to, n) <==> Reach(h, to, n)
  {
    if p :| PathFrom(g, p, to, n) {
      PathBelow(g, h, to, p);
    } else if p :| PathFrom(h, p, to, n) {
      PathBelow(g, h, to, p);
    }
  }

  /** An accepted redirection leaves the subtree of `to` alone. */
  lemma RedirectSameBelow(g: Edges, c: EdgeId, to: Node)
    requires c in g && g[c].to.Some? && Movable(g, c, to)
    ensures SameBelow(g, Redirect(g, c, to), to)
  {
    var h := Redirect(g, c, to);
    forall a, b | Reach(g, to, a) ensures Link(g, a, b) <==> Link(h, a, b) {
      assert c !in ChildEdges(g, a);
      if Link(g, a, b) {
        var e :| e in g && g[e].parent == Some(a) && g[e].to == Some(b);
        assert h[e] == g[e];
      }
      if Link(h, a, b) {
        var e :| e in h && h[e].parent == Some(a) && h[e].to == Some(b);
        assert e != c;
      }
    }
  }

  /** So it does not change which other edges are accepted ... */
  lemma RedirectSameMovable(g: Edges, c: EdgeId, to: Node, d: EdgeId)
    requires c in g && d in g && d != c && g[c].to.Some? && Movable(g, c, to)
    ensures Movable(g, d, to) <==> Movable(Redirect(g, c, to), d, to)
  {
    var h := Redirect(g, c, to);
    RedirectSameBelow(g, c, to);
    forall n ensures Reach(g, to, n) <==> Reach(h, to, n) { SameReachBelow(g, h, to, n); }
    assert forall n :: d in ChildEdges(g, n) <==> d in ChildEdges(h, n);
  }

  /** ... and it closes no cycle. */
  lemma RedirectKeepsAcyclic(g: Edges, c: EdgeId, to: Node)
    requires Acyclic(g) && c in g && g[c].to.Some? && Movable(g, c, to)
    ensures Acyclic(Redirect(g, c, to))
  {
    var h := Redirect(g, c, to);
    if g[c].parent.Some? {
      var u := g[c].parent.value;
      assert c in ChildEdges(g, u);
      forall a, b | Link(h, a, b) ensures Link(g, a, b) || (a == u && b == to) {
        var e :| e in h && h[e].parent == Some(a) && h[e].to == Some(b);
        assert e != c ==> g[e] == h[e];
      }
      OneMoreKeepsAcyclic(g, h, u, to);
    } else {
      forall a, b ensures Link(h, a, b) <==> Link(g, a, b) {
        if Link(h, a, b) {
          var e :| e in h && h[e].parent == Some(a) && h[e].to == Some(b);
          assert g[e] == h[e];
        }
        if Link(g, a, b) {
          var e :| e in g && g[e].parent == Some(a) && g[e].to == Some(b);
          assert g[e] == h[e];
        }
      }
      SameLinksAcyclic(g, h);
    }
  }

  /** Acyclicity only depends on the links; fewer links are fine. */
  lemma SameLinksAcyclic(g: Edges, h: Edges)
    requires Acyclic(g) && forall a, b :: Link(h, a, b) ==> Link(g, a, b)
    ensures Acyclic(h)
  {
    forall a, b | Link(h, a, b) ensures !Reach(h, b, a) {
      if p :| PathFrom(h, p, b, a) {
        assert PathFrom(g, p, b, a);
      }
    }
  }

  /** A path of a graph whose new links all end in `to` ends where one from its start or from `to`
      ended before. */
  lemma {:induction false} PathNewLinksTo(g: Edges, h: Edges, to: Node, p: seq<Node>)
    requires Path(h, p) && forall a, b :: Link(h, a, b) ==> Link(g, a, b) || b == to
    ensures Reach(g, p[0], p[|p| - 1]) || Reach(g, to, p[|p| - 1])
    decreases |p|
  {
    var last := |p| - 1;
    if last == 0 {
      ReachSelf(g, p[0]);
    } else {
      PathInit(h, p);
      PathNewLinksTo(g, h, to, p[..last]);
      if Link(g, p[last - 1], p[last]) {
        if Reach(g, p[0], p[last - 1]) {
          ReachRight(g, p[0], p[last - 1], p[last]);
        } else {
          ReachRight(g, to, p[last - 1], p[last]);
        }
      } else {
        ReachSelf(g, to);
      }
    }
  }

  lemma ReachNewLinksTo(g: Edges, h: Edges, to: Node, a: Node, b: Node)
    requires Reach(h, a, b) && forall x, y :: Link(h, x, y) ==> Link(g, x, y) || y == to
    ensures Reach(g, a, b) || Reach(g, to, b)
  {
    var p :| PathFrom(h, p, a, b);
    PathNewLinksTo(g, h, to, p);
  }
}
