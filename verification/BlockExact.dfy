/** When the graph operations of block.c leave every edge with exactly the permissions its parent
    needs, not just enough of them: the nodes that an operation changes without refreshing them. */
module BlockExact {
  import opened Basics
  import opened BlockPerms
  import opened BlockGraph
  import opened BlockTopo
  import opened BlockRefresh
  import opened BlockTransaction
  import opened BlockEdits

  /** The permission fixpoint holds everywhere. */
  ghost predicate AllExact(cfg: Config, g: Edges) {
    forall n :: Exact(cfg, g, n)
  }

  ghost predicate ExactOutside(cfg: Config, g: Edges, roots: seq<Node>) {
    forall n :: Exact(cfg, g, n) || BelowRoots(g, roots, n)
  }

  /** After a refresh of a downward-closed list every node is exact if and only if the nodes that
      were not listed were exact before it. */
  lemma RefreshExactExactly(cfg: Config, h: Edges, f: Edges, list: seq<Node>)
    requires Sorted(h, list) && Solution(cfg, h, f, list)
    ensures AllExact(cfg, f) <==> forall n :: n !in list ==> Exact(cfg, h, n)
  {
    SameShapeLinks(h, f);
    forall n | n !in list ensures Exact(cfg, f, n) <==> Exact(cfg, h, n) {
      forall e | e in ParentEdges(h, n) ensures f[e].use == h[e].use {
        SortedIncoming(h, list, e, n);
      }
      SameIncoming(h, f, n);
      assert forall e :: e in ChildEdges(h, n) ==> f[e] == h[e];
    }
    forall n | n in list ensures Exact(cfg, f, n) { assert Settled(cfg, f, n); }
  }

  lemma SettledExactly(cfg: Config, h: Edges, f: Edges, roots: seq<Node>)
    requires SettledBelow(cfg, h, f, roots)
    ensures AllExact(cfg, f) <==> ExactOutside(cfg, h, roots)
  {
    var list :| ListsBelow(h, roots, list) && Solution(cfg, h, f, list);
    RefreshExactExactly(cfg, h, f, list);
  }

  lemma SettledDropExact(cfg: Config, h: Edges, f: Edges, roots: seq<Node>, s: set<EdgeId>)
    requires SettledBelow(cfg, h, f, roots) && forall d :: d in s && d in h ==> h[d].to == None
    ensures AllExact(cfg, f - s) <==> ExactOutside(cfg, h, roots)
  {
    SettledExactly(cfg, h, f, roots);
    DropExact(cfg, f, s);
  }

  /** Exactness of a node only depends on its own edges. */
  lemma SameExact(cfg: Config, g: Edges, h: Edges, n: Node)
    requires forall e :: e in g && (IsParentOf(g[e], n) || IsChildOf(g[e], n)) ==> e in h && h[e] == g[e]
    requires forall e :: e in h && (IsParentOf(h[e], n) || IsChildOf(h[e], n)) ==> e in g && h[e] == g[e]
    ensures Exact(cfg, g, n) <==> Exact(cfg, h, n)
  {
    forall e ensures e in ParentEdges(g, n) <==> e in ParentEdges(h, n) { }
    forall e ensures e in ChildEdges(g, n) <==> e in ChildEdges(h, n) { }
    SameIncoming(g, h, n);
  }

  lemma DropExact(cfg: Config, g: Edges, s: set<EdgeId>)
    requires forall e :: e in s && e in g ==> g[e].to == None
    ensures AllExact(cfg, g - s) <==> AllExact(cfg, g)
  {
    forall n ensures Exact(cfg, g, n) <==> Exact(cfg, g - s, n) { SameExact(cfg, g, g - s, n); }
  }

  // ---------------------------------------------------------------- attaching and detaching

  /** Attaching keeps the fixpoint: `f` is what a successful bdrv_attach_child leaves. */
  lemma AttachKeepsExact(cfg: Config, g: Edges, f: Edges, parent: Node, child: Node, role: set<Role>, e: EdgeId)
    requires AllExact(cfg, g) && e !in g
    requires SettledBelow(cfg, g[e := NewEdge(cfg, g, parent, child, role)], f, [parent])
    ensures AllExact(cfg, f)
  {
    var h := g[e := NewEdge(cfg, g, parent, child, role)];
    AttachExact(cfg, g, h, e, parent, child);
    SettledExactly(cfg, h, f, [parent]);
  }

  lemma RootAttachKeepsExact(cfg: Config, g: Edges, f: Edges, e: EdgeId, x: Edge)
    requires AllExact(cfg, g) && e !in g && x.parent == None && x.to.Some?
    requires SettledBelow(cfg, g[e := x], f, [x.to.value])
    ensures AllExact(cfg, f)
  {
    RootAttachExact(cfg, g, g[e := x], e, x.to.value);
    SettledExactly(cfg, g[e := x], f, [x.to.value]);
  }

  /** So does taking a user away, if the refresh is not rolled back. */
  lemma UnrefKeepsExact(cfg: Config, g: Edges, f: Edges, c: EdgeId)
    requires AllExact(cfg, g) && c in g && g[c].to.Some? && SettledBelow(cfg, g - {c}, f, [g[c].to.value])
    ensures AllExact(cfg, f)
  {
    RemoveExact(cfg, g, c);
    SettledExactly(cfg, g - {c}, f, [g[c].to.value]);
  }

  /** Setting permissions keeps it if and only if they are what the edge's parent needs. */
  lemma SetPermKeepsExact(cfg: Config, g: Edges, f: Edges, c: EdgeId, use: Use)
    requires Acyclic(g) && AllExact(cfg, g) && c in g && g[c].to.Some?
    requires SettledBelow(cfg, g[c := g[c].(use := use)], f, [g[c].to.value])
    ensures AllExact(cfg, f) <==> UseExact(cfg, g, c, use)
  {
    SetPermExactExactly(cfg, g, c, use);
    SettledExactly(cfg, g[c := g[c].(use := use)], f, [g[c].to.value]);
  }

  /** Replacing a node keeps it if and only if forced sharing is the same. */
  lemma ReplaceKeepsExact(cfg: Config, g: Edges, f: Edges, from: Node, to: Node)
    requires Acyclic(g) && AllExact(cfg, g) && SettledBelow(cfg, RedirectAll(g, from, to), f, [from, to])
    ensures AllExact(cfg, f) <==> SharingSame(cfg, g, from, to)
  {
    RedirectExactExactly(cfg, g, from, to);
    SettledExactly(cfg, RedirectAll(g, from, to), f, [from, to]);
  }

  /** And so for putting a node on top. */
  lemma AppendKeepsExact(cfg: Config, g0: Edges, f: Edges, bsNew: Node, top: Node, e: EdgeId)
    requires AllExact(cfg, g0) && e !in g0
    requires var g := g0[e := NewEdge(cfg, g0, bsNew, top, BackingRole(cfg, bsNew))];
             Acyclic(g) && SettledBelow(cfg, RedirectAll(g, top, bsNew), f, [bsNew])
    ensures var g := g0[e := NewEdge(cfg, g0, bsNew, top, BackingRole(cfg, bsNew))];
            AllExact(cfg, f) <==> SharingSame(cfg, g, top, bsNew)
  {
    var g := g0[e := NewEdge(cfg, g0, bsNew, top, BackingRole(cfg, bsNew))];
    AppendExactExactly(cfg, g0, g, e, bsNew, top);
    SettledExactly(cfg, RedirectAll(g, top, bsNew), f, [bsNew]);
  }

  lemma AttachExact(cfg: Config, g: Edges, h: Edges, e: EdgeId, parent: Node, child: Node)
    requires AllExact(cfg, g) && e !in g && e in h && h == g[e := h[e]]
    requires h[e].parent == Some(parent) && h[e].to == Some(child)
    ensures ExactOutside(cfg, h, [parent])
  {
    ReachSelf(h, parent);
    assert Link(h, parent, child);
    ReachRight(h, parent, parent, child);
    assert parent in [parent];
    forall n | n != parent && n != child ensures Exact(cfg, h, n) {
      assert Exact(cfg, g, n);
      SameExact(cfg, g, h, n);
    }
  }

  lemma RootAttachExact(cfg: Config, g: Edges, h: Edges, e: EdgeId, child: Node)
    requires AllExact(cfg, g) && e !in g && e in h && h == g[e := h[e]]
    requires h[e].parent == None && h[e].to == Some(child)
    ensures ExactOutside(cfg, h, [child])
  {
    ReachSelf(h, child);
    assert child in [child];
    forall n | n != child ensures Exact(cfg, h, n) {
      assert Exact(cfg, g, n);
      SameExact(cfg, g, h, n);
    }
  }

  /** Only the node that loses a user can lose exactness. */
  lemma RemoveExact(cfg: Config, g: Edges, c: EdgeId)
    requires AllExact(cfg, g) && c in g && g[c].to.Some?
    ensures ExactOutside(cfg, g - {c}, [g[c].to.value])
  {
    var h, to := g - {c}, g[c].to.value;
    ReachSelf(h, to);
    assert to in [to];
    forall n | n != to ensures Exact(cfg, h, n) {
      assert Exact(cfg, g, n);
      forall e ensures e in ParentEdges(g, n) <==> e in ParentEdges(h, n) { }
      SameIncoming(g, h, n);
    }
  }

  /** The edge, if it belongs to a node, carries exactly what that node needs. */
  predicate UseExact(cfg: Config, g: Edges, c: EdgeId, use: Use)
    requires c in g && g[c].to.Some?
  {
    g[c].parent.Some? && cfg.info(g[c].parent.value).hasDrv ==>
      use == ChildUse(cfg, g[c].parent.value, g[c], Cumulative(g, g[c].parent.value))
  }

  lemma SetPermExactExactly(cfg: Config, g: Edges, c: EdgeId, use: Use)
    requires Acyclic(g) && AllExact(cfg, g) && c in g && g[c].to.Some?
    ensures ExactOutside(cfg, g[c := g[c].(use := use)], [g[c].to.value]) <==> UseExact(cfg, g, c, use)
  {
    var h, to := g[c := g[c].(use := use)], g[c].to.value;
    SameShapeLinks(g, h);
    ReachSelf(h, to);
    assert to in [to];
    forall n | n != to ensures Exact(cfg, h, n) <==> (g[c].parent == Some(n) ==> UseExact(cfg, g, c, use)) {
      assert Exact(cfg, g, n);
      SameIncoming(g, h, n);
      assert g[c].parent == Some(n) ==> c in ChildEdges(h, n);
    }
    if g[c].parent.Some? {
      var p := g[c].parent.value;
      assert Link(g, p, to);
      SameLinksAcyclic(g, h);
      assert !Reach(h, to, p);
      ReachSelf(g, p);
    }
  }

  // ---------------------------------------------------------------- redirecting

  /** The two nodes agree on forced sharing, or the parents of the moved edges share everything by
      themselves. */
  ghost predicate SharingSame(cfg: Config, g: Edges, from: Node, to: Node) {
    cfg.info(from).forceShare != cfg.info(to).forceShare ==>
      forall c :: c in ParentEdges(g, from) && Movable(g, c, to) ==> SharesAll(cfg, g, g[c])
  }

  predicate SharesAll(cfg: Config, g: Edges, x: Edge) {
    x.parent.Some? && cfg.info(x.parent.value).hasDrv ==>
      cfg.childPerm(x.parent.value, x.role, Cumulative(g, x.parent.value)).shared == BLK_PERM_ALL
  }

  lemma RedirectExact(cfg: Config, g: Edges, from: Node, to: Node, n: Node)
    requires Exact(cfg, g, n) && n != from && n != to && SharingSame(cfg, g, from, to)
    ensures Exact(cfg, RedirectAll(g, from, to), n)
  {
    var h := RedirectAll(g, from, to);
    RedirectAllIncoming(g, from, to, n);
    if cfg.info(n).hasDrv {
      forall e | e in ChildEdges(h, n) ensures h[e].use == ChildUse(cfg, n, h[e], Cumulative(h, n)) {
        assert g[e].use == ChildUse(cfg, n, g[e], Cumulative(g, n));
      }
    }
  }

  lemma RedirectInexact(cfg: Config, g: Edges, from: Node, to: Node, c: EdgeId)
    requires Acyclic(g) && c in ParentEdges(g, from) && Movable(g, c, to)
    requires forall n :: n != from && n != to ==> Exact(cfg, g, n)
    requires cfg.info(from).forceShare != cfg.info(to).forceShare
    requires ExactOutside(cfg, RedirectAll(g, from, to), [from, to])
    ensures SharesAll(cfg, g, g[c])
  {
    if g[c].parent.Some? && cfg.info(g[c].parent.value).hasDrv {
      var h, n := RedirectAll(g, from, to), g[c].parent.value;
      MovedParentOutside(g, from, to, c, n);
      RedirectAllIncoming(g, from, to, n);
      assert Exact(cfg, g, n) && c in ChildEdges(g, n);
      assert Exact(cfg, h, n) && c in ChildEdges(h, n);
    }
  }

  /** Replacing a node keeps the rest of the graph exact if and only if forced sharing is the same. */
  lemma RedirectExactExactly(cfg: Config, g: Edges, from: Node, to: Node)
    requires Acyclic(g) && forall n :: n != from && n != to ==> Exact(cfg, g, n)
    ensures ExactOutside(cfg, RedirectAll(g, from, to), [from, to]) <==> SharingSame(cfg, g, from, to)
  {
    var h := RedirectAll(g, from, to);
    if SharingSame(cfg, g, from, to) {
      forall n ensures Exact(cfg, h, n) || BelowRoots(h, [from, to], n) {
        if n == from || n == to {
          ReachSelf(h, n);
          assert n in [from, to];
        } else {
          RedirectExact(cfg, g, from, to, n);
        }
      }
    }
    if ExactOutside(cfg, h, [from, to]) && cfg.info(from).forceShare != cfg.info(to).forceShare {
      forall c | c in ParentEdges(g, from) && Movable(g, c, to) ensures SharesAll(cfg, g, g[c]) {
        RedirectInexact(cfg, g, from, to, c);
      }
    }
  }

  lemma AppendExactExactly(cfg: Config, g0: Edges, g: Edges, e: EdgeId, bsNew: Node, top: Node)
    requires AllExact(cfg, g0) && Acyclic(g)
    requires e !in g0 && e in g && g == g0[e := g[e]] && g[e].parent == Some(bsNew) && g[e].to == Some(top)
    ensures ExactOutside(cfg, RedirectAll(g, top, bsNew), [bsNew]) <==> SharingSame(cfg, g, top, bsNew)
  {
    AppendApart(g, e, bsNew, top);
    AppendStays(g, e, bsNew, top);
    forall n | n != bsNew && n != top ensures Exact(cfg, g, n) {
      assert Exact(cfg, g0, n);
      SameExact(cfg, g0, g, n);
    }
    RedirectExactExactly(cfg, g, top, bsNew);
    var h := RedirectAll(g, top, bsNew);
    forall n ensures BelowRoots(h, [top, bsNew], n) <==> BelowRoots(h, [bsNew], n) {
      OneRootBelow(h, top, bsNew, n);
    }
  }

  // ---------------------------------------------------------------- the file or backing link

  /** What `n` needs from its children is the same in both graphs. */
  ghost predicate SameNeeds(cfg: Config, g: Edges, h: Edges, n: Node) {
    cfg.info(n).hasDrv ==>
      forall e :: e in ChildEdges(g, n) ==>
        ChildUse(cfg, n, g[e], Cumulative(h, n)) == ChildUse(cfg, n, g[e], Cumulative(g, n))
  }

  /** The node behind the old link, if there is one, is still below the parent, or does not need
      less from its own children now that it has lost this user. */
  ghost predicate DetachedAlike(cfg: Config, gr: Graph, parent: Node, child: Option<Node>, isBacking: bool, e: EdgeId) {
    var link, h := OldLink(gr, parent, isBacking), Linked(cfg, gr, parent, child, isBacking, e);
    link.Some? && link.value in gr.edges && gr.edges[link.value].to.Some? ==>
      var n := gr.edges[link.value].to.value;
      BelowRoots(h, [parent], n) || SameNeeds(cfg, gr.edges, h, n)
  }

  /** A node that is not below the parent keeps its children's edges, and all users but the link. */
  lemma LinkedAround(cfg: Config, gr: Graph, parent: Node, child: Option<Node>, isBacking: bool, e: EdgeId, n: Node)
    requires SlotsOk(cfg, gr) && e !in gr.edges
    requires !BelowRoots(Linked(cfg, gr, parent, child, isBacking, e), [parent], n)
    ensures var g, h := gr.edges, Linked(cfg, gr, parent, child, isBacking, e);
            && ChildEdges(h, n) == ChildEdges(g, n) && (forall d :: d in ChildEdges(g, n) ==> h[d] == g[d])
            && ParentEdges(h, n) == ParentEdges(g, n) - LinkSet(gr, parent, isBacking)
            && (forall d :: d in ParentEdges(h, n) ==> h[d] == g[d])
  {
    var g, h := gr.edges, Linked(cfg, gr, parent, child, isBacking, e);
    ReachSelf(h, parent);
    assert parent in [parent];
    if Link(h, parent, n) { ReachRight(h, parent, parent, n); }
    LinkedEdges(cfg, gr, parent, child, isBacking, e);
    OnlyLink(cfg, gr, parent, child, isBacking, e);
    forall d ensures d in ChildEdges(h, n) <==> d in ChildEdges(g, n) { }
    forall d ensures d in ParentEdges(h, n) <==> d in ParentEdges(g, n) - LinkSet(gr, parent, isBacking) {
      assert d in h && d !in g ==> h[d].parent == Some(parent);
    }
  }

  lemma OnlyLink(cfg: Config, gr: Graph, parent: Node, child: Option<Node>, isBacking: bool, e: EdgeId)
    requires SlotsOk(cfg, gr) && e !in gr.edges
    ensures var g, h := gr.edges, Linked(cfg, gr, parent, child, isBacking, e);
            forall d :: d in g ==>
                          d in h && if d in LinkSet(gr, parent, isBacking) then h[d].to == None else h[d] == g[d]
  {
  }

  /** Setting a link keeps the graph outside the parent's subtree exact if and only if the node
      behind the old link, which nobody refreshes, still needs what it needed. */
  lemma SetLinkExactExactly(cfg: Config, gr: Graph, parent: Node, child: Option<Node>, isBacking: bool, e: EdgeId)
    requires AllExact(cfg, gr.edges) && SlotsOk(cfg, gr) && e !in gr.edges
    ensures ExactOutside(cfg, Linked(cfg, gr, parent, child, isBacking, e), [parent])
       <==> DetachedAlike(cfg, gr, parent, child, isBacking, e)
  {
    var g, h := gr.edges, Linked(cfg, gr, parent, child, isBacking, e);
    forall n | !BelowRoots(h, [parent], n) ensures Exact(cfg, h, n) <==> SameNeeds(cfg, g, h, n) {
      LinkedAround(cfg, gr, parent, child, isBacking, e, n);
      assert Exact(cfg, g, n);
    }
    var link := OldLink(gr, parent, isBacking);
    forall n | !BelowRoots(h, [parent], n) && !(link.Some? && g[link.value].to == Some(n)) ensures Exact(cfg, h, n) {
      LinkedAround(cfg, gr, parent, child, isBacking, e, n);
      forall d ensures d in ParentEdges(h, n) <==> d in ParentEdges(g, n) { }
      SameIncoming(g, h, n);
    }
  }

  /** Setting a link keeps the fixpoint everywhere under the same condition; `f` are the edges before
      the old link is freed. */
  lemma SetLinkKeepsExact(cfg: Config, gr: Graph, f: Edges, parent: Node, child: Option<Node>, isBacking: bool,
                          e: EdgeId)
    requires AllExact(cfg, gr.edges) && SlotsOk(cfg, gr) && e !in gr.edges
    requires SettledBelow(cfg, Linked(cfg, gr, parent, child, isBacking, e), f, [parent])
    ensures AllExact(cfg, f - LinkSet(gr, parent, isBacking)) <==> DetachedAlike(cfg, gr, parent, child, isBacking, e)
  {
    SetLinkExactExactly(cfg, gr, parent, child, isBacking, e);
    OnlyLink(cfg, gr, parent, child, isBacking, e);
    SettledDropExact(cfg, Linked(cfg, gr, parent, child, isBacking, e), f, [parent], LinkSet(gr, parent, isBacking));
  }
}
