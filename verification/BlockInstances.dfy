/** Small graphs at which an operation of block.c leaves a node with permissions it should not have. */
module BlockInstances {
  import opened Basics
  import opened BlockPerms
  import opened BlockGraph
  import opened BlockTopo
  import opened BlockRefresh
  import opened BlockTransaction
  import opened BlockEdits
  import opened BlockExact

  const PLAIN := NodeInfo(true, true, true, false, false, false, false, true)
  const ACTIVE := Flags(true, false, false)
  const READER := Use({ConsistentRead}, BLK_PERM_ALL)

  /** Drivers with the default permission functions; node `f` forces sharing. */
  function PlainConfig(f: Option<Node>): Config {
    DefaultConfig((n: Node) => PLAIN.(forceShare := f == Some(n)), (n: Node) => ACTIVE, (n: Node, u: Use) => true)
  }

  lemma PlainNeeds(f: Option<Node>, n: Node, role: set<Role>, u: Use)
    requires RoleOk(role)
    ensures PlainConfig(f).childPerm(n, role, u) == DefaultPerms(ACTIVE, role, u)
    ensures PlainConfig(f).info(n) == PLAIN.(forceShare := f == Some(n))
  {
    var flags := (n: Node) => ACTIVE;
    assert flags(n) == ACTIVE;
  }

  lemma OneUser(g: Edges, n: Node, e: EdgeId)
    requires ParentEdges(g, n) == {e} && g[e].use.shared == BLK_PERM_ALL
    ensures Cumulative(g, n) == g[e].use && !Conflict(g, n)
  {
    var u := Cumulative(g, n);
    forall p ensures p in u.perm <==> p in g[e].use.perm {
      if p in u.perm {
        var d :| d in g && IsParentOf(g[d], n) && p in g[d].use.perm;
        assert d in ParentEdges(g, n);
      }
      if p in g[e].use.perm { assert e in ParentEdges(g, n); }
    }
    assert u.shared == BLK_PERM_ALL;
  }

  lemma NoUser(g: Edges, n: Node)
    requires ParentEdges(g, n) == {}
    ensures Cumulative(g, n) == NO_USE && !Conflict(g, n)
  {
    var u := Cumulative(g, n);
    forall d | d in g ensures !IsParentOf(g[d], n) { assert d !in ParentEdges(g, n); }
    assert u.perm == {};
    assert u.shared == BLK_PERM_ALL;
  }

  // ---------------------------------------------------------------- a backing chain

  /** A user that reads node 1, which has the backing chain 1, 2, 3. */
  function Chain(): Graph {
    Graph(map[0 := Edge(None, Some(1), {}, READER, false, false),
              1 := Edge(Some(1), Some(2), {Cow}, READER, false, false),
              2 := Edge(Some(2), Some(3), {Cow}, READER, false, false)],
          map[(1, BackingSlot) := 1, (2, BackingSlot) := 2], map[])
  }

  lemma CowNeeds(n: Node, x: Edge)
    requires x.role == {Cow}
    ensures ChildUse(PlainConfig(None), n, x, READER) == READER
    ensures ConsistentRead !in ChildUse(PlainConfig(None), n, x, NO_USE).perm
  {
    assert Cow in x.role && Filtered !in x.role && RoleOk(x.role);
    PlainNeeds(None, n, x.role, READER);
    PlainNeeds(None, n, x.role, NO_USE);
    if x.to.Some? { PlainNeeds(None, x.to.value, x.role, READER); }
    assert CowPerms(ACTIVE, READER).perm == {ConsistentRead};
    forall p: Perm ensures p in CowPerms(ACTIVE, READER).shared {
      match p case ConsistentRead => case Write => case WriteUnchanged => case Resize =>
    }
    assert CowPerms(ACTIVE, READER).shared == BLK_PERM_ALL by { AllPerms(CowPerms(ACTIVE, READER).shared); }
  }

  lemma ChainNode(n: Node)
    ensures SafeNode(PlainConfig(None), Chain().edges, n) && Exact(PlainConfig(None), Chain().edges, n)
  {
    var cfg, g := PlainConfig(None), Chain().edges;
    if 1 <= n <= 3 {
      assert ParentEdges(g, n) == {n - 1};
      OneUser(g, n, n - 1);
      forall e | e in ChildEdges(g, n) ensures ChildUse(cfg, n, g[e], READER) == g[e].use { CowNeeds(n, g[e]); }
    } else {
      assert ParentEdges(g, n) == {};
      NoUser(g, n);
      assert ChildEdges(g, n) == {};
    }
  }

  /** The chain is a valid graph at its permission fixpoint. */
  lemma ChainValid()
    ensures Acyclic(Chain().edges) && SlotsOk(PlainConfig(None), Chain())
    ensures Monotone(PlainConfig(None)) && Safe(PlainConfig(None), Chain().edges)
    ensures AllExact(PlainConfig(None), Chain().edges)
  {
    var g := Chain().edges;
    forall n ensures SafeNode(PlainConfig(None), g, n) && Exact(PlainConfig(None), g, n) { ChainNode(n); }
    forall a, b | Link(g, a, b) ensures !Reach(g, b, a) {
      if Reach(g, b, a) { ClosedReach(g, if b == 2 then {2, 3} else {3}, b, a); }
    }
    var c := PlainConfig(None);
    DefaultConfigMonotone(c.info, n => ACTIVE, c.checkPerm);
  }

  /** Detaching the backing file of node 1 succeeds and leaves node 2 with an edge to its own backing
      file that still asks for reading, though nobody reads node 2 any more. */
  lemma DetachedKeepsStrong()
    ensures var cfg, gr := PlainConfig(None), Chain();
            var h := Linked(cfg, gr, 1, None, true, 9);
            && MayLink(cfg, gr, 1, None, true) && Refreshable(cfg, h, [1])
            && !DetachedAlike(cfg, gr, 1, None, true, 9)
  {
    var cfg, gr := PlainConfig(None), Chain();
    var h := Linked(cfg, gr, 1, None, true, 9);
    assert h == gr.edges[1 := gr.edges[1].(to := None)];
    assert ParentEdges(h, 1) == {0} && ChildEdges(h, 1) == {};
    OneUser(h, 1, 0);
    Leaves(None, h, [1]);
    assert 2 !in [1];
    DetachedNeedsLess();
  }

  lemma DetachedNeedsLess()
    ensures var gr := Chain();
            !SameNeeds(PlainConfig(None), gr.edges, gr.edges[1 := gr.edges[1].(to := None)], 2)
  {
    var cfg, gr := PlainConfig(None), Chain();
    var h := gr.edges[1 := gr.edges[1].(to := None)];
    assert ParentEdges(h, 2) == {} && 2 in ChildEdges(gr.edges, 2) && ParentEdges(gr.edges, 2) == {1};
    NoUser(h, 2);
    OneUser(gr.edges, 2, 1);
    CowNeeds(2, gr.edges[2]);
  }

  /** Nodes without children or conflicts can be refreshed, and nothing lies below them. */
  lemma Leaves(f: Option<Node>, h: Edges, roots: seq<Node>)
    requires NoDuplicates(roots) && forall n :: n in roots ==> ChildEdges(h, n) == {} && !Conflict(h, n)
    ensures Refreshable(PlainConfig(f), h, roots) && forall m :: BelowRoots(h, roots, m) <==> m in roots
  {
    forall n, m | n in roots ensures !Link(h, n, m) {
      forall e | e in h ensures !IsChildOf(h[e], n) { assert e !in ChildEdges(h, n); }
    }
    forall m ensures m in roots <==> BelowRoots(h, roots, m) {
      if m in roots { ReachSelf(h, m); }
      if r :| r in roots && Reach(h, r, m) { ClosedReach(h, {r}, r, m); }
    }
    assert Sorted(h, roots);
    assert ListsBelow(h, roots, roots);
    forall n | n in roots ensures Settled(PlainConfig(f), h, n) { }
    assert SameShape(h, h);
    assert Solution(PlainConfig(f), h, h, roots);
  }

  // ---------------------------------------------------------------- a node that forces sharing

  /** Node 1 stores its data in node 2, which forces sharing. */
  function Forced(): Edges { map[0 := Edge(Some(1), Some(2), {Data}, NO_USE, false, false)] }

  lemma DataNeeds(f: Option<Node>, n: Node)
    ensures PlainConfig(f).childPerm(n, {Data}, NO_USE) == Use({}, BLK_PERM_ALL - {Resize})
  {
    assert RoleOk({Data});
    PlainNeeds(f, n, {Data}, NO_USE);
    var u := FilterPerms(NO_USE);
    assert u.perm == {};
    forall p: Perm ensures p in u.shared {
      match p case ConsistentRead => case Write => case WriteUnchanged => case Resize =>
    }
    assert u.shared == BLK_PERM_ALL by { AllPerms(u.shared); }
  }

  lemma ForcedNode(n: Node)
    ensures SafeNode(PlainConfig(Some(2)), Forced(), n) && Exact(PlainConfig(Some(2)), Forced(), n)
  {
    var g := Forced();
    if n == 2 {
      assert ParentEdges(g, 2) == {0} && ChildEdges(g, 2) == {};
      OneUser(g, 2, 0);
    } else {
      assert ParentEdges(g, n) == {};
      NoUser(g, n);
      DataNeeds(Some(2), n);
      assert n != 1 ==> ChildEdges(g, n) == {};
    }
  }

  lemma ForcedValid()
    ensures Acyclic(Forced()) && Monotone(PlainConfig(Some(2)))
    ensures Safe(PlainConfig(Some(2)), Forced()) && AllExact(PlainConfig(Some(2)), Forced())
  {
    var g, c := Forced(), PlainConfig(Some(2));
    forall n ensures SafeNode(c, g, n) && Exact(c, g, n) { ForcedNode(n); }
    forall a, b | Link(g, a, b) ensures !Reach(g, b, a) {
      if Reach(g, b, a) { ClosedReach(g, {2}, b, a); }
    }
    DefaultConfigMonotone(c.info, n => ACTIVE, c.checkPerm);
  }

  /** Replacing node 2 by node 3, which does not force sharing, is accepted in that valid graph and
      leaves node 1 sharing resizes that it must not share. */
  lemma ForcedSharingCanBeLost()
    ensures var cfg, g := PlainConfig(Some(2)), Forced();
            && CanReplaceNode(g, 2, 3, true) && Refreshable(cfg, RedirectAll(g, 2, 3), [2, 3])
            && !SharingKept(cfg, g, 2, 3) && !SharingSame(cfg, g, 2, 3)
  {
    var cfg, g := PlainConfig(Some(2)), Forced();
    assert 0 in ParentEdges(g, 2);
    forall n | Reach(g, 3, n) ensures 0 !in ChildEdges(g, n) { ClosedReach(g, {3}, 3, n); }
    assert Movable(g, 0, 3);
    assert ParentEdges(g, 1) == {};
    NoUser(g, 1);
    DataNeeds(Some(2), 1);
    assert Resize in g[0].use.shared && !EnoughShared(cfg, g, g[0]) && !SharesAll(cfg, g, g[0]);
    assert RedirectAll(g, 2, 3) == map[0 := g[0].(to := Some(3))];
    MovedSettles();
  }

  lemma MovedSettles()
    ensures Refreshable(PlainConfig(Some(2)), map[0 := Forced()[0].(to := Some(3))], [2, 3])
  {
    var h := map[0 := Forced()[0].(to := Some(3))];
    assert ParentEdges(h, 2) == {} && ParentEdges(h, 3) == {0} && ChildEdges(h, 2) == {} && ChildEdges(h, 3) == {};
    NoUser(h, 2);
    OneUser(h, 3, 0);
    Leaves(Some(2), h, [2, 3]);
  }
}
