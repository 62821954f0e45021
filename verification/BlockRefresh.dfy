/** Permissions over the block graph: what a node's parents need together, what it needs from its
    children, and when a graph is safe.  bdrv_get_cumulative_perm, bdrv_parent_perms_conflict,
    bdrv_child_perm and the checks of bdrv_node_refresh_perm in block.c. */
module BlockRefresh {
  import opened Basics
  import opened BlockPerms
  import opened BlockGraph
  import opened BlockTopo

  /** The facts about a node and its driver that no graph operation changes: bs->drv is set,
      bdrv_is_writable, an image size that is a multiple of the request alignment, force_share,
      inactive, and the driver's is_filter, filtered_child_is_backing and supports_backing. */
  datatype NodeInfo = NodeInfo(hasDrv: bool, writable: bool, aligned: bool, forceShare: bool, inactive: bool,
                               isFilter: bool, filteredIsBacking: bool, supportsBacking: bool)

  /** `childPerm` is the node's .bdrv_child_perm() for an edge of a given role, `checkPerm` its
      .bdrv_check_perm(). */
  datatype Config = Config(info: Node -> NodeInfo, childPerm: (Node, set<Role>, Use) -> Use, checkPerm: (Node,
                           Use) -> bool)

  const NO_USE := Use({}, BLK_PERM_ALL)

  /** bdrv_get_cumulative_perm */
  function Cumulative(g: Edges, n: Node): Use {
    Use(set e, p | e in g && IsParentOf(g[e], n) && p in g[e].use.perm :: p,
        set p | p in BLK_PERM_ALL && forall e :: e in ParentEdges(g, n) ==> p in g[e].use.shared)
  }

  method GetCumulativePerm(g: Edges, n: Node) returns (u: Use)
    ensures u == Cumulative(g, n)
  {
    u := NO_USE;
    var rest := ParentEdges(g, n);
    while rest != {}
      invariant rest <= ParentEdges(g, n)
      invariant forall p :: p in u.perm <==> exists e :: e in ParentEdges(g, n) - rest && p in g[e].use.perm
      invariant forall p :: p in u.shared <==>
                            p in BLK_PERM_ALL && forall e :: e in ParentEdges(g, n) - rest ==> p in g[e].use.shared
    {
      Inhabited(rest);
      var c :| c in rest;
      rest := rest - {c};
      u := Use(u.perm + g[c].use.perm, u.shared * g[c].use.shared);
    }
    assert u.perm == Cumulative(g, n).perm;
    assert u.shared == Cumulative(g, n).shared;
  }

  /** Some user of node `n` needs what another one does not share. */
  predicate Conflict(g: Edges, n: Node) {
    exists a, b :: a in ParentEdges(g, n) && b in ParentEdges(g, n) && a != b && !(g[b].use.perm <= g[a].use.shared)
  }

  /** bdrv_parent_perms_conflict: look at every ordered pair of parents. */
  method ParentPermsConflict(g: Edges, n: Node) returns (conflict: bool)
    ensures conflict <==> Conflict(g, n)
  {
    var as_ := ParentEdges(g, n);
    while as_ != {}
      invariant as_ <= ParentEdges(g, n)
      invariant forall a, b :: a in ParentEdges(g, n) - as_ && b in ParentEdges(g, n) && a != b ==>
                                 g[b].use.perm <= g[a].use.shared
    {
      Inhabited(as_);
      var a :| a in as_;
      as_ := as_ - {a};
      var bs := ParentEdges(g, n);
      while bs != {}
        invariant bs <= ParentEdges(g, n)
        invariant forall b :: b in ParentEdges(g, n) - bs && a != b ==> g[b].use.perm <= g[a].use.shared
      {
        Inhabited(bs);
        var b :| b in bs;
        bs := bs - {b};
        if a == b {
          continue;
        }
        if !(g[b].use.perm * g[a].use.shared == g[b].use.perm) {
          assert !(g[b].use.perm <= g[a].use.shared);
          return true;
        }
      }
    }
    return false;
  }

  /** bdrv_child_perm: what node `n` needs from the child behind edge `x` when its own parents
      need `u`. */
  function ChildUse(cfg: Config, n: Node, x: Edge, u: Use): Use {
    var w := cfg.childPerm(n, x.role, u);
    if x.to.Some? && cfg.info(x.to.value).forceShare then w.(shared := BLK_PERM_ALL) else w
  }

  predicate Writes(u: Use) { Write in u.perm || WriteUnchanged in u.perm }

  predicate WriteOk(cfg: Config, n: Node, u: Use) {
    Writes(u) ==> cfg.info(n).writable
  }

  predicate AlignOk(cfg: Config, n: Node, u: Use) {
    Writes(u) && Resize !in u.perm ==> cfg.info(n).aligned
  }

  predicate CheckOk(cfg: Config, n: Node, u: Use) {
    cfg.info(n).hasDrv ==> cfg.checkPerm(n, u)
  }

  /** The children's edges of `n` carry exactly what `n` needs. */
  ghost predicate Exact(cfg: Config, g: Edges, n: Node) {
    cfg.info(n).hasDrv ==> forall e :: e in ChildEdges(g, n) ==> g[e].use == ChildUse(cfg, n, g[e], Cumulative(g, n))
  }

  /** The children's edges of `n` carry at least what `n` needs. */
  ghost predicate Covered(cfg: Config, g: Edges, n: Node) {
    cfg.info(n).hasDrv ==>
      forall e :: e in ChildEdges(g, n) ==> Weaker(ChildUse(cfg, n, g[e], Cumulative(g, n)), g[e].use)
  }

  /** The checks a refresh makes before it updates the children of `n`. */
  predicate NodePasses(cfg: Config, g: Edges, n: Node) {
    var u := Cumulative(g, n);
    !Conflict(g, n) && WriteOk(cfg, n, u) && AlignOk(cfg, n, u) && CheckOk(cfg, n, u)
  }

  /** What a refresh establishes for each node it visits. */
  ghost predicate Settled(cfg: Config, g: Edges, n: Node) {
    NodePasses(cfg, g, n) && Exact(cfg, g, n)
  }

  /** What holds of every node at all times. */
  ghost predicate SafeNode(cfg: Config, g: Edges, n: Node) {
    !Conflict(g, n) && WriteOk(cfg, n, Cumulative(g, n)) && Covered(cfg, g, n)
  }

  ghost predicate Safe(cfg: Config, g: Edges) {
    forall n :: SafeNode(cfg, g, n)
  }

  /** Needing less from above means needing less from below. */
  ghost predicate Monotone(cfg: Config) {
    forall n, role, u, v :: Weaker(u, v) ==> Weaker(cfg.childPerm(n, role, u), cfg.childPerm(n, role, v))
  }

  /** A configuration whose drivers all use bdrv_default_perms. */
  function DefaultConfig(info: Node -> NodeInfo, flags: Node -> Flags, checkPerm: (Node, Use) -> bool): Config {
    Config(info,
           (n: Node, role: set<Role>, u: Use) => if RoleOk(role) then DefaultPerms(flags(n), role, u) else u,
           checkPerm)
  }

  lemma DefaultConfigMonotone(info: Node -> NodeInfo, flags: Node -> Flags, checkPerm: (Node, Use) -> bool)
    ensures Monotone(DefaultConfig(info, flags, checkPerm))
  {
    var cfg := DefaultConfig(info, flags, checkPerm);
    forall n, role, u, v | Weaker(u, v) ensures Weaker(cfg.childPerm(n, role, u), cfg.childPerm(n, role, v)) {
      if RoleOk(role) { DefaultPermsMonotone(flags(n), role, u, v); }
    }
  }

  // ---------------------------------------------------------------- changing uses only

  /** The graph without its permissions. */
  ghost predicate SameShape(g: Edges, h: Edges) {
    g.Keys == h.Keys && forall e :: e in g ==> h[e] == g[e].(use := h[e].use)
  }

  lemma SameShapeLinks(g: Edges, h: Edges)
    requires SameShape(g, h)
    ensures forall a, b :: Link(g, a, b) <==> Link(h, a, b)
    ensures forall n :: ParentEdges(g, n) == ParentEdges(h, n) && ChildEdges(g, n) == ChildEdges(h, n)
    ensures forall list :: Sorted(g, list) <==> Sorted(h, list)
  {
    forall a, b ensures Link(g, a, b) <==> Link(h, a, b) {
      if Link(g, a, b) {
        var e :| e in g && g[e].parent == Some(a) && g[e].to == Some(b);
        assert e in h && h[e].parent == Some(a) && h[e].to == Some(b);
      }
      if Link(h, a, b) {
        var e :| e in h && h[e].parent == Some(a) && h[e].to == Some(b);
        assert e in g && g[e].parent == Some(a) && g[e].to == Some(b);
      }
    }
    forall n ensures ParentEdges(g, n) == ParentEdges(h, n) && ChildEdges(g, n) == ChildEdges(h, n) {
      assert forall e :: e in ParentEdges(g, n) <==> e in ParentEdges(h, n);
      assert forall e :: e in ChildEdges(g, n) <==> e in ChildEdges(h, n);
    }
    forall list ensures Sorted(g, list) <==> Sorted(h, list) {
      SortedBothWays(g, h, list);
      SortedBothWays(h, g, list);
    }
  }

  lemma SortedBothWays(g: Edges, h: Edges, list: seq<Node>)
    requires forall a, b :: Link(g, a, b) <==> Link(h, a, b)
    ensures Sorted(g, list) ==> Sorted(h, list)
  {
  }

  /** A node's parents, conflict and cumulative permissions depend on its incoming edges only. */
  lemma SameIncoming(g: Edges, h: Edges, n: Node)
    requires ParentEdges(g, n) == ParentEdges(h, n) && forall e :: e in ParentEdges(g, n) ==> g[e].use == h[e].use
    ensures Cumulative(g, n) == Cumulative(h, n) && (Conflict(g, n) <==> Conflict(h, n))
  {
    var u, v := Cumulative(g, n), Cumulative(h, n);
    forall p ensures p in u.perm <==> p in v.perm {
      if p in u.perm {
        var e :| e in g && IsParentOf(g[e], n) && p in g[e].use.perm;
        assert e in ParentEdges(h, n);
      }
      if p in v.perm {
        var e :| e in h && IsParentOf(h[e], n) && p in h[e].use.perm;
        assert e in ParentEdges(g, n);
      }
    }
    assert u.shared == v.shared;
  }

  /** The effect of bdrv_node_refresh_perm on the edges: the children's edges of `n` are brought
      up to date. */
  function AfterNode(cfg: Config, g: Edges, n: Node): Edges {
    if !cfg.info(n).hasDrv then g
    else map e | e in g :: if IsChildOf(g[e], n) then g[e].(use := ChildUse(cfg, n, g[e], Cumulative(g, n))) else g[e]
  }

  /** Bringing the children of `n` up to date disturbs no node that is not a child of `n`. */
  lemma AfterNodeFrame(cfg: Config, g: Edges, n: Node, m: Node)
    requires !Link(g, n, m)
    ensures Cumulative(AfterNode(cfg, g, n), m) == Cumulative(g, m)
    ensures (Conflict(AfterNode(cfg, g, n), m) <==> Conflict(g, m))
    ensures m != n ==> (Exact(cfg, g, m) ==> Exact(cfg, AfterNode(cfg, g, n), m))
  {
    var h := AfterNode(cfg, g, n);
    assert SameShape(g, h);
    SameShapeLinks(g, h);
    forall e | e in ParentEdges(g, m) ensures g[e].use == h[e].use {
      assert g[e].parent == Some(n) ==> Link(g, n, m);
    }
    SameIncoming(g, h, m);
    assert m != n ==> forall e :: e in ChildEdges(g, m) ==> h[e] == g[e];
  }

  /** The node itself is settled once its checks passed and its children are up to date. */
  lemma AfterNodeSettled(cfg: Config, g: Edges, n: Node)
    requires !Link(g, n, n) && NodePasses(cfg, g, n)
    ensures Settled(cfg, AfterNode(cfg, g, n), n)
  {
    var h := AfterNode(cfg, g, n);
    AfterNodeFrame(cfg, g, n, n);
    assert SameShape(g, h);
    SameShapeLinks(g, h);
  }

  // ---------------------------------------------------------------- one pass is enough

  predicate FromList(x: Edge, list: seq<Node>) { x.parent.Some? && x.parent.value in list }

  /** A refresh of the listed nodes sets the permissions of this edge. */
  predicate Touched(cfg: Config, x: Edge, list: seq<Node>) {
    FromList(x, list) && x.to.Some? && cfg.info(x.parent.value).hasDrv
  }

  /** `f` is `g` with permissions that settle every node of `list`, all others left alone. */
  ghost predicate Solution(cfg: Config, g: Edges, f: Edges, list: seq<Node>) {
    && SameShape(g, f)
    && (forall e :: e in g && !Touched(cfg, g[e], list) ==> f[e] == g[e])
    && (forall n :: n in list ==> Settled(cfg, f, n))
  }

  ghost predicate BelowRoots(g: Edges, roots: seq<Node>, n: Node) {
    exists r :: r in roots && Reach(g, r, n)
  }

  ghost predicate ListsBelow(g: Edges, roots: seq<Node>, list: seq<Node>) {
    Sorted(g, list) && forall m :: m in list <==> BelowRoots(g, roots, m)
  }

  /** The nodes reachable from the roots can all be settled. */
  ghost predicate Refreshable(cfg: Config, g: Edges, roots: seq<Node>) {
    exists f, list :: ListsBelow(g, roots, list) && Solution(cfg, g, f, list)
  }

  /** It does not matter in which order the nodes are listed. */
  lemma SolutionAnyOrder(cfg: Config, g: Edges, f: Edges, roots: seq<Node>, list: seq<Node>, list': seq<Node>)
    requires Solution(cfg, g, f, list) && ListsBelow(g, roots, list) && ListsBelow(g, roots, list')
    ensures Solution(cfg, g, f, list')
  {
    assert forall m :: m in list <==> m in list';
  }

  /** Where a pass over a sorted list stands: the first `i` nodes are settled, only edges below
      them have been touched, and the touched edges are what any solution would have there. */
  ghost predicate Halfway(cfg: Config, g: Edges, cur: Edges, list: seq<Node>, i: nat)
    requires i <= |list|
  {
    && SameShape(g, cur)
    && (forall e :: e in g && !Touched(cfg, g[e], list[..i]) ==> cur[e] == g[e])
    && (forall n :: n in list[..i] ==> Settled(cfg, cur, n))
    && (forall f :: Solution(cfg, g, f, list) ==> AgreeAbove(cur, f, list, i))
  }

  ghost predicate AgreeAbove(cur: Edges, f: Edges, list: seq<Node>, i: nat)
    requires i <= |list|
  {
    forall e :: e in cur && e in f && !FromList(cur[e], list[i..]) ==> cur[e] == f[e]
  }

  lemma SortedNotBack(g: Edges, list: seq<Node>, i: nat, j: nat)
    requires Sorted(g, list) && j < i < |list|
    ensures !Link(g, list[i], list[j])
  {
  }

  /** Bringing node number `i` of a sorted list up to date settles it and leaves the nodes in
      front of it settled. */
  lemma PassKeepsSettled(cfg: Config, g: Edges, before: Edges, list: seq<Node>, i: nat)
    requires i < |list| && Sorted(g, list) && Acyclic(g) && SameShape(g, before)
    requires forall n :: n in list[..i] ==> Settled(cfg, before, n)
    requires NodePasses(cfg, before, list[i])
    ensures SameShape(g, AfterNode(cfg, before, list[i]))
    ensures forall n :: n in list[..i + 1] ==> Settled(cfg, AfterNode(cfg, before, list[i]), n)
  {
    var n := list[i];
    SameShapeLinks(g, before);
    assert !Link(g, n, n) by { ReachSelf(g, n); }
    AfterNodeSettled(cfg, before, n);
    forall j | 0 <= j < i ensures Settled(cfg, AfterNode(cfg, before, n), list[j]) {
      SortedNotBack(g, list, i, j);
      assert list[j] in list[..i];
      AfterNodeFrame(cfg, before, n, list[j]);
    }
  }

  lemma ParentsInFront(g: Edges, list: seq<Node>, i: nat, p: Node)
    requires i < |list| && Sorted(g, list) && Acyclic(g) && Link(g, p, list[i])
    ensures p !in list[i..]
  {
    ReachSelf(g, p);
    var tail := list[i..];
    forall k | 0 <= k < |tail| ensures tail[k] != p {
      if k > 0 { SortedNotBack(g, list, i + k, i); }
    }
  }

  /** All incoming edges of node number `i` are final when its turn comes, so the node sees what
      it sees in any solution. */
  lemma SolutionSees(cfg: Config, g: Edges, cur: Edges, f: Edges, list: seq<Node>, i: nat)
    requires i < |list| && Sorted(g, list) && Acyclic(g) && SameShape(g, cur)
    requires Solution(cfg, g, f, list) && AgreeAbove(cur, f, list, i)
    ensures Cumulative(cur, list[i]) == Cumulative(f, list[i]) && (Conflict(cur, list[i]) <==> Conflict(f, list[i]))
  {
    var n := list[i];
    SameShapeLinks(g, cur);
    SameShapeLinks(g, f);
    forall e | e in ParentEdges(cur, n) ensures cur[e].use == f[e].use {
      assert cur[e].parent.Some? ==> Link(g, cur[e].parent.value, n);
      if cur[e].parent.Some? { ParentsInFront(g, list, i, cur[e].parent.value); }
    }
    SameIncoming(cur, f, n);
  }

  lemma SolutionStep(cfg: Config, g: Edges, cur: Edges, f: Edges, list: seq<Node>, i: nat)
    requires i < |list| && Sorted(g, list) && Acyclic(g) && Halfway(cfg, g, cur, list, i) && Solution(cfg, g, f, list)
    ensures AgreeAbove(AfterNode(cfg, cur, list[i]), f, list, i + 1)
  {
    var n := list[i];
    var next := AfterNode(cfg, cur, n);
    SolutionSees(cfg, g, cur, f, list, i);
    assert Settled(cfg, f, n);
    forall e | e in next && e in f && !FromList(next[e], list[i + 1..]) ensures next[e] == f[e] {
      if next[e].parent == Some(n) {
        assert cur[e] == g[e] by { NotEarlier(list, i); }
        if cfg.info(n).hasDrv && cur[e].to.Some? { assert e in ChildEdges(f, n); }
      } else {
        NotInFront(list, i, next[e]);
      }
    }
  }

  lemma NotEarlier(list: seq<Node>, i: nat)
    requires i < |list| && NoDuplicates(list)
    ensures list[i] !in list[..i]
  {
  }

  lemma NotInFront(list: seq<Node>, i: nat, x: Edge)
    requires i < |list| && x.parent != Some(list[i])
    ensures FromList(x, list[i..]) ==> FromList(x, list[i + 1..])
  {
    assert list[i..] == [list[i]] + list[i + 1..];
  }

  /** The step of the one-pass argument. */
  lemma HalfwayStep(cfg: Config, g: Edges, cur: Edges, list: seq<Node>, i: nat)
    requires i < |list| && Sorted(g, list) && Acyclic(g) && Halfway(cfg, g, cur, list, i)
    requires NodePasses(cfg, cur, list[i])
    ensures Halfway(cfg, g, AfterNode(cfg, cur, list[i]), list, i + 1)
  {
    PassKeepsSettled(cfg, g, cur, list, i);
    forall f | Solution(cfg, g, f, list) ensures AgreeAbove(AfterNode(cfg, cur, list[i]), f, list, i + 1) {
      SolutionStep(cfg, g, cur, f, list, i);
    }
    assert list[..i + 1] == list[..i] + [list[i]];
  }

  lemma SolutionPasses(cfg: Config, g: Edges, cur: Edges, f: Edges, list: seq<Node>, i: nat)
    requires i < |list| && Sorted(g, list) && Acyclic(g) && Halfway(cfg, g, cur, list, i) && Solution(cfg, g, f, list)
    ensures NodePasses(cfg, cur, list[i])
  {
    SolutionSees(cfg, g, cur, f, list, i);
    assert Settled(cfg, f, list[i]);
  }

  /** A node that fails its checks at its turn fails them in every assignment: there is no solution. */
  lemma NoSolution(cfg: Config, g: Edges, cur: Edges, list: seq<Node>, i: nat)
    requires i < |list| && Sorted(g, list) && Acyclic(g) && Halfway(cfg, g, cur, list, i)
    requires !NodePasses(cfg, cur, list[i])
    ensures forall f :: !Solution(cfg, g, f, list)
  {
    forall f | Solution(cfg, g, f, list) ensures false {
      SolutionPasses(cfg, g, cur, f, list, i);
    }
  }

  /** A finished pass is a solution and the only one. */
  lemma PassSolves(cfg: Config, g: Edges, cur: Edges, list: seq<Node>)
    requires Halfway(cfg, g, cur, list, |list|)
    ensures Solution(cfg, g, cur, list) && forall f :: Solution(cfg, g, f, list) ==> f == cur
  {
    assert list[..|list|] == list;
    forall f | Solution(cfg, g, f, list) ensures f == cur {
      assert AgreeAbove(cur, f, list, |list|);
      assert forall e :: e in cur ==> cur[e] == f[e];
    }
  }

  /** So there are never two of them. */
  lemma SolutionUnique(cfg: Config, g: Edges, f: Edges, f': Edges, list: seq<Node>)
    requires Sorted(g, list) && Acyclic(g) && Solution(cfg, g, f, list) && Solution(cfg, g, f', list)
    ensures f == f'
  {
    var cur := g;
    for i := 0 to |list|
      invariant Halfway(cfg, g, cur, list, i)
    {
      SolutionPasses(cfg, g, cur, f, list, i);
      HalfwayStep(cfg, g, cur, list, i);
      cur := AfterNode(cfg, cur, list[i]);
    }
    PassSolves(cfg, g, cur, list);
  }

  // ---------------------------------------------------------------- safety of the whole graph

  lemma SortedIncoming(g: Edges, list: seq<Node>, e: EdgeId, n: Node)
    requires Sorted(g, list) && e in ParentEdges(g, n)
    ensures g[e].parent.Some? && g[e].parent.value in list ==> n in list
  {
    if g[e].parent.Some? && g[e].parent.value in list {
      var i :| 0 <= i < |list| && list[i] == g[e].parent.value;
      assert Link(g, list[i], n);
    }
  }

  /** After a refresh of a downward-closed list the whole graph is safe exactly when the nodes that
      were not listed were safe before it. */
  lemma RefreshSafeExactly(cfg: Config, h: Edges, f: Edges, list: seq<Node>)
    requires Sorted(h, list) && Solution(cfg, h, f, list)
    ensures Safe(cfg, f) <==> forall n :: n !in list ==> SafeNode(cfg, h, n)
  {
    SameShapeLinks(h, f);
    forall n | n !in list ensures SafeNode(cfg, f, n) <==> SafeNode(cfg, h, n) {
      forall e | e in ParentEdges(h, n) ensures f[e].use == h[e].use {
        SortedIncoming(h, list, e, n);
      }
      SameIncoming(h, f, n);
      assert forall e :: e in ChildEdges(h, n) ==> f[e] == h[e];
    }
    forall n | n in list ensures SafeNode(cfg, f, n) { assert Settled(cfg, f, n); }
  }

  /** Fewer and weaker users make a node need less. */
  lemma CumulativeWeaker(g: Edges, h: Edges, n: Node)
    requires forall e :: e in ParentEdges(h, n) ==> e in ParentEdges(g, n) && Weaker(h[e].use, g[e].use)
    ensures Weaker(Cumulative(h, n), Cumulative(g, n))
    ensures !Conflict(g, n) ==> !Conflict(h, n)
  {
    var u, v := Cumulative(h, n), Cumulative(g, n);
    forall p | p in u.perm ensures p in v.perm {
      var e :| e in h && IsParentOf(h[e], n) && p in h[e].use.perm;
      assert e in ParentEdges(h, n);
    }
  }

  /** The children's edges of `n` in `h` carry at least what `n` needed in `g`. */
  ghost predicate StillCovered(cfg: Config, g: Edges, h: Edges, n: Node) {
    cfg.info(n).hasDrv ==>
      forall e :: e in ChildEdges(h, n) ==> Weaker(ChildUse(cfg, n, h[e], Cumulative(g, n)), h[e].use)
  }

  /** A safe node stays safe when it loses users or its users ask for less, as long as its own
      children's edges still carry what it needed. */
  lemma LooserNode(cfg: Config, g: Edges, h: Edges, n: Node)
    requires Monotone(cfg) && SafeNode(cfg, g, n) && StillCovered(cfg, g, h, n)
    requires forall e :: e in ParentEdges(h, n) ==> e in ParentEdges(g, n) && Weaker(h[e].use, g[e].use)
    ensures SafeNode(cfg, h, n)
  {
    CumulativeWeaker(g, h, n);
    if cfg.info(n).hasDrv {
      forall e | e in ChildEdges(h, n) ensures Weaker(ChildUse(cfg, n, h[e], Cumulative(h, n)), h[e].use) {
        assert Weaker(cfg.childPerm(n, h[e].role, Cumulative(h, n)), cfg.childPerm(n, h[e].role, Cumulative(g, n)));
        assert Weaker(ChildUse(cfg, n, h[e], Cumulative(g, n)), h[e].use);
        AllPerms(h[e].use.shared);
      }
    }
  }

  // ---------------------------------------------------------------- loosening

  /** Every edge of `h` is an edge of `g` that asks for no more. */
  ghost predicate Looser(h: Edges, g: Edges) {
    h.Keys <= g.Keys && forall e :: e in h ==> h[e] == g[e].(use := h[e].use) && Weaker(h[e].use, g[e].use)
  }

  ghost predicate Loosens(cfg: Config, h: Edges, g: Edges) {
    Monotone(cfg) && Safe(cfg, g) && Looser(h, g)
  }

  lemma LooserEverywhere(cfg: Config, g: Edges, h: Edges, n: Node)
    requires Safe(cfg, g) && Looser(h, g)
    ensures !Conflict(h, n) && Weaker(Cumulative(h, n), Cumulative(g, n)) && WriteOk(cfg, n, Cumulative(h, n))
  {
    assert SafeNode(cfg, g, n);
    CumulativeWeaker(g, h, n);
  }

  /** Refreshing a node of a looser graph leaves the graph looser. */
  lemma AfterNodeLooser(cfg: Config, g: Edges, h: Edges, n: Node)
    requires Monotone(cfg) && Safe(cfg, g) && Looser(h, g)
    ensures Looser(AfterNode(cfg, h, n), g)
  {
    LooserEverywhere(cfg, g, h, n);
    var f := AfterNode(cfg, h, n);
    assert SafeNode(cfg, g, n);
    forall e | e in f ensures f[e] == g[e].(use := f[e].use) && Weaker(f[e].use, g[e].use) {
      if cfg.info(n).hasDrv && IsChildOf(h[e], n) {
        assert e in ChildEdges(g, n);
        assert Weaker(cfg.childPerm(n, g[e].role, Cumulative(h, n)), cfg.childPerm(n, g[e].role, Cumulative(g, n)));
        assert Weaker(ChildUse(cfg, n, g[e], Cumulative(g, n)), g[e].use);
      }
    }
  }
}
