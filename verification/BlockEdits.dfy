/** What the graph operations of block.c do to a graph, as values: reference and log bookkeeping,
    the shapes of the edits, and which nodes an edit leaves safe. */
module BlockEdits {
  import opened Basics
  import opened BlockPerms
  import opened BlockGraph
  import opened BlockTopo
  import opened BlockRefresh
  import opened BlockTransaction

  // ---------------------------------------------------------------- reference counting

  /** References to `n` that log entries hold: the old targets of replaced edges. */
  function LogRefs(log: seq<Action>, n: Node): nat {
    if log == [] then 0
    else LogRefs(log[..|log| - 1], n) + EntryRefs(log[|log| - 1], n)
  }

  function EntryRefs(a: Action, n: Node): nat {
    if a.Replaced? && a.oldTo == Some(n) then 1 else 0
  }

  lemma LogRefsAppend(log: seq<Action>, a: Action, n: Node)
    ensures LogRefs(log + [a], n) == LogRefs(log, n) + EntryRefs(a, n)
  {
    assert (log + [a])[..|log + [a]| - 1] == log;
  }

  function InDegree(g: Edges, n: Node): nat { |ParentEdges(g, n)| }

  lemma ParentEdgesPut(g: Edges, e: EdgeId, x: Edge, n: Node)
    ensures ParentEdges(g[e := x], n) == if x.to == Some(n) then ParentEdges(g, n) + {e} else ParentEdges(g, n) - {e}
  {
  }

  /** How the in-degree of `n` changes when edge `e` is put. */
  lemma InDegreePut(g: Edges, e: EdgeId, x: Edge, n: Node)
    ensures InDegree(g[e := x], n) + Bit(e in g && g[e].to == Some(n)) == InDegree(g, n) + Bit(x.to == Some(n))
  {
    ParentEdgesPut(g, e, x, n);
    OneElement(ParentEdges(g, n), e);
  }

  lemma OneElement(s: set<EdgeId>, e: EdgeId)
    ensures |s + {e}| == |s| + Bit(e !in s) && |s - {e}| + Bit(e in s) == |s|
  {
    if e in s { assert s + {e} == s; } else { assert s - {e} == s; }
  }

  lemma InDegreeDropEmpty(g: Edges, e: EdgeId, n: Node)
    requires e in g ==> g[e].to == None
    ensures InDegree(g - {e}, n) == InDegree(g, n)
  {
    assert ParentEdges(g - {e}, n) == ParentEdges(g, n);
  }

  // ---------------------------------------------------------------- dropping emptied edges

  /** Edges that are freed on commit. */
  function RemovedEdges(log: seq<Action>): set<EdgeId> {
    set i | 0 <= i < |log| && log[i].Removed? :: log[i].e
  }

  lemma RemovedAppend(log: seq<Action>, a: Action)
    ensures RemovedEdges(log + [a]) == RemovedEdges(log) + (if a.Removed? then {a.e} else {})
  {
    var l := log + [a];
    forall e | e in RemovedEdges(log) + (if a.Removed? then {a.e} else {}) ensures e in RemovedEdges(l) {
      if e in RemovedEdges(log) {
        var i :| 0 <= i < |log| && log[i].Removed? && log[i].e == e;
        assert l[i] == log[i];
      } else {
        assert l[|log|] == a;
      }
    }
    forall e | e in RemovedEdges(l) ensures e in RemovedEdges(log) + (if a.Removed? then {a.e} else {}) {
      var i :| 0 <= i < |l| && l[i].Removed? && l[i].e == e;
      if i < |log| { assert log[i] == l[i]; }
    }
  }

  lemma DropEmptyEdges(cfg: Config, g: Edges, s: set<EdgeId>)
    requires forall e :: e in s && e in g ==> g[e].to == None
    ensures forall n :: ParentEdges(g - s, n) == ParentEdges(g, n) && ChildEdges(g - s, n) == ChildEdges(g, n)
    ensures forall a, b :: Link(g - s, a, b) <==> Link(g, a, b)
    ensures forall n :: Cumulative(g - s, n) == Cumulative(g, n)
    ensures forall n :: SafeNode(cfg, g, n) <==> SafeNode(cfg, g - s, n)
    ensures forall n :: Settled(cfg, g, n) ==> Settled(cfg, g - s, n)
  {
    var h := g - s;
    forall n ensures ParentEdges(h, n) == ParentEdges(g, n) && ChildEdges(h, n) == ChildEdges(g, n) {
      assert forall e :: e in ParentEdges(g, n) <==> e in ParentEdges(h, n);
      assert forall e :: e in ChildEdges(g, n) <==> e in ChildEdges(h, n);
    }
    forall n ensures Cumulative(h, n) == Cumulative(g, n) && (Conflict(h, n) <==> Conflict(g, n)) {
      SameIncoming(g, h, n);
    }
    forall a, b ensures Link(h, a, b) <==> Link(g, a, b) {
      if Link(g, a, b) {
        var e :| e in g && g[e].parent == Some(a) && g[e].to == Some(b);
        assert e in h;
      }
    }
  }

  /** The bookkeeping of one log entry. */
  lemma Appended(cfg: Config, g: Graph, h: Graph, log: seq<Action>, a: Action)
    requires Undo(cfg, h, a) == g && EntryOk(cfg, h, a)
    ensures UndoAll(cfg, h, log + [a]) == UndoAll(cfg, g, log)
    ensures Undoable(cfg, g, log) ==> Undoable(cfg, h, log + [a])
    ensures forall n :: LogRefs(log + [a], n) == LogRefs(log, n) + EntryRefs(a, n)
    ensures RemovedEdges(log + [a]) == RemovedEdges(log) + (if a.Removed? then {a.e} else {})
  {
    UndoLast(cfg, g, h, log, a);
    forall n { LogRefsAppend(log, a, n); }
    RemovedAppend(log, a);
  }

  lemma InsertRecorded(cfg: Config, g: Graph, e: EdgeId, x: Edge, log: seq<Action>)
    requires SlotsOk(cfg, g) && e !in g.edges && x.to.Some? && !x.frozen && SlotFree(cfg, g, x)
    ensures var h := Insert(cfg, g, e, x);
            && SlotsOk(cfg, h) && h.edges == g.edges[e := x] && h.slots == AttachSlot(cfg, g.slots, e, x)
            && UndoAll(cfg, h, log + [Attached(e)]) == UndoAll(cfg, g, log)
            && (Undoable(cfg, g, log) ==> Undoable(cfg, h, log + [Attached(e)]))
    ensures forall n :: LogRefs(log + [Attached(e)], n) == LogRefs(log, n)
    ensures RemovedEdges(log + [Attached(e)]) == RemovedEdges(log)
  {
    UndoInsert(cfg, g, e, x);
    InsertKeepsSlots(cfg, g, e, x);
    Appended(cfg, g, Insert(cfg, g, e, x), log, Attached(e));
  }

  lemma ReplaceRecorded(cfg: Config, g: Graph, e: EdgeId, to: Option<Node>, log: seq<Action>)
    requires SlotsOk(cfg, g) && CanReplace(cfg, g, e, to) && g.edges[e].to.Some?
    ensures var h, a := ReplaceChild(cfg, g, e, to), Replaced(e, g.edges[e].to);
            && SlotsOk(cfg, h) && h.edges == g.edges[e := g.edges[e].(to := to)]
            && UndoAll(cfg, h, log + [a]) == UndoAll(cfg, g, log)
            && (Undoable(cfg, g, log) ==> Undoable(cfg, h, log + [a]))
            && (forall n :: LogRefs(log + [a], n) == LogRefs(log, n) + EntryRefs(a, n))
            && RemovedEdges(log + [a]) == RemovedEdges(log)
  {
    UndoReplace(cfg, g, e, to);
    ReplaceChildKeepsSlots(cfg, g, e, to);
    Appended(cfg, g, ReplaceChild(cfg, g, e, to), log, Replaced(e, g.edges[e].to));
  }

  // ---------------------------------------------------------------- one pass over the nodes

  /** The edges while bdrv_node_refresh_perm is under way: those in `done` are up to date. */
  function SomeUpdated(cfg: Config, g: Edges, n: Node, u: Use, done: set<EdgeId>): (h: Edges)
    ensures done == ChildEdges(g, n) && u == Cumulative(g, n) && cfg.info(n).hasDrv ==> h == AfterNode(cfg, g, n)
  {
    map e | e in g :: if e in done then g[e].(use := ChildUse(cfg, n, g[e], u)) else g[e]
  }

  lemma OneMoreUpdated(cfg: Config, g: Edges, n: Node, u: Use, done: set<EdgeId>, c: EdgeId)
    requires c in g
    ensures var h := SomeUpdated(cfg, g, n, u, done);
            c !in done ==>
              && h[c] == g[c]
              && SomeUpdated(cfg, g, n, u, done + {c}) == h[c := h[c].(use := ChildUse(cfg, n, h[c], u))]
  {
  }

  lemma DropKeepsSane(cfg: Config, g: Graph, s: set<EdgeId>)
    requires SlotsOk(cfg, g) && Acyclic(g.edges) && forall e :: e in s && e in g.edges ==> g.edges[e].to == None
    ensures SlotsOk(cfg, g.(edges := g.edges - s)) && Acyclic(g.edges - s)
  {
    DropEmptyEdges(cfg, g.edges, s);
    SameLinksAcyclic(g.edges, g.edges - s);
  }

  /** `f` is `h` with all nodes below the roots settled. */
  ghost predicate SettledBelow(cfg: Config, h: Edges, f: Edges, roots: seq<Node>) {
    exists list :: ListsBelow(h, roots, list) && Solution(cfg, h, f, list)
  }

  ghost predicate SafeOutside(cfg: Config, g: Edges, roots: seq<Node>) {
    forall n :: SafeNode(cfg, g, n) || BelowRoots(g, roots, n)
  }

  /** Some node below the roots has an unaligned size or a driver that may refuse permissions. */
  ghost predicate Hindered(cfg: Config, g: Edges, roots: seq<Node>) {
    exists n :: BelowRoots(g, roots, n) && (!cfg.info(n).aligned || exists u :: !cfg.checkPerm(n, u))
  }

  // ---------------------------------------------------------------- shapes of the edits

  /** The edge that bdrv_attach_child_noperm makes. */
  function NewEdge(cfg: Config, g: Edges, parent: Node, child: Node, role: set<Role>): Edge {
    var x := Edge(Some(parent), Some(child), role, NO_USE, false, false);
    x.(use := ChildUse(cfg, parent, x, Cumulative(g, parent)))
  }

  ghost predicate MayAttach(cfg: Config, g: Edges, parent: Node, child: Node, role: set<Role>) {
    && !Reach(g, child, parent)
    && (cfg.info(child).inactive ==>
          cfg.info(parent).inactive && NewEdge(cfg, g, parent, child, role).use.perm <= {ConsistentRead})
  }

  lemma AttachKeepsAcyclic(g: Edges, e: EdgeId, x: Edge, parent: Node, child: Node)
    requires Acyclic(g) && e !in g && x.parent == Some(parent) && x.to == Some(child) && !Reach(g, child, parent)
    ensures Acyclic(g[e := x])
  {
    var h := g[e := x];
    forall a, b | Link(h, a, b) ensures Link(g, a, b) || (a == parent && b == child) {
      var d :| d in h && h[d].parent == Some(a) && h[d].to == Some(b);
      assert d != e ==> d in g && g[d] == h[d];
    }
    OneMoreKeepsAcyclic(g, h, parent, child);
  }

  lemma EmptyKeepsAcyclic(g: Edges, e: EdgeId)
    requires Acyclic(g) && e in g
    ensures Acyclic(g[e := g[e].(to := None)])
  {
    var h := g[e := g[e].(to := None)];
    forall a, b | Link(h, a, b) ensures Link(g, a, b) {
      var d :| d in h && h[d].parent == Some(a) && h[d].to == Some(b);
      assert g[d] == h[d];
    }
    SameLinksAcyclic(g, h);
  }

  /** Every movable edge to `from` now leads to `to`, everything else is as it was. */
  ghost function RedirectAll(g: Edges, from: Node, to: Node): Edges {
    map c | c in g :: if g[c].to == Some(from) && Movable(g, c, to) then g[c].(to := Some(to)) else g[c]
  }

  /** No edge that should move is frozen, and none has to stay behind unless that is allowed. */
  ghost predicate CanReplaceNode(g: Edges, from: Node, to: Node, autoSkip: bool) {
    forall c :: c in ParentEdges(g, from) ==> if Movable(g, c, to) then !g[c].frozen else autoSkip
  }

  /** RedirectAll while the edges in `rest` are still to be looked at. */
  ghost predicate RedirectedSome(g: Edges, h: Edges, from: Node, to: Node, rest: set<EdgeId>)
    requires g.Keys == h.Keys
  {
    forall c :: c in g ==>
                  h[c] == if g[c].to == Some(from) && c !in rest && Movable(g, c, to) then g[c].(to := Some(to))
                          else g[c]
  }

  /** And the edges that have been moved did not change whether the others can be. */
  ghost predicate Redirecting(g: Edges, h: Edges, from: Node, to: Node, rest: set<EdgeId>) {
    && rest <= ParentEdges(g, from) && g.Keys == h.Keys && RedirectedSome(g, h, from, to, rest)
    && forall c :: c in rest ==> (Movable(h, c, to) <==> Movable(g, c, to))
  }

  lemma RedirectedOne(g: Edges, h: Edges, from: Node, to: Node, rest: set<EdgeId>, c: EdgeId)
    requires Redirecting(g, h, from, to, rest) && c in rest && Movable(h, c, to) && Acyclic(h)
    ensures Acyclic(Redirect(h, c, to)) && Redirecting(g, Redirect(h, c, to), from, to, rest - {c})
  {
    RedirectKeepsAcyclic(h, c, to);
    forall d | d in rest - {c} { RedirectSameMovable(h, c, to, d); }
  }

  /** Moving the edges from `from` to `to` takes no sharing away that their parents, which are not
      refreshed, only had because `from` forces it. */
  ghost predicate SharingKept(cfg: Config, g: Edges, from: Node, to: Node) {
    cfg.info(from).forceShare && !cfg.info(to).forceShare ==>
      forall c :: c in ParentEdges(g, from) && Movable(g, c, to) ==> EnoughShared(cfg, g, g[c])
  }

  /** The edge shares no more than its parent allows by itself. */
  predicate EnoughShared(cfg: Config, g: Edges, x: Edge) {
    x.parent.Some? && cfg.info(x.parent.value).hasDrv ==>
      x.use.shared <= cfg.childPerm(x.parent.value, x.role, Cumulative(g, x.parent.value)).shared
  }

  lemma RedirectAllLinks(g: Edges, from: Node, to: Node)
    ensures forall a, b :: Link(RedirectAll(g, from, to), a, b) ==> Link(g, a, b) || b == to
  {
    var h := RedirectAll(g, from, to);
    forall a, b | Link(h, a, b) ensures Link(g, a, b) || b == to {
      var c :| c in h && h[c].parent == Some(a) && h[c].to == Some(b);
      assert c in g;
    }
  }

  /** A node other than the two keeps its users. */
  lemma RedirectAllIncoming(g: Edges, from: Node, to: Node, n: Node)
    requires n != from && n != to
    ensures var h := RedirectAll(g, from, to);
            && ParentEdges(h, n) == ParentEdges(g, n) && ChildEdges(h, n) == ChildEdges(g, n)
            && Cumulative(h, n) == Cumulative(g, n)
  {
    var h := RedirectAll(g, from, to);
    forall e ensures e in ParentEdges(g, n) <==> e in ParentEdges(h, n) { }
    forall e ensures e in ChildEdges(g, n) <==> e in ChildEdges(h, n) { }
    SameIncoming(g, h, n);
  }

  /** The parent of a moved edge lies outside both subtrees, so no refresh reaches it. */
  lemma MovedParentOutside(g: Edges, from: Node, to: Node, c: EdgeId, n: Node)
    requires Acyclic(g) && c in ParentEdges(g, from) && Movable(g, c, to) && g[c].parent == Some(n)
    ensures n != from && n != to
    ensures !Reach(RedirectAll(g, from, to), from, n) && !Reach(RedirectAll(g, from, to), to, n)
  {
    var h := RedirectAll(g, from, to);
    assert Link(g, n, from) && c in ChildEdges(g, n);
    ReachSelf(g, from);
    ReachSelf(g, to);
    RedirectAllLinks(g, from, to);
    if Reach(h, from, n) { ReachNewLinksTo(g, h, to, from, n); }
    if Reach(h, to, n) { ReachNewLinksTo(g, h, to, to, n); }
  }

  lemma RedirectSafe(cfg: Config, g: Edges, from: Node, to: Node, n: Node)
    requires Monotone(cfg) && SafeNode(cfg, g, n) && n != from && n != to && SharingKept(cfg, g, from, to)
    ensures SafeNode(cfg, RedirectAll(g, from, to), n)
  {
    var h := RedirectAll(g, from, to);
    RedirectAllIncoming(g, from, to, n);
    if cfg.info(n).hasDrv {
      forall e | e in ChildEdges(h, n) ensures Weaker(ChildUse(cfg, n, h[e], Cumulative(g, n)), h[e].use) {
        assert Weaker(ChildUse(cfg, n, g[e], Cumulative(g, n)), g[e].use);
        AllPerms(g[e].use.shared);
      }
    }
    LooserNode(cfg, g, h, n);
  }

  lemma RedirectUnsafe(cfg: Config, g: Edges, from: Node, to: Node, c: EdgeId)
    requires Acyclic(g) && c in ParentEdges(g, from) && Movable(g, c, to)
    requires cfg.info(from).forceShare && !cfg.info(to).forceShare
    requires SafeOutside(cfg, RedirectAll(g, from, to), [from, to])
    ensures EnoughShared(cfg, g, g[c])
  {
    if g[c].parent.Some? && cfg.info(g[c].parent.value).hasDrv {
      var h, n := RedirectAll(g, from, to), g[c].parent.value;
      MovedParentOutside(g, from, to, c, n);
      RedirectAllIncoming(g, from, to, n);
      assert SafeNode(cfg, h, n) && c in ChildEdges(h, n);
    }
  }

  /** Replacing a node keeps the rest of the graph safe if and only if no forced sharing is lost. */
  lemma RedirectSafeExactly(cfg: Config, g: Edges, from: Node, to: Node)
    requires Monotone(cfg) && Acyclic(g) && forall n :: n != from && n != to ==> SafeNode(cfg, g, n)
    ensures SafeOutside(cfg, RedirectAll(g, from, to), [from, to]) <==> SharingKept(cfg, g, from, to)
  {
    var h := RedirectAll(g, from, to);
    if SharingKept(cfg, g, from, to) {
      forall n ensures SafeNode(cfg, h, n) || BelowRoots(h, [from, to], n) {
        if n == from || n == to {
          ReachSelf(h, n);
          assert n in [from, to];
        } else {
          RedirectSafe(cfg, g, from, to, n);
        }
      }
    }
    if SafeOutside(cfg, h, [from, to]) && cfg.info(from).forceShare && !cfg.info(to).forceShare {
      forall c | c in ParentEdges(g, from) && Movable(g, c, to) ensures EnoughShared(cfg, g, g[c]) {
        RedirectUnsafe(cfg, g, from, to, c);
      }
    }
  }

  lemma RedirectedAll(g: Edges, h: Edges, from: Node, to: Node)
    requires g.Keys == h.Keys && RedirectedSome(g, h, from, to, {})
    ensures h == RedirectAll(g, from, to)
  {
    var r := RedirectAll(g, from, to);
    assert forall c :: c in g ==> r[c] == h[c];
  }

  /** Nodes that the new edge and its subtree do not concern stay safe. */
  lemma AttachSafe(cfg: Config, g: Edges, h: Edges, e: EdgeId, parent: Node, child: Node)
    requires Safe(cfg, g) && e !in g && e in h && h == g[e := h[e]] && h[e].parent == Some(parent)
    requires h[e].to == Some(child)
    ensures SafeOutside(cfg, h, [parent])
  {
    ReachSelf(h, parent);
    assert Link(h, parent, child);
    ReachRight(h, parent, parent, child);
    assert parent in [parent];
    forall n | n != parent && n != child ensures SafeNode(cfg, h, n) {
      assert SafeNode(cfg, g, n);
      SameNode(cfg, g, h, n);
    }
  }

  /** A user that is not a node concerns the subtree it points to only. */
  lemma RootAttachSafe(cfg: Config, g: Edges, h: Edges, e: EdgeId, child: Node)
    requires Safe(cfg, g) && e in h && h == g[e := h[e]] && h[e].parent == None && h[e].to == Some(child)
    requires e in g ==> g[e].parent == None && g[e].to == Some(child)
    ensures SafeOutside(cfg, h, [child])
  {
    ReachSelf(h, child);
    assert child in [child];
    forall n | n != child ensures SafeNode(cfg, h, n) {
      assert SafeNode(cfg, g, n);
      SameNode(cfg, g, h, n);
    }
  }

  lemma RootEdgeKeepsAcyclic(g: Edges, e: EdgeId, x: Edge)
    requires Acyclic(g) && x.parent == None
    ensures Acyclic(g[e := x])
  {
    var h := g[e := x];
    forall a, b | Link(h, a, b) ensures Link(g, a, b) {
      var d :| d in h && h[d].parent == Some(a) && h[d].to == Some(b);
      assert d in g && g[d] == h[d];
    }
    SameLinksAcyclic(g, h);
  }

  lemma OneRoot(cfg: Config, h: Edges, a: Node, b: Node)
    requires Reach(h, b, a)
    ensures SafeOutside(cfg, h, [a, b]) <==> SafeOutside(cfg, h, [b])
  {
    forall n ensures BelowRoots(h, [a, b], n) <==> BelowRoots(h, [b], n) { OneRootBelow(h, a, b, n); }
  }

  lemma OneRootBelow(h: Edges, a: Node, b: Node, n: Node)
    requires Reach(h, b, a)
    ensures BelowRoots(h, [a, b], n) <==> BelowRoots(h, [b], n)
  {
    if Reach(h, a, n) { ReachTrans(h, b, a, n); }
    assert b in [b] && b in [a, b];
  }

  /** The edge, if it belongs to a node, still carries what that node needs. */
  ghost predicate UseCovers(cfg: Config, g: Edges, c: EdgeId, use: Use)
    requires c in g && g[c].to.Some?
  {
    g[c].parent.Some? && cfg.info(g[c].parent.value).hasDrv ==>
      Weaker(ChildUse(cfg, g[c].parent.value, g[c], Cumulative(g, g[c].parent.value)), use)
  }

  lemma SetPermSafeExactly(cfg: Config, g: Edges, c: EdgeId, use: Use)
    requires Acyclic(g) && Safe(cfg, g) && c in g && g[c].to.Some?
    ensures SafeOutside(cfg, g[c := g[c].(use := use)], [g[c].to.value]) <==> UseCovers(cfg, g, c, use)
  {
    var h, to := g[c := g[c].(use := use)], g[c].to.value;
    SameShapeLinks(g, h);
    ReachSelf(h, to);
    assert to in [to];
    forall n | n != to ensures SafeNode(cfg, h, n) <==> (g[c].parent == Some(n) ==> UseCovers(cfg, g, c, use)) {
      assert SafeNode(cfg, g, n);
      SameIncoming(g, h, n);
      assert g[c].parent == Some(n) ==> c in ChildEdges(h, n);
    }
    if g[c].parent.Some? {
      var p := g[c].parent.value;
      assert Link(g, p, to);
      SameLinksAcyclic(g, h);
      assert !Reach(h, to, p);
      ReachSelf(g, p);
    }
  }

  lemma SetPermLooser(g: Edges, c: EdgeId, use: Use)
    requires c in g && Weaker(use, g[c].use)
    ensures Looser(g[c := g[c].(use := use)], g)
  {
  }

  lemma NothingLeft(a: Perms, b: Perms)
    ensures a - b == {} <==> a <= b
  {
    if a - b == {} {
      forall p | p in a ensures p in b { assert p !in a - b; }
    }
  }

  /** Taking an edge away leaves every node safe. */
  lemma RemoveSafe(cfg: Config, g: Edges, c: EdgeId)
    requires Monotone(cfg) && Safe(cfg, g)
    ensures Safe(cfg, g - {c}) && Looser(g - {c}, g)
  {
    var h := g - {c};
    forall n ensures SafeNode(cfg, h, n) {
      assert SafeNode(cfg, g, n);
      LooserNode(cfg, g, h, n);
    }
  }

  // ---------------------------------------------------------------- the file or backing link

  function WantedKey(parent: Node, isBacking: bool): Key { (parent, if isBacking then BackingSlot else FileSlot) }

  /** The link that is there already. */
  function OldLink(g: Graph, parent: Node, isBacking: bool): Option<EdgeId> {
    var k := WantedKey(parent, isBacking);
    if k in g.slots then Some(g.slots[k]) else None
  }

  /** The role of the new link, if it may be set: the checks of bdrv_set_file_or_backing_noperm. */
  function LinkRole(cfg: Config, g: Graph, parent: Node, isBacking: bool): Option<set<Role>> {
    var info := cfg.info(parent);
    var link := OldLink(g, parent, isBacking);
    if !info.hasDrv || (link.Some? && link.value in g.edges && g.edges[link.value].frozen) then None
    else if isBacking && !info.isFilter && !info.supportsBacking then None
    else if info.isFilter then Some({Filtered, Primary})
    else if isBacking then Some({Cow})
    else if link.Some? && link.value in g.edges then Some(g.edges[link.value].role)
    else None
  }

  /** The edges once the old link is emptied. */
  function Unlinked(g: Graph, parent: Node, isBacking: bool): Edges {
    var link := OldLink(g, parent, isBacking);
    if link.Some? && link.value in g.edges then g.edges[link.value := g.edges[link.value].(to := None)] else g.edges
  }

  /** The edges once the new link is there too. */
  function Linked(cfg: Config, g: Graph, parent: Node, child: Option<Node>, isBacking: bool, e: EdgeId): Edges {
    var g1 := Unlinked(g, parent, isBacking);
    var role := LinkRole(cfg, g, parent, isBacking);
    if child.Some? && role.Some? then g1[e := NewEdge(cfg, g1, parent, child.value, role.value)] else g1
  }

  ghost predicate MayLink(cfg: Config, g: Graph, parent: Node, child: Option<Node>, isBacking: bool) {
    var role := LinkRole(cfg, g, parent, isBacking);
    && role.Some?
    && (child.Some? ==> MayAttach(cfg, Unlinked(g, parent, isBacking), parent, child.value, role.value))
  }

  function LinkSet(g: Graph, parent: Node, isBacking: bool): set<EdgeId> {
    var link := OldLink(g, parent, isBacking);
    if link.Some? then {link.value} else {}
  }

  /** The slot asked for is the one the parent's driver uses; only a filter may use the other one. */
  predicate Usual(cfg: Config, parent: Node, isBacking: bool) {
    cfg.info(parent).isFilter ==> isBacking == cfg.info(parent).filteredIsBacking
  }

  /** What the slot that was asked for holds afterwards. */
  function NewLink(cfg: Config, parent: Node, child: Option<Node>, isBacking: bool, e: EdgeId): Option<EdgeId> {
    if child.Some? && Usual(cfg, parent, isBacking) then Some(e) else None
  }

  /** What the attach callback asserts: a filter's child goes into a slot that is, or will be, empty. */
  predicate LinkFree(cfg: Config, g: Graph, parent: Node, isBacking: bool) {
    Usual(cfg, parent, isBacking) || WantedKey(parent, !isBacking) !in g.slots
  }

  /** The role that is chosen puts the new link into the slot that was asked for, which is where the
      old link is taken from, unless a filter keeps its child in the other slot. */
  lemma LinkFits(cfg: Config, g: Graph, parent: Node, isBacking: bool)
    requires SlotsOk(cfg, g) && LinkRole(cfg, g, parent, isBacking).Some?
    ensures (parent, SlotOf(cfg, parent, LinkRole(cfg, g, parent, isBacking).value))
         == WantedKey(parent, if Usual(cfg, parent, isBacking) then isBacking else !isBacking)
  {
  }

  lemma SlotEmptied(cfg: Config, g: Graph, h: Graph, link: EdgeId, k: Key)
    requires SlotsOk(cfg, g) && SlotsOk(cfg, h) && k in g.slots && g.slots[k] == link
    requires h.edges == g.edges[link := g.edges[link].(to := None)]
    ensures k !in h.slots
  {
    forall d | d in h.edges && h.edges[d].to.Some? ensures KeyOf(cfg, h.edges[d]) != Some(k) {
      assert h.edges[d] == g.edges[d];
    }
  }

  predicate SameOrEmptied(x: Edge, y: Edge, parent: Node) {
    y == x || (x.parent == Some(parent) && y == x.(to := None))
  }

  lemma LinkedEdges(cfg: Config, gr: Graph, parent: Node, child: Option<Node>, isBacking: bool, e: EdgeId)
    requires SlotsOk(cfg, gr) && e !in gr.edges
    ensures var g, h := gr.edges, Linked(cfg, gr, parent, child, isBacking, e);
            && (forall d :: d in g ==> d in h && SameOrEmptied(g[d], h[d], parent))
            && (forall d :: d in h && d !in g ==> h[d].parent == Some(parent))
  {
  }

  /** The old link's subtree is not refreshed; it only loses a user. */
  lemma SetLinkSafe(cfg: Config, gr: Graph, parent: Node, child: Option<Node>, isBacking: bool, e: EdgeId)
    requires Monotone(cfg) && Safe(cfg, gr.edges) && SlotsOk(cfg, gr) && e !in gr.edges
    ensures SafeOutside(cfg, Linked(cfg, gr, parent, child, isBacking, e), [parent])
  {
    var g, h := gr.edges, Linked(cfg, gr, parent, child, isBacking, e);
    LinkedEdges(cfg, gr, parent, child, isBacking, e);
    ReachSelf(h, parent);
    assert parent in [parent];
    forall n | !BelowRoots(h, [parent], n) ensures SafeNode(cfg, h, n) {
      assert SafeNode(cfg, g, n);
      if Link(h, parent, n) { ReachRight(h, parent, parent, n); }
      LosesUsers(cfg, g, h, parent, n);
    }
  }

  lemma LosesUsers(cfg: Config, g: Edges, h: Edges, parent: Node, n: Node)
    requires Monotone(cfg) && SafeNode(cfg, g, n) && n != parent && !Link(h, parent, n)
    requires forall d :: d in g ==> d in h && SameOrEmptied(g[d], h[d], parent)
    requires forall d :: d in h && d !in g ==> h[d].parent == Some(parent)
    ensures SafeNode(cfg, h, n)
  {
    forall d | d in ParentEdges(h, n) ensures d in ParentEdges(g, n) && h[d] == g[d] {
      assert h[d].parent != Some(parent);
    }
    assert forall d :: d in ChildEdges(h, n) ==> d in ChildEdges(g, n) && h[d] == g[d];
    LooserNode(cfg, g, h, n);
  }

  /** bdrv_backing_role */
  function BackingRole(cfg: Config, n: Node): set<Role> {
    if cfg.info(n).hasDrv && cfg.info(n).isFilter then {Filtered, Primary} else {Cow}
  }

  lemma AppendApart(g: Edges, e: EdgeId, bsNew: Node, top: Node)
    requires Acyclic(g) && e in g && g[e].parent == Some(bsNew) && g[e].to == Some(top)
    ensures bsNew != top && !Movable(g, e, bsNew)
  {
    assert Link(g, bsNew, top);
    ReachSelf(g, bsNew);
    assert e in ChildEdges(g, bsNew);
  }

  /** The new edge itself stays, so everything lies below the new node. */
  lemma AppendStays(g: Edges, e: EdgeId, bsNew: Node, top: Node)
    requires e in g && g[e].parent == Some(bsNew) && g[e].to == Some(top) && !Movable(g, e, bsNew)
    ensures RedirectAll(g, top, bsNew)[e] == g[e] && Reach(RedirectAll(g, top, bsNew), bsNew, top)
  {
    var h := RedirectAll(g, top, bsNew);
    assert h[e] == g[e];
    assert Link(h, bsNew, top);
    ReachSelf(h, bsNew);
    ReachRight(h, bsNew, bsNew, top);
  }

  lemma AppendSafeExactly(cfg: Config, g0: Edges, g: Edges, e: EdgeId, bsNew: Node, top: Node)
    requires Monotone(cfg) && Safe(cfg, g0) && Acyclic(g)
    requires e !in g0 && e in g && g == g0[e := g[e]] && g[e].parent == Some(bsNew) && g[e].to == Some(top)
    ensures SafeOutside(cfg, RedirectAll(g, top, bsNew), [bsNew]) <==> SharingKept(cfg, g, top, bsNew)
  {
    AppendApart(g, e, bsNew, top);
    AppendStays(g, e, bsNew, top);
    forall n | n != bsNew && n != top ensures SafeNode(cfg, g, n) {
      assert SafeNode(cfg, g0, n);
      SameNode(cfg, g0, g, n);
    }
    RedirectSafeExactly(cfg, g, top, bsNew);
    OneRoot(cfg, RedirectAll(g, top, bsNew), top, bsNew);
  }

  /** Safety of a node only depends on its own edges. */
  lemma SameNode(cfg: Config, g: Edges, h: Edges, n: Node)
    requires forall e :: e in g && (IsParentOf(g[e], n) || IsChildOf(g[e], n)) ==> e in h && h[e] == g[e]
    requires forall e :: e in h && (IsParentOf(h[e], n) || IsChildOf(h[e], n)) ==> e in g && h[e] == g[e]
    ensures SafeNode(cfg, g, n) <==> SafeNode(cfg, h, n)
  {
    forall e ensures e in ParentEdges(g, n) <==> e in ParentEdges(h, n) { }
    forall e ensures e in ChildEdges(g, n) <==> e in ChildEdges(h, n) { }
    SameIncoming(g, h, n);
  }

  /** Permissions alone decide neither the slots nor acyclicity. */
  lemma SameShapeSane(cfg: Config, g: Graph, h: Graph)
    requires SlotsOk(cfg, g) && Acyclic(g.edges) && SameShape(g.edges, h.edges) && g.slots == h.slots
    ensures SlotsOk(cfg, h) && Acyclic(h.edges)
  {
    SameShapeLinks(g.edges, h.edges);
    SameLinksAcyclic(g.edges, h.edges);
    assert forall e :: e in g.edges ==>
                         KeyOf(cfg, h.edges[e]) == KeyOf(cfg, g.edges[e]) && h.edges[e].to == g.edges[e].to;
    forall k | k in h.slots
      ensures h.slots[k] in h.edges && h.edges[h.slots[k]].to.Some? && KeyOf(cfg, h.edges[h.slots[k]]) == Some(k)
    {
      assert g.slots[k] in g.edges;
    }
  }

  // ---------------------------------------------------------------- who owns the edges

  /** Every edge but those in `made` was there before and belongs to the same parent. */
  ghost predicate SameParents(before: Edges, after: Edges, made: set<EdgeId>) {
    forall d :: d in after ==> d in made || (d in before && after[d].parent == before[d].parent)
  }

  /** These edges belong to users that are not nodes. */
  ghost predicate RootsOk(g: Edges, roots: set<EdgeId>) {
    forall c :: c in roots && c in g ==> g[c].parent == None
  }

  ghost predicate NoneForces(cfg: Config) { forall n :: !cfg.info(n).forceShare }

  lemma SettledParents(cfg: Config, h: Edges, f: Edges, roots: seq<Node>)
    requires SettledBelow(cfg, h, f, roots)
    ensures SameParents(h, f, {})
  {
  }

  lemma LinkedParents(cfg: Config, g: Graph, parent: Node, child: Option<Node>, isBacking: bool, e: EdgeId)
    ensures SameParents(g.edges, Linked(cfg, g, parent, child, isBacking, e), {e})
  {
  }
}
