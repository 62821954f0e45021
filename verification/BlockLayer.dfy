/** The block layer's graph operations on a mutable graph with a transaction log: permission
    refresh, attaching, replacing, appending, setting a backing file, and rolling back.  block.c
    and util/transactions.c. */
module BlockLayer {
  import opened Basics
  import opened BlockPerms
  import opened BlockGraph
  import opened BlockTopo
  import opened BlockRefresh
  import opened BlockTransaction
  import opened BlockInherits
  import opened BlockEdits
  import opened BlockExact
  import opened BlockOps

  /** How a permission refresh ends: bdrv_do_refresh_perms. */
  datatype Outcome = Done | Conflicting | ReadOnly | Unaligned | Refused

  class BlockLayer {
    const cfg: Config
    var edges: Edges
    var slots: map<Key, EdgeId>
    var inherits: map<Node, Node>
    var refcnt: map<Node, int>
    var pending: multiset<Node>
    var log: seq<Action>

    constructor (cfg: Config)
      ensures this.cfg == cfg && G() == Graph(map[], map[], map[]) && log == [] && pending == multiset{}
      ensures refcnt == map[]
      ensures Monotone(cfg) ==> Valid() && forall n :: Outside(n) == 0
    {
      this.cfg := cfg;
      edges, slots, inherits, refcnt, pending, log := map[], map[], map[], map[], multiset{}, [];
      new;
      assert forall n :: ParentEdges(edges, n) == {} && ChildEdges(edges, n) == {};
      assert forall a, b :: !Link(edges, a, b);
    }

    function G(): Graph
      reads this
    {
      Graph(edges, slots, inherits)
    }

    /** What aborting the current transaction would restore. */
    function Base(): Graph
      reads this
    {
      UndoAll(cfg, G(), log)
    }

    function Ref(n: Node): int
      reads this
    {
      if n in refcnt then refcnt[n] else 0
    }

    /** The references to `n` that nobody in the graph, the log or the pending unrefs accounts for:
        those of outside holders. */
    function Outside(n: Node): int
      reads this
    {
      Ref(n) - InDegree(edges, n) - LogRefs(log, n) - pending[n]
    }

    ghost predicate Sane()
      reads this
    {
      SlotsOk(cfg, G()) && Acyclic(edges) && Undoable(cfg, G(), log)
    }

    /** No transaction is under way. */
    ghost predicate Between()
      reads this
    {
      Sane() && log == []
    }

    /** What holds between operations. */
    ghost predicate Valid()
      reads this
    {
      Between() && Monotone(cfg) && Safe(cfg, edges)
    }

    /** Aborting leads to a sane graph. */
    ghost predicate GoodBase()
      reads this
    {
      SlotsOk(cfg, Base()) && Acyclic(Base().edges)
    }

    /** What every step of a transaction keeps: where an abort leads to, the outside references
        and the edges that a commit will free. */
    twostate predicate Books()
      reads this
    {
      && Base() == old(Base()) && (old(Undoable(cfg, G(), log)) ==> Undoable(cfg, G(), log))
      && (forall n :: Outside(n) == old(Outside(n)))
      && RemovedEdges(log) == old(RemovedEdges(log))
    }

    // -------------------------------------------------------------- permission refresh

    /** bdrv_child_set_perm */
    method SetPermTran(e: EdgeId, use: Use)
      requires e in edges
      modifies this`edges, this`log
      ensures edges == old(edges)[e := old(edges)[e].(use := use)]
      ensures Books()
    {
      var a := SetPerm(e, edges[e].use);
      UndoSetPerm(cfg, G(), e, use);
      Appended(cfg, G(), G().(edges := edges[e := edges[e].(use := use)]), log, a);
      forall n { InDegreePut(edges, e, edges[e].(use := use), n); }
      edges := edges[e := edges[e].(use := use)];
      log := log + [a];
    }

    /** The log entry of bdrv_drv_set_perm. */
    method LogDriver(n: Node)
      modifies this`log
      ensures Books()
    {
      Appended(cfg, G(), G(), log, DrvSetPerm(n));
      log := log + [DrvSetPerm(n)];
    }

    /** bdrv_node_refresh_perm */
    method NodeRefreshPerm(n: Node) returns (ret: Outcome)
      modifies this`edges, this`log
      ensures Books()
      ensures var u := Cumulative(old(edges), n);
              ret == if !WriteOk(cfg, n, u) then ReadOnly else if !AlignOk(cfg, n, u) then Unaligned
                     else if !CheckOk(cfg, n, u) then Refused else Done
      ensures edges == if ret == Done then AfterNode(cfg, old(edges), n) else old(edges)
    {
      var u := GetCumulativePerm(edges, n);
      if Writes(u) && !cfg.info(n).writable {
        return ReadOnly;
      }
      if Writes(u) && Resize !in u.perm && !cfg.info(n).aligned {
        return Unaligned;
      }
      if !cfg.info(n).hasDrv {
        return Done;
      }
      if !cfg.checkPerm(n, u) {
        return Refused;
      }
      LogDriver(n);
      var rest := ChildEdges(edges, n);
      while rest != {}
        invariant rest <= ChildEdges(old(edges), n)
        invariant edges == SomeUpdated(cfg, old(edges), n, u, ChildEdges(old(edges), n) - rest)
        invariant Books()
      {
        Inhabited(rest);
        var c :| c in rest;
        OneMoreUpdated(cfg, old(edges), n, u, ChildEdges(old(edges), n) - rest, c);
        assert ChildEdges(old(edges), n) - rest + {c} == ChildEdges(old(edges), n) - (rest - {c});
        rest := rest - {c};
        SetPermTran(c, ChildUse(cfg, n, edges[c], u));
      }
      assert ChildEdges(old(edges), n) - {} == ChildEdges(old(edges), n);
      return Done;
    }

    /** One turn of the loop of bdrv_do_refresh_perms. */
    method VisitNode(n: Node, ghost base: Edges) returns (ret: Outcome)
      modifies this`edges, this`log
      ensures Books()
      ensures ret == Done <==> NodePasses(cfg, old(edges), n)
      ensures edges == if ret == Done then AfterNode(cfg, old(edges), n) else old(edges)
      ensures Loosens(cfg, old(edges), base) ==> ret != Conflicting && ret != ReadOnly && Loosens(cfg, edges, base)
      ensures ret == Unaligned ==> !cfg.info(n).aligned
      ensures ret == Refused ==> exists u :: !cfg.checkPerm(n, u)
    {
      if Loosens(cfg, edges, base) {
        LooserEverywhere(cfg, base, edges, n);
        AfterNodeLooser(cfg, base, edges, n);
      }
      var conflict := ParentPermsConflict(edges, n);
      if conflict {
        return Conflicting;
      }
      ret := NodeRefreshPerm(n);
    }

    /** bdrv_do_refresh_perms over a sorted list: one pass finds the only permissions that settle
        the listed nodes, and fails exactly when there are none.  `base` is any safe graph that the
        current one only loosens. */
    method DoRefreshPerms(list: seq<Node>, ghost base: Edges) returns (ret: Outcome)
      requires Acyclic(edges) && Sorted(edges, list)
      modifies this`edges, this`log
      ensures Books() && SameShape(old(edges), edges)
      ensures ret == Done ==> Solution(cfg, old(edges), edges, list)
      ensures forall f :: Solution(cfg, old(edges), f, list) ==> ret == Done && edges == f
      ensures Loosens(cfg, old(edges), base) ==> ret != Conflicting && ret != ReadOnly && Loosens(cfg, edges, base)
      ensures ret == Unaligned ==> exists n :: n in list && !cfg.info(n).aligned
      ensures ret == Refused ==> exists n, u :: n in list && !cfg.checkPerm(n, u)
    {
      ghost var loose := Loosens(cfg, edges, base);
      var i := 0;
      while i < |list|
        invariant 0 <= i <= |list|
        invariant Books()
        invariant Halfway(cfg, old(edges), edges, list, i)
        invariant loose ==> Loosens(cfg, edges, base)
      {
        ghost var before := edges;
        ret := VisitNode(list[i], base);
        if ret != Done {
          NoSolution(cfg, old(edges), before, list, i);
          return;
        }
        HalfwayStep(cfg, old(edges), before, list, i);
        i := i + 1;
      }
      PassSolves(cfg, old(edges), edges, list);
      return Done;
    }

    /** bdrv_refresh_perms and bdrv_list_refresh_perms, without their own transaction. */
    method RefreshPerms(roots: seq<Node>, ghost base: Edges) returns (ret: Outcome, ghost list: seq<Node>)
      requires Sane()
      modifies this`edges, this`log
      ensures Books() && Sane() && SameShape(old(edges), edges) && ListsBelow(old(edges), roots, list)
      ensures ret == Done <==> Refreshable(cfg, old(edges), roots)
      ensures ret == Done ==> Solution(cfg, old(edges), edges, list)
      ensures ret == Done ==> (Safe(cfg, edges) <==> SafeOutside(cfg, old(edges), roots))
      ensures Loosens(cfg, old(edges), base) ==> ret != Conflicting && ret != ReadOnly && Loosens(cfg, edges, base)
      ensures ret == Unaligned ==> exists n :: n in list && !cfg.info(n).aligned
      ensures ret == Refused ==> exists n, u :: n in list && !cfg.checkPerm(n, u)
    {
      var l := TopologicalList(edges, roots);
      list := l;
      ret := DoRefreshPerms(l, base);
      SameShapeSane(cfg, old(G()), G());
      if f, l2 :| ListsBelow(old(edges), roots, l2) && Solution(cfg, old(edges), f, l2) {
        SolutionAnyOrder(cfg, old(edges), f, roots, l2, list);
      }
      if ret == Done { RefreshSafeExactly(cfg, old(edges), edges, list); }
    }

    // -------------------------------------------------------------- references and edges

    method Refer(n: Node)
      modifies this`refcnt
      ensures refcnt == old(refcnt)[n := old(Ref(n)) + 1]
    {
      refcnt := refcnt[n := Ref(n) + 1];
    }

    method Unref(n: Node)
      modifies this`refcnt
      ensures refcnt == old(refcnt)[n := old(Ref(n)) - 1]
    {
      refcnt := refcnt[n := Ref(n) - 1];
    }

    /** bdrv_schedule_unref */
    method ScheduleUnref(n: Option<Node>)
      modifies this`pending
      ensures pending == old(pending) + (if n.Some? then multiset{n.value} else multiset{})
    {
      if n.Some? {
        pending := pending + multiset{n.value};
      }
    }

    /** bdrv_replace_child_noperm with the callbacks bdrv_child_cb_detach and bdrv_child_cb_attach. */
    method ReplaceChildNoperm(e: EdgeId, to: Option<Node>)
      requires e in edges
      modifies this`edges, this`slots
      ensures G() == ReplaceChild(cfg, old(G()), e, to)
      ensures forall n :: InDegree(edges, n) + Bit(old(edges)[e].to == Some(n))
                       == old(InDegree(edges, n)) + Bit(to == Some(n))
    {
      var x := edges[e];
      if x.to.Some? {
        slots := DetachSlot(slots, e, x);
      }
      forall n { InDegreePut(edges, e, x.(to := to), n); }
      edges := edges[e := x.(to := to)];
      if to.Some? {
        slots := AttachSlot(cfg, slots, e, x);
      }
    }

    // -------------------------------------------------------------- ending a transaction

    /** The abort callback of the last log entry. */
    method AbortEntry()
      requires log != [] && Undoable(cfg, G(), log)
      modifies this
      ensures log == old(log)[..|old(log)| - 1]
      ensures G() == Undo(cfg, old(G()), old(log)[|old(log)| - 1])
      ensures forall n :: Outside(n) == old(Outside(n))
    {
      var a := log[|log| - 1];
      log := log[..|log| - 1];
      match a
      case SetPerm(e, use) =>
        forall n { InDegreePut(edges, e, edges[e].(use := use), n); }
        edges := edges[e := edges[e].(use := use)];
      case DrvSetPerm(_) =>
      case Removed(_) =>
      case SetInherits(n, from) =>
        inherits := PutInherits(inherits, n, from);
      case Replaced(e, to) =>
        AbortReplaced(e, to);
      case Attached(e) =>
        AbortAttached(e);
    }

    /** bdrv_replace_child_abort: the reference moves from the log entry back to the edge. */
    method AbortReplaced(e: EdgeId, to: Option<Node>)
      requires CanReplace(cfg, G(), e, to)
      modifies this`edges, this`slots, this`refcnt
      ensures G() == Undo(cfg, old(G()), Replaced(e, to))
      ensures forall n :: Outside(n) == old(Outside(n)) - EntryRefs(Replaced(e, to), n)
    {
      var newBs := edges[e].to;
      ReplaceChildNoperm(e, to);
      if newBs.Some? {
        Unref(newBs.value);
      }
    }

    /** bdrv_attach_child_common_abort */
    method AbortAttached(e: EdgeId)
      requires CanReplace(cfg, G(), e, None)
      modifies this`edges, this`slots, this`pending
      ensures G() == Undo(cfg, old(G()), Attached(e))
      ensures forall n :: Outside(n) == old(Outside(n))
    {
      var bs := edges[e].to;
      ReplaceChildNoperm(e, None);
      ScheduleUnref(bs);
      forall n { InDegreeDropEmpty(edges, e, n); }
      edges := edges - {e};
    }

    /** tran_abort: last to first, as the entries sit on the list. */
    method Abort()
      requires Undoable(cfg, G(), log)
      modifies this
      ensures G() == old(Base()) && log == []
      ensures forall n :: Outside(n) == old(Outside(n))
    {
      while log != []
        invariant Undoable(cfg, G(), log) && Base() == old(Base())
        invariant forall n :: Outside(n) == old(Outside(n))
        decreases |log|
      {
        AbortEntry();
      }
    }

    /** The commit callback of the last log entry: bdrv_replace_child_commit gives the old target's
        reference up, bdrv_remove_child_commit frees the edge. */
    method CommitEntry()
      requires log != []
      requires forall e :: e in RemovedEdges(log) && e in edges ==> edges[e].to == None
      modifies this`edges, this`pending, this`log
      ensures log == old(log)[..|old(log)| - 1]
      ensures edges == old(edges) - (if old(log)[|old(log)| - 1].Removed? then {old(log)[|old(log)| - 1].e} else {})
      ensures forall n :: Outside(n) == old(Outside(n))
    {
      var a := log[|log| - 1];
      assert log == log[..|log| - 1] + [a];
      RemovedAppend(log[..|log| - 1], a);
      forall n { LogRefsAppend(log[..|log| - 1], a, n); }
      log := log[..|log| - 1];
      if a.Replaced? {
        ScheduleUnref(a.oldTo);
      } else if a.Removed? {
        forall n { InDegreeDropEmpty(edges, a.e, n); }
        edges := edges - {a.e};
      }
    }

    /** tran_commit */
    method Commit()
      requires forall e :: e in RemovedEdges(log) && e in edges ==> edges[e].to == None
      modifies this`edges, this`pending, this`log
      ensures edges == old(edges) - old(RemovedEdges(log)) && log == []
      ensures forall n :: Outside(n) == old(Outside(n))
    {
      ghost var freed: set<EdgeId> := {};
      while log != []
        invariant freed + RemovedEdges(log) == old(RemovedEdges(log)) && edges == old(edges) - freed
        invariant forall n :: Outside(n) == old(Outside(n))
        decreases |log|
      {
        var a := log[|log| - 1];
        assert log == log[..|log| - 1] + [a];
        RemovedAppend(log[..|log| - 1], a);
        freed := freed + (if a.Removed? then {a.e} else {});
        CommitEntry();
      }
    }

    // -------------------------------------------------------------- edits inside a transaction

    /** bdrv_replace_child_tran: the edge's reference to the old target moves to the log. */
    method ReplaceChildTran(e: EdgeId, to: Option<Node>)
      requires SlotsOk(cfg, G()) && CanReplace(cfg, G(), e, to) && edges[e].to.Some?
      modifies this`edges, this`slots, this`refcnt, this`log
      ensures Books() && SlotsOk(cfg, G())
      ensures edges == old(edges)[e := old(edges)[e].(to := to)]
      ensures slots == ReplaceChild(cfg, old(G()), e, to).slots
    {
      ReplaceRecorded(cfg, G(), e, to, log);
      log := log + [Replaced(e, edges[e].to)];
      Repoint(e, to);
    }

    /** The edge refers to `to` instead; the reference to the old target is left over. */
    method Repoint(e: EdgeId, to: Option<Node>)
      requires e in edges
      modifies this`edges, this`slots, this`refcnt
      ensures G() == ReplaceChild(cfg, old(G()), e, to)
      ensures forall n :: Outside(n) == old(Outside(n)) + Bit(old(edges)[e].to == Some(n))
    {
      ReferTo(to);
      ReplaceChildNoperm(e, to);
    }

    method ReferTo(to: Option<Node>)
      modifies this`refcnt
      ensures forall n :: Ref(n) == old(Ref(n)) + Bit(to == Some(n))
    {
      if to.Some? {
        Refer(to.value);
      }
    }

    /** A new empty edge is created and filled. */
    method InsertEdge(e: EdgeId, x: Edge)
      requires e !in edges && x.to.Some?
      modifies this`edges, this`slots
      ensures G() == Insert(cfg, old(G()), e, x)
      ensures forall n :: InDegree(edges, n) == old(InDegree(edges, n)) + Bit(x.to == Some(n))
    {
      forall n { InDegreePut(edges, e, x.(to := None), n); }
      edges := edges[e := x.(to := None)];
      ReplaceChildNoperm(e, x.to);
    }

    /** bdrv_attach_child_common with a new edge `e`; the AioContexts already agree. */
    method AttachChildCommon(e: EdgeId, x: Edge) returns (ok: bool)
      requires SlotsOk(cfg, G()) && e !in edges && x.to.Some? && !x.frozen && SlotFree(cfg, G(), x)
      modifies this`edges, this`slots, this`refcnt, this`log
      ensures Books() && SlotsOk(cfg, G())
      ensures ok <==> (cfg.info(x.to.value).inactive ==> x.use.perm <= {ConsistentRead})
      ensures edges == if ok then old(edges)[e := x] else old(edges)
      ensures ok ==> slots == AttachSlot(cfg, old(slots), e, x)
    {
      if cfg.info(x.to.value).inactive && x.use.perm - {ConsistentRead} != {} {
        return false;
      }
      InsertRecorded(cfg, G(), e, x, log);
      Refer(x.to.value);
      InsertEdge(e, x);
      log := log + [Attached(e)];
      return true;
    }

    /** bdrv_attach_child_noperm: refused exactly when it would close a cycle or put an inactive
        node below an active one or one that needs more than reading. */
    method AttachChildNoperm(parent: Node, child: Node, role: set<Role>, e: EdgeId) returns (ok: bool)
      requires Sane() && e !in edges && SlotFree(cfg, G(), NewEdge(cfg, edges, parent, child, role))
      modifies this`edges, this`slots, this`refcnt, this`log
      ensures Books() && Sane()
      ensures ok <==> MayAttach(cfg, old(edges), parent, child, role)
      ensures edges == if ok then old(edges)[e := NewEdge(cfg, old(edges), parent, child, role)] else old(edges)
      ensures ok ==> slots == AttachSlot(cfg, old(slots), e, NewEdge(cfg, old(edges), parent, child, role))
    {
      HasChildIsReach(edges, child, parent, Targets(edges) + {child});
      if RecurseHasChild(edges, child, parent, Targets(edges) + {child}) {
        return false;
      }
      if cfg.info(child).inactive && !cfg.info(parent).inactive {
        return false;
      }
      var u := GetCumulativePerm(edges, parent);
      var x := Edge(Some(parent), Some(child), role, NO_USE, false, false);
      x := x.(use := ChildUse(cfg, parent, x, u));
      AttachKeepsAcyclic(edges, e, x, parent, child);
      ok := AttachChildCommon(e, x);
    }

    /** bdrv_remove_child */
    method RemoveChild(e: EdgeId)
      requires Sane() && CanReplace(cfg, G(), e, None)
      modifies this`edges, this`slots, this`refcnt, this`log
      ensures Base() == old(Base()) && Sane() && forall n :: Outside(n) == old(Outside(n))
      ensures RemovedEdges(log) == old(RemovedEdges(log)) + {e}
      ensures edges == old(edges)[e := old(edges)[e].(to := None)]
      ensures slots == ReplaceChild(cfg, old(G()), e, None).slots
    {
      EmptyKeepsAcyclic(edges, e);
      ReplaceChildTran(e, None);
      Appended(cfg, G(), G(), log, Removed(e));
      log := log + [Removed(e)];
    }

    /** bdrv_replace_node_noperm: the parents' list is walked while edges leave it; the edges that
        move are exactly those that could be moved at the start. */
    method ReplaceNodeNoperm(from: Node, to: Node, autoSkip: bool) returns (ok: bool)
      requires Sane() && from != to
      modifies this`edges, this`slots, this`refcnt, this`log
      ensures Books() && Sane() && edges.Keys == old(edges).Keys
      ensures ok <==> CanReplaceNode(old(edges), from, to, autoSkip)
      ensures ok ==> edges == RedirectAll(old(edges), from, to)
    {
      var rest := ParentEdges(edges, from);
      while rest != {}
        invariant Books() && Sane() && Redirecting(old(edges), edges, from, to, rest)
        invariant forall c :: c in ParentEdges(old(edges), from) - rest ==>
                                if Movable(old(edges), c, to) then !old(edges)[c].frozen else autoSkip
      {
        Inhabited(rest);
        var c :| c in rest;
        ghost var all := rest;
        rest := rest - {c};
        var should := ShouldUpdateChild(edges, c, to);
        if !should {
          if autoSkip {
            continue;
          }
          return false;
        }
        if edges[c].frozen {
          return false;
        }
        RedirectedOne(old(edges), edges, from, to, all, c);
        ReplaceChildTran(c, Some(to));
      }
      RedirectedAll(old(edges), edges, from, to);
      return true;
    }

    // -------------------------------------------------------------- whole operations

    /** tran_finalize */
    method Finalize(ok: bool)
      requires Sane()
      requires forall e :: e in RemovedEdges(log) && e in edges ==> edges[e].to == None
      requires GoodBase()
      modifies this
      ensures Between() && forall n :: Outside(n) == old(Outside(n))
      ensures Safe(cfg, edges) <==> if ok then old(Safe(cfg, edges)) else Safe(cfg, old(Base()).edges)
      ensures ok ==> edges == old(edges) - old(RemovedEdges(log)) && slots == old(slots) && inherits == old(inherits)
      ensures !ok ==> G() == old(Base())
    {
      if ok {
        DropEmptyEdges(cfg, edges, RemovedEdges(log));
        DropKeepsSane(cfg, G(), RemovedEdges(log));
        Commit();
      } else {
        Abort();
      }
    }

    /** How the operations end: refresh below the roots if all went well so far, then commit or abort. */
    method FinishRefreshed(good: bool, roots: seq<Node>, ghost base: Edges) returns (ok: bool, ghost f: Edges)
      requires Sane() && GoodBase()
      requires forall e :: e in RemovedEdges(log) && e in edges ==> edges[e].to == None
      modifies this
      ensures Between() && forall n :: Outside(n) == old(Outside(n))
      ensures ok <==> good && Refreshable(cfg, old(edges), roots)
      ensures good && !ok && Loosens(cfg, old(edges), base) ==> Hindered(cfg, old(edges), roots)
      ensures ok && Loosens(cfg, old(edges), base) ==> Looser(f, base)
      ensures ok ==> SettledBelow(cfg, old(edges), f, roots) && edges == f - old(RemovedEdges(log))
      ensures ok && old(RemovedEdges(log)) == {} ==> edges == f
      ensures Safe(cfg, edges) <==> if ok then SafeOutside(cfg, old(edges), roots) else Safe(cfg, old(Base()).edges)
      ensures ok ==> slots == old(slots) && inherits == old(inherits)
      ensures !ok ==> G() == old(Base())
    {
      ok, f := good, edges;
      if good {
        ghost var list;
        var ret;
        ret, list := RefreshPerms(roots, base);
        ok, f := ret == Done, edges;
        assert forall e :: e in edges ==> edges[e].to == old(edges)[e].to;
      }
      Finalize(ok);
      assert f - {} == f;
    }

    /** bdrv_attach_child with a new edge `e`.  The caller's reference is consumed either way. */
    method AttachChild(parent: Node, child: Node, role: set<Role>, e: EdgeId) returns (ok: bool)
      requires Between() && e !in edges && SlotFree(cfg, G(), NewEdge(cfg, edges, parent, child, role))
      modifies this
      ensures Between() && (old(Valid()) ==> Valid()) && forall n :: Outside(n) == old(Outside(n)) - Bit(n == child)
      ensures var h := old(edges)[e := NewEdge(cfg, old(edges), parent, child, role)];
              && (ok <==> MayAttach(cfg, old(edges), parent, child, role) && Refreshable(cfg, h, [parent]))
              && (ok ==> SettledBelow(cfg, h, edges, [parent]))
      ensures !ok ==> G() == old(G())
    {
      ok := AttachRefreshed(parent, child, role, e);
      ScheduleUnref(Some(child));
    }

    /** The transaction of bdrv_attach_child. */
    method AttachRefreshed(parent: Node, child: Node, role: set<Role>, e: EdgeId) returns (ok: bool)
      requires Between() && e !in edges && SlotFree(cfg, G(), NewEdge(cfg, edges, parent, child, role))
      modifies this
      ensures Between() && (old(Valid()) ==> Valid()) && forall n :: Outside(n) == old(Outside(n))
      ensures var h := old(edges)[e := NewEdge(cfg, old(edges), parent, child, role)];
              && (ok <==> MayAttach(cfg, old(edges), parent, child, role) && Refreshable(cfg, h, [parent]))
              && (ok ==> SettledBelow(cfg, h, edges, [parent]))
      ensures !ok ==> G() == old(G())
    {
      assert RemovedEdges(log) == {};
      ok := AttachChildNoperm(parent, child, role, e);
      if ok && old(Valid()) { AttachSafe(cfg, old(edges), edges, e, parent, child); }
      ghost var f;
      ok, f := FinishRefreshed(ok, [parent], map[]);
    }

    /** bdrv_replace_node_common.  The graph stays safe exactly when no forced sharing is lost. */
    method ReplaceNode(from: Node, to: Node, autoSkip: bool) returns (ok: bool)
      requires Between() && from != to
      modifies this
      ensures Between() && forall n :: Outside(n) == old(Outside(n))
      ensures ok <==> CanReplaceNode(old(edges), from, to, autoSkip)
                      && Refreshable(cfg, RedirectAll(old(edges), from, to), [from, to])
      ensures ok ==> SettledBelow(cfg, RedirectAll(old(edges), from, to), edges, [from, to])
      ensures ok && old(Valid()) ==> (Valid() <==> SharingKept(cfg, old(edges), from, to))
      ensures !ok ==> G() == old(G())
    {
      assert RemovedEdges(log) == {};
      ok := ReplaceNodeNoperm(from, to, autoSkip);
      if ok && old(Valid()) { RedirectSafeExactly(cfg, old(edges), from, to); }
      ghost var f;
      ok, f := FinishRefreshed(ok, [from, to], map[]);
    }

    /** bdrv_root_attach_child with a new edge `e` for a user that is not a node. */
    method RootAttachChild(child: Node, role: set<Role>, use: Use, stay: bool, e: EdgeId) returns (ok: bool)
      requires Between() && e !in edges
      modifies this
      ensures Between() && (old(Valid()) ==> Valid()) && forall n :: Outside(n) == old(Outside(n)) - Bit(n == child)
      ensures var h := old(edges)[e := Edge(None, Some(child), role, use, false, stay)];
              && (ok <==> (cfg.info(child).inactive ==> use.perm <= {ConsistentRead}) && Refreshable(cfg, h, [child]))
              && (ok ==> SettledBelow(cfg, h, edges, [child]))
      ensures !ok ==> G() == old(G())
    {
      ok := RootAttachRefreshed(child, Edge(None, Some(child), role, use, false, stay), e);
      ScheduleUnref(Some(child));
    }

    /** The transaction of bdrv_root_attach_child. */
    method RootAttachRefreshed(child: Node, x: Edge, e: EdgeId) returns (ok: bool)
      requires Between() && e !in edges && x.parent == None && x.to == Some(child) && !x.frozen
      modifies this
      ensures Between() && (old(Valid()) ==> Valid()) && forall n :: Outside(n) == old(Outside(n))
      ensures var h := old(edges)[e := x];
              && (ok <==> (cfg.info(child).inactive ==> x.use.perm <= {ConsistentRead}) && Refreshable(cfg, h, [child]))
              && (ok ==> SettledBelow(cfg, h, edges, [child]))
      ensures !ok ==> G() == old(G())
    {
      assert RemovedEdges(log) == {};
      RootEdgeKeepsAcyclic(edges, e, x);
      ok := AttachChildCommon(e, x);
      if ok && old(Valid()) { RootAttachSafe(cfg, old(edges), edges, e, child); }
      ghost var f;
      ok, f := FinishRefreshed(ok, [child], map[]);
    }

    /** bdrv_append: `bsNew` goes on top of `top`, taking over all its users that can be moved. */
    method Append(bsNew: Node, top: Node, e: EdgeId) returns (ok: bool)
      requires Between() && e !in edges && SlotFree(cfg, G(), NewEdge(cfg, edges, bsNew, top, BackingRole(cfg, bsNew)))
      modifies this
      ensures Between() && forall n :: Outside(n) == old(Outside(n))
      ensures var g := old(edges)[e := NewEdge(cfg, old(edges), bsNew, top, BackingRole(cfg, bsNew))];
              var h := RedirectAll(g, top, bsNew);
              && (ok <==> MayAttach(cfg, old(edges), bsNew, top, BackingRole(cfg, bsNew))
                          && CanReplaceNode(g, top, bsNew, true) && Refreshable(cfg, h, [bsNew]))
              && (ok ==> h[e] == g[e] && SettledBelow(cfg, h, edges, [bsNew]))
              && (ok && old(Valid()) ==> (Valid() <==> SharingKept(cfg, g, top, bsNew)))
      ensures !ok ==> G() == old(G())
    {
      assert RemovedEdges(log) == {};
      ok := AttachChildNoperm(bsNew, top, BackingRole(cfg, bsNew), e);
      if ok {
        ghost var g := edges;
        AppendApart(g, e, bsNew, top);
        ok := ReplaceNodeNoperm(top, bsNew, true);
        if ok { AppendStays(g, e, bsNew, top); }
        if ok && old(Valid()) { AppendSafeExactly(cfg, old(edges), g, e, bsNew, top); }
      }
      ghost var f;
      ok, f := FinishRefreshed(ok, [bsNew], map[]);
    }

    /** The transaction of bdrv_child_try_set_perm.  A request that only loosens takes effect unless
        a node is unaligned or a driver refuses: it never conflicts. */
    method SetPermAndRefresh(c: EdgeId, use: Use) returns (applied: bool)
      requires Between() && c in edges && edges[c].to.Some?
      modifies this
      ensures Between() && forall n :: Outside(n) == old(Outside(n))
      ensures var h := old(edges)[c := old(edges)[c].(use := use)];
              && (applied <==> Refreshable(cfg, h, [old(edges)[c].to.value]))
              && (applied ==> SettledBelow(cfg, h, edges, [old(edges)[c].to.value]))
              && (old(Valid()) && Weaker(use, old(edges)[c].use) && !applied ==>
                    Hindered(cfg, h, [old(edges)[c].to.value]))
      ensures applied && old(Valid()) ==> (Valid() <==> UseCovers(cfg, old(edges), c, use))
      ensures applied && old(Valid()) && Weaker(use, old(edges)[c].use) ==> Looser(edges, old(edges))
      ensures !applied ==> G() == old(G())
    {
      assert RemovedEdges(log) == {};
      var bs := edges[c].to.value;
      if Valid() { SetPermSafeExactly(cfg, edges, c, use); }
      if Weaker(use, edges[c].use) { SetPermLooser(edges, c, use); }
      SetPermTran(c, use);
      SameShapeSane(cfg, old(G()), G());
      ghost var f;
      applied, f := FinishRefreshed(true, [bs], old(edges));
    }

    /** bdrv_child_try_set_perm: an error is hidden exactly from callers that only loosen. */
    method ChildTrySetPerm(c: EdgeId, use: Use) returns (ok: bool, applied: bool)
      requires Between() && c in edges && edges[c].to.Some?
      modifies this
      ensures Between() && forall n :: Outside(n) == old(Outside(n))
      ensures var h := old(edges)[c := old(edges)[c].(use := use)];
              && (applied <==> Refreshable(cfg, h, [old(edges)[c].to.value]))
              && (applied ==> SettledBelow(cfg, h, edges, [old(edges)[c].to.value]))
              && (old(Valid()) && Weaker(use, old(edges)[c].use) && !applied ==>
                    Hindered(cfg, h, [old(edges)[c].to.value]))
      ensures applied && old(Valid()) ==> (Valid() <==> UseCovers(cfg, old(edges), c, use))
      ensures applied && old(Valid()) && Weaker(use, old(edges)[c].use) ==> Looser(edges, old(edges))
      ensures !applied ==> G() == old(G())
      ensures ok <==> applied || Weaker(use, old(edges)[c].use)
    {
      applied := SetPermAndRefresh(c, use);
      ok := applied;
      if !applied {
        NothingLeft(use.perm, edges[c].use.perm);
        NothingLeft(edges[c].use.shared, use.shared);
        if use.perm - edges[c].use.perm != {} || edges[c].use.shared - use.shared != {} {
          return;
        }
        ok := true;
      }
    }

    /** bdrv_root_unref_child: losing a user never makes the graph unsafe, and permissions are
        loosened below unless a node is unaligned or a driver refuses. */
    method RootUnrefChild(c: EdgeId)
      requires Between() && CanReplace(cfg, G(), c, None)
      modifies this
      ensures Between() && (old(Valid()) ==> Valid() && Looser(edges, old(edges)))
      ensures forall n :: Outside(n) == old(Outside(n))
      ensures if Refreshable(cfg, old(edges) - {c}, [old(edges)[c].to.value])
              then SettledBelow(cfg, old(edges) - {c}, edges, [old(edges)[c].to.value])
              else edges == old(edges) - {c}
      ensures old(Valid()) && !Hindered(cfg, old(edges) - {c}, [old(edges)[c].to.value]) ==>
                SettledBelow(cfg, old(edges) - {c}, edges, [old(edges)[c].to.value])
    {
      assert RemovedEdges(log) == {};
      if Valid() { RemoveSafe(cfg, edges, c); }
      var bs := edges[c].to;
      DetachEdge(c);
      ghost var f;
      var ok;
      ok, f := FinishRefreshed(true, [bs.value], old(edges));
      ScheduleUnref(bs);
    }

    /** bdrv_replace_child_noperm and bdrv_child_free. */
    method DetachEdge(c: EdgeId)
      requires Between() && CanReplace(cfg, G(), c, None)
      modifies this`edges, this`slots
      ensures Between() && edges == old(edges) - {c}
      ensures forall n :: Outside(n) == old(Outside(n)) + Bit(old(edges)[c].to == Some(n))
    {
      ReplaceChildKeepsSlots(cfg, G(), c, None);
      EmptyKeepsAcyclic(edges, c);
      ReplaceChildNoperm(c, None);
      DropKeepsSane(cfg, G(), {c});
      forall n { InDegreeDropEmpty(edges, c, n); }
      edges := edges - {c};
      assert edges == old(edges) - {c};
    }

    // -------------------------------------------------------------- setting the file or backing link

    /** bdrv_set_inherits_from */
    method SetInheritsFrom(n: Node, from: Option<Node>)
      modifies this`inherits, this`log
      ensures Books() && inherits == PutInherits(old(inherits), n, from)
    {
      var a := SetInherits(n, InheritsOf(G(), n));
      UndoSetInherits(cfg, G(), n, from);
      Appended(cfg, G(), G().(inherits := PutInherits(inherits, n, from)), log, a);
      log := log + [a];
      inherits := PutInherits(inherits, n, from);
    }

    /** bdrv_unset_inherits_from; `unseen` are the nodes the recursion has not come through. */
    method UnsetInheritsFrom(root: Node, child: EdgeId, ghost unseen: set<Node>)
      requires Acyclic(edges) && child in edges && edges[child].to.Some? && edges[child].to.value in unseen
      requires forall x :: x in Targets(edges) && x !in unseen ==> Reach(edges, x, edges[child].to.value)
      modifies this`inherits, this`log
      ensures Books() && UnsetExactly(edges, old(inherits), inherits, root, child)
      decreases unseen
    {
      var bs := edges[child].to.value;
      if InheritsOf(G(), bs) == Some(root) && LastFrom(edges, root, child) {
        SetInheritsFrom(bs, None);
      }
      var rest := ChildEdges(edges, bs);
      while rest != {}
        invariant rest <= ChildEdges(edges, bs) && Books()
        invariant UnsetSome(edges, old(inherits), inherits, root, child, ChildEdges(edges, bs) - rest)
      {
        Inhabited(rest);
        var c :| c in rest;
        GoDown(edges, bs, c, unseen);
        ghost var before, done := inherits, ChildEdges(edges, bs) - rest;
        UnsetInheritsFrom(root, c, unseen - {bs});
        OneMoreVisited(edges, old(inherits), before, inherits, root, child, done, c);
        rest := rest - {c};
        assert done + {c} == ChildEdges(edges, bs) - rest;
      }
      assert ChildEdges(edges, bs) - {} == ChildEdges(edges, bs);
      forall n { AllVisited(edges, root, child, n); }
    }

    /** bdrv_remove_child after bdrv_unset_inherits_from, if there is a link. */
    method Unlink(parent: Node, isBacking: bool)
      requires Sane() && RemovedEdges(log) == {}
      requires var link := OldLink(G(), parent, isBacking);
               link.Some? && link.value in edges ==> !edges[link.value].frozen
      modifies this
      ensures Base() == old(Base()) && Sane() && forall n :: Outside(n) == old(Outside(n))
      ensures edges == Unlinked(old(G()), parent, isBacking) && WantedKey(parent, isBacking) !in slots
      ensures RemovedEdges(log) == LinkSet(old(G()), parent, isBacking)
      ensures slots == old(slots) - {WantedKey(parent, isBacking)}
    {
      var k := WantedKey(parent, isBacking);
      if k in slots {
        var link := slots[k];
        assert KeyOf(cfg, edges[link]) == Some(k);
        UnsetInheritsFrom(parent, link, Targets(edges));
        EmptySlot(k);
      }
    }

    /** bdrv_remove_child of the edge in slot `k`. */
    method EmptySlot(k: Key)
      requires Sane() && k in slots && slots[k] in edges && !edges[slots[k]].frozen
      requires KeyOf(cfg, edges[slots[k]]) == Some(k)
      modifies this`edges, this`slots, this`refcnt, this`log
      ensures Base() == old(Base()) && Sane() && forall n :: Outside(n) == old(Outside(n))
      ensures RemovedEdges(log) == old(RemovedEdges(log)) + {old(slots)[k]}
      ensures var link := old(slots)[k]; edges == old(edges)[link := old(edges)[link].(to := None)]
      ensures slots == old(slots) - {k}
    {
      var link := slots[k];
      RemoveChild(link);
      SlotEmptied(cfg, old(G()), G(), link, k);
    }

    /** The checks of bdrv_set_file_or_backing_noperm, and the role of the new link. */
    method CheckLink(parent: Node, isBacking: bool) returns (role: Option<set<Role>>)
      requires SlotsOk(cfg, G())
      ensures role == LinkRole(cfg, G(), parent, isBacking)
    {
      var info := cfg.info(parent);
      var link := OldLink(G(), parent, isBacking);
      if !info.hasDrv {
        return None;
      }
      if link.Some? && edges[link.value].frozen {
        return None;
      }
      if isBacking && !info.isFilter && !info.supportsBacking {
        return None;
      }
      if info.isFilter {
        return Some({Filtered, Primary});
      } else if isBacking {
        return Some({Cow});
      } else {
        if link == None {
          return None;
        }
        return Some(edges[link.value].role);
      }
    }

    /** bdrv_set_file_or_backing_noperm; `inheritsRecursively` is what bdrv_inherits_from_recursive
        says about the new child and the parent.  On success the slot that was asked for holds the
        new link, or nothing if there is no new child or a filter keeps its child in the other slot. */
    method SetFileOrBackingNoperm(parent: Node, child: Option<Node>, isBacking: bool, inheritsRecursively: bool,
                                  e: EdgeId)
      returns (ok: bool)
      requires Sane() && e !in edges && RemovedEdges(log) == {}
      requires child.Some? ==> LinkFree(cfg, G(), parent, isBacking)
      modifies this
      ensures Base() == old(Base()) && Sane() && forall n :: Outside(n) == old(Outside(n))
      ensures ok <==> MayLink(cfg, old(G()), parent, child, isBacking)
      ensures ok ==> edges == Linked(cfg, old(G()), parent, child, isBacking, e)
      ensures ok ==> OldLink(G(), parent, isBacking) == NewLink(cfg, parent, child, isBacking, e)
      ensures ok ==> RemovedEdges(log) == LinkSet(old(G()), parent, isBacking)
      ensures forall d :: d in RemovedEdges(log) && d in edges ==> edges[d].to == None
    {
      var role := CheckLink(parent, isBacking);
      if role == None {
        return false;
      }
      LinkFits(cfg, G(), parent, isBacking);
      Unlink(parent, isBacking);
      if child == None {
        return true;
      }
      ok := LinkNew(parent, child.value, role.value, inheritsRecursively, e);
    }

    method LinkNew(parent: Node, child: Node, role: set<Role>, inheritsRecursively: bool, e: EdgeId) returns (ok: bool)
      requires Sane() && e !in edges && SlotFree(cfg, G(), NewEdge(cfg, edges, parent, child, role))
      modifies this
      ensures Books() && Sane()
      ensures ok <==> MayAttach(cfg, old(edges), parent, child, role)
      ensures edges == if ok then old(edges)[e := NewEdge(cfg, old(edges), parent, child, role)] else old(edges)
      ensures ok ==> slots == AttachSlot(cfg, old(slots), e, NewEdge(cfg, old(edges), parent, child, role))
    {
      ok := AttachChildNoperm(parent, child, role, e);
      if ok && inheritsRecursively {
        SetInheritsFrom(child, Some(parent));
      }
    }

    /** bdrv_set_backing_hd with a new edge `e` in case it is needed. */
    method SetBackingHd(bs: Node, backing: Option<Node>, inheritsRecursively: bool, e: EdgeId)
      returns (ok: bool, ghost f: Edges)
      requires Between() && e !in edges
      requires backing.Some? ==> LinkFree(cfg, G(), bs, true)
      modifies this
      ensures Between() && (old(Valid()) ==> Valid()) && forall n :: Outside(n) == old(Outside(n))
      ensures ok <==> MayLink(cfg, old(G()), bs, backing, true)
                      && Refreshable(cfg, Linked(cfg, old(G()), bs, backing, true, e), [bs])
      ensures ok ==> SettledBelow(cfg, Linked(cfg, old(G()), bs, backing, true, e), f, [bs])
      ensures ok ==> edges == f - LinkSet(old(G()), bs, true)
      ensures ok ==> OldLink(G(), bs, true) == NewLink(cfg, bs, backing, true, e)
      ensures ok && old(AllExact(cfg, edges)) ==>
                (AllExact(cfg, edges) <==> DetachedAlike(cfg, old(G()), bs, backing, true, e))
      ensures !ok ==> G() == old(G())
    {
      ok, f := SetBackingRefreshed(bs, backing, inheritsRecursively, e);
      if ok && old(AllExact(cfg, edges)) { SetLinkKeepsExact(cfg, old(G()), f, bs, backing, true, e); }
    }

    /** The transaction of bdrv_set_backing_hd. */
    method SetBackingRefreshed(bs: Node, backing: Option<Node>, inheritsRecursively: bool, e: EdgeId)
      returns (ok: bool, ghost f: Edges)
      requires Between() && e !in edges
      requires backing.Some? ==> LinkFree(cfg, G(), bs, true)
      modifies this
      ensures Between() && (old(Valid()) ==> Valid()) && forall n :: Outside(n) == old(Outside(n))
      ensures ok <==> MayLink(cfg, old(G()), bs, backing, true)
                      && Refreshable(cfg, Linked(cfg, old(G()), bs, backing, true, e), [bs])
      ensures ok ==> SettledBelow(cfg, Linked(cfg, old(G()), bs, backing, true, e), f, [bs])
      ensures ok ==> edges == f - LinkSet(old(G()), bs, true)
      ensures ok ==> OldLink(G(), bs, true) == NewLink(cfg, bs, backing, true, e)
      ensures !ok ==> G() == old(G())
    {
      assert RemovedEdges(log) == {};
      if Valid() { SetLinkSafe(cfg, G(), bs, backing, true, e); }
      ok := SetFileOrBackingNoperm(bs, backing, true, inheritsRecursively, e);
      ok, f := FinishRefreshed(ok, [bs], map[]);
    }

    // -------------------------------------------------------------- whole runs

    /** What the source asserts on entry of the operation. */
    predicate Callable(op: Op)
      reads this
    {
      match op
      case AttachOp(parent, child, role, e) =>
        e !in edges && SlotFree(cfg, G(), NewEdge(cfg, edges, parent, child, role))
      case RootAttachOp(_, _, _, _, e) => e !in edges
      case UnrefOp(c) => CanReplace(cfg, G(), c, None)
      case SetBackingOp(bs, backing, _, e) => e !in edges && (backing.Some? ==> LinkFree(cfg, G(), bs, true))
      case ReplaceOp(from, to, _) => from != to
      case AppendOp(bsNew, top, e) =>
        e !in edges && SlotFree(cfg, G(), NewEdge(cfg, edges, bsNew, top, BackingRole(cfg, bsNew)))
      case SetPermOp(c, _) => c in edges && edges[c].to.Some?
    }

    /** Any one operation. */
    method Perform(op: Op) returns (ok: bool)
      requires Between() && Callable(op)
      modifies this
      ensures Between() && Step(cfg, op, old(G()), G())
      ensures old(AllExact(cfg, edges)) ==> (AllExact(cfg, edges) <==> KeepsExact(cfg, op, old(G())))
      ensures forall n :: Outside(n) == old(Outside(n)) - Consumed(op, n)
      ensures old(Valid()) ==> (Valid() <==> KeepsValid(cfg, op, old(G())))
      ensures !ok ==> edges == old(edges) && slots == old(slots) && inherits == old(inherits)
    {
      if op.UnrefOp? || op.ReplaceOp? || op.AppendOp? || op.SetPermOp? {
        ok := PerformMove(op);
      } else {
        ok := PerformLink(op);
      }
      if old(AllExact(cfg, edges)) { StepExactly(cfg, op, old(G()), G()); }
    }

    method PerformLink(op: Op) returns (ok: bool)
      requires Between() && Callable(op) && (op.AttachOp? || op.RootAttachOp? || op.SetBackingOp?)
      modifies this
      ensures Between() && Leads(cfg, op, old(G()), G())
      ensures forall n :: Outside(n) == old(Outside(n)) - Consumed(op, n)
      ensures old(Valid()) ==> (Valid() <==> KeepsValid(cfg, op, old(G())))
      ensures !ok ==> edges == old(edges) && slots == old(slots) && inherits == old(inherits)
    {
      match op {
        case AttachOp(parent, child, role, e) => ok := AttachChild(parent, child, role, e);
        case RootAttachOp(child, role, use, stay, e) => ok := RootAttachChild(child, role, use, stay, e);
        case SetBackingOp(bs, backing, inherit, e) =>
          ghost var f;
          ok, f := SetBackingHd(bs, backing, inherit, e);
      }
      if !op.SetBackingOp? && Succeeds(cfg, op, old(G())) { NothingDropped(cfg, op, old(G()), G()); }
    }

    method PerformMove(op: Op) returns (ok: bool)
      requires Between() && Callable(op) && (op.UnrefOp? || op.ReplaceOp? || op.AppendOp? || op.SetPermOp?)
      modifies this
      ensures Between() && Leads(cfg, op, old(G()), G())
      ensures forall n :: Outside(n) == old(Outside(n)) - Consumed(op, n)
      ensures old(Valid()) ==> (Valid() <==> KeepsValid(cfg, op, old(G())))
      ensures !ok ==> edges == old(edges) && slots == old(slots) && inherits == old(inherits)
    {
      match op {
        case UnrefOp(c) =>
          RootUnrefChild(c);
          ok := true;
        case ReplaceOp(from, to, autoSkip) => ok := ReplaceNode(from, to, autoSkip);
        case AppendOp(bsNew, top, e) => ok := Append(bsNew, top, e);
        case SetPermOp(c, use) =>
          var applied;
          ok, applied := ChildTrySetPerm(c, use);
      }
      if Succeeds(cfg, op, old(G())) { NothingDropped(cfg, op, old(G()), G()); }
    }

    /** Any sequence of operations, whatever each of them answers, up to the first one that trips an
        assertion on entry; `states` are the graphs it goes through.  The graph stays acyclic, the
        slots stay right, and exactly the references that callers gave away are gone.  A valid graph
        stays valid, and one at its permission fixpoint stays there, if every operation keeps it so. */
    method Run(ops: seq<Op>, ghost roots: set<EdgeId>) returns (n: nat, ghost states: seq<Graph>)
      requires Between()
      modifies this
      ensures Between() && n <= |ops| && (n < |ops| ==> !Callable(ops[n]))
      ensures Went(cfg, ops[..n], states) && states[0] == old(G()) && states[n] == G()
      ensures forall m :: Outside(m) == old(Outside(m)) - AllConsumed(ops[..n], m)
      ensures old(Valid()) && KeptValid(cfg, ops[..n], states) ==> Valid()
      ensures old(Valid()) && old(RootsOk(edges, roots)) && KeptAlways(cfg, ops[..n], roots) ==> Valid()
      ensures old(AllExact(cfg, edges)) && KeptExact(cfg, ops[..n], states) ==> AllExact(cfg, edges)
    {
      n, states := RunAll(ops);
      if old(Valid()) { RunValidExactly(cfg, ops[..n], states); }
      if old(RootsOk(edges, roots)) && KeptAlways(cfg, ops[..n], roots) {
        RunAlwaysValid(cfg, ops[..n], states, roots);
      }
      if old(AllExact(cfg, edges)) { RunExactExactly(cfg, ops[..n], states); }
    }

    method RunAll(ops: seq<Op>) returns (n: nat, ghost states: seq<Graph>)
      requires Between()
      modifies this
      ensures Between() && n <= |ops| && (n < |ops| ==> !Callable(ops[n]))
      ensures Went(cfg, ops[..n], states) && states[0] == old(G()) && states[n] == G()
      ensures forall m :: Outside(m) == old(Outside(m)) - AllConsumed(ops[..n], m)
    {
      n, states := 0, [G()];
      while n < |ops| && Callable(ops[n])
        invariant Between() && n <= |ops|
        invariant Went(cfg, ops[..n], states) && states[0] == old(G()) && states[n] == G()
        invariant forall m :: Outside(m) == old(Outside(m)) - AllConsumed(ops[..n], m)
      {
        states := RunOne(ops[..n], states, ops[n]);
        assert ops[..n + 1] == ops[..n] + [ops[n]];
        n := n + 1;
      }
    }

    /** The operation `op` after the operations `done` that led through `states`. */
    method RunOne(ghost done: seq<Op>, ghost states: seq<Graph>, op: Op) returns (ghost more: seq<Graph>)
      requires Between() && Callable(op) && Went(cfg, done, states) && states[|done|] == G()
      modifies this
      ensures Between() && Went(cfg, done + [op], more) && more == states + [G()]
      ensures forall m :: Outside(m) + AllConsumed(done + [op], m) == old(Outside(m)) + AllConsumed(done, m)
    {
      var ok := Perform(op);
      forall m { OneMoreConsumed(done, op, m); }
      WentOn(cfg, done, states, op, G());
      more := states + [G()];
    }
  }
}
