/** Moving a connected part of the block graph to another AioContext: a recursion that collects
    everything to be moved, then a commit that moves it.  bdrv_change_aio_context and its helpers in
    block.c, child_job_change_aio_ctx in blockjob.c. */
module AioContext {
  import opened Basics

  type EdgeId = int
  type Context = int

  /** What has an AioContext: a node, a job, a block backend. */
  datatype Entity = Bs(n: int) | Job(j: int) | Blk(b: int)

  /** A BdrvChild: `parent` is None for users whose class has no change_aio_ctx callback. */
  datatype Edge = Edge(parent: Option<Entity>, to: int)
  type Edges = map<EdgeId, Edge>

  /** One call: the graph, the backends that let their context be changed, the contexts before
      it, the new context, the node to start at and the edges not to go through. */
  datatype Task = Task(g: Edges, willing: set<int>, ctx: map<Entity, Context>, target: Context, start: int,
                       ignored: set<EdgeId>)

  /** Entities nobody has moved yet are in the main context. */
  const MAIN: Context := 0

  function CtxOf(ctx: map<Entity, Context>, x: Entity): Context {
    if x in ctx then ctx[x] else MAIN
  }

  // ---------------------------------------------------------------- connected entities

  predicate Ends(e: Edge, x: Entity) { x == Bs(e.to) || e.parent == Some(x) }

  /** The edges of `x` that may be gone through. */
  function Incident(k: Task, x: Entity): set<EdgeId> {
    set c | c in k.g && c !in k.ignored && Ends(k.g[c], x)
  }

  predicate Linked(k: Task, x: Entity, y: Entity) {
    exists c :: c in Incident(k, x) && Ends(k.g[c], y)
  }

  ghost predicate Path(k: Task, p: seq<Entity>) {
    |p| > 0 && forall i :: 0 <= i < |p| - 1 ==> Linked(k, p[i], p[i + 1])
  }

  ghost predicate PathTo(k: Task, p: seq<Entity>, x: Entity) {
    Path(k, p) && p[0] == Bs(k.start) && p[|p| - 1] == x
  }

  /** `x` is connected to the starting node, over parents and children. */
  ghost predicate Connected(k: Task, x: Entity) {
    exists p :: PathTo(k, p, x)
  }

  lemma StartConnected(k: Task)
    ensures Connected(k, Bs(k.start))
  {
    assert PathTo(k, [Bs(k.start)], Bs(k.start));
  }

  lemma ConnectedStep(k: Task, c: EdgeId, x: Entity, y: Entity)
    requires Connected(k, x) && c in Incident(k, x) && Ends(k.g[c], y)
    ensures Connected(k, y)
  {
    var p :| PathTo(k, p, x);
    assert Linked(k, x, y);
    assert PathTo(k, p + [y], y);
  }

  /** A backend has one root edge. */
  ghost predicate OneRoot(k: Task) {
    forall c, d, b :: c in k.g && d in k.g && k.g[c].parent == Some(Blk(b)) && k.g[d].parent == Some(Blk(b)) ==> c == d
  }

  /** The user at the upper end of the edge can change its context. */
  predicate Willing(k: Task, c: EdgeId)
    requires c in k.g
  {
    k.g[c].parent.Some? && (k.g[c].parent.value.Blk? ==> k.g[c].parent.value.b in k.willing)
  }

  /** An edge of a connected entity whose user cannot follow. */
  ghost predicate Obstacle(k: Task, c: EdgeId) {
    c in k.g && c !in k.ignored && Connected(k, Bs(k.g[c].to)) && !Willing(k, c)
  }

  // ---------------------------------------------------------------- what the recursion keeps

  /** `x` is collected, about to be collected by a call under way, or in the new context already. */
  predicate Taken(k: Task, tran: set<Entity>, pending: set<Entity>, x: Entity) {
    x in tran || x in pending || CtxOf(k.ctx, x) == k.target
  }

  ghost predicate EdgeOk(k: Task, tran: set<Entity>, pending: set<Entity>, c: EdgeId) {
    c in k.g && Willing(k, c) && forall x :: Ends(k.g[c], x) ==> Taken(k, tran, pending, x) && Connected(k, x)
  }

  ghost predicate Inv(k: Task, visited: set<EdgeId>, tran: set<Entity>, pending: set<Entity>) {
    && k.ignored <= visited
    && (forall c :: c in visited && c !in k.ignored ==> EdgeOk(k, tran, pending, c))
    && (forall x :: x in tran ==> Connected(k, x) && Incident(k, x) <= visited)
  }

  /** Entering an edge whose ends are taken. */
  lemma Enter(k: Task, visited: set<EdgeId>, tran: set<Entity>, pending: set<Entity>, c: EdgeId)
    requires Inv(k, visited, tran, pending) && c !in visited && EdgeOk(k, tran, pending, c)
    ensures Inv(k, visited + {c}, tran, pending)
  {
  }

  /** Collecting an entity all of whose edges have been visited. */
  lemma Collect(k: Task, visited: set<EdgeId>, tran: set<Entity>, pending: set<Entity>, x: Entity)
    requires Inv(k, visited, tran, pending + {x}) && Connected(k, x) && Incident(k, x) <= visited
    ensures Inv(k, visited, tran + {x}, pending)
  {
    forall c | c in visited && c !in k.ignored ensures EdgeOk(k, tran + {x}, pending, c) {
      assert EdgeOk(k, tran, pending + {x}, c);
    }
  }

  lemma MorePending(k: Task, visited: set<EdgeId>, tran: set<Entity>, pending: set<Entity>, x: Entity)
    requires Inv(k, visited, tran, pending)
    ensures Inv(k, visited, tran, pending + {x})
  {
    forall c | c in visited && c !in k.ignored ensures EdgeOk(k, tran, pending + {x}, c) {
      assert EdgeOk(k, tran, pending, c);
    }
  }

  lemma AlreadyThere(k: Task, visited: set<EdgeId>, tran: set<Entity>, pending: set<Entity>, x: Entity)
    requires Inv(k, visited, tran, pending + {x}) && (CtxOf(k.ctx, x) == k.target || x in tran)
    ensures Inv(k, visited, tran, pending)
  {
    forall c | c in visited && c !in k.ignored ensures EdgeOk(k, tran, pending, c) {
      assert EdgeOk(k, tran, pending + {x}, c);
    }
  }

  // ---------------------------------------------------------------- the recursion

  /** The visited set and the transaction of one call. */
  class Recursion {
    ghost const k: Task
    const g: Edges
    const willing: set<int>
    const ctx: map<Entity, Context>
    const target: Context
    var visited: set<EdgeId>
    var tran: seq<Entity>

    constructor (k: Task)
      ensures this.k == k && g == k.g && willing == k.willing && ctx == k.ctx && target == k.target
      ensures visited == k.ignored && tran == []
    {
      this.k, g, willing, ctx, target := k, k.g, k.willing, k.ctx, k.target;
      visited, tran := k.ignored, [];
    }

    ghost predicate Matches() { g == k.g && willing == k.willing && ctx == k.ctx && target == k.target && OneRoot(k) }

    ghost predicate Good(pending: set<Entity>)
      reads this
    {
      Matches() && Inv(k, visited, Elements(tran), pending)
    }

    method AddEntity(x: Entity, ghost pending: set<Entity>)
      requires Good(pending + {x}) && Connected(k, x) && Incident(k, x) <= visited
      modifies this`tran
      ensures Good(pending) && Elements(tran) == Elements(old(tran)) + {x}
    {
      Collect(k, visited, Elements(tran), pending, x);
      ElementsAppend(tran, x);
      tran := tran + [x];
    }

    /** bdrv_change_aio_context */
    method ChangeNode(bs: int, ghost pending: set<Entity>) returns (ok: bool)
      requires Good(pending + {Bs(bs)}) && Connected(k, Bs(bs))
      modifies this`visited, this`tran
      ensures old(visited) <= visited && Elements(old(tran)) <= Elements(tran)
      ensures ok ==> Good(pending) && Taken(k, Elements(tran), {}, Bs(bs))
      ensures !ok ==> exists c :: Obstacle(k, c)
      ensures CtxOf(ctx, Bs(bs)) == target ==> ok && tran == old(tran)
      decreases g.Keys - visited, 2
    {
      if CtxOf(ctx, Bs(bs)) == target {
        AlreadyThere(k, visited, Elements(tran), pending, Bs(bs));
        return true;
      }
      ghost var p := pending + {Bs(bs)};
      var parents := set c | c in g && g[c].to == bs;
      while parents != {}
        invariant Good(p) && old(visited) <= visited && Elements(old(tran)) <= Elements(tran)
        invariant forall c :: c in parents ==> c in g && g[c].to == bs
        invariant forall c :: c in g && g[c].to == bs && c !in parents ==> c in visited
      {
        Inhabited(parents);
        var c :| c in parents;
        parents := parents - {c};
        ok := ParentChange(c, p);
        if !ok {
          return false;
        }
      }
      var children := set c | c in g && g[c].parent == Some(Bs(bs));
      while children != {}
        invariant Good(p) && old(visited) <= visited && Elements(old(tran)) <= Elements(tran)
        invariant forall c :: c in g && g[c].to == bs ==> c in visited
        invariant forall c :: c in children ==> c in g && g[c].parent == Some(Bs(bs))
        invariant forall c :: c in g && g[c].parent == Some(Bs(bs)) && c !in children ==> c in visited
      {
        Inhabited(children);
        var c :| c in children;
        children := children - {c};
        ok := ChildChange(c, Bs(bs), p);
        if !ok {
          return false;
        }
      }
      assert forall c :: c in Incident(k, Bs(bs)) ==> c in visited;
      AddEntity(Bs(bs), pending);
      return true;
    }

    /** bdrv_parent_change_aio_context with the callbacks bdrv_child_cb_change_aio_ctx,
        blk_root_change_aio_ctx and child_job_change_aio_ctx. */
    method ParentChange(c: EdgeId, ghost pending: set<Entity>) returns (ok: bool)
      requires Good(pending) && c in g && Bs(g[c].to) in pending && Connected(k, Bs(g[c].to))
      modifies this`visited, this`tran
      ensures old(visited) <= visited && c in visited && Elements(old(tran)) <= Elements(tran)
      ensures ok ==> Good(pending)
      ensures !ok ==> exists d :: Obstacle(k, d)
      decreases g.Keys - visited, 1
    {
      if c in visited {
        return true;
      }
      var parent := g[c].parent;
      if parent == None || (parent.value.Blk? && parent.value.b !in willing) {
        assert Obstacle(k, c);
        visited := visited + {c};
        return false;
      }
      assert c in Incident(k, Bs(g[c].to));
      ConnectedStep(k, c, Bs(g[c].to), parent.value);
      MorePending(k, visited, Elements(tran), pending, parent.value);
      Enter(k, visited, Elements(tran), pending + {parent.value}, c);
      visited := visited + {c};
      match parent.value {
        case Bs(n) =>
          ok := ChangeNode(n, pending);
        case Blk(_) =>
          assert forall d :: d in Incident(k, parent.value) ==> d == c;
          AddEntity(parent.value, pending);
          ok := true;
        case Job(j) =>
          ok := ChangeJob(j, pending);
      }
    }

    /** child_job_change_aio_ctx */
    method ChangeJob(j: int, ghost pending: set<Entity>) returns (ok: bool)
      requires Good(pending + {Job(j)}) && Connected(k, Job(j))
      modifies this`visited, this`tran
      ensures old(visited) <= visited && Elements(old(tran)) <= Elements(tran)
      ensures ok ==> Good(pending)
      ensures !ok ==> exists d :: Obstacle(k, d)
      decreases g.Keys - visited, 1
    {
      ghost var p := pending + {Job(j)};
      var siblings := set c | c in g && g[c].parent == Some(Job(j));
      while siblings != {}
        invariant Good(p) && old(visited) <= visited && Elements(old(tran)) <= Elements(tran)
        invariant forall c :: c in siblings ==> c in g && g[c].parent == Some(Job(j))
        invariant forall c :: c in g && g[c].parent == Some(Job(j)) && c !in siblings ==> c in visited
      {
        Inhabited(siblings);
        var c :| c in siblings;
        siblings := siblings - {c};
        ok := ChildChange(c, Job(j), p);
        if !ok {
          return false;
        }
      }
      assert forall c :: c in Incident(k, Job(j)) ==> c in visited;
      AddEntity(Job(j), pending);
      return true;
    }

    /** bdrv_child_change_aio_context */
    method ChildChange(c: EdgeId, ghost owner: Entity, ghost pending: set<Entity>) returns (ok: bool)
      requires Good(pending) && c in g && g[c].parent == Some(owner) && !owner.Blk? && owner in pending
      requires Connected(k, owner)
      modifies this`visited, this`tran
      ensures old(visited) <= visited && c in visited && Elements(old(tran)) <= Elements(tran)
      ensures ok ==> Good(pending)
      ensures !ok ==> exists d :: Obstacle(k, d)
      decreases g.Keys - visited, 0
    {
      if c in visited {
        return true;
      }
      assert c in Incident(k, owner);
      ConnectedStep(k, c, owner, Bs(g[c].to));
      MorePending(k, visited, Elements(tran), pending, Bs(g[c].to));
      Enter(k, visited, Elements(tran), pending + {Bs(g[c].to)}, c);
      visited := visited + {c};
      ok := ChangeNode(g[c].to, pending);
    }
  }

  // ---------------------------------------------------------------- the whole change

  /** The two ends of every edge, those in `apart` aside, are in one context. */
  ghost predicate Together(g: Edges, ctx: map<Entity, Context>, apart: set<EdgeId>) {
    forall c, x, y :: c in g && c !in apart && Ends(g[c], x) && Ends(g[c], y) ==> CtxOf(ctx, x) == CtxOf(ctx, y)
  }

  lemma {:induction false} SameContextPath(k: Task, p: seq<Entity>)
    requires Together(k.g, k.ctx, k.ignored) && Path(k, p)
    ensures CtxOf(k.ctx, p[0]) == CtxOf(k.ctx, p[|p| - 1])
    decreases |p|
  {
    if |p| > 1 {
      var q := p[..|p| - 1];
      assert forall i :: 0 <= i < |q| - 1 ==> Linked(k, p[i], p[i + 1]);
      SameContextPath(k, q);
      assert Linked(k, p[|p| - 2], p[|p| - 2 + 1]);
    }
  }

  /** Connected entities share one context. */
  lemma SameContext(k: Task, x: Entity)
    requires Together(k.g, k.ctx, k.ignored) && Connected(k, x)
    ensures CtxOf(k.ctx, x) == CtxOf(k.ctx, Bs(k.start))
  {
    var p :| PathTo(k, p, x);
    SameContextPath(k, p);
  }

  /** What has been collected when the recursion is over is closed under the edges. */
  lemma {:induction false} CollectedPath(k: Task, visited: set<EdgeId>, tran: set<Entity>, p: seq<Entity>)
    requires Inv(k, visited, tran, {}) && Together(k.g, k.ctx, k.ignored) && CtxOf(k.ctx, Bs(k.start)) != k.target
    requires Path(k, p) && p[0] == Bs(k.start) && Bs(k.start) in tran
    ensures p[|p| - 1] in tran
    decreases |p|
  {
    if |p| > 1 {
      var last := |p| - 1;
      var q := p[..last];
      assert forall i :: 0 <= i < |q| - 1 ==> Linked(k, p[i], p[i + 1]);
      CollectedPath(k, visited, tran, q);
      assert Linked(k, p[last - 1], p[last - 1 + 1]);
      var c :| c in Incident(k, p[last - 1]) && Ends(k.g[c], p[last]);
      assert EdgeOk(k, tran, {}, c);
      assert PathTo(k, p, p[last]);
      SameContext(k, p[last]);
    }
  }

  /** Exactly the connected entities are collected. */
  lemma CollectedExactly(k: Task, visited: set<EdgeId>, tran: set<Entity>)
    requires Inv(k, visited, tran, {}) && Together(k.g, k.ctx, k.ignored) && CtxOf(k.ctx, Bs(k.start)) != k.target
    requires Bs(k.start) in tran
    ensures forall x :: x in tran <==> Connected(k, x)
    ensures forall c :: !Obstacle(k, c)
  {
    forall x | Connected(k, x) ensures x in tran {
      var p :| PathTo(k, p, x);
      CollectedPath(k, visited, tran, p);
    }
    forall c ensures !Obstacle(k, c) {
      if c in k.g && c !in k.ignored && Connected(k, Bs(k.g[c].to)) {
        assert c in Incident(k, Bs(k.g[c].to));
        assert EdgeOk(k, tran, {}, c);
      }
    }
  }

  /** The contexts after the collected entities have been moved. */
  function Moved(ctx: map<Entity, Context>, s: set<Entity>, target: Context): map<Entity, Context> {
    map x | x in ctx.Keys + s :: if x in s then target else ctx[x]
  }

  /** Edges lead from connected entities to connected ones, so moving exactly those separates no edge. */
  lemma StayTogether(k: Task, ctx: map<Entity, Context>)
    requires Together(k.g, k.ctx, k.ignored)
    requires forall x :: CtxOf(ctx, x) == if Connected(k, x) then k.target else CtxOf(k.ctx, x)
    ensures Together(k.g, ctx, k.ignored)
  {
    forall c, x, y | c in k.g && c !in k.ignored && Ends(k.g[c], x) && Ends(k.g[c], y)
      ensures CtxOf(ctx, x) == CtxOf(ctx, y)
    {
      assert c in Incident(k, x) && c in Incident(k, y);
      if Connected(k, x) { ConnectedStep(k, c, x, y); }
      if Connected(k, y) { ConnectedStep(k, c, y, x); }
    }
  }

  class AioLayer {
    var ctx: map<Entity, Context>

    constructor ()
      ensures forall x :: CtxOf(ctx, x) == MAIN
    {
      ctx := map[];
    }

    /** tran_commit with bdrv_set_aio_context_commit, child_job_set_aio_ctx_commit and
        blk_root_set_aio_ctx_commit: last to first, an entity may come up more than once. */
    method Commit(tran: seq<Entity>, target: Context)
      modifies this
      ensures ctx == Moved(old(ctx), Elements(tran), target)
    {
      var i := |tran|;
      while i > 0
        invariant 0 <= i <= |tran|
        invariant ctx == Moved(old(ctx), Elements(tran[i..]), target)
      {
        i := i - 1;
        assert tran[i..] == [tran[i]] + tran[i + 1..];
        ElementsPrepend(tran[i], tran[i + 1..]);
        ctx := ctx[tran[i] := target];
      }
      assert tran[0..] == tran;
    }

    /** bdrv_try_change_aio_context_locked: all or nothing.  It succeeds exactly when the node is in
        the new context already or every user of the connected part can follow, and then the
        connected part, and nothing else, is in the new context. */
    method TryChange(g: Edges, willing: set<int>, bs: int, target: Context, ignored: set<EdgeId>) returns (ok: bool)
      requires var k := Task(g, willing, ctx, target, bs, ignored); OneRoot(k) && Together(g, ctx, ignored)
      modifies this
      ensures var k := Task(g, willing, old(ctx), target, bs, ignored);
              && (ok <==> CtxOf(old(ctx), Bs(bs)) == target || forall c :: !Obstacle(k, c))
              && (ok ==> forall x :: CtxOf(ctx, x) == if Connected(k, x) then target else CtxOf(old(ctx), x))
      ensures !ok ==> ctx == old(ctx)
      ensures Together(g, ctx, ignored)
    {
      ghost var k := Task(g, willing, ctx, target, bs, ignored);
      var r := new Recursion(Task(g, willing, ctx, target, bs, ignored));
      StartConnected(k);
      ok := r.ChangeNode(bs, {});
      if !ok {
        ghost var c :| Obstacle(k, c);
        return false;
      }
      if CtxOf(ctx, Bs(bs)) != target {
        CollectedExactly(k, r.visited, Elements(r.tran));
      } else {
        forall x | Connected(k, x) { SameContext(k, x); }
      }
      Commit(r.tran, target);
      assert forall x :: CtxOf(ctx, x) == if x in Elements(r.tran) then target else CtxOf(old(ctx), x);
      StayTogether(k, ctx);
    }
  }
}
