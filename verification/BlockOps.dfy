/** The graph operations of block.c as steps of a run: what each of them makes of a graph, and which
    of them keep a valid graph valid and the permission fixpoint everywhere. */
module BlockOps {
  import opened Basics
  import opened BlockPerms
  import opened BlockGraph
  import opened BlockTopo
  import opened BlockRefresh
  import opened BlockTransaction
  import opened BlockEdits
  import opened BlockExact

  /** A call of one of the graph operations; `e` is the edge it would make. */
  datatype Op =
    | AttachOp(parent: Node, child: Node, role: set<Role>, e: EdgeId)
    | RootAttachOp(child: Node, role: set<Role>, use: Use, stay: bool, e: EdgeId)
    | UnrefOp(c: EdgeId)
    | SetBackingOp(bs: Node, backing: Option<Node>, inheritsRecursively: bool, e: EdgeId)
    | ReplaceOp(from: Node, to: Node, autoSkip: bool)
    | AppendOp(bsNew: Node, top: Node, e: EdgeId)
    | SetPermOp(c: EdgeId, use: Use)

  /** The reference an operation takes over from its caller. */
  function Consumed(op: Op, n: Node): nat {
    match op
    case AttachOp(_, child, _, _) => Bit(n == child)
    case RootAttachOp(child, _, _, _, _) => Bit(n == child)
    case _ => 0
  }

  function AllConsumed(ops: seq<Op>, n: Node): nat {
    if ops == [] then 0 else AllConsumed(ops[..|ops| - 1], n) + Consumed(ops[|ops| - 1], n)
  }

  lemma OneMoreConsumed(ops: seq<Op>, op: Op, n: Node)
    ensures AllConsumed(ops + [op], n) == AllConsumed(ops, n) + Consumed(op, n)
  {
    assert (ops + [op])[..|ops + [op]| - 1] == ops;
  }

  // ---------------------------------------------------------------- what an operation does

  /** The edge the operation makes or works on is as it has to be. */
  predicate OpFits(op: Op, g: Graph) {
    match op
    case AttachOp(_, _, _, e) => e !in g.edges
    case RootAttachOp(_, _, _, _, e) => e !in g.edges
    case UnrefOp(c) => c in g.edges && g.edges[c].to.Some?
    case SetBackingOp(_, _, _, e) => e !in g.edges
    case ReplaceOp(_, _, _) => true
    case AppendOp(_, _, e) => e !in g.edges
    case SetPermOp(c, _) => c in g.edges && g.edges[c].to.Some?
  }

  /** The edges after the edit, before permissions are refreshed. */
  ghost function Edited(cfg: Config, op: Op, g: Graph): Edges
    requires OpFits(op, g)
  {
    match op
    case AttachOp(parent, child, role, e) => g.edges[e := NewEdge(cfg, g.edges, parent, child, role)]
    case RootAttachOp(child, role, use, stay, e) => g.edges[e := Edge(None, Some(child), role, use, false, stay)]
    case UnrefOp(c) => g.edges - {c}
    case SetBackingOp(bs, backing, _, e) => Linked(cfg, g, bs, backing, true, e)
    case ReplaceOp(from, to, _) => RedirectAll(g.edges, from, to)
    case AppendOp(bsNew, top, e) => RedirectAll(Covered(cfg, g.edges, bsNew, top, e), top, bsNew)
    case SetPermOp(c, use) => g.edges[c := g.edges[c].(use := use)]
  }

  /** The edges once `bsNew` has been attached above `top`. */
  function Covered(cfg: Config, g: Edges, bsNew: Node, top: Node, e: EdgeId): Edges {
    g[e := NewEdge(cfg, g, bsNew, top, BackingRole(cfg, bsNew))]
  }

  /** Where the refresh starts. */
  function Below(op: Op, g: Graph): seq<Node>
    requires OpFits(op, g)
  {
    match op
    case AttachOp(parent, _, _, _) => [parent]
    case RootAttachOp(child, _, _, _, _) => [child]
    case UnrefOp(c) => [g.edges[c].to.value]
    case SetBackingOp(bs, _, _, _) => [bs]
    case ReplaceOp(from, to, _) => [from, to]
    case AppendOp(bsNew, _, _) => [bsNew]
    case SetPermOp(c, _) => [g.edges[c].to.value]
  }

  /** The edit is accepted. */
  ghost predicate Accepted(cfg: Config, op: Op, g: Graph) {
    match op
    case AttachOp(parent, child, role, _) => MayAttach(cfg, g.edges, parent, child, role)
    case RootAttachOp(child, _, use, _, _) => cfg.info(child).inactive ==> use.perm <= {ConsistentRead}
    case UnrefOp(_) => true
    case SetBackingOp(bs, backing, _, _) => MayLink(cfg, g, bs, backing, true)
    case ReplaceOp(from, to, autoSkip) => CanReplaceNode(g.edges, from, to, autoSkip)
    case AppendOp(bsNew, top, e) =>
      && MayAttach(cfg, g.edges, bsNew, top, BackingRole(cfg, bsNew))
      && CanReplaceNode(Covered(cfg, g.edges, bsNew, top, e), top, bsNew, true)
    case SetPermOp(_, _) => true
  }

  ghost predicate Succeeds(cfg: Config, op: Op, g: Graph)
    requires OpFits(op, g)
  {
    Accepted(cfg, op, g) && Refreshable(cfg, Edited(cfg, op, g), Below(op, g))
  }

  /** Edges that are freed in the end. */
  function Dropped(op: Op, g: Graph): set<EdgeId> {
    if op.SetBackingOp? then LinkSet(g, op.bs, true) else {}
  }

  /** `h` is what the operation makes of `g`: the edit with the unique permissions that settle
      everything below it if there are any, and otherwise what was there; only a user that goes away
      goes in any case. */
  ghost predicate Leads(cfg: Config, op: Op, g: Graph, h: Graph)
    requires OpFits(op, g)
  {
    if Succeeds(cfg, op, g) then
      exists f :: SettledBelow(cfg, Edited(cfg, op, g), f, Below(op, g)) && h.edges == f - Dropped(op, g)
    else if op.UnrefOp? then h.edges == Edited(cfg, op, g)
    else h == g
  }

  lemma NothingDropped(cfg: Config, op: Op, g: Graph, h: Graph)
    requires OpFits(op, g) && Succeeds(cfg, op, g) && !op.SetBackingOp?
    requires SettledBelow(cfg, Edited(cfg, op, g), h.edges, Below(op, g))
    ensures Leads(cfg, op, g, h)
  {
    assert h.edges == h.edges - {};
  }

  // ---------------------------------------------------------------- what is kept

  /** A valid graph stays valid. */
  ghost predicate KeepsValid(cfg: Config, op: Op, g: Graph)
    requires OpFits(op, g)
  {
    Succeeds(cfg, op, g) ==>
      match op
      case ReplaceOp(from, to, _) => SharingKept(cfg, g.edges, from, to)
      case AppendOp(bsNew, top, e) => SharingKept(cfg, Covered(cfg, g.edges, bsNew, top, e), top, bsNew)
      case SetPermOp(c, use) => UseCovers(cfg, g.edges, c, use)
      case _ => true
  }

  /** The permission fixpoint stays everywhere. */
  ghost predicate KeepsExact(cfg: Config, op: Op, g: Graph)
    requires OpFits(op, g)
  {
    if Succeeds(cfg, op, g) then
      match op
      case SetBackingOp(bs, backing, _, e) => DetachedAlike(cfg, g, bs, backing, true, e)
      case ReplaceOp(from, to, _) => SharingSame(cfg, g.edges, from, to)
      case AppendOp(bsNew, top, e) => SharingSame(cfg, Covered(cfg, g.edges, bsNew, top, e), top, bsNew)
      case SetPermOp(c, use) => UseExact(cfg, g.edges, c, use)
      case _ => true
    else
      op.UnrefOp? ==> SameNeeds(cfg, g.edges, g.edges - {op.c}, g.edges[op.c].to.value)
  }

  /** Every operation, whether it succeeds or not, keeps the fixpoint if and only if it meets its
      condition. */
  lemma StepExactly(cfg: Config, op: Op, g: Graph, h: Graph)
    requires OpFits(op, g) && SlotsOk(cfg, g) && Acyclic(g.edges) && AllExact(cfg, g.edges) && Leads(cfg, op, g, h)
    ensures AllExact(cfg, h.edges) <==> KeepsExact(cfg, op, g)
  {
    if Succeeds(cfg, op, g) {
      var f :| SettledBelow(cfg, Edited(cfg, op, g), f, Below(op, g)) && h.edges == f - Dropped(op, g);
      if op.ReplaceOp? || op.AppendOp? || op.SetPermOp? {
        MoveExactly(cfg, op, g, f);
      } else {
        LinkExactly(cfg, op, g, f);
      }
    } else if op.UnrefOp? {
      LeaveExactly(cfg, g.edges, op.c);
    }
  }

  lemma LinkExactly(cfg: Config, op: Op, g: Graph, f: Edges)
    requires OpFits(op, g) && SlotsOk(cfg, g) && AllExact(cfg, g.edges) && Succeeds(cfg, op, g)
    requires op.AttachOp? || op.RootAttachOp? || op.UnrefOp? || op.SetBackingOp?
    requires SettledBelow(cfg, Edited(cfg, op, g), f, Below(op, g))
    ensures AllExact(cfg, f - Dropped(op, g)) <==> KeepsExact(cfg, op, g)
  {
    assert f - {} == f;
    match op {
      case AttachOp(parent, child, role, e) => AttachKeepsExact(cfg, g.edges, f, parent, child, role, e);
      case RootAttachOp(child, role, use, stay, e) =>
        RootAttachKeepsExact(cfg, g.edges, f, e, Edge(None, Some(child), role, use, false, stay));
      case UnrefOp(c) => UnrefKeepsExact(cfg, g.edges, f, c);
      case SetBackingOp(bs, backing, _, e) =>
        SetLinkKeepsExact(cfg, g, f, bs, backing, true, e);
    }
  }

  lemma MoveExactly(cfg: Config, op: Op, g: Graph, f: Edges)
    requires OpFits(op, g) && Acyclic(g.edges) && AllExact(cfg, g.edges) && Succeeds(cfg, op, g)
    requires op.ReplaceOp? || op.AppendOp? || op.SetPermOp?
    requires SettledBelow(cfg, Edited(cfg, op, g), f, Below(op, g))
    ensures AllExact(cfg, f - Dropped(op, g)) <==> KeepsExact(cfg, op, g)
  {
    assert f - {} == f;
    match op {
      case ReplaceOp(from, to, _) => ReplaceKeepsExact(cfg, g.edges, f, from, to);
      case AppendOp(bsNew, top, e) =>
        AttachKeepsAcyclic(g.edges, e, NewEdge(cfg, g.edges, bsNew, top, BackingRole(cfg, bsNew)), bsNew, top);
        AppendKeepsExact(cfg, g.edges, f, bsNew, top, e);
      case SetPermOp(c, use) => SetPermKeepsExact(cfg, g.edges, f, c, use);
    }
  }

  /** A user that goes away without a refresh leaves the fixpoint if and only if the node it used
      needs the same from its children as before. */
  lemma LeaveExactly(cfg: Config, g: Edges, c: EdgeId)
    requires c in g && g[c].to.Some? && Acyclic(g) && AllExact(cfg, g)
    ensures AllExact(cfg, g - {c}) <==> SameNeeds(cfg, g, g - {c}, g[c].to.value)
  {
    var n := g[c].to.value;
    LeaverExactly(cfg, g, c);
    forall m | m != n ensures Exact(cfg, g - {c}, m) { OthersExact(cfg, g, c, m); }
  }

  lemma LeaverExactly(cfg: Config, g: Edges, c: EdgeId)
    requires c in g && g[c].to.Some? && Acyclic(g) && AllExact(cfg, g)
    ensures Exact(cfg, g - {c}, g[c].to.value) <==> SameNeeds(cfg, g, g - {c}, g[c].to.value)
  {
    var n := g[c].to.value;
    assert Exact(cfg, g, n);
    ReachSelf(g, n);
    if g[c].parent.Some? { assert Link(g, g[c].parent.value, n); }
    forall e ensures e in ChildEdges(g - {c}, n) <==> e in ChildEdges(g, n) { }
  }

  lemma OthersExact(cfg: Config, g: Edges, c: EdgeId, m: Node)
    requires c in g && AllExact(cfg, g) && g[c].to != Some(m)
    ensures Exact(cfg, g - {c}, m)
  {
    var h := g - {c};
    assert Exact(cfg, g, m);
    forall e ensures e in ParentEdges(g, m) <==> e in ParentEdges(h, m) { }
    SameIncoming(g, h, m);
  }

  // ---------------------------------------------------------------- conditions on the calls alone

  /** The operation keeps a valid graph valid whatever the graph: replacing a node takes no forced
      sharing away, and permissions are only set on edges in `roots`, which belong to users that are
      not nodes. */
  ghost predicate Keeps(cfg: Config, op: Op, roots: set<EdgeId>) {
    match op
    case AttachOp(_, _, _, e) => e !in roots
    case SetBackingOp(_, _, _, e) => e !in roots
    case AppendOp(_, _, e) => e !in roots && NoneForces(cfg)
    case ReplaceOp(_, _, _) => NoneForces(cfg)
    case SetPermOp(c, _) => c in roots
    case _ => true
  }

  lemma KeepsAlways(cfg: Config, op: Op, g: Graph, h: Graph, roots: set<EdgeId>)
    requires OpFits(op, g) && Leads(cfg, op, g, h) && RootsOk(g.edges, roots) && Keeps(cfg, op, roots)
    ensures KeepsValid(cfg, op, g) && RootsOk(h.edges, roots)
  {
    EditedParents(cfg, op, g, roots);
    if Succeeds(cfg, op, g) {
      var f :| SettledBelow(cfg, Edited(cfg, op, g), f, Below(op, g)) && h.edges == f - Dropped(op, g);
      SettledParents(cfg, Edited(cfg, op, g), f, Below(op, g));
    }
  }

  lemma EditedParents(cfg: Config, op: Op, g: Graph, roots: set<EdgeId>)
    requires OpFits(op, g) && RootsOk(g.edges, roots) && Keeps(cfg, op, roots)
    ensures RootsOk(Edited(cfg, op, g), roots)
  {
    if op.SetBackingOp? { LinkedParents(cfg, g, op.bs, op.backing, true, op.e); }
  }

  // ---------------------------------------------------------------- runs

  ghost predicate GoodGraph(cfg: Config, g: Graph) {
    SlotsOk(cfg, g) && Acyclic(g.edges)
  }

  /** One operation on a good graph: it leads to a good graph, and from a safe one to a safe one if
      and only if it meets its condition. */
  ghost predicate Step(cfg: Config, op: Op, g: Graph, h: Graph) {
    && GoodGraph(cfg, g) && GoodGraph(cfg, h) && OpFits(op, g) && Leads(cfg, op, g, h)
    && (Monotone(cfg) && Safe(cfg, g.edges) ==> (Safe(cfg, h.edges) <==> KeepsValid(cfg, op, g)))
  }

  /** The edges after an operation are determined by the graph before it. */
  lemma StepUnique(cfg: Config, op: Op, g: Graph, h: Graph, h': Graph)
    requires Step(cfg, op, g, h) && Step(cfg, op, g, h')
    ensures h.edges == h'.edges
  {
    if Succeeds(cfg, op, g) {
      var e, roots := Edited(cfg, op, g), Below(op, g);
      var f :| SettledBelow(cfg, e, f, roots) && h.edges == f - Dropped(op, g);
      var f' :| SettledBelow(cfg, e, f', roots) && h'.edges == f' - Dropped(op, g);
      EditedAcyclic(cfg, op, g, f);
      var list :| ListsBelow(e, roots, list) && Solution(cfg, e, f, list);
      var list' :| ListsBelow(e, roots, list') && Solution(cfg, e, f', list');
      SolutionAnyOrder(cfg, e, f', roots, list', list);
      SolutionUnique(cfg, e, f, f', list);
    }
  }

  lemma EditedAcyclic(cfg: Config, op: Op, g: Graph, f: Edges)
    requires OpFits(op, g) && SlotsOk(cfg, g) && SettledBelow(cfg, Edited(cfg, op, g), f, Below(op, g))
    requires Acyclic(f - Dropped(op, g))
    ensures Acyclic(Edited(cfg, op, g))
  {
    var e := Edited(cfg, op, g);
    if op.SetBackingOp? { OnlyLink(cfg, g, op.bs, op.backing, true, op.e); }
    assert SameShape(e, f);
    assert forall d :: d in Dropped(op, g) && d in e ==> e[d].to == None;
    forall a, b ensures Link(e, a, b) <==> Link(f - Dropped(op, g), a, b) {
      EditedLink(e, f, Dropped(op, g), a, b);
    }
    SameLinksAcyclic(f - Dropped(op, g), e);
  }

  lemma EditedLink(e: Edges, f: Edges, s: set<EdgeId>, a: Node, b: Node)
    requires SameShape(e, f) && forall d :: d in s && d in e ==> e[d].to == None
    ensures Link(e, a, b) <==> Link(f - s, a, b)
  {
    if Link(e, a, b) {
      var d :| d in e && e[d].parent == Some(a) && e[d].to == Some(b);
      assert d in f - s;
    }
  }

  /** The operations lead through these graphs. */
  ghost predicate Went(cfg: Config, ops: seq<Op>, states: seq<Graph>) {
    |states| == |ops| + 1 && forall i :: 0 <= i < |ops| ==> Step(cfg, ops[i], states[i], states[i + 1])
  }

  ghost predicate KeptValid(cfg: Config, ops: seq<Op>, states: seq<Graph>)
    requires |states| == |ops| + 1
  {
    forall i :: 0 <= i < |ops| ==> OpFits(ops[i], states[i]) && KeepsValid(cfg, ops[i], states[i])
  }

  ghost predicate KeptExact(cfg: Config, ops: seq<Op>, states: seq<Graph>)
    requires |states| == |ops| + 1
  {
    forall i :: 0 <= i < |ops| ==> OpFits(ops[i], states[i]) && KeepsExact(cfg, ops[i], states[i])
  }

  ghost predicate KeptAlways(cfg: Config, ops: seq<Op>, roots: set<EdgeId>) {
    forall i :: 0 <= i < |ops| ==> Keeps(cfg, ops[i], roots)
  }

  lemma WentOn(cfg: Config, ops: seq<Op>, states: seq<Graph>, op: Op, h: Graph)
    requires Went(cfg, ops, states) && Step(cfg, op, states[|ops|], h)
    ensures Went(cfg, ops + [op], states + [h])
  {
    var ops', states' := ops + [op], states + [h];
    forall i | 0 <= i < |ops'| ensures Step(cfg, ops'[i], states'[i], states'[i + 1]) {
      if i < |ops| { assert ops'[i] == ops[i] && states'[i] == states[i] && states'[i + 1] == states[i + 1]; }
    }
  }

  /** A run that starts with a valid graph goes through valid graphs only if and only if all its
      operations meet their conditions. */
  lemma RunValidExactly(cfg: Config, ops: seq<Op>, states: seq<Graph>)
    requires Went(cfg, ops, states) && Monotone(cfg) && Safe(cfg, states[0].edges)
    ensures KeptValid(cfg, ops, states) <==> forall i :: 0 <= i <= |ops| ==> Safe(cfg, states[i].edges)
  {
    if KeptValid(cfg, ops, states) {
      for i := 0 to |ops|
        invariant forall j :: 0 <= j <= i ==> Safe(cfg, states[j].edges)
      {
        assert Step(cfg, ops[i], states[i], states[i + 1]);
      }
    } else {
      var i :| 0 <= i < |ops| && !(OpFits(ops[i], states[i]) && KeepsValid(cfg, ops[i], states[i]));
      assert Step(cfg, ops[i], states[i], states[i + 1]);
      assert !Safe(cfg, states[i].edges) || !Safe(cfg, states[i + 1].edges);
    }
  }

  /** So it is with the permission fixpoint. */
  lemma RunExactExactly(cfg: Config, ops: seq<Op>, states: seq<Graph>)
    requires Went(cfg, ops, states) && AllExact(cfg, states[0].edges)
    ensures KeptExact(cfg, ops, states) <==> forall i :: 0 <= i <= |ops| ==> AllExact(cfg, states[i].edges)
  {
    if KeptExact(cfg, ops, states) {
      for i := 0 to |ops|
        invariant forall j :: 0 <= j <= i ==> AllExact(cfg, states[j].edges)
      {
        assert Step(cfg, ops[i], states[i], states[i + 1]);
        StepExactly(cfg, ops[i], states[i], states[i + 1]);
      }
    } else {
      var i :| 0 <= i < |ops| && !(OpFits(ops[i], states[i]) && KeepsExact(cfg, ops[i], states[i]));
      assert Step(cfg, ops[i], states[i], states[i + 1]);
      if AllExact(cfg, states[i].edges) { StepExactly(cfg, ops[i], states[i], states[i + 1]); }
      assert !AllExact(cfg, states[i].edges) || !AllExact(cfg, states[i + 1].edges);
    }
  }

  /** The conditions on the calls alone are enough for the former. */
  lemma RunAlwaysValid(cfg: Config, ops: seq<Op>, states: seq<Graph>, roots: set<EdgeId>)
    requires Went(cfg, ops, states) && RootsOk(states[0].edges, roots) && KeptAlways(cfg, ops, roots)
    ensures KeptValid(cfg, ops, states)
  {
    for i := 0 to |ops|
      invariant RootsOk(states[i].edges, roots)
      invariant forall j :: 0 <= j < i ==> OpFits(ops[j], states[j]) && KeepsValid(cfg, ops[j], states[j])
    {
      assert Step(cfg, ops[i], states[i], states[i + 1]);
      KeepsAlways(cfg, ops[i], states[i], states[i + 1], roots);
    }
  }
}
