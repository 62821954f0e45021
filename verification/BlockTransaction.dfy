/** Graph edits of block.c that can be undone: bdrv_replace_child_noperm with its attach and detach
    callbacks, the log entries, and rolling a log back. */
module BlockTransaction {
  import opened Basics
  import opened BlockPerms
  import opened BlockGraph
  import opened BlockRefresh

  datatype Slot = NoSlot | BackingSlot | FileSlot

  type Key = (Node, Slot)

  /** All a graph transaction may change: the edges, the bs->backing and bs->file slots and
      bs->inherits_from. */
  datatype Graph = Graph(edges: Edges, slots: map<Key, EdgeId>, inherits: map<Node, Node>)

  /** Which slot of `n` an edge of this role occupies: bdrv_child_cb_attach. */
  function SlotOf(cfg: Config, n: Node, role: set<Role>): Slot {
    if cfg.info(n).isFilter || Filtered in role then
      if Primary !in role then NoSlot else if cfg.info(n).filteredIsBacking then BackingSlot else FileSlot
    else if Cow in role then BackingSlot
    else if Primary in role then FileSlot
    else NoSlot
  }

  /** The slot an edge occupies, if any. */
  function KeyOf(cfg: Config, x: Edge): Option<Key> {
    if x.parent.Some? && SlotOf(cfg, x.parent.value, x.role) != NoSlot
    then Some((x.parent.value, SlotOf(cfg, x.parent.value, x.role)))
    else None
  }

  /** bdrv_child_cb_attach */
  function AttachSlot(cfg: Config, slots: map<Key, EdgeId>, e: EdgeId, x: Edge): map<Key, EdgeId> {
    match KeyOf(cfg, x) case None => slots case Some(k) => slots[k := e]
  }

  /** bdrv_child_cb_detach: the slot of the parent that holds the edge is emptied. */
  function DetachSlot(slots: map<Key, EdgeId>, e: EdgeId, x: Edge): map<Key, EdgeId> {
    if x.parent == None then slots
    else
      var n := x.parent.value;
      if (n, BackingSlot) in slots && slots[(n, BackingSlot)] == e then slots - {(n, BackingSlot)}
      else if (n, FileSlot) in slots && slots[(n, FileSlot)] == e then slots - {(n, FileSlot)}
      else slots
  }

  predicate SlotFree(cfg: Config, g: Graph, x: Edge) { KeyOf(cfg, x).Some? ==> KeyOf(cfg, x).value !in g.slots }

  /** The slots hold exactly the attached edges that belong there. */
  ghost predicate SlotsOk(cfg: Config, g: Graph) {
    && (forall e :: e in g.edges && g.edges[e].to.Some? && KeyOf(cfg, g.edges[e]).Some? ==>
          KeyOf(cfg, g.edges[e]).value in g.slots && g.slots[KeyOf(cfg, g.edges[e]).value] == e)
    && (forall k :: k in g.slots ==>
          g.slots[k] in g.edges && g.edges[g.slots[k]].to.Some? && KeyOf(cfg, g.edges[g.slots[k]]) == Some(k))
  }

  /** bdrv_replace_child_noperm */
  function ReplaceChild(cfg: Config, g: Graph, e: EdgeId, to: Option<Node>): Graph
    requires e in g.edges
  {
    var x := g.edges[e];
    var slots := if x.to.Some? then DetachSlot(g.slots, e, x) else g.slots;
    var slots := if to.Some? then AttachSlot(cfg, slots, e, x) else slots;
    g.(edges := g.edges[e := x.(to := to)], slots := slots)
  }

  /** Detaching an edge empties exactly the slot it belongs in. */
  lemma DetachEmpties(cfg: Config, g: Graph, e: EdgeId)
    requires SlotsOk(cfg, g) && e in g.edges && g.edges[e].to.Some?
    ensures var k := KeyOf(cfg, g.edges[e]);
            && DetachSlot(g.slots, e, g.edges[e]) == (if k.Some? then g.slots - {k.value} else g.slots)
            && (k.Some? ==> k.value in g.slots && g.slots[k.value] == e)
  {
  }

  /** What replacing does to the slots: an edge that stays attached keeps its slot, one that is
      emptied gives it up, one that is filled takes it. */
  lemma ReplaceChildSlots(cfg: Config, g: Graph, e: EdgeId, to: Option<Node>)
    requires SlotsOk(cfg, g) && e in g.edges
    ensures var k := KeyOf(cfg, g.edges[e]);
            var h := ReplaceChild(cfg, g, e, to);
            h.slots == if k == None || (g.edges[e].to.Some? == to.Some?) then g.slots
                       else if to.Some? then g.slots[k.value := e] else g.slots - {k.value}
  {
    if g.edges[e].to.Some? {
      DetachEmpties(cfg, g, e);
      var k := KeyOf(cfg, g.edges[e]);
      if k.Some? { assert (g.slots - {k.value})[k.value := e] == g.slots; }
    }
  }

  /** The assertions of bdrv_replace_child_noperm and its callbacks. */
  predicate CanReplace(cfg: Config, g: Graph, e: EdgeId, to: Option<Node>) {
    && e in g.edges && !g.edges[e].frozen && g.edges[e].to != to
    && (g.edges[e].to == None && to.Some? ==> SlotFree(cfg, g, g.edges[e]))
  }

  /** A log entry, with what is needed to undo it. */
  datatype Action =
    | SetPerm(e: EdgeId, oldUse: Use)
    | DrvSetPerm(n: Node)
    | Replaced(e: EdgeId, oldTo: Option<Node>)
    | Attached(e: EdgeId)
    | Removed(e: EdgeId)
    | SetInherits(n: Node, oldFrom: Option<Node>)

  function PutInherits(m: map<Node, Node>, n: Node, from: Option<Node>): map<Node, Node> {
    match from case None => m - {n} case Some(p) => m[n := p]
  }

  /** The abort callback of a log entry. */
  function Undo(cfg: Config, g: Graph, a: Action): Graph {
    match a
    case SetPerm(e, use) => if e in g.edges then g.(edges := g.edges[e := g.edges[e].(use := use)]) else g
    case DrvSetPerm(_) => g
    case Replaced(e, to) => if e in g.edges then ReplaceChild(cfg, g, e, to) else g
    case Attached(e) => if e in g.edges then var h := ReplaceChild(cfg, g, e, None); h.(edges := h.edges - {e}) else g
    case Removed(_) => g
    case SetInherits(n, from) => g.(inherits := PutInherits(g.inherits, n, from))
  }

  /** tran_abort: the entries are undone last to first. */
  function UndoAll(cfg: Config, g: Graph, log: seq<Action>): Graph
    decreases |log|
  {
    if log == [] then g else UndoAll(cfg, Undo(cfg, g, log[|log| - 1]), log[..|log| - 1])
  }

  lemma UndoLast(cfg: Config, g: Graph, h: Graph, log: seq<Action>, a: Action)
    requires Undo(cfg, h, a) == g
    ensures UndoAll(cfg, h, log + [a]) == UndoAll(cfg, g, log)
    ensures EntryOk(cfg, h, a) && Undoable(cfg, g, log) ==> Undoable(cfg, h, log + [a])
  {
    assert (log + [a])[..|log + [a]| - 1] == log;
  }

  /** Undoing the entry trips no assertion of its abort callback. */
  predicate EntryOk(cfg: Config, g: Graph, a: Action) {
    match a
    case SetPerm(e, _) => e in g.edges
    case Replaced(e, to) => CanReplace(cfg, g, e, to)
    case Attached(e) => CanReplace(cfg, g, e, None)
    case _ => true
  }

  /** The whole log can be undone. */
  predicate Undoable(cfg: Config, g: Graph, log: seq<Action>)
    decreases |log|
  {
    log != [] ==> EntryOk(cfg, g, log[|log| - 1]) && Undoable(cfg, Undo(cfg, g, log[|log| - 1]), log[..|log| - 1])
  }

  // ---------------------------------------------------------------- each edit can be undone

  lemma ReplaceChildKeepsSlots(cfg: Config, g: Graph, e: EdgeId, to: Option<Node>)
    requires SlotsOk(cfg, g) && CanReplace(cfg, g, e, to)
    ensures SlotsOk(cfg, ReplaceChild(cfg, g, e, to))
  {
    var h := ReplaceChild(cfg, g, e, to);
    ReplaceChildSlots(cfg, g, e, to);
    assert KeyOf(cfg, h.edges[e]) == KeyOf(cfg, g.edges[e]);
    forall k | k in h.slots
      ensures h.slots[k] in h.edges && h.edges[h.slots[k]].to.Some? && KeyOf(cfg, h.edges[h.slots[k]]) == Some(k)
    {
      if h.slots[k] != e { assert k in g.slots && g.slots[k] == h.slots[k]; }
    }
    forall d | d in h.edges && h.edges[d].to.Some? && KeyOf(cfg, h.edges[d]).Some?
      ensures KeyOf(cfg, h.edges[d]).value in h.slots && h.slots[KeyOf(cfg, h.edges[d]).value] == d
    {
      if d != e { assert h.edges[d] == g.edges[d]; }
    }
  }

  /** Redirecting or emptying an edge and putting it back restores everything, slots included. */
  lemma UndoReplace(cfg: Config, g: Graph, e: EdgeId, to: Option<Node>)
    requires SlotsOk(cfg, g) && CanReplace(cfg, g, e, to) && g.edges[e].to.Some?
    ensures Undo(cfg, ReplaceChild(cfg, g, e, to), Replaced(e, g.edges[e].to)) == g
    ensures EntryOk(cfg, ReplaceChild(cfg, g, e, to), Replaced(e, g.edges[e].to))
  {
    var h := ReplaceChild(cfg, g, e, to);
    ReplaceChildSlots(cfg, g, e, to);
    ReplaceChildKeepsSlots(cfg, g, e, to);
    ReplaceChildSlots(cfg, h, e, g.edges[e].to);
    var k := KeyOf(cfg, g.edges[e]);
    if k.Some? && to == None { assert (g.slots - {k.value})[k.value := e] == g.slots; }
    assert h.edges[e := g.edges[e]] == g.edges;
  }

  /** Inserting a new edge: bdrv_attach_child_common. */
  function Insert(cfg: Config, g: Graph, e: EdgeId, x: Edge): Graph {
    ReplaceChild(cfg, g.(edges := g.edges[e := x.(to := None)]), e, x.to)
  }

  lemma InsertKeepsSlots(cfg: Config, g: Graph, e: EdgeId, x: Edge)
    requires SlotsOk(cfg, g) && e !in g.edges && x.to.Some? && !x.frozen && SlotFree(cfg, g, x)
    ensures SlotsOk(cfg, Insert(cfg, g, e, x))
    ensures Insert(cfg, g, e, x).edges == g.edges[e := x]
    ensures Insert(cfg, g, e, x).slots == AttachSlot(cfg, g.slots, e, x)
  {
    var g0 := g.(edges := g.edges[e := x.(to := None)]);
    assert SlotsOk(cfg, g0) by { EmptyEdgeSlots(cfg, g, e, x); }
    ReplaceChildKeepsSlots(cfg, g0, e, x.to);
  }

  lemma EmptyEdgeSlots(cfg: Config, g: Graph, e: EdgeId, x: Edge)
    requires SlotsOk(cfg, g) && e !in g.edges
    ensures SlotsOk(cfg, g.(edges := g.edges[e := x.(to := None)]))
  {
  }

  lemma UndoInsert(cfg: Config, g: Graph, e: EdgeId, x: Edge)
    requires SlotsOk(cfg, g) && e !in g.edges && x.to.Some? && !x.frozen && SlotFree(cfg, g, x)
    ensures Undo(cfg, Insert(cfg, g, e, x), Attached(e)) == g && EntryOk(cfg, Insert(cfg, g, e, x), Attached(e))
  {
    var g0 := g.(edges := g.edges[e := x.(to := None)]);
    var h := Insert(cfg, g, e, x);
    EmptyEdgeSlots(cfg, g, e, x);
    InsertKeepsSlots(cfg, g, e, x);
    ReplaceChildSlots(cfg, g0, e, x.to);
    ReplaceChildSlots(cfg, h, e, None);
    var k := KeyOf(cfg, x);
    if k.Some? { assert g.slots[k.value := e] - {k.value} == g.slots; }
    assert g.edges[e := x][e := x.(to := None)] - {e} == g.edges;
  }

  lemma UndoSetPerm(cfg: Config, g: Graph, e: EdgeId, use: Use)
    requires e in g.edges
    ensures Undo(cfg, g.(edges := g.edges[e := g.edges[e].(use := use)]), SetPerm(e, g.edges[e].use)) == g
  {
    assert g.edges[e := g.edges[e].(use := use)][e := g.edges[e]] == g.edges;
  }

  function InheritsOf(g: Graph, n: Node): Option<Node> {
    if n in g.inherits then Some(g.inherits[n]) else None
  }

  lemma UndoSetInherits(cfg: Config, g: Graph, n: Node, from: Option<Node>)
    ensures Undo(cfg, g.(inherits := PutInherits(g.inherits, n, from)), SetInherits(n, InheritsOf(g, n))) == g
  {
    var u := PutInherits(PutInherits(g.inherits, n, from), n, InheritsOf(g, n));
    assert u == g.inherits;
  }
}
