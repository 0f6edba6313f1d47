/** Re-evaluation of a node's children with the Speech node's virtual-parent
    override, node entry of a virtual parent, and the End node's overrides.
    The variant is dispatched by a match on the node's kind. */
module DlgNodeSpeech {
  import opened DlgTypes
  import opened DlgNode
  import opened DlgContext

  /** What re-evaluation reads of the dialogue: the node array and the edges of
      each node. */
  datatype Graph = Graph(nodes: seq<Node>, edges: map<Node, seq<Edge>>)

  /** What re-evaluation writes: the context's two option lists and each node's
      first-satisfied-direct-child index. */
  datatype EvalState = EvalState(options: seq<Edge>, allOptions: seq<Edge>, childIndex: map<Node, int>)

  predicate Covers(g: Graph, n: Node) {
    n in g.edges && forall m :: m in g.nodes ==> m in g.edges
  }

  function NodeSet(g: Graph): set<Node> {
    set m | m in g.nodes
  }

  predicate IsVirtualParent(n: Node) {
    n.kind.Speech? && n.kind.isVirtualParent
  }

  /** An edge the virtual parent may follow: it evaluates true and its target
      node exists. */
  predicate Qualifies(o: Oracle, g: Graph, n: Node, e: Edge) {
    o.edgeSatisfied(n, e) && 0 <= e.targetIndex < |g.nodes|
  }

  /** The index of the first edge of `edges` that qualifies, |edges| if none does. */
  function FirstQualifying(o: Oracle, g: Graph, n: Node, edges: seq<Edge>): (k: nat)
    ensures k <= |edges|
    ensures k < |edges| ==> Qualifies(o, g, n, edges[k])
    ensures forall j :: 0 <= j < k ==> !Qualifies(o, g, n, edges[j])
    decreases |edges|
  {
    if edges == [] then 0
    else if Qualifies(o, g, n, edges[0]) then 0
    else 1 + FirstQualifying(o, g, n, edges[1..])
  }

  lemma MeasureShrinks(s: set<Node>, n: Node, already: set<Node>)
    requires n !in already
    ensures |s - (already + {n})| < |s + {n} - already|
  {
    var rest := s - (already + {n});
    assert s + {n} - already == rest + {n};
    assert n !in rest;
  }

  /** The base-class re-evaluation: its verdict and the option lists it leaves. */
  function BaseStep(o: Oracle, n: Node, already: set<Node>, s: EvalState): (bool, EvalState) {
    (o.baseReevaluate(n, already), s.(options := o.baseOptions(n, already), allOptions := o.baseAllOptions(n, already)))
  }

  /** ReevaluateChildren of node `n` with the set of virtual parents already
      evaluated in this chain, as a transformer of the state it writes. */
  function Reevaluate(o: Oracle, g: Graph, n: Node, already: set<Node>, s: EvalState): (r: (bool, EvalState))
    requires Covers(g, n) && s.childIndex.Keys == g.edges.Keys
    ensures r.1.childIndex.Keys == s.childIndex.Keys
    ensures n.kind.End? ==> r == (false, s)
    ensures IsVirtualParent(n) && n in already ==> r == (false, EvalState([], [], s.childIndex[n := IndexNone]))
    ensures !n.kind.End? && !IsVirtualParent(n) ==> r == BaseStep(o, n, already, s)
    decreases |NodeSet(g) + {n} - already|, 0, 0
  {
    match n.kind
    case End => (false, s)
    case Start => BaseStep(o, n, already, s)
    case Speech(isVirtualParent, _, _) =>
      if !isVirtualParent then BaseStep(o, n, already, s)
      else
        var cleared := EvalState([], [], s.childIndex[n := IndexNone]);
        if n in already then (false, cleared)
        else
          MeasureShrinks(NodeSet(g), n, already);
          ScanEdges(o, g, n, already + {n}, g.edges[n], 0, cleared)
  }

  /** The virtual parent's loop over its edges from position `i`: the first edge
      that qualifies decides the outcome. */
  function ScanEdges(o: Oracle, g: Graph, n: Node, seen: set<Node>, edges: seq<Edge>, i: nat, s: EvalState): (r: (bool, EvalState))
    requires Covers(g, n) && s.childIndex.Keys == g.edges.Keys && i <= |edges|
    ensures r.1.childIndex.Keys == s.childIndex.Keys
    decreases |NodeSet(g) - seen|, 1, |edges| - i
  {
    if i == |edges| then (false, s)
    else if Qualifies(o, g, n, edges[i]) then Descend(o, g, n, seen, edges[i], s)
    else ScanEdges(o, g, n, seen, edges, i + 1, s)
  }

  /** Following a qualifying edge: re-evaluate its target; on success the
      virtual parent records the target index. */
  function Descend(o: Oracle, g: Graph, n: Node, seen: set<Node>, e: Edge, s: EvalState): (r: (bool, EvalState))
    requires Covers(g, n) && s.childIndex.Keys == g.edges.Keys && Qualifies(o, g, n, e)
    ensures r.1.childIndex.Keys == s.childIndex.Keys
    decreases |NodeSet(g) - seen|, 1, 0
  {
    var child := g.nodes[e.targetIndex];
    assert NodeSet(g) + {child} == NodeSet(g);
    var (b, s') := Reevaluate(o, g, child, seen, s);
    (b, if b then s'.(childIndex := s'.childIndex[n := e.targetIndex]) else s')
  }

  /** A virtual parent not yet in the chain scans its edges from the cleared
      state, with itself added to the chain. */
  lemma VirtualParentScans(o: Oracle, g: Graph, n: Node, already: set<Node>, s: EvalState)
    requires Covers(g, n) && s.childIndex.Keys == g.edges.Keys
    requires IsVirtualParent(n) && n !in already
    ensures Reevaluate(o, g, n, already, s) ==
      ScanEdges(o, g, n, already + {n}, g.edges[n], 0, EvalState([], [], s.childIndex[n := IndexNone]))
  {
  }

  /** Scanning from `i` reaches the first qualifying edge at or after `i` and
      follows it. */
  lemma {:induction false} ScanFollowsFirstQualifying(o: Oracle, g: Graph, n: Node, seen: set<Node>, edges: seq<Edge>, i: nat, k: nat, s: EvalState)
    requires Covers(g, n) && s.childIndex.Keys == g.edges.Keys
    requires i <= k < |edges| && Qualifies(o, g, n, edges[k])
    requires forall j :: i <= j < k ==> !Qualifies(o, g, n, edges[j])
    ensures ScanEdges(o, g, n, seen, edges, i, s) == Descend(o, g, n, seen, edges[k], s)
    decreases k - i
  {
    if i < k {
      ScanFollowsFirstQualifying(o, g, n, seen, edges, i + 1, k, s);
    }
  }

  /** When no edge from `i` on qualifies, the scan fails and changes nothing. */
  lemma {:induction false} ScanWithoutQualifyingEdge(o: Oracle, g: Graph, n: Node, seen: set<Node>, edges: seq<Edge>, i: nat, s: EvalState)
    requires Covers(g, n) && s.childIndex.Keys == g.edges.Keys && i <= |edges|
    requires forall j :: i <= j < |edges| ==> !Qualifies(o, g, n, edges[j])
    ensures ScanEdges(o, g, n, seen, edges, i, s) == (false, s)
    decreases |edges| - i
  {
    if i < |edges| {
      ScanWithoutQualifyingEdge(o, g, n, seen, edges, i + 1, s);
    }
  }

  /** No edge after the first qualifying one is examined: the scan over the
      edges cut right after it gives the same outcome. */
  lemma ScanIgnoresLaterEdges(o: Oracle, g: Graph, n: Node, seen: set<Node>, edges: seq<Edge>, k: nat, s: EvalState)
    requires Covers(g, n) && s.childIndex.Keys == g.edges.Keys
    requires k < |edges| && k == FirstQualifying(o, g, n, edges)
    ensures ScanEdges(o, g, n, seen, edges, 0, s) == ScanEdges(o, g, n, seen, edges[..k + 1], 0, s)
  {
    ScanFollowsFirstQualifying(o, g, n, seen, edges, 0, k, s);
    ScanFollowsFirstQualifying(o, g, n, seen, edges[..k + 1], 0, k, s);
  }

  /** A virtual parent that is not yet in the chain: with no qualifying edge it
      fails; otherwise its outcome is the re-evaluation of the first qualifying
      edge's target, with itself added to the chain and both option lists
      emptied. */
  lemma VirtualParentFollowsFirstQualifyingEdge(o: Oracle, g: Graph, n: Node, already: set<Node>, s: EvalState)
    requires Covers(g, n) && s.childIndex.Keys == g.edges.Keys
    requires IsVirtualParent(n) && n !in already
    ensures var k := FirstQualifying(o, g, n, g.edges[n]);
            var cleared := EvalState([], [], s.childIndex[n := IndexNone]);
            if k == |g.edges[n]| then Reevaluate(o, g, n, already, s) == (false, cleared)
            else Reevaluate(o, g, n, already, s).0 ==
                   Reevaluate(o, g, g.nodes[g.edges[n][k].targetIndex], already + {n}, cleared).0
  {
    var edges := g.edges[n];
    var k := FirstQualifying(o, g, n, edges);
    var cleared := EvalState([], [], s.childIndex[n := IndexNone]);
    if k == |edges| {
      ScanWithoutQualifyingEdge(o, g, n, already + {n}, edges, 0, cleared);
    } else {
      ScanFollowsFirstQualifying(o, g, n, already + {n}, edges, 0, k, cleared);
    }
  }

  /** A node already in the chain keeps its child index or has it reset to
      IndexNone; nothing deeper in the chain records a target for it. */
  lemma {:induction false} ChainMembersOnlyReset(o: Oracle, g: Graph, n: Node, already: set<Node>, s: EvalState, m: Node)
    requires Covers(g, n) && s.childIndex.Keys == g.edges.Keys
    requires m in already && m in g.edges
    ensures var c := Reevaluate(o, g, n, already, s).1.childIndex[m];
            c == s.childIndex[m] || c == IndexNone
    decreases |NodeSet(g) + {n} - already|, 0, 0
  {
    if IsVirtualParent(n) && n !in already {
      var cleared := EvalState([], [], s.childIndex[n := IndexNone]);
      MeasureShrinks(NodeSet(g), n, already);
      ScanMembersOnlyReset(o, g, n, already + {n}, g.edges[n], 0, cleared, m);
    }
  }

  lemma {:induction false} ScanMembersOnlyReset(o: Oracle, g: Graph, n: Node, seen: set<Node>, edges: seq<Edge>, i: nat, s: EvalState, m: Node)
    requires Covers(g, n) && s.childIndex.Keys == g.edges.Keys && i <= |edges|
    requires m in seen && m in g.edges && m != n
    ensures var c := ScanEdges(o, g, n, seen, edges, i, s).1.childIndex[m];
            c == s.childIndex[m] || c == IndexNone
    decreases |NodeSet(g) - seen|, 1, |edges| - i
  {
    if i < |edges| {
      if Qualifies(o, g, n, edges[i]) {
        var child := g.nodes[edges[i].targetIndex];
        assert NodeSet(g) + {child} == NodeSet(g);
        ChainMembersOnlyReset(o, g, child, seen, s, m);
      } else {
        ScanMembersOnlyReset(o, g, n, seen, edges, i + 1, s, m);
      }
    }
  }

  /** After re-evaluating a virtual parent that is not yet in the chain, its
      child index is the first qualifying edge's target when the outcome is
      true, and IndexNone otherwise. */
  lemma VirtualParentChildIndex(o: Oracle, g: Graph, n: Node, already: set<Node>, s: EvalState)
    requires Covers(g, n) && s.childIndex.Keys == g.edges.Keys
    requires IsVirtualParent(n) && n !in already
    ensures var r := Reevaluate(o, g, n, already, s);
            var k := FirstQualifying(o, g, n, g.edges[n]);
            if r.0 then k < |g.edges[n]| && r.1.childIndex[n] == g.edges[n][k].targetIndex
            else r.1.childIndex[n] == IndexNone
  {
    var edges := g.edges[n];
    var k := FirstQualifying(o, g, n, edges);
    var seen := already + {n};
    var cleared := EvalState([], [], s.childIndex[n := IndexNone]);
    if k == |edges| {
      ScanWithoutQualifyingEdge(o, g, n, seen, edges, 0, cleared);
    } else {
      ScanFollowsFirstQualifying(o, g, n, seen, edges, 0, k, cleared);
      var child := g.nodes[edges[k].targetIndex];
      assert NodeSet(g) + {child} == NodeSet(g);
      MeasureShrinks(NodeSet(g), n, already);
      ChainMembersOnlyReset(o, g, child, seen, cleared, n);
    }
  }

  /** Each node's first-satisfied-direct-child index, as found in the heap. */
  ghost function ChildIndexOf(g: Graph): (c: map<Node, int>)
    reads g.edges.Keys
    ensures c.Keys == g.edges.Keys
  {
    map m | m in g.edges :: m.virtualParentFirstSatisfiedDirectChildIndex
  }

  /** The state re-evaluation writes, as found in the heap. */
  ghost function StateOf(ctx: Context, g: Graph): (s: EvalState)
    reads ctx, g.edges.Keys
    ensures s.childIndex.Keys == g.edges.Keys
  {
    EvalState(ctx.options, ctx.allOptions, ChildIndexOf(g))
  }

  /** The base-class ReevaluateChildren, whose body is not part of this model. */
  method BaseReevaluateChildren(n: Node, ctx: Context, already: set<Node>, o: Oracle, ghost g: Graph) returns (r: bool)
    modifies ctx`options, ctx`allOptions
    ensures (r, StateOf(ctx, g)) == BaseStep(o, n, already, old(StateOf(ctx, g)))
  {
    r := o.baseReevaluate(n, already);
    ctx.options := o.baseOptions(n, already);
    ctx.allOptions := o.baseAllOptions(n, already);
  }

  /** ReevaluateChildren, dispatched on the node's kind: End fails, Start and a
      Speech node that is not a virtual parent use the base class, and a virtual
      parent resets its child index, empties both option lists, fails if it is
      already in the chain, and otherwise follows its first qualifying edge. */
  method ReevaluateChildren(n: Node, ctx: Context, already: set<Node>, o: Oracle, ghost g: Graph) returns (r: bool)
    requires g.nodes == ctx.nodes && Covers(g, n)
    requires forall m | m in g.edges :: m.children == g.edges[m]
    modifies ctx`options, ctx`allOptions, ctx.nodes, n
    ensures forall m | m in g.edges :: m.children == g.edges[m]
    ensures forall m | m in g.edges ::
      m.ownerName == old(m.ownerName) && m.enterConditions == old(m.enterConditions) &&
      m.enterRestriction == old(m.enterRestriction) && m.enterEvents == old(m.enterEvents)
    ensures (r, StateOf(ctx, g)) == Reevaluate(o, g, n, already, old(StateOf(ctx, g)))
    decreases |NodeSet(g) + {n} - already|, 0, 1
  {
    match n.kind {
      case End =>
        r := false;
      case Start =>
        r := BaseReevaluateChildren(n, ctx, already, o, g);
      case Speech(isVirtualParent, _, _) =>
        if !isVirtualParent {
          r := BaseReevaluateChildren(n, ctx, already, o, g);
        } else {
          r := ReevaluateVirtualParent(n, ctx, already, o, g);
        }
    }
  }

  /** The virtual-parent branch of ReevaluateChildren: the child index is reset,
      both option lists are emptied, a node already in the chain fails, and any
      other follows its first qualifying edge. */
  method ReevaluateVirtualParent(n: Node, ctx: Context, already: set<Node>, o: Oracle, ghost g: Graph) returns (r: bool)
    requires g.nodes == ctx.nodes && Covers(g, n) && IsVirtualParent(n)
    requires forall m | m in g.edges :: m.children == g.edges[m]
    modifies ctx`options, ctx`allOptions, ctx.nodes, n
    ensures forall m | m in g.edges :: m.children == g.edges[m]
    ensures forall m | m in g.edges ::
      m.ownerName == old(m.ownerName) && m.enterConditions == old(m.enterConditions) &&
      m.enterRestriction == old(m.enterRestriction) && m.enterEvents == old(m.enterEvents)
    ensures (r, StateOf(ctx, g)) == Reevaluate(o, g, n, already, old(StateOf(ctx, g)))
    decreases |NodeSet(g) + {n} - already|, 0, 0
  {
    ghost var s0 := StateOf(ctx, g);
    ResetVirtualParent(n, ctx, g);
    if n in already {
      r := false;
    } else {
      MeasureShrinks(NodeSet(g), n, already);
      VirtualParentScans(o, g, n, already, s0);
      r := FollowFirstQualifyingEdge(n, ctx, already + {n}, o, g);
    }
  }

  /** The first half of the virtual-parent branch: the child index of `n` is
      reset and both option lists are emptied. */
  method ResetVirtualParent(n: Node, ctx: Context, ghost g: Graph)
    requires n in g.edges
    modifies ctx`options, ctx`allOptions, n`virtualParentFirstSatisfiedDirectChildIndex
    ensures StateOf(ctx, g) == EvalState([], [], old(StateOf(ctx, g)).childIndex[n := IndexNone])
  {
    n.virtualParentFirstSatisfiedDirectChildIndex := IndexNone;
    ctx.options := [];
    ctx.allOptions := [];
  }

  /** The virtual parent's loop over its edges, run with the option lists
      emptied and its child index reset: the first edge that evaluates true and
      whose target exists is followed and decides the outcome; the child index is
      set to that target only when the target's re-evaluation succeeds. */
  method FollowFirstQualifyingEdge(n: Node, ctx: Context, seen: set<Node>, o: Oracle, ghost g: Graph) returns (r: bool)
    requires g.nodes == ctx.nodes && Covers(g, n) && n in seen
    requires forall m | m in g.edges :: m.children == g.edges[m]
    modifies ctx`options, ctx`allOptions, ctx.nodes, n
    ensures forall m | m in g.edges :: m.children == g.edges[m]
    ensures forall m | m in g.edges ::
      m.ownerName == old(m.ownerName) && m.enterConditions == old(m.enterConditions) &&
      m.enterRestriction == old(m.enterRestriction) && m.enterEvents == old(m.enterEvents)
    ensures (r, StateOf(ctx, g)) == ScanEdges(o, g, n, seen, g.edges[n], 0, old(StateOf(ctx, g)))
    decreases |NodeSet(g) - seen|, 1, |g.edges[n]|
  {
    ghost var s0 := StateOf(ctx, g);
    var edges := n.children;
    var i := 0;
    while i < |edges| && !(o.edgeSatisfied(n, edges[i]) && ctx.GetMutableNodeFromIndex(edges[i].targetIndex) != null)
      invariant 0 <= i <= |edges| && edges == g.edges[n]
      invariant forall j :: 0 <= j < i ==> !Qualifies(o, g, n, edges[j])
    {
      i := i + 1;
    }
    if i == |edges| {
      ScanWithoutQualifyingEdge(o, g, n, seen, edges, 0, s0);
      return false;
    }
    var e := edges[i];
    var child := ctx.GetMutableNodeFromIndex(e.targetIndex);
    ScanFollowsFirstQualifying(o, g, n, seen, edges, 0, i, s0);
    assert NodeSet(g) + {child} == NodeSet(g);
    r := ReevaluateChildren(child, ctx, seen, o, g);
    if r {
      RecordChildIndex(n, e.targetIndex, g);
    }
  }

  /** Sets the child index of `n`; every other node's index is unchanged. */
  method RecordChildIndex(n: Node, index: int, ghost g: Graph)
    requires n in g.edges
    modifies n`virtualParentFirstSatisfiedDirectChildIndex
    ensures ChildIndexOf(g) == old(ChildIndexOf(g))[n := index]
  {
    n.virtualParentFirstSatisfiedDirectChildIndex := index;
  }

  /** HandleNodeEnter after the base-class entry returned `baseResult`: the result
      is the base result; when it is true and the node is a virtual parent whose
      recorded child index is valid, the child is recorded as visited and, if the
      node asks for it, the child's enter events are fired. */
  method HandleNodeEnter(n: Node, ctx: Context, baseResult: bool) returns (r: bool)
    modifies ctx`visited, ctx`firedEvents
    ensures r == baseResult
    ensures var k := n.virtualParentFirstSatisfiedDirectChildIndex;
            if baseResult && IsVirtualParent(n) && ctx.IsValidNodeIndex(k) then
              ctx.visited == old(ctx.visited) + {Visit(k, ctx.nodes[k].guid)} &&
              ctx.firedEvents == old(ctx.firedEvents) +
                (if n.kind.fireDirectChildEnterEvents then ctx.nodes[k].enterEvents else [])
            else
              ctx.visited == old(ctx.visited) && ctx.firedEvents == old(ctx.firedEvents)
  {
    r := baseResult;
    var k := n.virtualParentFirstSatisfiedDirectChildIndex;
    if r && IsVirtualParent(n) && ctx.IsValidNodeIndex(k) {
      ctx.SetNodeVisited(k, ctx.GetNodeGUIDForIndex(k));
      if n.kind.fireDirectChildEnterEvents {
        var child := ctx.GetMutableNodeFromIndex(k);
        if child != null {
          ctx.FireNodeEnterEvents(child);
        }
      }
    }
  }

  /** OptionSelected: an End node refuses every option; the other kinds use the
      base class. */
  method OptionSelected(n: Node, optionIndex: int, fromAll: bool, o: Oracle) returns (r: bool)
    ensures n.kind.End? ==> !r
    ensures !n.kind.End? ==> r == o.baseOptionSelected(n, optionIndex, fromAll)
  {
    if n.kind.End? {
      r := false;
    } else {
      r := o.baseOptionSelected(n, optionIndex, fromAll);
    }
  }
}
