/** The part of a running dialogue context (UDlgContext) that node entry and
    re-evaluation touch, and the verdicts of engine code whose bodies are not
    part of this model. */
module DlgContext {
  import opened DlgTypes
  import opened DlgNode

  /** One entry of the visit history. */
  datatype Visit = Visit(nodeIndex: int, nodeGuid: Guid)

  /** Engine behaviour outside this model, as total functions:
      - edgeSatisfied(n, e): FDlgEdge::Evaluate of edge `e` of node `n`;
      - baseReevaluate / baseOptions / baseAllOptions: the verdict of the base-class
        UDlgNode::ReevaluateChildren for a node and an already-evaluated set, and the
        satisfied and all option lists it leaves in the context;
      - baseOptionSelected: the verdict of the base-class UDlgNode::OptionSelected. */
  datatype Oracle = Oracle(
    edgeSatisfied: (Node, Edge) -> bool,
    baseReevaluate: (Node, set<Node>) -> bool,
    baseOptions: (Node, set<Node>) -> seq<Edge>,
    baseAllOptions: (Node, set<Node>) -> seq<Edge>,
    baseOptionSelected: (Node, int, bool) -> bool)

  class Context {
    /** The nodes of the dialogue this context runs; read-only during a session. */
    const nodes: seq<Node>
    /** The satisfied options of the active node. */
    var options: seq<Edge>
    /** All options of the active node, satisfied or not. */
    var allOptions: seq<Edge>
    /** The visit history of this context. */
    var visited: set<Visit>
    /** The enter events fired so far, in firing order. */
    var firedEvents: seq<Event>

    constructor (nodes: seq<Node>)
      ensures this.nodes == nodes && options == [] && allOptions == []
      ensures visited == {} && firedEvents == []
    {
      this.nodes := nodes;
      options := [];
      allOptions := [];
      visited := {};
      firedEvents := [];
    }

    predicate IsValidNodeIndex(index: int) {
      0 <= index < |nodes|
    }

    /** The node at `index`, or null when the index is out of range. */
    function GetMutableNodeFromIndex(index: int): (n: Node?)
      ensures n == null <==> !IsValidNodeIndex(index)
      ensures n != null ==> n == nodes[index]
    {
      if 0 <= index < |nodes| then nodes[index] else null
    }

    /** The GUID of the node at `index`, or the invalid GUID when out of range. */
    function GetNodeGUIDForIndex(index: int): (g: Guid)
      ensures !IsValidNodeIndex(index) ==> g == InvalidGuid
      ensures IsValidNodeIndex(index) ==> g == nodes[index].GetGUID()
    {
      if 0 <= index < |nodes| then nodes[index].guid else InvalidGuid
    }

    method SetNodeVisited(index: int, nodeGuid: Guid)
      modifies this`visited
      ensures visited == old(visited) + {Visit(index, nodeGuid)}
    {
      visited := visited + {Visit(index, nodeGuid)};
    }

    /** Fires the enter events of `n`, in order. */
    method FireNodeEnterEvents(n: Node)
      modifies this`firedEvents
      ensures firedEvents == old(firedEvents) + n.enterEvents
    {
      firedEvents := firedEvents + n.enterEvents;
    }
  }
}
