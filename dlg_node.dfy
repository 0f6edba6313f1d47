/** A dialogue node (UDlgNode) as a closed variant: the fields every node has,
    the operations on its edge list and enter data, the base-class defaults and
    the gathering of the participants a node is associated with. */
module DlgNode {
  import opened DlgTypes

  /** The node variants. Only Speech carries data of its own here: the
      virtual-parent flags and its text arguments. */
  datatype NodeKind =
    | Start
    | Speech(isVirtualParent: bool, fireDirectChildEnterEvents: bool, textArguments: seq<TextArgument>)
    | End

  predicate NoDuplicates(s: seq<Name>) {
    forall i, j :: 0 <= i < j < |s| ==> s[i] != s[j]
  }

  /** TArray::AddUnique: append `x` unless it is already there. */
  function AddUnique(s: seq<Name>, x: Name): seq<Name> {
    if x in s then s else s + [x]
  }

  /** AddUnique of every element of `xs`, in order. */
  function AddUniqueAll(s: seq<Name>, xs: seq<Name>): seq<Name>
    decreases |xs|
  {
    if xs == [] then s else AddUnique(AddUniqueAll(s, xs[..|xs| - 1]), xs[|xs| - 1])
  }

  /** The participant names of `args` that are not None, in order. */
  function ArgumentParticipants(args: seq<TextArgument>): (r: seq<Name>)
    ensures forall x :: x in r <==> exists k :: 0 <= k < |args| && args[k].participantName == x && x != NameNone
    decreases |args|
  {
    if args == [] then []
    else
      var init := args[..|args| - 1];
      var last := args[|args| - 1].participantName;
      assert forall k :: 0 <= k < |init| ==> init[k] == args[k];
      ArgumentParticipants(init) + (if last != NameNone then [last] else [])
  }

  /** AddUniqueAll keeps what was there in place, adds exactly the new names,
      and never introduces a duplicate. */
  lemma {:induction false} AddUniqueAllProperties(s: seq<Name>, xs: seq<Name>)
    ensures |AddUniqueAll(s, xs)| >= |s| && AddUniqueAll(s, xs)[..|s|] == s
    ensures forall x :: x in AddUniqueAll(s, xs) <==> x in s || x in xs
    ensures NoDuplicates(s) ==> NoDuplicates(AddUniqueAll(s, xs))
    decreases |xs|
  {
    if xs != [] {
      var init := xs[..|xs| - 1];
      AddUniqueAllProperties(s, init);
      assert xs == init + [xs[|xs| - 1]];
    }
  }

  /** The participants of a node: the base class adds the owner name unless it is
      None, a Speech node then adds the participant of each of its text arguments. */
  function AssociatedParticipants(outArray: seq<Name>, owner: Name, kind: NodeKind): seq<Name> {
    var base := if owner != NameNone then AddUnique(outArray, owner) else outArray;
    if kind.Speech? then AddUniqueAll(base, ArgumentParticipants(kind.textArguments)) else base
  }

  /** What GetAssociatedParticipants leaves in an array that starts as `outArray`:
      the old entries first and unchanged, then only the owner and the text-argument
      participants, never None and never twice. */
  lemma AssociatedParticipantsProperties(outArray: seq<Name>, owner: Name, kind: NodeKind)
    ensures |AssociatedParticipants(outArray, owner, kind)| >= |outArray|
    ensures AssociatedParticipants(outArray, owner, kind)[..|outArray|] == outArray
    ensures forall x :: x in AssociatedParticipants(outArray, owner, kind) <==>
      x in outArray || (x == owner && x != NameNone) ||
      (kind.Speech? && exists k :: 0 <= k < |kind.textArguments| && kind.textArguments[k].participantName == x && x != NameNone)
    ensures NoDuplicates(outArray) ==> NoDuplicates(AssociatedParticipants(outArray, owner, kind))
  {
    var base := if owner != NameNone then AddUnique(outArray, owner) else outArray;
    assert base[..|outArray|] == outArray;
    if kind.Speech? {
      AddUniqueAllProperties(base, ArgumentParticipants(kind.textArguments));
    }
  }

  class Node {
    /** The variant; it never changes. */
    const kind: NodeKind
    /** The node's identifier. */
    const guid: Guid
    /** The participant (speaker) that owns the node. */
    var ownerName: Name
    var enterConditions: seq<Condition>
    var enterRestriction: EntryRestriction
    var enterEvents: seq<Event>
    /** The outgoing edges, in evaluation order. */
    var children: seq<Edge>
    /** Speech only: the target index of the first satisfied direct child found by
        the last virtual-parent re-evaluation, or IndexNone. */
    var virtualParentFirstSatisfiedDirectChildIndex: int

    constructor (kind: NodeKind, guid: Guid, ownerName: Name, enterConditions: seq<Condition>,
                 enterRestriction: EntryRestriction, enterEvents: seq<Event>, children: seq<Edge>)
      ensures this.kind == kind && this.guid == guid && this.ownerName == ownerName
      ensures this.enterConditions == enterConditions && this.enterRestriction == enterRestriction
      ensures this.enterEvents == enterEvents && this.children == children
      ensures this.virtualParentFirstSatisfiedDirectChildIndex == IndexNone
    {
      this.kind := kind;
      this.guid := guid;
      this.ownerName := ownerName;
      this.enterConditions := enterConditions;
      this.enterRestriction := enterRestriction;
      this.enterEvents := enterEvents;
      this.children := children;
      this.virtualParentFirstSatisfiedDirectChildIndex := IndexNone;
    }

    function GetGUID(): (g: Guid)
      ensures g == guid
    {
      guid
    }

    predicate HasGUID()
      ensures HasGUID() <==> GetGUID() != InvalidGuid
    {
      guid.IsValid()
    }

    function GetNodeParticipantName(): (name: Name)
      reads this
      ensures name == ownerName
    {
      ownerName
    }

    method SetNodeParticipantName(name: Name)
      modifies this`ownerName
      ensures GetNodeParticipantName() == name
    {
      ownerName := name;
    }

    /** True when entering the node is restricted by a condition or by the entry
        restriction. */
    predicate HasAnyEnterConditions()
      reads this
      ensures HasAnyEnterConditions() <==> enterConditions != [] || enterRestriction != Unrestricted
    {
      |enterConditions| > 0 || enterRestriction != Unrestricted
    }

    function GetNodeEnterConditions(): seq<Condition>
      reads this
    {
      enterConditions
    }

    method SetNodeEnterConditions(conditions: seq<Condition>)
      modifies this`enterConditions
      ensures GetNodeEnterConditions() == conditions
    {
      enterConditions := conditions;
    }

    method GetMutableEnterConditionAt(index: int) returns (c: Condition)
      requires 0 <= index < |enterConditions|
      ensures c == enterConditions[index]
    {
      c := enterConditions[index];
    }

    predicate HasAnyEnterEvents()
      reads this
      ensures HasAnyEnterEvents() <==> enterEvents != []
    {
      |enterEvents| > 0
    }

    function GetNodeEnterEvents(): seq<Event>
      reads this
    {
      enterEvents
    }

    method SetNodeEnterEvents(events: seq<Event>)
      modifies this`enterEvents
      ensures GetNodeEnterEvents() == events
    {
      enterEvents := events;
    }

    function GetNodeChildren(): seq<Edge>
      reads this
    {
      children
    }

    method SetNodeChildren(edges: seq<Edge>)
      modifies this`children
      ensures GetNodeChildren() == edges
    {
      children := edges;
    }

    function GetNumNodeChildren(): (n: nat)
      reads this
      ensures n == |GetNodeChildren()|
    {
      |children|
    }

    function GetNodeChildAt(index: int): (e: Edge)
      reads this
      requires 0 <= index < |children|
      ensures e == GetNodeChildren()[index]
    {
      children[index]
    }

    /** Appends an edge at the end of the children. */
    method AddNodeChild(edge: Edge)
      modifies this`children
      ensures GetNumNodeChildren() == old(GetNumNodeChildren()) + 1
      ensures children[..old(|children|)] == old(children) && children[old(|children|)] == edge
    {
      children := children + [edge];
    }

    /** Removes the edge at `index`; the other edges keep their order. */
    method RemoveChildAt(index: int)
      requires 0 <= index < |children|
      modifies this`children
      ensures GetNumNodeChildren() == old(GetNumNodeChildren()) - 1
      ensures children == old(children[..index]) + old(children[index + 1..])
    {
      children := children[..index] + children[index + 1..];
    }

    method RemoveAllChildren()
      modifies this`children
      ensures GetNumNodeChildren() == 0
    {
      children := [];
    }

    /** The edge at `index`; the index must be valid. */
    method GetSafeMutableNodeChildAt(index: int) returns (e: Edge)
      requires 0 <= index < |children|
      ensures e == children[index]
    {
      e := children[index];
    }

    /** The edge at `index`, or nothing when the index is out of range. */
    function GetMutableNodeChildAt(index: int): (r: Option<Edge>)
      reads this
      ensures r.None? <==> !(0 <= index < GetNumNodeChildren())
      ensures r.Some? ==> r.value == GetNodeChildren()[index]
    {
      if 0 <= index < |children| then Some(children[index]) else None
    }

    /** The text arguments of the node: a Speech node's own, none for the others. */
    function GetTextArguments(): (args: seq<TextArgument>)
      ensures !kind.Speech? ==> args == []
      ensures kind.Speech? ==> args == kind.textArguments
    {
      if kind.Speech? then kind.textArguments else []
    }

    /** The base-class speaker state. */
    function GetSpeakerState(): (state: Name)
      ensures state == NameNone
    {
      NameNone
    }

    /** The base-class contribution to the set of all speaker states: nothing. */
    function AddAllSpeakerStatesIntoSet(states: set<Name>): (r: set<Name>)
      ensures r == states
    {
      states
    }

    /** Adds this node's participants to `outArray`: the owner first (base class),
        then, for a Speech node, the participant of each text argument that is not
        None, each only if it is not in the array yet. */
    method GetAssociatedParticipants(outArray: seq<Name>) returns (result: seq<Name>)
      ensures result == AssociatedParticipants(outArray, ownerName, kind)
    {
      result := outArray;
      if ownerName != NameNone {
        result := AddUnique(result, ownerName);
      }
      if kind.Speech? {
        var args := kind.textArguments;
        ghost var base := result;
        var i := 0;
        while i < |args|
          invariant 0 <= i <= |args|
          invariant result == AddUniqueAll(base, ArgumentParticipants(args[..i]))
        {
          assert args[..i + 1][..i] == args[..i];
          if args[i].participantName != NameNone {
            result := AddUnique(result, args[i].participantName);
            assert ArgumentParticipants(args[..i + 1]) == ArgumentParticipants(args[..i]) + [args[i].participantName];
          } else {
            assert ArgumentParticipants(args[..i + 1]) == ArgumentParticipants(args[..i]);
          }
          i := i + 1;
        }
        assert args[..|args|] == args;
      }
    }
  }
}
