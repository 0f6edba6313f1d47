# DlgSystem dialogue core in Dafny

This project models the runtime core of the DlgSystem dialogue plugin for Unreal Engine and proves properties of it.

- **The dialogue asset (`UDlgDialogue`).** It holds a node array and the GUID-to-index map kept in step with it. It offers lookups over both, checks at load time that every edge points at an existing node, and keeps a list of asset user data. Its refresh pass (`UpdateAndRefreshData`) rebuilds three things:
  - the participant data: for each participant name, the conditions, events and text arguments that mention it;
  - the set of all speaker states;
  - the participant-to-class list.
- **The node (`UDlgNode`).** This covers the operations on its edge list (its children), its enter data and the base-class defaults.
- **The Speech node's "virtual parent" logic.** A virtual parent does not show its own options. Instead it forwards to the first child that qualifies, guarding against cycles with a set of nodes already evaluated in the chain.
- **End node overrides and the two enums** (`EDlgEntryRestriction` and `EPlayerAnswerIntend`).

Modules follow the source:

| module | contents |
|---|---|
| `DlgTypes` | names, GUIDs, the enums, and conditions, events, text arguments and edges |
| `DlgNode` | class `Node`: the fields the core reads and writes, with its getters and setters; associated participants |
| `DlgContext` | class `Context`: the part of a running dialogue that virtual parents touch. It holds the option lists, the visit history and the fired events. `Oracle` stands for the calls whose bodies are not modelled. |
| `DlgNodeSpeech` | re-evaluation as a function (`Reevaluate`/`ScanEdges`/`Descend`); the methods that implement it on the heap; `HandleNodeEnter`; the End overrides |
| `DlgParticipantData` | the refresh pass as a sequence of *touches* (register a name, or file a capability under a name), folded over a map from name to multiset; the attribution lemmas |
| `DlgParticipantClasses` | reconciliation of the participant-class list, its three steps and their specification |
| `DlgDialogue` | class `Dialogue`: the node array, the GUID map, the load check, the asset user data, and the refresh pass written as loops that are proved against `DlgParticipantData` |

Design notes:

- **Node kind.** A node is a closed variant: `Start`, `Speech` (with the virtual-parent flags and its text arguments) or `End`. Behaviour that depends on the kind is a `match` on it.
- **GUID map is never cleared.** `SetNodes` only adds entries on top of those already in the map; it does not clear it first. So stale entries survive. The contract of `SetNodes` states the result in terms of the old map. Consistency (every key leads to a node carrying that GUID) is proved only when the map starts empty.
- **Fatal load error.** A failed edge-target check in `PostLoad` is a fatal log, which stops the process. It is modelled as the `Some` result of `CheckNodeEdges`, and `PostLoad` sets `wasLoaded` only when there is no fault.
- **Refresh as a fold.** The participant data after a refresh is `Aggregate(starts, nodes)`: the fold of all touches of the pass, in source order, starting from an empty map. Each `Add…Data` method is proved to perform exactly its slice of that fold.
  - The result depends only on the node snapshots (`Snapshot`: kind, owner, enter conditions, enter events, children). Refreshing twice therefore yields the same data.
- **Class discovery.** The source asks the engine for every blueprint and native class implementing the participant interface. Here that step is two input maps from participant name to candidate classes.

## Model

| member | source | states |
|---|---|---|
| DlgDialogue.Dialogue.UpdateGUIDToIndexMap | Source/DlgSystem/DlgDialogue.cpp:928-936 | the map gains `guid := index` exactly when the node is non-null, the index is valid and the GUID is valid; otherwise it is unchanged |
| DlgDialogue.Dialogue.SetNodes | Source/DlgSystem/DlgDialogue.cpp:908-915 | the array is replaced. The map is the old map with each valid GUID rebound to its index (`WithGuids`). With distinct GUIDs, `GetNodeIndexForGUID(ns[i].guid) == i` for every node with a valid GUID. From an empty map, the map is consistent with the array. |
| DlgDialogue.WithGuidsKeys | Source/DlgSystem/DlgDialogue.cpp:908-936 | after registration the keys are the old keys plus the valid GUIDs of the array; an invalid GUID is never added and nothing is cleared |
| DlgDialogue.WithGuidsValue | Source/DlgSystem/DlgDialogue.cpp:908-936 | a valid GUID of the array maps to the last index holding it; any other key keeps its old (possibly stale) index |
| DlgDialogue.WithGuidsIndex | Source/DlgSystem/DlgDialogue.cpp:908-936 | with distinct valid GUIDs, each node's GUID maps to its own index |
| DlgDialogue.WithGuidsFromEmpty | Source/DlgSystem/DlgDialogue.cpp:908-936 | starting from an empty map, every key maps to a valid index whose node carries that GUID |
| DlgDialogue.Dialogue.SetNode | Source/DlgSystem/DlgDialogue.cpp:917-926 | no change for an out-of-range index or a null node; otherwise only that slot changes and the new node's valid GUID maps to the index |
| DlgDialogue.Dialogue.GetNodeIndexForGUID | Source/DlgSystem/DlgDialogue.cpp:892-900 | the bound index for a known GUID, INDEX_NONE for an unknown one |
| DlgDialogue.Dialogue.GetNodeGUIDForIndex | Source/DlgSystem/DlgDialogue.cpp:881-890 | the node's GUID for a valid index, the invalid GUID otherwise |
| DlgDialogue.Dialogue.GuidRoundTrip | Source/DlgSystem/DlgDialogue.cpp:881-900 | in a consistent map, looking up a known GUID's index and then that index's GUID gives the GUID back |
| DlgDialogue.Dialogue.IsEndNode | Source/DlgSystem/DlgDialogue.cpp:938-946 | false out of range; otherwise true exactly when the node is the End variant |
| DlgDialogue.Dialogue.CheckNodeEdges | Source/DlgSystem/DlgDialogue.cpp:145-176 | no fault exactly when every valid edge targets a valid node index. A reported fault is such an edge, with its target, and no earlier edge in scan order is faulty. |
| DlgDialogue.Dialogue.PostLoad | Source/DlgSystem/DlgDialogue.cpp:145-179 | a fault is reported exactly when some valid edge has an invalid target; the dialogue is marked loaded only when there is none |
| DlgDialogue.FirstMatch | Source/DlgSystem/DlgDialogue.cpp:368-379 | the index of the first non-null entry that is an object of the class (first match wins), or -1 exactly when there is none |
| DlgDialogue.Dialogue.GetAssetUserDataOfClass | Source/DlgSystem/DlgDialogue.cpp:368-379 | returns the first entry that is an object of the class, or null when none is |
| DlgDialogue.RemoveAll | Source/DlgSystem/DlgDialogue.cpp:362 | every occurrence of the entry is removed and every other entry keeps its count |
| DlgDialogue.Dialogue.AddAssetUserData | Source/DlgSystem/DlgDialogue.cpp:355-366 | null is ignored. Otherwise the first entry of the new data's class is removed, with all its occurrences, and the new data is appended. |
| DlgDialogue.AddingReplacesExisting | Source/DlgSystem/DlgDialogue.cpp:355-366 | the entry found before adding is gone afterwards (unless it is the added one), and every other entry keeps its count |
| DlgDialogue.AddedIsFound | Source/DlgSystem/DlgDialogue.cpp:355-379 | when the list held at most one object of the class, a lookup after adding finds the added data |
| DlgDialogue.Dialogue.RemoveUserDataOfClass | Source/DlgSystem/DlgDialogue.cpp:381-392 | only the first entry of the class is removed, the rest keep their order; nothing changes when there is none |
| DlgDialogue.RemovingFirstMatchDropsOne | Source/DlgSystem/DlgDialogue.cpp:381-392 | removing the first match lowers the number of objects of that class by exactly one |
| DlgDialogue.CountMatchesAppend | Source/DlgSystem/DlgDialogue.cpp:381-392 | the number of matching entries of a concatenation is the sum of both parts |
| DlgParticipantData.EffectiveName | Source/DlgSystem/DlgDialogue.cpp:649 | the given name unless it is None, then the fallback |
| DlgParticipantData.GetParticipantDataEntry | Source/DlgSystem/DlgDialogue.cpp:643-662 | when checking None with an effective name of None, the data is unchanged and there is no key (the black hole). Otherwise the effective name is a key afterwards, existing entries are untouched, and a new entry is empty. |
| DlgDialogue.Dialogue.FileCapability | Source/DlgSystem/DlgDialogue.cpp:643-662 | one lookup plus one add: the data is exactly one `Step` of an attribution touch |
| DlgDialogue.Dialogue.AddConditionData | Source/DlgSystem/DlgDialogue.cpp:673-687 | primary data goes under the participant when it is involved, and secondary data under the other participant when it is involved |
| DlgDialogue.Dialogue.AddConditionsData | Source/DlgSystem/DlgDialogue.cpp:750-764 | the data is the old data folded with the touches of every condition, in order |
| DlgDialogue.Dialogue.AddConditionsDataFromNodeEdges | Source/DlgSystem/DlgDialogue.cpp:664-689 | the data is the old data folded with the condition touches of every edge, in order, with the node owner as fallback |
| DlgDialogue.Dialogue.AddTextArgumentsData | Source/DlgSystem/DlgDialogue.cpp:799-804 | each text argument is filed under its own participant name, with the owner as fallback, in order |
| DlgDialogue.Dialogue.AddEventsData | Source/DlgSystem/DlgDialogue.cpp:791-796 | each event is filed under its own participant name, with the owner as fallback, in order |
| DlgDialogue.Dialogue.RegisterParticipants | Source/DlgSystem/DlgDialogue.cpp:736-744 | an empty entry is added for every associated participant that has none yet |
| DlgDialogue.Dialogue.AddEdgesData | Source/DlgSystem/DlgDialogue.cpp:772-788 | every edge's speaker state joins the set, and its text arguments are filed in order |
| DlgDialogue.Dialogue.AddNodeData | Source/DlgSystem/DlgDialogue.cpp:727-804 | one regular node contributes, in this order: registration, enter conditions, edge conditions, edge text arguments, events and text arguments. Its edge speaker states join the set. |
| DlgDialogue.Dialogue.AddStartNodesData | Source/DlgSystem/DlgDialogue.cpp:718-722 | the data is the old data folded with the edge-condition touches of every start node, in order |
| DlgDialogue.Dialogue.AddNodesData | Source/DlgSystem/DlgDialogue.cpp:725-805 | the data is the old data folded with every regular node's touches, in order; the set gains every edge speaker state |
| DlgDialogue.Dialogue.RebuildParticipantData | Source/DlgSystem/DlgDialogue.cpp:709-808 | emptied and rebuilt: the data is `Aggregate` of the start and regular node snapshots and the speaker states are `SpeakerStates` of the nodes. Neither depends on the old contents. |
| DlgDialogue.Dialogue.RefreshParticipantClasses | Source/DlgSystem/DlgDialogue.cpp:813-878 | the class list names exactly the non-None aggregated names, each once. Without auto-binding it is the reconciled list up to order; with it, each entry is the auto-bound form of the reconciled entry. |
| DlgDialogue.Dialogue.UpdateAndRefreshData | Source/DlgSystem/DlgDialogue.cpp:709-878 | the whole refresh: the data and speaker states of `RebuildParticipantData`, then the class list of `RefreshParticipantClasses` over the new names |
| DlgDialogue.Dialogue.GetParticipantNames | Source/DlgSystem/DlgDialogue.cpp:813 | the names the participant data has entries for |
| DlgParticipantData.ApplyAppend | Source/DlgSystem/DlgDialogue.cpp:709-808 | folding a concatenation of touches is folding the first part, then the second |
| DlgParticipantData.TouchKeysMembership | Source/DlgSystem/DlgDialogue.cpp:643-662 | a name is a touched key exactly when some touch files under it |
| DlgParticipantData.CapsForMembership | Source/DlgSystem/DlgDialogue.cpp:643-662 | a capability is filed under a key exactly when some attribution touch with that key carries it |
| DlgParticipantData.CapsForUntouchedKey | Source/DlgSystem/DlgDialogue.cpp:643-662 | nothing is filed under a key no touch names |
| DlgParticipantData.StepContents | Source/DlgSystem/DlgDialogue.cpp:643-662 | one touch adds its key, if any, and adds its capability to that entry only |
| DlgParticipantData.ApplyKeys | Source/DlgSystem/DlgDialogue.cpp:643-662 | after a touch list the keys are the old keys plus the touched keys |
| DlgParticipantData.ApplyEntry | Source/DlgSystem/DlgDialogue.cpp:643-662 | each entry holds its old capabilities plus exactly those filed under it |
| DlgParticipantData.ApplyContents | Source/DlgSystem/DlgDialogue.cpp:643-662 | both of the above for every key |
| DlgParticipantData.ConditionTouches | Source/DlgSystem/DlgDialogue.cpp:750-764 | the touches of a condition list are those of each condition, in order |
| DlgParticipantData.ConditionTouchesMembership | Source/DlgSystem/DlgDialogue.cpp:750-764 | a touch is in the list exactly when some condition produced it |
| DlgParticipantData.EdgeConditionTouches | Source/DlgSystem/DlgDialogue.cpp:669-688 | the condition touches of every edge, in order |
| DlgParticipantData.EdgeConditionTouchesMembership | Source/DlgSystem/DlgDialogue.cpp:669-688 | a touch is there exactly when it comes from a condition of some edge |
| DlgParticipantData.TextArgumentTouches | Source/DlgSystem/DlgDialogue.cpp:799-804 | one attribution touch per text argument, in order |
| DlgParticipantData.TextArgumentTouchesMembership | Source/DlgSystem/DlgDialogue.cpp:799-804 | a touch is there exactly when it attributes one of the arguments |
| DlgParticipantData.EdgeTextArgumentTouches | Source/DlgSystem/DlgDialogue.cpp:782-787 | the text-argument touches of every edge, in order |
| DlgParticipantData.EdgeTextArgumentTouchesMembership | Source/DlgSystem/DlgDialogue.cpp:782-787 | a touch is there exactly when it attributes an argument of some edge |
| DlgParticipantData.EventTouches | Source/DlgSystem/DlgDialogue.cpp:791-796 | one attribution touch per event, in order |
| DlgParticipantData.EventTouchesMembership | Source/DlgSystem/DlgDialogue.cpp:791-796 | a touch is there exactly when it attributes one of the events |
| DlgParticipantData.RegisterTouchesMembership | Source/DlgSystem/DlgDialogue.cpp:736-744 | a touch is there exactly when it registers one of the names |
| DlgParticipantData.AllStartTouchesMembership | Source/DlgSystem/DlgDialogue.cpp:718-722 | a start-pass touch comes from the edge conditions of some start node, and every such touch is there |
| DlgParticipantData.AllNodeTouchesMembership | Source/DlgSystem/DlgDialogue.cpp:725-805 | a node-pass touch comes from some regular node, and every such touch is there |
| DlgParticipantData.StartPassStep | Source/DlgSystem/DlgDialogue.cpp:718-722 | one more start node is folded on top of the earlier ones |
| DlgParticipantData.NodePassStep | Source/DlgSystem/DlgDialogue.cpp:725-805 | one more regular node is folded on top of the earlier ones, and its edge speaker states join theirs |
| DlgParticipantData.AggregateContents | Source/DlgSystem/DlgDialogue.cpp:709-808 | after a refresh the keys are exactly the touched keys, and each entry holds exactly the capabilities filed under it |
| DlgParticipantData.AggregateAttribution | Source/DlgSystem/DlgDialogue.cpp:643-808 | a capability is under a name exactly when the name is not None and some touch of the pass files it there |
| DlgParticipantData.NodeRegistersOnlyParticipants | Source/DlgSystem/DlgDialogue.cpp:736-744 | a node registers only its associated participants |
| DlgParticipantData.AggregateHasNoNoneKey | Source/DlgSystem/DlgDialogue.cpp:652-659 | None is never a key of the aggregated data |
| DlgParticipantData.AssociatedParticipantsRegistered | Source/DlgSystem/DlgDialogue.cpp:736-744 | every associated participant of a regular node has an entry after a refresh |
| DlgParticipantData.EnterConditionAttribution | Source/DlgSystem/DlgDialogue.cpp:750-764 | for an enter condition, primary data is under the participant (owner fallback) when involved, and secondary data is under the other participant when involved, unless that name is None |
| DlgParticipantData.EdgeConditionAttribution | Source/DlgSystem/DlgDialogue.cpp:664-689 | the same for a condition on an edge of a start node or a regular node |
| DlgParticipantData.EdgeConditionInPass | Source/DlgSystem/DlgDialogue.cpp:718-722 | the edge-condition touches of every start node and every regular node are part of the pass |
| DlgParticipantData.NodeTouchInPass | Source/DlgSystem/DlgDialogue.cpp:725-805 | every touch of a regular node is part of the pass |
| DlgParticipantData.StartTouchInPass | Source/DlgSystem/DlgDialogue.cpp:718-722 | every touch of a start node is part of the pass |
| DlgParticipantData.EventAttribution | Source/DlgSystem/DlgDialogue.cpp:791-796 | an enter event is under its participant (owner fallback) unless that name is None |
| DlgParticipantData.TextArgumentAttribution | Source/DlgSystem/DlgDialogue.cpp:782-804 | a node or edge text argument is under its participant (owner fallback) unless that name is None |
| DlgParticipantData.StartNodesContributeOnlyEdgeConditions | Source/DlgSystem/DlgDialogue.cpp:718-722 | start nodes with the same owners and edges give the same aggregate, whatever their other fields |
| DlgParticipantData.SameStartTouches | Source/DlgSystem/DlgDialogue.cpp:718-722 | start nodes with the same owners and edges produce the same touches |
| DlgParticipantData.EdgeStatesMembership | Source/DlgSystem/DlgDialogue.cpp:772-780 | the speaker states gathered from edges are exactly their speaker-state names |
| DlgParticipantData.EdgeSpeakerStatesMembership | Source/DlgSystem/DlgDialogue.cpp:725-805 | the states gathered by the node pass are exactly those of some edge of some regular node |
| DlgParticipantData.SpeakerStatesContents | Source/DlgSystem/DlgDialogue.cpp:808 | after a refresh the speaker states never hold None and hold every other edge speaker state |
| DlgParticipantClasses.NamesOfMembership | Source/DlgSystem/DlgDialogue.cpp:813-878 | a name is in the class list exactly when some entry carries it |
| DlgParticipantClasses.NamesOfAppend | Source/DlgSystem/DlgDialogue.cpp:827-838 | names of a concatenation are the union; it has unique names exactly when both parts do and share none |
| DlgParticipantClasses.SurvivorsMembership | Source/DlgSystem/DlgDialogue.cpp:815-825 | an entry survives step 1 exactly when it is the last with its name and that name is an aggregated name other than None |
| DlgParticipantClasses.SurvivorsNames | Source/DlgSystem/DlgDialogue.cpp:815-825 | the survivors' names are the old names that are still aggregated, without None, each once |
| DlgParticipantClasses.RemoveAtSwap | Source/DlgSystem/DlgDialogue.cpp:821 | the entries before the index are kept; the tail keeps its contents and names, only reordered |
| DlgParticipantClasses.RemoveOutdatedEntries | Source/DlgSystem/DlgDialogue.cpp:815-825 | the backward swap-remove loop leaves the survivors, up to order, with unique names. The names left to add are the aggregated names the old list did not carry. |
| DlgParticipantClasses.UnboundAdd | Source/DlgSystem/DlgDialogue.cpp:827-838 | one more name adds its unbound entry, or nothing when it is None |
| DlgParticipantClasses.AddNewEntries | Source/DlgSystem/DlgDialogue.cpp:827-838 | the kept entries stay first. An unbound entry is appended for each remaining name other than None, and names stay unique. |
| DlgParticipantClasses.ReconciledEntries | Source/DlgSystem/DlgDialogue.cpp:813-838 | every reconciled entry has an aggregated name other than None. A survivor keeps its class and a new entry is unbound. |
| DlgParticipantClasses.ReconciledCoversNames | Source/DlgSystem/DlgDialogue.cpp:813-838 | every aggregated name other than None has a reconciled entry |
| DlgParticipantClasses.ReconcileIsIdempotent | Source/DlgSystem/DlgDialogue.cpp:813-838 | a list that already names exactly the aggregated names, once each, is left as it is |
| DlgParticipantClasses.KeepsEverything | Source/DlgSystem/DlgDialogue.cpp:815-825 | step 1 removes nothing from a list whose names are unique, aggregated and not None |
| DlgParticipantClasses.AutoBound | Source/DlgSystem/DlgDialogue.cpp:850-877 | the name is kept and an entry with a class or with name None is untouched. A class is set only from a single candidate, blueprint before native: the single blueprint candidate when there is one, otherwise the single native candidate when there is one. |
| DlgParticipantClasses.AutoBoundIsIdempotent | Source/DlgSystem/DlgDialogue.cpp:850-877 | binding an entry twice is binding it once |
| DlgParticipantClasses.AutoSetDefaultClasses | Source/DlgSystem/DlgDialogue.cpp:850-877 | each entry is replaced by its auto-bound form, in place |
| DlgParticipantClasses.AutoBindKeepsNames | Source/DlgSystem/DlgDialogue.cpp:850-877 | auto-binding keeps every name, so it keeps the names unique |
| DlgParticipantClasses.SameNamesKeepUniqueness | Source/DlgSystem/DlgDialogue.cpp:850-877 | two lists with the same name at each position have the same names and the same uniqueness |
| DlgParticipantClasses.ReconcileClasses | Source/DlgSystem/DlgDialogue.cpp:813-878 | the three steps together: unique names, exactly the aggregated names other than None, and the reconciled entries, auto-bound when asked |
| DlgNode.Node.GetGUID | Source/DlgSystem/Nodes/DlgNode.h:156 | the node's GUID, unchanged |
| DlgNode.Node.HasGUID | Source/DlgSystem/Nodes/DlgNode.h:159 | true exactly when the GUID is not the invalid one |
| DlgNode.Node.GetNodeParticipantName | Source/DlgSystem/Nodes/DlgNode.h:172 | the owner name |
| DlgNode.Node.SetNodeParticipantName | Source/DlgSystem/Nodes/DlgNode.h:174 | replaces the owner name and nothing else |
| DlgNode.Node.HasAnyEnterConditions | Source/DlgSystem/Nodes/DlgNode.h:181 | true exactly when there is an enter condition or the entry restriction is other than unrestricted |
| DlgNode.Node.SetNodeEnterConditions | Source/DlgSystem/Nodes/DlgNode.h:186 | replaces the enter conditions and nothing else |
| DlgNode.Node.GetMutableEnterConditionAt | Source/DlgSystem/Nodes/DlgNode.h:189-193 | requires a valid index and gives the condition there |
| DlgNode.Node.HasAnyEnterEvents | Source/DlgSystem/Nodes/DlgNode.h:200 | true exactly when there is an enter event |
| DlgNode.Node.SetNodeEnterEvents | Source/DlgSystem/Nodes/DlgNode.h:205 | replaces the enter events and nothing else |
| DlgNode.Node.SetNodeChildren | Source/DlgSystem/Nodes/DlgNode.h:240 | replaces the children and nothing else |
| DlgNode.Node.GetNumNodeChildren | Source/DlgSystem/Nodes/DlgNode.h:243 | always the number of children |
| DlgNode.Node.GetNodeChildAt | Source/DlgSystem/Nodes/DlgNode.h:248 | for a valid index, the edge at that index |
| DlgNode.Node.AddNodeChild | Source/DlgSystem/Nodes/DlgNode.h:251 | appends at the end: one more child, the old children unchanged in front |
| DlgNode.Node.RemoveChildAt | Source/DlgSystem/Nodes/DlgNode.h:254-258 | requires a valid index and removes exactly that edge, the others in order |
| DlgNode.Node.RemoveAllChildren | Source/DlgSystem/Nodes/DlgNode.h:261 | no children are left |
| DlgNode.Node.GetSafeMutableNodeChildAt | Source/DlgSystem/Nodes/DlgNode.h:264-268 | requires a valid index and gives the edge there |
| DlgNode.Node.GetMutableNodeChildAt | Source/DlgSystem/Nodes/DlgNode.h:271-274 | nothing exactly when the index is out of range, otherwise the edge there |
| DlgNode.Node.GetTextArguments | Source/DlgSystem/Nodes/DlgNode.h:302-306 | empty for the base class (Start, End); a Speech node's own arguments |
| DlgNode.Node.GetSpeakerState | Source/DlgSystem/Nodes/DlgNode.h:339 | the base default, None |
| DlgNode.Node.AddAllSpeakerStatesIntoSet | Source/DlgSystem/Nodes/DlgNode.h:340 | the base default leaves the set unchanged |
| DlgNode.ArgumentParticipants | Source/DlgSystem/Nodes/DlgNode_Speech.cpp:186-192 | exactly the participant names of the text arguments that are not None |
| DlgNode.AddUniqueAllProperties | Source/DlgSystem/Nodes/DlgNode_Speech.cpp:186-192 | repeated AddUnique keeps the old entries first and unchanged, adds exactly the new names and never creates a duplicate |
| DlgNode.AssociatedParticipantsProperties | Source/DlgSystem/Nodes/DlgNode_Speech.cpp:183-193 | the old entries stay first; only the owner and the non-None text-argument participants are added; no name is added twice |
| DlgNode.Node.GetAssociatedParticipants | Source/DlgSystem/Nodes/DlgNode_Speech.cpp:183-193 | the loop computes `AssociatedParticipants` of the array, the owner and the kind |
| DlgContext.Context.GetMutableNodeFromIndex | Source/DlgSystem/Nodes/DlgNode_Speech.cpp:120 | the node at a valid index, null otherwise |
| DlgContext.Context.GetNodeGUIDForIndex | Source/DlgSystem/Nodes/DlgNode_Speech.cpp:114 | the GUID of the node at a valid index, the invalid GUID otherwise |
| DlgContext.Context.SetNodeVisited | Source/DlgSystem/Nodes/DlgNode_Speech.cpp:112-115 | the visit is added to the history |
| DlgContext.Context.FireNodeEnterEvents | Source/DlgSystem/Nodes/DlgNode_Speech.cpp:122 | the node's enter events are appended to the fired events |
| DlgNodeSpeech.FirstQualifying | Source/DlgSystem/Nodes/DlgNode_Speech.cpp:158-174 | the first edge in array order that evaluates true and whose target exists; no earlier edge qualifies |
| DlgNodeSpeech.Reevaluate | Source/DlgSystem/Nodes/DlgNode_Speech.cpp:137-180 | End fails without change. A virtual parent already in the chain fails, with its index reset and both lists emptied. A Start node or a Speech node that is not a virtual parent gives exactly the base-class step. Every node keeps its child-index slot. It terminates because the chain grows. |
| DlgNodeSpeech.ScanEdges | Source/DlgSystem/Nodes/DlgNode_Speech.cpp:158-175 | the edge loop keeps every node's child-index slot |
| DlgNodeSpeech.Descend | Source/DlgSystem/Nodes/DlgNode_Speech.cpp:163-171 | following an edge keeps every node's child-index slot |
| DlgNodeSpeech.VirtualParentScans | Source/DlgSystem/Nodes/DlgNode_Speech.cpp:139-158 | a virtual parent not in the chain scans its edges from the cleared state with itself added to the chain |
| DlgNodeSpeech.ScanFollowsFirstQualifying | Source/DlgSystem/Nodes/DlgNode_Speech.cpp:158-174 | the scan reaches the first qualifying edge and follows it |
| DlgNodeSpeech.ScanWithoutQualifyingEdge | Source/DlgSystem/Nodes/DlgNode_Speech.cpp:175 | with no qualifying edge the result is false and nothing changes |
| DlgNodeSpeech.ScanIgnoresLaterEdges | Source/DlgSystem/Nodes/DlgNode_Speech.cpp:171 | no edge after the first qualifying one influences the outcome |
| DlgNodeSpeech.VirtualParentFollowsFirstQualifyingEdge | Source/DlgSystem/Nodes/DlgNode_Speech.cpp:141-175 | a virtual parent not in the chain fails when no edge qualifies. Otherwise its result is the target's re-evaluation, with itself in the chain and the lists emptied. |
| DlgNodeSpeech.ChainMembersOnlyReset | Source/DlgSystem/Nodes/DlgNode_Speech.cpp:141-170 | a node already in the chain keeps its child index or has it reset; nothing deeper sets it |
| DlgNodeSpeech.ScanMembersOnlyReset | Source/DlgSystem/Nodes/DlgNode_Speech.cpp:158-174 | the same for the edge loop |
| DlgNodeSpeech.VirtualParentChildIndex | Source/DlgSystem/Nodes/DlgNode_Speech.cpp:141-175 | afterwards the child index is the first qualifying edge's target when the result is true, and INDEX_NONE otherwise |
| DlgNodeSpeech.ChildIndexOf | Source/DlgSystem/Nodes/DlgNode_Speech.cpp:141 | the heap's child indexes, one per node of the graph |
| DlgNodeSpeech.StateOf | Source/DlgSystem/Nodes/DlgNode_Speech.cpp:141-143 | the state re-evaluation writes, read from the heap, over the same nodes |
| DlgNodeSpeech.BaseReevaluateChildren | Source/DlgSystem/Nodes/DlgNode_Speech.cpp:179 | the base-class step, as given by the oracle |
| DlgNodeSpeech.ReevaluateChildren | Source/DlgSystem/Nodes/DlgNode_Speech.cpp:137-180 | the result and the written state are `Reevaluate` of the old state; edges and enter data of every node are unchanged |
| DlgNodeSpeech.ReevaluateVirtualParent | Source/DlgSystem/Nodes/DlgNode_Speech.cpp:139-176 | the virtual-parent branch, with the same contract |
| DlgNodeSpeech.ResetVirtualParent | Source/DlgSystem/Nodes/DlgNode_Speech.cpp:141-143 | the child index is INDEX_NONE and both option lists are empty |
| DlgNodeSpeech.FollowFirstQualifyingEdge | Source/DlgSystem/Nodes/DlgNode_Speech.cpp:158-175 | the loop and the recursive call are `ScanEdges` of the old state |
| DlgNodeSpeech.RecordChildIndex | Source/DlgSystem/Nodes/DlgNode_Speech.cpp:167-170 | only this node's child index changes, to the target |
| DlgNodeSpeech.HandleNodeEnter | Source/DlgSystem/Nodes/DlgNode_Speech.cpp:103-135 | returns the base result. Only when it is true, the node is a virtual parent and the child index is valid, the child is recorded as visited; its enter events fire only with the flag set. Nothing else changes. |
| DlgNodeSpeech.OptionSelected | Source/DlgSystem/Nodes/DlgNode_End.h:44 | End refuses every option; the other kinds give the base result |

## Left out

- GetMutableEnterConditionAt: the source returns a pointer into the node's enter-condition array, through which a caller can change the node; the model returns a copy of the element, so writes through that reference (aliasing into the node) are not modelled.
- GetSafeMutableNodeChildAt: the source returns a pointer into the node's edge array; the model returns a copy of the edge, so writes through that reference are not modelled.
- GetMutableNodeChildAt: the source returns a pointer into the node's edge array, or null; the model returns a copy of the edge or `None`, so writes through that reference are not modelled. Nothing in the modelled core writes through any of these three.
- Text-file import and export, version migration, GUID regeneration, editor graph handling, reflection-based validation (`IsDataValid`), localisation and text rebuilding (`RebuildAndUpdateNode`), speech timers, audio playback in `HandleNodeEnter`, path mapping and the editor utility widget. These are I/O, randomness, engine lifecycle or editor code.
- The Start node files. A start node is the `Start` variant; only its owner and edges are read.
- Engine name comparison. `FName` compares case-insensitively; here names are strings compared exactly, and None is the empty string.
- Integer width. Indices are unbounded integers, and the 32-bit array sizes of the engine are not modelled.
- Null entries in the node arrays. The node arrays hold non-null nodes, as a loaded dialogue does. The source would crash on a null entry in `PostLoad` and in the refresh pass.
- Calls whose bodies are not modelled. These are `FDlgEdge::Evaluate` and the base-class `ReevaluateChildren`, `HandleNodeEnter` and `OptionSelected`. They are the fields of `Oracle`, total functions of the node and the chain, and the base option lists are given the same way. `HandleNodeEnter` takes the base result as a parameter.
- The bodies of `UDlgNode::GetAssociatedParticipants`, `FDlgCondition::IsParticipantInvolved` and `IsSecondParticipantInvolved`, and the Speech node's header. These are not part of this model.
  - The base class adds the owner name when it is not None.
  - A condition carries the two involvement answers as fields.
  - Every node kind uses the base `GetSpeakerState` and `AddAllSpeakerStatesIntoSet`.
- `GetParticipantNames` is taken to be the key set of the participant data; its body is not part of this model.
- Logging. Warnings are left out, and the fatal log of `PostLoad` is the `Some` result of `CheckNodeEdges`.
- `TSet` iteration order. The order in which step 2 of the class reconciliation appends new names follows the engine's set iteration order. The model picks names in an unspecified order.
- `RefreshParticipantClasses`: the class list is stated up to order (as a multiset) and not position by position, for the reason above.
- `UpdateAndRefreshData`: stated the same way, for the same reason.
- `DlgDialogue.Dialogue.RebuildParticipantData`: does not rebuild node texts (`RebuildAndUpdateNode`), as said above.
- Asset user data classes. `IsA` is a given relation on class names, and a user data object is only its class.
- Class discovery. The blueprint and native class lists per participant name are input maps; the engine query that builds them is not modelled.
