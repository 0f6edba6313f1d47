/** The dialogue asset (UDlgDialogue): its node array and the GUID to index map
    kept in step with it, the lookups over both, the load-time check of the edge
    targets, the asset user data list, and the refresh pass that rebuilds the
    participant data, the speaker states and the participant classes. */
module DlgDialogue {
  import opened DlgTypes
  import opened DlgNode
  import opened DlgParticipantData
  import opened DlgParticipantClasses

  /** The GUIDs of a node array, in array order. */
  function GuidsOf(ns: seq<Node>): (r: seq<Guid>)
    ensures |r| == |ns| && forall i :: 0 <= i < |ns| ==> r[i] == ns[i].guid
  {
    seq(|ns|, i requires 0 <= i < |ns| => ns[i].guid)
  }

  /** The GUID map after registering the array `gs` index by index on top of
      `m`: each valid GUID is (re)bound to its index, invalid ones are skipped. */
  function WithGuids(m: map<Guid, int>, gs: seq<Guid>): map<Guid, int>
    decreases |gs|
  {
    if gs == [] then m
    else
      var k := |gs| - 1;
      var m' := WithGuids(m, gs[..k]);
      if gs[k].IsValid() then m'[gs[k] := k] else m'
  }

  /** The keys afterwards: the old keys, which are never cleared, and every valid
      GUID of the array; an invalid GUID is never added. */
  lemma {:induction false} WithGuidsKeys(m: map<Guid, int>, gs: seq<Guid>)
    ensures forall g :: g in WithGuids(m, gs) <==> g in m || (g in gs && g.IsValid())
    decreases |gs|
  {
    if gs != [] {
      var k := |gs| - 1;
      WithGuidsKeys(m, gs[..k]);
      assert gs == gs[..k] + [gs[k]];
    }
  }

  /** A valid GUID of the array maps to the last index holding it; every other key
      keeps its old index, stale entries included. */
  lemma {:induction false} WithGuidsValue(m: map<Guid, int>, gs: seq<Guid>, g: Guid)
    requires g in WithGuids(m, gs)
    ensures g.IsValid() && g in gs ==>
      0 <= WithGuids(m, gs)[g] < |gs| && gs[WithGuids(m, gs)[g]] == g &&
      forall j :: WithGuids(m, gs)[g] < j < |gs| ==> gs[j] != g
    ensures !(g.IsValid() && g in gs) ==> g in m && WithGuids(m, gs)[g] == m[g]
    decreases |gs|
  {
    if gs != [] {
      var k := |gs| - 1;
      var init := gs[..k];
      assert gs == init + [gs[k]];
      if gs[k] != g || !g.IsValid() {
        WithGuidsKeys(m, init);
        WithGuidsValue(m, init, g);
      }
    }
  }

  /** No valid GUID occurs twice in the array. */
  predicate DistinctValidGuids(gs: seq<Guid>) {
    forall i, j :: 0 <= i < j < |gs| && gs[i].IsValid() ==> gs[i] != gs[j]
  }

  /** With distinct GUIDs, each valid GUID maps to its own index. */
  lemma WithGuidsIndex(m: map<Guid, int>, gs: seq<Guid>, i: int)
    requires DistinctValidGuids(gs)
    requires 0 <= i < |gs| && gs[i].IsValid()
    ensures gs[i] in WithGuids(m, gs) && WithGuids(m, gs)[gs[i]] == i
  {
    WithGuidsKeys(m, gs);
    WithGuidsValue(m, gs, gs[i]);
  }

  /** Starting from an empty map with distinct GUIDs, every key maps to an index
      of the array whose GUID it is. */
  lemma WithGuidsFromEmpty(gs: seq<Guid>)
    ensures forall g :: g in WithGuids(map[], gs) ==> 0 <= WithGuids(map[], gs)[g] < |gs| && gs[WithGuids(map[], gs)[g]] == g
  {
    WithGuidsKeys(map[], gs);
    forall g | g in WithGuids(map[], gs)
      ensures 0 <= WithGuids(map[], gs)[g] < |gs| && gs[WithGuids(map[], gs)[g]] == g
    {
      WithGuidsValue(map[], gs, g);
    }
  }

  /** Where the load-time check stops: the node, the edge and its target. */
  datatype EdgeFault = EdgeFault(nodeIndex: int, edgeIndex: int, targetIndex: int)

  /** An asset user data object; only its class is modelled. */
  class UserData {
    const cls: ClassName

    constructor (cls: ClassName)
      ensures this.cls == cls
    {
      this.cls := cls;
    }
  }

  /** UObject::IsA, as a given subclass relation on classes. */
  type IsA = (ClassName, ClassName) -> bool

  predicate Matches(d: UserData?, c: ClassName, isA: IsA) {
    d != null && isA(d.cls, c)
  }

  /** The index of the first entry that is an object of class `c`, or -1. */
  function FirstMatch(s: seq<UserData?>, c: ClassName, isA: IsA): (k: int)
    ensures -1 <= k < |s|
    ensures k >= 0 ==> Matches(s[k], c, isA) && forall j :: 0 <= j < k ==> !Matches(s[j], c, isA)
    ensures k == -1 <==> forall j :: 0 <= j < |s| ==> !Matches(s[j], c, isA)
    decreases |s|
  {
    if s == [] then -1
    else if Matches(s[0], c, isA) then 0
    else
      var k := FirstMatch(s[1..], c, isA);
      assert forall j :: 1 <= j < |s| ==> s[j] == s[1..][j - 1];
      if k == -1 then -1 else k + 1
  }

  /** TArray::Remove: every occurrence of `x` removed, the rest kept in order. */
  function RemoveAll(s: seq<UserData?>, x: UserData?): (r: seq<UserData?>)
    ensures x !in r
    ensures forall y :: y in r ==> y in s
    ensures forall y :: y in s && y != x ==> multiset(r)[y] == multiset(s)[y]
    decreases |s|
  {
    if s == [] then []
    else
      assert s == [s[0]] + s[1..];
      (if s[0] == x then [] else [s[0]]) + RemoveAll(s[1..], x)
  }

  /** The list after AddAssetUserData(d): the first entry of the class of `d`, if
      any, is removed with all its occurrences, and `d` is appended. */
  function WithUserData(s: seq<UserData?>, d: UserData, isA: IsA): seq<UserData?> {
    var k := FirstMatch(s, d.cls, isA);
    (if k == -1 then s else RemoveAll(s, s[k])) + [d]
  }

  /** The entry found before adding is gone afterwards, unless it is `d` itself,
      and everything else is kept. */
  lemma AddingReplacesExisting(s: seq<UserData?>, d: UserData, isA: IsA)
    ensures var k := FirstMatch(s, d.cls, isA);
      k >= 0 && s[k] != d ==> s[k] !in WithUserData(s, d, isA)
    ensures var k := FirstMatch(s, d.cls, isA);
      forall y :: y in s && y != d && (k == -1 || y != s[k]) ==> multiset(WithUserData(s, d, isA))[y] == multiset(s)[y]
  {
  }

  /** When the class of `d` is a subclass of itself and the list held at most one
      object of that class, looking the class up after adding finds `d`. */
  lemma AddedIsFound(s: seq<UserData?>, d: UserData, isA: IsA)
    requires isA(d.cls, d.cls)
    requires forall i, j :: 0 <= i < j < |s| && Matches(s[i], d.cls, isA) && Matches(s[j], d.cls, isA) ==> s[i] == s[j]
    ensures var s' := WithUserData(s, d, isA); FirstMatch(s', d.cls, isA) == |s'| - 1
  {
    var k := FirstMatch(s, d.cls, isA);
    var s' := WithUserData(s, d, isA);
    var rest := if k == -1 then s else RemoveAll(s, s[k]);
    assert s' == rest + [d];
    assert Matches(s'[|s'| - 1], d.cls, isA);
    forall j | 0 <= j < |rest| ensures !Matches(s'[j], d.cls, isA) {
      assert s'[j] == rest[j] && rest[j] in rest;
      if k >= 0 {
        assert multiset(rest)[rest[j]] > 0;
        assert rest[j] in s;
        var i :| 0 <= i < |s| && s[i] == rest[j];
      }
    }
  }

  /** How many entries are objects of class `c`. */
  function CountMatches(s: seq<UserData?>, c: ClassName, isA: IsA): nat
    decreases |s|
  {
    if s == [] then 0 else (if Matches(s[0], c, isA) then 1 else 0) + CountMatches(s[1..], c, isA)
  }

  lemma {:induction false} CountMatchesAppend(a: seq<UserData?>, b: seq<UserData?>, c: ClassName, isA: IsA)
    ensures CountMatches(a + b, c, isA) == CountMatches(a, c, isA) + CountMatches(b, c, isA)
    decreases |a|
  {
    if a == [] {
      assert a + b == b;
    } else {
      assert (a + b)[1..] == a[1..] + b;
      CountMatchesAppend(a[1..], b, c, isA);
    }
  }

  /** Removing the first entry of a class removes exactly one object of it. */
  lemma RemovingFirstMatchDropsOne(s: seq<UserData?>, c: ClassName, isA: IsA)
    requires FirstMatch(s, c, isA) >= 0
    ensures var k := FirstMatch(s, c, isA);
      CountMatches(s[..k] + s[k + 1..], c, isA) == CountMatches(s, c, isA) - 1
  {
    var k := FirstMatch(s, c, isA);
    assert s == s[..k] + s[k..];
    assert s[k..] == [s[k]] + s[k + 1..];
    CountMatchesAppend(s[..k], s[k..], c, isA);
    CountMatchesAppend(s[..k], s[k + 1..], c, isA);
    assert [s[k]] + s[k + 1..] == s[k..];
    assert s[k..][1..] == s[k + 1..];
  }

  class Dialogue {
    /** The regular nodes; an edge target indexes this array. */
    var nodes: seq<Node>
    /** The start nodes, outside the array. */
    var startNodes: seq<Node>
    /** NodesGUIDToIndexMap. */
    var guidToIndex: map<Guid, int>
    var participantsData: ParticipantsData
    var allSpeakerStates: set<Name>
    var participantsClasses: seq<ParticipantClass>
    var assetUserData: seq<UserData?>
    /** Set once PostLoad has finished. */
    var wasLoaded: bool

    constructor ()
      ensures nodes == [] && startNodes == [] && guidToIndex == map[]
      ensures participantsData == map[] && allSpeakerStates == {} && participantsClasses == []
      ensures assetUserData == [] && !wasLoaded
    {
      nodes := [];
      startNodes := [];
      guidToIndex := map[];
      participantsData := map[];
      allSpeakerStates := {};
      participantsClasses := [];
      assetUserData := [];
      wasLoaded := false;
    }

    predicate IsValidNodeIndex(index: int)
      reads this`nodes
    {
      0 <= index < |nodes|
    }

    /** Every key of the map names a node of the array that carries that GUID. */
    predicate GuidMapConsistent()
      reads this
    {
      forall g :: g in guidToIndex ==> IsValidNodeIndex(guidToIndex[g]) && nodes[guidToIndex[g]].guid == g
    }

    // ----- the node array and the GUID map -----

    /** Binds the GUID of `n` to `index`, unless `n` is null, the index is out of
        range or the node has no valid GUID. */
    method UpdateGUIDToIndexMap(n: Node?, index: int)
      modifies this`guidToIndex
      ensures guidToIndex ==
        if n != null && IsValidNodeIndex(index) && n.HasGUID() then old(guidToIndex)[n.guid := index]
        else old(guidToIndex)
    {
      if n == null || !IsValidNodeIndex(index) || !n.HasGUID() {
        return;
      }
      guidToIndex := guidToIndex[n.GetGUID() := index];
    }

    /** Replaces the array and registers every node's GUID under its index, on top
        of the entries already in the map. */
    method SetNodes(ns: seq<Node>)
      modifies this`nodes, this`guidToIndex
      ensures nodes == ns
      ensures guidToIndex == WithGuids(old(guidToIndex), GuidsOf(ns))
      ensures DistinctValidGuids(GuidsOf(ns)) ==>
        forall i :: 0 <= i < |ns| && ns[i].HasGUID() ==> GetNodeIndexForGUID(ns[i].GetGUID()) == i
      ensures old(guidToIndex) == map[] ==> GuidMapConsistent()
    {
      nodes := ns;
      var gs := GuidsOf(ns);
      var i := 0;
      while i < |nodes|
        invariant 0 <= i <= |nodes| && nodes == ns
        invariant guidToIndex == WithGuids(old(guidToIndex), gs[..i])
      {
        assert gs[..i + 1][..i] == gs[..i];
        UpdateGUIDToIndexMap(nodes[i], i);
        i := i + 1;
      }
      assert gs[..|gs|] == gs;
      if DistinctValidGuids(gs) {
        forall i | 0 <= i < |ns| && ns[i].HasGUID()
          ensures GetNodeIndexForGUID(ns[i].GetGUID()) == i
        {
          WithGuidsIndex(old(guidToIndex), gs, i);
        }
      }
      if old(guidToIndex) == map[] {
        WithGuidsFromEmpty(gs);
      }
    }

    /** Puts `n` at `index` and binds its GUID there; nothing happens when the index
        is out of range or `n` is null. */
    method SetNode(index: int, n: Node?)
      modifies this`nodes, this`guidToIndex
      ensures !(0 <= index < old(|nodes|) && n != null) ==>
        nodes == old(nodes) && guidToIndex == old(guidToIndex)
      ensures 0 <= index < old(|nodes|) && n != null ==>
        nodes == old(nodes)[index := n] &&
        guidToIndex == if n.HasGUID() then old(guidToIndex)[n.guid := index] else old(guidToIndex)
    {
      if !IsValidNodeIndex(index) || n == null {
        return;
      }
      nodes := nodes[index := n];
      UpdateGUIDToIndexMap(n, index);
    }

    /** The index bound to `g`, or INDEX_NONE for an unknown GUID. */
    function GetNodeIndexForGUID(g: Guid): (index: int)
      reads this
      ensures g !in guidToIndex ==> index == IndexNone
      ensures g in guidToIndex ==> index == guidToIndex[g]
    {
      if g in guidToIndex then guidToIndex[g] else IndexNone
    }

    /** The GUID of the node at `index`, or the invalid GUID out of range. */
    function GetNodeGUIDForIndex(index: int): (g: Guid)
      reads this
      ensures !IsValidNodeIndex(index) ==> g == InvalidGuid
      ensures IsValidNodeIndex(index) ==> g == nodes[index].GetGUID()
    {
      if IsValidNodeIndex(index) then nodes[index].GetGUID() else InvalidGuid
    }

    /** A consistent map takes a GUID to a node carrying it, and back. */
    lemma GuidRoundTrip(g: Guid)
      requires GuidMapConsistent() && g in guidToIndex
      ensures GetNodeGUIDForIndex(GetNodeIndexForGUID(g)) == g
    {
    }

    predicate IsEndNode(index: int)
      reads this
      ensures IsEndNode(index) <==> IsValidNodeIndex(index) && nodes[index].kind.End?
    {
      IsValidNodeIndex(index) && nodes[index].kind.End?
    }

    // ----- the load-time check -----

    /** Edge `j` of node `i` is valid but targets no node of the array. */
    predicate IsEdgeFault(i: int, j: int)
      reads this`nodes, set n | n in nodes
    {
      0 <= i < |nodes| && 0 <= j < |nodes[i].children| &&
      nodes[i].children[j].IsValid() && !IsValidNodeIndex(nodes[i].children[j].targetIndex)
    }

    ghost predicate EdgeTargetsValid()
      reads this`nodes, set n | n in nodes
    {
      forall i, j :: !IsEdgeFault(i, j)
    }

    /** The edge-target scan of PostLoad, node by node and edge by edge: the first
        valid edge whose target is out of range, or None when there is none. */
    method CheckNodeEdges() returns (fault: Option<EdgeFault>)
      ensures fault.None? <==> EdgeTargetsValid()
      ensures fault.Some? ==>
        IsEdgeFault(fault.value.nodeIndex, fault.value.edgeIndex) &&
        fault.value.targetIndex == nodes[fault.value.nodeIndex].children[fault.value.edgeIndex].targetIndex &&
        forall i, j :: (i < fault.value.nodeIndex || (i == fault.value.nodeIndex && j < fault.value.edgeIndex)) ==> !IsEdgeFault(i, j)
    {
      var nodeIndex := 0;
      while nodeIndex < |nodes|
        invariant 0 <= nodeIndex <= |nodes|
        invariant forall i, j :: i < nodeIndex ==> !IsEdgeFault(i, j)
      {
        var edges := nodes[nodeIndex].GetNodeChildren();
        var edgeIndex := 0;
        while edgeIndex < |edges|
          invariant 0 <= edgeIndex <= |edges|
          invariant forall j :: j < edgeIndex ==> !IsEdgeFault(nodeIndex, j)
        {
          var edge := edges[edgeIndex];
          if edge.IsValid() && !IsValidNodeIndex(edge.targetIndex) {
            assert IsEdgeFault(nodeIndex, edgeIndex);
            return Some(EdgeFault(nodeIndex, edgeIndex, edge.targetIndex));
          }
          edgeIndex := edgeIndex + 1;
        }
        nodeIndex := nodeIndex + 1;
      }
      return None;
    }

    /** The end of PostLoad: a fault is fatal and stops the load, otherwise the
        dialogue is marked as loaded. */
    method PostLoad() returns (fault: Option<EdgeFault>)
      modifies this`wasLoaded
      ensures fault.None? <==> EdgeTargetsValid()
      ensures wasLoaded == (fault.None? || old(wasLoaded))
    {
      fault := CheckNodeEdges();
      if fault.None? {
        wasLoaded := true;
      }
    }

    // ----- asset user data -----

    /** The first entry that is an object of class `c`, or null. */
    method GetAssetUserDataOfClass(c: ClassName, isA: IsA) returns (d: UserData?)
      ensures var k := FirstMatch(assetUserData, c, isA);
        d == if k == -1 then null else assetUserData[k]
    {
      var i := 0;
      while i < |assetUserData|
        invariant 0 <= i <= |assetUserData|
        invariant forall j :: 0 <= j < i ==> !Matches(assetUserData[j], c, isA)
      {
        var datum := assetUserData[i];
        if datum != null && isA(datum.cls, c) {
          return datum;
        }
        i := i + 1;
      }
      return null;
    }

    /** Adds `d`, replacing the object of its class found first; null is ignored. */
    method AddAssetUserData(d: UserData?, isA: IsA)
      modifies this`assetUserData
      ensures d == null ==> assetUserData == old(assetUserData)
      ensures d != null ==> assetUserData == WithUserData(old(assetUserData), d, isA)
    {
      if d != null {
        var existing := GetAssetUserDataOfClass(d.cls, isA);
        if existing != null {
          assetUserData := RemoveAll(assetUserData, existing);
        }
        assetUserData := assetUserData + [d];
      }
    }

    /** Removes the first entry that is an object of class `c`, if any. */
    method RemoveUserDataOfClass(c: ClassName, isA: IsA)
      modifies this`assetUserData
      ensures var k := FirstMatch(old(assetUserData), c, isA);
        assetUserData == if k == -1 then old(assetUserData) else old(assetUserData[..k] + assetUserData[k + 1..])
    {
      var i := 0;
      while i < |assetUserData|
        invariant 0 <= i <= |assetUserData|
        invariant assetUserData == old(assetUserData)
        invariant forall j :: 0 <= j < i ==> !Matches(assetUserData[j], c, isA)
      {
        var datum := assetUserData[i];
        if datum != null && isA(datum.cls, c) {
          assetUserData := assetUserData[..i] + assetUserData[i + 1..];
          return;
        }
        i := i + 1;
      }
    }

    // ----- the refresh pass -----

    /** GetParticipantDataEntry with bCheckNone, then one Add*Data on the entry:
        `cap` is filed under the effective name, or dropped when that is None. */
    method FileCapability(name: Name, fallback: Name, cap: Capability)
      modifies this`participantsData
      ensures participantsData == Step(old(participantsData), Attribute(name, fallback, cap))
    {
      var (data, key) := GetParticipantDataEntry(participantsData, name, fallback, true);
      if key.Some? {
        participantsData := data[key.value := data[key.value] + multiset{cap}];
      }
    }

    /** Primary data under the participant, secondary data under the other
        participant, each when that participant is involved. */
    method AddConditionData(c: Condition, fallback: Name)
      modifies this`participantsData
      ensures participantsData == Apply(old(participantsData), ConditionTouchesOf(c, fallback))
    {
      ghost var d0 := participantsData;
      ghost var first := if c.participantInvolved then [Attribute(c.participantName, fallback, ConditionPrimary(c))] else [];
      ghost var second := if c.secondParticipantInvolved then [Attribute(c.otherParticipantName, fallback, ConditionSecondary(c))] else [];
      if c.participantInvolved {
        FileCapability(c.participantName, fallback, ConditionPrimary(c));
        ApplySingle(d0, first[0]);
      }
      assert participantsData == Apply(d0, first);
      ghost var d1 := participantsData;
      if c.secondParticipantInvolved {
        FileCapability(c.otherParticipantName, fallback, ConditionSecondary(c));
        ApplySingle(d1, second[0]);
      }
      assert participantsData == Apply(d1, second);
      ApplyAppend(d0, first, second);
    }

    method AddConditionsData(conditions: seq<Condition>, fallback: Name)
      modifies this`participantsData
      ensures participantsData == Apply(old(participantsData), ConditionTouches(conditions, fallback))
    {
      ghost var d0 := participantsData;
      var i := 0;
      while i < |conditions|
        invariant 0 <= i <= |conditions|
        invariant participantsData == Apply(d0, ConditionTouches(conditions[..i], fallback))
      {
        assert conditions[..i + 1][..i] == conditions[..i];
        ApplyAppend(d0, ConditionTouches(conditions[..i], fallback), ConditionTouchesOf(conditions[i], fallback));
        AddConditionData(conditions[i], fallback);
        i := i + 1;
      }
      assert conditions[..|conditions|] == conditions;
    }

    /** The conditions of every edge of `n`, with the owner of `n` as fallback. */
    method AddConditionsDataFromNodeEdges(n: Node)
      modifies this`participantsData
      ensures participantsData == Apply(old(participantsData), EdgeConditionTouches(n.children, n.ownerName))
    {
      ghost var d0 := participantsData;
      var fallback := n.GetNodeParticipantName();
      var edges := n.GetNodeChildren();
      var i := 0;
      while i < |edges|
        invariant 0 <= i <= |edges|
        invariant participantsData == Apply(d0, EdgeConditionTouches(edges[..i], fallback))
      {
        assert edges[..i + 1][..i] == edges[..i];
        ApplyAppend(d0, EdgeConditionTouches(edges[..i], fallback), ConditionTouches(edges[i].conditions, fallback));
        AddConditionsData(edges[i].conditions, fallback);
        i := i + 1;
      }
      assert edges[..|edges|] == edges;
    }

    method AddTextArgumentsData(args: seq<TextArgument>, fallback: Name)
      modifies this`participantsData
      ensures participantsData == Apply(old(participantsData), TextArgumentTouches(args, fallback))
    {
      ghost var d0 := participantsData;
      var i := 0;
      while i < |args|
        invariant 0 <= i <= |args|
        invariant participantsData == Apply(d0, TextArgumentTouches(args[..i], fallback))
      {
        assert args[..i + 1][..i] == args[..i];
        var t := Attribute(args[i].participantName, fallback, TextArgumentData(args[i]));
        ApplyAppend(d0, TextArgumentTouches(args[..i], fallback), [t]);
        ghost var before := participantsData;
        FileCapability(args[i].participantName, fallback, TextArgumentData(args[i]));
        ApplySingle(before, t);
        i := i + 1;
      }
      assert args[..|args|] == args;
    }

    method AddEventsData(events: seq<Event>, fallback: Name)
      modifies this`participantsData
      ensures participantsData == Apply(old(participantsData), EventTouches(events, fallback))
    {
      ghost var d0 := participantsData;
      var i := 0;
      while i < |events|
        invariant 0 <= i <= |events|
        invariant participantsData == Apply(d0, EventTouches(events[..i], fallback))
      {
        assert events[..i + 1][..i] == events[..i];
        var t := Attribute(events[i].participantName, fallback, EventData(events[i]));
        ApplyAppend(d0, EventTouches(events[..i], fallback), [t]);
        ghost var before := participantsData;
        FileCapability(events[i].participantName, fallback, EventData(events[i]));
        ApplySingle(before, t);
        i := i + 1;
      }
      assert events[..|events|] == events;
    }

    /** Adds an empty entry for each name that has none yet. */
    method RegisterParticipants(names: seq<Name>)
      modifies this`participantsData
      ensures participantsData == Apply(old(participantsData), RegisterTouches(names))
    {
      ghost var d0 := participantsData;
      var i := 0;
      while i < |names|
        invariant 0 <= i <= |names|
        invariant participantsData == Apply(d0, RegisterTouches(names[..i]))
      {
        assert names[..i + 1][..i] == names[..i];
        ApplyAppend(d0, RegisterTouches(names[..i]), [Register(names[i])]);
        ApplySingle(participantsData, Register(names[i]));
        if names[i] !in participantsData {
          participantsData := participantsData[names[i] := multiset{}];
        }
        i := i + 1;
      }
      assert names[..|names|] == names;
    }

    /** The edge walk of a regular node: each edge's speaker state goes into the
        set, its text arguments into the data. */
    method AddEdgesData(n: Node)
      modifies this`participantsData, this`allSpeakerStates
      ensures participantsData == Apply(old(participantsData), EdgeTextArgumentTouches(n.children, n.ownerName))
      ensures allSpeakerStates == old(allSpeakerStates) + EdgeStates(n.children)
    {
      ghost var d0 := participantsData;
      var fallback := n.GetNodeParticipantName();
      var numChildren := n.GetNumNodeChildren();
      var i := 0;
      while i < numChildren
        invariant 0 <= i <= numChildren == |n.children|
        invariant participantsData == Apply(d0, EdgeTextArgumentTouches(n.children[..i], fallback))
        invariant allSpeakerStates == old(allSpeakerStates) + EdgeStates(n.children[..i])
      {
        var edge := n.GetNodeChildAt(i);
        assert edge == n.children[i];
        assert n.children[..i + 1] == n.children[..i] + [edge];
        ApplyAppend(d0, EdgeTextArgumentTouches(n.children[..i], fallback), TextArgumentTouches(edge.textArguments, fallback));
        allSpeakerStates := allSpeakerStates + {edge.speakerState};
        AddTextArgumentsData(edge.textArguments, fallback);
        i := i + 1;
      }
      assert n.children[..numChildren] == n.children;
    }

    /** Everything one regular node contributes, in the order of the refresh pass. */
    method AddNodeData(n: Node)
      modifies this`participantsData, this`allSpeakerStates
      ensures participantsData == Apply(old(participantsData), NodeTouches(Snapshot(n)))
      ensures allSpeakerStates == old(allSpeakerStates) + EdgeStates(n.children)
    {
      var nd := Snapshot(n);
      var fallback := n.GetNodeParticipantName();
      ghost var d0 := participantsData;
      var participants := n.GetAssociatedParticipants([]);
      ghost var t1 := RegisterTouches(participants);
      RegisterParticipants(participants);
      allSpeakerStates := n.AddAllSpeakerStatesIntoSet(allSpeakerStates);
      ghost var t2 := ConditionTouches(n.enterConditions, fallback);
      AddConditionsData(n.GetNodeEnterConditions(), fallback);
      ApplyAppend(d0, t1, t2);
      ghost var t3 := EdgeConditionTouches(n.children, fallback);
      AddConditionsDataFromNodeEdges(n);
      ApplyAppend(d0, t1 + t2, t3);
      ghost var t4 := EdgeTextArgumentTouches(n.children, fallback);
      AddEdgesData(n);
      ApplyAppend(d0, t1 + t2 + t3, t4);
      ghost var t5 := EventTouches(n.enterEvents, fallback);
      AddEventsData(n.GetNodeEnterEvents(), fallback);
      ApplyAppend(d0, t1 + t2 + t3 + t4, t5);
      ghost var t6 := TextArgumentTouches(NodeTextArguments(n.kind), fallback);
      AddTextArgumentsData(n.GetTextArguments(), fallback);
      ApplyAppend(d0, t1 + t2 + t3 + t4 + t5, t6);
    }

    /** The first half of UpdateAndRefreshData: the participant data and the
        speaker states are emptied and rebuilt from the start nodes, then the
        regular nodes; None is then removed from the speaker states. The node
        texts are not rebuilt here. */
    method RebuildParticipantData()
      modifies this`participantsData, this`allSpeakerStates
      ensures participantsData == Aggregate(old(Snapshots(startNodes)), old(Snapshots(nodes)))
      ensures allSpeakerStates == SpeakerStates(old(Snapshots(nodes)))
    {
      ghost var starts := Snapshots(startNodes);
      ghost var regular := Snapshots(nodes);
      SnapshotsIndex(startNodes);
      SnapshotsIndex(nodes);
      participantsData := map[];
      allSpeakerStates := {};
      assert forall k :: 0 <= k < |startNodes| ==> starts[k] == Snapshot(startNodes[k]);
      SnapshotsFromIndex(startNodes, starts);
      AddStartNodesData();
      ghost var afterStarts := participantsData;
      assert forall k :: 0 <= k < |nodes| ==> regular[k] == Snapshot(nodes[k]);
      SnapshotsFromIndex(nodes, regular);
      AddNodesData();
      RebuildSound(starts, regular, afterStarts, participantsData, allSpeakerStates);
      allSpeakerStates := allSpeakerStates - {NameNone};
    }

    /** The edge conditions of every start node, in order. */
    method AddStartNodesData()
      modifies this`participantsData
      ensures participantsData == Apply(old(participantsData), AllStartTouches(old(Snapshots(startNodes))))
    {
      ghost var d0 := participantsData;
      ghost var snaps := Snapshots(startNodes);
      SnapshotsIndex(startNodes);
      var i := 0;
      while i < |startNodes|
        invariant 0 <= i <= |startNodes|
        invariant participantsData == Apply(d0, AllStartTouches(snaps[..i]))
      {
        var n := startNodes[i];
        assert Snapshot(n) == snaps[i];
        PrefixSnoc(snaps, i);
        StartPassStep(d0, snaps[..i], snaps[i]);
        AddConditionsDataFromNodeEdges(n);
        assert Snapshot(n) == snaps[i];
        i := i + 1;
      }
      assert snaps[..|startNodes|] == snaps;
    }

    /** Everything the regular nodes contribute, node by node. */
    method AddNodesData()
      modifies this`participantsData, this`allSpeakerStates
      ensures participantsData == Apply(old(participantsData), AllNodeTouches(old(Snapshots(nodes))))
      ensures allSpeakerStates == old(allSpeakerStates) + EdgeSpeakerStates(old(Snapshots(nodes)))
    {
      ghost var d0 := participantsData;
      ghost var s0 := allSpeakerStates;
      ghost var snaps := Snapshots(nodes);
      SnapshotsIndex(nodes);
      var i := 0;
      while i < |nodes|
        invariant 0 <= i <= |nodes|
        invariant participantsData == Apply(d0, AllNodeTouches(snaps[..i]))
        invariant allSpeakerStates == s0 + EdgeSpeakerStates(snaps[..i])
      {
        var n := nodes[i];
        assert Snapshot(n) == snaps[i];
        ghost var pd := participantsData;
        ghost var ss := allSpeakerStates;
        AddNodeData(n);
        assert Snapshot(n) == snaps[i];
        NodePassed(d0, s0, snaps[..i], snaps[i], pd, ss, participantsData, allSpeakerStates);
        PrefixSnoc(snaps, i);
        i := i + 1;
      }
      assert snaps[..|nodes|] == snaps;
    }

    /** The second half of UpdateAndRefreshData: the participant classes are
        reconciled against the aggregated names, and, for a loaded dialogue with
        `autoSetDefaultClasses`, unbound entries are bound from the discovered
        classes (`blueprint` and `native`, by participant name). */
    method RefreshParticipantClasses(autoSetDefaultClasses: bool, blueprint: map<Name, seq<ClassName>>, native: map<Name, seq<ClassName>>)
      modifies this`participantsClasses
      ensures NamesOf(participantsClasses) == participantsData.Keys - {NameNone}
      ensures UniqueNames(participantsClasses)
      ensures !(wasLoaded && autoSetDefaultClasses) ==>
        multiset(participantsClasses) == Reconciled(old(participantsClasses), participantsData.Keys)
      ensures wasLoaded && autoSetDefaultClasses ==>
        exists unbound: seq<ParticipantClass> ::
          multiset(unbound) == Reconciled(old(participantsClasses), participantsData.Keys) &&
          |participantsClasses| == |unbound| &&
          forall i :: 0 <= i < |unbound| ==> participantsClasses[i] == AutoBound(unbound[i], blueprint, native)
    {
      var names := GetParticipantNames();
      participantsClasses := ReconcileClasses(participantsClasses, names, wasLoaded && autoSetDefaultClasses, blueprint, native);
    }

    /** UpdateAndRefreshData: the participant data and the speaker states are
        rebuilt from scratch, so they depend on the current graph only, then the
        participant classes follow the aggregated names. */
    method UpdateAndRefreshData(autoSetDefaultClasses: bool, blueprint: map<Name, seq<ClassName>>, native: map<Name, seq<ClassName>>)
      modifies this`participantsData, this`allSpeakerStates, this`participantsClasses
      ensures participantsData == Aggregate(old(Snapshots(startNodes)), old(Snapshots(nodes)))
      ensures allSpeakerStates == SpeakerStates(old(Snapshots(nodes)))
      ensures NamesOf(participantsClasses) == participantsData.Keys - {NameNone}
      ensures UniqueNames(participantsClasses)
      ensures !(wasLoaded && autoSetDefaultClasses) ==>
        multiset(participantsClasses) == Reconciled(old(participantsClasses), participantsData.Keys)
      ensures wasLoaded && autoSetDefaultClasses ==>
        exists unbound: seq<ParticipantClass> ::
          multiset(unbound) == Reconciled(old(participantsClasses), participantsData.Keys) &&
          |participantsClasses| == |unbound| &&
          forall i :: 0 <= i < |unbound| ==> participantsClasses[i] == AutoBound(unbound[i], blueprint, native)
    {
      RebuildParticipantData();
      RefreshParticipantClasses(autoSetDefaultClasses, blueprint, native);
    }

    /** The names the participant data has entries for. */
    function GetParticipantNames(): (names: set<Name>)
      reads this
      ensures names == participantsData.Keys
    {
      participantsData.Keys
    }
  }

  /** The prefix one longer is the prefix followed by the next element. */
  lemma PrefixSnoc<T>(s: seq<T>, i: int)
    requires 0 <= i < |s|
    ensures s[..i + 1] == s[..i] + [s[i]]
  {
  }

  /** Folding one touch is one step. */
  lemma ApplySingle(data: ParticipantsData, t: Touch)
    ensures Apply(data, [t]) == Step(data, t)
  {
    assert [t][..0] == [];
  }
}
