/** The participant data a dialogue aggregates from its nodes (ParticipantsData
    and AllSpeakerStates of UDlgDialogue). One refresh pass is modelled as the
    sequence of "touches" it makes on the data, folded from an empty map. */
module DlgParticipantData {
  import opened DlgTypes
  import opened DlgNode

  /** One capability recorded for a participant. */
  datatype Capability =
    | ConditionPrimary(condition: Condition)
    | ConditionSecondary(condition: Condition)
    | EventData(event: Event)
    | TextArgumentData(argument: TextArgument)

  /** Participant name to the capabilities recorded for it. */
  type ParticipantsData = map<Name, multiset<Capability>>

  /** The name an entry is filed under: the given name, or the fallback (the node
      owner) when the given name is None. */
  function EffectiveName(name: Name, fallback: Name): (r: Name)
    ensures name != NameNone ==> r == name
    ensures name == NameNone ==> r == fallback
  {
    if name == NameNone then fallback else name
  }

  /** GetParticipantDataEntry: the data with the entry for the effective name
      present, and the key of that entry; no key when the effective name is None
      and `checkNone` is set (the black-hole entry, which leaves the data alone). */
  function GetParticipantDataEntry(data: ParticipantsData, name: Name, fallback: Name, checkNone: bool): (r: (ParticipantsData, Option<Name>))
    ensures var eff := EffectiveName(name, fallback);
            if checkNone && eff == NameNone then r == (data, None)
            else
              r.1 == Some(eff) && r.0.Keys == data.Keys + {eff} &&
              (forall k :: k in data ==> r.0[k] == data[k]) &&
              (eff !in data ==> r.0[eff] == multiset{})
  {
    var eff := EffectiveName(name, fallback);
    if checkNone && eff == NameNone then (data, None)
    else if eff in data then (data, Some(eff))
    else (data[eff := multiset{}], Some(eff))
  }

  /** One write of the refresh pass: registering a participant name (with no
      capabilities), or filing a capability under a name with the owner fallback. */
  datatype Touch =
    | Register(name: Name)
    | Attribute(name: Name, fallback: Name, capability: Capability)
  {
    /** The key this touch files under, if any. */
    function Key(): Option<Name> {
      match this
      case Register(n) => Some(n)
      case Attribute(n, f, _) => if EffectiveName(n, f) == NameNone then None else Some(EffectiveName(n, f))
    }
  }

  function Step(data: ParticipantsData, t: Touch): ParticipantsData {
    match t
    case Register(n) => if n in data then data else data[n := multiset{}]
    case Attribute(n, f, cap) =>
      var (d, key) := GetParticipantDataEntry(data, n, f, true);
      if key.Some? then d[key.value := d[key.value] + multiset{cap}] else d
  }

  function Apply(data: ParticipantsData, ts: seq<Touch>): ParticipantsData
    decreases |ts|
  {
    if ts == [] then data else Step(Apply(data, ts[..|ts| - 1]), ts[|ts| - 1])
  }

  lemma {:induction false} ApplyAppend(data: ParticipantsData, a: seq<Touch>, b: seq<Touch>)
    ensures Apply(data, a + b) == Apply(Apply(data, a), b)
    decreases |b|
  {
    if b != [] {
      var init := b[..|b| - 1];
      var last := b[|b| - 1];
      assert (a + b)[..|a + b| - 1] == a + init;
      assert (a + b)[|a + b| - 1] == last;
      calc {
        Apply(data, a + b);
        Step(Apply(data, a + init), last);
        { ApplyAppend(data, a, init); }
        Step(Apply(Apply(data, a), init), last);
        Apply(Apply(data, a), b);
      }
    } else {
      assert a + b == a;
    }
  }

  /** The keys a touch list files under. */
  function TouchKeys(ts: seq<Touch>): set<Name>
    decreases |ts|
  {
    if ts == [] then {}
    else
      var last := ts[|ts| - 1];
      TouchKeys(ts[..|ts| - 1]) + (if last.Key().Some? then {last.Key().value} else {})
  }

  lemma {:induction false} TouchKeysMembership(ts: seq<Touch>)
    ensures forall k :: k in TouchKeys(ts) <==> exists t :: t in ts && t.Key() == Some(k)
    decreases |ts|
  {
    if ts != [] {
      var init := ts[..|ts| - 1];
      TouchKeysMembership(init);
      assert ts == init + [ts[|ts| - 1]];
    }
  }

  /** The capabilities a touch list files under `k`. */
  function CapsFor(ts: seq<Touch>, k: Name): multiset<Capability>
    decreases |ts|
  {
    if ts == [] then multiset{}
    else
      var last := ts[|ts| - 1];
      CapsFor(ts[..|ts| - 1], k) + (if last.Attribute? && last.Key() == Some(k) then multiset{last.capability} else multiset{})
  }

  lemma {:induction false} CapsForMembership(ts: seq<Touch>, k: Name)
    ensures forall cap :: cap in CapsFor(ts, k) <==> exists t :: t in ts && t.Attribute? && t.Key() == Some(k) && t.capability == cap
    decreases |ts|
  {
    if ts != [] {
      var init := ts[..|ts| - 1];
      CapsForMembership(init, k);
      assert ts == init + [ts[|ts| - 1]];
    }
  }

  lemma {:induction false} CapsForUntouchedKey(ts: seq<Touch>, k: Name)
    requires k !in TouchKeys(ts)
    ensures CapsFor(ts, k) == multiset{}
    decreases |ts|
  {
    if ts != [] {
      CapsForUntouchedKey(ts[..|ts| - 1], k);
    }
  }

  /** One touch adds its key, if any, and files its capability under it. */
  lemma StepContents(data: ParticipantsData, t: Touch)
    ensures Step(data, t).Keys == data.Keys + (if t.Key().Some? then {t.Key().value} else {})
    ensures forall k :: k in Step(data, t) ==>
      Step(data, t)[k] == (if k in data then data[k] else multiset{}) +
        (if t.Attribute? && t.Key() == Some(k) then multiset{t.capability} else multiset{})
  {
  }

  /** The data after a touch list holds the old keys plus the touched keys. */
  lemma {:induction false} ApplyKeys(data: ParticipantsData, ts: seq<Touch>)
    ensures Apply(data, ts).Keys == data.Keys + TouchKeys(ts)
    decreases |ts|
  {
    if ts != [] {
      ApplyKeys(data, ts[..|ts| - 1]);
      StepContents(Apply(data, ts[..|ts| - 1]), ts[|ts| - 1]);
    }
  }

  /** Each entry holds its old capabilities plus exactly those filed under it. */
  lemma {:induction false} ApplyEntry(data: ParticipantsData, ts: seq<Touch>, k: Name)
    requires k in Apply(data, ts)
    ensures Apply(data, ts)[k] == (if k in data then data[k] else multiset{}) + CapsFor(ts, k)
    decreases |ts|
  {
    if ts != [] {
      var init := ts[..|ts| - 1];
      var last := ts[|ts| - 1];
      var d0 := Apply(data, init);
      StepContents(d0, last);
      if k in d0 {
        ApplyEntry(data, init, k);
      } else {
        ApplyKeys(data, init);
        CapsForUntouchedKey(init, k);
      }
    }
  }

  /** The data after a touch list: the old keys plus the touched keys, each entry
      its old capabilities plus exactly those filed under it. */
  lemma ApplyContents(data: ParticipantsData, ts: seq<Touch>)
    ensures Apply(data, ts).Keys == data.Keys + TouchKeys(ts)
    ensures forall k :: k in Apply(data, ts) ==>
      Apply(data, ts)[k] == (if k in data then data[k] else multiset{}) + CapsFor(ts, k)
  {
    ApplyKeys(data, ts);
    forall k | k in Apply(data, ts)
      ensures Apply(data, ts)[k] == (if k in data then data[k] else multiset{}) + CapsFor(ts, k)
    {
      ApplyEntry(data, ts, k);
    }
  }

  /** The touches of one condition: primary data under its participant when the
      participant is involved, secondary data under the other participant when that
      one is involved. */
  function ConditionTouchesOf(c: Condition, fallback: Name): seq<Touch> {
    (if c.participantInvolved then [Attribute(c.participantName, fallback, ConditionPrimary(c))] else []) +
    (if c.secondParticipantInvolved then [Attribute(c.otherParticipantName, fallback, ConditionSecondary(c))] else [])
  }

  function ConditionTouches(conditions: seq<Condition>, fallback: Name): (r: seq<Touch>)
    ensures forall t :: t in r ==> t.Attribute?
    decreases |conditions|
  {
    if conditions == [] then []
    else
      var last := conditions[|conditions| - 1];
      ConditionTouches(conditions[..|conditions| - 1], fallback) + ConditionTouchesOf(last, fallback)
  }

  lemma {:induction false} ConditionTouchesMembership(conditions: seq<Condition>, fallback: Name)
    ensures forall t :: t in ConditionTouches(conditions, fallback) <==> exists c :: c in conditions && t in ConditionTouchesOf(c, fallback)
    decreases |conditions|
  {
    if conditions != [] {
      var init := conditions[..|conditions| - 1];
      ConditionTouchesMembership(init, fallback);
      assert conditions == init + [conditions[|conditions| - 1]];
    }
  }

  /** AddConditionsDataFromNodeEdges: the conditions of every edge, in edge order. */
  function EdgeConditionTouches(edges: seq<Edge>, fallback: Name): (r: seq<Touch>)
    ensures forall t :: t in r ==> t.Attribute?
    decreases |edges|
  {
    if edges == [] then []
    else
      var last := edges[|edges| - 1];
      EdgeConditionTouches(edges[..|edges| - 1], fallback) + ConditionTouches(last.conditions, fallback)
  }

  lemma {:induction false} EdgeConditionTouchesMembership(edges: seq<Edge>, fallback: Name)
    ensures forall t :: t in EdgeConditionTouches(edges, fallback) <==> exists e :: e in edges && t in ConditionTouches(e.conditions, fallback)
    decreases |edges|
  {
    if edges != [] {
      var init := edges[..|edges| - 1];
      EdgeConditionTouchesMembership(init, fallback);
      assert edges == init + [edges[|edges| - 1]];
    }
  }

  function TextArgumentTouches(args: seq<TextArgument>, fallback: Name): (r: seq<Touch>)
    ensures forall t :: t in r ==> t.Attribute?
    decreases |args|
  {
    if args == [] then []
    else
      var last := args[|args| - 1];
      TextArgumentTouches(args[..|args| - 1], fallback) + [Attribute(last.participantName, fallback, TextArgumentData(last))]
  }

  lemma {:induction false} TextArgumentTouchesMembership(args: seq<TextArgument>, fallback: Name)
    ensures forall t :: t in TextArgumentTouches(args, fallback) <==> exists a :: a in args && t == Attribute(a.participantName, fallback, TextArgumentData(a))
    decreases |args|
  {
    if args != [] {
      var init := args[..|args| - 1];
      TextArgumentTouchesMembership(init, fallback);
      assert args == init + [args[|args| - 1]];
    }
  }

  function EdgeTextArgumentTouches(edges: seq<Edge>, fallback: Name): (r: seq<Touch>)
    ensures forall t :: t in r ==> t.Attribute?
    decreases |edges|
  {
    if edges == [] then []
    else
      var last := edges[|edges| - 1];
      EdgeTextArgumentTouches(edges[..|edges| - 1], fallback) + TextArgumentTouches(last.textArguments, fallback)
  }

  lemma {:induction false} EdgeTextArgumentTouchesMembership(edges: seq<Edge>, fallback: Name)
    ensures forall t :: t in EdgeTextArgumentTouches(edges, fallback) <==> exists e :: e in edges && t in TextArgumentTouches(e.textArguments, fallback)
    decreases |edges|
  {
    if edges != [] {
      var init := edges[..|edges| - 1];
      EdgeTextArgumentTouchesMembership(init, fallback);
      assert edges == init + [edges[|edges| - 1]];
    }
  }

  function EventTouches(events: seq<Event>, fallback: Name): (r: seq<Touch>)
    ensures forall t :: t in r ==> t.Attribute?
    decreases |events|
  {
    if events == [] then []
    else
      var last := events[|events| - 1];
      EventTouches(events[..|events| - 1], fallback) + [Attribute(last.participantName, fallback, EventData(last))]
  }

  lemma {:induction false} EventTouchesMembership(events: seq<Event>, fallback: Name)
    ensures forall t :: t in EventTouches(events, fallback) <==> exists ev :: ev in events && t == Attribute(ev.participantName, fallback, EventData(ev))
    decreases |events|
  {
    if events != [] {
      var init := events[..|events| - 1];
      EventTouchesMembership(init, fallback);
      assert events == init + [events[|events| - 1]];
    }
  }

  function RegisterTouches(names: seq<Name>): seq<Touch>
    decreases |names|
  {
    if names == [] then []
    else
      var last := names[|names| - 1];
      RegisterTouches(names[..|names| - 1]) + [Register(last)]
  }

  lemma {:induction false} RegisterTouchesMembership(names: seq<Name>)
    ensures forall t :: t in RegisterTouches(names) <==> exists x :: x in names && t == Register(x)
    decreases |names|
  {
    if names != [] {
      var init := names[..|names| - 1];
      RegisterTouchesMembership(init);
      assert names == init + [names[|names| - 1]];
    }
  }

  /** What the refresh pass reads of a node. */
  datatype NodeData = NodeData(
    kind: NodeKind,
    owner: Name,
    enterConditions: seq<Condition>,
    enterEvents: seq<Event>,
    children: seq<Edge>)

  function Snapshot(n: Node): (nd: NodeData)
    reads n
    ensures nd.kind == n.kind && nd.owner == n.ownerName && nd.children == n.children
    ensures nd.enterConditions == n.enterConditions && nd.enterEvents == n.enterEvents
  {
    NodeData(n.kind, n.ownerName, n.enterConditions, n.enterEvents, n.children)
  }

  /** What the refresh pass reads of each node of an array, in array order. */
  function Snapshots(ns: seq<Node>): (r: seq<NodeData>)
    reads set n | n in ns
    decreases |ns|
  {
    if ns == [] then [] else Snapshots(ns[..|ns| - 1]) + [Snapshot(ns[|ns| - 1])]
  }

  /** One snapshot per node, at the node's own position. */
  lemma {:induction false} SnapshotsIndex(ns: seq<Node>)
    ensures |Snapshots(ns)| == |ns|
    ensures forall k :: 0 <= k < |ns| ==> Snapshots(ns)[k] == Snapshot(ns[k])
    decreases |ns|
  {
    if ns != [] {
      SnapshotsIndex(ns[..|ns| - 1]);
    }
  }

  /** A sequence holding the snapshot of each node, in order, is Snapshots. */
  lemma SnapshotsFromIndex(ns: seq<Node>, snaps: seq<NodeData>)
    requires |snaps| == |ns| && forall k :: 0 <= k < |ns| ==> snaps[k] == Snapshot(ns[k])
    ensures Snapshots(ns) == snaps
  {
    SnapshotsIndex(ns);
  }

  function NodeTextArguments(kind: NodeKind): seq<TextArgument> {
    if kind.Speech? then kind.textArguments else []
  }

  /** A regular node: its associated participants registered, then its enter
      conditions, edge conditions, edge text arguments, enter events and own text
      arguments, all with the owner as fallback. */
  function NodeTouches(nd: NodeData): seq<Touch> {
    RegisterTouches(AssociatedParticipants([], nd.owner, nd.kind)) +
    ConditionTouches(nd.enterConditions, nd.owner) +
    EdgeConditionTouches(nd.children, nd.owner) +
    EdgeTextArgumentTouches(nd.children, nd.owner) +
    EventTouches(nd.enterEvents, nd.owner) +
    TextArgumentTouches(NodeTextArguments(nd.kind), nd.owner)
  }

  /** A start node: only the conditions of its edges. */
  function StartNodeTouches(nd: NodeData): seq<Touch> {
    EdgeConditionTouches(nd.children, nd.owner)
  }

  function AllStartTouches(starts: seq<NodeData>): seq<Touch>
    decreases |starts|
  {
    if starts == [] then []
    else
      var last := starts[|starts| - 1];
      AllStartTouches(starts[..|starts| - 1]) + StartNodeTouches(last)
  }

  lemma {:induction false} AllStartTouchesMembership(starts: seq<NodeData>)
    ensures forall t :: t in AllStartTouches(starts) <==> exists nd :: nd in starts && t in StartNodeTouches(nd)
    decreases |starts|
  {
    if starts != [] {
      var init := starts[..|starts| - 1];
      AllStartTouchesMembership(init);
      assert starts == init + [starts[|starts| - 1]];
    }
  }

  function AllNodeTouches(nodes: seq<NodeData>): seq<Touch>
    decreases |nodes|
  {
    if nodes == [] then []
    else
      var last := nodes[|nodes| - 1];
      AllNodeTouches(nodes[..|nodes| - 1]) + NodeTouches(last)
  }

  lemma {:induction false} AllNodeTouchesMembership(nodes: seq<NodeData>)
    ensures forall t :: t in AllNodeTouches(nodes) <==> exists nd :: nd in nodes && t in NodeTouches(nd)
    decreases |nodes|
  {
    if nodes != [] {
      var init := nodes[..|nodes| - 1];
      var last := nodes[|nodes| - 1];
      AllNodeTouchesMembership(init);
      assert nodes == init + [last];
      forall t ensures t in AllNodeTouches(nodes) <==> exists nd :: nd in nodes && t in NodeTouches(nd)
      {
        assert AllNodeTouches(nodes) == AllNodeTouches(init) + NodeTouches(last);
        if t in NodeTouches(last) {
          assert last in nodes;
        }
      }
    }
  }

  /** One more start node: its touches follow those of the earlier ones. */
  lemma StartPassStep(d0: ParticipantsData, starts: seq<NodeData>, nd: NodeData)
    ensures Apply(d0, AllStartTouches(starts + [nd])) == Apply(Apply(d0, AllStartTouches(starts)), StartNodeTouches(nd))
  {
    assert (starts + [nd])[..|starts|] == starts;
    ApplyAppend(d0, AllStartTouches(starts), StartNodeTouches(nd));
  }

  /** One more regular node: its touches follow those of the earlier ones, and
      its edge speaker states join theirs. */
  lemma NodePassStep(d0: ParticipantsData, nodes: seq<NodeData>, nd: NodeData)
    ensures Apply(d0, AllNodeTouches(nodes + [nd])) == Apply(Apply(d0, AllNodeTouches(nodes)), NodeTouches(nd))
    ensures EdgeSpeakerStates(nodes + [nd]) == EdgeSpeakerStates(nodes) + EdgeStates(nd.children)
  {
    assert (nodes + [nd])[..|nodes|] == nodes;
    ApplyAppend(d0, AllNodeTouches(nodes), NodeTouches(nd));
  }

  /** NodePassStep stated on the values before and after one node's pass. */
  lemma NodePassed(d0: ParticipantsData, s0: set<Name>, done: seq<NodeData>, nd: NodeData,
                   pd: ParticipantsData, ss: set<Name>, pd2: ParticipantsData, ss2: set<Name>)
    requires pd == Apply(d0, AllNodeTouches(done)) && ss == s0 + EdgeSpeakerStates(done)
    requires pd2 == Apply(pd, NodeTouches(nd)) && ss2 == ss + EdgeStates(nd.children)
    ensures pd2 == Apply(d0, AllNodeTouches(done + [nd])) && ss2 == s0 + EdgeSpeakerStates(done + [nd])
  {
    NodePassStep(d0, done, nd);
  }

  function AllTouches(starts: seq<NodeData>, nodes: seq<NodeData>): seq<Touch> {
    AllStartTouches(starts) + AllNodeTouches(nodes)
  }

  /** The ParticipantsData a refresh builds from scratch: start nodes first, then
      the regular nodes. */
  function Aggregate(starts: seq<NodeData>, nodes: seq<NodeData>): ParticipantsData {
    Apply(map[], AllTouches(starts, nodes))
  }

  /** The two passes of a refresh from scratch make up the aggregate, and the
      speaker states they gather, without None, are SpeakerStates. */
  lemma RebuildSound(starts: seq<NodeData>, nodes: seq<NodeData>, afterStarts: ParticipantsData,
                     data: ParticipantsData, states: set<Name>)
    requires afterStarts == Apply(map[], AllStartTouches(starts))
    requires data == Apply(afterStarts, AllNodeTouches(nodes)) && states == {} + EdgeSpeakerStates(nodes)
    ensures data == Aggregate(starts, nodes) && states - {NameNone} == SpeakerStates(nodes)
  {
    ApplyAppend(map[], AllStartTouches(starts), AllNodeTouches(nodes));
  }

  /** A key is present exactly when some touch files under it, and each entry
      holds exactly the capabilities filed under its key. */
  lemma AggregateContents(starts: seq<NodeData>, nodes: seq<NodeData>)
    ensures Aggregate(starts, nodes).Keys == TouchKeys(AllTouches(starts, nodes))
    ensures forall k :: k in Aggregate(starts, nodes) ==> Aggregate(starts, nodes)[k] == CapsFor(AllTouches(starts, nodes), k)
  {
    ApplyContents(map[], AllTouches(starts, nodes));
  }

  /** A capability is recorded under `k` exactly when some touch of the pass
      files it under `k`, and never under None. */
  lemma AggregateAttribution(starts: seq<NodeData>, nodes: seq<NodeData>, k: Name, cap: Capability)
    ensures (k in Aggregate(starts, nodes) && cap in Aggregate(starts, nodes)[k]) <==>
      k != NameNone && exists t :: t in AllTouches(starts, nodes) && t.Attribute? && t.Key() == Some(k) && t.capability == cap
  {
    var ts := AllTouches(starts, nodes);
    AggregateContents(starts, nodes);
    TouchKeysMembership(ts);
    CapsForMembership(ts, k);
  }

  /** A touch of a regular node is a touch of the pass. */
  lemma NodeTouchInPass(starts: seq<NodeData>, nodes: seq<NodeData>, nd: NodeData, t: Touch)
    requires nd in nodes && t in NodeTouches(nd)
    ensures t in AllTouches(starts, nodes)
  {
    AllNodeTouchesMembership(nodes);
  }

  /** A touch of a start node is a touch of the pass. */
  lemma StartTouchInPass(starts: seq<NodeData>, nodes: seq<NodeData>, nd: NodeData, t: Touch)
    requires nd in starts && t in StartNodeTouches(nd)
    ensures t in AllTouches(starts, nodes)
  {
    AllStartTouchesMembership(starts);
  }

  /** The only names a regular node registers are its associated participants. */
  lemma NodeRegistersOnlyParticipants(nd: NodeData, t: Touch)
    requires t in NodeTouches(nd) && t.Register?
    ensures t.name in AssociatedParticipants([], nd.owner, nd.kind)
  {
    var parts := AssociatedParticipants([], nd.owner, nd.kind);
    assert t in RegisterTouches(parts);
    RegisterTouchesMembership(parts);
  }

  /** None is never a key of the aggregated data: registered names come from
      GetAssociatedParticipants, which never yields None, and attributions whose
      effective name is None go to the black hole. */
  lemma AggregateHasNoNoneKey(starts: seq<NodeData>, nodes: seq<NodeData>)
    ensures NameNone !in Aggregate(starts, nodes)
  {
    var ts := AllTouches(starts, nodes);
    AggregateContents(starts, nodes);
    TouchKeysMembership(ts);
    if NameNone in TouchKeys(ts) {
      var t :| t in ts && t.Key() == Some(NameNone);
      assert t.Register?;
      AllStartTouchesMembership(starts);
      AllNodeTouchesMembership(nodes);
      assert t !in AllStartTouches(starts);
      var nd :| nd in nodes && t in NodeTouches(nd);
      NodeRegistersOnlyParticipants(nd, t);
      AssociatedParticipantsProperties([], nd.owner, nd.kind);
      assert false;
    }
  }

  /** Every associated participant of a regular node is a key. */
  lemma AssociatedParticipantsRegistered(starts: seq<NodeData>, nodes: seq<NodeData>, i: int, name: Name)
    requires 0 <= i < |nodes| && name in AssociatedParticipants([], nodes[i].owner, nodes[i].kind)
    ensures name in Aggregate(starts, nodes)
  {
    var nd := nodes[i];
    RegisterTouchesMembership(AssociatedParticipants([], nd.owner, nd.kind));
    assert Register(name) in NodeTouches(nd);
    NodeTouchInPass(starts, nodes, nd, Register(name));
    AggregateContents(starts, nodes);
    TouchKeysMembership(AllTouches(starts, nodes));
  }

  /** Enter conditions of a regular node: primary data under the condition's
      participant, secondary data under its other participant, each with the node
      owner as fallback, unless the effective name is None. */
  lemma EnterConditionAttribution(starts: seq<NodeData>, nodes: seq<NodeData>, i: int, c: Condition)
    requires 0 <= i < |nodes| && c in nodes[i].enterConditions
    ensures var k := EffectiveName(c.participantName, nodes[i].owner);
            c.participantInvolved && k != NameNone ==>
              k in Aggregate(starts, nodes) && ConditionPrimary(c) in Aggregate(starts, nodes)[k]
    ensures var k := EffectiveName(c.otherParticipantName, nodes[i].owner);
            c.secondParticipantInvolved && k != NameNone ==>
              k in Aggregate(starts, nodes) && ConditionSecondary(c) in Aggregate(starts, nodes)[k]
  {
    var nd := nodes[i];
    ConditionTouchesMembership(nd.enterConditions, nd.owner);
    var t1 := Attribute(c.participantName, nd.owner, ConditionPrimary(c));
    var t2 := Attribute(c.otherParticipantName, nd.owner, ConditionSecondary(c));
    if c.participantInvolved && t1.Key().Some? {
      assert t1 in ConditionTouchesOf(c, nd.owner);
      assert t1 in NodeTouches(nd);
      NodeTouchInPass(starts, nodes, nd, t1);
      AggregateAttribution(starts, nodes, t1.Key().value, ConditionPrimary(c));
    }
    if c.secondParticipantInvolved && t2.Key().Some? {
      assert t2 in ConditionTouchesOf(c, nd.owner);
      assert t2 in NodeTouches(nd);
      NodeTouchInPass(starts, nodes, nd, t2);
      AggregateAttribution(starts, nodes, t2.Key().value, ConditionSecondary(c));
    }
  }

  /** Edge conditions of a start node or a regular node follow the same rules,
      with the owner of the node the edge leaves as fallback. */
  lemma EdgeConditionAttribution(starts: seq<NodeData>, nodes: seq<NodeData>, nd: NodeData, e: Edge, c: Condition)
    requires nd in starts || nd in nodes
    requires e in nd.children && c in e.conditions
    ensures var k := EffectiveName(c.participantName, nd.owner);
            c.participantInvolved && k != NameNone ==>
              k in Aggregate(starts, nodes) && ConditionPrimary(c) in Aggregate(starts, nodes)[k]
    ensures var k := EffectiveName(c.otherParticipantName, nd.owner);
            c.secondParticipantInvolved && k != NameNone ==>
              k in Aggregate(starts, nodes) && ConditionSecondary(c) in Aggregate(starts, nodes)[k]
  {
    ConditionTouchesMembership(e.conditions, nd.owner);
    EdgeConditionTouchesMembership(nd.children, nd.owner);
    var t1 := Attribute(c.participantName, nd.owner, ConditionPrimary(c));
    var t2 := Attribute(c.otherParticipantName, nd.owner, ConditionSecondary(c));
    if c.participantInvolved && t1.Key().Some? {
      assert t1 in ConditionTouchesOf(c, nd.owner);
      EdgeConditionInPass(starts, nodes, nd, t1);
      AggregateAttribution(starts, nodes, t1.Key().value, ConditionPrimary(c));
    }
    if c.secondParticipantInvolved && t2.Key().Some? {
      assert t2 in ConditionTouchesOf(c, nd.owner);
      EdgeConditionInPass(starts, nodes, nd, t2);
      AggregateAttribution(starts, nodes, t2.Key().value, ConditionSecondary(c));
    }
  }

  lemma EdgeConditionInPass(starts: seq<NodeData>, nodes: seq<NodeData>, nd: NodeData, t: Touch)
    requires nd in starts || nd in nodes
    requires t in EdgeConditionTouches(nd.children, nd.owner)
    ensures t in AllTouches(starts, nodes)
  {
    if nd in starts {
      StartTouchInPass(starts, nodes, nd, t);
    } else {
      assert t in NodeTouches(nd);
      NodeTouchInPass(starts, nodes, nd, t);
    }
  }

  /** Enter events of a regular node go under their own participant, with the
      node owner as fallback. */
  lemma EventAttribution(starts: seq<NodeData>, nodes: seq<NodeData>, i: int, ev: Event)
    requires 0 <= i < |nodes| && ev in nodes[i].enterEvents
    ensures var k := EffectiveName(ev.participantName, nodes[i].owner);
            k != NameNone ==> k in Aggregate(starts, nodes) && EventData(ev) in Aggregate(starts, nodes)[k]
  {
    var nd := nodes[i];
    var t := Attribute(ev.participantName, nd.owner, EventData(ev));
    if t.Key().Some? {
      EventTouchesMembership(nd.enterEvents, nd.owner);
      assert t in NodeTouches(nd);
      NodeTouchInPass(starts, nodes, nd, t);
      AggregateAttribution(starts, nodes, t.Key().value, EventData(ev));
    }
  }

  /** Text arguments of a regular node, its own and those of its edges, go under
      their own participant, with the node owner as fallback. */
  lemma TextArgumentAttribution(starts: seq<NodeData>, nodes: seq<NodeData>, i: int, a: TextArgument)
    requires 0 <= i < |nodes|
    requires a in NodeTextArguments(nodes[i].kind) || exists e :: e in nodes[i].children && a in e.textArguments
    ensures var k := EffectiveName(a.participantName, nodes[i].owner);
            k != NameNone ==> k in Aggregate(starts, nodes) && TextArgumentData(a) in Aggregate(starts, nodes)[k]
  {
    var nd := nodes[i];
    var t := Attribute(a.participantName, nd.owner, TextArgumentData(a));
    if t.Key().Some? {
      if a in NodeTextArguments(nd.kind) {
        TextArgumentTouchesMembership(NodeTextArguments(nd.kind), nd.owner);
        assert t in TextArgumentTouches(NodeTextArguments(nd.kind), nd.owner);
      } else {
        var e :| e in nd.children && a in e.textArguments;
        TextArgumentTouchesMembership(e.textArguments, nd.owner);
        EdgeTextArgumentTouchesMembership(nd.children, nd.owner);
        assert t in EdgeTextArgumentTouches(nd.children, nd.owner);
      }
      assert t in NodeTouches(nd);
      NodeTouchInPass(starts, nodes, nd, t);
      AggregateAttribution(starts, nodes, t.Key().value, TextArgumentData(a));
    }
  }

  /** Start nodes contribute only their edge conditions: changing anything of a
      start node but its owner and edges leaves the aggregate unchanged. */
  lemma {:induction false} StartNodesContributeOnlyEdgeConditions(starts: seq<NodeData>, starts': seq<NodeData>, nodes: seq<NodeData>)
    requires |starts| == |starts'|
    requires forall i :: 0 <= i < |starts| ==> starts[i].owner == starts'[i].owner && starts[i].children == starts'[i].children
    ensures Aggregate(starts, nodes) == Aggregate(starts', nodes)
  {
    SameStartTouches(starts, starts');
  }

  lemma {:induction false} SameStartTouches(starts: seq<NodeData>, starts': seq<NodeData>)
    requires |starts| == |starts'|
    requires forall i :: 0 <= i < |starts| ==> starts[i].owner == starts'[i].owner && starts[i].children == starts'[i].children
    ensures AllStartTouches(starts) == AllStartTouches(starts')
    decreases |starts|
  {
    if starts != [] {
      SameStartTouches(starts[..|starts| - 1], starts'[..|starts'| - 1]);
    }
  }

  /** The speaker states of a list of edges. */
  function EdgeStates(edges: seq<Edge>): set<Name>
    decreases |edges|
  {
    if edges == [] then {} else EdgeStates(edges[..|edges| - 1]) + {edges[|edges| - 1].speakerState}
  }

  lemma {:induction false} EdgeStatesMembership(edges: seq<Edge>)
    ensures forall s :: s in EdgeStates(edges) <==> exists e :: e in edges && e.speakerState == s
    decreases |edges|
  {
    if edges != [] {
      var init := edges[..|edges| - 1];
      EdgeStatesMembership(init);
      assert edges == init + [edges[|edges| - 1]];
    }
  }

  /** The speaker states of the edges of the regular nodes. */
  function EdgeSpeakerStates(nodes: seq<NodeData>): set<Name>
    decreases |nodes|
  {
    if nodes == [] then {}
    else
      var last := nodes[|nodes| - 1];
      EdgeSpeakerStates(nodes[..|nodes| - 1]) + EdgeStates(last.children)
  }

  lemma {:induction false} EdgeSpeakerStatesMembership(nodes: seq<NodeData>)
    ensures forall s :: s in EdgeSpeakerStates(nodes) <==> exists nd, e :: nd in nodes && e in nd.children && e.speakerState == s
    decreases |nodes|
  {
    if nodes != [] {
      var init := nodes[..|nodes| - 1];
      var last := nodes[|nodes| - 1];
      EdgeSpeakerStatesMembership(init);
      EdgeStatesMembership(last.children);
      assert nodes == init + [last];
    }
  }

  /** AllSpeakerStates after a refresh: the edge speaker states of the regular
      nodes (the node-level contribution is the base-class no-op), None removed. */
  function SpeakerStates(nodes: seq<NodeData>): set<Name> {
    EdgeSpeakerStates(nodes) - {NameNone}
  }

  /** After a refresh the speaker states never hold None, and hold exactly the
      other speaker states of the edges of the regular nodes. */
  lemma SpeakerStatesContents(nodes: seq<NodeData>)
    ensures NameNone !in SpeakerStates(nodes)
    ensures forall s :: s in SpeakerStates(nodes) <==> s != NameNone && exists nd, e :: nd in nodes && e in nd.children && e.speakerState == s
  {
    EdgeSpeakerStatesMembership(nodes);
  }
}
