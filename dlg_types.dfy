/** Value types shared by the dialogue graph: names, GUIDs, the two enums of the
    node headers, and the plain structs a node and an edge are made of. */
module DlgTypes {

  /** An engine name. The empty name is NAME_None. */
  type Name = string

  const NameNone: Name := ""

  /** The engine's INDEX_NONE. */
  const IndexNone: int := -1

  datatype Option<T> = None | Some(value: T)

  newtype uint32 = x: int | 0 <= x < 0x1_0000_0000

  /** A 128-bit GUID as four 32-bit words; the all-zero GUID is the invalid one. */
  datatype Guid = Guid(a: uint32, b: uint32, c: uint32, d: uint32) {
    predicate IsValid() {
      !(a == 0 && b == 0 && c == 0 && d == 0)
    }
  }

  /** The default-constructed (invalid) GUID. */
  const InvalidGuid: Guid := Guid(0, 0, 0, 0)

  /** How often a node may be entered (EDlgEntryRestriction). `Unrestricted` is the
      enumerator the engine calls None. */
  datatype EntryRestriction = Unrestricted | OncePerContext | Once

  /** The classification tag of a player answer (EPlayerAnswerIntend). */
  datatype AnswerIntend =
    | Default | Any | Rest | Answer | Agree | Refuse | Flirt | Insult
    | Question | Apology | Please | Leave | Return | Fatal

  /** A condition. Its evaluation is outside this model; `participantInvolved` and
      `secondParticipantInvolved` are the answers of IsParticipantInvolved and
      IsSecondParticipantInvolved for this condition. */
  datatype Condition = Condition(
    participantName: Name,
    otherParticipantName: Name,
    callbackName: Name,
    participantInvolved: bool,
    secondParticipantInvolved: bool)

  /** An event fired on node entry; its execution is outside this model. */
  datatype Event = Event(participantName: Name, eventName: Name)

  /** A named argument of a formatted text, owned by a participant. */
  datatype TextArgument = TextArgument(displayString: string, participantName: Name, variableName: Name)

  /** An edge from a node to the node at `targetIndex` of the owning dialogue. */
  datatype Edge = Edge(
    targetIndex: int,
    conditions: seq<Condition>,
    speakerState: Name,
    textArguments: seq<TextArgument>,
    intend: AnswerIntend)
  {
    /** An edge is valid when its target index is not negative. */
    predicate IsValid() {
      targetIndex > IndexNone
    }
  }
}
