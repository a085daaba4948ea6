/** The shapes the chat client exchanges with its backend and keeps in memory:
    the two characters, the seven stream events, the sibling events, timeline
    messages and conversation-history entries. */
module Types {

  /** A JavaScript value that may be `null` or `undefined`. */
  datatype Option<+T> = None | Some(value: T)

  /** JavaScript truthiness of an optional string: present and non-empty. */
  predicate Truthy(o: Option<string>)
  {
    o.Some? && o.value != ""
  }

  /** The two companions; no other identifier exists. */
  datatype CharacterId = Naruen | Narin

  /** Static presentation data of one companion. */
  datatype CharacterConfig = CharacterConfig(
    id: CharacterId,
    name: string,
    nickname: string,
    emoji: string,
    themeClass: string)

  /** The wire spelling of a character identifier. */
  function Key(k: CharacterId): (s: string)
    ensures |s| > 0
  {
    match k
    case Naruen => "naruen"
    case Narin => "narin"
  }

  /** The `CHARACTERS` record: one configuration per identifier, filed under
      its own identifier and themed after its own key. */
  function Characters(k: CharacterId): (c: CharacterConfig)
    ensures c.id == k
    ensures c.themeClass == "theme-" + Key(k)
  {
    match k
    case Naruen => CharacterConfig(Naruen, "송나른", "나른이", "🐰", "theme-naruen")
    case Narin => CharacterConfig(Narin, "송나린", "나린이", "💎", "theme-narin")
  }

  /** The companion that is not `k`. */
  function Other(k: CharacterId): (o: CharacterId)
    ensures o != k
  {
    if k == Naruen then Narin else Naruen
  }

  /** `Key` tells the two companions apart, so a wire identifier names exactly
      one of them. */
  lemma KeyInjective(a: CharacterId, b: CharacterId)
    ensures Key(a) == Key(b) <==> a == b
  {
    if a != b {
      assert |Key(a)| != |Key(b)|;
    }
  }

  // ---------------------------------------------------------------------------
  // Structured character state (pushed by `state` events, polled by status)

  /** Sleep part of the snapshot; drowsiness is documented as 0..3 but not
      enforced anywhere. */
  datatype Sleep = Sleep(isSleeping: bool, drowsiness: real)

  datatype Activity = Activity(current: Option<string>, location: Option<string>)

  /** The snapshot fields the client reads. Hunger (satiety) and fitness are
      documented as 0..100 and are not enforced either; hormone levels are
      never read by the client and are not represented. */
  datatype CharacterState = CharacterState(
    characterKey: string,
    emotion: Option<string>,
    sleep: Sleep,
    activity: Activity,
    hunger: real,
    fitness: real)

  /** The `inner_state` payload; only `emotion` is read by the client. */
  datatype InnerState = InnerState(emotion: Option<string>)

  // ---------------------------------------------------------------------------
  // Stream events

  /** The chat stream's event union, discriminated by its `type` field.
      `Speak.content` is the whole text so far, never a delta. */
  datatype SSEEvent =
    | Speak(content: string)
    | ToolUse(name: string)
    | ToolResult(name: string, content: string)
    | Inner(inner: InnerState)
    | State(snapshot: CharacterState)
    | Done
    | Error(message: string)

  /** The sibling channel's event union. */
  datatype SiblingEvent =
    | SiblingSpeak(content: string, speaker: string, speakerName: string)
    | SiblingTyping
    | SiblingDone

  // ---------------------------------------------------------------------------
  // Timeline messages and history

  datatype Role = User | Assistant | Sibling

  /** One timeline entry. An absent `isStreaming` / `isSibling` is `false`. */
  datatype ChatMessage = ChatMessage(
    id: string,
    role: Role,
    content: string,
    isStreaming: bool,
    emotion: Option<string>,
    toolUse: Option<string>,
    imageUrl: Option<string>,
    isSibling: bool,
    siblingName: Option<string>,
    siblingId: Option<string>)

  /** History entries are only ever from the user or the assistant. */
  type HistoryRole = r: Role | !r.Sibling? witness User

  /** One entry of the conversation-history response; the timestamp may be
      null. */
  datatype ConversationMessage = ConversationMessage(
    role: HistoryRole,
    content: string,
    timestamp: Option<string>)

  /** A plain message with every optional field absent. */
  function Plain(id: string, role: Role, content: string): (m: ChatMessage)
    ensures m.id == id && m.role == role && m.content == content
    ensures !m.isStreaming && !m.isSibling
    ensures m.emotion.None? && m.toolUse.None? && m.imageUrl.None?
  {
    ChatMessage(id, role, content, false, None, None, None, false, None, None)
  }

  /** `id` names no message of `msgs`. */
  predicate FreshId(msgs: seq<ChatMessage>, id: string)
  {
    forall i :: 0 <= i < |msgs| ==> msgs[i].id != id
  }
}
