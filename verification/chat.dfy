/** The chat session engine of `src/hooks/useSSEChat.ts`: one character's
    timeline, the single-flight send, the per-event update of the assistant
    placeholder, history loading and clearing.

    React state updates are modelled as a sequential transition system: each
    operation maps the session before to the session after. */
module Chat {
  import opened Types
  import opened Text
  import Sse

  /** The hook's state: the timeline, the busy flag (`isStreaming`), the last
      emotion, the last structured state and the last error. */
  datatype Session = Session(
    messages: seq<ChatMessage>,
    isStreaming: bool,
    currentEmotion: Option<string>,
    characterState: Option<CharacterState>,
    error: Option<string>)

  /** The state a freshly mounted hook starts in. */
  const Initial: Session := Session([], false, None, None, None)

  /** Content of the placeholder after an `error` event with an empty message. */
  const ErrorFallback: string := "오류가 발생했어요"
  /** Prefix of the placeholder content after a failed send. */
  const FailurePrefix: string := "오류가 발생했어요: "
  /** Message used when the thrown value is not an `Error`. */
  const UnknownError: string := "알 수 없는 오류"

  /** `prev.map(m => m.id === id ? f(m) : m)`. */
  function UpdateWhere(msgs: seq<ChatMessage>, id: string, f: ChatMessage -> ChatMessage): (r: seq<ChatMessage>)
    ensures |r| == |msgs|
    ensures forall i :: 0 <= i < |msgs| && msgs[i].id != id ==> r[i] == msgs[i]
    ensures forall i :: 0 <= i < |msgs| && msgs[i].id == id ==> r[i] == f(msgs[i])
  {
    seq(|msgs|, i requires 0 <= i < |msgs| => if msgs[i].id == id then f(msgs[i]) else msgs[i])
  }

  /** Every message of `after` is the message of `before` at the same place
      unless it carries `id`; ids and roles never change. */
  ghost predicate OnlyTargetChanged(before: seq<ChatMessage>, after: seq<ChatMessage>, id: string)
  {
    && |after| == |before|
    && (forall i :: 0 <= i < |before| ==> after[i].id == before[i].id && after[i].role == before[i].role)
    && (forall i :: 0 <= i < |before| && before[i].id != id ==> after[i] == before[i])
  }

  /** `inner_state` acts only on a present, non-empty emotion. */
  predicate HasEmotion(data: InnerState)
  {
    data.emotion.Some? && data.emotion.value != ""
  }

  // ---------------------------------------------------------------------------
  // Event application

  /** `handleSSEEvent`: one stream event applied to the session, aimed at the
      placeholder whose id is `assistantId`. */
  function HandleSSEEvent(s: Session, assistantId: string, e: SSEEvent): (r: Session)
    ensures OnlyTargetChanged(s.messages, r.messages, assistantId)
    ensures r.isStreaming == s.isStreaming
    ensures !e.Inner? ==> r.currentEmotion == s.currentEmotion
    ensures !e.State? ==> r.characterState == s.characterState
    ensures !e.Error? ==> r.error == s.error
    // `speak` replaces the content with the event's full text
    ensures e.Speak? ==> forall i :: 0 <= i < |s.messages| && s.messages[i].id == assistantId ==>
      r.messages[i] == s.messages[i].(content := e.content)
    ensures e.ToolUse? ==> forall i :: 0 <= i < |s.messages| && s.messages[i].id == assistantId ==>
      r.messages[i] == s.messages[i].(toolUse := Some(e.name))
    ensures e.ToolResult? ==> forall i :: 0 <= i < |s.messages| && s.messages[i].id == assistantId ==>
      r.messages[i] == s.messages[i].(toolUse := None)
    ensures e.Inner? && !HasEmotion(e.inner) ==> r == s
    ensures e.Inner? && HasEmotion(e.inner) ==>
      && r.currentEmotion == e.inner.emotion
      && forall i :: 0 <= i < |s.messages| && s.messages[i].id == assistantId ==>
           r.messages[i] == s.messages[i].(emotion := e.inner.emotion)
    ensures e.State? ==> r == s.(characterState := Some(e.snapshot))
    ensures e.Done? ==> forall i :: 0 <= i < |s.messages| && s.messages[i].id == assistantId ==>
      r.messages[i] == s.messages[i].(isStreaming := false, toolUse := None)
    ensures e.Error? ==>
      && r.error == Some(e.message)
      && forall i :: 0 <= i < |s.messages| && s.messages[i].id == assistantId ==>
           r.messages[i] == s.messages[i].(content := if e.message == "" then ErrorFallback else e.message,
                                           isStreaming := false)
  {
    match e
    case Speak(content) =>
      s.(messages := UpdateWhere(s.messages, assistantId, (m: ChatMessage) => m.(content := content)))
    case ToolUse(name) =>
      s.(messages := UpdateWhere(s.messages, assistantId, (m: ChatMessage) => m.(toolUse := Some(name))))
    case ToolResult(_, _) =>
      s.(messages := UpdateWhere(s.messages, assistantId, (m: ChatMessage) => m.(toolUse := None)))
    case Inner(data) =>
      if HasEmotion(data) then
        s.(currentEmotion := data.emotion,
           messages := UpdateWhere(s.messages, assistantId, (m: ChatMessage) => m.(emotion := data.emotion)))
      else s
    case State(snapshot) =>
      s.(characterState := Some(snapshot))
    case Done =>
      s.(messages := UpdateWhere(s.messages, assistantId, (m: ChatMessage) => m.(isStreaming := false, toolUse := None)))
    case Error(message) =>
      var text := if message == "" then ErrorFallback else message;
      s.(messages := UpdateWhere(s.messages, assistantId, (m: ChatMessage) => m.(content := text, isStreaming := false)),
         error := Some(message))
  }

  /** The `for await` loop: the events applied in the order they arrive. The
      placeholder is the only message any run of events touches, and the list
      keeps its length and order. */
  function ApplyEvents(s: Session, assistantId: string, events: seq<SSEEvent>): (r: Session)
    ensures OnlyTargetChanged(s.messages, r.messages, assistantId)
    ensures r.isStreaming == s.isStreaming
    decreases |events|
  {
    if events == [] then s
    else HandleSSEEvent(ApplyEvents(s, assistantId, events[..|events| - 1]), assistantId, events[|events| - 1])
  }

  /** Replace, never append: whatever came before, after a `speak` event the
      placeholder's content is exactly that event's text. */
  lemma SpeakReplaces(s: Session, assistantId: string, events: seq<SSEEvent>, text: string, i: nat)
    requires i < |s.messages| && s.messages[i].id == assistantId
    ensures ApplyEvents(s, assistantId, events + [Speak(text)]).messages[i].content == text
  {
    var evs := events + [Speak(text)];
    assert evs[..|evs| - 1] == events;
  }

  /** The placeholder's content is always a value some single event (or the
      start state) supplied: its initial content, the text of a `speak`
      event, or the message of an `error` event (or its fallback). Content is
      never built by concatenating events. */
  ghost predicate ContentFromEvents(initial: string, events: seq<SSEEvent>, content: string)
  {
    || content == initial
    || content == ErrorFallback
    || exists k :: 0 <= k < |events| && (events[k].Speak? || events[k].Error?) && ContentOf(events[k]) == content
  }

  /** The text a `speak` or `error` event puts into the placeholder. */
  function ContentOf(e: SSEEvent): string
    requires e.Speak? || e.Error?
  {
    if e.Speak? then e.content else e.message
  }

  lemma {:induction false} ContentNeverConcatenated(s: Session, assistantId: string, events: seq<SSEEvent>, i: nat)
    requires i < |s.messages| && s.messages[i].id == assistantId
    ensures ContentFromEvents(s.messages[i].content, events,
                              ApplyEvents(s, assistantId, events).messages[i].content)
    decreases |events|
  {
    if events != [] {
      var front := events[..|events| - 1];
      var e := events[|events| - 1];
      ContentNeverConcatenated(s, assistantId, front, i);
      var c := ApplyEvents(s, assistantId, events).messages[i].content;
      if e.Speak? || (e.Error? && e.message != "") {
        assert ContentOf(events[|events| - 1]) == c;
      } else if !e.Error? {
        var before := ApplyEvents(s, assistantId, front).messages[i].content;
        assert c == before;
        if before != s.messages[i].content && before != ErrorFallback {
          var k :| 0 <= k < |front| && (front[k].Speak? || front[k].Error?) && ContentOf(front[k]) == before;
          assert events[k] == front[k];
        }
      }
    }
  }

  /** Tool lifecycle: `tool_use` then `tool_result` then `done` shows the tool
      while it runs, then leaves no tool, no streaming flag and the content as
      it was before the tool was used. */
  lemma ToolLifecycle(s: Session, assistantId: string, name: string, result: string, i: nat)
    requires i < |s.messages| && s.messages[i].id == assistantId
    ensures ApplyEvents(s, assistantId, [ToolUse(name)]).messages[i].toolUse == Some(name)
    ensures var r := ApplyEvents(s, assistantId, [ToolUse(name), ToolResult(name, result), Done]);
      && r.messages[i].toolUse == None
      && !r.messages[i].isStreaming
      && r.messages[i].content == s.messages[i].content
  {
    var evs := [ToolUse(name), ToolResult(name, result), Done];
    assert evs[..2] == [ToolUse(name), ToolResult(name, result)];
    assert evs[..2][..1] == [ToolUse(name)];
    assert [ToolUse(name)][..0] == [];
  }

  // ---------------------------------------------------------------------------
  // Clearing and history

  /** `clearMessages`: empty timeline, no emotion, no state, no error; the busy
      flag is left alone. */
  function ClearMessages(s: Session): (r: Session)
    ensures r.messages == [] && r.currentEmotion.None? && r.characterState.None? && r.error.None?
    ensures r.isStreaming == s.isStreaming
  {
    s.(messages := [], currentEmotion := None, characterState := None, error := None)
  }

  /** Events of a send still in flight when the timeline was cleared find no
      placeholder: the timeline stays empty, although the session-level
      emotion, state and error can still change. */
  lemma StaleEventsAfterClear(s: Session, assistantId: string, events: seq<SSEEvent>)
    ensures ApplyEvents(ClearMessages(s), assistantId, events).messages == []
  {
  }

  /** The id `loadHistory` gives the `i`-th loaded entry. */
  function HistoryId(i: nat): string
  {
    "history-" + Decimal(i)
  }

  /** History ids never collide. */
  lemma HistoryIdsDistinct(i: nat, j: nat)
    requires i != j
    ensures HistoryId(i) != HistoryId(j)
  {
    DecimalInjective(i, j);
    assert HistoryId(i)[8..] == Decimal(i);
    assert HistoryId(j)[8..] == Decimal(j);
  }

  /** `loadHistory`: a fetched conversation replaces the timeline wholesale,
      entry by entry in order, with ids `history-0`, `history-1`, ...; a failed
      fetch is swallowed and changes nothing. */
  function LoadHistory(s: Session, fetched: Option<seq<ConversationMessage>>): (r: Session)
    ensures fetched.None? ==> r == s
    ensures fetched.Some? ==>
      && |r.messages| == |fetched.value|
      && r == s.(messages := r.messages)
      && forall i :: 0 <= i < |fetched.value| ==>
           && r.messages[i].id == HistoryId(i)
           && r.messages[i].role == fetched.value[i].role
           && r.messages[i].content == fetched.value[i].content
           && !r.messages[i].isStreaming
  {
    match fetched
    case None => s
    case Some(conv) =>
      s.(messages := seq(|conv|, i requires 0 <= i < |conv| =>
                           Plain(HistoryId(i), conv[i].role, conv[i].content)))
  }

  // ---------------------------------------------------------------------------
  // Sending

  /** The user's message as appended by `sendMessage`. */
  function UserMessage(id: string, text: string, image: Option<string>): (m: ChatMessage)
    ensures m.id == id && m.role == User && m.content == text
    ensures m.imageUrl == (if Truthy(image) then Some("attached") else None)
  {
    Plain(id, User, text).(imageUrl := if Truthy(image) then Some("attached") else None)
  }

  /** The assistant placeholder: empty and streaming. */
  function Placeholder(id: string): (m: ChatMessage)
    ensures m.id == id && m.role == Assistant && m.content == "" && m.isStreaming
  {
    Plain(id, Assistant, "").(isStreaming := true)
  }

  /** The synchronous start of `sendMessage`: a no-op while a send is
      outstanding; otherwise the error is cleared, the user message and the
      placeholder are appended in ONE update, and the busy flag is raised. */
  function BeginSend(s: Session, text: string, image: Option<string>, userId: string, assistantId: string): (r: Session)
    ensures s.isStreaming ==> r == s
    ensures !s.isStreaming ==>
      && r.isStreaming
      && r.error.None?
      && r.messages == s.messages + [UserMessage(userId, text, image), Placeholder(assistantId)]
      && r.currentEmotion == s.currentEmotion && r.characterState == s.characterState
  {
    if s.isStreaming then s
    else s.(error := None,
            messages := s.messages + [UserMessage(userId, text, image), Placeholder(assistantId)],
            isStreaming := true)
  }

  /** The value a `catch` receives. */
  datatype Thrown = ErrorObject(message: string) | NotAnError

  /** `err instanceof Error ? err.message : "알 수 없는 오류"`. */
  function MessageOf(t: Thrown): string
  {
    match t
    case ErrorObject(m) => m
    case NotAnError => UnknownError
  }

  /** How the request went: it threw before a response arrived (no token,
      network failure), or a response arrived; `text` is what the response
      body reads as when it is consumed whole. */
  datatype RequestOutcome =
    | Threw(thrown: Thrown)
    | Responded(response: Sse.Response, text: string)

  /** The `catch` block: the placeholder shows the failure, stops streaming,
      and the error is recorded. */
  function Fail(s: Session, assistantId: string, msg: string): (r: Session)
    ensures OnlyTargetChanged(s.messages, r.messages, assistantId)
    ensures r.error == Some(msg) && r.isStreaming == s.isStreaming
    ensures forall i :: 0 <= i < |s.messages| && s.messages[i].id == assistantId ==>
      r.messages[i] == s.messages[i].(content := FailurePrefix + msg, isStreaming := false)
  {
    s.(error := Some(msg),
       messages := UpdateWhere(s.messages, assistantId, (m: ChatMessage) => m.(content := FailurePrefix + msg, isStreaming := false)))
  }

  /** The message a failed send leaves, if the send fails. */
  function FailureMessage(outcome: RequestOutcome, decode: string -> Option<SSEEvent>): Option<string>
  {
    match outcome
    case Threw(t) => Some(MessageOf(t))
    case Responded(resp, text) =>
      if !resp.ok then Some("HTTP " + Decimal(resp.status) + ": " + text)
      else Sse.ParseSSEStream(resp, decode).failure
  }

  /** The asynchronous rest of `sendMessage` up to its `finally`: a request
      that threw, a non-OK status and a stream failure all end in the `catch`
      block; otherwise the decoded events are applied. Only the placeholder
      changes, and any failure is what the placeholder and the session error
      finally show. */
  function Settle(s: Session, assistantId: string, outcome: RequestOutcome,
                  decode: string -> Option<SSEEvent>): (r: Session)
    ensures OnlyTargetChanged(s.messages, r.messages, assistantId)
    ensures FailureMessage(outcome, decode).Some? ==>
      var msg := FailureMessage(outcome, decode).value;
      && r.error == Some(msg)
      && forall i :: 0 <= i < |s.messages| && s.messages[i].id == assistantId ==>
           r.messages[i].content == FailurePrefix + msg && !r.messages[i].isStreaming
    ensures FailureMessage(outcome, decode).None? ==>
      outcome.Responded? && r == ApplyEvents(s, assistantId, Sse.ParseSSEStream(outcome.response, decode).events)
  {
    match outcome
    case Threw(t) => Fail(s, assistantId, MessageOf(t))
    case Responded(resp, text) =>
      if !resp.ok then Fail(s, assistantId, "HTTP " + Decimal(resp.status) + ": " + text)
      else
        var d := Sse.ParseSSEStream(resp, decode);
        var applied := ApplyEvents(s, assistantId, d.events);
        match d.failure
        case None => applied
        case Some(m) => Fail(applied, assistantId, m)
  }

  /** Ids for a send: distinct from each other and from every id already in
      the timeline. */
  predicate FreshPair(s: Session, userId: string, assistantId: string)
  {
    userId != assistantId && FreshId(s.messages, userId) && FreshId(s.messages, assistantId)
  }

  /** Messages whose id is not the target keep their place and value. */
  lemma KeepsUntargeted(before: seq<ChatMessage>, after: seq<ChatMessage>, id: string, n: nat)
    requires OnlyTargetChanged(before, after, id)
    requires n <= |before|
    requires forall i :: 0 <= i < n ==> before[i].id != id
    ensures after[..n] == before[..n]
  {
  }

  /** `sendMessage`, `finally` included. While busy it changes nothing.
      Otherwise exactly two messages are appended after the existing ones,
      which stay as they were; the busy flag is down again once the send has
      settled, whatever the outcome; and every failure shows up on the
      placeholder and as the session error. */
  function SendMessage(s: Session, text: string, image: Option<string>, userId: string, assistantId: string,
                       outcome: RequestOutcome, decode: string -> Option<SSEEvent>): (r: Session)
    requires FreshPair(s, userId, assistantId)
    ensures s.isStreaming ==> r == s
    ensures !s.isStreaming ==>
      && !r.isStreaming
      && |r.messages| == |s.messages| + 2
      && r.messages[..|s.messages|] == s.messages
      && r.messages[|s.messages|] == UserMessage(userId, text, image)
      && r.messages[|s.messages| + 1].id == assistantId
      && r.messages[|s.messages| + 1].role == Assistant
    ensures !s.isStreaming && FailureMessage(outcome, decode).Some? ==>
      var msg := FailureMessage(outcome, decode).value;
      && r.error == Some(msg)
      && r.messages[|s.messages| + 1].content == FailurePrefix + msg
      && !r.messages[|s.messages| + 1].isStreaming
    // without a failure, the decoded events are applied to the begun send, in order
    ensures !s.isStreaming && FailureMessage(outcome, decode).None? ==>
      r == ApplyEvents(BeginSend(s, text, image, userId, assistantId), assistantId,
                       Sse.ParseSSEStream(outcome.response, decode).events).(isStreaming := false)
  {
    if s.isStreaming then s
    else
      var n := |s.messages|;
      var begun := BeginSend(s, text, image, userId, assistantId);
      var settled := Settle(begun, assistantId, outcome, decode);
      assert begun.messages[..n] == s.messages;
      assert begun.messages[n].id == userId;
      assert begun.messages[n + 1].id == assistantId;
      KeepsUntargeted(begun.messages, settled.messages, assistantId, n + 1);
      assert settled.messages[..n] == settled.messages[..n + 1][..n];
      settled.(isStreaming := false)
  }

  /** A stream that ends with neither `done` nor `error` and without failing
      leaves the placeholder marked as streaming although the session is no
      longer busy: the code does not keep "exactly one streaming message
      while busy". */
  lemma UnterminatedStreamLeavesSpinner(s: Session, text: string, userId: string, assistantId: string,
                                        resp: Sse.Response, decode: string -> Option<SSEEvent>)
    requires FreshPair(s, userId, assistantId) && !s.isStreaming
    requires resp.ok
    requires var d := Sse.ParseSSEStream(resp, decode);
      d.failure.None? && forall k :: 0 <= k < |d.events| ==> !d.events[k].Done? && !d.events[k].Error?
    ensures var r := SendMessage(s, text, None, userId, assistantId, Responded(resp, ""), decode);
      !r.isStreaming && r.messages[|s.messages| + 1].isStreaming
  {
    var begun := BeginSend(s, text, None, userId, assistantId);
    var d := Sse.ParseSSEStream(resp, decode);
    StreamingSurvives(begun, assistantId, d.events, |s.messages| + 1);
  }

  /** Without `done` or `error`, nothing clears the placeholder's streaming
      flag. */
  lemma {:induction false} StreamingSurvives(s: Session, assistantId: string, events: seq<SSEEvent>, i: nat)
    requires i < |s.messages| && s.messages[i].id == assistantId && s.messages[i].isStreaming
    requires forall k :: 0 <= k < |events| ==> !events[k].Done? && !events[k].Error?
    ensures ApplyEvents(s, assistantId, events).messages[i].isStreaming
    decreases |events|
  {
    if events != [] {
      StreamingSurvives(s, assistantId, events[..|events| - 1], i);
    }
  }

  /** Only an `error` event sets the session error. */
  lemma {:induction false} ErrorUntouched(s: Session, assistantId: string, events: seq<SSEEvent>)
    requires forall k :: 0 <= k < |events| ==> !events[k].Error?
    ensures ApplyEvents(s, assistantId, events).error == s.error
    decreases |events|
  {
    if events != [] {
      ErrorUntouched(s, assistantId, events[..|events| - 1]);
    }
  }

  /** A send that neither fails nor receives an `error` event ends with the
      session error cleared, and the reply is the placeholder after the
      decoded events. */
  lemma SuccessfulSendClearsError(s: Session, text: string, image: Option<string>, userId: string,
                                  assistantId: string, outcome: RequestOutcome,
                                  decode: string -> Option<SSEEvent>)
    requires FreshPair(s, userId, assistantId) && !s.isStreaming
    requires FailureMessage(outcome, decode).None?
    requires var es := Sse.ParseSSEStream(outcome.response, decode).events;
      forall k :: 0 <= k < |es| ==> !es[k].Error?
    ensures var r := SendMessage(s, text, image, userId, assistantId, outcome, decode);
      && r.error.None?
      && r.messages[|s.messages| + 1]
         == ApplyEvents(BeginSend(s, text, image, userId, assistantId), assistantId,
                        Sse.ParseSSEStream(outcome.response, decode).events).messages[|s.messages| + 1]
  {
    var begun := BeginSend(s, text, image, userId, assistantId);
    ErrorUntouched(begun, assistantId, Sse.ParseSSEStream(outcome.response, decode).events);
  }

  /** Events after `done` are still applied: a late `speak` changes the
      finished message's content. */
  lemma EventsAfterDoneApplied(s: Session, assistantId: string, before: seq<SSEEvent>, late: string, i: nat)
    requires i < |s.messages| && s.messages[i].id == assistantId
    ensures var r := ApplyEvents(s, assistantId, before + [Done, Speak(late)]);
      r.messages[i].content == late && !r.messages[i].isStreaming
  {
    var evs := before + [Done, Speak(late)];
    assert evs[..|evs| - 1] == before + [Done];
    assert (before + [Done])[..|before|] == before;
  }

  /** A send whose stream yields `speak "Hi"`, `speak "Hi there"`, `done` ends
      with a user message "hello" followed by an assistant message
      "Hi there" that is no longer streaming, and the session is idle. */
  lemma HelloScenario(userId: string, assistantId: string, resp: Sse.Response, decode: string -> Option<SSEEvent>)
    requires userId != assistantId && resp.ok
    requires Sse.ParseSSEStream(resp, decode) == Sse.Decoded([Speak("Hi"), Speak("Hi there"), Done], None)
    ensures var r := SendMessage(Initial, "hello", None, userId, assistantId, Responded(resp, ""), decode);
      && !r.isStreaming
      && |r.messages| == 2
      && r.messages[0].content == "hello" && r.messages[0].role == User
      && r.messages[1].content == "Hi there" && !r.messages[1].isStreaming
  {
    var begun := BeginSend(Initial, "hello", None, userId, assistantId);
    assert begun.messages[1].id == assistantId;
    HelloEvents(begun, assistantId, 1);
    assert Settle(begun, assistantId, Responded(resp, ""), decode)
        == ApplyEvents(begun, assistantId, [Speak("Hi"), Speak("Hi there"), Done]);
  }

  /** The event half of the scenario: two cumulative `speak` events and a
      `done` leave the placeholder holding the second text, finished. */
  lemma HelloEvents(s: Session, assistantId: string, i: nat)
    requires i < |s.messages| && s.messages[i].id == assistantId
    ensures var r := ApplyEvents(s, assistantId, [Speak("Hi"), Speak("Hi there"), Done]);
      r.messages[i].content == "Hi there" && !r.messages[i].isStreaming
  {
    var evs := [Speak("Hi"), Speak("Hi there"), Done];
    SpeakReplaces(s, assistantId, [Speak("Hi")], "Hi there", i);
    assert [Speak("Hi")] + [Speak("Hi there")] == evs[..2];
    var two := ApplyEvents(s, assistantId, evs[..2]);
    assert ApplyEvents(s, assistantId, evs) == HandleSSEEvent(two, assistantId, Done);
  }
}
