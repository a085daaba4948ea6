/** The decisions of the chat screen, `src/app/chat/page.tsx`: switching
    character, sending, the auto-scroll rule, the sleeping flag and the props
    handed to the input bar. */
module ChatPage {
  import opened Types
  import Chat
  import ChatInput
  import Sse

  /** The screen's own state plus the chat session it drives. */
  datatype Page = Page(character: CharacterId, autoScroll: bool, chat: Chat.Session)

  /** The screen as first shown. */
  const Initial: Page := Page(Naruen, true, Chat.Initial)

  /** `handleCharacterChange`: refused for the current character and while a
      send is outstanding; otherwise the character changes and the timeline
      is cleared. */
  function HandleCharacterChange(p: Page, newId: CharacterId): (r: Page)
    ensures r.character != p.character <==> newId != p.character && !p.chat.isStreaming
    ensures r.character == p.character ==> r == p
    ensures r.character != p.character ==>
      r.character == newId && r.autoScroll == p.autoScroll && r.chat == Chat.ClearMessages(p.chat)
  {
    if newId == p.character || p.chat.isStreaming then p
    else p.(character := newId, chat := Chat.ClearMessages(p.chat))
  }

  /** Switching away and back again while idle returns to the character with
      an empty timeline and no session leftovers. */
  lemma SwitchAndBack(p: Page)
    requires !p.chat.isStreaming
    ensures var r := HandleCharacterChange(HandleCharacterChange(p, Other(p.character)), p.character);
      && r.character == p.character
      && r.chat.messages == [] && r.chat.error.None? && r.chat.currentEmotion.None?
  {
  }

  /** A character switch followed by the history effect: `loadHistory` is
      rebuilt for every character, so an authenticated page that switched
      reloads the timeline with `fetched`, what the conversation request for
      the new character gives. A refused switch changes nothing. */
  function SwitchCharacter(p: Page, newId: CharacterId, authenticated: bool,
                           fetched: Option<seq<ConversationMessage>>): (r: Page)
    ensures r.character == HandleCharacterChange(p, newId).character
    ensures r.character == p.character ==> r == p
    ensures r.character != p.character ==>
      r.autoScroll == p.autoScroll && r.chat.isStreaming == p.chat.isStreaming && r.chat.error.None?
    ensures r.character != p.character && authenticated && fetched.Some? ==>
      && |r.chat.messages| == |fetched.value|
      && forall i :: 0 <= i < |fetched.value| ==>
           r.chat.messages[i].role == fetched.value[i].role && r.chat.messages[i].content == fetched.value[i].content
    ensures r.character != p.character && (!authenticated || fetched.None?) ==> r.chat.messages == []
  {
    var switched := HandleCharacterChange(p, newId);
    if switched.character == p.character || !authenticated then switched
    else switched.(chat := Chat.LoadHistory(switched.chat, fetched))
  }

  /** Switching away and back while idle, with the history effect: the
      timeline is not left empty but is the reloaded conversation of the
      original character, whatever the other character's history was. */
  lemma SwitchAndBackReloads(p: Page, away: Option<seq<ConversationMessage>>,
                             back: seq<ConversationMessage>)
    requires !p.chat.isStreaming
    ensures var r := SwitchCharacter(SwitchCharacter(p, Other(p.character), true, away), p.character, true, Some(back));
      && r.character == p.character
      && r.chat.messages == Chat.LoadHistory(Chat.Initial, Some(back)).messages
  {
  }

  /** `handleSend`: auto-scroll is switched back on and the text and image go
      to `sendMessage` unchanged. */
  function HandleSend(p: Page, text: string, image: Option<string>, userId: string, assistantId: string,
                      outcome: Chat.RequestOutcome, decode: string -> Option<SSEEvent>): (r: Page)
    requires Chat.FreshPair(p.chat, userId, assistantId)
    ensures r.autoScroll && r.character == p.character
    ensures r.chat == Chat.SendMessage(p.chat, text, image, userId, assistantId, outcome, decode)
  {
    p.(autoScroll := true, chat := Chat.SendMessage(p.chat, text, image, userId, assistantId, outcome, decode))
  }

  /** What the input bar hands on reaches the session as the user's message. */
  lemma InputReachesTimeline(p: Page, d: ChatInput.Draft, userId: string, assistantId: string,
                             outcome: Chat.RequestOutcome, decode: string -> Option<SSEEvent>)
    requires Chat.FreshPair(p.chat, userId, assistantId) && !p.chat.isStreaming
    requires ChatInput.HandleSend(d).sent.Some?
    ensures var sent := ChatInput.HandleSend(d).sent.value;
      var r := HandleSend(p, sent.text, sent.image, userId, assistantId, outcome, decode);
      && r.chat.messages[|p.chat.messages|].content == sent.text
      && (r.chat.messages[|p.chat.messages|].imageUrl.Some? <==> Truthy(d.image))
  {
  }

  /** The scroll container's geometry. */
  datatype Metrics = Metrics(scrollTop: real, scrollHeight: real, clientHeight: real)

  /** Auto-scroll stays on within this distance of the bottom, exclusive. */
  const NearBottomDistance: real := 100.0

  /** The distance left below the visible area. */
  function Remaining(m: Metrics): real
  {
    m.scrollHeight - m.scrollTop - m.clientHeight
  }

  predicate NearBottom(m: Metrics)
  {
    Remaining(m) < NearBottomDistance
  }

  /** `handleScroll`: without a container nothing changes; otherwise
      auto-scroll follows the near-bottom test. */
  function HandleScroll(p: Page, container: Option<Metrics>): (r: Page)
    ensures container.None? ==> r == p
    ensures r == p.(autoScroll := r.autoScroll)
    ensures container.Some? ==>
      var m := container.value;
      (r.autoScroll <==> m.scrollHeight - m.scrollTop - m.clientHeight < 100.0)
  {
    match container
    case None => p
    case Some(m) => p.(autoScroll := NearBottom(m))
  }

  /** Scrolling further down never turns auto-scroll off, and exactly 100
      pixels from the bottom already counts as scrolled away. */
  lemma NearBottomMonotone(m: Metrics, top: real)
    requires m.scrollTop <= top
    ensures NearBottom(m) ==> NearBottom(m.(scrollTop := top))
    ensures Remaining(m) == NearBottomDistance ==> !NearBottom(m)
  {
  }

  /** `isSleeping`: either the polled status or the streamed state says the
      character sleeps. */
  predicate IsSleeping(status: Option<CharacterState>, streamed: Option<CharacterState>)
  {
    (status.Some? && status.value.sleep.isSleeping) || (streamed.Some? && streamed.value.sleep.isSleeping)
  }

  /** The props of the input bar: disabled while streaming, sleeping as above. */
  function InputProps(p: Page, status: Option<CharacterState>): ChatInput.Props
  {
    ChatInput.Props(p.chat.isStreaming, IsSleeping(status, p.chat.characterState))
  }

  /** While a send is outstanding the input bar offers nothing that could
      start another one, so the session's busy guard is backed by the UI. */
  lemma StreamingLocksInput(p: Page, status: Option<CharacterState>, d: ChatInput.Draft)
    requires p.chat.isStreaming
    ensures var v := ChatInput.Render(InputProps(p, status), d);
      v.SleepingBanner? || (!v.cameraEnabled && !v.textEnabled && !v.sendEnabled)
  {
    ChatInput.DisabledOffersNothing(InputProps(p, status), d);
  }

  /** Within one render, before the status effect runs, the input bar shows
      only the sleeping banner exactly when the polled status or the last
      streamed state says the character sleeps. */
  lemma SleepingShowsBanner(p: Page, status: Option<CharacterState>, d: ChatInput.Draft)
    ensures ChatInput.Render(InputProps(p, status), d).SleepingBanner? <==>
      (status.Some? && status.value.sleep.isSleeping) ||
      (p.chat.characterState.Some? && p.chat.characterState.value.sleep.isSleeping)
  {
  }

  /** The status effect: once a state has been streamed, the page copies it
      into the polled status (`updateFromSSE`); before that the polled
      status stands. */
  function SyncStatus(status: Option<CharacterState>, streamed: Option<CharacterState>): (r: Option<CharacterState>)
    ensures streamed.Some? ==> r == streamed
    ensures streamed.None? ==> r == status
  {
    if streamed.Some? then streamed else status
  }

  /** After the status effect has run, the banner follows the streamed state
      alone: a streamed awake state removes a banner the polled status put
      up, and a streamed sleeping state puts it up. */
  lemma SyncedBannerFollowsStream(p: Page, status: Option<CharacterState>, d: ChatInput.Draft)
    requires p.chat.characterState.Some?
    ensures ChatInput.Render(InputProps(p, SyncStatus(status, p.chat.characterState)), d).SleepingBanner? <==>
      p.chat.characterState.value.sleep.isSleeping
  {
    SleepingShowsBanner(p, SyncStatus(status, p.chat.characterState), d);
  }
}
