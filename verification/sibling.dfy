/** The sibling channel of `src/hooks/useSiblingEvents.ts`: a long-lived
    stream of the other companion's remarks, appended to a separate list, with
    heartbeat frames ignored and a fixed-delay reconnect after the stream
    drops.

    One mounted effect is modelled as a state machine over `Channel`. The
    request's asynchronous life is split in two: `Connect` is the synchronous
    part up to the request being issued, `FinishConnect` is everything after
    it settles. The timer is a flag; `Fire` is its callback running after
    `ReconnectDelayMs`. */
module Sibling {
  import opened Types
  import opened Text
  import Sse

  /** An event line must start with exactly this text, space included. */
  const EventPrefix: string := "event: "
  /** The event name of keep-alive frames. */
  const Heartbeat: string := "heartbeat"
  /** Delay between a dropped stream and the next attempt. */
  const ReconnectDelayMs: nat := 5000
  /** Path of the channel, before the character key. */
  const EventsPath: string := "/api/sibling/events?character_id="

  // ---------------------------------------------------------------------------
  // Frames

  /** The frame names the heartbeat event on its last `event: ` line. */
  ghost predicate IsHeartbeat(lines: seq<string>)
  {
    exists i :: Sse.LastWith(lines, EventPrefix, i) && lines[i][|EventPrefix|..] == Heartbeat
  }

  /** A prefix that occurs on some line occurs on a last line. */
  lemma {:induction false} LastWithExists(lines: seq<string>, prefix: string)
    requires !Sse.NoneWith(lines, prefix)
    ensures exists i :: Sse.LastWith(lines, prefix, i)
    decreases |lines|
  {
    var n := |lines|;
    if StartsWith(lines[n - 1], prefix) {
      assert Sse.LastWith(lines, prefix, n - 1);
    } else {
      var front := lines[..n - 1];
      var j :| 0 <= j < n && StartsWith(lines[j], prefix);
      assert front[j] == lines[j];
      LastWithExists(front, prefix);
      var i :| Sse.LastWith(front, prefix, i);
      assert Sse.LastWith(lines, prefix, i);
    }
  }

  /** The event field the parsing loop ends with is the heartbeat name
      exactly when the frame is a heartbeat. */
  lemma HeartbeatField(lines: seq<string>)
    ensures Sse.LastField(lines, EventPrefix, "") == Heartbeat <==> IsHeartbeat(lines)
  {
    if !Sse.NoneWith(lines, EventPrefix) {
      LastWithExists(lines, EventPrefix);
    }
  }

  /** The sibling frame parser: the last `event: ` line names the event and
      the last `data: ` line carries the payload. Heartbeats, frames without
      a payload and payloads the decoder rejects yield nothing. */
  function ParseSiblingFrame(raw: string, decode: string -> Option<SiblingEvent>): (r: Option<SiblingEvent>)
    ensures IsHeartbeat(Split(raw, Sse.LineSeparator)) ==> r == None
    ensures Sse.NoneWith(Split(raw, Sse.LineSeparator), Sse.DataPrefix) ==> r == None
    ensures forall j :: !IsHeartbeat(Split(raw, Sse.LineSeparator)) &&
                        Sse.LastWith(Split(raw, Sse.LineSeparator), Sse.DataPrefix, j) ==>
      var payload := Split(raw, Sse.LineSeparator)[j][|Sse.DataPrefix|..];
      r == (if payload == "" then None else decode(payload))
  {
    var lines := Split(raw, Sse.LineSeparator);
    var eventType := Sse.LastField(lines, EventPrefix, "");
    var data := Sse.LastField(lines, Sse.DataPrefix, "");
    HeartbeatField(lines);
    if eventType == Heartbeat || data == "" then None else decode(data)
  }

  function SiblingFrame(decode: string -> Option<SiblingEvent>): string -> Option<SiblingEvent>
  {
    raw => ParseSiblingFrame(raw, decode)
  }

  /** The events the read loop hands on for the chunks received. The loop has
      no flush: whatever follows the last blank line is dropped. */
  function StreamEvents(chunks: seq<string>, decode: string -> Option<SiblingEvent>): (es: seq<SiblingEvent>)
    ensures es == Sse.EmitAll(Init(Split(Sse.Concat(chunks), Sse.FrameSeparator)), SiblingFrame(decode))
  {
    assert Free("", Sse.FrameSeparator);
    Sse.ReadChunksSpec("", chunks, SiblingFrame(decode));
    assert "" + Sse.Concat(chunks) == Sse.Concat(chunks);
    Sse.ReadChunks("", chunks, SiblingFrame(decode)).events
  }

  /** A stream that never sends a blank line delivers nothing, however much
      it sends: an unterminated final frame is lost. */
  lemma UnterminatedFrameLost(chunks: seq<string>, decode: string -> Option<SiblingEvent>)
    requires Free(Sse.Concat(chunks), Sse.FrameSeparator)
    ensures StreamEvents(chunks, decode) == []
  {
    SplitOfFree(Sse.Concat(chunks), Sse.FrameSeparator);
    assert Init([Sse.Concat(chunks)]) == [];
  }

  /** Heartbeat frames can be spliced anywhere into the frames without
      changing what is delivered. */
  lemma HeartbeatInvisible(before: seq<string>, beat: string, after: seq<string>,
                           decode: string -> Option<SiblingEvent>)
    requires IsHeartbeat(Split(Trim(beat), Sse.LineSeparator))
    ensures Sse.EmitAll(before + [beat] + after, SiblingFrame(decode))
         == Sse.EmitAll(before + after, SiblingFrame(decode))
  {
    Sse.MalformedFrameSkipped(before, beat, after, SiblingFrame(decode));
    Sse.EmitAllAppend(before, after, SiblingFrame(decode));
  }

  // ---------------------------------------------------------------------------
  // Messages

  /** `handleSiblingEvent`: a remark is appended as a sibling message carrying
      the speaker's display name and identifier; typing and done signals
      change nothing. `idOf(p)` stands for the id generated for the message
      that lands at position `p`. */
  function HandleSiblingEvent(msgs: seq<ChatMessage>, e: SiblingEvent, idOf: nat -> string): (r: seq<ChatMessage>)
    ensures !e.SiblingSpeak? ==> r == msgs
    ensures e.SiblingSpeak? ==>
      && |r| == |msgs| + 1
      && r[..|msgs|] == msgs
      && r[|msgs|].id == idOf(|msgs|)
      && r[|msgs|].role == Sibling && r[|msgs|].isSibling
      && r[|msgs|].content == e.content
      && r[|msgs|].siblingName == Some(e.speakerName)
      && r[|msgs|].siblingId == Some(e.speaker)
  {
    match e
    case SiblingSpeak(content, speaker, speakerName) =>
      msgs + [Plain(idOf(|msgs|), Sibling, content).(isSibling := true, siblingName := Some(speakerName),
                                                     siblingId := Some(speaker))]
    case SiblingTyping => msgs
    case SiblingDone => msgs
  }

  /** The events delivered in order. */
  function Deliver(msgs: seq<ChatMessage>, events: seq<SiblingEvent>, idOf: nat -> string): seq<ChatMessage>
    decreases |events|
  {
    if events == [] then msgs
    else Deliver(HandleSiblingEvent(msgs, events[0], idOf), events[1..], idOf)
  }

  /** The texts of the remarks among `events`, in arrival order. */
  function Remarks(events: seq<SiblingEvent>): seq<string>
    decreases |events|
  {
    if events == [] then []
    else (if events[0].SiblingSpeak? then [events[0].content] else []) + Remarks(events[1..])
  }

  /** The contents of `msgs`, in order. */
  function Contents(msgs: seq<ChatMessage>): (cs: seq<string>)
    ensures |cs| == |msgs|
    ensures forall i :: 0 <= i < |msgs| ==> cs[i] == msgs[i].content
  {
    seq(|msgs|, i requires 0 <= i < |msgs| => msgs[i].content)
  }

  /** Delivery keeps the earlier messages, and appends exactly one sibling
      message per remark, in arrival order. */
  lemma {:induction false} DeliverSpec(msgs: seq<ChatMessage>, events: seq<SiblingEvent>, idOf: nat -> string)
    ensures var r := Deliver(msgs, events, idOf);
      && |msgs| <= |r|
      && r[..|msgs|] == msgs
      && Contents(r[|msgs|..]) == Remarks(events)
      && forall p :: |msgs| <= p < |r| ==> r[p].role == Sibling && r[p].isSibling && r[p].id == idOf(p)
    decreases |events|
  {
    if events != [] {
      var next := HandleSiblingEvent(msgs, events[0], idOf);
      DeliverSpec(next, events[1..], idOf);
      var r := Deliver(msgs, events, idOf);
      assert r == Deliver(next, events[1..], idOf);
      assert r[..|msgs|] == r[..|next|][..|msgs|];
      assert r[|msgs|..] == next[|msgs|..] + r[|next|..];
      assert Contents(next[|msgs|..]) == (if events[0].SiblingSpeak? then [events[0].content] else []);
      ContentsAppend(next[|msgs|..], r[|next|..]);
    }
  }

  lemma ContentsAppend(a: seq<ChatMessage>, b: seq<ChatMessage>)
    ensures Contents(a + b) == Contents(a) + Contents(b)
  {
  }

  /** `clearSiblingMessages`: the list becomes empty; the connection is not
      touched. */
  function ClearSiblingMessages(c: Channel): (r: Channel)
    ensures r.messages == []
    ensures r == c.(messages := [])
  {
    c.(messages := [])
  }

  // ---------------------------------------------------------------------------
  // The connection

  /** One mounted effect: the shared connected flag, the effect's cancelled
      flag, whether a reconnect timer is pending, whether a request of this
      effect has not settled yet, and the sibling message list. */
  datatype Channel = Channel(
    connected: bool,
    cancelled: bool,
    timerPending: bool,
    inFlight: bool,
    messages: seq<ChatMessage>)

  /** What the channel asks the backend for. */
  datatype Request = Request(path: string, authorization: string)

  /** A connection attempt: the channel after it, and the request issued, if
      one was. */
  datatype Attempt = Attempt(channel: Channel, request: Option<Request>)

  /** `connectSSE` up to the request: nothing happens while connected or
      after teardown, or without a token; otherwise the channel is marked
      connected and a request for the current character goes out with the
      token as bearer. */
  function Connect(c: Channel, character: CharacterId, token: Option<string>): (a: Attempt)
    ensures a.request.Some? <==> !c.connected && !c.cancelled && Truthy(token)
    ensures a.request.None? ==> a.channel == c
    ensures a.request.Some? ==>
      && a.channel == c.(connected := true, inFlight := true)
      && a.request.value.path == EventsPath + Key(character)
      && a.request.value.authorization == "Bearer " + token.value
  {
    if c.connected || c.cancelled then Attempt(c, None)
    else if !Truthy(token) then Attempt(c, None)
    else Attempt(c.(connected := true, inFlight := true),
                 Some(Request(EventsPath + Key(character), "Bearer " + token.value)))
  }

  /** The effect mounting: a fresh channel over the existing list, and an
      immediate attempt. */
  function Mount(messages: seq<ChatMessage>, character: CharacterId, token: Option<string>): (a: Attempt)
    ensures a.request.Some? <==> Truthy(token)
    ensures a.channel.messages == messages && !a.channel.cancelled && !a.channel.timerPending
  {
    Connect(Channel(false, false, false, false, messages), character, token)
  }

  /** How the stream's read loop stopped. */
  datatype Ending = EndOfStream | Aborted | Broken

  /** How a request settled: the request itself failed (aborted or not), the
      status was not OK, there was no body, or the body was read until the
      loop stopped. */
  datatype Outcome =
    | FetchFailed(aborted: bool)
    | NotOk
    | NoBody
    | Streamed(chunks: seq<string>, ending: Ending)

  /** The outcome reconnects, given the effect has not been torn down. An
      aborted request and a missing body never do; a non-OK status always
      does, even after teardown. */
  predicate Reconnects(o: Outcome, cancelled: bool)
  {
    match o
    case FetchFailed(aborted) => !aborted && !cancelled
    case NotOk => true
    case NoBody => false
    case Streamed(_, ending) => !ending.Aborted? && !cancelled
  }

  /** `connectSSE` after the request settled: remarks read before the loop
      stopped are delivered, the connected flag drops, and a reconnect is
      scheduled (replacing any pending one) when the outcome calls for it. */
  function FinishConnect(c: Channel, o: Outcome, decode: string -> Option<SiblingEvent>,
                         idOf: nat -> string): (r: Channel)
    requires c.inFlight
    ensures !r.connected && !r.inFlight && r.cancelled == c.cancelled
    ensures r.timerPending == (c.timerPending || Reconnects(o, c.cancelled))
    ensures !o.Streamed? ==> r.messages == c.messages
    ensures o.Streamed? ==> r.messages == Deliver(c.messages, StreamEvents(o.chunks, decode), idOf)
  {
    var settled := c.(connected := false, inFlight := false);
    match o
    case FetchFailed(aborted) =>
      if aborted || c.cancelled then settled else settled.(timerPending := true)
    case NotOk => settled.(timerPending := true)
    case NoBody => settled
    case Streamed(chunks, ending) =>
      var delivered := settled.(messages := Deliver(c.messages, StreamEvents(chunks, decode), idOf));
      if ending.Aborted? || c.cancelled then delivered else delivered.(timerPending := true)
  }

  /** The timer callback: the timer is spent, and an attempt is made unless
      the effect was torn down or a connection is live. */
  function Fire(c: Channel, character: CharacterId, token: Option<string>): (a: Attempt)
    requires c.timerPending
    ensures !a.channel.timerPending
    ensures a.request.Some? <==> !c.connected && !c.cancelled && Truthy(token)
  {
    Connect(c.(timerPending := false), character, token)
  }

  /** The effect's cleanup: cancelled, the pending timer cleared, the
      connected flag dropped. The in-flight request, if any, is aborted and
      still has to settle. */
  function Teardown(c: Channel): (r: Channel)
    ensures r.cancelled && !r.connected && !r.timerPending
    ensures r.inFlight == c.inFlight && r.messages == c.messages
  {
    c.(cancelled := true, timerPending := false, connected := false)
  }

  // ---------------------------------------------------------------------------
  // Runs

  /** What can happen to a mounted channel next. A timer fires only when one
      is pending and a request settles only when one is in flight; anything
      else is not a step. */
  datatype Step = TimerFires(token: Option<string>) | Settles(outcome: Outcome) | Unmounts

  function Apply(c: Channel, step: Step, character: CharacterId,
                 decode: string -> Option<SiblingEvent>, idOf: nat -> string): Channel
  {
    match step
    case TimerFires(token) => if c.timerPending then Fire(c, character, token).channel else c
    case Settles(o) => if c.inFlight then FinishConnect(c, o, decode, idOf) else c
    case Unmounts => Teardown(c)
  }

  function Run(c: Channel, steps: seq<Step>, character: CharacterId,
               decode: string -> Option<SiblingEvent>, idOf: nat -> string): Channel
    decreases |steps|
  {
    if steps == [] then c
    else Run(Apply(c, steps[0], character, decode, idOf), steps[1..], character, decode, idOf)
  }

  /** Once torn down, a channel never connects again, whatever settles late
      and whatever timers fire. */
  lemma {:induction false} NeverReconnectsAfterTeardown(c: Channel, steps: seq<Step>, character: CharacterId,
                                                        decode: string -> Option<SiblingEvent>, idOf: nat -> string)
    requires c.cancelled && !c.connected
    ensures Run(c, steps, character, decode, idOf).cancelled
    ensures !Run(c, steps, character, decode, idOf).connected
    decreases |steps|
  {
    if steps != [] {
      NeverReconnectsAfterTeardown(Apply(c, steps[0], character, decode, idOf), steps[1..], character, decode, idOf);
    }
  }

  /** While the effect is live, the connected flag is up exactly when one of
      its requests is in flight. */
  ghost predicate Consistent(c: Channel)
  {
    !c.cancelled ==> c.connected == c.inFlight
  }

  lemma {:induction false} RunConsistent(c: Channel, steps: seq<Step>, character: CharacterId,
                                         decode: string -> Option<SiblingEvent>, idOf: nat -> string)
    requires Consistent(c)
    ensures Consistent(Run(c, steps, character, decode, idOf))
    decreases |steps|
  {
    if steps != [] {
      RunConsistent(Apply(c, steps[0], character, decode, idOf), steps[1..], character, decode, idOf);
    }
  }

  /** Single connection: in a consistent channel, no attempt is made while a
      request is in flight. */
  lemma NoSecondRequest(c: Channel, character: CharacterId, token: Option<string>)
    requires Consistent(c) && c.inFlight
    ensures Connect(c, character, token).request.None?
  {
  }

  /** A stream that ends normally schedules a reconnect, and when the timer
      fires with a token available a fresh request goes out; remarks already
      delivered stay. */
  lemma DropThenReconnect(c: Channel, chunks: seq<string>, character: CharacterId, token: Option<string>,
                          decode: string -> Option<SiblingEvent>, idOf: nat -> string)
    requires c.inFlight && !c.cancelled && Truthy(token)
    ensures var dropped := FinishConnect(c, Streamed(chunks, EndOfStream), decode, idOf);
      && dropped.timerPending
      && var a := Fire(dropped, character, token);
         a.request.Some? && a.channel.messages == dropped.messages
  {
  }

  /** A non-OK response that settles after teardown still schedules a timer,
      but the timer cannot start a connection. */
  lemma LateRejectionHarmless(c: Channel, character: CharacterId, token: Option<string>,
                              decode: string -> Option<SiblingEvent>, idOf: nat -> string)
    requires c.inFlight
    ensures var r := FinishConnect(Teardown(c), NotOk, decode, idOf);
      r.timerPending && Fire(r, character, token).request.None?
  {
  }

  /** Without a token the channel makes no request and schedules nothing, so
      it stays idle until the effect is mounted again. */
  lemma NoTokenStaysIdle(messages: seq<ChatMessage>, character: CharacterId, token: Option<string>)
    requires !Truthy(token)
    ensures var a := Mount(messages, character, token);
      a.request.None? && !a.channel.timerPending && !a.channel.inFlight
  {
  }
}
