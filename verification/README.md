# Naruen chat client — a Dafny model of its core

This project models the decision logic of the Naruen web client in Dafny and
proves properties of that model. Naruen is a companion chat app with two
characters, 송나른 (`naruen`) and 송나린 (`narin`). The model covers:

- **Stream decoder** (`Sse`): the server-sent-event decoder that turns a
  chunked response body into chat events. It splits on blank lines, holds back
  the trailing fragment, lets the last `data: ` line win, and flushes at end
  of stream.
- **Chat session engine** (`Chat`): the single-flight send, the per-event
  update of the assistant placeholder, history loading and clearing.
- **Sibling channel** (`Sibling`): a second, always-open stream of the other
  character's remarks. It has its own frame parser, an append-only message
  list and a reconnect state machine.
- **Guards and helpers**: the chat page's guards and scroll rule
  (`ChatPage`), the input bar's send decision (`ChatInput`), the status-bar
  labels (`StatusBar`), the token storage and expiry check (`Auth`), and the
  service worker's caching policy (`ServiceWorker`).
- **Shared pieces**: `Types` holds the data shapes. `Text` models the
  JavaScript string operations the code relies on: `split`, `trim`,
  `startsWith`, `includes`, ASCII `toLowerCase` and decimal formatting.

Modelling choices:

- **Pure state transitions.** Every operation is a pure function from the
  state before to the state after. React state updates become a sequential
  transition system.
- **External inputs are parameters.** Abstract parameters stand in for:
  - `JSON.parse` of an event, which is a partial decoder
    `string -> Option<Event>`;
  - the rest of `atob` after its alphabet check;
  - the network outcome of a request;
  - the clock (`now`);
  - generated message ids.
- **Fresh ids.** A send requires its two ids to be distinct from each other
  and from every id already in the timeline.
- **Numbers.** JavaScript numbers are reals; NaN appears only where the code
  depends on it, in the `exp` claim.
- **JWT decoding** follows RFC 7519. Its claims segment uses the base64url
  alphabet of section 5 of RFC 4648, and the expiry claim is described in
  section 4.1.4 of RFC 7519. The code decodes the segment with `atob`, which
  accepts only the standard alphabet of section 4 of RFC 4648; see Findings.
- **Frame grammar.** The decoders follow the code, not section 9.2.6 of the
  WHATWG HTML Living Standard:
  - the only frame separator is `"\n\n"`;
  - a field line must start exactly with `"data: "` or `"event: "`;
  - several data lines are not joined: the last one wins.

## Model

| member | source | states |
|---|---|---|
| Types.Characters | src/lib/types.ts:126-141 | Each character's configuration is filed under its own identifier and themed after its own key. |
| Types.KeyInjective | src/lib/types.ts:116 | The two character identifiers have distinct wire spellings, so a key names exactly one character. |
| Text.Split | src/lib/sse.ts:28 | `String.prototype.split` with a non-empty string separator: a leftmost, non-overlapping scan that always yields at least one part. Its properties are the `Split` lemmas below. |
| Text.SplitJoin | src/lib/sse.ts:28 | `split` loses nothing: joining its parts with the separator gives back the input. |
| Text.SplitPartsFree | src/lib/sse.ts:28 | No part produced by `split` contains the separator. |
| Text.SplitSingleIff | src/lib/sse.ts:28-29 | `split` yields a single part exactly when the separator does not occur. |
| Text.SplitAppend | src/lib/sse.ts:25-29 | Appending text to a buffer changes only its last part and what follows: the parts before it are final. |
| Text.Trim | src/lib/sse.ts:32 | `trim` gives the empty string exactly when the input is all white space; otherwise the result neither starts nor ends with white space. |
| Text.TrimSlice | src/components/ChatInput.tsx:20 | `trim` removes white space from the two ends and nothing else: the result is a contiguous stretch with only white space around it. |
| Text.IncludesIff | src/components/StatusBar.tsx:56-59 | The left-to-right `includes` scan succeeds exactly when the keyword occurs at some index. |
| Text.ToLowerIdempotent | src/components/StatusBar.tsx:55 | Lower-casing twice is lower-casing once. |
| Text.DecimalInjective | src/hooks/useSSEChat.ts:30 | Distinct indices have distinct decimal spellings. |
| Sse.LastField | src/lib/sse.ts:57-62 | The field is the text after the prefix on the last line that starts with it, or the initial value when no line does; earlier lines are not joined in. |
| Sse.ParseSSEEvent | src/lib/sse.ts:54-72 | A frame without a `data: ` line, or whose last one has an empty payload, yields nothing; otherwise the result is the decoder's verdict on the last payload, so a rejected payload yields nothing. |
| Sse.EmitPart | src/lib/sse.ts:31-38 | A frame yields at most one event. |
| Sse.EmitPartSpec | src/lib/sse.ts:32-38 | A frame that is blank after trimming yields nothing; any other frame yields exactly what the parser makes of its trimmed text. |
| Sse.EmitAll | src/lib/sse.ts:31-39 | A run of frames never yields more events than it has frames. |
| Sse.EmitAllAppend | src/lib/sse.ts:31-39 | Events come out in frame order: two consecutive runs of frames yield the first run's events followed by the second's. |
| Sse.Feed | src/lib/sse.ts:25-29 | After a read, the held-back buffer contains no separator and is a suffix of the text seen so far. |
| Sse.ReadChunks | src/lib/sse.ts:21-40 | The read loop over the delivered chunks. After any chunk, the held-back buffer holds no whole separator. `Sse.ReadChunksSpec` gives its events and buffer in closed form. |
| Sse.ReadChunksSpec | src/lib/sse.ts:21-40 | The read loop's events and final buffer depend only on the text delivered, not on the chunk boundaries: the events are those of every complete frame, and the buffer is the text after the last separator. |
| Sse.FlushCompletes | src/lib/sse.ts:42-48 | Flushing the held-back fragment after the complete frames gives the events of every frame. |
| Sse.ParseSSEStream | src/lib/sse.ts:7-52 | A non-OK response fails with `HTTP <status>: <statusText>` before any event, and a missing body with `Response body is null`. A body that ends normally yields the events of the whole text, the final unterminated frame included. A failing read yields the complete frames' events and then the error. |
| Sse.ChunkIndependence | src/lib/sse.ts:25-29 | Two bodies that deliver the same text, however it is cut into chunks, decode to the same events and the same failure. |
| Sse.SingleChunkEquivalent | src/lib/sse.ts:21-48 | Any chunking decodes like the whole text delivered as one chunk. |
| Sse.TrailingFrameDecoded | src/lib/sse.ts:42-48 | A non-blank final frame with no blank line after it that parses to `e` is still decoded: the events are those of the complete frames followed by `e`. |
| Sse.MalformedFrameSkipped | src/lib/sse.ts:35-38 | A frame the parser rejects is dropped, and the frames before and after it still yield their events in order. |
| Chat.UpdateWhere | src/hooks/useSSEChat.ts:109-113 | `prev.map(m => m.id === id ? f(m) : m)`: same length, messages with the target id transformed, all others untouched. |
| Chat.HandleSSEEvent | src/hooks/useSSEChat.ts:104-176 | Per event type: `speak` replaces the content, `tool_use` sets the tool and `tool_result` clears it. `inner_state` acts only on a non-empty emotion and then sets it both on the session and on the message. `state` replaces the snapshot and nothing else. `done` clears streaming and the tool. `error` shows the message (or the default text when it is empty), stops streaming and records the error. Every event changes only the message with the target id and keeps the list's length, order, ids and roles. |
| Chat.ApplyEvents | src/hooks/useSSEChat.ts:81-83 | A run of events changes only the placeholder, keeps the list's length and order, and leaves the busy flag alone. |
| Chat.SpeakReplaces | src/hooks/useSSEChat.ts:107-113 | Whatever came before, after a `speak` event the placeholder's content is exactly that event's text. |
| Chat.ContentNeverConcatenated | src/hooks/useSSEChat.ts:104-176 | After any run of events, the placeholder's content is its initial content, the error fallback, or the text of one single `speak` or `error` event; it is never assembled from several events. |
| Chat.ToolLifecycle | src/hooks/useSSEChat.ts:116-157 | `tool_use` shows the tool. After `tool_use`, `tool_result`, `done` there is no tool and no streaming flag, and the content is unchanged. |
| Chat.StreamingSurvives | src/hooks/useSSEChat.ts:104-176 | Without a `done` or `error` event nothing clears the placeholder's streaming flag. |
| Chat.EventsAfterDoneApplied | src/hooks/useSSEChat.ts:149-157 | Events after `done` are still applied: a late `speak` changes a finished message's content. |
| Chat.ClearMessages | src/hooks/useSSEChat.ts:179-184 | Clearing empties the timeline and resets emotion, snapshot and error, leaving the busy flag as it was. |
| Chat.StaleEventsAfterClear | src/hooks/useSSEChat.ts:179-184 | Events of a send still in flight when the timeline was cleared find no placeholder; the timeline stays empty. |
| Chat.HistoryIdsDistinct | src/hooks/useSSEChat.ts:30 | Loaded history entries get pairwise distinct ids. |
| Chat.LoadHistory | src/hooks/useSSEChat.ts:26-39 | A fetched conversation replaces the timeline wholesale: entry `i` becomes message `history-i` with the same role and content, not streaming. The rest of the session is untouched. A failed fetch changes nothing. |
| Chat.UserMessage | src/hooks/useSSEChat.ts:48-54 | The user's message carries the text, role `user`, and `imageUrl` "attached" exactly when a non-empty image was given. |
| Chat.Placeholder | src/hooks/useSSEChat.ts:57-64 | The placeholder is an empty assistant message marked as streaming. |
| Chat.BeginSend | src/hooks/useSSEChat.ts:44-67 | While busy, nothing changes. Otherwise the error is cleared, the user message and the placeholder are appended together in that order, and the busy flag goes up. |
| Chat.Fail | src/hooks/useSSEChat.ts:84-95 | A failure sets the placeholder's content to `오류가 발생했어요: ` followed by the message, stops its streaming, records the error and touches no other message. |
| Chat.MessageOf | src/hooks/useSSEChat.ts:85 | The failure text: the message of an `Error`, and `알 수 없는 오류` for any other thrown value. |
| Chat.FailureMessage | src/hooks/useSSEChat.ts:75-95 | The failure text: what was thrown, `HTTP <status>: <body text>` for a non-OK response, or the stream's failure. Nothing when the send succeeds. |
| Chat.Settle | src/hooks/useSSEChat.ts:69-95 | These all end on the placeholder and in the session error: a request that threw (`알 수 없는 오류` for a non-`Error` value), a non-OK status (`HTTP <status>: <body text>`) and a stream failure. Without a failure the session is exactly the decoded events applied in order. |
| Chat.SendMessage | src/hooks/useSSEChat.ts:42-101 | While busy it is a no-op. Otherwise exactly two messages are appended after the unchanged existing ones: the user message, then the assistant reply. The busy flag is down once the send settles, whatever the outcome, and every failure shows on the reply and as the session error. Without a failure, the session is the begun send with the decoded events applied in order, and only then is it idle. |
| Chat.ErrorUntouched | src/hooks/useSSEChat.ts:159-172 | Only an `error` event sets the session error: a run of events without one leaves it as it was. |
| Chat.SuccessfulSendClearsError | src/hooks/useSSEChat.ts:45 | A send that neither fails nor receives an `error` event ends with no session error, and its reply is the placeholder after the decoded events. |
| Chat.UnterminatedStreamLeavesSpinner | src/hooks/useSSEChat.ts:81-98 | A stream ending with neither `done` nor `error` leaves the reply marked as streaming while the session is no longer busy. |
| Chat.HelloScenario | src/hooks/useSSEChat.ts:42-101 | Sending "hello" with a stream of `speak "Hi"`, `speak "Hi there"`, `done` ends idle with the user message followed by a finished reply "Hi there". |
| Chat.HelloEvents | src/hooks/useSSEChat.ts:107-157 | Two cumulative `speak` events and `done` leave the placeholder with the second text, finished. |
| Sibling.HeartbeatField | src/hooks/useSiblingEvents.ts:118-129 | The event field the loop ends with names the heartbeat exactly when the last `event: ` line of the frame does. |
| Sibling.ParseSiblingFrame | src/hooks/useSiblingEvents.ts:113-137 | Heartbeat frames and frames without a payload yield nothing. Otherwise the last `data: ` payload goes to the decoder, and a rejected payload yields nothing. |
| Sibling.StreamEvents | src/hooks/useSiblingEvents.ts:105-139 | The events handed on are exactly those of the complete frames of the text received; there is no flush. |
| Sibling.UnterminatedFrameLost | src/hooks/useSiblingEvents.ts:105-111 | A stream that never sends a blank line delivers nothing, however much it sends. |
| Sibling.HeartbeatInvisible | src/hooks/useSiblingEvents.ts:128-129 | A heartbeat frame spliced anywhere into the frames changes nothing that is delivered. |
| Sibling.HandleSiblingEvent | src/hooks/useSiblingEvents.ts:28-50 | A remark appends exactly one message at the end, with role `sibling`, the sibling flag, the content, the speaker's name and the speaker's id. Typing and done signals change nothing. |
| Sibling.Deliver | src/hooks/useSiblingEvents.ts:134 | The decoded events handed to `handleSiblingEvent` one by one, in arrival order. `Sibling.DeliverSpec` states what results. |
| Sibling.DeliverSpec | src/hooks/useSiblingEvents.ts:28-50 | Delivery keeps the earlier messages and appends one sibling message per remark, with the remarks' texts in arrival order. |
| Sibling.ClearSiblingMessages | src/hooks/useSiblingEvents.ts:172-174 | The sibling list becomes empty and the connection state is untouched. |
| Sibling.Connect | src/hooks/useSiblingEvents.ts:67-87 | A request goes out exactly when the channel is neither connected nor torn down and a token exists. It then asks for the current character's channel with the token as bearer and marks the channel connected. Otherwise nothing changes. |
| Sibling.Mount | src/hooks/useSiblingEvents.ts:155 | Mounting attempts a connection at once, and requests exactly when a token exists. |
| Sibling.FinishConnect | src/hooks/useSiblingEvents.ts:89-152 | When a request settles, the connected flag drops and remarks read before the loop stopped are delivered. A reconnect is scheduled after a non-OK status always. After a normal end or a non-abort error it is scheduled only if not torn down. After an abort or a missing body it is never scheduled. |
| Sibling.Fire | src/hooks/useSiblingEvents.ts:56-65 | A firing timer is spent, and it starts a request exactly when the channel is not torn down, not connected and has a token. |
| Sibling.Teardown | src/hooks/useSiblingEvents.ts:157-168 | Teardown marks the channel cancelled, clears the pending timer and drops the connected flag; messages are kept. |
| Sibling.NeverReconnectsAfterTeardown | src/hooks/useSiblingEvents.ts:150-168 | Once torn down, a channel never connects again, whatever settles late and whatever timers fire. |
| Sibling.RunConsistent | src/hooks/useSiblingEvents.ts:68-75 | While the effect is live, every run keeps the connected flag up exactly when a request is in flight. |
| Sibling.NoSecondRequest | src/hooks/useSiblingEvents.ts:68 | No attempt is made while a request is in flight. |
| Sibling.DropThenReconnect | src/hooks/useSiblingEvents.ts:141-152 | A stream that ends normally schedules a reconnect. When that timer fires with a token, a fresh request goes out and delivered remarks stay. |
| Sibling.LateRejectionHarmless | src/hooks/useSiblingEvents.ts:89-94 | A non-OK response settling after teardown still schedules a timer, but that timer starts no request. |
| Sibling.NoTokenStaysIdle | src/hooks/useSiblingEvents.ts:70-71 | Without a token nothing is requested and nothing is scheduled. |
| ChatPage.HandleCharacterChange | src/app/chat/page.tsx:74-81 | The character changes exactly when the new one differs and no send is outstanding, and then the timeline is cleared. Otherwise the page is unchanged. |
| ChatPage.SwitchAndBack | src/app/chat/page.tsx:74-81 | Switching away and back while idle returns to the same character with no error and no emotion. The timeline is empty only until the history effect reloads it (`ChatPage.SwitchAndBackReloads`). |
| ChatPage.SwitchCharacter | src/app/chat/page.tsx:43-47 | A switch followed by the history effect. A refused switch changes nothing. A switch on an authenticated page replaces the timeline with the new character's fetched conversation, entry by entry, or leaves it empty when the fetch fails or the page is not authenticated. |
| ChatPage.SwitchAndBackReloads | src/app/chat/page.tsx:43-47 | Switching away and back while idle and authenticated ends with the original character's reloaded conversation, whatever the other character's history was. |
| ChatPage.HandleSend | src/app/chat/page.tsx:84-90 | Sending turns auto-scroll back on and hands the text and image unchanged to the session's send. |
| ChatPage.InputReachesTimeline | src/app/chat/page.tsx:84-90 | What the input bar sends arrives as the user's message: its text, and an attachment exactly when an image was given. |
| ChatPage.HandleScroll | src/app/chat/page.tsx:64-71 | Without a container nothing changes. Otherwise only auto-scroll changes, and it is on exactly when the distance left below the view is under 100, strictly. |
| ChatPage.NearBottomMonotone | src/app/chat/page.tsx:69 | Scrolling further down never turns auto-scroll off, and a distance of exactly 100 already counts as scrolled away. |
| ChatPage.StreamingLocksInput | src/app/chat/page.tsx:160-164 | While a send is outstanding the input bar offers no enabled control. |
| ChatPage.IsSleeping | src/app/chat/page.tsx:100 | The character counts as sleeping when either the polled status or the streamed state says so. |
| ChatPage.InputProps | src/app/chat/page.tsx:160-164 | The input bar is disabled exactly while a send is outstanding and sleeps as `ChatPage.IsSleeping` says. `ChatPage.StreamingLocksInput` and `ChatPage.SleepingShowsBanner` give the consequences. |
| ChatPage.SleepingShowsBanner | src/app/chat/page.tsx:100 | Within one render, before the status effect runs, the input bar shows only the sleeping banner exactly when the polled status or the streamed state says the character sleeps. |
| ChatPage.SyncStatus | src/app/chat/page.tsx:50-54 | The status effect: once a state has been streamed, it replaces the polled status (`updateFromSSE`, src/hooks/useCharacterStatus.ts:30-32); before that, the polled status stands. |
| ChatPage.SyncedBannerFollowsStream | src/app/chat/page.tsx:50-54 | After the status effect, the banner follows the streamed state alone: a streamed awake state removes a banner the polled status put up. |
| ChatInput.HandleSend | src/components/ChatInput.tsx:19-29 | Something is sent exactly when the trimmed text is non-empty or an image is present. Nothing sent keeps the draft; a send empties it. The text sent is the trimmed text, or `이거 봐봐!` when that is blank. The image is forwarded exactly when it is present and non-empty. |
| ChatInput.SentIsTrimmed | src/components/ChatInput.tsx:20-23 | A non-blank text is sent with white space cut from its ends and nothing else. |
| ChatInput.SentTextIsClean | src/components/ChatInput.tsx:20-23 | The text sent is never blank and has no white space at either end. |
| ChatInput.DefaultTextIsClean | src/components/ChatInput.tsx:23 | The default text is non-blank and has no surrounding white space. |
| ChatInput.ButtonMatchesGuard | src/components/ChatInput.tsx:98-100 | The send button is enabled exactly when the input is not disabled and a click would actually send. |
| ChatInput.Render | src/components/ChatInput.tsx:42-100 | While sleeping only the banner is shown. Otherwise the camera and text controls are enabled exactly when not disabled, and the send button exactly when not disabled and there is something to send. |
| ChatInput.DisabledOffersNothing | src/components/ChatInput.tsx:62-100 | A disabled input bar offers no enabled control. |
| StatusBar.TableEntriesNonEmpty | src/components/StatusBar.tsx:13-32 | Every emoji in the emotion table is non-empty, so a listed emotion never falls through to the neutral face. |
| StatusBar.EmotionEmoji | src/components/StatusBar.tsx:34-37 | A missing, empty or unlisted emotion shows `😐`; a listed one shows its table entry. |
| StatusBar.DisplayedEmotion | src/components/StatusBar.tsx:65 | The streamed emotion is shown when it is non-empty; otherwise the polled one, if any. |
| StatusBar.StreamedEmotionWins | src/components/StatusBar.tsx:65 | After an `inner_state` event with an emotion, the status bar shows that emotion whatever the polled status says. |
| StatusBar.HungerLabel | src/components/StatusBar.tsx:39-44 | Satiety ≥ 80 reads 배부름, [50, 80) reads 적당, [30, 50) reads 출출 and below 30 reads 배고픔; only the last has the 😋 emoji. |
| StatusBar.HungerMonotone | src/components/StatusBar.tsx:39-44 | More satiety never reads as hungrier. |
| StatusBar.DrowsinessLabel | src/components/StatusBar.tsx:46-51 | Level ≥ 3 reads 졸림, [2, 3) reads 나른, [1, 2) reads 약간 and below 1 reads 맑음. |
| StatusBar.DrowsinessMonotone | src/components/StatusBar.tsx:46-51 | A higher level never reads as less sleepy. |
| StatusBar.ActivityLabel | src/components/StatusBar.tsx:53-61 | A missing or empty activity shows nothing. Otherwise the lower-cased text is tried against meal, exercise, video and sleep keywords in that order; sleep shows nothing. Any other text shows a generic badge with the text as written. |
| StatusBar.ActivityIgnoresCase | src/components/StatusBar.tsx:55 | An activity and its lower-cased spelling get the same badge, up to the text shown on the generic badge. |
| StatusBar.MealBeforeSleep | src/components/StatusBar.tsx:56-59 | A meal keyword wins even when the text also mentions sleep. |
| StatusBar.KeywordInsideWord | src/components/StatusBar.tsx:56 | Keywords match inside words: "Theater" shows the meal badge. |
| Auth.GetToken | src/lib/auth.ts:3-6 | On the server there is no token; in the browser it is the stored value under `naruen_jwt`, if any. |
| Auth.SetToken | src/lib/auth.ts:8-10 | Setting writes the token under its key; on the server it throws. |
| Auth.ClearToken | src/lib/auth.ts:12-14 | Clearing removes the key; on the server it throws. |
| Auth.StorageRoundTrip | src/lib/auth.ts:1-14 | What is set is read back, what is cleared reads as nothing, and no other stored key is touched. |
| Auth.PayloadOf | src/lib/auth.ts:18-20 | A token that does not have exactly three dot-separated segments, or whose middle segment does not decode, has no payload; otherwise the payload is the parse of the decoded segment. |
| Auth.ExpiredBy | src/lib/auth.ts:21-24 | A failed decode and a `null` payload count as expired. A NaN expiry never does. Otherwise a token is expired exactly when `exp * 1000 < now`, strictly. |
| Auth.IsTokenExpired | src/lib/auth.ts:16-25 | A token without three segments is expired. A failed decode or parse is expired (fail closed). A missing numeric `exp` is never expired. Otherwise it is expired exactly when `exp * 1000 < now`. |
| Auth.GetTokenPayload | src/lib/auth.ts:27-35 | The payload is returned only when the shared decoding step succeeds with a non-null value. |
| Auth.NoPayloadMeansExpired | src/lib/auth.ts:16-35 | When `getTokenPayload` gives nothing, `isTokenExpired` says expired, at any time. |
| Auth.MissingExpiryNeverExpires | src/lib/auth.ts:21 | A payload without a numeric `exp` is never expired, however late, and is still returned as the payload. |
| Auth.ExpiryMonotone | src/lib/auth.ts:21 | Once expired, a token stays expired. |
| Auth.UrlSafePayloadCountsExpired | src/lib/auth.ts:20 | As written, a token whose claims segment contains `-` or `_` counts as expired whatever its expiry. |
| Auth.IsTokenExpiredUrlSafe | src/lib/auth.ts:16-25 | The corrected check has the same decision rules, applied after translating the segment to the standard alphabet. |
| Auth.UrlSafeDecodes | src/lib/auth.ts:20 | After translation every base64url segment passes `atob`'s alphabet check. |
| Auth.UrlSafeAgreesOnStandardTokens | src/lib/auth.ts:20 | The corrected check agrees with the original on every token without `-` or `_` in its claims segment. |
| Auth.UrlSafeLiveToken | src/lib/auth.ts:20-21 | With the correction, a well-formed token whose claims decode to a future expiry is live, whichever characters its segment uses. |
| ServiceWorker.Match | public/sw.js:31 | A lookup finds nothing exactly when no cache has the URL. Otherwise it returns the entry of the first cache, in storage order, that holds the URL. |
| ServiceWorker.Put | public/sw.js:36-41 | Storing updates the entry in the cache with the current name, or creates that cache at the end when it is missing. Every other cache is untouched and names stay unique. |
| ServiceWorker.Activate | public/sw.js:8-17 | Activation keeps exactly the caches with the current name, unchanged, and deletes every other one. |
| ServiceWorker.ActivateLookup | public/sw.js:8-17 | After activation, a URL is found exactly when the current cache held it. |
| ServiceWorker.Intercepted | public/sw.js:25-28 | The handler takes over a request exactly when it is a GET whose URL does not contain `/api/`. |
| ServiceWorker.DocumentFallbackAsWritten | public/sw.js:47 | The offline page as written: the `/chat` lookup alone, because the promise on the left of `\|\|` is always truthy. |
| ServiceWorker.DocumentFallback | public/sw.js:46-48 | The evidently intended offline page: the cached chat page, else the cached root page. |
| ServiceWorker.RootFallbackUnreachable | public/sw.js:47 | With only the root page cached, the offline fallback as written answers a navigation with nothing, while the corrected one serves the root page. |
| ServiceWorker.FallbackFindsEitherPage | public/sw.js:46-48 | The corrected fallback answers exactly when the chat page or the root page is cached, and agrees with the code as written whenever the chat page is. |
| ServiceWorker.OnFetch | public/sw.js:21-52 | API and non-GET requests are left to the browser. A cache hit is answered from the cache. On a miss the network answers, and the response is stored only when it is OK and same-origin. When the network fails, documents get whatever the `/chat` lookup gives, possibly nothing, and anything else gets a 503 `Offline` response. |
| ServiceWorker.OnFetchCorrected | public/sw.js:44-50 | The handler with the intended fallback. It behaves exactly as `ServiceWorker.OnFetch` except on an offline navigation, which gets the cached chat page, else the cached root page. |
| ServiceWorker.HitIgnoresNetwork | public/sw.js:31-32 | A cache hit is answered the same whatever the network would do. |
| ServiceWorker.ApiNeverCached | public/sw.js:25 | API traffic is never answered from or written to the cache. |
| ServiceWorker.OfflineAnswers | public/sw.js:44-50 | Offline, as written, a navigation gets exactly the `/chat` lookup, so it gets a page only when the chat page is cached. Any other request gets the 503 response, and nothing is stored. |
| ServiceWorker.OfflineAnswersCorrected | public/sw.js:44-50 | With the correction, an offline navigation gets a page exactly when either page is cached. Whenever the code as written answers, the two handlers agree. |
| ServiceWorker.RootOnlyNavigation | public/sw.js:47 | Offline, with only the root page cached, a navigation to any other page gets nothing from the handler as written and the root page from the corrected one. |
| ServiceWorker.MissThenHit | public/sw.js:34-43 | A storable response fetched on a miss answers the same request from the cache next time, without the network. |
| ServiceWorker.StoredIsFound | public/sw.js:36-41 | After storing into a cache storage that had no entry for the URL, a lookup finds the stored response. |

## Left out

- UTF-8 decoding with `TextDecoder` (src/lib/sse.ts:25, src/hooks/useSiblingEvents.ts:109): chunks are taken as already-decoded text. The decoder is a platform library and is never flushed at the end.
- Releasing the reader lock on every exit path (src/lib/sse.ts:20, 49-51): lock mechanics belong to the streams API and carry no state the model observes.
- `JSON.parse` and most of `atob`: foreign parsers, taken as abstract partial decoders. Of `atob` only its alphabet check is modelled.
- `src/lib/api.ts`, `fetch`, `Response` and HTTP: I/O wrappers whose results appear only as abstract outcomes. Which endpoint a send uses when an image is attached (src/hooks/useSSEChat.ts:71-73) is I/O and is not modelled, and neither is the history page size of 20 (src/hooks/useSSEChat.ts:28).
- `useAuth.ts` and `useCharacterStatus.ts`: network and storage orchestration whose decisions reduce to `Auth.IsTokenExpired` and a wholesale replace of the status.
- Effect timing on the chat page: the history reload and the status copy (src/app/chat/page.tsx:43-54) are modelled as steps that run right after the change that triggers them. A history request for the previous character that resolves after the switch, and so overwrites the new timeline, is not represented. The status hook resetting its own status on a character change (src/hooks/useCharacterStatus.ts:22-27) is not represented either.
- React scheduling: update batching, effect re-runs and the stale `isStreaming` closure (src/hooks/useSSEChat.ts:100). Sends and events are a sequential transition system.
- Cross-effect sharing of refs in the sibling hook: each mounted effect is one `Channel`. Two interleavings are not represented: an old aborted attempt's `finally` resetting the shared connected flag while a newer attempt is live (src/hooks/useSiblingEvents.ts:145-147), and a late rejection from an old effect replacing the new effect's timer. At most one pending timer holds by construction, because the timer is a flag.
- Real timers: the 5000 ms reconnect delay is one abstract step (`Sibling.Fire`).
- Timestamps, `Date.now` and `generateId`: ids are fresh parameters (`idOf` for sibling messages), and timestamps are not represented.
- Message and timeline timestamps, and the nullable history timestamp beyond its presence: no decision depends on them.
- `hormone` levels, `InnerState` fields other than `emotion`, and the documented but unenforced ranges of drowsiness, hunger, fitness and emotion intensity (src/lib/types.ts:67, 73-74, 82): the client never reads or checks them.
- NaN and infinities in the status numbers; JavaScript numbers are reals. NaN is modelled only for the `exp` claim, where the code's outcome depends on it.
- `toLowerCase` beyond ASCII letters: the activity keywords are ASCII or Hangul, and Hangul has no case.
- Keys of `Object.prototype` looked up in the emotion table (for example "constructor"): the table is a plain map.
- The service worker's asynchronous `cache.put` (modelled as immediate), request matching by URL only (no `Vary` or method), and the `install` handler with `skipWaiting` and `clients.claim`.
- Presentation components with no stateable logic (message bubbles, tabs, tool indicator, image preview, login form, layout) and image resizing in `useCamera.ts` (floating-point canvas arithmetic and DOM I/O).
- "Exactly one streaming message while busy" is not an invariant of the code and is not claimed; `Chat.UnterminatedStreamLeavesSpinner` and `Chat.EventsAfterDoneApplied` show why.
- `ChatMessage.role` is declared as `user | assistant` (src/lib/types.ts:93), but the sibling hook builds messages with role `sibling` and extra fields (src/hooks/useSiblingEvents.ts:31-39). The model follows the code: `Types.ChatMessage` has the union of the fields and a `Sibling` role.
- Sse.Body: a failed read carries only its message. The chat hook's catch (src/hooks/useSSEChat.ts:85) would turn a non-`Error` value thrown by the reader into `알 수 없는 오류`. Readers reject with `Error` values in practice, so that branch is modelled only for the request itself (`Chat.Threw`).
- The sibling hook is not mounted by the chat page (src/app/chat/page.tsx:6), so no merged timeline of chat and sibling messages is modelled.

## Findings

| source | as written | input that shows it | evidently intended | confidence | as-written member | corrected member |
|---|---|---|---|---|---|---|
| src/lib/auth.ts:20 | The claims segment is decoded with `atob`, which accepts only the standard base64 alphabet (section 4 of RFC 4648). | A three-segment token whose middle segment contains `-` or `_`, as base64url (section 5 of RFC 4648, required by RFC 7519) produces for some payloads: it counts as expired whatever its `exp`. | Translate `-` to `+` and `_` to `/` before `atob`, so any base64url claims segment decodes. | not executed | Auth.UrlSafePayloadCountsExpired | Auth.UrlSafeLiveToken |
| public/sw.js:47 | `caches.match("/chat") \|\| caches.match("/")`: the left operand is a promise, which is always truthy, so the root page is never tried. | Offline navigation with only `/` cached: the code as written answers with nothing (a network error). | Serve the cached chat page, else the cached root page. | not executed | ServiceWorker.RootOnlyNavigation | ServiceWorker.OfflineAnswersCorrected |
