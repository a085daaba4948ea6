/** The stream decoder of `src/lib/sse.ts`: decoded text accumulates in a
    buffer that is split on blank lines; complete frames are parsed as they
    appear, the trailing fragment waits for the next chunk, and whatever is
    left is parsed once more at end of stream.

    The buffer loop (`Feed`, `ReadChunks`, `EmitPart`) is generic in the event
    type because the sibling channel repeats the same loop with its own frame
    parser. */
module Sse {
  import opened Types
  import opened Text

  /** Frames are separated by one blank line, and by nothing else. */
  const FrameSeparator: string := "\n\n"
  const LineSeparator: string := "\n"
  /** A data line must start with exactly this text, space included. */
  const DataPrefix: string := "data: "

  // ---------------------------------------------------------------------------
  // Fields inside a frame

  /** Line `i` is the last line of `lines` that starts with `prefix`. */
  ghost predicate LastWith(lines: seq<string>, prefix: string, i: int)
  {
    && 0 <= i < |lines|
    && StartsWith(lines[i], prefix)
    && forall j :: i < j < |lines| ==> !StartsWith(lines[j], prefix)
  }

  ghost predicate NoneWith(lines: seq<string>, prefix: string)
  {
    forall j :: 0 <= j < |lines| ==> !StartsWith(lines[j], prefix)
  }

  /** The frame-parsing loop: every line starting with `prefix` overwrites the
      field, so the result is the text after the prefix on the LAST such line,
      or `acc` when there is none. Earlier lines are not joined in. */
  function LastField(lines: seq<string>, prefix: string, acc: string): (v: string)
    ensures NoneWith(lines, prefix) ==> v == acc
    ensures forall i :: LastWith(lines, prefix, i) ==> v == lines[i][|prefix|..]
    decreases |lines|
  {
    if lines == [] then acc
    else
      var acc' := if StartsWith(lines[0], prefix) then lines[0][|prefix|..] else acc;
      var v := LastField(lines[1..], prefix, acc');
      assert forall i :: LastWith(lines, prefix, i) && i > 0 ==> LastWith(lines[1..], prefix, i - 1);
      assert NoneWith(lines, prefix) ==> NoneWith(lines[1..], prefix);
      assert LastWith(lines, prefix, 0) ==> NoneWith(lines[1..], prefix);
      v
  }

  /** `parseSSEEvent`: the payload of the last `data: ` line is decoded; a
      frame without such a line, or whose last one is empty, yields nothing,
      and a payload the decoder rejects yields nothing. */
  function ParseSSEEvent(raw: string, decode: string -> Option<SSEEvent>): (r: Option<SSEEvent>)
    ensures NoneWith(Split(raw, LineSeparator), DataPrefix) ==> r == None
    ensures forall i :: LastWith(Split(raw, LineSeparator), DataPrefix, i) ==>
      var payload := Split(raw, LineSeparator)[i][|DataPrefix|..];
      r == (if payload == "" then None else decode(payload))
  {
    var data := LastField(Split(raw, LineSeparator), DataPrefix, "");
    if data == "" then None else decode(data)
  }

  // ---------------------------------------------------------------------------
  // The buffer loop

  /** One frame of the buffer: trimmed, skipped when blank, otherwise handed
      to the frame parser; at most one event comes out. */
  function EmitPart<E>(part: string, parse: string -> Option<E>): (es: seq<E>)
    ensures |es| <= 1
  {
    var trimmed := Trim(part);
    if trimmed == "" then []
    else
      match parse(trimmed)
      case None => []
      case Some(e) => [e]
  }

  /** A blank frame yields nothing; any other frame yields exactly what the
      frame parser makes of its trimmed text. */
  lemma EmitPartSpec<E>(part: string, parse: string -> Option<E>)
    ensures AllSpace(part) ==> EmitPart(part, parse) == []
    ensures !AllSpace(part) ==>
      EmitPart(part, parse) == (match parse(Trim(part)) case None => [] case Some(e) => [e])
  {
  }

  /** The events of a run of frames, frame by frame. */
  function EmitAll<E>(parts: seq<string>, parse: string -> Option<E>): (es: seq<E>)
    ensures |es| <= |parts|
    decreases |parts|
  {
    if parts == [] then [] else EmitPart(parts[0], parse) + EmitAll(parts[1..], parse)
  }

  /** Frames keep their order: the events of two consecutive runs of frames
      are the first run's events followed by the second run's. */
  lemma {:induction false} EmitAllAppend<E>(a: seq<string>, b: seq<string>, parse: string -> Option<E>)
    ensures EmitAll(a + b, parse) == EmitAll(a, parse) + EmitAll(b, parse)
    decreases |a|
  {
    if a == [] {
      assert a + b == b;
    } else {
      assert (a + b)[1..] == a[1..] + b;
      EmitAllAppend(a[1..], b, parse);
    }
  }

  /** The reference decoding of a complete text: every frame, the last one
      included, in order. */
  function TextEvents<E>(text: string, parse: string -> Option<E>): seq<E>
  {
    EmitAll(Split(text, FrameSeparator), parse)
  }

  /** The buffer after a read and the events that read produced. */
  datatype Fed<E> = Fed(buffer: string, events: seq<E>)

  /** One read: the chunk is appended to the buffer, the result is split on
      the separator, the last piece is held back and every other piece is
      parsed. The held-back piece never contains a separator and is the end
      of the text seen so far. */
  function Feed<E>(buffer: string, chunk: string, parse: string -> Option<E>): (f: Fed<E>)
    ensures Free(f.buffer, FrameSeparator)
    ensures |f.buffer| <= |buffer + chunk|
    ensures f.buffer == (buffer + chunk)[|buffer + chunk| - |f.buffer|..]
  {
    var parts := Split(buffer + chunk, FrameSeparator);
    SplitPartsFree(buffer + chunk, FrameSeparator);
    SplitJoin(buffer + chunk, FrameSeparator);
    JoinEndsWithLast(parts, FrameSeparator);
    Fed(Last(parts), EmitAll(Init(parts), parse))
  }

  /** The last part is the tail of the joined text. */
  lemma {:induction false} JoinEndsWithLast(parts: seq<string>, sep: string)
    requires |parts| >= 1
    ensures |Last(parts)| <= |Join(parts, sep)|
    ensures Last(parts) == Join(parts, sep)[|Join(parts, sep)| - |Last(parts)|..]
    decreases |parts|
  {
    if |parts| > 1 {
      JoinEndsWithLast(parts[1..], sep);
      assert Last(parts[1..]) == Last(parts);
      var j := Join(parts[1..], sep);
      assert Join(parts, sep) == (parts[0] + sep) + j;
    }
  }

  /** The read loop over the chunks the body delivers, before end of stream.
      Once a chunk has been read, the held-back buffer never holds a whole
      separator. */
  function ReadChunks<E>(buffer: string, chunks: seq<string>, parse: string -> Option<E>): (f: Fed<E>)
    ensures chunks != [] || Free(buffer, FrameSeparator) ==> Free(f.buffer, FrameSeparator)
    decreases |chunks|
  {
    if chunks == [] then Fed(buffer, [])
    else
      var first := Feed(buffer, chunks[0], parse);
      var rest := ReadChunks(first.buffer, chunks[1..], parse);
      Fed(rest.buffer, first.events + rest.events)
  }

  /** All chunks glued together. */
  function Concat(chunks: seq<string>): string
    decreases |chunks|
  {
    if chunks == [] then "" else chunks[0] + Concat(chunks[1..])
  }

  /** What the read loop has produced from `text`, starting with an empty
      buffer: the events of every complete frame, and the unterminated rest
      as the buffer. */
  ghost predicate ReadLaw<E>(buffer: string, chunks: seq<string>, parse: string -> Option<E>)
  {
    var f := ReadChunks(buffer, chunks, parse);
    var parts := Split(buffer + Concat(chunks), FrameSeparator);
    f.events == EmitAll(Init(parts), parse) && f.buffer == Last(parts)
  }

  lemma InitLastAppend<T>(a: seq<T>, b: seq<T>)
    requires |b| >= 1
    ensures Init(a + b) == a + Init(b)
    ensures Last(a + b) == Last(b)
  {
    assert (a + b)[..|a + b| - 1] == a + b[..|b| - 1];
  }

  /** The buffer followed by all chunks is the buffer extended by the first
      chunk, followed by the remaining chunks. */
  lemma ConcatCons(buffer: string, chunks: seq<string>)
    requires chunks != []
    ensures buffer + Concat(chunks) == (buffer + chunks[0]) + Concat(chunks[1..])
  {
  }

  /** Inductive step of `ReadChunksSpec`: one more chunk in front. */
  lemma ReadChunksStep<E>(buffer: string, chunks: seq<string>, parse: string -> Option<E>)
    requires chunks != []
    requires ReadLaw(Feed(buffer, chunks[0], parse).buffer, chunks[1..], parse)
    ensures ReadLaw(buffer, chunks, parse)
  {
    var c := chunks[0];
    var rest := Concat(chunks[1..]);
    var s1 := Split(buffer + c, FrameSeparator);
    var tail := Split(Last(s1) + rest, FrameSeparator);
    var r := ReadChunks(Last(s1), chunks[1..], parse);
    assert r.events == EmitAll(Init(tail), parse) && r.buffer == Last(tail);
    SplitAppend(buffer + c, rest, FrameSeparator);
    ConcatCons(buffer, chunks);
    var whole := Split(buffer + Concat(chunks), FrameSeparator);
    assert whole == Init(s1) + tail;
    InitLastAppend(Init(s1), tail);
    EmitAllAppend(Init(s1), Init(tail), parse);
    var f := ReadChunks(buffer, chunks, parse);
    assert f.events == EmitAll(Init(s1), parse) + r.events;
    assert f.buffer == r.buffer;
  }

  /** The read loop's result depends only on the text delivered so far, not
      on where the chunk boundaries fell. */
  lemma {:induction false} ReadChunksSpec<E>(buffer: string, chunks: seq<string>, parse: string -> Option<E>)
    requires Free(buffer, FrameSeparator)
    ensures ReadChunks(buffer, chunks, parse).events
         == EmitAll(Init(Split(buffer + Concat(chunks), FrameSeparator)), parse)
    ensures ReadChunks(buffer, chunks, parse).buffer
         == Last(Split(buffer + Concat(chunks), FrameSeparator))
    decreases |chunks|
  {
    if chunks == [] {
      assert buffer + Concat(chunks) == buffer;
      SplitOfFree(buffer, FrameSeparator);
    } else {
      ReadChunksSpec(Feed(buffer, chunks[0], parse).buffer, chunks[1..], parse);
      ReadChunksStep(buffer, chunks, parse);
    }
  }

  /** Flushing the held-back fragment after the complete frames gives the
      events of every frame. */
  lemma FlushCompletes<E>(parts: seq<string>, parse: string -> Option<E>)
    requires |parts| >= 1
    ensures EmitAll(Init(parts), parse) + EmitPart(Last(parts), parse) == EmitAll(parts, parse)
  {
    InitThenLast(parts);
    EmitAllSnoc(Init(parts), Last(parts), parse);
  }

  /** One more frame at the end adds that frame's events at the end. */
  lemma EmitAllSnoc<E>(parts: seq<string>, part: string, parse: string -> Option<E>)
    ensures EmitAll(parts + [part], parse) == EmitAll(parts, parse) + EmitPart(part, parse)
  {
    EmitAllAppend(parts, [part], parse);
    assert [part][1..] == [];
  }

  // ---------------------------------------------------------------------------
  // `parseSSEStream`

  /** The body's chunks (already decoded to text) and, when reading fails
      part-way, the error the failing read throws. */
  datatype Body = Body(chunks: seq<string>, readError: Option<string>)

  datatype Response = Response(ok: bool, status: nat, statusText: string, body: Option<Body>)

  /** What the consumer of the generator sees: the events yielded, then
      either normal completion or the error the generator throws. */
  datatype Decoded<E> = Decoded(events: seq<E>, failure: Option<string>)

  /** The frame parser `parseSSEStream` uses. */
  function ChatFrame(decode: string -> Option<SSEEvent>): string -> Option<SSEEvent>
  {
    raw => ParseSSEEvent(raw, decode)
  }

  /** `parseSSEStream`. A non-ok response or a missing body fails before any
      event. Otherwise, when the body ends normally, the events are exactly
      those of the whole delivered text read as one chunk, the final
      unterminated frame included; when a read fails, the events of the
      complete frames before the failure are yielded and then the error. */
  function ParseSSEStream(resp: Response, decode: string -> Option<SSEEvent>): (d: Decoded<SSEEvent>)
    ensures !resp.ok ==>
      d.events == [] && d.failure == Some("HTTP " + Decimal(resp.status) + ": " + resp.statusText)
    ensures resp.ok && resp.body.None? ==>
      d.events == [] && d.failure == Some("Response body is null")
    ensures resp.ok && resp.body.Some? && resp.body.value.readError.None? ==>
      d.failure == None
      && d.events == TextEvents(Concat(resp.body.value.chunks), ChatFrame(decode))
    ensures resp.ok && resp.body.Some? && resp.body.value.readError.Some? ==>
      d.failure == resp.body.value.readError
      && d.events == EmitAll(Init(Split(Concat(resp.body.value.chunks), FrameSeparator)), ChatFrame(decode))
  {
    if !resp.ok then
      Decoded([], Some("HTTP " + Decimal(resp.status) + ": " + resp.statusText))
    else if resp.body.None? then
      Decoded([], Some("Response body is null"))
    else
      var parse := ChatFrame(decode);
      var body := resp.body.value;
      var read := ReadChunks("", body.chunks, parse);
      ReadChunksSpec("", body.chunks, parse);
      assert "" + Concat(body.chunks) == Concat(body.chunks);
      FlushCompletes(Split(Concat(body.chunks), FrameSeparator), parse);
      match body.readError
      case None => Decoded(read.events + EmitPart(read.buffer, parse), None)
      case Some(e) => Decoded(read.events, Some(e))
  }

  /** Chunk independence: two bodies that deliver the same text, however it
      is cut into chunks, decode to the same events and the same failure,
      whether or not reading fails at the end. */
  lemma ChunkIndependence(ok: bool, status: nat, statusText: string, a: seq<string>, b: seq<string>,
                          readError: Option<string>, decode: string -> Option<SSEEvent>)
    requires Concat(a) == Concat(b)
    ensures ParseSSEStream(Response(ok, status, statusText, Some(Body(a, readError))), decode)
         == ParseSSEStream(Response(ok, status, statusText, Some(Body(b, readError))), decode)
  {
  }

  /** In particular, any chunking decodes like the whole text delivered as a
      single chunk. */
  lemma SingleChunkEquivalent(ok: bool, status: nat, statusText: string, chunks: seq<string>,
                              readError: Option<string>, decode: string -> Option<SSEEvent>)
    ensures ParseSSEStream(Response(ok, status, statusText, Some(Body(chunks, readError))), decode)
         == ParseSSEStream(Response(ok, status, statusText, Some(Body([Concat(chunks)], readError))), decode)
  {
    var whole := [Concat(chunks)];
    assert Concat(whole) == Concat(chunks) + Concat(whole[1..]);
    assert whole[1..] == [];
    ChunkIndependence(ok, status, statusText, chunks, whole, readError, decode);
  }

  /** A final frame with no blank line after it is still decoded at end of
      stream: when the text after the last separator is non-blank and
      parses, its event comes last, after the events of the complete
      frames. */
  lemma TrailingFrameDecoded(status: nat, statusText: string, chunks: seq<string>, e: SSEEvent,
                             decode: string -> Option<SSEEvent>)
    requires var tail := Last(Split(Concat(chunks), FrameSeparator));
      !AllSpace(tail) && ParseSSEEvent(Trim(tail), decode) == Some(e)
    ensures ParseSSEStream(Response(true, status, statusText, Some(Body(chunks, None))), decode).events
         == EmitAll(Init(Split(Concat(chunks), FrameSeparator)), ChatFrame(decode)) + [e]
  {
    var parts := Split(Concat(chunks), FrameSeparator);
    var parse := ChatFrame(decode);
    assert parse(Trim(Last(parts))) == Some(e);
    TrailingEvent(parts, parse, e);
    CompleteBodyEvents(status, statusText, chunks, decode);
  }

  /** A non-blank last frame that parses contributes the last event. */
  lemma TrailingEvent<E>(parts: seq<string>, parse: string -> Option<E>, e: E)
    requires |parts| >= 1 && !AllSpace(Last(parts)) && parse(Trim(Last(parts))) == Some(e)
    ensures EmitAll(parts, parse) == EmitAll(Init(parts), parse) + [e]
  {
    FlushCompletes(parts, parse);
    EmitPartSpec(Last(parts), parse);
  }

  /** A complete body's events are those of every frame of its text. */
  lemma CompleteBodyEvents(status: nat, statusText: string, chunks: seq<string>, decode: string -> Option<SSEEvent>)
    ensures ParseSSEStream(Response(true, status, statusText, Some(Body(chunks, None))), decode).events
         == EmitAll(Split(Concat(chunks), FrameSeparator), ChatFrame(decode))
  {
  }

  /** A malformed payload is dropped and the frames after it still produce
      their events, in order. */
  lemma MalformedFrameSkipped<E>(before: seq<string>, bad: string, after: seq<string>, parse: string -> Option<E>)
    requires parse(Trim(bad)).None?
    ensures EmitAll(before + [bad] + after, parse) == EmitAll(before, parse) + EmitAll(after, parse)
  {
    EmitAllAppend(before + [bad], after, parse);
    EmitAllAppend(before, [bad], parse);
  }
}
