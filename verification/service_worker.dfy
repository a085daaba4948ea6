/** The caching policy of `public/sw.js`: which requests the worker takes
    over, cache-first answering with storing of good same-origin responses,
    cleanup of old caches on activation, and the offline fallback.

    The cache storage is an ordered list of named caches, each a map from
    URL to response; a lookup searches the caches in order, as
    `caches.match` does. The network is a parameter: the response `fetch`
    resolves to, or nothing when it rejects. */
module ServiceWorker {
  import opened Types
  import opened Text

  /** The one cache this version of the worker keeps. */
  const CacheName: string := "naruen-v2"
  /** Requests whose URL contains this are never intercepted. */
  const ApiMarker: string := "/api/"
  /** The page served for a document request while offline. */
  const ChatPath: string := "/chat"
  /** The page the fallback was evidently meant to try second. */
  const RootPath: string := "/"

  datatype Request = Request(url: string, verb: string, destination: string)

  /** A response: its status, whether the status is in the 2xx range, its
      `type` (`"basic"` for same-origin) and body. */
  datatype Response = Response(ok: bool, status: nat, kind: string, body: string)

  /** `new Response("Offline", { status: 503 })`. */
  const Offline: Response := Response(false, 503, "default", "Offline")

  datatype NamedCache = NamedCache(name: string, entries: map<string, Response>)

  /** Cache names are unique within the storage. */
  ghost predicate UniqueNames(storage: seq<NamedCache>)
  {
    forall i, j :: 0 <= i < j < |storage| ==> storage[i].name != storage[j].name
  }

  // ---------------------------------------------------------------------------
  // Lookup and store

  /** `caches.match`: the entry for `url` in the first cache that has one. */
  function Match(storage: seq<NamedCache>, url: string): (r: Option<Response>)
    ensures r.None? <==> forall i :: 0 <= i < |storage| ==> url !in storage[i].entries
    ensures r.Some? ==> exists i :: 0 <= i < |storage| && url in storage[i].entries &&
                                   storage[i].entries[url] == r.value &&
                                   forall j :: 0 <= j < i ==> url !in storage[j].entries
    decreases |storage|
  {
    if storage == [] then None
    else if url in storage[0].entries then Some(storage[0].entries[url])
    else
      var r := Match(storage[1..], url);
      assert forall i :: 1 <= i < |storage| ==> storage[i] == storage[1..][i - 1];
      r
  }

  /** `caches.open(name)` then `put`: the named cache gets the entry, and is
      created at the end when missing; every other cache is untouched, and
      names stay unique. */
  function Put(storage: seq<NamedCache>, name: string, url: string, resp: Response): (r: seq<NamedCache>)
    requires UniqueNames(storage)
    ensures UniqueNames(r)
    ensures |r| == |storage| || |r| == |storage| + 1
    ensures forall i :: 0 <= i < |storage| && storage[i].name != name ==> r[i] == storage[i]
    ensures forall i :: 0 <= i < |storage| && storage[i].name == name ==>
      r[i] == storage[i].(entries := storage[i].entries[url := resp])
    ensures |r| == |storage| + 1 <==> forall i :: 0 <= i < |storage| ==> storage[i].name != name
    ensures |r| == |storage| + 1 ==> r[|storage|] == NamedCache(name, map[url := resp])
    decreases |storage|
  {
    if storage == [] then [NamedCache(name, map[url := resp])]
    else if storage[0].name == name then
      [storage[0].(entries := storage[0].entries[url := resp])] + storage[1..]
    else
      var tail := Put(storage[1..], name, url, resp);
      assert forall i :: 1 <= i < |storage| ==> storage[i] == storage[1..][i - 1];
      [storage[0]] + tail
  }

  // ---------------------------------------------------------------------------
  // Activation

  /** The `activate` handler: every cache with another name is deleted, the
      current one is kept as it was. */
  function Activate(storage: seq<NamedCache>): (r: seq<NamedCache>)
    ensures forall i :: 0 <= i < |r| ==> r[i].name == CacheName
    ensures forall i :: 0 <= i < |r| ==> r[i] in storage
    ensures forall i :: 0 <= i < |storage| && storage[i].name == CacheName ==> storage[i] in r
    decreases |storage|
  {
    if storage == [] then []
    else
      var rest := Activate(storage[1..]);
      assert forall i :: 1 <= i < |storage| ==> storage[i] == storage[1..][i - 1];
      if storage[0].name == CacheName then [storage[0]] + rest else rest
  }

  /** After activation a lookup answers from the current cache only: an entry
      survives exactly when the current cache held it. */
  lemma ActivateLookup(storage: seq<NamedCache>, url: string)
    requires UniqueNames(storage)
    ensures Match(Activate(storage), url).Some? <==>
      exists i :: 0 <= i < |storage| && storage[i].name == CacheName && url in storage[i].entries
  {
    var r := Activate(storage);
    if Match(r, url).Some? {
      var k :| 0 <= k < |r| && url in r[k].entries;
      var i :| 0 <= i < |storage| && storage[i] == r[k];
      assert storage[i].name == CacheName && url in storage[i].entries;
    }
  }

  // ---------------------------------------------------------------------------
  // Fetch

  /** What the fetch handler does with a request: leave it to the browser, or
      answer it; `None` is an answer that resolves to `undefined`, which the
      browser treats as a network error. */
  datatype Handling = PassThrough | Respond(response: Option<Response>)

  /** The handling and the cache storage afterwards. */
  datatype Handled = Handled(handling: Handling, storage: seq<NamedCache>)

  /** The handler takes over every GET request, cross-origin ones included,
      whose URL does not contain the API marker. */
  predicate Intercepted(req: Request)
  {
    !Includes(req.url, ApiMarker) && req.verb == "GET"
  }

  /** A response worth keeping: successful and same-origin. */
  predicate Storable(resp: Response)
  {
    resp.ok && resp.kind == "basic"
  }

  /** The offline answer for a document, as written: `caches.match("/chat")`
      is a promise, and a promise is always truthy, so the alternative after
      `||` is never evaluated. */
  function DocumentFallbackAsWritten(storage: seq<NamedCache>): Option<Response>
  {
    Match(storage, ChatPath)
  }

  /** The evidently intended offline answer: the cached chat page, else the
      cached root page. */
  function DocumentFallback(storage: seq<NamedCache>): Option<Response>
  {
    match Match(storage, ChatPath)
    case Some(page) => Some(page)
    case None => Match(storage, RootPath)
  }

  /** With only the root page cached, the code as written answers an offline
      navigation with nothing, while the root page was available. */
  lemma RootFallbackUnreachable(page: Response)
    ensures var storage := [NamedCache(CacheName, map[RootPath := page])];
      && DocumentFallbackAsWritten(storage).None?
      && DocumentFallback(storage) == Some(page)
  {
    var storage := [NamedCache(CacheName, map[RootPath := page])];
    assert ChatPath !in storage[0].entries;
    assert RootPath in storage[0].entries;
  }

  /** The intended fallback answers whenever either page is cached, and
      agrees with the code as written whenever the chat page is. */
  lemma FallbackFindsEitherPage(storage: seq<NamedCache>)
    ensures DocumentFallback(storage).Some? <==> Match(storage, ChatPath).Some? || Match(storage, RootPath).Some?
    ensures Match(storage, ChatPath).Some? ==> DocumentFallback(storage) == DocumentFallbackAsWritten(storage)
  {
  }

  /** The `fetch` handler as written. Cache first; on a miss the network
      answers and a storable response is put into the current cache; when
      the network fails, documents get whatever the `/chat` lookup gives
      (`DocumentFallbackAsWritten`) and everything else the 503 offline
      response. */
  function OnFetch(storage: seq<NamedCache>, req: Request, network: Option<Response>): (h: Handled)
    requires UniqueNames(storage)
    ensures !Intercepted(req) ==> h == Handled(PassThrough, storage)
    ensures Intercepted(req) && Match(storage, req.url).Some? ==>
      h == Handled(Respond(Match(storage, req.url)), storage)
    ensures Intercepted(req) && Match(storage, req.url).None? && network.Some? ==>
      && h.handling == Respond(network)
      && h.storage == (if Storable(network.value) then Put(storage, CacheName, req.url, network.value) else storage)
    ensures Intercepted(req) && Match(storage, req.url).None? && network.None? ==>
      && h.storage == storage
      && h.handling == Respond(if req.destination == "document" then Match(storage, ChatPath) else Some(Offline))
  {
    if !Intercepted(req) then Handled(PassThrough, storage)
    else match Match(storage, req.url)
      case Some(cached) => Handled(Respond(Some(cached)), storage)
      case None =>
        match network
        case Some(resp) =>
          Handled(Respond(Some(resp)), if Storable(resp) then Put(storage, CacheName, req.url, resp) else storage)
        case None =>
          Handled(Respond(if req.destination == "document" then DocumentFallbackAsWritten(storage) else Some(Offline)),
                  storage)
  }

  /** The offline navigation case, where the two handlers differ. */
  predicate OfflineNavigation(storage: seq<NamedCache>, req: Request, network: Option<Response>)
  {
    Intercepted(req) && Match(storage, req.url).None? && network.None? && req.destination == "document"
  }

  /** The handler with the evidently intended fallback: it behaves exactly as
      the code as written except on an offline navigation, which gets the
      cached chat page, else the cached root page. */
  function OnFetchCorrected(storage: seq<NamedCache>, req: Request, network: Option<Response>): (h: Handled)
    requires UniqueNames(storage)
    ensures !OfflineNavigation(storage, req, network) ==> h == OnFetch(storage, req, network)
    ensures OfflineNavigation(storage, req, network) ==>
      h == Handled(Respond(DocumentFallback(storage)), storage)
  {
    if OfflineNavigation(storage, req, network) then Handled(Respond(DocumentFallback(storage)), storage)
    else OnFetch(storage, req, network)
  }

  /** A cache hit is answered without looking at the network: any two network
      outcomes give the same handling. */
  lemma HitIgnoresNetwork(storage: seq<NamedCache>, req: Request, a: Option<Response>, b: Option<Response>)
    requires UniqueNames(storage)
    requires Intercepted(req) && Match(storage, req.url).Some?
    ensures OnFetch(storage, req, a) == OnFetch(storage, req, b)
  {
  }

  /** Offline, as written: a navigation is answered with the cached chat
      page or with nothing, whatever else is cached; any other request gets
      the 503 offline response; nothing is stored. */
  lemma OfflineAnswers(storage: seq<NamedCache>, req: Request)
    requires UniqueNames(storage)
    requires Intercepted(req) && Match(storage, req.url).None?
    ensures OnFetch(storage, req, None).storage == storage
    ensures req.destination == "document" ==> OnFetch(storage, req, None).handling == Respond(Match(storage, ChatPath))
    ensures req.destination != "document" ==> OnFetch(storage, req, None).handling == Respond(Some(Offline))
  {
  }

  /** Offline, with the correction: a navigation is answered with a page
      exactly when either page is cached, and whenever the code as written
      would also answer, the two answers agree. */
  lemma OfflineAnswersCorrected(storage: seq<NamedCache>, req: Request)
    requires UniqueNames(storage)
    requires Intercepted(req) && Match(storage, req.url).None? && req.destination == "document"
    ensures OnFetchCorrected(storage, req, None).storage == storage
    ensures OnFetchCorrected(storage, req, None).handling.response.Some? <==>
      Match(storage, ChatPath).Some? || Match(storage, RootPath).Some?
    ensures OnFetch(storage, req, None).handling.response.Some? ==>
      OnFetchCorrected(storage, req, None) == OnFetch(storage, req, None)
  {
    FallbackFindsEitherPage(storage);
  }

  /** The finding at the level of the handler: offline, with only the root
      page cached, a navigation to any other page gets nothing from the code
      as written and the root page from the corrected handler. */
  lemma RootOnlyNavigation(page: Response, req: Request)
    requires Intercepted(req) && req.destination == "document" && req.url != RootPath
    ensures var storage := [NamedCache(CacheName, map[RootPath := page])];
      && OnFetch(storage, req, None).handling == Respond(None)
      && OnFetchCorrected(storage, req, None).handling == Respond(Some(page))
  {
    var storage := [NamedCache(CacheName, map[RootPath := page])];
    assert req.url !in storage[0].entries;
    RootFallbackUnreachable(page);
  }

  /** API traffic is never answered from or written to the cache. */
  lemma ApiNeverCached(storage: seq<NamedCache>, req: Request, network: Option<Response>)
    requires UniqueNames(storage)
    requires Includes(req.url, ApiMarker)
    ensures OnFetch(storage, req, network) == Handled(PassThrough, storage)
  {
  }

  /** A storable response fetched on a miss answers the same request from the
      cache the next time, without the network. */
  lemma MissThenHit(storage: seq<NamedCache>, req: Request, resp: Response, later: Option<Response>)
    requires UniqueNames(storage)
    requires Intercepted(req) && Match(storage, req.url).None? && Storable(resp)
    ensures var after := OnFetch(storage, req, Some(resp)).storage;
      OnFetch(after, req, later).handling == Respond(Some(resp))
  {
    var after := Put(storage, CacheName, req.url, resp);
    StoredIsFound(storage, req.url, resp);
  }

  /** After a put into a storage that had no entry for `url`, the lookup finds
      the new entry. */
  lemma StoredIsFound(storage: seq<NamedCache>, url: string, resp: Response)
    requires UniqueNames(storage)
    requires Match(storage, url).None?
    ensures Match(Put(storage, CacheName, url, resp), url) == Some(resp)
  {
    if exists j :: 0 <= j < |storage| && storage[j].name == CacheName {
      var j :| 0 <= j < |storage| && storage[j].name == CacheName;
      StoredInExisting(storage, url, resp, j);
    } else {
      StoredInNew(storage, url, resp);
    }
  }

  /** The put went into the existing cache at `j`. */
  lemma StoredInExisting(storage: seq<NamedCache>, url: string, resp: Response, j: nat)
    requires UniqueNames(storage)
    requires forall i :: 0 <= i < |storage| ==> url !in storage[i].entries
    requires j < |storage| && storage[j].name == CacheName
    ensures Match(Put(storage, CacheName, url, resp), url) == Some(resp)
  {
    var after := Put(storage, CacheName, url, resp);
    assert |after| == |storage|;
    assert after[j] == storage[j].(entries := storage[j].entries[url := resp]);
    forall i | 0 <= i < |after| && i != j ensures url !in after[i].entries {
      assert after[i] == storage[i];
    }
    OnlyOneHolds(after, url, resp, j);
  }

  /** The put created the cache at the end. */
  lemma StoredInNew(storage: seq<NamedCache>, url: string, resp: Response)
    requires UniqueNames(storage)
    requires forall i :: 0 <= i < |storage| ==> url !in storage[i].entries
    requires forall i :: 0 <= i < |storage| ==> storage[i].name != CacheName
    ensures Match(Put(storage, CacheName, url, resp), url) == Some(resp)
  {
    var after := Put(storage, CacheName, url, resp);
    assert |after| == |storage| + 1;
    assert after[|storage|] == NamedCache(CacheName, map[url := resp]);
    forall i | 0 <= i < |after| && i != |storage| ensures url !in after[i].entries {
      assert after[i] == storage[i];
    }
    OnlyOneHolds(after, url, resp, |storage|);
  }

  /** When exactly one cache has an entry for `url`, the lookup returns it. */
  lemma OnlyOneHolds(caches: seq<NamedCache>, url: string, resp: Response, j: nat)
    requires j < |caches| && url in caches[j].entries && caches[j].entries[url] == resp
    requires forall i :: 0 <= i < |caches| && i != j ==> url !in caches[i].entries
    ensures Match(caches, url) == Some(resp)
  {
    var r := Match(caches, url);
    var i :| 0 <= i < |caches| && url in caches[i].entries && caches[i].entries[url] == r.value;
    assert i == j;
  }
}
