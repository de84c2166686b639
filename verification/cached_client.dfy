/** The cached-request engine: one call reads the cache envelope, consults
    the cache policy, sends zero or one request, sorts the outcome into
    fresh-from-cache, not-modified or modified-or-new, and then decodes the
    cached bytes, rewrites the envelope, or runs the response callback once
    and stores what it returns.

    Every call is a pure function of its inputs: the request, the
    cache-control mode, the answers of the file system, the transport and the
    clock (`Io`), the answers of the cache policy (`PolicyOracle`), the
    payload's `Cacheable` capability and the callback. It returns the result
    together with the trace of effects it caused. */
module CachedClient {
  import opened Base
  import opened Http
  import opened Policy
  import opened Envelope
  import opened Effects
  import opened Payload

  /** How fresh a higher layer considers an entry to be. */
  datatype Freshness = Fresh | Stale | Missing

  /** The caller's cache-control mode: `Respect` (the source's
      `CacheControl::None`) honours the response's own cache-control headers,
      `MustRevalidate` forces revalidation of a cached entry. */
  datatype CacheControl = Respect | MustRevalidate

  /** `From<Freshness> for CacheControl`: only a stale entry is forced to
      revalidate. */
  function FromFreshness(f: Freshness): (c: CacheControl)
    ensures c == MustRevalidate <==> f == Stale
    ensures c == Respect <==> f == Fresh || f == Missing
  {
    match f
    case Fresh => Respect
    case Stale => MustRevalidate
    case Missing => Respect
  }

  /** The mode applied to the request shown to the cache policy:
      `MustRevalidate` sets exactly `cache-control: max-age=0, must-revalidate`
      and keeps every other header; `Respect` changes nothing. */
  function ApplyCacheControl(req: Request, mode: CacheControl): (r: Request)
    ensures r.verb == req.verb && r.url == req.url
    ensures mode == Respect ==> r == req
    ensures mode == MustRevalidate ==>
      && CACHE_CONTROL in r.headers
      && r.headers[CACHE_CONTROL] == MAX_AGE_ZERO_MUST_REVALIDATE
      && r.headers.Keys == req.headers.Keys + {CACHE_CONTROL}
      && forall k :: k in req.headers && k != CACHE_CONTROL ==> r.headers[k] == req.headers[k]
  {
    match mode
    case Respect => req
    case MustRevalidate =>
      req.(headers := Insert(req.headers, CACHE_CONTROL, MAX_AGE_ZERO_MUST_REVALIDATE))
  }

  /** The outcome of one cache lookup. */
  datatype CachedResponse =
    | FreshCache(data: Bytes)
    | NotModified(envelope: DataWithCachePolicy)
    | ModifiedOrNew(response: Response, policy: Option<CachePolicy>)

  /** The three readings of the wall clock a lookup takes: for the immutable
      check, for `before_request` and for `after_response`. */
  datatype Clock = Clock(atImmutableCheck: Instant, atBeforeRequest: Instant, atAfterResponse: Instant)

  /** The transport's answer to a request: a failure inside the client
      middleware (after its retries), or a response. */
  datatype Transport = MiddlewareFailure | Received(response: Response)

  /** The answers of the world outside the engine for one call. */
  datatype Io = Io(
    file: FileState,
    requestConverts: bool,
    execute: Request -> Transport,
    clock: Clock,
    createDirSucceeds: bool,
    envelopeEncodes: bool,
    writeSucceeds: bool,
    removeSucceeds: bool)

  /** Read the cache file: a decoded envelope is a hit; an unreadable file is
      a miss; a file that does not decode is removed and is a miss too,
      whether or not the removal succeeds. */
  function ReadCache(file: FileState, removeSucceeds: bool): (r: Traced<Option<DataWithCachePolicy>>)
    ensures r.result.Some? <==> file.Stored?
    ensures r.result.Some? ==> r.result.value == file.envelope
    ensures |r.trace| <= 1 && (|r.trace| == 1 <==> file.Corrupt?)
    ensures forall i :: 0 <= i < |r.trace| ==> r.trace[i] == RemoveEntry(removeSucceeds)
  {
    match file
    case Stored(env) => Traced(Some(env), [])
    case Corrupt => Traced(None, [RemoveEntry(removeSucceeds)])
    case Unreadable => Traced(None, [])
  }

  /** The answer to `req` after `error_for_status`. */
  function Answer(io: Io, req: Request): (r: Result<Response, Error>)
    ensures r.Ok? <==> io.execute(req).Received? && !IsErrorStatus(io.execute(req).response.status)
    ensures r.Ok? ==> r.value == io.execute(req).response
    ensures io.execute(req).MiddlewareFailure? ==> r == Err(RequestMiddlewareError)
    ensures io.execute(req).Received? && IsErrorStatus(io.execute(req).response.status) ==>
      r == Err(RequestError(ErrorStatus(io.execute(req).response.status)))
  {
    match io.execute(req)
    case MiddlewareFailure => Err(RequestMiddlewareError)
    case Received(res) =>
      if IsErrorStatus(res.status) then Err(RequestError(ErrorStatus(res.status))) else Ok(res)
  }

  /** `fresh_request`: send `req` unchanged and build a new policy from the
      exchange, kept only when storable. */
  function FreshRequest(req: Request, converted: Request, io: Io, oracle: PolicyOracle)
    : (r: Traced<Result<CachedResponse, Error>>)
    ensures r.trace == [Send(req)]
    ensures r.result.Err? ==> Answer(io, req) == Err(r.result.error)
    ensures r.result.Ok? ==>
      && Answer(io, req).Ok?
      && r.result.value == ModifiedOrNew(
           Answer(io, req).value,
           KeepIfStorable(oracle, oracle.create(converted, Parts(Answer(io, req).value))))
  {
    match Answer(io, req)
    case Err(e) => Traced(Err(e), [Send(req)])
    case Ok(res) =>
      var policy := oracle.create(converted, Parts(res));
      Traced(Ok(ModifiedOrNew(res, KeepIfStorable(oracle, policy))), [Send(req)])
  }

  /** The revalidation request: the original request with the policy's
      conditional headers inserted. */
  function Conditional(req: Request, revalidation: Request): (r: Request)
    ensures r.verb == req.verb && r.url == req.url
    ensures r.headers.Keys == req.headers.Keys + revalidation.headers.Keys
    ensures forall k :: k in revalidation.headers ==> r.headers[k] == revalidation.headers[k]
    ensures forall k :: k in req.headers && k !in revalidation.headers ==> r.headers[k] == req.headers[k]
  {
    req.(headers := InsertAll(req.headers, revalidation.headers))
  }

  /** Revalidate a stale `entry`: send one conditional request and let the
      policy judge the response. A not-modified answer keeps the cached bytes
      under the refreshed policy, with immutability read from the
      revalidation response. */
  function Revalidate(req: Request, converted: Request, entry: DataWithCachePolicy,
                      revalidation: Request, io: Io, oracle: PolicyOracle)
    : (r: Traced<Result<CachedResponse, Error>>)
    ensures r.trace == [Send(Conditional(req, revalidation))]
    ensures r.result.Err? ==> Answer(io, Conditional(req, revalidation)) == Err(r.result.error)
    ensures r.result.Ok? <==> Answer(io, Conditional(req, revalidation)).Ok?
    // the policy judges the conditional request as the cache mode shaped it
    ensures r.result.Ok? ==>
      var res := Answer(io, Conditional(req, revalidation)).value;
      var verdict := oracle.afterResponse(entry.cachePolicy, Conditional(converted, revalidation),
                                          Parts(res), io.clock.atAfterResponse);
      && (verdict.NotModifiedVerdict? ==>
            r.result.value == NotModified(
              DataWithCachePolicy(entry.data, oracle.isImmutable(res.headers), verdict.policy)))
      && (verdict.ModifiedVerdict? ==>
            r.result.value == ModifiedOrNew(res, KeepIfStorable(oracle, verdict.policy)))
    ensures r.result.Ok? && r.result.value.NotModified? ==>
      var res := Answer(io, Conditional(req, revalidation)).value;
      && r.result.value.envelope.data == entry.data
      && r.result.value.envelope.immutable == oracle.isImmutable(res.headers)
      && oracle.afterResponse(entry.cachePolicy, Conditional(converted, revalidation), Parts(res),
                              io.clock.atAfterResponse)
         == NotModifiedVerdict(r.result.value.envelope.cachePolicy)
    ensures r.result.Ok? ==> !r.result.value.FreshCache?
  {
    var sent := Conditional(req, revalidation);
    var shown := Conditional(converted, revalidation);
    match Answer(io, sent)
    case Err(e) => Traced(Err(e), [Send(sent)])
    case Ok(res) =>
      var outcome :=
        match oracle.afterResponse(entry.cachePolicy, shown, Parts(res), io.clock.atAfterResponse)
        case NotModifiedVerdict(policy) =>
          NotModified(DataWithCachePolicy(entry.data, oracle.isImmutable(res.headers), policy))
        case ModifiedVerdict(policy) =>
          ModifiedOrNew(res, KeepIfStorable(oracle, policy));
      Traced(Ok(outcome), [Send(sent)])
  }

  /** `send_cached`: decide, from the cached envelope if any, whether to serve
      it, revalidate it, or fetch afresh. */
  function SendCached(req: Request, cacheControl: CacheControl, cached: Option<DataWithCachePolicy>,
                      io: Io, oracle: PolicyOracle)
    : (r: Traced<Result<CachedResponse, Error>>)
    // zero or one request, and no other effect
    ensures |r.trace| <= 1
    ensures forall i :: 0 <= i < |r.trace| ==> r.trace[i].Send?
    // nothing is sent exactly when the cache is served or the request is unusable
    ensures r.trace == [] <==> !io.requestConverts || (r.result.Ok? && r.result.value.FreshCache?)
    ensures !io.requestConverts ==> r.result == Err(RequestError(InvalidRequest))
    // without an envelope the request goes out unchanged
    ensures cached.None? && io.requestConverts ==> r.trace == [Send(req)]
    // every error after the request was sent is the transport's answer
    ensures r.result.Err? && io.requestConverts ==>
      |r.trace| == 1 && Answer(io, r.trace[0].request) == Err(r.result.error)
    ensures r.result.Ok? && r.result.value.FreshCache? ==>
      cached.Some? && r.result.value.data == cached.value.data
    ensures r.result.Ok? && r.result.value.NotModified? ==>
      cached.Some? && r.result.value.envelope.data == cached.value.data
    ensures r.result.Ok? && r.result.value.ModifiedOrNew? ==>
      && |r.trace| == 1
      && Answer(io, r.trace[0].request) == Ok(r.result.value.response)
      && (r.result.value.policy.Some? ==> oracle.isStorable(r.result.value.policy.value))
    // without an envelope, a new policy is built from the request as sent
    ensures cached.None? && r.result.Ok? ==>
      && Answer(io, req).Ok?
      && var res := Answer(io, req).value;
         r.result.value == ModifiedOrNew(res, KeepIfStorable(oracle, oracle.create(req, Parts(res))))
    // an immutable envelope the policy does not call stale is served as it is
    ensures io.requestConverts && cached.Some? && cached.value.immutable
            && !oracle.isStale(cached.value.cachePolicy, io.clock.atImmutableCheck) ==>
      r == Traced(Ok(FreshCache(cached.value.data)), [])
    // otherwise the policy's verdict on the request shaped by the cache mode decides
    ensures io.requestConverts && cached.Some?
            && !(cached.value.immutable && !oracle.isStale(cached.value.cachePolicy, io.clock.atImmutableCheck)) ==>
      var converted := ApplyCacheControl(req, cacheControl);
      var verdict := oracle.beforeRequest(cached.value.cachePolicy, converted, io.clock.atBeforeRequest);
      && (verdict.FreshVerdict? ==> r == Traced(Ok(FreshCache(cached.value.data)), []))
      && (verdict.StaleVerdict? && !verdict.matches ==>
            && r.trace == [Send(req)]
            && (r.result.Ok? ==>
                  && Answer(io, req).Ok?
                  && var res := Answer(io, req).value;
                     r.result.value == ModifiedOrNew(res, KeepIfStorable(oracle, oracle.create(converted, Parts(res))))))
      && (verdict.StaleVerdict? && verdict.matches ==>
            && r.trace == [Send(Conditional(req, verdict.request))]
            && (r.result.Ok? ==>
                  Answer(io, Conditional(req, verdict.request)).Ok? &&
                  var res := Answer(io, Conditional(req, verdict.request)).value;
                  var judged := oracle.afterResponse(cached.value.cachePolicy, Conditional(converted, verdict.request),
                                                     Parts(res), io.clock.atAfterResponse);
                  && (judged.NotModifiedVerdict? ==>
                        r.result.value == NotModified(
                          DataWithCachePolicy(cached.value.data, oracle.isImmutable(res.headers), judged.policy)))
                  && (judged.ModifiedVerdict? ==>
                        r.result.value == ModifiedOrNew(res, KeepIfStorable(oracle, judged.policy)))))
  {
    if !io.requestConverts then Traced(Err(RequestError(InvalidRequest)), [])
    else
      match cached
      case None => FreshRequest(req, req, io, oracle)
      case Some(entry) =>
        if entry.immutable && !oracle.isStale(entry.cachePolicy, io.clock.atImmutableCheck) then
          Traced(Ok(FreshCache(entry.data)), [])
        else
          var converted := ApplyCacheControl(req, cacheControl);
          match oracle.beforeRequest(entry.cachePolicy, converted, io.clock.atBeforeRequest)
          case FreshVerdict => Traced(Ok(FreshCache(entry.data)), [])
          case StaleVerdict(revalidation, matches) =>
            if !matches then FreshRequest(req, converted, io, oracle)
            else Revalidate(req, converted, entry, revalidation, io, oracle)
  }

  /** Turn a lookup outcome into the caller's value: decode cached bytes,
      rewrite a revalidated envelope, or run the callback on a new response
      and store its encoded payload when the policy is storable. */
  function Resolve<P, T, E>(cr: CachedResponse, io: Io, oracle: PolicyOracle,
                            codec: Cacheable<P, T>, callback: Response -> Result<P, E>)
    : (r: Traced<Result<T, CachedClientError<E>>>)
    ensures forall i :: 0 <= i < |r.trace| ==> !r.trace[i].Send? && !r.trace[i].RemoveEntry?
    ensures cr.FreshCache? ==> r.trace == [] && r.result == Lift(codec.fromBytes(cr.data))
    // the callback runs once on a new response, and never otherwise
    ensures cr.ModifiedOrNew? <==> |r.trace| > 0 && r.trace[0].RunCallback?
    ensures cr.ModifiedOrNew? ==> r.trace[0] == RunCallback(cr.response)
    ensures forall i :: 0 < i < |r.trace| ==> !r.trace[i].RunCallback?
    // a write is the last effect and stores either the revalidated envelope or
    // the encoded payload under a storable policy
    ensures forall i :: 0 <= i < |r.trace| && r.trace[i].WriteEnvelope? ==>
      && i == |r.trace| - 1
      && (cr.NotModified? ==> r.trace[i].envelope == cr.envelope)
      && (cr.ModifiedOrNew? ==>
            && cr.policy.Some?
            && r.trace[i].envelope.cachePolicy == cr.policy.value
            && r.trace[i].envelope.immutable == oracle.isImmutable(cr.response.headers)
            && callback(cr.response).Ok?
            && codec.toBytes(callback(cr.response).value) == Ok(r.trace[i].envelope.data))
    ensures cr.NotModified? && io.envelopeEncodes && io.writeSucceeds ==>
      r.trace == [WriteEnvelope(cr.envelope)] && r.result == Lift(codec.fromBytes(cr.envelope.data))
    // a callback error is returned as such, and nothing is written
    ensures r.result.Err? && r.result.error.Callback? ==>
      && cr.ModifiedOrNew?
      && callback(cr.response) == Err(r.result.error.callbackError)
      && r.trace == [RunCallback(cr.response)]
    // a write happens only when encoding and writing succeed, and a new
    // payload's write only right after its directory was created
    ensures forall i :: 0 <= i < |r.trace| && r.trace[i].WriteEnvelope? ==>
      && io.envelopeEncodes && io.writeSucceeds
      && (cr.ModifiedOrNew? ==> io.createDirSucceeds && i > 0 && r.trace[i - 1] == CreateDir)
    ensures forall i :: 0 <= i < |r.trace| && r.trace[i].CreateDir? ==>
      cr.ModifiedOrNew? && cr.policy.Some? && io.createDirSucceeds
    // a save that is due ends in a write whenever the call succeeds
    ensures r.result.Ok? && (cr.NotModified? || (cr.ModifiedOrNew? && cr.policy.Some?)) ==>
      |r.trace| > 0 && r.trace[|r.trace| - 1].WriteEnvelope?
    // each failure of the save is a client error, with nothing written
    ensures cr.NotModified? && !io.envelopeEncodes ==> r == Traced(Err(Client(Encode)), [])
    ensures cr.NotModified? && io.envelopeEncodes && !io.writeSucceeds ==>
      r == Traced(Err(Client(CacheWrite)), [])
    ensures cr.ModifiedOrNew? && cr.policy.Some? && callback(cr.response).Ok? ==>
      var encoded := codec.toBytes(callback(cr.response).value);
      var ran := [RunCallback(cr.response)];
      && (encoded.Err? ==> r == Traced(Err(Client(encoded.error)), ran))
      && (encoded.Ok? && !io.createDirSucceeds ==> r == Traced(Err(Client(CacheWrite)), ran))
      && (encoded.Ok? && io.createDirSucceeds && !io.envelopeEncodes ==>
            r == Traced(Err(Client(Encode)), ran + [CreateDir]))
      && (encoded.Ok? && io.createDirSucceeds && io.envelopeEncodes && !io.writeSucceeds ==>
            r == Traced(Err(Client(CacheWrite)), ran + [CreateDir]))
  {
    match cr
    case FreshCache(data) => Traced(Lift(codec.fromBytes(data)), [])
    case NotModified(envelope) =>
      if !io.envelopeEncodes then Traced(Err(Client(Encode)), [])
      else if !io.writeSucceeds then Traced(Err(Client(CacheWrite)), [])
      else Traced(Lift(codec.fromBytes(envelope.data)), [WriteEnvelope(envelope)])
    case ModifiedOrNew(res, policy) =>
      var immutable := oracle.isImmutable(res.headers);
      var ran := [RunCallback(res)];
      match callback(res)
      case Err(e) => Traced(Err(Callback(e)), ran)
      case Ok(payload) =>
        match policy
        case None => Traced(Ok(codec.intoTarget(payload)), ran)
        case Some(p) =>
          match codec.toBytes(payload)
          case Err(e) => Traced(Err(Client(e)), ran)
          case Ok(bytes) =>
            var envelope := DataWithCachePolicy(bytes, immutable, p);
            if !io.createDirSucceeds then Traced(Err(Client(CacheWrite)), ran)
            else if !io.envelopeEncodes then Traced(Err(Client(Encode)), ran + [CreateDir])
            else if !io.writeSucceeds then Traced(Err(Client(CacheWrite)), ran + [CreateDir])
            else Traced(Ok(codec.intoTarget(payload)), ran + [CreateDir, WriteEnvelope(envelope)])
  }

  /** `get_cached_with_callback2`: one cached request, start to finish. */
  function GetCachedWithCallback2<P, T, E>(req: Request, cacheControl: CacheControl, io: Io,
                                           oracle: PolicyOracle, codec: Cacheable<P, T>,
                                           callback: Response -> Result<P, E>)
    : (r: Traced<Result<T, CachedClientError<E>>>)
    // a broken envelope is removed first, and nothing else is ever removed
    ensures io.file.Corrupt? <==> |r.trace| > 0 && r.trace[0] == RemoveEntry(io.removeSucceeds)
    ensures forall i :: 0 < i < |r.trace| ==> !r.trace[i].RemoveEntry?
    // a callback error reaches the caller untouched
    ensures r.result.Err? && r.result.error.Callback? ==>
      exists i :: 0 <= i < |r.trace| && r.trace[i].RunCallback? &&
        callback(r.trace[i].response) == Err(r.result.error.callbackError)
  {
    var read := ReadCache(io.file, io.removeSucceeds);
    var sent := SendCached(req, cacheControl, read.result, io, oracle);
    var resolved := Finish(sent.result, io, oracle, codec, callback);
    var before := read.trace + sent.trace;
    assert resolved.result.Err? && resolved.result.error.Callback? ==>
      (before + resolved.trace)[|before|] == resolved.trace[0];
    Traced(resolved.result, before + resolved.trace)
  }

  /** The part of a call after the lookup (the `?` on `send_cached`): a lookup
      error is returned as a client error with no further effect, an outcome
      is resolved. */
  function Finish<P, T, E>(sent: Result<CachedResponse, Error>, io: Io, oracle: PolicyOracle,
                           codec: Cacheable<P, T>, callback: Response -> Result<P, E>)
    : (r: Traced<Result<T, CachedClientError<E>>>)
    ensures sent.Err? ==> r.result == Err(Client(sent.error)) && r.trace == []
    ensures sent.Ok? ==> r == Resolve(sent.value, io, oracle, codec, callback)
  {
    match sent
    case Err(e) => Traced(Err(Client(e)), [])
    case Ok(cr) => Resolve(cr, io, oracle, codec, callback)
  }

  /** The callback of `get_cached_with_callback`, whose payload is wrapped for
      serde-based caching. */
  function WrapCallback<T, E>(callback: Response -> Result<T, E>): (wrapped: Response -> Result<SerdeCacheable<T>, E>)
    ensures forall res :: callback(res).Err? ==> wrapped(res) == Err(callback(res).error)
    ensures forall res :: callback(res).Ok? ==>
      wrapped(res).Ok? && SerdeIntoTarget(wrapped(res).value) == callback(res).value
  {
    res =>
      match callback(res)
      case Ok(x) => Ok(SerdeCacheable(x))
      case Err(e) => Err(e)
  }

  /** `get_cached_with_callback`: the same engine for any serializable
      payload. What a new response yields is the callback's own value. */
  function GetCachedWithCallback<T, E>(req: Request, cacheControl: CacheControl, io: Io,
                                       oracle: PolicyOracle, format: Format<T>,
                                       callback: Response -> Result<T, E>)
    : (r: Traced<Result<T, CachedClientError<E>>>)
    ensures forall i :: 0 <= i < |r.trace| && r.trace[i].RunCallback? && r.result.Ok? ==>
      callback(r.trace[i].response) == Ok(r.result.value)
  {
    GetCachedWithCallback2(req, cacheControl, io, oracle, SerdeCodec(format), WrapCallback(callback))
  }
}
