/** What one cached request guarantees, stated over its result and its trace
    of effects, for every answer of the file system, the transport, the clock
    and the cache policy. */
module CachedClientProperties {
  import opened Base
  import opened Http
  import opened Policy
  import opened Envelope
  import opened Effects
  import opened Payload
  import opened CachedClient

  /** The lookup half of a call: the outcome `send_cached` reaches from what
      the cache file holds. */
  function Lookup(req: Request, cc: CacheControl, io: Io, oracle: PolicyOracle)
    : Traced<Result<CachedResponse, Error>>
  {
    SendCached(req, cc, ReadCache(io.file, io.removeSucceeds).result, io, oracle)
  }

  /** A call is its read, its lookup and what follows the lookup, in that
      order. */
  lemma Decompose<P, T, E>(req: Request, cc: CacheControl, io: Io, oracle: PolicyOracle,
                           codec: Cacheable<P, T>, callback: Response -> Result<P, E>)
    ensures var r := GetCachedWithCallback2(req, cc, io, oracle, codec, callback);
      var sent := Lookup(req, cc, io, oracle);
      var finish := Finish(sent.result, io, oracle, codec, callback);
      r.result == finish.result && r.trace == ReadCache(io.file, io.removeSucceeds).trace + sent.trace + finish.trace
  {
  }

  /** The effects of a call counted as those of reading, looking up and
      finishing. */
  lemma CountSplit<P, T, E>(req: Request, cc: CacheControl, io: Io, oracle: PolicyOracle,
                            codec: Cacheable<P, T>, callback: Response -> Result<P, E>, k: Kind)
    ensures var sent := Lookup(req, cc, io, oracle);
      Count(GetCachedWithCallback2(req, cc, io, oracle, codec, callback).trace, k)
      == Count(ReadCache(io.file, io.removeSucceeds).trace, k) + Count(sent.trace, k)
         + Count(Finish(sent.result, io, oracle, codec, callback).trace, k)
  {
    var read := ReadCache(io.file, io.removeSucceeds);
    var sent := Lookup(req, cc, io, oracle);
    var finish := Finish(sent.result, io, oracle, codec, callback);
    Decompose(req, cc, io, oracle, codec, callback);
    CountConcat(read.trace, sent.trace, k);
    CountConcat(read.trace + sent.trace, finish.trace, k);
  }

  /** The engine sends at most one request per call; requests the callback
      makes are outside the model. */
  lemma AtMostOneRequest<P, T, E>(req: Request, cc: CacheControl, io: Io,
                                  oracle: PolicyOracle, codec: Cacheable<P, T>,
                                  callback: Response -> Result<P, E>)
    ensures Count(GetCachedWithCallback2(req, cc, io, oracle, codec, callback).trace, SendKind) <= 1
  {
  }

  /** A save that is due but fails, because the envelope does not encode or
      the atomic write fails, is returned as a client error and leaves the
      cache file as reading it left it. */
  lemma FailedSaveIsClientError<P, T, E>(req: Request, cc: CacheControl, io: Io,
                                         oracle: PolicyOracle, codec: Cacheable<P, T>,
                                         callback: Response -> Result<P, E>, cr: CachedResponse)
    requires Lookup(req, cc, io, oracle).result == Ok(cr)
    requires cr.NotModified? || (cr.ModifiedOrNew? && cr.policy.Some? && callback(cr.response).Ok?)
    requires !io.envelopeEncodes || !io.writeSucceeds
    ensures var r := GetCachedWithCallback2(req, cc, io, oracle, codec, callback);
      && r.result.Err? && r.result.error.Client?
      && (|| r.result.error.clientError == Encode
          || r.result.error.clientError == CacheWrite
          || (cr.ModifiedOrNew? &&
              codec.toBytes(callback(cr.response).value) == Err(r.result.error.clientError)))
      && Count(r.trace, WriteKind) == 0
      && FileAfter(io.file, r.trace) == FileAfter(io.file, ReadCache(io.file, io.removeSucceeds).trace)
  {
    var read := ReadCache(io.file, io.removeSucceeds);
    var sent := Lookup(req, cc, io, oracle);
    var finish := Resolve(cr, io, oracle, codec, callback);
    Decompose(req, cc, io, oracle, codec, callback);
    FailedSaveWritesNothing(cr, io, oracle, codec, callback);
    assert Count(read.trace, WriteKind) == 0;
    assert Count(sent.trace, WriteKind) == 0 && Count(sent.trace, RemoveKind) == 0;
    CountSplit(req, cc, io, oracle, codec, callback, WriteKind);
    FileAfterSkips(io.file, read.trace, sent.trace, finish.trace);
  }

  /** Resolving an outcome whose save fails gives a client error, and neither
      writes nor removes. */
  lemma FailedSaveWritesNothing<P, T, E>(cr: CachedResponse, io: Io, oracle: PolicyOracle,
                                         codec: Cacheable<P, T>, callback: Response -> Result<P, E>)
    requires cr.NotModified? || (cr.ModifiedOrNew? && cr.policy.Some? && callback(cr.response).Ok?)
    requires !io.envelopeEncodes || !io.writeSucceeds
    ensures var r := Resolve(cr, io, oracle, codec, callback);
      && r.result.Err? && r.result.error.Client?
      && (|| r.result.error.clientError == Encode
          || r.result.error.clientError == CacheWrite
          || (cr.ModifiedOrNew? &&
              codec.toBytes(callback(cr.response).value) == Err(r.result.error.clientError)))
      && Count(r.trace, WriteKind) == 0 && Count(r.trace, RemoveKind) == 0
  {
  }

  /** A call writes at most one envelope. */
  lemma AtMostOneWrite<P, T, E>(req: Request, cc: CacheControl, io: Io,
                                oracle: PolicyOracle, codec: Cacheable<P, T>,
                                callback: Response -> Result<P, E>)
    ensures Count(GetCachedWithCallback2(req, cc, io, oracle, codec, callback).trace, WriteKind) <= 1
  {
    var sent := Lookup(req, cc, io, oracle);
    CountSplit(req, cc, io, oracle, codec, callback, WriteKind);
    assert Count(ReadCache(io.file, io.removeSucceeds).trace, WriteKind) == 0;
    assert Count(sent.trace, WriteKind) == 0;
    FinishWriteCount(sent.result, io, oracle, codec, callback);
  }

  /** What follows the lookup writes at most one envelope. */
  lemma FinishWriteCount<P, T, E>(sent: Result<CachedResponse, Error>, io: Io,
                                  oracle: PolicyOracle, codec: Cacheable<P, T>,
                                  callback: Response -> Result<P, E>)
    ensures Count(Finish(sent, io, oracle, codec, callback).trace, WriteKind) <= 1
  {
    var finish := Finish(sent, io, oracle, codec, callback);
    CountAtMostOne(finish.trace, WriteKind, |finish.trace| - 1);
  }

  /** The callback runs at most once, and exactly when the lookup found the
      response new or modified. */
  lemma CallbackOnlyOnNewResponse<P, T, E>(req: Request, cc: CacheControl, io: Io,
                                           oracle: PolicyOracle, codec: Cacheable<P, T>,
                                           callback: Response -> Result<P, E>)
    ensures var r := GetCachedWithCallback2(req, cc, io, oracle, codec, callback);
      var sent := Lookup(req, cc, io, oracle);
      && Count(r.trace, CallbackKind) <= 1
      && (Count(r.trace, CallbackKind) == 1 <==> sent.result.Ok? && sent.result.value.ModifiedOrNew?)
  {
    var sent := Lookup(req, cc, io, oracle);
    CountSplit(req, cc, io, oracle, codec, callback, CallbackKind);
    assert Count(ReadCache(io.file, io.removeSucceeds).trace, CallbackKind) == 0;
    assert Count(sent.trace, CallbackKind) == 0;
    FinishCallbackCount(sent.result, io, oracle, codec, callback);
  }

  /** What follows the lookup runs the callback at most once, and exactly
      when the lookup found the response new or modified. */
  lemma FinishCallbackCount<P, T, E>(sent: Result<CachedResponse, Error>, io: Io,
                                     oracle: PolicyOracle, codec: Cacheable<P, T>,
                                     callback: Response -> Result<P, E>)
    ensures var n := Count(Finish(sent, io, oracle, codec, callback).trace, CallbackKind);
      n <= 1 && (n == 1 <==> sent.Ok? && sent.value.ModifiedOrNew?)
  {
    var finish := Finish(sent, io, oracle, codec, callback);
    CountAtMostOne(finish.trace, CallbackKind, 0);
    if sent.Ok? && sent.value.ModifiedOrNew? {
      assert KindOf(finish.trace[0]) == CallbackKind;
    }
  }

  /** The callback, if it runs, runs on the response the lookup received. */
  lemma CallbackRunsOnLookupResponse<P, T, E>(req: Request, cc: CacheControl, io: Io,
                                              oracle: PolicyOracle, codec: Cacheable<P, T>,
                                              callback: Response -> Result<P, E>)
    ensures var r := GetCachedWithCallback2(req, cc, io, oracle, codec, callback);
      var sent := Lookup(req, cc, io, oracle);
      forall i :: 0 <= i < |r.trace| && r.trace[i].RunCallback? ==>
        sent.result.Ok? && sent.result.value.ModifiedOrNew? &&
        r.trace[i] == RunCallback(sent.result.value.response)
  {
    var r := GetCachedWithCallback2(req, cc, io, oracle, codec, callback);
    var read := ReadCache(io.file, io.removeSucceeds);
    var sent := Lookup(req, cc, io, oracle);
    var finish := Finish(sent.result, io, oracle, codec, callback);
    Decompose(req, cc, io, oracle, codec, callback);
    forall i | 0 <= i < |r.trace| && r.trace[i].RunCallback?
      ensures sent.result.Ok? && sent.result.value.ModifiedOrNew?
      ensures r.trace[i] == RunCallback(sent.result.value.response)
    {
      var j := i - |read.trace + sent.trace|;
      assert 0 <= j < |finish.trace| && r.trace[i] == finish.trace[j];
    }
  }

  /** An immutable envelope that is not stale is served without any request,
      and the cache-control mode plays no part in it. */
  lemma ImmutableHitSendsNothing<P, T, E>(req: Request, io: Io, oracle: PolicyOracle,
                                          codec: Cacheable<P, T>, callback: Response -> Result<P, E>)
    requires io.requestConverts && io.file.Stored? && io.file.envelope.immutable
    requires !oracle.isStale(io.file.envelope.cachePolicy, io.clock.atImmutableCheck)
    ensures var r := GetCachedWithCallback2(req, Respect, io, oracle, codec, callback);
      && r.trace == []
      && r.result == Lift(codec.fromBytes(io.file.envelope.data))
      && r == GetCachedWithCallback2(req, MustRevalidate, io, oracle, codec, callback)
  {
  }

  /** A fresh verdict of the policy serves the cached bytes without any
      request. */
  lemma FreshVerdictSendsNothing<P, T, E>(req: Request, cc: CacheControl, io: Io, oracle: PolicyOracle,
                                          codec: Cacheable<P, T>, callback: Response -> Result<P, E>)
    requires io.requestConverts && io.file.Stored?
    requires oracle.beforeRequest(io.file.envelope.cachePolicy, ApplyCacheControl(req, cc),
                                  io.clock.atBeforeRequest) == FreshVerdict
    ensures var r := GetCachedWithCallback2(req, cc, io, oracle, codec, callback);
      r.trace == [] && r.result == Lift(codec.fromBytes(io.file.envelope.data))
  {
  }

  /** A stale verdict whose request does not match falls back to one
      unconditional request: the caller's own request, with none of the
      conditional headers. */
  lemma MismatchFetchesUnconditionally(req: Request, cc: CacheControl, io: Io, oracle: PolicyOracle,
                                       revalidation: Request)
    requires io.requestConverts && io.file.Stored?
    requires !(io.file.envelope.immutable &&
               !oracle.isStale(io.file.envelope.cachePolicy, io.clock.atImmutableCheck))
    requires oracle.beforeRequest(io.file.envelope.cachePolicy, ApplyCacheControl(req, cc),
                                  io.clock.atBeforeRequest) == StaleVerdict(revalidation, false)
    ensures Lookup(req, cc, io, oracle).trace == [Send(req)]
    ensures Lookup(req, cc, io, oracle).result.Ok? ==>
      Lookup(req, cc, io, oracle).result.value.ModifiedOrNew?
    // the new policy is built from the request the cache mode shaped
    ensures Lookup(req, cc, io, oracle).result.Ok? ==>
      && Answer(io, req).Ok?
      && var res := Answer(io, req).value;
         Lookup(req, cc, io, oracle).result.value
         == ModifiedOrNew(res, KeepIfStorable(oracle, oracle.create(ApplyCacheControl(req, cc), Parts(res))))
  {
  }

  /** With no usable envelope the request goes out as it is, and the new
      policy is built from that same request. */
  lemma MissFetchesFresh(req: Request, cc: CacheControl, io: Io, oracle: PolicyOracle, res: Response)
    requires io.requestConverts && !io.file.Stored?
    requires Answer(io, req) == Ok(res)
    ensures Lookup(req, cc, io, oracle)
      == Traced(Ok(ModifiedOrNew(res, KeepIfStorable(oracle, oracle.create(req, Parts(res))))), [Send(req)])
  {
  }

  /** A matching stale verdict followed by a not-modified verdict keeps the
      stored bytes under the policy the second verdict carries, with
      immutability read from the revalidation response. */
  lemma NotModifiedVerdictGivesNotModified(req: Request, cc: CacheControl, io: Io, oracle: PolicyOracle,
                                           revalidation: Request, res: Response, policy: CachePolicy)
    requires io.requestConverts && io.file.Stored?
    requires !(io.file.envelope.immutable &&
               !oracle.isStale(io.file.envelope.cachePolicy, io.clock.atImmutableCheck))
    requires oracle.beforeRequest(io.file.envelope.cachePolicy, ApplyCacheControl(req, cc),
                                  io.clock.atBeforeRequest) == StaleVerdict(revalidation, true)
    requires Answer(io, Conditional(req, revalidation)) == Ok(res)
    requires oracle.afterResponse(io.file.envelope.cachePolicy, Conditional(ApplyCacheControl(req, cc), revalidation),
                                  Parts(res), io.clock.atAfterResponse) == NotModifiedVerdict(policy)
    ensures Lookup(req, cc, io, oracle)
      == Traced(Ok(NotModified(DataWithCachePolicy(io.file.envelope.data, oracle.isImmutable(res.headers), policy))),
                [Send(Conditional(req, revalidation))])
  {
  }

  /** A matching stale verdict followed by a modified verdict hands the
      revalidation response on, with the verdict's policy kept only when
      storable. */
  lemma ModifiedVerdictGivesModifiedOrNew(req: Request, cc: CacheControl, io: Io, oracle: PolicyOracle,
                                          revalidation: Request, res: Response, policy: CachePolicy)
    requires io.requestConverts && io.file.Stored?
    requires !(io.file.envelope.immutable &&
               !oracle.isStale(io.file.envelope.cachePolicy, io.clock.atImmutableCheck))
    requires oracle.beforeRequest(io.file.envelope.cachePolicy, ApplyCacheControl(req, cc),
                                  io.clock.atBeforeRequest) == StaleVerdict(revalidation, true)
    requires Answer(io, Conditional(req, revalidation)) == Ok(res)
    requires oracle.afterResponse(io.file.envelope.cachePolicy, Conditional(ApplyCacheControl(req, cc), revalidation),
                                  Parts(res), io.clock.atAfterResponse) == ModifiedVerdict(policy)
    ensures Lookup(req, cc, io, oracle)
      == Traced(Ok(ModifiedOrNew(res, KeepIfStorable(oracle, policy))), [Send(Conditional(req, revalidation))])
  {
  }

  /** A stale verdict whose request matches sends exactly one request, the
      caller's request with the conditional headers inserted. */
  lemma MatchRevalidatesConditionally(req: Request, cc: CacheControl, io: Io, oracle: PolicyOracle,
                                      revalidation: Request)
    requires io.requestConverts && io.file.Stored?
    requires !(io.file.envelope.immutable &&
               !oracle.isStale(io.file.envelope.cachePolicy, io.clock.atImmutableCheck))
    requires oracle.beforeRequest(io.file.envelope.cachePolicy, ApplyCacheControl(req, cc),
                                  io.clock.atBeforeRequest) == StaleVerdict(revalidation, true)
    ensures Lookup(req, cc, io, oracle).trace == [Send(Conditional(req, revalidation))]
    ensures Lookup(req, cc, io, oracle).result.Ok? ==>
      !Lookup(req, cc, io, oracle).result.value.FreshCache?
  {
  }

  /** A not-modified revalidation keeps the cached bytes, takes the refreshed
      policy and the revalidation response's immutability, never runs the
      callback, writes that envelope and returns the old bytes decoded. */
  lemma NotModifiedKeepsData<P, T, E>(req: Request, cc: CacheControl, io: Io,
                                      oracle: PolicyOracle, codec: Cacheable<P, T>,
                                      callback: Response -> Result<P, E>,
                                      envelope: DataWithCachePolicy)
    requires Lookup(req, cc, io, oracle).result == Ok(NotModified(envelope))
    ensures io.file.Stored? && envelope.data == io.file.envelope.data
    ensures var res := Answer(io, Lookup(req, cc, io, oracle).trace[0].request);
      res.Ok? && envelope.immutable == oracle.isImmutable(res.value.headers)
    // it took a matching stale verdict, then a not-modified verdict carrying
    // the refreshed policy
    ensures var converted := ApplyCacheControl(req, cc);
      var verdict := oracle.beforeRequest(io.file.envelope.cachePolicy, converted, io.clock.atBeforeRequest);
      && !(io.file.envelope.immutable &&
           !oracle.isStale(io.file.envelope.cachePolicy, io.clock.atImmutableCheck))
      && verdict.StaleVerdict? && verdict.matches
      && Lookup(req, cc, io, oracle).trace == [Send(Conditional(req, verdict.request))]
      && Answer(io, Conditional(req, verdict.request)).Ok?
      && oracle.afterResponse(io.file.envelope.cachePolicy, Conditional(converted, verdict.request),
                              Parts(Answer(io, Conditional(req, verdict.request)).value), io.clock.atAfterResponse)
         == NotModifiedVerdict(envelope.cachePolicy)
    ensures var r := GetCachedWithCallback2(req, cc, io, oracle, codec, callback);
      && Count(r.trace, CallbackKind) == 0
      && (io.envelopeEncodes && io.writeSucceeds ==>
            && FileAfter(io.file, r.trace) == Stored(envelope)
            && r.result == Lift(codec.fromBytes(io.file.envelope.data)))
  {
  }

  /** A new response whose policy is not storable is never persisted: nothing
      is created or written, whatever the callback returns. */
  lemma UnstorableIsNotPersisted<P, T, E>(req: Request, cc: CacheControl, io: Io,
                                          oracle: PolicyOracle, codec: Cacheable<P, T>,
                                          callback: Response -> Result<P, E>,
                                          res: Response)
    requires Lookup(req, cc, io, oracle).result == Ok(ModifiedOrNew(res, None))
    ensures var r := GetCachedWithCallback2(req, cc, io, oracle, codec, callback);
      && Count(r.trace, WriteKind) == 0
      && Count(r.trace, CreateDirKind) == 0
      && (callback(res).Ok? ==> r.result == Ok(codec.intoTarget(callback(res).value)))
      && (callback(res).Err? ==> r.result == Err(Callback(callback(res).error)))
  {
  }

  /** A new response under a storable policy, whose callback payload encodes
      and whose write succeeds, leaves an envelope holding exactly the encoded
      payload, the live response's immutability and the new policy; the call
      returns the payload's target. */
  lemma StorableIsPersisted<P, T, E>(req: Request, cc: CacheControl, io: Io,
                                     oracle: PolicyOracle, codec: Cacheable<P, T>,
                                     callback: Response -> Result<P, E>,
                                     res: Response, policy: CachePolicy,
                                     payload: P, bytes: Bytes)
    requires Lookup(req, cc, io, oracle).result == Ok(ModifiedOrNew(res, Some(policy)))
    requires callback(res) == Ok(payload) && codec.toBytes(payload) == Ok(bytes)
    requires io.createDirSucceeds && io.envelopeEncodes && io.writeSucceeds
    ensures oracle.isStorable(policy)
    ensures var r := GetCachedWithCallback2(req, cc, io, oracle, codec, callback);
      && r.result == Ok(codec.intoTarget(payload))
      && Count(r.trace, WriteKind) == 1
      && FileAfter(io.file, r.trace) == Stored(DataWithCachePolicy(bytes, oracle.isImmutable(res.headers), policy))
  {
    var r := GetCachedWithCallback2(req, cc, io, oracle, codec, callback);
    AtMostOneWrite(req, cc, io, oracle, codec, callback);
    Decompose(req, cc, io, oracle, codec, callback);
    assert r.trace[|r.trace| - 1] == WriteEnvelope(DataWithCachePolicy(bytes, oracle.isImmutable(res.headers), policy));
    assert KindOf(r.trace[|r.trace| - 1]) == WriteKind;
  }

  /** A callback error is returned in the callback domain and nothing is
      written. */
  lemma CallbackErrorIsNotPersisted<P, T, E>(req: Request, cc: CacheControl, io: Io,
                                             oracle: PolicyOracle, codec: Cacheable<P, T>,
                                             callback: Response -> Result<P, E>,
                                             res: Response, policy: Option<CachePolicy>,
                                             e: E)
    requires Lookup(req, cc, io, oracle).result == Ok(ModifiedOrNew(res, policy))
    requires callback(res) == Err(e)
    ensures var r := GetCachedWithCallback2(req, cc, io, oracle, codec, callback);
      r.result == Err(Callback(e)) && Count(r.trace, WriteKind) == 0
  {
  }

  /** An error status on the one request sent is a client error, raised before
      the callback could run and before anything is written. */
  lemma ErrorStatusComesBeforeCallback<P, T, E>(req: Request, cc: CacheControl, io: Io,
                                                oracle: PolicyOracle,
                                                codec: Cacheable<P, T>,
                                                callback: Response -> Result<P, E>)
    requires io.requestConverts && |Lookup(req, cc, io, oracle).trace| == 1
    requires io.execute(Lookup(req, cc, io, oracle).trace[0].request).Received?
    requires IsErrorStatus(io.execute(Lookup(req, cc, io, oracle).trace[0].request).response.status)
    ensures var status := io.execute(Lookup(req, cc, io, oracle).trace[0].request).response.status;
      var r := GetCachedWithCallback2(req, cc, io, oracle, codec, callback);
      && r.result == Err(Client(RequestError(ErrorStatus(status))))
      && Count(r.trace, CallbackKind) == 0
      && Count(r.trace, WriteKind) == 0
  {
  }

  /** A cache file that does not decode behaves exactly like a missing one,
      except that it is removed first: corruption never becomes an error of
      its own. */
  lemma CorruptEntryIsMiss<P, T, E>(req: Request, cc: CacheControl, io: Io, oracle: PolicyOracle,
                                    codec: Cacheable<P, T>, callback: Response -> Result<P, E>)
    requires io.file.Corrupt?
    ensures var r := GetCachedWithCallback2(req, cc, io, oracle, codec, callback);
      var miss := GetCachedWithCallback2(req, cc, io.(file := Unreadable), oracle, codec, callback);
      r.result == miss.result && r.trace == [RemoveEntry(io.removeSucceeds)] + miss.trace
  {
  }

  /** Every envelope written follows a request and is one of two things: the
      cached bytes under a policy refreshed by a not-modified revalidation, or
      the encoded callback payload under a storable policy. */
  lemma EveryWriteFollowsAnExchange<P, T, E>(req: Request, cc: CacheControl, io: Io,
                                             oracle: PolicyOracle,
                                             codec: Cacheable<P, T>,
                                             callback: Response -> Result<P, E>,
                                             envelope: DataWithCachePolicy)
    requires WriteEnvelope(envelope) in GetCachedWithCallback2(req, cc, io, oracle, codec, callback).trace
    ensures Count(GetCachedWithCallback2(req, cc, io, oracle, codec, callback).trace, SendKind) == 1
    ensures var sent := Lookup(req, cc, io, oracle);
      && sent.result.Ok?
      && ((sent.result.value.NotModified? && envelope == sent.result.value.envelope &&
           io.file.Stored? && envelope.data == io.file.envelope.data) ||
          (sent.result.value.ModifiedOrNew? &&
           oracle.isStorable(envelope.cachePolicy) &&
           callback(sent.result.value.response).Ok? &&
           codec.toBytes(callback(sent.result.value.response).value) == Ok(envelope.data)))
  {
  }

  /** Three calls in a row on one entry, each reading the file the previous
      one left: a new storable response is stored; a fresh verdict then
      serves it without any effect; a not-modified revalidation then keeps it
      without running the callback. All three return the target of the first
      callback's payload. */
  lemma StoreServeRevalidate<P, T, E>(req: Request, cc: CacheControl,
                                      first: Io, second: Io, third: Io,
                                      oracle: PolicyOracle, codec: Cacheable<P, T>,
                                      callback: Response -> Result<P, E>,
                                      res: Response, policy: CachePolicy,
                                      payload: P, bytes: Bytes,
                                      refreshed: DataWithCachePolicy)
    requires Lookup(req, cc, first, oracle).result == Ok(ModifiedOrNew(res, Some(policy)))
    requires callback(res) == Ok(payload) && codec.toBytes(payload) == Ok(bytes)
    requires RoundTrips(codec, payload)
    requires first.createDirSucceeds && first.envelopeEncodes && first.writeSucceeds
    requires second.file == Stored(DataWithCachePolicy(bytes, oracle.isImmutable(res.headers), policy))
    requires second.requestConverts
    requires oracle.beforeRequest(policy, ApplyCacheControl(req, cc), second.clock.atBeforeRequest) == FreshVerdict
    requires third.file == second.file
    requires Lookup(req, cc, third, oracle).result == Ok(NotModified(refreshed))
    requires third.envelopeEncodes && third.writeSucceeds
    ensures GetCachedWithCallback2(req, cc, first, oracle, codec, callback).result == Ok(codec.intoTarget(payload))
    ensures FileAfter(first.file, GetCachedWithCallback2(req, cc, first, oracle, codec, callback).trace) == second.file
    ensures FileAfter(second.file, GetCachedWithCallback2(req, cc, second, oracle, codec, callback).trace) == third.file
    ensures GetCachedWithCallback2(req, cc, second, oracle, codec, callback).result == Ok(codec.intoTarget(payload))
    ensures GetCachedWithCallback2(req, cc, second, oracle, codec, callback).trace == []
    ensures GetCachedWithCallback2(req, cc, third, oracle, codec, callback).result == Ok(codec.intoTarget(payload))
    ensures Count(GetCachedWithCallback2(req, cc, third, oracle, codec, callback).trace, CallbackKind) == 0
    ensures FileAfter(third.file, GetCachedWithCallback2(req, cc, third, oracle, codec, callback).trace) == Stored(refreshed)
    ensures refreshed.data == bytes
  {
    StorableIsPersisted(req, cc, first, oracle, codec, callback, res, policy, payload, bytes);
    assert GetCachedWithCallback2(req, cc, second, oracle, codec, callback).trace == [];
    NotModifiedKeepsData(req, cc, third, oracle, codec, callback, refreshed);
  }

  /** The oracle of `RevalidationIgnoresStorability`: every entry is stale and
      revalidated, every revalidation is answered not-modified, and no policy
      is storable. */
  function NothingStorable(): PolicyOracle {
    PolicyOracle(
      (policy, now) => true,
      (policy, request, now) => StaleVerdict(request, true),
      (policy, request, parts, now) => NotModifiedVerdict(policy),
      (request, parts) => CachePolicy([]),
      policy => false,
      headers => false)
  }

  /** The world of `RevalidationIgnoresStorability`: a stored entry, a
      transport that answers 304, and disk operations that succeed. */
  function StoredEntryAnswered304(entry: DataWithCachePolicy): Io {
    Io(Stored(entry), true, request => Received(Response(304, map[], [])), Clock(0, 0, 0), true, true, true, true)
  }

  /** A not-modified revalidation rewrites the envelope even when its
      refreshed policy is not storable. */
  lemma RevalidationIgnoresStorability<P, T, E>(req: Request, cc: CacheControl, entry: DataWithCachePolicy,
                                                codec: Cacheable<P, T>, callback: Response -> Result<P, E>)
    ensures var r := GetCachedWithCallback2(req, cc, StoredEntryAnswered304(entry), NothingStorable(),
                                            codec, callback);
      && FileAfter(Stored(entry), r.trace) == Stored(DataWithCachePolicy(entry.data, false, entry.cachePolicy))
      && !NothingStorable().isStorable(entry.cachePolicy)
  {
  }

  /** Through the serde adapter, a new response under a storable policy
      stores the format's serialization of the callback's value, and the call
      returns that value. */
  lemma SerdeStoresSerialization<T, E>(req: Request, cc: CacheControl, io: Io, oracle: PolicyOracle,
                                       format: Format<T>, callback: Response -> Result<T, E>,
                                       res: Response, policy: CachePolicy, x: T, bytes: Bytes)
    requires Lookup(req, cc, io, oracle).result == Ok(ModifiedOrNew(res, Some(policy)))
    requires callback(res) == Ok(x) && format.serialize(x) == Some(bytes)
    requires io.createDirSucceeds && io.envelopeEncodes && io.writeSucceeds
    ensures var r := GetCachedWithCallback(req, cc, io, oracle, format, callback);
      && r.result == Ok(x)
      && FileAfter(io.file, r.trace) == Stored(DataWithCachePolicy(bytes, oracle.isImmutable(res.headers), policy))
  {
    StorableIsPersisted(req, cc, io, oracle, SerdeCodec(format), WrapCallback(callback),
                        res, policy, SerdeCacheable(x), bytes);
  }

  /** Through the serde adapter, a cache hit on a fresh verdict returns the
      format's deserialization of the stored bytes, or `Decode` when they do
      not deserialize, with no effect. */
  lemma SerdeHitDeserializes<T, E>(req: Request, cc: CacheControl, io: Io, oracle: PolicyOracle,
                                   format: Format<T>, callback: Response -> Result<T, E>)
    requires io.requestConverts && io.file.Stored?
    requires oracle.beforeRequest(io.file.envelope.cachePolicy, ApplyCacheControl(req, cc),
                                  io.clock.atBeforeRequest) == FreshVerdict
    ensures var r := GetCachedWithCallback(req, cc, io, oracle, format, callback);
      && r.trace == []
      && (format.deserialize(io.file.envelope.data).Some? ==>
            r.result == Ok(format.deserialize(io.file.envelope.data).value))
      && (format.deserialize(io.file.envelope.data).None? ==> r.result == Err(Client(Decode)))
  {
    FreshVerdictSendsNothing(req, cc, io, oracle, SerdeCodec(format), WrapCallback(callback));
  }

  /** Store, then serve: a value the format round-trips, stored by one call,
      is returned as itself by a later call that reads the file the first
      call left and is served by a fresh verdict. */
  lemma SerdeStoreThenServe<T, E>(req: Request, cc: CacheControl, first: Io, second: Io,
                                  oracle: PolicyOracle, format: Format<T>,
                                  callback: Response -> Result<T, E>,
                                  res: Response, policy: CachePolicy, x: T)
    requires Lookup(req, cc, first, oracle).result == Ok(ModifiedOrNew(res, Some(policy)))
    requires callback(res) == Ok(x) && FormatRoundTrips(format, x) && format.serialize(x).Some?
    requires first.createDirSucceeds && first.envelopeEncodes && first.writeSucceeds
    requires second.file == Stored(DataWithCachePolicy(format.serialize(x).value, oracle.isImmutable(res.headers), policy))
    requires second.requestConverts
    requires oracle.beforeRequest(policy, ApplyCacheControl(req, cc), second.clock.atBeforeRequest) == FreshVerdict
    ensures GetCachedWithCallback(req, cc, first, oracle, format, callback).result == Ok(x)
    ensures FileAfter(first.file, GetCachedWithCallback(req, cc, first, oracle, format, callback).trace) == second.file
    ensures var r := GetCachedWithCallback(req, cc, second, oracle, format, callback);
      r.trace == [] && r.result == Ok(x)
  {
    var bytes := format.serialize(x).value;
    SerdeStoresSerialization(req, cc, first, oracle, format, callback, res, policy, x, bytes);
    SerdeRoundTrip(format, x);
    SerdeHitDeserializes(req, cc, second, oracle, format, callback);
  }
}
