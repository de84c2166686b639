/** The payload side of the cached client: its error kinds, the `Cacheable`
    capability a payload type offers, the serde-backed adapter that gives that
    capability to any serializable value, and the two-domain error type. */
module Payload {
  import opened Base

  /** Why a request failed before a usable response arrived. */
  datatype RequestFailure =
    | InvalidRequest
    | ErrorStatus(status: nat)

  /** The kinds of client error the cached client produces. */
  datatype Error =
    | RequestError(failure: RequestFailure)
    | RequestMiddlewareError
    | Decode
    | Encode
    | CacheWrite

  /** The `Cacheable` capability of a payload type `P` with target type `T`:
      decode stored bytes straight to a target, encode a payload, and unwrap a
      payload into the target handed to the caller. */
  datatype Cacheable<!P, T> = Cacheable(
    fromBytes: Bytes -> Result<T, Error>,
    toBytes: P -> Result<Bytes, Error>,
    intoTarget: P -> T)

  /** A payload whose stored bytes decode back to its own target. */
  ghost predicate RoundTrips<P, T>(codec: Cacheable<P, T>, payload: P) {
    codec.toBytes(payload).Ok? ==>
      codec.fromBytes(codec.toBytes(payload).value) == Ok(codec.intoTarget(payload))
  }

  /** A serialization format (the envelope and payload format of the cache):
      serializing and deserializing may each fail. */
  datatype Format<!T> = Format(serialize: T -> Option<Bytes>, deserialize: Bytes -> Option<T>)

  /** `x` survives a trip through the format. */
  ghost predicate FormatRoundTrips<T>(format: Format<T>, x: T) {
    format.serialize(x).Some? ==> format.deserialize(format.serialize(x).value) == Some(x)
  }

  /** The adapter that makes any serializable `T` cacheable; its target is the
      wrapped value itself. */
  datatype SerdeCacheable<T> = SerdeCacheable(inner: T)

  function SerdeFromBytes<T>(format: Format<T>, bytes: Bytes): (r: Result<T, Error>)
    ensures r.Ok? <==> format.deserialize(bytes).Some?
    ensures r.Ok? ==> Some(r.value) == format.deserialize(bytes)
    ensures r.Err? ==> r.error == Decode
  {
    match format.deserialize(bytes)
    case Some(v) => Ok(v)
    case None => Err(Decode)
  }

  function SerdeToBytes<T>(format: Format<T>, payload: SerdeCacheable<T>): (r: Result<Bytes, Error>)
    ensures r.Ok? <==> format.serialize(payload.inner).Some?
    ensures r.Ok? ==> Some(r.value) == format.serialize(payload.inner)
    ensures r.Err? ==> r.error == Encode
  {
    match format.serialize(payload.inner)
    case Some(b) => Ok(b)
    case None => Err(Encode)
  }

  function SerdeIntoTarget<T>(payload: SerdeCacheable<T>): T {
    payload.inner
  }

  /** The `Cacheable` instance of `SerdeCacheable<T>`. */
  function SerdeCodec<T>(format: Format<T>): Cacheable<SerdeCacheable<T>, T> {
    Cacheable(
      bytes => SerdeFromBytes(format, bytes),
      payload => SerdeToBytes(format, payload),
      payload => SerdeIntoTarget(payload))
  }

  /** Wrapping a value and unwrapping it as a target gives the value back, and
      a value the format round-trips is a payload that round-trips through the
      cache: decoding its stored bytes yields its target. */
  lemma SerdeRoundTrip<T>(format: Format<T>, x: T)
    requires FormatRoundTrips(format, x)
    ensures SerdeCodec(format).intoTarget(SerdeCacheable(x)) == x
    ensures RoundTrips(SerdeCodec(format), SerdeCacheable(x))
    ensures SerdeCodec(format).toBytes(SerdeCacheable(x)).Err? <==> format.serialize(x).None?
  {
  }

  /** Either an error of the client or one of the caller's callback. */
  datatype CachedClientError<E> =
    | Client(clientError: Error)
    | Callback(callbackError: E)

  /** `From<Error>`: a client error enters the client domain. */
  function FromError<E>(e: Error): (r: CachedClientError<E>)
    ensures r.Client? && r.clientError == e
  {
    Client(e)
  }

  /** `From<CachedClientError<E>> for Error`: collapse both domains into a
      client error, converting a callback error with the caller's `into`. */
  function IntoError<E>(err: CachedClientError<E>, into: E -> Error): (r: Error)
    ensures err.Client? ==> r == err.clientError
    ensures err.Callback? ==> r == into(err.callbackError)
  {
    match err
    case Client(e) => e
    case Callback(e) => into(e)
  }

  /** A client result lifted into the two-domain error type, as `?` does. */
  function Lift<T, E>(r: Result<T, Error>): (l: Result<T, CachedClientError<E>>)
    ensures l.Ok? <==> r.Ok?
    ensures l.Ok? ==> l.value == r.value
    ensures l.Err? ==> l.error == Client(r.error)
  {
    match r
    case Ok(v) => Ok(v)
    case Err(e) => Err(FromError(e))
  }

  /** Collapsing a lifted client error gives the same error back, whatever the
      callback conversion is. */
  lemma IntoErrorUndoesFromError<E>(e: Error, into: E -> Error)
    ensures IntoError(FromError(e), into) == e
  {
  }
}
