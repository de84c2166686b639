# Cached client and package-name model

This project models, in Dafny, two pieces of the puffin package manager.

The first is the cached-request engine of `crates/puffin-client/src/cached_client.rs`.
Each call to `get_cached_with_callback2` is one pass of a small state machine:

- read the on-disk envelope `DataWithCachePolicy { data, immutable, cache_policy }`, which may be unreadable, corrupt or valid;
- consult the cache policy;
- send zero or one HTTP request;
- sort the result into `FreshCache`, `NotModified` or `ModifiedOrNew`;
- decode the cached bytes, rewrite the envelope, or run the caller's callback once and store what it returns.

The model writes this as pure functions. Their inputs are:

- the request and the cache-control mode;
- an `Io` record: the file state, whether the request converts, the transport's answer to each request, three clock readings, and whether directory creation, envelope encoding, the atomic write and the removal of a corrupt file succeed;
- a `PolicyOracle` record: `is_stale`, `before_request`, `after_response`, `CachePolicy::new`, `is_storable` and `CacheHeaders::is_immutable`, as uninterpreted total functions;
- the payload's `Cacheable` capability, as a record of functions;
- the callback, as a pure function of the response.

Each call returns its result and a trace of effects: `RemoveEntry`, `Send`, `RunCallback`, `CreateDir` and `WriteEnvelope`. `FileAfter` replays a trace on the cache file. The guarantees are proved for every oracle and every I/O answer:

- the engine itself sends at most one request (requests the callback makes are outside the model);
- the callback runs only on a new response, and at most once;
- a not-modified response keeps the cached bytes;
- a new or modified response whose policy is not storable is never persisted; a not-modified revalidation is written whatever its refreshed policy (see "Behaviour worth noting");
- a corrupt file behaves like a missing one.

The second piece is `PackageName::as_dist_info_name` of `crates/puffin-normalize/src/package_name.rs`. It rewrites every `-` as `_` for the dist-info directory name of the Python Packaging Authority's "Recording installed packages" specification. The model also covers the newtype's accessors.

Files:

- `base.dfy`: bytes, `Option`, `Result`.
- `http.dfy`: requests, responses, header maps keyed by lower-case names, the error-status check.
- `policy.dfy`: the cache-policy oracle.
- `envelope.dfy`: the envelope and file states.
- `effects.dfy`: effects, counting, the file after a trace.
- `cacheable.dfy`: errors, `Cacheable`, `SerdeCacheable`, `CachedClientError`.
- `cached_client.dfy`: the engine.
- `cached_client_properties.dfy`: its guarantees.
- `package_name.dfy`: package names.

## Model

| member | source | states |
|---|---|---|
| Payload.SerdeFromBytes | crates/puffin-client/src/cached_client.rs:37-39 | Decoding succeeds exactly when the format deserializes the bytes, and yields that value. A failure is a `Decode` error. |
| Payload.SerdeToBytes | crates/puffin-client/src/cached_client.rs:41-43 | Encoding succeeds exactly when the format serializes the wrapped value, and yields those bytes. A failure is an `Encode` error. |
| Payload.SerdeRoundTrip | crates/puffin-client/src/cached_client.rs:26-48 | `into_target` returns the wrapped value. A value the format round-trips is a payload whose stored bytes decode back to its target. Encoding fails only when serialization fails. |
| Payload.FromError | crates/puffin-client/src/cached_client.rs:57-61 | A client error enters the two-domain error type in the client domain, unchanged. |
| Payload.IntoError | crates/puffin-client/src/cached_client.rs:69-76 | Collapsing to a client error keeps a client error as it is. A callback error goes through the caller's conversion. |
| Payload.IntoErrorUndoesFromError | crates/puffin-client/src/cached_client.rs:57-76 | Lifting a client error and collapsing it again gives the same error, whatever the callback conversion is. |
| Payload.Lift | crates/puffin-client/src/cached_client.rs:209 | The `?` conversion keeps success values and turns every client error into `Client` of that error. |
| Policy.KeepIfStorable | crates/puffin-client/src/cached_client.rs:383-388 | A policy is kept exactly when `is_storable` holds, and then unchanged. |
| CachedClient.FromFreshness | crates/puffin-client/src/cached_client.rs:400-408 | `Stale` maps to `MustRevalidate`, and only `Stale` does. `Fresh` and `Missing` map to the respecting mode. |
| CachedClient.ApplyCacheControl | crates/puffin-client/src/cached_client.rs:279-287 | `MustRevalidate` sets `cache-control` to exactly `max-age=0, must-revalidate` and keeps every other header, the method and the URL. The respecting mode changes nothing. |
| CachedClient.ReadCache | crates/puffin-client/src/cached_client.rs:179-203 | Only a decoded envelope is a hit, and it is that envelope. A corrupt file is a miss whose only effect is the removal attempt, whether or not it succeeds. An unreadable file is a miss with no effect. |
| CachedClient.Answer | crates/puffin-client/src/cached_client.rs:368-374 | A response is usable exactly when the transport delivered it with a non-error status. A middleware failure becomes `RequestMiddlewareError`. A 4xx/5xx status becomes `RequestError` carrying that status. |
| CachedClient.FreshRequest | crates/puffin-client/src/cached_client.rs:362-389 | Sends the request unchanged, exactly once. Errors are the transport's answer. Success is `ModifiedOrNew` with the live response and the new policy, kept only if storable. |
| CachedClient.Conditional | crates/puffin-client/src/cached_client.rs:304-310 | The revalidation request keeps the method and URL and holds every header of both maps. A conditional header wins over the original on a shared name. |
| CachedClient.Revalidate | crates/puffin-client/src/cached_client.rs:304-351 | Sends exactly the conditional request; it succeeds exactly when that request gets a usable answer, and never yields `FreshCache`. The policy judges the conditional request built on the cache-mode copy. A not-modified verdict gives `NotModified` of the cached bytes, immutability read from the response's headers, and the verdict's policy. A modified verdict gives `ModifiedOrNew` of the response with the verdict's policy kept only if storable. |
| CachedClient.SendCached | crates/puffin-client/src/cached_client.rs:256-359 | At most one effect, always a request. Nothing is sent exactly when the cache is served or the request does not convert. With no envelope, the request goes out unchanged. `FreshCache` and `NotModified` carry the cached bytes. `ModifiedOrNew` carries the usable answer to the request sent, and a storable policy if any. With no envelope, the new policy is built from the request as sent. An immutable, non-stale envelope is served with no effect. Otherwise a fresh verdict serves the cache; a non-matching stale verdict sends the caller's request and builds the new policy from the cache-mode copy; a matching one sends the conditional request and maps the response verdict to `NotModified` or `ModifiedOrNew` as `Revalidate` does. |
| CachedClient.Resolve | crates/puffin-client/src/cached_client.rs:207-252 | Never sends or removes. `FreshCache` decodes the bytes with no effect. The callback runs first and only on `ModifiedOrNew`. A write is the last effect and stores either the revalidated envelope or the encoded payload under the response's immutability and policy. A callback error is returned as such, with nothing written. A write happens only when encoding and writing succeed, and a new payload's write comes right after its directory is created. A successful call whose outcome needs saving ends in a write. Each failure of the save is a client error with nothing written: an envelope that does not encode is `Encode`, a failed directory creation or write is `CacheWrite`, and a failed `to_bytes` is the payload's own error. |
| CachedClient.GetCachedWithCallback2 | crates/puffin-client/src/cached_client.rs:163-253 | A removal happens first and exactly when the file was corrupt. A callback error returned is the one the callback gave on a response it ran on. |
| CachedClient.Finish | crates/puffin-client/src/cached_client.rs:205-207 | A lookup error reaches the caller as the client error it was, with no further effect. An outcome has exactly the result and effects of resolving it. |
| CachedClient.WrapCallback | crates/puffin-client/src/cached_client.rs:153-157 | The wrapped callback fails exactly with the caller's error, and on success holds a payload whose target is the caller's value. |
| CachedClient.GetCachedWithCallback | crates/puffin-client/src/cached_client.rs:137-160 | When the callback ran and the call succeeds, the value returned is the callback's own payload. What the adapter stores and what a hit returns are stated by `SerdeStoresSerialization`, `SerdeHitDeserializes` and `SerdeStoreThenServe`. |
| CachedClientProperties.AtMostOneRequest | crates/puffin-client/src/cached_client.rs:256-389 | The engine sends at most one request per call: `send_cached` and `fresh_request` execute one request on every path that sends. Requests the callback makes are not counted. |
| CachedClientProperties.AtMostOneWrite | crates/puffin-client/src/cached_client.rs:208-252 | Every call writes at most one envelope. |
| CachedClientProperties.CallbackOnlyOnNewResponse | crates/puffin-client/src/cached_client.rs:208-228 | The callback runs at most once, and it runs exactly when the lookup was `ModifiedOrNew`. It never runs on `FreshCache` or `NotModified`. |
| CachedClientProperties.CallbackRunsOnLookupResponse | crates/puffin-client/src/cached_client.rs:222-228 | When the callback runs, it runs on the response the lookup received. |
| CachedClientProperties.ImmutableHitSendsNothing | crates/puffin-client/src/cached_client.rs:271-276 | An immutable, non-stale envelope is served with no effect, as its decoded bytes. The result is the same under both cache-control modes. |
| CachedClientProperties.FreshVerdictSendsNothing | crates/puffin-client/src/cached_client.rs:289-296 | A fresh verdict serves the decoded cached bytes with no effect. |
| CachedClientProperties.MismatchFetchesUnconditionally | crates/puffin-client/src/cached_client.rs:297-302 | A stale verdict that does not match sends one request, the caller's own with no conditional header. A success is `ModifiedOrNew` of the answer, with a policy built from the cache-mode copy of the request and kept only if storable. |
| CachedClientProperties.MissFetchesFresh | crates/puffin-client/src/cached_client.rs:354-389 | With no usable envelope and a usable answer, the lookup sends the caller's request unchanged and ends in `ModifiedOrNew` of that answer, with a policy built from that same request and kept only if storable. |
| CachedClientProperties.NotModifiedVerdictGivesNotModified | crates/puffin-client/src/cached_client.rs:304-343 | A matching stale verdict, a usable answer and a not-modified verdict give exactly `NotModified` of the stored bytes, the answer's immutability and the verdict's policy, after the one conditional request. |
| CachedClientProperties.ModifiedVerdictGivesModifiedOrNew | crates/puffin-client/src/cached_client.rs:304-351 | A matching stale verdict, a usable answer and a modified verdict give exactly `ModifiedOrNew` of the answer with the verdict's policy kept only if storable, after the one conditional request. |
| CachedClientProperties.MatchRevalidatesConditionally | crates/puffin-client/src/cached_client.rs:304-318 | A stale verdict that matches sends exactly the conditional request and never ends in `FreshCache`. |
| CachedClientProperties.NotModifiedKeepsData | crates/puffin-client/src/cached_client.rs:333-343 | `NotModified` keeps the stored bytes and takes immutability from the revalidation response. It arises only from a matching stale verdict followed by a not-modified verdict, and its policy is the one that verdict carries. The callback never runs. With encoding and writing succeeding, the file then holds the new envelope and the call returns the old bytes decoded. |
| CachedClientProperties.UnstorableIsNotPersisted | crates/puffin-client/src/cached_client.rs:248-250 | A `ModifiedOrNew` without a storable policy creates and writes nothing. It returns the callback payload's target, or the callback's error. |
| CachedClientProperties.StorableIsPersisted | crates/puffin-client/src/cached_client.rs:222-247 | Under a storable policy, the file ends up holding exactly the encoded callback payload, the live response's immutability and the new policy. One write happens and the payload's target is returned. |
| CachedClientProperties.FailedSaveWritesNothing | crates/puffin-client/src/cached_client.rs:210-243 | When a save is due and the envelope does not encode or the write fails, resolving gives a client error (`Encode`, `CacheWrite`, or the payload's own encoding error) and neither writes nor removes. |
| CachedClientProperties.FailedSaveIsClientError | crates/puffin-client/src/cached_client.rs:163-253 | A whole call whose due save fails returns that client error, writes nothing, and leaves the cache file as reading it left it. |
| CachedClientProperties.SerdeStoresSerialization | crates/puffin-client/src/cached_client.rs:137-160 | Through the serde adapter, a new response under a storable policy, with saving succeeding, stores exactly the format's serialization of the callback's value under the response's immutability and the new policy, and the call returns that value. |
| CachedClientProperties.SerdeHitDeserializes | crates/puffin-client/src/cached_client.rs:37-39 | Through the serde adapter, a fresh-verdict hit has no effect and returns the format's deserialization of the stored bytes, or a `Decode` client error when they do not deserialize. |
| CachedClientProperties.SerdeStoreThenServe | crates/puffin-client/src/cached_client.rs:137-160 | A value the format round-trips, stored by one call through the serde adapter, is returned as itself, with no effect, by a later call served from that file by a fresh verdict. |
| CachedClientProperties.CallbackErrorIsNotPersisted | crates/puffin-client/src/cached_client.rs:226-228 | A callback error is returned as `Callback` of that error, and nothing is written. |
| CachedClientProperties.ErrorStatusComesBeforeCallback | crates/puffin-client/src/cached_client.rs:311-318 | An error status on the request sent is returned as a `RequestError` client error. The callback does not run and nothing is written. |
| CachedClientProperties.CorruptEntryIsMiss | crates/puffin-client/src/cached_client.rs:183-203 | A corrupt file gives the same result as a missing one, with one removal in front of the same effects. |
| CachedClientProperties.EveryWriteFollowsAnExchange | crates/puffin-client/src/cached_client.rs:208-252 | Every written envelope follows exactly one request. It is either the cached bytes under a not-modified revalidation's envelope, or the encoded callback payload under a storable policy. |
| CachedClientProperties.StoreServeRevalidate | crates/puffin-client/src/cached_client.rs:163-253 | Three calls on one entry, each reading the file the previous one left: a new storable response is stored, then served by a fresh verdict with no effect, then kept by a not-modified revalidation without the callback. All three return the first payload's target. |
| CachedClientProperties.RevalidationIgnoresStorability | crates/puffin-client/src/cached_client.rs:333-343 | A not-modified revalidation writes its envelope even when the refreshed policy is not storable. |
| PackageNames.ReplaceByChar | crates/puffin-normalize/src/package_name.rs:28 | Replacing a character by one character keeps the length. It changes exactly the positions that held the pattern. |
| PackageNames.ReplaceAbsent | crates/puffin-normalize/src/package_name.rs:28 | Replacing a character that does not occur leaves the string unchanged. |
| PackageNames.AsDistInfoName | crates/puffin-normalize/src/package_name.rs:27-29 | The dist-info name has the stored name's length and contains no `-`. Each position holds `_` where the name had `-`, and the name's character otherwise. |
| PackageNames.DistInfoNameIdempotent | crates/puffin-normalize/src/package_name.rs:27-29 | Escaping an escaped name changes nothing. |
| PackageNames.DistInfoNameInvertible | crates/puffin-normalize/src/package_name.rs:11-29 | For a name without `_`, as normalization guarantees, turning every `_` of the dist-info name back into `-` recovers the name. |
| PackageNames.Display | crates/puffin-normalize/src/package_name.rs:57-61 | The displayed string is the stored name, unchanged. |
| PackageNames.AsRef | crates/puffin-normalize/src/package_name.rs:63-67 | The string view is the stored name, unchanged. |
| PackageNames.FromRef | crates/puffin-normalize/src/package_name.rs:32-37 | The copy is the same name, so it displays and escapes exactly as the original does. |

## Behaviour worth noting

- After a not-modified revalidation, the envelope is written without asking `is_storable` of the refreshed policy (cached_client.rs:210-221, 333-343). `RevalidationIgnoresStorability` shows a non-storable policy being written.
- After an identity mismatch, the code never sends the conditional request: it goes straight to `fresh_request` (cached_client.rs:298-302). So the engine itself sends at most one request per call.
- `MustRevalidate` is inserted only into the copy of the request shown to the cache policy (cached_client.rs:279-287). The request sent carries it only if the policy's revalidation headers do.
- A stored payload that fails to decode is not treated as corruption. On `FreshCache` and `NotModified`, `Payload::from_bytes` is called and its error is returned as a client error (cached_client.rs:21, 209, 217). Which error that is depends on the payload type: the serde adapter returns `Decode` (cached_client.rs:37-39). Only an envelope that fails to decode is a miss.
- The outcome of removing a corrupt cache file is discarded (cached_client.rs:197). The model records the removal with its outcome, and the call goes on as a miss either way.

## Left out

- HTTP caching semantics (RFC 7234 freshness, storability, conditional headers) and `CacheHeaders::is_immutable`: they belong to an external library and to `cache_headers.rs`. `cache_headers.rs` is not part of this model. Both are oracle functions here.
- MessagePack encoding and decoding of the envelope: the model reads the file as one of three states. Encoding success is an input. A written envelope is read back as itself.
- `rmp_serde` for payloads: modelled as an arbitrary `Format` of two partial functions.
- The `reqwest` transport and its retry middleware: the transport is a function from request to answer.
- Header conversion between `reqwest` and `http` types (cached_client.rs:319-326, 375-382): a response is shown to the policy through `Parts`, which copies its status and headers.
- Requests and other effects of the callback: the callback is a pure function from response to result, so any request it makes, for example through the uncached client, does not appear in a trace, and request counts cover only the engine's own requests.
- Multi-valued headers: a header map holds one value per name, the last one inserted.
- Header names are kept in lower case, as `http::HeaderName` stores them, but the conversion of other spellings to lower case is not modelled: names arrive already lower-cased.
- `SystemTime::now()`: three clock readings are inputs.
- Tracing spans and log messages.
- The async machinery.
- The actual file system calls: reads, removals, `create_dir_all` and `write_atomic` are effects or success flags.
- Concurrent calls on one entry: each call is modelled alone.
- `req.try_clone().expect(...)` panics on streaming request bodies. Modelled requests have no body, so that panic is not modelled.
- `CachedClient::new` and `uncached`: these only hold and clone the transport and carry no logic.
- `PackageName::new`, `FromStr` and `Deserialize`: they delegate to validation functions whose code is not part of this model. Normalization is assumed only by `DistInfoNameInvertible`, through its requirement that the name hold no `_`.
- `crates/puffin-installer/src/url_index.rs`: a directory scan plus a lookup by an identifier whose computation is not part of this model.
