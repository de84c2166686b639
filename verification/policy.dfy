/** The freshness/validation engine, seen from the cached client.

    The engine (HTTP caching as in sections 4.2 and 4.3 of RFC 7234) lives in
    an external library and is not part of this model: its answers are the
    fields of a `PolicyOracle`, total functions about which nothing is assumed.
    The same holds for `CacheHeaders::is_immutable`. */
module Policy {
  import opened Base
  import opened Http

  /** A wall-clock reading. */
  type Instant = nat

  /** The engine's serialized state, derived from one request/response pair. */
  datatype CachePolicy = CachePolicy(state: Bytes)

  /** Verdict of `before_request`: serve the cached copy, or revalidate with
      `request` (which carries the conditional headers); `matches` says whether
      the new request still matches the one the policy was built from. */
  datatype BeforeRequest =
    | FreshVerdict
    | StaleVerdict(request: Request, matches: bool)

  /** Verdict of `after_response`, each carrying the refreshed policy. */
  datatype AfterResponse =
    | NotModifiedVerdict(policy: CachePolicy)
    | ModifiedVerdict(policy: CachePolicy)

  datatype PolicyOracle = PolicyOracle(
    isStale: (CachePolicy, Instant) -> bool,
    beforeRequest: (CachePolicy, Request, Instant) -> BeforeRequest,
    afterResponse: (CachePolicy, Request, ResponseParts, Instant) -> AfterResponse,
    create: (Request, ResponseParts) -> CachePolicy,
    isStorable: CachePolicy -> bool,
    isImmutable: Headers -> bool)

  /** `policy.is_storable().then(|| policy)`: the policy is kept only when it
      may be stored. */
  function KeepIfStorable(oracle: PolicyOracle, policy: CachePolicy): (r: Option<CachePolicy>)
    ensures r.Some? <==> oracle.isStorable(policy)
    ensures r.Some? ==> r.value == policy
  {
    if oracle.isStorable(policy) then Some(policy) else None
  }
}
