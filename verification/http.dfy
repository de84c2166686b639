/** The HTTP values the cached client inspects: requests, responses, header
    maps and the status check applied to every response it receives. */
module Http {
  import opened Base

  /** Header names are case-insensitive and stored in lower case, so each
      spelling of a name is one key. */
  predicate IsLowerCase(s: string) {
    forall i :: 0 <= i < |s| ==> !('A' <= s[i] <= 'Z')
  }

  type HeaderName = s: string | IsLowerCase(s) witness ""

  /** A header map. Inserting a name replaces every value it had, so one value
      per name is kept. */
  type Headers = map<HeaderName, string>

  /** The header the `MustRevalidate` mode sets, and the value it sets. */
  const CACHE_CONTROL: HeaderName := "cache-control"
  const MAX_AGE_ZERO_MUST_REVALIDATE: string := "max-age=0, must-revalidate"

  /** A request without a body: method (`verb`), URL and headers. */
  datatype Request = Request(verb: string, url: string, headers: Headers)

  /** A received response; `body` is what the response callback consumes. */
  datatype Response = Response(status: nat, headers: Headers, body: Bytes)

  /** The body-less view of a response that the cache policy is shown. */
  datatype ResponseParts = ResponseParts(status: nat, headers: Headers)

  function Parts(res: Response): ResponseParts {
    ResponseParts(res.status, res.headers)
  }

  /** A client (4xx) or server (5xx) error status, which `error_for_status`
      turns into an error. */
  predicate IsErrorStatus(status: nat) {
    400 <= status < 600
  }

  /** Insert `value` under `name`, replacing what was there. */
  function Insert(h: Headers, name: HeaderName, value: string): (r: Headers)
    ensures name in r && r[name] == value
    ensures r.Keys == h.Keys + {name}
    ensures forall k :: k in h && k != name ==> r[k] == h[k]
  {
    h[name := value]
  }

  /** Insert every header of `extra` into `h`, one after the other, so that a
      name present in both ends up with the value from `extra`. */
  function InsertAll(h: Headers, extra: Headers): (r: Headers)
    ensures r.Keys == h.Keys + extra.Keys
    ensures forall k :: k in extra ==> r[k] == extra[k]
    ensures forall k :: k in h && k !in extra ==> r[k] == h[k]
  {
    h + extra
  }
}
