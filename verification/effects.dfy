/** The observable effects of one cached request, in the order they happen,
    and what they leave in the cache file. */
module Effects {
  import opened Http
  import opened Envelope

  /** One effect of a cached request:
      - `RemoveEntry`: removal of a cache file that did not decode was asked
        for; `removed` says whether it succeeded, which the call ignores;
      - `Send`: a request was handed to the HTTP transport;
      - `RunCallback`: the response callback was run on a response;
      - `CreateDir`: the entry's directory was created;
      - `WriteEnvelope`: an envelope was atomically written to the entry. */
  datatype Effect =
    | RemoveEntry(removed: bool)
    | Send(request: Request)
    | RunCallback(response: Response)
    | CreateDir
    | WriteEnvelope(envelope: DataWithCachePolicy)

  datatype Kind = RemoveKind | SendKind | CallbackKind | CreateDirKind | WriteKind

  function KindOf(e: Effect): Kind {
    match e
    case RemoveEntry(_) => RemoveKind
    case Send(_) => SendKind
    case RunCallback(_) => CallbackKind
    case CreateDir => CreateDirKind
    case WriteEnvelope(_) => WriteKind
  }

  /** A result together with the effects that produced it. */
  datatype Traced<R> = Traced(result: R, trace: seq<Effect>)

  /** How many effects of kind `k` the trace holds. */
  function Count(t: seq<Effect>, k: Kind): (n: nat)
    ensures n <= |t|
    ensures n == 0 <==> forall i :: 0 <= i < |t| ==> KindOf(t[i]) != k
    ensures n == |t| <==> forall i :: 0 <= i < |t| ==> KindOf(t[i]) == k
    decreases |t|
  {
    if t == [] then 0
    else (if KindOf(t[0]) == k then 1 else 0) + Count(t[1..], k)
  }

  lemma {:induction false} CountConcat(a: seq<Effect>, b: seq<Effect>, k: Kind)
    ensures Count(a + b, k) == Count(a, k) + Count(b, k)
    decreases |a|
  {
    if a == [] {
      assert a + b == b;
    } else {
      assert (a + b)[1..] == a[1..] + b;
      CountConcat(a[1..], b, k);
    }
  }

  /** A trace in which effects of kind `k` can only sit at index `j` holds at
      most one of them. */
  lemma {:induction false} CountAtMostOne(t: seq<Effect>, k: Kind, j: int)
    requires forall i :: 0 <= i < |t| && KindOf(t[i]) == k ==> i == j
    ensures Count(t, k) <= 1
    decreases |t|
  {
    if t != [] {
      if KindOf(t[0]) == k {
        assert forall i :: 0 <= i < |t[1..]| ==> KindOf(t[1..][i]) != k by {
          forall i | 0 <= i < |t[1..]|
            ensures KindOf(t[1..][i]) != k
          {
            assert t[1..][i] == t[i + 1];
          }
        }
      } else {
        forall i | 0 <= i < |t[1..]| && KindOf(t[1..][i]) == k
          ensures i == j - 1
        {
          assert t[1..][i] == t[i + 1];
        }
        CountAtMostOne(t[1..], k, j - 1);
      }
    }
  }

  /** The cache file as one effect leaves it: a removed file can no longer be
      read, a failed removal leaves the file as it was, a written one holds
      the written envelope. */
  function Apply(file: FileState, e: Effect): FileState {
    match e
    case RemoveEntry(removed) => if removed then Unreadable else file
    case WriteEnvelope(env) => Stored(env)
    case _ => file
  }

  /** The cache file after all effects of `t`. */
  function FileAfter(file: FileState, t: seq<Effect>): (r: FileState)
    ensures Count(t, WriteKind) == 0 && Count(t, RemoveKind) == 0 ==> r == file
    ensures |t| > 0 && t[|t| - 1].WriteEnvelope? ==> r == Stored(t[|t| - 1].envelope)
    decreases |t|
  {
    if t == [] then file else FileAfter(Apply(file, t[0]), t[1..])
  }

  /** Replaying two traces one after the other is replaying their
      concatenation. */
  lemma {:induction false} FileAfterConcat(file: FileState, a: seq<Effect>, b: seq<Effect>)
    ensures FileAfter(file, a + b) == FileAfter(FileAfter(file, a), b)
    decreases |a|
  {
    if a == [] {
      assert a + b == b;
    } else {
      assert (a + b)[1..] == a[1..] + b;
      FileAfterConcat(Apply(file, a[0]), a[1..], b);
    }
  }

  /** Effects that neither write nor remove leave the file as it was. */
  lemma FileAfterSkips(file: FileState, a: seq<Effect>, b: seq<Effect>, c: seq<Effect>)
    requires Count(b, WriteKind) == 0 && Count(b, RemoveKind) == 0
    requires Count(c, WriteKind) == 0 && Count(c, RemoveKind) == 0
    ensures FileAfter(file, a + b + c) == FileAfter(file, a)
  {
    CountConcat(b, c, WriteKind);
    CountConcat(b, c, RemoveKind);
    assert a + b + c == a + (b + c);
    FileAfterConcat(file, a, b + c);
  }
}
