/** Bounded fixed-delay retry around one upstream call: one initial attempt
    plus up to `retries` more, with a fixed wait before each retry, and the
    last error rethrown when every attempt failed.

    The upstream is an oracle: attempt `i` receives `upstream[i]`, and an
    oracle that has run out answers with a transport error. A response
    counts as a success only when its status is 2xx (`response.ok`); any
    other status is thrown as `HTTP error! status: N` and handled exactly
    like a transport error. The body is parsed inside the same `try`, so a
    2xx answer whose body is not JSON is a failed attempt too: the oracle
    gives it as a `NetworkError` with the parser's message, and the body of
    a `Response` is the parsed value. */
module Retry {
  import opened Wrappers
  import opened Decimal

  /** What one upstream call yields: an HTTP response, or a transport error. */
  datatype Outcome<P> = Response(status: nat, body: P) | NetworkError(reason: string)

  /** `response.ok`: the status is in 200..299. */
  predicate IsOk<P>(o: Outcome<P>) {
    o.Response? && 200 <= o.status <= 299
  }

  /** The message of the error a failed attempt throws. */
  function ErrorMessage<P>(o: Outcome<P>): string {
    match o
    case Response(status, _) => "HTTP error! status: " + NatToString(status)
    case NetworkError(reason) => reason
  }

  const EXHAUSTED := "upstream unreachable"

  /** The outcome of the `i`-th call (counting from 0). */
  function Attempt<P>(upstream: seq<Outcome<P>>, i: nat): Outcome<P> {
    if i < |upstream| then upstream[i] else NetworkError(EXHAUSTED)
  }

  /** The oracle as seen from the next call on. */
  function Rest<P>(upstream: seq<Outcome<P>>): (r: seq<Outcome<P>>)
    ensures forall i: nat :: Attempt(r, i) == Attempt(upstream, i + 1)
  {
    if |upstream| == 0 then [] else upstream[1..]
  }

  /** The run of one refresh: its result, how many upstream calls it made
      and how long it waited in total. */
  datatype Run<P> = Run(result: Result<P>, calls: nat, waited: nat)

  /** `fetchDataWithRetry(retries)`: on a 2xx response return its body;
      otherwise wait `delay` and retry while `retries > 0`, else rethrow. */
  function FetchWithRetry<P>(upstream: seq<Outcome<P>>, retries: nat, delay: nat): (r: Run<P>)
    ensures 1 <= r.calls <= retries + 1
    ensures r.waited == delay * (r.calls - 1)
    ensures forall i :: 0 <= i < r.calls - 1 ==> !IsOk(Attempt(upstream, i))
    ensures r.result.Ok? ==>
      IsOk(Attempt(upstream, r.calls - 1)) && r.result.value == Attempt(upstream, r.calls - 1).body
    ensures r.result.Err? ==>
      r.calls == retries + 1 && !IsOk(Attempt(upstream, retries))
      && r.result.message == ErrorMessage(Attempt(upstream, retries))
    decreases retries
  {
    var o := Attempt(upstream, 0);
    if IsOk(o) then Run(Ok(o.body), 1, 0)
    else if retries > 0 then
      var r := FetchWithRetry(Rest(upstream), retries - 1, delay);
      assert forall i :: 1 <= i < r.calls ==> Attempt(upstream, i) == Attempt(Rest(upstream), i - 1);
      Run(r.result, r.calls + 1, r.waited + delay)
    else Run(Err(ErrorMessage(o)), 1, 0)
  }

  /** A refresh succeeds exactly when one of its `retries + 1` attempts does. */
  lemma SucceedsIffSomeAttemptOk<P>(upstream: seq<Outcome<P>>, retries: nat, delay: nat)
    ensures FetchWithRetry(upstream, retries, delay).result.Ok?
            <==> exists i :: 0 <= i <= retries && IsOk(Attempt(upstream, i))
  {
    var r := FetchWithRetry(upstream, retries, delay);
    if r.result.Ok? {
      assert IsOk(Attempt(upstream, r.calls - 1));
    }
  }

  /** Two oracles that agree on which attempts succeed and on the bodies of
      the successful ones give refreshes with the same calls, the same waits
      and the same success value: a non-2xx status and a transport error
      are interchangeable. */
  lemma {:induction false} FailuresInterchangeable<P>(u: seq<Outcome<P>>, v: seq<Outcome<P>>, retries: nat, delay: nat)
    requires forall i :: 0 <= i <= retries ==> (IsOk(Attempt(u, i)) <==> IsOk(Attempt(v, i)))
    requires forall i :: 0 <= i <= retries && IsOk(Attempt(u, i)) && IsOk(Attempt(v, i)) ==> Attempt(u, i).body == Attempt(v, i).body
    ensures FetchWithRetry(u, retries, delay).calls == FetchWithRetry(v, retries, delay).calls
    ensures FetchWithRetry(u, retries, delay).waited == FetchWithRetry(v, retries, delay).waited
    ensures FetchWithRetry(u, retries, delay).result.Ok? <==> FetchWithRetry(v, retries, delay).result.Ok?
    ensures FetchWithRetry(u, retries, delay).result.Ok? ==>
      FetchWithRetry(u, retries, delay).result.value == FetchWithRetry(v, retries, delay).result.value
    decreases retries
  {
    if !IsOk(Attempt(u, 0)) && retries > 0 {
      var ru, rv := Rest(u), Rest(v);
      forall i | 0 <= i <= retries - 1
        ensures IsOk(Attempt(ru, i)) <==> IsOk(Attempt(rv, i))
      {
        assert IsOk(Attempt(u, i + 1)) <==> IsOk(Attempt(v, i + 1));
      }
      forall i | 0 <= i <= retries - 1 && IsOk(Attempt(ru, i)) && IsOk(Attempt(rv, i))
        ensures Attempt(ru, i).body == Attempt(rv, i).body
      {
        assert Attempt(u, i + 1).body == Attempt(v, i + 1).body;
      }
      FailuresInterchangeable(ru, rv, retries - 1, delay);
    }
  }
}
