/**
  A sequence of `getIpV6Address` requests served one after another by the
  same module instance, and what the cache policy implies over such a
  sequence: the promise is always resolved, fresh info is never
  rediscovered within its lifetime, and a network without NAT64 costs one
  discovery per request.
 */
module Nat64InfoRuns {

  import opened JavaLong
  import opened Nat64Info
  import opened Nat64InfoProperties

  /** One request together with the two clock readings it takes and what
      the collaborators do while it runs (the network may change between
      requests, so each request carries its own oracles). */
  datatype Request<!I> = Request(ipv4: string, t1: Long, t2: Long,
                                discover: string -> Discovery<I>,
                                translate: (I, string) -> Translation)

  /** The final cache, each request's settlement in order, and every call made. */
  datatype RunResult<I> = RunResult(cache: Cache<I>, settlements: seq<Settlement>, calls: seq<Call<I>>)

  /** One request of the run, served from cache `c`. */
  function Serve<I>(c: Cache<I>, q: Request<I>): (r: Response<I>)
    ensures r.settlement.Resolve?
  {
    GetIpV6Address(c, q.ipv4, q.t1, q.t2, q.discover, q.translate)
  }

  /** Serves `reqs` in order starting from cache `c`. Every request's
      promise is settled once and resolved, and no request discovers more
      than once. */
  function Run<I>(c: Cache<I>, reqs: seq<Request<I>>): (r: RunResult<I>)
    ensures |r.settlements| == |reqs|
    ensures forall i :: 0 <= i < |r.settlements| ==> r.settlements[i].Resolve?
    ensures Discoveries(r.calls) <= |reqs|
    decreases |reqs|
  {
    if reqs == [] then
      RunResult(c, [], [])
    else
      var step := Serve(c, reqs[0]);
      var rest := Run(step.cache, reqs[1..]);
      DiscoveriesAppend(step.calls, rest.calls);
      assert Discoveries(step.calls) <= 1 by {
        DiscoveryExactlyWhenAbsent(c, reqs[0].ipv4, reqs[0].t1, reqs[0].t2, reqs[0].discover, reqs[0].translate);
      }
      RunResult(rest.cache, [step.settlement] + rest.settlements, step.calls + rest.calls)
  }

  /** Info in the cache is reused by every request whose clock reading
      does not make it stale (within its lifetime, or before its stamp
      after the clock moved back): no discovery at all, and the cache ends
      exactly as it started. */
  lemma {:induction false} RunReusesWithinLifetime<I>(c: Cache<I>, reqs: seq<Request<I>>)
    requires c.natInfo.Some?
    requires forall i :: 0 <= i < |reqs| ==> !Stale(c, reqs[i].t1)
    ensures Run(c, reqs).cache == c
    ensures Discoveries(Run(c, reqs).calls) == 0
    decreases |reqs|
  {
    if reqs != [] {
      var q := reqs[0];
      ReuseWithinLifetime(c, q.ipv4, q.t1, q.t2, q.discover, q.translate);
      var step := Serve(c, q);
      assert step.cache == c;
      RunReusesWithinLifetime(c, reqs[1..]);
      DiscoveriesAppend(step.calls, Run(c, reqs[1..]).calls);
    }
  }

  /** On a network where discovery keeps failing, every request discovers
      once, however close together they arrive; each resolves `null`; the
      cache stays empty and carries the last request's stamp. */
  lemma {:induction false} RunRetriesWhileFailing<I>(c: Cache<I>, reqs: seq<Request<I>>)
    requires c.natInfo.None?
    requires forall i :: 0 <= i < |reqs| ==> reqs[i].discover(NatInfoHost).UnknownHost?
    ensures Discoveries(Run(c, reqs).calls) == |reqs|
    ensures forall i :: 0 <= i < |reqs| ==> Run(c, reqs).settlements[i] == Resolve(None)
    ensures Run(c, reqs).cache.natInfo.None?
    ensures |reqs| > 0 ==> Run(c, reqs).cache.createTimestamp == reqs[|reqs| - 1].t2
    decreases |reqs|
  {
    if reqs != [] {
      var q := reqs[0];
      FailedDiscoveryStampsTime(c, q.ipv4, q.t1, q.t2, q.discover, q.translate);
      var step := Serve(c, q);
      assert step.cache == Cache(None, q.t2);
      var rest := Run(step.cache, reqs[1..]);
      RunRetriesWhileFailing(step.cache, reqs[1..]);
      DiscoveriesAppend(step.calls, rest.calls);
      assert Run(c, reqs).settlements == [Resolve(None)] + rest.settlements;
      if |reqs| > 1 {
        assert reqs[1..][|reqs[1..]| - 1] == reqs[|reqs| - 1];
      }
    }
  }

  /** A request sequence that starts from an empty cache (a new module, or
      one whose last discovery failed) and whose first discovery succeeds
      performs exactly one discovery as long as every later clock reading
      stays within the lifetime of that first stamp. */
  lemma {:induction false} RunDiscoversOncePerLifetime<I>(c: Cache<I>, reqs: seq<Request<I>>)
    requires c.natInfo.None?
    requires |reqs| > 0
    requires reqs[0].discover(NatInfoHost).Discovered?
    requires forall i :: 1 <= i < |reqs| ==>
               reqs[0].t2 <= reqs[i].t1 <= reqs[0].t2 + NatInfoLifetime
    ensures Discoveries(Run(c, reqs).calls) == 1
    ensures Run(c, reqs).cache == Cache(Some(reqs[0].discover(NatInfoHost).info), reqs[0].t2)
  {
    var q := reqs[0];
    var step := Serve(c, q);
    RequestMatchesCases(c, q.ipv4, q.t1, q.t2, q.discover, q.translate);
    assert step.cache == Cache(Some(q.discover(NatInfoHost).info), q.t2);
    var tail := reqs[1..];
    forall i | 0 <= i < |tail|
      ensures !Stale(step.cache, tail[i].t1)
    {
      assert tail[i] == reqs[i + 1];
    }
    RunReusesWithinLifetime(step.cache, tail);
    DiscoveriesAppend(step.calls, Run(step.cache, tail).calls);
  }
}
