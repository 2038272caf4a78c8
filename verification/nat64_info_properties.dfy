/**
  Properties of a single `getIpV6Address` request: the strict expiry
  boundary, reuse of fresh info without discovery, rediscovery when info
  is absent, the timestamp refresh on a failed discovery, how the promise
  is settled, and that translation never disturbs the cache.
 */
module Nat64InfoProperties {

  import opened JavaLong
  import opened Nat64Info

  /** Number of discovery calls in a trace. */
  function Discoveries<I>(calls: seq<Call<I>>): (n: nat)
    ensures n <= |calls|
    ensures n == 0 <==> forall i :: 0 <= i < |calls| ==> !calls[i].Discover?
  {
    if calls == [] then 0
    else (if calls[0].Discover? then 1 else 0) + Discoveries(calls[1..])
  }

  lemma {:induction false} DiscoveriesAppend<I>(a: seq<Call<I>>, b: seq<Call<I>>)
    ensures Discoveries(a + b) == Discoveries(a) + Discoveries(b)
  {
    if a == [] {
      assert a + b == b;
    } else {
      assert (a + b)[1..] == a[1..] + b;
      DiscoveriesAppend(a[1..], b);
    }
  }

  /** The promise's value when `translate` is asked about `info`. */
  function Answer<I>(translate: (I, string) -> Translation, info: I, ipv4: string): (a: Option<string>)
    ensures a.Some? <==> translate(info, ipv4).Translated?
  {
    match translate(info, ipv4)
    case Translated(ipv6) => Some(ipv6)
    case IllegalArgument => None
  }

  /** An independent, case-by-case description of one request: reuse of
      fresh info, a successful rediscovery, or a failed one. */
  function Expected<I>(c: Cache<I>, ipv4: string, t1: Long, t2: Long,
                       discover: string -> Discovery<I>,
                       translate: (I, string) -> Translation): (r: Response<I>)
    ensures r.settlement.Resolve?
  {
    if c.natInfo.Some? && Sub(t1, c.createTimestamp) <= NatInfoLifetime then
      Response(c, Resolve(Answer(translate, c.natInfo.value, ipv4)), [GetIpV6(c.natInfo.value, ipv4)])
    else if discover(NatInfoHost).Discovered? then
      var info := discover(NatInfoHost).info;
      Response(Cache(Some(info), t2), Resolve(Answer(translate, info, ipv4)),
               [Discover(NatInfoHost), GetIpV6(info, ipv4)])
    else
      Response(Cache(None, t2), Resolve(None), [Discover(NatInfoHost)])
  }

  /** The request is exactly the three-case description above. */
  lemma RequestMatchesCases<I>(c: Cache<I>, ipv4: string, t1: Long, t2: Long,
                               discover: string -> Discovery<I>,
                               translate: (I, string) -> Translation)
    ensures GetIpV6Address(c, ipv4, t1, t2, discover, translate)
         == Expected(c, ipv4, t1, t2, discover, translate)
  {
  }

  /** Expiry is strict: info exactly `NAT_INFO_LIFETIME` ms old is kept,
      one millisecond older is dropped (when the difference does not
      overflow a `long`). */
  lemma ExpiryBoundary<I>(c: Cache<I>, t1: Long)
    requires MinLong <= t1 - c.createTimestamp <= MaxLong
    ensures ResetIfStale(c, t1).natInfo.None? <==> c.natInfo.None? || t1 - c.createTimestamp > 60000
    ensures t1 - c.createTimestamp == 60000 ==> ResetIfStale(c, t1) == c
    ensures c.natInfo.Some? && t1 - c.createTimestamp == 60001 ==> ResetIfStale(c, t1).natInfo.None?
  {
  }

  /** A new module has no info, so its first request discovers at whatever
      clock reading it arrives; the reset fires only from 60 001 ms on. */
  lemma FirstRequestDiscovers<I>(ipv4: string, t1: Long, t2: Long,
                                 discover: string -> Discovery<I>,
                                 translate: (I, string) -> Translation)
    ensures var r := GetIpV6Address(Initial<I>(), ipv4, t1, t2, discover, translate);
            && Discoveries(r.calls) == 1
            && r.calls[0] == Discover(NatInfoHost)
            && r.cache.createTimestamp == t2
    ensures 0 <= t1 ==> (Stale(Initial<I>(), t1) <==> t1 > 60000)
  {
  }

  /** Info that is not stale is reused: no discovery, the cache
      (timestamp included) is untouched, and the promise gets the
      translation of the cached info. */
  lemma ReuseWithinLifetime<I>(c: Cache<I>, ipv4: string, t1: Long, t2: Long,
                               discover: string -> Discovery<I>,
                               translate: (I, string) -> Translation)
    requires c.natInfo.Some?
    requires !Stale(c, t1)
    ensures var r := GetIpV6Address(c, ipv4, t1, t2, discover, translate);
            && Discoveries(r.calls) == 0
            && r.cache == c
            && r.settlement == Resolve(Answer(translate, c.natInfo.value, ipv4))
  {
  }

  /** Which clock readings keep held info: exactly those at most the
      lifetime after the stamp, including every reading before the stamp
      (the wall clock moved back), whose negative difference never exceeds
      the lifetime, so the info outlives its lifetime. Holds as long as the
      difference fits in a `long`. */
  lemma NotStaleReadings<I>(c: Cache<I>, t1: Long)
    requires MinLong <= t1 - c.createTimestamp <= MaxLong
    ensures !Stale(c, t1) <==> t1 <= c.createTimestamp + NatInfoLifetime
    ensures t1 < c.createTimestamp ==> !Stale(c, t1) && ResetIfStale(c, t1) == c
  {
  }

  /** Discovery happens exactly once when the info is absent after the
      reset, always against `nat64.jitsi.net`, and never otherwise. */
  lemma DiscoveryExactlyWhenAbsent<I>(c: Cache<I>, ipv4: string, t1: Long, t2: Long,
                                      discover: string -> Discovery<I>,
                                      translate: (I, string) -> Translation)
    ensures var r := GetIpV6Address(c, ipv4, t1, t2, discover, translate);
            && (ResetIfStale(c, t1).natInfo.None? ==> Discoveries(r.calls) == 1 && r.calls[0] == Discover(NatInfoHost))
            && (ResetIfStale(c, t1).natInfo.Some? ==> Discoveries(r.calls) == 0)
  {
  }

  /** Once info is held, a request more than the lifetime later discovers
      anew and stamps `t2`, whatever discovery then returns. */
  lemma ExpiredInfoRediscovered<I>(c: Cache<I>, ipv4: string, t1: Long, t2: Long,
                                   discover: string -> Discovery<I>,
                                   translate: (I, string) -> Translation)
    requires c.natInfo.Some?
    requires MinLong <= t1 - c.createTimestamp <= MaxLong
    requires t1 - c.createTimestamp > NatInfoLifetime
    ensures var r := GetIpV6Address(c, ipv4, t1, t2, discover, translate);
            && Discoveries(r.calls) == 1
            && r.cache.createTimestamp == t2
            && (discover(NatInfoHost).UnknownHost? ==> r.cache.natInfo.None?)
  {
  }

  /** A failed discovery still refreshes the timestamp, leaves the cache
      empty, resolves `null` and never asks for a translation. */
  lemma FailedDiscoveryStampsTime<I>(c: Cache<I>, ipv4: string, t1: Long, t2: Long,
                                     discover: string -> Discovery<I>,
                                     translate: (I, string) -> Translation)
    requires ResetIfStale(c, t1).natInfo.None?
    requires discover(NatInfoHost).UnknownHost?
    ensures var r := GetIpV6Address(c, ipv4, t1, t2, discover, translate);
            && r.cache == Cache(None, t2)
            && r.settlement == Resolve(None)
            && r.calls == [Discover(NatInfoHost)]
  {
  }

  /** The refreshed timestamp does not stop a retry: after a failed
      discovery, the very next request discovers again, even one that
      arrives well within the lifetime of the new timestamp. */
  lemma FailedDiscoveryRetried<I>(c: Cache<I>, ipv4: string, t1: Long, t2: Long,
                                  discover: string -> Discovery<I>,
                                  translate: (I, string) -> Translation,
                                  ipv4': string, t1': Long, t2': Long,
                                  discover': string -> Discovery<I>,
                                  translate': (I, string) -> Translation)
    requires ResetIfStale(c, t1).natInfo.None?
    requires discover(NatInfoHost).UnknownHost?
    requires t2 <= t1' <= t2 + NatInfoLifetime
    ensures var r := GetIpV6Address(c, ipv4, t1, t2, discover, translate);
            var r' := GetIpV6Address(r.cache, ipv4', t1', t2', discover', translate');
            && Discoveries(r'.calls) == 1
            && !Stale(r.cache, t1')
            && r'.cache.createTimestamp == t2'
  {
  }

  /** After a successful discovery, a request within the lifetime of the
      stamp reuses the info with no discovery at all. */
  lemma SuccessfulDiscoveryReused<I>(c: Cache<I>, ipv4: string, t1: Long, t2: Long,
                                     discover: string -> Discovery<I>,
                                     translate: (I, string) -> Translation,
                                     ipv4': string, t1': Long, t2': Long,
                                     discover': string -> Discovery<I>,
                                     translate': (I, string) -> Translation)
    requires ResetIfStale(c, t1).natInfo.None?
    requires discover(NatInfoHost).Discovered?
    requires t2 <= t1' <= t2 + NatInfoLifetime
    ensures var r := GetIpV6Address(c, ipv4, t1, t2, discover, translate);
            var r' := GetIpV6Address(r.cache, ipv4', t1', t2', discover', translate');
            && Discoveries(r'.calls) == 0
            && r'.cache == r.cache
            && r'.settlement == Resolve(Answer(translate', discover(NatInfoHost).info, ipv4'))
  {
  }

  /** How the promise is settled: `null` with no translation asked when
      no info is left after discovery; otherwise exactly the translated
      address, or `null` when the translation throws. */
  lemma SettlementFollowsTranslation<I>(c: Cache<I>, ipv4: string, t1: Long, t2: Long,
                                        discover: string -> Discovery<I>,
                                        translate: (I, string) -> Translation)
    ensures var r := GetIpV6Address(c, ipv4, t1, t2, discover, translate);
            && (r.cache.natInfo.None? ==>
                  r.settlement == Resolve(None) && forall i :: 0 <= i < |r.calls| ==> !r.calls[i].GetIpV6?)
            && (r.cache.natInfo.Some? ==>
                  && r.calls[|r.calls| - 1] == GetIpV6(r.cache.natInfo.value, ipv4)
                  && (translate(r.cache.natInfo.value, ipv4).Translated? ==>
                        r.settlement == Resolve(Some(translate(r.cache.natInfo.value, ipv4).ipv6)))
                  && (translate(r.cache.natInfo.value, ipv4).IllegalArgument? ==>
                        r.settlement == Resolve(None)))
  {
  }

  /** The cache after a request does not depend on the translation at all,
      so a translation failure changes nothing in it; nor does the
      address asked about. */
  lemma TranslationLeavesCache<I>(c: Cache<I>, t1: Long, t2: Long,
                                  discover: string -> Discovery<I>,
                                  ipv4: string, translate: (I, string) -> Translation,
                                  ipv4': string, translate': (I, string) -> Translation)
    ensures GetIpV6Address(c, ipv4, t1, t2, discover, translate).cache
         == GetIpV6Address(c, ipv4', t1, t2, discover, translate').cache
  {
  }
}
