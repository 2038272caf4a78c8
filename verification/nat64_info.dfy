/**
  The request path of the React Native module `Nat64Info`
  (`Nat64InfoModule.getIpV6Address`): a lazily filled, time-limited cache
  of NAT64 prefix information, consulted to turn an IPv4 literal into the
  IPv6 address that reaches it through the current network's NAT64 gateway.

  The module's two fields, `natInfo` and `createTimestamp`, become the
  immutable record `Cache`; one call of `getIpV6Address` becomes the pure
  function `GetIpV6Address`, which takes the two clock readings the Java
  code makes, the outcome of `NAT64AddrInfo.discover` and of
  `NAT64AddrInfo.getIpV6Address` as oracles, and returns the new cache, the
  way the promise is settled, and the trace of calls made to the oracles.
  The type `I` stands for the opaque `NAT64AddrInfo` object.
 */
module Nat64Info {

  import opened JavaLong

  /** `NAT_INFO_LIFETIME`: how long discovered info is trusted, in milliseconds. */
  const NatInfoLifetime: Long := 60 * 1000

  /** `NAT_INFO_HOST`: the probe host whose IPv4 and IPv6 answers reveal the prefix. */
  const NatInfoHost: string := "nat64.jitsi.net"

  /** A Java reference that may be `null`. */
  datatype Option<+T> = None | Some(value: T)

  /** What `NAT64AddrInfo.discover(host)` does when called: return the
      discovered info, or throw `UnknownHostException`. */
  datatype Discovery<+I> = Discovered(info: I) | UnknownHost

  /** What `natInfo.getIpV6Address(ipv4)` does when called: return the
      IPv6 literal, or throw `IllegalArgumentException`. */
  datatype Translation = Translated(ipv6: string) | IllegalArgument

  /** How the promise handed to `getIpV6Address` is settled. */
  datatype Settlement = Resolve(value: Option<string>) | Reject(message: string)

  /** One call into a collaborator, recorded so that the number of
      discoveries a request performs can be stated. */
  datatype Call<+I> = Discover(host: string) | GetIpV6(info: I, ipv4: string)

  /** The module's mutable state: the cached info (`null` when absent) and
      the clock reading taken when it was last (re)discovered. */
  datatype Cache<+I> = Cache(natInfo: Option<I>, createTimestamp: Long)

  /** Everything one request produces. */
  datatype Response<+I> = Response(cache: Cache<I>, settlement: Settlement, calls: seq<Call<I>>)

  /** The state of a freshly constructed module: Java's default field values. */
  function Initial<I>(): (c: Cache<I>)
    ensures c.natInfo.None?
    ensures c.createTimestamp == 0
  {
    Cache(None, 0)
  }

  /** The guard of the reset: the cache is stale at clock reading `now`
      when `now - createTimestamp`, in `long` arithmetic, strictly exceeds
      the lifetime. */
  predicate Stale<I>(c: Cache<I>, now: Long)
  {
    Sub(now, c.createTimestamp) > NatInfoLifetime
  }

  /** Reset if cached for too long: stale info is dropped, fresh info is
      kept, and the timestamp is left alone either way. */
  function ResetIfStale<I>(c: Cache<I>, t1: Long): (r: Cache<I>)
    ensures r.createTimestamp == c.createTimestamp
    ensures r.natInfo.None? <==> c.natInfo.None? || Stale(c, t1)
    ensures r.natInfo.Some? ==> r.natInfo == c.natInfo
  {
    if Stale(c, t1) then c.(natInfo := None) else c
  }

  /** Fill the cache if it is empty: call discovery once against the fixed
      probe host, keep what it found (nothing if it threw), and stamp the
      clock reading `t2` whether or not it succeeded. A full cache is
      returned untouched with no call made. */
  function FillIfEmpty<I>(c: Cache<I>, t2: Long, discover: string -> Discovery<I>): (r: (Cache<I>, seq<Call<I>>))
    ensures c.natInfo.Some? ==> r.0 == c && r.1 == []
    ensures c.natInfo.None? ==> r.1 == [Discover(NatInfoHost)] && r.0.createTimestamp == t2
    ensures c.natInfo.None? ==> (r.0.natInfo.Some? <==> discover(NatInfoHost).Discovered?)
    ensures c.natInfo.None? && r.0.natInfo.Some? ==> r.0.natInfo.value == discover(NatInfoHost).info
  {
    if c.natInfo.Some? then
      (c, [])
    else
      var found := match discover(NatInfoHost)
                   case Discovered(info) => Some(info)
                   case UnknownHost => None;
      (Cache(found, t2), [Discover(NatInfoHost)])
  }

  /** Settle the promise from whatever info is cached: no info resolves
      `null` without asking for a translation; otherwise the translation is
      asked for once and its address resolved, and an invalid argument is
      swallowed into `null`. The promise is never rejected. */
  function Settle<I>(natInfo: Option<I>, ipv4: string, translate: (I, string) -> Translation): (r: (Settlement, seq<Call<I>>))
    ensures r.0.Resolve?
    ensures natInfo.None? ==> r.0.value.None? && r.1 == []
    ensures natInfo.Some? ==> r.1 == [GetIpV6(natInfo.value, ipv4)]
    ensures natInfo.Some? && translate(natInfo.value, ipv4).Translated? ==>
              r.0.value == Some(translate(natInfo.value, ipv4).ipv6)
    ensures natInfo.Some? && translate(natInfo.value, ipv4).IllegalArgument? ==> r.0.value.None?
  {
    match natInfo
    case None => (Resolve(None), [])
    case Some(info) =>
      var answer := match translate(info, ipv4)
                    case Translated(ipv6) => Some(ipv6)
                    case IllegalArgument => None;
      (Resolve(answer), [GetIpV6(info, ipv4)])
  }

  /** One call of `getIpV6Address(ipv4, promise)`. `t1` is the clock reading
      taken for the staleness check and `t2` the one stamped after a
      discovery; `discover` and `translate` are what the two
      `NAT64AddrInfo` calls would do at this moment. */
  function GetIpV6Address<I>(c: Cache<I>, ipv4: string, t1: Long, t2: Long,
                             discover: string -> Discovery<I>,
                             translate: (I, string) -> Translation): (r: Response<I>)
    // the promise is always resolved, never rejected
    ensures r.settlement.Resolve?
    // at most one discovery, at most one translation, discovery first
    ensures |r.calls| <= 2
    ensures forall i :: 0 <= i < |r.calls| && r.calls[i].Discover? ==> i == 0 && r.calls[i].host == NatInfoHost
    ensures forall i :: 0 <= i < |r.calls| && r.calls[i].GetIpV6? ==> i == |r.calls| - 1 && r.calls[i].ipv4 == ipv4
    // the timestamp is either kept or restamped with t2
    ensures r.cache.createTimestamp == c.createTimestamp || r.cache.createTimestamp == t2
    // any info resolved into an address is the info left in the cache
    ensures r.settlement.value.Some? ==> r.cache.natInfo.Some?
  {
    var kept := ResetIfStale(c, t1);
    var (filled, discoveries) := FillIfEmpty(kept, t2, discover);
    var (settlement, translations) := Settle(filled.natInfo, ipv4, translate);
    Response(filled, settlement, discoveries + translations)
  }
}
