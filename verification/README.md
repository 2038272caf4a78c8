# Nat64Info request cache, modelled in Dafny

The Android SDK of Jitsi Meet exposes a React Native module, `Nat64Info`,
whose one method `getIpV6Address(ipv4Address, promise)` answers with the
IPv6 address through which an IPv4-only host is reached on a NAT64/DNS64
network, or with `null`. The interesting part is not the address synthesis
(delegated to `NAT64AddrInfo`) but the small cache around it: the module keeps
the discovered NAT64 information (`natInfo`) and the clock reading at which it
was discovered (`createTimestamp`), and on every request

1. drops the info when `now - createTimestamp > NAT_INFO_LIFETIME`
   (60 000 ms, strict comparison);
2. if no info is held, runs discovery against the probe host
   `nat64.jitsi.net` and stamps the clock, whether or not discovery worked;
3. translates the address with whatever info is held;
4. resolves the promise with the address, or with `null` when there is no
   info or the translation rejects its argument; it never rejects.

The model (four modules) is functional:

- `JavaLong` (`java_long.dfy`): the Java `long` range and Java's wrapping
  subtraction, used for the staleness test.
- `Nat64Info` (`nat64_info.dfy`): the two fields as the immutable record
  `Cache<I>`, the three phases of a request (`ResetIfStale`, `FillIfEmpty`,
  `Settle`) and their composition `GetIpV6Address`. `I` stands for the
  opaque `NAT64AddrInfo` object. The two clock readings the Java code takes
  (`t1` for the test on line 91, `t2` for the stamp on line 102) and the two
  collaborators are parameters: `discover: string -> Discovery<I>` says what
  `NAT64AddrInfo.discover(host)` would return or throw, and
  `translate: (I, string) -> Translation` what `natInfo.getIpV6Address(ipv4)`
  would. A request returns the new cache, the promise's `Settlement` and the
  trace of collaborator calls, so "no discovery" and "exactly one
  discovery" are statable.
- `Nat64InfoProperties` (`nat64_info_properties.dfy`): single-request
  properties, and `Expected`, an independent three-case description of a
  request (reuse / successful rediscovery / failed rediscovery) proved equal
  to `GetIpV6Address` for all inputs.
- `Nat64InfoRuns` (`nat64_info_runs.dfy`): `Run`, a sequence of requests
  served by one module instance, with inductive properties over it.

Where the documentation and the code disagree, the model follows the code:

- The method's doc comment (lines 84-85) says the promise is rejected for an
  invalid IPv4 address; the code (lines 110-116) resolves `null` instead.
  `GetIpV6Address` is proved never to reject.
- The code never parses the IPv4 string itself; any validation is inside
  `NAT64AddrInfo.getIpV6Address`, which is only seen through the
  `IllegalArgument` outcome.
- The expiry test is strict: info exactly 60 000 ms old is still used
  (`ExpiryBoundary`).
- The timestamp is refreshed after a failed discovery too, so a timestamp
  does not imply that info is held (`FailedDiscoveryStampsTime`); since the
  refresh does not stop rediscovery, a network without NAT64 costs one
  discovery per request (`FailedDiscoveryRetried`, `RunRetriesWhileFailing`).
- A wall clock that moves back keeps the info: a negative difference is
  never above the lifetime (`NotStaleReadings`).
- The lifetime and probe host are fixed constants, not configuration.

## Model

| member | source | states |
|---|---|---|
| JavaLong.Sub | android/sdk/src/main/java/org/jitsi/meet/sdk/Nat64InfoModule.java:91 | Java `long` subtraction: equals the exact difference when it fits in 64 bits (always, for non-negative clock readings) and wraps by 2^64 otherwise |
| Nat64Info.Initial | android/sdk/src/main/java/org/jitsi/meet/sdk/Nat64InfoModule.java:63-68 | a new module holds no info and a zero timestamp (Java field defaults) |
| Nat64Info.ResetIfStale | android/sdk/src/main/java/org/jitsi/meet/sdk/Nat64InfoModule.java:90-93 | after the reset, info is absent exactly when it was absent or stale; surviving info is unchanged; the timestamp is never touched |
| Nat64Info.FillIfEmpty | android/sdk/src/main/java/org/jitsi/meet/sdk/Nat64InfoModule.java:94-103 | with info held: no call, nothing changes; without: exactly one discovery of `nat64.jitsi.net`, the stamp becomes `t2` either way, and info is held afterwards iff discovery returned it, and is what it returned |
| Nat64Info.Settle | android/sdk/src/main/java/org/jitsi/meet/sdk/Nat64InfoModule.java:105-116 | always resolves; no info resolves `null` with no translation call; with info, one translation call, whose address is resolved, and `null` when it throws `IllegalArgumentException` |
| Nat64Info.GetIpV6Address | android/sdk/src/main/java/org/jitsi/meet/sdk/Nat64InfoModule.java:88-117 | the promise is resolved, never rejected; at most one discovery (first, of the fixed host) and one translation (last, of the given address); the timestamp is kept or becomes `t2`; an address is only resolved when info is left cached |
| Nat64InfoProperties.RequestMatchesCases | android/sdk/src/main/java/org/jitsi/meet/sdk/Nat64InfoModule.java:88-117 | a request is exactly one of: reuse of fresh info with its translation; a successful rediscovery stamped `t2` followed by a translation; a failed rediscovery stamped `t2` resolving `null` |
| Nat64InfoProperties.ExpiryBoundary | android/sdk/src/main/java/org/jitsi/meet/sdk/Nat64InfoModule.java:91-93 | info is dropped iff `t1 - createTimestamp > 60000`; at exactly 60 000 ms it is kept, at 60 001 ms it is dropped |
| Nat64InfoProperties.FirstRequestDiscovers | android/sdk/src/main/java/org/jitsi/meet/sdk/Nat64InfoModule.java:91-103 | the first request of a new module discovers exactly once and stamps `t2`, at any clock reading; for non-negative readings the reset itself fires only above 60 000 ms |
| Nat64InfoProperties.ReuseWithinLifetime | android/sdk/src/main/java/org/jitsi/meet/sdk/Nat64InfoModule.java:91-103 | info held and not stale at `t1` (at most 60 000 ms old, or stamped after `t1` when the clock moved back): no discovery, the cache including its timestamp is unchanged, and the promise gets the cached info's translation |
| Nat64InfoProperties.NotStaleReadings | android/sdk/src/main/java/org/jitsi/meet/sdk/Nat64InfoModule.java:91-93 | held info is kept exactly for readings at most 60 000 ms after its stamp, which includes every reading before the stamp: after the clock moves back the info outlives its lifetime |
| Nat64InfoProperties.DiscoveryExactlyWhenAbsent | android/sdk/src/main/java/org/jitsi/meet/sdk/Nat64InfoModule.java:94-103 | exactly one discovery, of `nat64.jitsi.net`, when info is absent after the reset, and none when it is present |
| Nat64InfoProperties.ExpiredInfoRediscovered | android/sdk/src/main/java/org/jitsi/meet/sdk/Nat64InfoModule.java:90-103 | info older than the lifetime triggers exactly one discovery and a `t2` stamp; a failing discovery then leaves no info |
| Nat64InfoProperties.FailedDiscoveryStampsTime | android/sdk/src/main/java/org/jitsi/meet/sdk/Nat64InfoModule.java:96-103 | a failed discovery still stamps `t2`, leaves no info, resolves `null`, and makes no translation call |
| Nat64InfoProperties.FailedDiscoveryRetried | android/sdk/src/main/java/org/jitsi/meet/sdk/Nat64InfoModule.java:96-103 | after a failed discovery the next request discovers again although its clock reading is within the lifetime of the new stamp |
| Nat64InfoProperties.SuccessfulDiscoveryReused | android/sdk/src/main/java/org/jitsi/meet/sdk/Nat64InfoModule.java:91-103 | after a successful discovery a request within the lifetime of its stamp makes no discovery, keeps the cache, and translates with the discovered info |
| Nat64InfoProperties.SettlementFollowsTranslation | android/sdk/src/main/java/org/jitsi/meet/sdk/Nat64InfoModule.java:105-116 | with no info left: `null` and no translation call; with info: the last call translates the given address with it, a translated address is resolved as is, an invalid argument resolves `null` |
| Nat64InfoProperties.TranslationLeavesCache | android/sdk/src/main/java/org/jitsi/meet/sdk/Nat64InfoModule.java:105-116 | the cache after a request is independent of the address asked about and of the translation outcome, so a translation failure changes nothing in it |
| Nat64InfoRuns.Run | android/sdk/src/main/java/org/jitsi/meet/sdk/Nat64InfoModule.java:88-117 | over a sequence of requests every promise is settled once, each by resolving, and there are at most as many discoveries as requests |
| Nat64InfoRuns.RunReusesWithinLifetime | android/sdk/src/main/java/org/jitsi/meet/sdk/Nat64InfoModule.java:90-103 | requests none of whose clock readings makes held info stale make no discovery at all and leave the cache exactly as it was |
| Nat64InfoRuns.RunRetriesWhileFailing | android/sdk/src/main/java/org/jitsi/meet/sdk/Nat64InfoModule.java:96-103 | while discovery keeps failing every request discovers once, resolves `null`, and the cache stays empty carrying the last request's stamp |
| Nat64InfoRuns.RunDiscoversOncePerLifetime | android/sdk/src/main/java/org/jitsi/meet/sdk/Nat64InfoModule.java:90-103 | from an empty cache, a successful first discovery is the only discovery for all requests within its lifetime, and it stays cached with its stamp |

## Left out

- `NAT64AddrInfo.discover` and `NAT64AddrInfo.getIpV6Address`: their source is
  not part of this model. They appear only as the oracles `discover` and
  `translate`; prefix derivation and IPv6 synthesis in the style of section
  2.2 of RFC 6052 are not modelled. A `null` return from `discover` would
  leave the cache as empty as `UnknownHostException` does, so `UnknownHost`
  covers both. Likewise a `null` return from `getIpV6Address` resolves the
  promise with `null`, makes the same single call and leaves the cache as
  it is, exactly like `IllegalArgument`, so that outcome covers it.
- DNS resolution behind `discover`: network I/O, seen only as the
  `UnknownHost` outcome.
- Unchecked exceptions other than `IllegalArgumentException` escaping the
  collaborators: the code does not catch them, and the collaborators' source
  is not visible, so the oracles cannot produce them.
- The React Native bridge: `ReactContextBaseJavaModule`, the constructor,
  `getName`/`MODULE_NAME`, `@ReactMethod` and `Promise`. The promise is
  modelled as the returned `Settlement`.
- `android.util.Log` calls: logging only.
- `System.currentTimeMillis()`: its two readings are the parameters `t1` and
  `t2`; nothing requires them to be ordered, as the code does not.
- Concurrency: the module has no synchronisation; concurrent bridge calls are
  outside this sequential model.
