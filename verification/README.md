# wgmesh in Dafny

wgmesh keeps a WireGuard mesh in order. This project models the parts of it whose correctness is not visible from one
function body, and proves what they promise over all inputs, all runs and all iteration orders.

- **The control loop.** Every few seconds a daemon reads the peers it knows and the handshake times, decides which
  peers to relay through an introducer (with hysteresis), hands out AllowedIPs, pushes only changed peers to the
  device through a signature cache, and diffs kernel routes. `Relay` and `RelayPlan` are one pass as a value, `Device`
  is the device and the cache, `Reconcile` is the state machine over passes, evictions and recoveries, `RelayReasons`
  spells out why a pass relays a peer and through whom, `Evictions` what an eviction does over a run, `Routes` is the
  route diff, and `Daemon` (with `DaemonPlan`) is the object whose loops are proved to take exactly these steps. `wg
  set peer K allowed-ips L` replaces the set of K and takes every CIDR in L away from the other peers.
- **The rate limiter** (`Limiter`): token buckets in a map and an LRU list kept in step.
- **The peer store** (`PeerStore`): an incremental merge by endpoint priority.
- **Rendezvous** (`Windows`, `Rendezvous`, `Rounds`): time windows two ends compute alone, introducer selection, the
  introducer's sessions, cooldowns and purging, and exactly when a START round happens and what it says.
- **Address derivation** (`Derive`, `Collisions`): byte addition with carry, subnets, the retry on collision, and who
  gives up an address that two peers hold.
- **Access policy** (`Policy`): nested loops against a relation, and the peer configuration and routes made from it.
- **STUN** (`Stun`): parsing a Binding Response, from RFC 5389.
- **Promo codes** (`Crc24`, `Crc24Check`, `Crc24Typos`, `PromoCode`, `Base32`, `PromoStore`, `PromoRuns`): CRC-24 (section
  6.1 of RFC 4880), base32 (section 6 of RFC 4648), what the checksum catches, a store with rollback, and what it accepts
  over whole runs.

`Strings` and `Sorting` hold the pieces of Go's standard library these rely on, `Numbers` shared arithmetic.

Time is an integer number of nanoseconds (seconds in `Windows`), tokens are reals, one pass or one locked region is one
atomic step with one clock reading. Hashes (SHA-256, FNV), the IPv6 test on endpoints, the local-subnet test, calendar
arithmetic and the candidate filters are arbitrary functions, given as parameters, so the results hold for all of them.
Where Go walks a map, the model walks it in any order.

Some promises do not hold of the code as written. For each the project keeps the code's behaviour, shows a failing case,
and states the exact condition:

- The device equals the plan after every pass exactly when no pass asks for one CIDR through two carriers or for a
  carrier it cannot dial (`Reconcile.DeviceFollowsPlans`). One pass is met, whatever came before it, exactly when it is
  fit in this sense and asks for nothing an earlier pass took from a peer the cache still vouches for
  (`Reconcile.MetIff`). So an overlapping pass is not repaired by any number of later clean ones until a pass asks
  something else of the peer that lost, or it is evicted (`Reconcile.OverlapOutlivesItself`); `Reconcile.OverlapRun` is
  a run of two passes whose second is fit and not met.
- A relay can itself be relayed exactly while hysteresis still holds a peer that was relayed before it became an
  introducer (`Reconcile.ChainIff`); `Reconcile.SelfRelayRun` is a run of two passes after which a peer is its own relay.
- A desired kernel route is carried by a tunnel exactly when its peer has a key (`Daemon.RouteFollowsTunnel`); a peer with
  an empty key gets kernel routes all the same (`Daemon.KeylessPeerStillRouted`).
- A request made exactly `retryAfter` later can be refused, because the wait is truncated to whole nanoseconds
  (`Limiter.RetryAfterTooShort`, exact condition in `Limiter.RetryExact`).
- A second route diff is empty exactly when no network is desired through two gateways (`Routes.ConvergesIff`, failing
  input in `Routes.NeverSettles`).
- An offer whose target is its own sender starts a round that introduces a peer to itself (`Rendezvous.SelfOfferRound`).
- A host on both sides of a policy is also given the networks of peers that are on its from side only
  (`Policy.RoutableIff`, `Policy.LeakExample`).
- Looking up a host's peers panics exactly when a policy that concerns the host names a missing group across from it
  (`Policy.GetAllowedPeers`, failing mesh in `Policy.PanicExample`); no validated mesh does (`Policy.ValidSafe`).
- A change of one character of a promo code is caught, unless it changes only the four unused bits of the last checksum
  character (`PromoCode.OneCharacterTypo`).
- Validating a promo code indexes past the decoded checksum exactly when the checksum is two letters and two padding
  characters (`PromoCode.PanicsIff`, `PromoCode.PanicExample`), and redeeming such a code panics too.
- The STUN parser adds lengths in 16 bits and trusts padding to be there. `Stun.ParseFailsIff` says for every byte string
  when it slices out of bounds and when it stops advancing, `Stun.MalformedResponses` gives three such responses, and no
  well-formed response is one (`Stun.ParseWellFormed`). Stopping takes at least 65553 bytes (`Stun.ShortEnds`); the two
  callers read at most 512, so they can meet only the panics.
- Of the holders of one mesh IP all but the lowest key should give it up. With three or more holders that depends on the
  order the peer map is walked in: a peer loses in every walk exactly when some other holder has a lower key and none a
  higher one (`Collisions.MustLoseIff`, failing case in `Collisions.ThreeHolders`).

The repository's prose calls promo codes 12 characters long and case-insensitive; the code uses 13 and compares case, and
the model follows the code.

## Model

| member | source | states |
|---|---|---|
| `Relay.SelectRelay` | pkg/daemon/daemon.go:698-725 | a chosen relay is one of the candidates and has a key and an endpoint |
| `Relay.RelayExists` | pkg/daemon/daemon.go:698-725 | a relay is found exactly when there is a candidate |
| `RelayPlan.CarrierIsHost` | pkg/daemon/daemon.go:584-612 | the recorded relay routes say exactly which peer's tunnel carries each eligible peer |
| `RelayPlan.CidrsPlaced` | pkg/daemon/daemon.go:584-612 | all CIDRs of an eligible peer sit together in its carrier's entry |
| `RelayPlan.CidrOwner` | pkg/daemon/daemon.go:561-615 | whatever is in an entry is a CIDR of an eligible peer carried there |
| `RelayPlan.AllowedConserved` | pkg/daemon/daemon.go:561-615 | the union of all AllowedIPs is exactly the host addresses and trimmed networks of the eligible peers |
| `RelayPlan.EntriesMeaningful` | pkg/daemon/daemon.go:727-738 | no entry is empty and each is headed by the peer it is keyed by |
| `RelayPlan.DisjointIff` | pkg/daemon/daemon.go:561-615 | entries are pairwise disjoint exactly when peers that share a CIDR share a carrier |
| `RelayPlan.OverlapCause` | pkg/daemon/daemon.go:727-738 | two entries that share a CIDR come from two eligible peers that share it |
| `RelayPlan.RelaysAreLive` | pkg/daemon/daemon.go:546-556 | every relay is another node's introducer with an endpoint, not offline, seen within 90 s, and holds an entry |
| `RelayPlan.SelectRelayUnordered` | pkg/daemon/daemon.go:698-725 | the relay choice depends on the set of candidates, not on their order |
| `RelayPlan.OrderIrrelevant` | pkg/daemon/daemon.go:538-615 | desired map, relay routes and stability counters are the same for every permutation of the peer list |
| `RelayReasons.RelayedExactly` | pkg/daemon/daemon.go:561-696 | a pass relays a peer exactly when the peer is considered and has a mesh IP, some live introducer is there, and either a reason holds (not exempt, and forced, or a handshake 150 s old, or none yet with two symmetric NATs or only transitive discovery and no usable IPv6 endpoint) or fewer than three quiet passes have been counted |
| `RelayReasons.HandshakeDecides` | pkg/daemon/daemon.go:646-675 | for a peer that is neither exempt nor forced nor relayed yet, a known handshake alone decides: relayed exactly from 150 s on |
| `RelayReasons.ExemptStaysDirect` | pkg/daemon/daemon.go:627-644 | an exempt peer (either end an introducer, LAN, local subnet) is relayed only while hysteresis holds it |
| `RelayReasons.RelayByRank` | pkg/daemon/daemon.go:698-725 | the relay is the live introducer with as many lower-keyed live introducers as the hash of the pair modulo their number |
| `RelayReasons.CarriedSpelled` | pkg/daemon/daemon.go:561-615 | a CIDR is in the plan exactly when a considered peer has it as its /32, its IPv6 /128 or a network it announces, spaces trimmed |
| `Evictions.EvictedStaysOut` | pkg/daemon/daemon.go:1335-1398 | over every run a peer evicted within 30 s and not recovered is not on the device, in the cache, relayed or counted, whatever the passes see |
| `Evictions.MarkedIff` | pkg/daemon/daemon.go:1362-1398 | over every run a peer is marked offline exactly when its last eviction is at most 30 s old and no recovery came after it |
| `Evictions.MarkEnds` | pkg/daemon/daemon.go:1362-1378 | a mark ends after exactly 30 s, or with a recovery |
| `Sorting.MapKeysSorted` | pkg/daemon/daemon.go:791-798 | collecting keys in any order and sorting gives the one ascending arrangement of the set |
| `Device.CsvRoundTrip` | pkg/daemon/daemon.go:757-762 | splitting the CSV of comma-free AllowedIPs gives the set back |
| `Device.SignatureInjective` | pkg/daemon/daemon.go:757-762 | equal signatures mean equal endpoint and AllowedIPs, without a bar in endpoints and a comma in CIDRs |
| `Device.ApplyReachesDesired` | pkg/daemon/daemon.go:740-789 | from a cache that describes the device, a disjoint and usable plan becomes the device's exact contents in every walk order, and the cache describes it again |
| `Device.ApplyExact` | pkg/daemon/daemon.go:740-789 | the device meets the plan exactly when the plan is disjoint and every endpoint usable |
| `Device.VouchedNeverGrows` | pkg/daemon/daemon.go:764-775 | a peer whose cached signature matches is never pushed, so its AllowedIPs can only shrink |
| `Device.OverlapStarves` | pkg/daemon/daemon.go:755-786 | one plan in which two peers that can be dialled ask for a CIDR leaves one of them without it and the cache vouching for it |
| `Device.StarvedStays` | pkg/daemon/daemon.go:764-775 | a peer that lacks a CIDR the cache vouches for lacks it after every plan that asks the same of it, in every walk order |
| `Device.ApplyMetIff` | pkg/daemon/daemon.go:740-789 | from every state a run can reach, a plan is met exactly when it is disjoint, every endpoint is usable and nothing it asks for is starved |
| `Reconcile.PassExact` | pkg/daemon/daemon.go:501-526 | one pass from a faithful device meets its plan exactly when the pass is fit, and then stays faithful |
| `Reconcile.FitIff` | pkg/daemon/daemon.go:538-615 | fitness in terms of the observed peers is disjointness and usability of the plan |
| `Reconcile.DeviceFollowsPlans` | pkg/daemon/daemon.go:740-789 | over every run and walk order the device equals the plan after each pass exactly when each pass is fit; then each cached signature always describes the device |
| `Reconcile.SoundUpTo` | pkg/daemon/daemon.go:740-789 | over every run cached keys are on the device, no CIDR is held twice and every endpoint is usable |
| `Reconcile.OverlapOutlivesItself` | pkg/daemon/daemon.go:740-789 | over every run a pass that asks for a CIDR through two peers it can dial leaves one of them without it, and that peer lacks it in every later state until a pass asks something else of it or it is evicted |
| `Reconcile.MetIff` | pkg/daemon/daemon.go:740-789 | over every run, whatever came before, a pass is met exactly when it is fit and nothing it asks for is starved |
| `Reconcile.OverlapRun` | pkg/daemon/daemon.go:740-789 | a run of two passes from the initial state whose second pass is fit and not met |
| `Reconcile.PassVerdict` | pkg/daemon/daemon.go:569-600 | a pass relays a peer exactly when it is eligible with a relay on offer and the pass asks for it or hysteresis holds it |
| `Reconcile.CounterVerdict` | pkg/daemon/daemon.go:569-600 | an asking pass resets the stability counter, any other pass that keeps the relay adds one |
| `Reconcile.RunHears` | pkg/daemon/daemon.go:569-600 | over every run the memory of one peer is a fold over what each event meant for that peer alone |
| `Reconcile.RelayedIff` | pkg/daemon/daemon.go:569-600 | over every run a peer is relayed exactly when one of the last three passes asked for it and since then no pass lost it and nothing evicted it |
| `Reconcile.ChainIff` | pkg/daemon/daemon.go:584-612 | a relay is itself relayed exactly when hysteresis still holds it |
| `Reconcile.HeldIntroducerRelaysItself` | pkg/daemon/daemon.go:569-600 | a relayed peer that turns introducer, and is the only one a pass could relay through, is made its own relay for as long as hysteresis holds it |
| `Reconcile.SelfRelayRun` | pkg/daemon/daemon.go:569-600 | a run of two passes from the initial state that relays a peer through another and then through itself |
| `Reconcile.IntroducersNeverRelayed` | pkg/daemon/daemon.go:627-633 | with fixed introducer flags no introducer is relayed in any reachable state |
| `Reconcile.RelayIsIntroducer` | pkg/daemon/daemon.go:546-556 | with fixed introducer flags every recorded relay is an introducer in every reachable state |
| `Reconcile.NoRelayChains` | pkg/daemon/daemon.go:584-612 | with fixed introducer flags no relay is itself relayed in any reachable state |
| `DaemonPlan.FoldDesiredAt` | pkg/daemon/daemon.go:727-738 | an entry built peer by peer holds exactly the CIDRs of the peers placed with its host |
| `DaemonPlan.FoldRoutesAt` | pkg/daemon/daemon.go:573-600 | relay routes and counters built peer by peer are each peer's own verdict |
| `DaemonPlan.FoldIsOutcome` | pkg/daemon/daemon.go:538-615 | the peer-by-peer construction equals the pass stated on sets, for distinct keys |
| `Daemon.RouteFollowsTunnel` | pkg/daemon/routes.go:17-45 | every routed peer's network is a desired route, and is in the AllowedIPs of the peer's carrier exactly when the peer has a key; then the gateway is the carrier's mesh IP, when it has one |
| `Daemon.WantedIff` | pkg/daemon/routes.go:17-45 | the desired routes are exactly those to networks announced by other peers with a mesh IP that are not marked offline |
| `Daemon.ForgetsOnly` | pkg/daemon/daemon.go:1341-1357 | forgetting a peer drops its counters and session and nobody else's |
| `Daemon.KeylessPeerStillRouted` | pkg/daemon/routes.go:26-45 | a peer without a key gets kernel routes although no tunnel carries them |
| `Daemon.Daemon.IsTemporarilyOffline` | pkg/daemon/daemon.go:1380-1398 | the answer is whether the mark has not expired, and an expired mark is dropped |
| `Daemon.Daemon.RelayCandidates` | pkg/daemon/daemon.go:546-556 | the loop collects exactly the live introducers and sweeps the marks it asks about |
| `Daemon.Daemon.AddCidrs` | pkg/daemon/daemon.go:588-611 | all of a peer's CIDRs are added to its host's entry, and nothing else changes |
| `Daemon.Daemon.Decide` | pkg/daemon/daemon.go:561-600 | the loop body decides exactly the verdict of the pass for one peer |
| `Daemon.Daemon.PlacePeers` | pkg/daemon/daemon.go:558-612 | the loop builds the fold of the verdicts |
| `Daemon.Daemon.BuildDesired` | pkg/daemon/daemon.go:538-615 | the two loops compute the outcome of the pass |
| `Daemon.Daemon.PruneDevice` | pkg/daemon/daemon.go:741-753 | peers not desired leave the device and the cache, in any order |
| `Daemon.Daemon.PushPeer` | pkg/daemon/daemon.go:755-786 | one step of the push loop, with its four ways to skip |
| `Daemon.Daemon.ApplyDesired` | pkg/daemon/daemon.go:740-789 | the loops are the specified application in some walk of the desired keys |
| `Daemon.Daemon.MeshIPs` | pkg/daemon/routes.go:17-24 | the map holds exactly the mesh IPs of the keyed peers that have one |
| `Daemon.Daemon.RoutesOf` | pkg/daemon/routes.go:26-45 | one peer's routes, through its relay's mesh IP or its own, or none |
| `Daemon.Daemon.DesiredRoutes` | pkg/daemon/routes.go:26-45 | the loop collects exactly the wanted routes |
| `Daemon.Daemon.SyncTable` | pkg/daemon/routes.go:46-54 | the table after the diff in some order; the target when each network has one gateway and keys are unambiguous |
| `Daemon.Daemon.Reconcile` | pkg/daemon/daemon.go:501-526 | a pass is a step of the state machine, and the kernel table is brought to the wanted routes |
| `Daemon.Daemon.Evict` | pkg/daemon/daemon.go:1335-1360 | an eviction is a step of the state machine, removes the peer from the store, forgets its health and probe counters and session, and leaves the kernel table alone |
| `Routes.MakeKeyInjective` | pkg/routes/routes.go:39-41 | keys identify routes whose networks hold no bar |
| `Routes.NoBarUnambiguous` | pkg/routes/routes.go:39-41 | no two routes whose networks hold no bar share a key |
| `Routes.Index` | pkg/routes/routes.go:60-70 | the two maps of a list: every key, and the last entry per network |
| `Routes.Additions` | pkg/routes/routes.go:73-85 | exactly the surviving desired entries whose key is not there are added, and exactly the entries they displace removed, in any order |
| `Routes.Removals` | pkg/routes/routes.go:88-100 | exactly the surviving gateway entries whose key and network are no longer desired |
| `Routes.CalculateDiff` | pkg/routes/routes.go:54-103 | the diff as sets for every two lists, whatever order the maps are walked in; free of keys where no two routes share one |
| `Routes.KeysDoNotMatter` | pkg/routes/routes.go:54-103 | where no two routes share a key the diff is what is missing and what is obsolete |
| `Routes.DisplacedIsReplaced` | pkg/routes/routes.go:76-81 | what the additions displace, said without the loop |
| `Routes.ApplyRouteDiff` | pkg/daemon/routes.go:114-133 | all removals then all replacements, as table updates |
| `Routes.AppliedAt` | pkg/daemon/routes.go:114-133 | what one network of the table is after any order of the diff |
| `Routes.DiffReachesTarget` | pkg/routes/routes.go:54-103 | with one gateway per desired network the table becomes the desired routes plus the untouched direct ones |
| `Routes.RemovesOnlyStale` | pkg/routes/routes.go:87-100 | no direct route is removed, and nothing desired unless a network is desired through two gateways |
| `Routes.ConvergesIff` | pkg/routes/routes.go:54-103 | a second diff is empty exactly when each desired network has one gateway |
| `Routes.NeverSettles` | pkg/routes/routes.go:54-103 | one network desired through two gateways leaves a second diff to do, in every order |
| `Limiter.NewLimits` | pkg/ratelimit/limiter.go:48-67 | settings in range are kept, others become 10 per second, a burst of 20 (or 1 for less than one) and 4096 keys; the result always has a positive rate, a burst of at least one and room for a key |
| `Limiter.RecentIs` | pkg/ratelimit/limiter.go:78-114 | the history list holds each key ever used, once |
| `Limiter.RecentByLastUse` | pkg/ratelimit/limiter.go:78-114 | the history list is ordered by last use |
| `Limiter.TrackedAreMostRecent` | pkg/ratelimit/limiter.go:78-114 | over every run the tracked keys are exactly the maxIPs most recently used distinct ones, most recent first |
| `Limiter.AsIndependentBuckets` | pkg/ratelimit/limiter.go:78-114 | with at most maxIPs distinct keys every answer is that of unbounded independent buckets |
| `Limiter.OtherKey` | pkg/ratelimit/limiter.go:78-114 | a request leaves another key's bucket alone, or evicts it only when the list is full |
| `Limiter.TokensBounded` | pkg/ratelimit/limiter.go:82-97 | tokens stay between 0 and burst over every run |
| `Limiter.Paid` | pkg/ratelimit/limiter.go:82-97 | what was allowed plus what is left never exceeds burst plus what was earned |
| `Limiter.RateBound` | pkg/ratelimit/limiter.go:78-114 | any stretch that does not evict a key allows at most burst + rate * T of its requests |
| `Limiter.TokensExact` | pkg/ratelimit/limiter.go:82-97 | over every run a tracked bucket holds exactly burst plus what was earned less what was allowed since a request that found it full |
| `Limiter.RefusalMeansSpent` | pkg/ratelimit/limiter.go:82-97 | a refusal means the allowance is spent: one more request since some request of the key would exceed burst + rate * T |
| `Limiter.RemainingExact` | pkg/ratelimit/limiter.go:82-97 | the remaining count of an answer is exactly burst plus what was earned less what was allowed, this request included |
| `Limiter.RetryExact` | pkg/ratelimit/limiter.go:89-94 | after a refusal the next request is allowed one nanosecond past retryAfter at the latest, evicted or not; before retryAfter only if the key was evicted; and exactly when the untruncated wait is over or the key was evicted |
| `Limiter.RetryAfterTooShort` | pkg/ratelimit/limiter.go:89-94 | three requests of one key: allowed, refused, and refused again exactly retryAfter later |
| `Limiter.IPRateLimiter.constructor` | pkg/ratelimit/limiter.go:48-67 | a new limiter tracks nothing and holds the corrected settings |
| `Limiter.IPRateLimiter.Consume` | pkg/ratelimit/limiter.go:78-114 | the answer and the new list are those of the specification, and map and list stay in bijection |
| `Limiter.IPRateLimiter.Touch` | pkg/ratelimit/limiter.go:81-98 | a known key moves to the front with its refilled bucket, the others untouched |
| `Limiter.IPRateLimiter.Insert` | pkg/ratelimit/limiter.go:100-113 | a new key goes to the front with one token spent, the oldest leaving when full |
| `Limiter.Entry.Take` | pkg/ratelimit/limiter.go:82-97 | refill, cap, and take a token or name the wait |
| `PeerStore.LastOfBestUnique` | pkg/node/store.go:206-234 | there is one last-of-the-best report, so the endpoint is pinned down |
| `PeerStore.TakesUnlessPreferred` | pkg/node/store.go:206-234 | an endpoint is replaced exactly when what is stored is not preferred by rank, then IPv6 |
| `PeerStore.BetterIsRank` | pkg/node/store.go:178-204 | the order of methods by name: LAN, rendezvous, DHT, gossip, transitive DHT, transitive gossip, others, cache, none |
| `PeerStore.MergeTakesIff` | pkg/node/store.go:95-118 | a merge takes an endpoint exactly when none is stored, its method is better, or neither is better and it does not trade IPv6 for IPv4 |
| `PeerStore.CacheYieldsToDht` | pkg/node/store.go:178-234 | a cached endpoint never displaces one from the DHT, and one from the DHT displaces a cached one |
| `PeerStore.MergeClock` | pkg/node/store.go:136-176 | reports from the cache or through others only raise last-seen to what they say, all others set it to the clock |
| `PeerStore.StoredIff` | pkg/node/store.go:86-94 | who is stored after a report (room for 1000), a removal and a clean-up (ten minutes) |
| `PeerStore.TakeKeepsBest` | pkg/node/store.go:95-118 | taking unless the stored one is preferred keeps the last of the best, for every such preference |
| `PeerStore.StoredPeerReflectsReports` | pkg/node/store.go:86-160 | over every run a stored peer is what its reports since insertion say: endpoint and method of the last of the best, last non-empty words and network list, last introducer flag, all reporting methods; never more than the maximum of peers |
| `PeerStore.LastSeenReflectsReports` | pkg/node/store.go:136-140 | over every run a stored peer was last seen at the latest time named since the last direct report or its insertion |
| `PeerStore.PeerStore.Update` | pkg/node/store.go:86-160 | an update is a step of the specification |
| `PeerStore.PeerStore.Overlay` | pkg/node/store.go:115-134 | the field-by-field overlay is the specified merge |
| `PeerStore.PeerStore.RecordMethod` | pkg/node/store.go:142-151 | a method is added to the list unless it is there |
| `PeerStore.PeerStore.Remove` | pkg/node/store.go:297-301 | a removal is a step of the specification |
| `PeerStore.PeerStore.CleanupStale` | pkg/node/store.go:304-317 | exactly the peers past the removal timeout go, and exactly they are reported, once each |
| `PeerStore.PeerStore.GetActive` | pkg/node/store.go:281-294 | exactly the peers seen within the dead timeout, each once |
| `Windows.PairSeedSymmetric` | pkg/discovery/dht.go:1382-1392 | both ends of a pair compute the same seed |
| `Windows.PairSeedInjective` | pkg/discovery/dht.go:1382-1392 | with a hash that tells strings apart and keys without NUL, equal seeds mean the same pair |
| `Windows.WindowCount` | pkg/discovery/dht.go:1196-1219 | any window-long stretch holds exactly phase permitted seconds, wherever it starts |
| `Windows.WindowsAgree` | pkg/discovery/dht.go:1196-1244 | both ends permit the same seconds: 4 in any 20 for punching, 2 in any 8 for IPv6 sync |
| `Windows.AttemptsCount` | pkg/discovery/dht.go:1196-1244 | punching is permitted in 4 of any 20 consecutive seconds and IPv6 sync in 2 of any 8 |
| `Windows.AttemptsFollowSeed` | pkg/discovery/dht.go:1196-1244 | the permitted seconds are exactly those 0 to 3 (0 to 1) after a second congruent to the seed modulo 20 (8), for a named peer |
| `Windows.Rotate` | pkg/discovery/dht.go:1362-1379 | the loop takes the candidates in a row from the pair's own starting point |
| `Windows.SelectIntroducers` | pkg/discovery/dht.go:1352-1380 | sort, then rotate |
| `Windows.IntroducersAgree` | pkg/discovery/dht.go:1352-1392 | from the same candidates in any order both ends pick the same min(max, n) distinct introducers in the same order |
| `Windows.PickedByRank` | pkg/discovery/dht.go:1352-1380 | the i-th pick is the candidate with exactly (seed + i) modulo n candidates before it, explicit ones first, then lower keys |
| `Rendezvous.RoundsSpaced` | pkg/discovery/exchange.go:671-675 | over every run two START rounds of one pair are at least 8 s apart, although records are purged |
| `Rendezvous.StartsRemembered` | pkg/discovery/exchange.go:616-620 | purging never forgets a START that still matters |
| `Rendezvous.PunchesSpaced` | pkg/discovery/exchange.go:830-847 | a punch job begins no sooner than 6 s after the pair's last one began or ended |
| `Rendezvous.SessionsSourced` | pkg/discovery/exchange.go:627-664 | over every run each session entry comes from an offer of its key, or from the peer store, within the session's life |
| `Rendezvous.RoundIntroduces` | pkg/discovery/exchange.go:671-683 | each round sends each end, at its own address, the other's key and recent candidates, one start time 1.8 s ahead, under a pair id its own comparison accepts |
| `Rendezvous.SelfOfferRound` | pkg/discovery/exchange.go:575-683 | the two ends are distinct exactly when the offer names two; a self-targeting offer starts a round with itself |
| `Rounds.SessionsAre` | pkg/discovery/exchange.go:610-664 | over every run a pair has a session exactly since the event that opened it, until 20 s have passed, holding for each key its latest own offer or else the first known address |
| `Rounds.RoundExactly` | pkg/discovery/exchange.go:575-683 | over every run an offer sets off a round exactly when it passes the guards, the other end has spoken in the session or is known, and the pair's earlier rounds are 8 s old; and the two messages, field by field |
| `Rounds.KnownTargetStarts` | pkg/discovery/exchange.go:645-675 | an offer to a peer with a known address waits for nothing but the 8 s |
| `Rounds.TwoOffersStart` | pkg/discovery/exchange.go:627-683 | two peers that offer each other within 20 s, the first opening the session, start at the second offer exactly when the pair has rested |
| `Rounds.StartsReachTheirEnds` | pkg/discovery/exchange.go:720-750 | with a hash that tells strings apart, each message of a round passes the check of the end it is for and of nobody else |
| `Rounds.PunchBeginsIff` | pkg/discovery/exchange.go:830-847 | over every run a punch job begins exactly when every earlier beginning or end of the pair is at least 6 s old |
| `Rendezvous.Introducer.PurgeAll` | pkg/discovery/exchange.go:610-625 | the three loops drop exactly the expired records |
| `Rendezvous.Introducer.HandleOffer` | pkg/discovery/exchange.go:575-683 | an offer is a step of the specification, emitting its round |
| `Rendezvous.Introducer.Record` | pkg/discovery/exchange.go:637-664 | the session after recording the offer and, if needed and possible, the target's stored endpoint |
| `Rendezvous.Introducer.BeginPunchJob` | pkg/discovery/exchange.go:830-841 | a job begins exactly when no mark of the pair is within the cooldown |
| `Rendezvous.Introducer.EndPunchJob` | pkg/discovery/exchange.go:843-847 | ending a job renews the mark |
| `Derive.CarryLoop` | pkg/crypto/derive.go:220-230 | the loop is the recursive carry |
| `Derive.CarriedAdds` | pkg/crypto/derive.go:220-230 | the carry balances at every index, so the result is the sum modulo 256^len |
| `Derive.AddHostNum` | pkg/crypto/derive.go:220-230 | exact big-endian addition modulo 256^len for every base and every 64-bit number |
| `Derive.HostInRange` | pkg/crypto/derive.go:236-253 | a host number from 1 to 2^h - 2 stays in the subnet, off both ends |
| `Derive.HostInSubnet` | pkg/crypto/derive.go:207-272 | fails exactly for non-IPv4 or longer than /30; otherwise a usable host at the hashed offset |
| `Derive.HostsInTurn` | pkg/crypto/derive.go:236-272 | hashes go through the usable hosts in turn, from the first to the last and round again |
| `Derive.LegacyInRange` | pkg/crypto/derive.go:155-175 | legacy addresses lie in 10.x.0.0/16 off its first and last address, the plain ones never ending in 0 or 255 |
| `Derive.LegacyFromHash` | pkg/crypto/derive.go:155-175 | the third octet is the first hash byte, bit by bit against the mesh's second byte, the fourth the second hash byte; two hashes share an address exactly when the clamping of 0 and 255 makes them |
| `Derive.LegacyNonceFromHash` | pkg/daemon/collision.go:75-92 | with a nonce the last two octets are the two hash bytes, but for the first and the last address |
| `Derive.Attempt` | pkg/daemon/collision.go:75-92 | every derivation, with or without nonce, is a usable host that passes meshIPInSubnet, or fails for exactly the unusable subnets |
| `Derive.AttemptShowsHash` | pkg/daemon/collision.go:75-92 | the address of attempt k is decided by the hash of attempt k: eight bytes in a custom subnet, two otherwise |
| `Derive.MeshIPInSubnetIff` | pkg/daemon/daemon.go:306-320 | an address passes exactly when it is one of the custom subnet's 2^h addresses or, without one, begins with 10 and the mesh's first byte |
| `Derive.DeriveWithCollisionCheck` | pkg/daemon/collision.go:146-177 | the first free attempt wins; the result is taken by another exactly when all eleven attempts are |
| `Derive.CollidesIff` | pkg/daemon/collision.go:146-177 | the first free attempt, or the last, collides exactly when every attempt does |
| `Collisions.DetectCollisions` | pkg/daemon/collision.go:22-47 | exactly the pairs of the first holder walked of a mesh IP and another holder of it |
| `Collisions.WinnerAgreed` | pkg/daemon/collision.go:50-55 | the winner does not depend on which of the two is named first |
| `Collisions.LosesIff` | pkg/daemon/collision.go:22-55 | in one walk a peer loses exactly when the first holder has a lower key, or it is the first and some holder has |
| `Collisions.MayLoseIff` | pkg/daemon/collision.go:22-55 | some walk makes a peer lose exactly when another holder has a lower key |
| `Collisions.MustLoseIff` | pkg/daemon/collision.go:22-55 | every walk makes a peer lose exactly when another holder has a lower key and none a higher one |
| `Collisions.TwoHolders` | pkg/daemon/collision.go:22-55 | of two holders exactly the one with the higher key loses, in every walk |
| `Collisions.ThreeHolders` | pkg/daemon/collision.go:22-55 | of three holders the middle one loses in one walk and not in another |
| `Collisions.LocalNode.CheckAndResolve` | pkg/daemon/collision.go:95-134 | the node takes the address of nonce 1, inside the mesh's subnet, exactly when it loses a collision and that address can be derived |
| `Policy.AllowedSymmetric` | pkg/mesh/policy.go:113-199 | the allowed-peer relation is symmetric between nodes |
| `Policy.RoutableIff` | pkg/mesh/policy.go:178-193 | routable access is granted exactly when a policy permits it or the host is on both sides of an allowing policy with the peer on its from side |
| `Policy.RoutableExactOneSided` | pkg/mesh/policy.go:178-193 | for a host on both sides of no policy the grant is exactly the permission |
| `Policy.MeshIPIff` | pkg/mesh/policy.go:178-193 | the mesh-IP flag follows the same rule |
| `Policy.LeakExample` | pkg/mesh/policy.go:155-193 | in a mesh that validates, a host on both sides is granted networks nothing permits |
| `Policy.GetNodeGroups` | pkg/mesh/policy.go:95-110 | exactly the groups with the host among their members, each once |
| `Policy.GetAllowedPeers` | pkg/mesh/policy.go:113-199 | the nested loops compute the relation the policies define, with both flags, exactly when every group across a policy from the host exists, and panic otherwise |
| `Policy.ReachGroups` | pkg/mesh/policy.go:164-193 | the loop over the other side's groups raises the entries of their member nodes, or comes to a missing group |
| `Policy.ValidSafe` | pkg/mesh/policy.go:32-92 | a validated mesh never panics, for any host |
| `Policy.PanicExample` | pkg/mesh/policy.go:155-167 | a host under a policy to a missing group makes the lookup panic |
| `Policy.ReachGroup` | pkg/mesh/policy.go:164-193 | one group's loop raises exactly the entries of its member nodes |
| `Policy.ValidatePolicies` | pkg/mesh/policy.go:32-92 | accepts exactly distinct names, existing groups and members on both sides |
| `Policy.PopulatedIff` | pkg/mesh/policy.go:32-92 | a side of a policy passes exactly when some host is on it |
| `Policy.GenerateConfig` | pkg/mesh/deploy.go:247-319 | one peer entry per allowed peer, in any order, with networks exactly where granted; panics exactly when the lookup does |
| `Policy.CollectRoutes` | pkg/mesh/deploy.go:176-222 | the node's own networks and the granted peers' networks through their mesh IPs; panics exactly when the lookup does |
| `Policy.ConfiguredIff` | pkg/mesh/deploy.go:247-338 | a node's configuration holds exactly an entry for each other node a policy puts across from it, or for every other node of an open mesh: key, endpoint, /32, keepalive 5, and its networks only where granted |
| `Policy.RoutedIff` | pkg/mesh/deploy.go:176-222 | a node's routes are exactly its own networks, direct, and the granted networks of its peers through their mesh IPs |
| `Policy.RoutesMatchAllowedIPs` | pkg/mesh/deploy.go:176-310 | each peer route's network is in the AllowedIPs of the peer whose mesh IP is its gateway, and conversely |
| `Policy.PeeringMutual` | pkg/mesh/deploy.go:273-291 | two nodes are configured with each other or not at all |
| `Stun.ParseBindingResponse` | pkg/discovery/stun.go:44-116 | the parser is the specified walk, panics and endless loops included |
| `Stun.ParseAttributes` | pkg/discovery/stun.go:71-110 | the attribute loop, with its 16-bit lengths |
| `Stun.ParseXORMappedAddress` | pkg/discovery/stun.go:119-157 | decoding of both families, or failure |
| `Stun.ParseWellFormed` | pkg/discovery/stun.go:44-116 | every well-formed response is read in bounds to the end: the first decodable XOR-MAPPED-ADDRESS, else the last decodable MAPPED-ADDRESS |
| `Stun.WalkFailsIff` | pkg/discovery/stun.go:78-109 | the loop slices out of bounds, or stops advancing, exactly when it comes to an attribute whose length or padding does that |
| `Stun.ParseFailsIff` | pkg/discovery/stun.go:44-116 | for every byte string, exactly when parsing panics and exactly when it never returns |
| `Stun.MalformedResponses` | pkg/discovery/stun.go:82-108 | a response with a missing byte of padding and one with a wrapping length panic, one with a wrapping padded length never ends |
| `Stun.ShortEnds` | pkg/discovery/stun.go:222 | parsing returns or panics on every datagram of fewer than 65553 bytes |
| `Stun.AddressRoundTrip` | pkg/discovery/stun.go:119-188 | decoding inverts the encodings of sections 15.1 and 15.2 of RFC 5389 for every address and port |
| `Stun.DecodesIff` | pkg/discovery/stun.go:119-188 | both decoders yield an address exactly from the values that start with its encoding, the reserved byte and trailing bytes aside |
| `Stun.SampleResponse` | pkg/discovery/stun.go:44-188 | 192.0.2.1 port 32853, the address of section 2.2 of RFC 5769, from its bytes, alone and in a response |
| `Crc24.Checksum` | pkg/promo/crc24.go:13-29 | the unmasked 32-bit loop computes the 24-bit register algorithm |
| `Crc24.RegisterIsRfc` | pkg/promo/crc24.go:13-29 | the unmasked register agrees with the RFC's in its low 24 bits on every input |
| `Crc24Check.CheckValue` | pkg/promo/crc24.go:13-29 | the CRC-24 of the characters 1 to 9 is 0x21CF02, that of nothing 0xB704CE |
| `Crc24.OneByteDetected` | pkg/promo/crc24.go:13-29 | inputs of one length that differ in exactly one byte never share a CRC-24 |
| `Crc24Typos.DifferenceIs` | pkg/promo/crc24.go:13-29 | the registers of inputs that differ in one byte differ by that change shifted along, whatever else the inputs hold |
| `Crc24Typos.OneByteShows` | pkg/promo/crc24.go:13-29 | inputs that differ in exactly one of their last eight bytes differ in the low 16 bits of their CRC-24 |
| `PromoCode.ChecksumRoundTrip` | pkg/promo/generate.go:55-62 | decoding inverts the base32 of a 16-bit checksum |
| `PromoCode.AssembledAccepted` | pkg/promo/generate.go:72-106 | every assembled code is accepted with its payload |
| `PromoCode.AcceptedIff` | pkg/promo/generate.go:72-106 | exactly which codes are accepted for a payload |
| `PromoCode.PayloadTypo` | pkg/promo/generate.go:96-103 | a change of one payload character of an accepted code is rejected |
| `PromoCode.OneCharacterTypo` | pkg/promo/generate.go:72-106 | a change of any one character of an accepted code is rejected, unless it is the last checksum character and changes unused bits only |
| `PromoCode.PanicsIff` | pkg/promo/generate.go:88-94 | exactly which byte strings make validation index past the decoded checksum |
| `PromoCode.PanicExample` | pkg/promo/generate.go:88-94 | a 13-character code that does |
| `PromoCode.ValidateCode` | pkg/promo/generate.go:72-106 | the verdict on every byte string, the index panic included |
| `PromoCode.GenerateCode` | pkg/promo/generate.go:48-67 | the code is the assembled one and is accepted with its payload |
| `PromoCode.PayloadInjective` | pkg/promo/generate.go:48-50 | different payload bytes give different codes |
| `Base32.Alphabet` | pkg/promo/generate.go:48-50 | the 32 characters of section 6 of RFC 4648 |
| `Base32.PayloadSpells` | pkg/promo/generate.go:48-50 | the payload characters denote the number the five bytes are |
| `Base32.ChecksumSpells` | pkg/promo/generate.go:52-62 | the checksum characters denote the low 16 bits of the CRC-24, and four zero bits |
| `PromoStore.RollbackUndoes` | pkg/promo/store.go:168-174 | what a failed save rolls back is exactly the change made |
| `PromoStore.MemoryIsLastSave` | pkg/promo/store.go:142-287 | over every run, saves failing at will, memory is the last successful save, and a promo is marked redeemed exactly when it has a record |
| `PromoStore.RedeemedForGood` | pkg/promo/store.go:235-287 | a redeemed code stays redeemed with the same record |
| `PromoStore.RedeemedOnce` | pkg/promo/store.go:235-287 | each code is redeemed successfully at most once over every run |
| `PromoStore.RecordHasCause` | pkg/promo/store.go:235-287 | every redemption record is the record of a successful redemption |
| `PromoStore.StatsAgree` | pkg/promo/store.go:290-332 | a campaign's redeemed count is its number of records and at most its generated count |
| `PromoRuns.CreateIff` | pkg/promo/store.go:142-177 | over every run creating a campaign succeeds exactly with a name, positive limits, a working save and an id not created before |
| `PromoRuns.GenerateIff` | pkg/promo/store.go:193-231 | over every run generating succeeds exactly with a seed, a campaign created before and not past its expiry, a working save and a new code |
| `PromoRuns.RedeemIff` | pkg/promo/store.go:235-287 | over every run redeeming succeeds exactly for a valid code generated for a campaign not past its expiry, not redeemed before, with a working save |
| `PromoRuns.TrialGranted` | pkg/promo/store.go:262-287 | the record of a redemption, for good: code, campaign, account, time, and the end of the trial by the days the campaign was created with |
| `PromoStore.Store.CreateCampaign` | pkg/promo/store.go:142-177 | a step of the specification, success told truly |
| `PromoStore.Store.GeneratePromo` | pkg/promo/store.go:193-231 | a step of the specification, success told truly |
| `PromoStore.Store.RedeemCode` | pkg/promo/store.go:235-287 | a step of the specification, giving the campaign and the end of the trial; panics exactly on the codes validation panics on, the store unchanged |
| `PromoStore.Store.GetCampaignStats` | pkg/promo/store.go:290-304 | the counts of the campaign's promos and redeemed promos |
| `PromoStore.Store.GetRedemptions` | pkg/promo/store.go:320-332 | exactly the campaign's records |

## Left out

- `wg` and `ip` calls that fail, partly failed device updates, `attemptPeerReconnect`, `staleCleanupLoop`: they touch the device outside the passes and evictions modelled.
- Locks, goroutines and tickers: each locked region or pass is one step; a pass reads the clock once where the code reads it several times.
- Parsing of IPs, CIDRs and endpoints: addresses and CIDRs are strings, endpoint tests are arbitrary functions.
- `NormalizeNetwork` and the reading of `ip route show`: the route list is a parameter, assumed to list the table for the convergence results only.
- `normalizeCandidates`, `expandCandidatePorts`, `filterCandidatesForConfig`: arbitrary functions of their input.
- The gathering and filtering of candidates at the start of `selectRendezvousIntroducers`: the candidate list is a parameter; what is modelled starts at the sort.
- `runRendezvousPunch` and the waiting and dialling after `handleRendezvousStart` accepts: only its pair-id comparison is part of a round's statement.
- `recordRendezvousAttempt`, `markContacted` and the backoff table of the DHT: each writes a clock reading to a map that only paces the DHT's own loops, which are left out.
- IPv6 mesh addresses: they are a fixed prefix and a hash, with no arithmetic and no collision handling.
- `SetEndpointMethod`, peer store subscriptions, and the sharing of stored peers with callers: the store is on values, so a caller that changes a peer it was handed is not captured.
- `Allow`, `Reserve`, `Reset` and the accessors of the limiter: one-line wrappers around `consume`.
- Floating-point rounding in the limiter: tokens are reals; only the truncation of the wait to nanoseconds is modelled.
- The promo store's file format and `load` errors: a save replaces the file's contents or leaves them.
- `pkg/rpc`, `pkg/ssh`, `cmd/`, the DHT, gossip and LAN loops, key derivation and encryption, `pkg/wireguard`, `pkg/analytics`, `pkg/pilot`, `pkg/nurture`, `pkg/referral`: plumbing, network clients or foreign calls.
- PeerStore.PeerStore.GetActive: requires stored peers to be keyed by their own key, which `StoredPeerReflectsReports` shows of every reachable store.
- Daemon.Daemon.Reconcile: does not include the collision check that ends a pass, because it changes only the node's own mesh IP and interface address, which no other part of a pass reads; it is `Collisions.LocalNode.CheckAndResolve`, without the interface address. Metrics are left out too.
