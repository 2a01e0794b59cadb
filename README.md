# peerd BIRD route synchronisation, modelled in Dafny

peerd keeps a BIRD routing daemon in step with its mesh roster. Its
`src/route/bird.rs` does three things, and this project models each:

- **Peer descriptor** (`BIRDConfig::new`). It reads a peer's string
  properties `bgp_endpoint`, `bgp_endpoint_port` and `bgp_neighbor_as`. The
  result is a descriptor `{ endpoint, endpoint_port: Option<u16>,
  neighbor_as: u32 }` or the first error met. Modules: `BirdConfig`, plus
  `Decimal` and `Ipv4`. Those two model the Rust standard-library parsing
  and printing the descriptor depends on: unsigned `from_str` and `Display`,
  and IPv4 dotted-decimal `parse` and `Display`.
- **Configuration renderer** (the loops inside `_update`). `BirdRender.Render`
  is a method with the source's nested zone and peer loops. It starts from
  the header `# generated by peerd` and adds one
  `protocol bgp <prefix+name> from <template> { neighbor <ip> <port clause> as <asn>; <interface clause> };`
  line per BIRD peer of every BIRD-enabled zone. The lines are joined with
  `"\n"`. The render is abandoned (`Deferred`) as soon as a BIRD-enabled
  zone's peer list cannot be locked. The method is proved equal to the
  specification function `RenderSpec`. The lemmas beside it state the line
  order, the header line, the missing trailing newline and the header-only
  case.
- **Update cycle and retry gate** (`_update`, `update`,
  `request_delayed_update`). `BirdUpdate.Update` turns the loaded options
  and the roster into what the cycle does:
  - fail;
  - reschedule with the same counter;
  - or write the text and optionally send `configure\n` to the control socket.

  `DelayedRetry` is the decision a woken retry takes: it is dropped if the
  watermark is newer than its captured time. Otherwise it reruns with
  counter + 1, and it warns when the counter is above 50. `RetryChain`
  strings the cycles together: every cycle, first or retried, loads the
  options and takes the roster afresh, so each gets its own `CycleInput`.

External inputs are given to the model as data:
- the outcome of `get_config()`;
- the zones from `get_zones()`;
- whether each zone's `try_lock()` succeeds;
- each peer's `get_ifname` result;
- the wall-clock timestamps.

Behaviour of the code worth noting:
- A missing `bird` options block is an error, `Err("BIRD is not enabled")`,
  not a silent no-op (src/route/bird.rs:64).
- The renderer never builds descriptors. `RouteConfig::BIRD` already holds
  one, so rendering has no per-peer configuration-error path. A bad property
  can only fail `BIRDConfig::new`, wherever that is called.
- In `bird.rs` the watermark `BIRD_LAST_UPDATE_TIME` is only read. It keeps
  `UNIX_EPOCH` unless code outside this file writes it. The model takes it as
  an input (`EpochWatermarkNeverDrops` states the initial case).
- Under a lasting lock, the first starvation warning comes from the retry
  whose counter is 51, the 52nd retry after `update()` (src/route/bird.rs:119-125,
  `StarvedChain`).

## Model

| member | source | states |
|---|---|---|
| Decimal.ParseUnsigned | src/route/bird.rs:40-49 | unsigned `parse` never yields a value above the type's maximum, and it reports `Empty` exactly for empty text |
| Decimal.ParseUnsignedMeaning | src/route/bird.rs:40-49 | the digit-by-digit `parse` (error at the first bad digit or overflow) succeeds exactly on an optional `+` and then one or more digits whose value fits; the result is that value |
| Decimal.Show | src/route/bird.rs:79-84 | the printed port or AS number is canonical decimal text whose value is the number |
| Decimal.ShowValue | src/route/bird.rs:79-84 | every canonical decimal text is the printed form of its own value, so printing is one-to-one |
| Decimal.ParseShow | src/route/bird.rs:40-49 | parsing a printed number that fits the type gives the number back |
| Ipv4.Parse | src/route/bird.rs:35-39 | the endpoint's `parse`; its contract is stated by `Ipv4.ParseShow` and `Ipv4.ShowParse` |
| Ipv4.Show | src/route/bird.rs:78 | the endpoint's `to_string`; its contract is stated by `Ipv4.ParseShow` and `Ipv4.ShowParse` |
| Ipv4.ParseShow | src/route/bird.rs:35-39 | reading back a printed endpoint address gives the same address |
| Ipv4.ShowParse | src/route/bird.rs:78 | every accepted address text is exactly the printed form of its result, so the `neighbor` field repeats the property verbatim |
| BirdConfig.New | src/route/bird.rs:33-52 | a missing endpoint is the one case that gives "BGP endpoint is not available", and on success the port is `None` iff its key is absent; see `NewSucceedsIff`, `NewToProps` and the error-order lemmas below for the rest |
| BirdConfig.NewSucceedsIff | src/route/bird.rs:33-52 | `new` succeeds iff the endpoint is present and an address, the port is absent or a u16, and the AS number is present and a u32; the fields are the parsed values, and an absent port gives `None` |
| BirdConfig.MissingEndpointFirst | src/route/bird.rs:35-38 | a missing endpoint fails with "BGP endpoint is not available", whatever the other keys hold |
| BirdConfig.BadEndpointFirst | src/route/bird.rs:35-39 | a present endpoint that is not an address fails with "invalid IP address syntax", whatever the port and AS keys hold |
| BirdConfig.BadPortBeforeAs | src/route/bird.rs:40-49 | with a good endpoint, a present but unparsable port is the error, with the kind its `u16` parse reports, before any AS check |
| BirdConfig.MissingAsAfterPort | src/route/bird.rs:45-48 | with a good endpoint and an absent or good port, a missing AS fails with "BGP neighbor as is not available" |
| BirdConfig.BadAsLast | src/route/bird.rs:45-49 | with a good endpoint and an absent or good port, a present but unparsable AS number is the error, with the kind its `u32` parse reports |
| BirdConfig.NewToProps | src/route/bird.rs:33-52 | every descriptor is rebuilt by `new` from its printed properties (round trip) |
| BirdConfig.ExampleNewWithoutPort | src/route/bird.rs:33-52 | endpoint "10.0.0.5" and AS "65001" with no port give endpoint 10.0.0.5, no port, AS 65001 |
| BirdConfig.ExampleNotAnIp | src/route/bird.rs:35-39 | an endpoint "not-an-ip" makes `new` fail with an address error |
| BirdRender.PeerLine | src/route/bird.rs:74-91 | one peer's `protocol bgp` statement; `PeerLineEnd`, `InterfaceClause` and the two example lemmas state its contract |
| BirdRender.PeerLineEnd | src/route/bird.rs:74-91 | every statement ends with the `;` that closes it |
| BirdRender.PortClause | src/route/bird.rs:79-83 | the port clause; `PortClauseEmpty` and `ExampleLineWithPort` state its contract |
| BirdRender.PortClauseEmpty | src/route/bird.rs:79-83 | the port clause is empty iff no port is configured |
| BirdRender.IfClause | src/route/bird.rs:85-90 | the interface clause; `IfClauseEmpty` and `InterfaceClause` state its contract |
| BirdRender.IfClauseEmpty | src/route/bird.rs:85-90 | the interface clause is empty iff the lookup found no name |
| BirdRender.Join | src/route/bird.rs:100 | `lines.join("\n")`; `JoinFirstLine` and `JoinLast` state its contract |
| BirdRender.JoinFirstLine | src/route/bird.rs:100 | the joined text starts with the first line, followed by a newline or by nothing |
| BirdRender.JoinLast | src/route/bird.rs:100 | the joined text ends with the last character of the last line, so joining adds no trailing newline |
| BirdRender.PushPeerLines | src/route/bird.rs:72-93 | the peer loop of one locked BIRD zone appends one statement per BIRD peer, in peer order, after the lines already built; `PeerLinesAreBirdPeers` ties those statements to the zone's BIRD peers |
| BirdRender.PeerLinesAreBirdPeers | src/route/bird.rs:72-93 | the statements of one zone's peers are exactly the statements of its BIRD-variant peers, each with the zone's settings, in peer order |
| BirdRender.Render | src/route/bird.rs:67-99 | the loops give `Deferred` iff some BIRD-enabled zone is locked (lines already built are discarded); otherwise they give the header and the zone lines joined by newlines; being equal to a function, the output is the same for an unchanged roster |
| BirdRender.AllLinesConcat | src/route/bird.rs:69-99 | the lines of consecutive zone lists are concatenated in zone order |
| BirdRender.OneLinePerEligiblePeer | src/route/bird.rs:69-93 | the lines are exactly one statement per BIRD peer of a BIRD-enabled zone, in zone order and then peer order |
| BirdRender.LineAt | src/route/bird.rs:69-93 | the number of lines equals the number of eligible peers, and line k is the statement of eligible peer k |
| BirdRender.EligibleMembers | src/route/bird.rs:69-73 | a peer is rendered iff its zone has BIRD settings and its route is the BIRD variant |
| BirdRender.HeaderFirstLine | src/route/bird.rs:67-100 | a rendered text starts with "# generated by peerd" as a complete first line |
| BirdRender.NoTrailingNewline | src/route/bird.rs:74-100 | a rendered text never ends with a newline |
| BirdRender.HeaderOnly | src/route/bird.rs:67-100 | an unlocked roster with no BIRD peer in a BIRD-enabled zone renders to the header alone |
| BirdRender.NonBirdZoneLockIgnored | src/route/bird.rs:70-71 | the lock of a zone without BIRD settings is never probed and cannot change the outcome |
| BirdRender.ExampleLineWithoutPort | src/route/bird.rs:74-91 | the peer alice in zone prefix "bgp-" with template "t_bgp" renders as `protocol bgp bgp-alice from t_bgp { neighbor 10.0.0.5  as 65001;  };` |
| BirdRender.ExampleLineWithPort | src/route/bird.rs:79-83 | with port 179 the neighbor clause becomes `neighbor 10.0.0.5  port 179  as 65001;` |
| BirdRender.InterfaceClause | src/route/bird.rs:85-90 | a failed lookup and an empty lookup print alike; a found name only adds `interface '<name>';` before the closing ` };` |
| BirdUpdate.CycleSpec | src/route/bird.rs:58-111 | a cycle returns `Ok` iff the options load and have a `bird` block, and a rescheduling cycle keeps the counter it was given; `NotEnabledFails`, `LockedZoneReschedules` and `UnlockedRosterWritten` state each outcome |
| BirdUpdate.Update | src/route/bird.rs:58-111 | one cycle behaves as `CycleSpec` (load error, not enabled, reschedule, or write and reconfigure) |
| BirdUpdate.Trigger | src/route/bird.rs:54-56 | `update()` runs the cycle with counter 0 |
| BirdUpdate.NotEnabledFails | src/route/bird.rs:60-66 | without BIRD options the cycle fails with "BIRD is not enabled" whatever the roster, so nothing is rendered, written or reconfigured |
| BirdUpdate.LockedZoneReschedules | src/route/bird.rs:94-97 | a locked BIRD zone makes the cycle return Ok and reschedule with the unchanged counter, writing nothing |
| BirdUpdate.UnlockedRosterWritten | src/route/bird.rs:100-108 | otherwise the rendered text, headed by the generator line, goes to the configured file, and a reconfigure through the control socket happens iff `do_reconfigure` is set |
| BirdUpdate.DelayedRetry | src/route/bird.rs:113-128 | the decision of a woken retry; `RetryGate` states its contract |
| BirdUpdate.RetryGate | src/route/bird.rs:113-128 | a retry reruns iff the watermark is at or before its captured time; it then uses counter + 1 and warns iff the counter is above 50, and a high counter never stops it |
| BirdUpdate.SupersededRetryDropped | src/route/bird.rs:117-118 | once a later request has moved the watermark past an earlier retry's time, that retry does nothing |
| BirdUpdate.RetryMonotone | src/route/bird.rs:117-118 | a retry that runs against a watermark also runs against any older one |
| BirdUpdate.EpochWatermarkNeverDrops | src/route/bird.rs:23 | with the initial `UNIX_EPOCH` watermark, every retry captured after the epoch runs |
| BirdUpdate.RetryChain | src/route/bird.rs:54-128 | the cycles after `update()` start with counter 0 on the first cycle's own options and roster; each later cycle follows a predecessor that deferred and whose retry, with its own captured time, passed the watermark gate, and it runs on its own freshly read options and roster with that predecessor's counter + 1; the chain stops after any other outcome or a dropped retry, with at most one cycle per retry |
| BirdUpdate.ChainStops | src/route/bird.rs:67-100 | when the first cycle's roster has no locked BIRD zone, no retry follows, and that cycle writes iff the options load with a `bird` block |
| BirdUpdate.DeferredPrefix | src/route/bird.rs:94-127 | if cycles 0 to k-1 each load options, meet a locked BIRD zone and have a retry that is not superseded, then they reschedule with counters 0 to k-1 and cycle k runs on its own input with counter k |
| BirdUpdate.OnlyDeferralsContinue | src/route/bird.rs:94-97 | every cycle of the chain except the last one rescheduled: only a deferral is ever followed by another cycle |
| BirdUpdate.RecoveredChain | src/route/bird.rs:94-127 | deferred cycles followed by a cycle whose own roster is free: that cycle writes its own roster's text, headed by the generator line, to its own configured file, and the chain ends there |
| BirdUpdate.StarvedChain | src/route/bird.rs:113-127 | while every cycle's roster has a locked BIRD zone and no retry is superseded, every retry runs; cycle k runs with counter k, and the retry it schedules warns iff k > 50 |

## Left out

- IPv6 endpoints: `IpAddr` parsing also accepts IPv6 text, which this model rejects as `EndpointInvalid`. IPv6 parsing and printing (RFC 5952 compression) are left out.
- The error values carry only their kind and `Message` text. The `anyhow` context and the error types are not modelled.
- File write `tokio::fs::write`: the model gives the path and the text (`Written`). Write failures are not modelled.
- The control-socket exchange: the model names the socket that receives `configure\n`. Connect, write and read failures, and the logged response, are not modelled.
- `BIRD_OPERATION_MUTEX`: the serialisation of whole cycles, and its release on every path, is concurrency. It is not modelled.
- `tokio::spawn` and the 500 ms sleep are not modelled: the retry's decision is a pure function of the watermark, its captured time and its counter.
- `SystemTime::now()` and the watermark read are inputs. No code in `bird.rs` writes the watermark, so writing it is not part of this model.
- Logging (`info!`, `warn!`, `error!`): the starvation warning is the `warn` flag of `Rerun`. Other log lines are left out.
- `get_config`, `get_zones`, `try_lock` and `get_ifname` are external collaborators. Their results are inputs: the roster is one snapshot, and each zone's lock state is fixed for that render.
- `RouteConfig` variants other than `BIRD` are merged into `OtherRoute`, because only `BIRD` is read.
- BirdUpdate.RetryChain: each cycle reads its own options and roster (`CycleInput`) and each retry's captured time is its own input, but the watermark is one value for the whole chain, because no code in `bird.rs` writes it. The captured times are not constrained to increase.
- BirdUpdate.DelayedRetry: the counter is a natural number. The `u32` overflow of `delay_times + 1` after 2^32 - 1 retries is not modelled.
- src/entry.rs (process start-up, logger, initialisation order) has no logic of its own.
