# Packet-filter decision core, modelled in Dafny

This project models the decision core of a small packet filter. For every
IPv4 packet, a dispatcher runs a fixed chain of policy engines: an intrusion
detector, a per-source rate limiter and a per-destination traffic shaper.
If a destination port exists, it then runs a NAT translation and an
access-control check. The model covers four engines and proves what each
one promises:

- **NAT table** (`nat.dfy`, module `Nat`). A class `NatTable` with the two
  maps and the `u16` port counter, backed by a value `NatState`.
  - The invariant: the two maps are exact inverses, and every public address
    is `(publicIp, port)` with `port` in `[10000, nextPort)`.
  - The finer layout: the `i`-th private endpoint translated holds port
    `10000 + i`.
  - `translate` is idempotent. A new endpoint gets the next port, and the
    reverse lookup leads back to it.
- **Rate limiter** (`rate_limiter.dfy`, module `RateLimiting`). A class
  `RateLimiter` with a per-address `(count, window_start)` map, backed by a
  value `LimiterState`.
  - Time is an explicit `now` in nanoseconds.
  - The entry is reset only when strictly more than the window has elapsed.
  - A request is admitted only while the count is below the limit, and
    admission adds exactly one.
  - No stored count ever exceeds the limit, and no more than the limit are
    admitted within one window.
- **ACL** (`acl.dfy`, module `Acl`). A class `AclRule` with a map from
  address to port list.
  - `AddRule` replaces an earlier list: the last writer wins.
  - `IsAllowed` is membership, with default deny.
- **Dispatcher** (`firewall.dfy`, module `Firewall`). `HandlePacket` is the
  in-place version of `handle_packet`. It is proved equal to the pure
  function `Handle`, which also records which stages ran.
  - The trace of stages is always a prefix of intrusion, rate, shaping,
    NAT, ACL, cut at the first rejection.
  - An engine whose stage did not run keeps its state.
  - NAT translation runs before the ACL and whatever the ACL decides, so a
    blocked packet still creates a mapping.
  - The intrusion detector and the traffic shaper are abstract: an opaque
    state of a type parameter and a decision function, which also receives
    the current time. The shaper is only ever read, as in the source, where
    it is passed by shared reference.

`addresses.dfy` (module `Addresses`) holds the shared types:
- `U16`, `U32` and `U64` for the machine widths;
- `IpAddr`, an IPv4 address as its 32-bit value;
- `SocketAddr` and `Option`.

Three points of the code's behaviour that the model keeps as written:
- A packet the ACL blocks still creates a NAT mapping: translation
  (firewall.rs:40-44) runs before the ACL check (firewall.rs:47-52) and does
  not depend on it.
- The translated endpoint is `(source address, destination port)`
  (firewall.rs:41).
- `handle_packet` returns nothing and only logs. The model returns an
  `Outcome` value, one per log branch.

## Model

| member | source | states |
|---|---|---|
| `Nat.Fresh` | nat.rs:13-20 | a new table has no mappings, its counter at 10000, and satisfies the layout invariant with no endpoints |
| `Nat.NatState.Translate` | nat.rs:23-37 | an already-mapped endpoint returns its stored address and changes nothing; a new one gets `(publicIp, nextPort)` and the counter rises by exactly 1; the inverse/range invariant is kept, the reverse map leads back to the endpoint, and earlier mappings in both directions are kept |
| `Nat.NoSharedPublic` | nat.rs:6-7 | under the invariant, two distinct private addresses never share a public address |
| `Nat.LayoutValid` | nat.rs:6-9 | the allocation layout implies the maps are mutual inverses with every public port in `[10000, nextPort)` |
| `Nat.TranslateLayout` | nat.rs:25-35 | one translation keeps the layout, appending a new endpoint at port `10000 + position` and leaving a seen one where it is |
| `Nat.TranslateAll` | nat.rs:23-37 | a run of translations, each made on the table the previous one left, keeps the public address and advances the counter by at most one per call |
| `Nat.DistinctCapacitySuffices` | nat.rs:25-33 | only a new endpoint takes a port, so a run of translations never overflows the counter when its distinct new endpoints fit below 65535, however often each repeats |
| `Nat.TranslateAllLayout` | nat.rs:29-33 | replaying any run of translations that does not overflow keeps the layout, with the new endpoints appended in order of first appearance |
| `Nat.DistinctElements` | nat.rs:25-30 | the list of distinct endpoints holds each translated endpoint exactly once |
| `Nat.NthDistinctEndpoint` | nat.rs:13-33 | from a fresh table, any run with at most 55535 distinct endpoints completes; the n-th distinct private endpoint (from 0) gets public port `10000 + n` in both maps, and the counter equals 10000 plus the number of distinct endpoints |
| `Nat.NatTable.constructor` | nat.rs:13-20 | the new object is the fresh table and satisfies its invariant |
| `Nat.NatTable.Translate` | nat.rs:23-37 | the in-place update equals `NatState.Translate` on the old state, keeps the invariant, and `ReverseTranslate` of the result gives back the private address |
| `Nat.NatTable.ReverseTranslate` | nat.rs:40-42 | returns a value exactly when the public address is mapped; the value maps forward to it; an address never allocated (wrong IP or port outside `[10000, nextPort)`) gives `None`; it reads and changes nothing |
| `RateLimiting.Elapsed` | rate_limiter.rs:27 | the time from the window start to `now`, zero when the start is later (saturating) |
| `RateLimiting.LimiterState.WindowEntry` | rate_limiter.rs:24-30 | an unseen address starts as `(0, now)`; a stored entry is kept when at most the window has elapsed and reset to `(0, now)` when strictly more has |
| `RateLimiting.LimiterState.AllowRequest` | rate_limiter.rs:22-39 | admitted iff the count after any reset is below the limit; admission adds exactly 1, rejection keeps the reset entry; every other address's entry, the limit and the window stay as they were; the bound "count <= limit" is kept |
| `RateLimiting.Fresh` | rate_limiter.rs:13-19 | a new limiter has no clients and a window of the given seconds in nanoseconds |
| `RateLimiting.FirstRequest` | rate_limiter.rs:24-35 | the first request from an unseen address is admitted iff the limit is positive and leaves the entry `(1, now)` or `(0, now)` |
| `RateLimiting.NoResetAtBoundary` | rate_limiter.rs:27-30 | at exactly the window length elapsed there is no reset and the old count decides |
| `RateLimiting.ResetAfterWindow` | rate_limiter.rs:27-35 | after strictly more than the window, the count restarts: admitted iff the limit is positive, count 1 |
| `RateLimiting.Replay` | rate_limiter.rs:22-39 | a run of requests from one address keeps the bound on every stored count |
| `RateLimiting.AtMostLimitPerWindow` | rate_limiter.rs:24-38 | within one window the admissions from one address added to its stored count never exceed the limit, and the window start does not move |
| `RateLimiting.ThreeThenRejectThenReset` | rate_limiter.rs:22-39 | with limit 3 and a 60 s window: true, true, true, then false within the window, then true with the count back at 1 after it |
| `RateLimiting.RateLimiter.constructor` | rate_limiter.rs:13-19 | the new object is the fresh limiter |
| `RateLimiting.RateLimiter.AllowRequest` | rate_limiter.rs:22-39 | the in-place reset-then-increment equals `LimiterState.AllowRequest` on the old state and keeps the bound |
| `Acl.Contains` | acl.rs:21 | the linear scan finds `port` iff some position of the list holds it |
| `Acl.AclRule.constructor` | acl.rs:9-13 | a new ACL has no rules and denies every `(ip, port)` |
| `Acl.AclRule.AddRule` | acl.rs:15-17 | the list for `ip` is replaced; afterwards `ip` is allowed exactly the new ports; every other address's answers are unchanged |
| `Acl.AclRule.IsAllowed` | acl.rs:19-25 | true iff a rule exists for the address and its list contains the port; false whenever no rule exists |
| `Acl.LastWriterWins` | acl.rs:15-17 | two successive rules for one address leave only the second list in effect |
| `Firewall.PacketSize` | firewall.rs:10 | the buffer length cast to `u32`: equal to it below 2^32, congruent to it modulo 2^32 |
| `Firewall.PortAndSyn` | firewall.rs:13-19 | TCP yields its destination port and `flags & 0x02 != 0`; UDP yields its destination port and false; anything else no port and false |
| `Firewall.Idps.IsIntrusion` | firewall.rs:22 | the detector's answer and new state are those of its decision function on the old state, fed the derived port, the SYN flag and the current time |
| `Firewall.Idps.constructor` | main.rs:32 | the new detector holds the given initial state and decision function |
| `Firewall.TrafficShaper.CheckTraffic` | firewall.rs:34 | the shaper's answer is its decision function on its unchanged state, the destination, the packet size and the current time |
| `Firewall.Handle` | firewall.rs:6-59 | the stages run are a prefix of intrusion, rate, shaping, NAT, ACL; the trace length identifies the outcome, except that length 3 is either a shaping rejection or a packet without a port; an engine whose stage did not run keeps its state; a non-IPv4 packet runs no stage |
| `Firewall.IntrusionShortCircuits` | firewall.rs:22-25 | a detected intrusion ends the packet with the NAT table and rate limiter untouched |
| `Firewall.RateLimitShortCircuits` | firewall.rs:28-31 | a rate-limit rejection ends the packet before shaping, NAT and ACL; only the detector's and the limiter's updates remain |
| `Firewall.ShaperShortCircuits` | firewall.rs:34-37 | a shaping rejection ends the packet before NAT and ACL |
| `Firewall.NatRunsBeforeAcl` | firewall.rs:40-52 | with a port and all three checks passed, the endpoint is translated whatever the ACL says, and the outcome is allowed iff the ACL allows |
| `Firewall.NoPortSkipsNatAndAcl` | firewall.rs:40-54 | without a port NAT and ACL are skipped and the outcome is the non-TCP/UDP branch |
| `Firewall.HandlePacket` | firewall.rs:6-59 | the in-place dispatch, with early returns, leaves the NAT table, intrusion detector and rate limiter in exactly the state `Handle` gives and returns its outcome; the ACL and shaper are not changed |
| `Firewall.BlockedPacketStillMapped` | firewall.rs:40-52 | from a fresh table and limiter, with rule `[22, 443]` for a source and the other checks passing: a TCP SYN to 22 is allowed and one to 80 is blocked; `(src, 22)` holds public port 10000 and public port 10001 leads back to `(src, 80)` |

## Left out

- `main.rs`: interface lookup, the capture channel, the endless receive loop, logger set-up and the hard-coded configuration are I/O plumbing.
- Header parsing by `pnet` (`Ipv4Packet::new`, `TcpPacket::new`, `UdpPacket::new`) is a foreign library. The model takes the parse result as input: `None` when the buffer is too short for an IPv4 header (the source logs it as non-IPv4), otherwise the addresses, the buffer length and a TCP/UDP/other classification.
- The internals of the intrusion detector and the traffic shaper are not part of this model (their files are not available). They are a state of a type parameter and a caller-supplied decision function. `Idps::new` and `TrafficShaper::new` become the initial state and that function.
- Log output (`info!`, `warn!`, `error!`, `debug!`) is diagnostics. Only the branch taken is kept, as `Outcome`.
- `Instant::now()` is replaced by a `now` parameter in nanoseconds. `Duration::new(secs, 0)` becomes `secs * 1_000_000_000`.
- IPv6 addresses, `SocketAddr` formatting and the `HashMap` implementation are not modelled. Addresses are 32-bit integers used as keys of Dafny maps.
- Nat.NatState.Translate: a new endpoint requires `nextPort < 65535`. At 65535 the source's `next_port += 1` overflows `u16`: a debug build panics, and a release build wraps to 0 and later reuses ports. Neither behaviour is modelled.
- Nat.NatTable.Translate: the same `nextPort < 65535` condition for a new endpoint, for the same reason.
- Firewall.HandlePacket: requires, for a packet that has a port and passes the intrusion, rate and shaping checks, that its translation will not overflow the port counter (`NatReady`), for the same reason. A packet dropped earlier, or one without a port, carries no such condition.
- Firewall.Handle: the same `NatReady` condition as `HandlePacket`.
- Firewall.Handle: every stage of one packet sees the same instant `now`, where each source stage reads `Instant::now()` on its own. The detector and shaper are arbitrary in `now`, and the limiter reads the clock once per packet, so no behaviour is lost.
- Overflow of the `u64` request count needs no model: the count is incremented only while it is below a `u64` limit.
