/**
 * The per-packet dispatcher: intrusion check, rate limit, traffic shaping,
 * then NAT translation and the ACL decision for packets with a port. The
 * intrusion detector and the traffic shaper are abstract stages: an opaque
 * state and a decision function supplied by the caller.
 */
module Firewall {
  import opened Addresses
  import Nat
  import RateLimiting
  import Acl

  /** The SYN control bit of the TCP flags (section 3.1 of RFC 9293). */
  const SynFlag: bv8 := 0x02

  /** The transport header the payload parses as; TCP keeps its flags byte. */
  datatype Transport = Tcp(dstPort: U16, flags: bv8) | Udp(dstPort: U16) | OtherTransport

  /** A parsed IPv4 packet: addresses, the length of the whole buffer, the transport header. */
  datatype Ipv4Packet = Ipv4Packet(source: IpAddr, destination: IpAddr, length: nat, payload: Transport)

  /** `packet().len() as u32`: the buffer length truncated to 32 bits. */
  function PacketSize(p: Ipv4Packet): (size: U32)
    ensures p.length < 0x1_0000_0000 ==> size == p.length
    ensures (p.length - size) % 0x1_0000_0000 == 0
  {
    p.length % 0x1_0000_0000
  }

  /** The destination port and SYN flag derived from the transport header. */
  function PortAndSyn(t: Transport): (r: (Option<U16>, bool))
    ensures r.0.Some? <==> !t.OtherTransport?
    ensures r.0.Some? ==> r.0.value == t.dstPort
    ensures r.1 <==> t.Tcp? && t.flags & SynFlag != 0
  {
    match t
    case Tcp(port, flags) => (Some(port), flags & SynFlag != 0)
    case Udp(port) => (Some(port), false)
    case OtherTransport => (None, false)
  }

  /** The branch `handle_packet` ends in, one per log line it can emit. */
  datatype Outcome =
    | NotIpv4
    | IntrusionDetected
    | RateLimited
    | TrafficShaped
    | Allowed
    | Blocked
    | NonTransport

  /** The stages, in the order the dispatcher runs them. */
  datatype Stage = IntrusionCheck | RateCheck | ShapeCheck | NatTranslation | AclCheck

  const StageOrder: seq<Stage> := [IntrusionCheck, RateCheck, ShapeCheck, NatTranslation, AclCheck]

  /**
   * The intrusion detector's decision on its state, the source address, the
   * destination port, the SYN flag and the current time: intrusion or not,
   * and the new state.
   */
  type Detector<!S> = (S, IpAddr, Option<U16>, bool, nat) -> (bool, S)

  /** The intrusion detector: opaque state that its decision function updates. */
  class Idps<S> {
    var state: S
    const detect: Detector<S>

    constructor (initial: S, detect: Detector<S>)
      ensures state == initial && this.detect == detect
    {
      state := initial;
      this.detect := detect;
    }

    method IsIntrusion(srcIp: IpAddr, port: Option<U16>, isSyn: bool, now: nat) returns (intrusion: bool)
      modifies this
      ensures (intrusion, state) == detect(old(state), srcIp, port, isSyn, now)
    {
      var verdict := detect(state, srcIp, port, isSyn, now);
      intrusion := verdict.0;
      state := verdict.1;
    }
  }

  /**
   * The traffic shaper: used only by shared reference, so its state does not
   * change. Its decision sees the destination address, the packet size and
   * the current time.
   */
  datatype TrafficShaper<!S> = TrafficShaper(state: S, admits: (S, IpAddr, U32, nat) -> bool)
  {
    /** `check_traffic`: the decision on the shaper's unchanged state; true admits the packet. */
    predicate CheckTraffic(dstIp: IpAddr, size: U32, now: nat): (r: bool)
      ensures r <==> admits(state, dstIp, size, now)
    {
      admits(state, dstIp, size, now)
    }
  }

  /** The state of the engines that `handle_packet` may change. */
  datatype Engines<S> = Engines(natTable: Nat.NatState, limiter: RateLimiting.LimiterState, idps: S)

  /** What one packet does: the engines afterwards, the outcome, the stages that ran. */
  datatype Dispatch<S> = Dispatch(engines: Engines<S>, outcome: Outcome, trace: seq<Stage>)

  /**
   * A packet that has a port and passes the intrusion, rate and shaping
   * checks reaches the NAT stage; there its translation must not overflow
   * the port counter.
   */
  predicate NatReady<S, T>(e: Engines<S>, packet: Option<Ipv4Packet>, detect: Detector<S>,
                           shaper: TrafficShaper<T>, now: nat) {
    packet.Some? ==>
      var p := packet.value;
      var (port, isSyn) := PortAndSyn(p.payload);
      (port.Some? && !detect(e.idps, p.source, port, isSyn, now).0
       && e.limiter.AllowRequest(p.source, now).1
       && shaper.CheckTraffic(p.destination, PacketSize(p), now))
      ==> e.natTable.CanTranslate(SocketAddr(p.source, port.value))
  }

  /**
   * `handle_packet` on the state of the engines. The stages run in a fixed
   * order and each rejection ends the packet; NAT translation and the ACL
   * check both run whenever a port exists, the translation first and
   * whatever the ACL then decides.
   */
  function Handle<S, T>(e: Engines<S>, packet: Option<Ipv4Packet>, acl: Acl.AclRule,
                        detect: Detector<S>,
                        shaper: TrafficShaper<T>, now: nat): (d: Dispatch<S>)
    reads acl
    requires NatReady(e, packet, detect, shaper, now)
    // The stages that ran are a prefix of the fixed order, ending at the first rejection.
    ensures |d.trace| <= |StageOrder| && d.trace == StageOrder[..|d.trace|]
    ensures d.trace == [] <==> d.outcome == NotIpv4
    ensures |d.trace| == 1 <==> d.outcome == IntrusionDetected
    ensures |d.trace| == 2 <==> d.outcome == RateLimited
    ensures |d.trace| == 3 <==> d.outcome in {TrafficShaped, NonTransport}
    ensures |d.trace| == 5 <==> d.outcome in {Allowed, Blocked}
    // An engine whose stage did not run keeps its state.
    ensures IntrusionCheck !in d.trace ==> d.engines.idps == e.idps
    ensures RateCheck !in d.trace ==> d.engines.limiter == e.limiter
    ensures NatTranslation !in d.trace ==> d.engines.natTable == e.natTable
    // A packet that is not IPv4 runs no stage.
    ensures d.outcome == NotIpv4 <==> packet.None?
  {
    if packet.None? then
      Dispatch(e, NotIpv4, [])
    else
      var p := packet.value;
      var (port, isSyn) := PortAndSyn(p.payload);
      var (intrusion, idps') := detect(e.idps, p.source, port, isSyn, now);
      if intrusion then
        Dispatch(e.(idps := idps'), IntrusionDetected, [IntrusionCheck])
      else
        var (limiter', admitted) := e.limiter.AllowRequest(p.source, now);
        if !admitted then
          Dispatch(Engines(e.natTable, limiter', idps'), RateLimited, [IntrusionCheck, RateCheck])
        else if !shaper.CheckTraffic(p.destination, PacketSize(p), now) then
          Dispatch(Engines(e.natTable, limiter', idps'), TrafficShaped, [IntrusionCheck, RateCheck, ShapeCheck])
        else
          var natTable' := if port.Some? then e.natTable.Translate(SocketAddr(p.source, port.value)).0 else e.natTable;
          var outcome :=
            if port.Some? then
              if acl.IsAllowed(p.source, port.value) then Allowed else Blocked
            else NonTransport;
          Dispatch(Engines(natTable', limiter', idps'), outcome,
                   if port.Some? then [IntrusionCheck, RateCheck, ShapeCheck, NatTranslation, AclCheck]
                   else [IntrusionCheck, RateCheck, ShapeCheck])
  }

  /** If the intrusion stage reports true, no later engine is consulted or changed. */
  lemma IntrusionShortCircuits<S, T>(e: Engines<S>, p: Ipv4Packet, acl: Acl.AclRule,
                                     detect: Detector<S>,
                                     shaper: TrafficShaper<T>, now: nat)
    requires detect(e.idps, p.source, PortAndSyn(p.payload).0, PortAndSyn(p.payload).1, now).0
    ensures var d := Handle(e, Some(p), acl, detect, shaper, now);
            && d.outcome == IntrusionDetected
            && d.trace == [IntrusionCheck]
            && d.engines.natTable == e.natTable && d.engines.limiter == e.limiter
  {
  }

  /** If the rate limiter rejects, neither the shaper nor NAT nor the ACL is consulted. */
  lemma RateLimitShortCircuits<S, T>(e: Engines<S>, p: Ipv4Packet, acl: Acl.AclRule,
                                     detect: Detector<S>,
                                     shaper: TrafficShaper<T>, now: nat)
    requires !detect(e.idps, p.source, PortAndSyn(p.payload).0, PortAndSyn(p.payload).1, now).0
    requires !e.limiter.AllowRequest(p.source, now).1
    ensures var d := Handle(e, Some(p), acl, detect, shaper, now);
            && d.outcome == RateLimited
            && d.trace == [IntrusionCheck, RateCheck]
            && d.engines.natTable == e.natTable
            && d.engines.limiter == e.limiter.AllowRequest(p.source, now).0
  {
  }

  /** If the traffic shaper rejects, neither NAT nor the ACL is consulted. */
  lemma ShaperShortCircuits<S, T>(e: Engines<S>, p: Ipv4Packet, acl: Acl.AclRule,
                                  detect: Detector<S>,
                                  shaper: TrafficShaper<T>, now: nat)
    requires !detect(e.idps, p.source, PortAndSyn(p.payload).0, PortAndSyn(p.payload).1, now).0
    requires e.limiter.AllowRequest(p.source, now).1
    requires !shaper.CheckTraffic(p.destination, PacketSize(p), now)
    ensures var d := Handle(e, Some(p), acl, detect, shaper, now);
            && d.outcome == TrafficShaped
            && d.trace == [IntrusionCheck, RateCheck, ShapeCheck]
            && d.engines.natTable == e.natTable
  {
  }

  /**
   * When a port exists and the three checks pass, the source endpoint is
   * translated whatever the ACL decides, and the ACL decides the outcome:
   * a blocked packet still creates its NAT mapping.
   */
  lemma NatRunsBeforeAcl<S, T>(e: Engines<S>, p: Ipv4Packet, acl: Acl.AclRule,
                               detect: Detector<S>,
                               shaper: TrafficShaper<T>, now: nat)
    requires !detect(e.idps, p.source, PortAndSyn(p.payload).0, PortAndSyn(p.payload).1, now).0
    requires e.limiter.AllowRequest(p.source, now).1
    requires shaper.CheckTraffic(p.destination, PacketSize(p), now)
    requires !p.payload.OtherTransport?
    requires e.natTable.CanTranslate(SocketAddr(p.source, p.payload.dstPort))
    ensures var d := Handle(e, Some(p), acl, detect, shaper, now);
            var endpoint := SocketAddr(p.source, p.payload.dstPort);
            && d.trace == StageOrder
            && d.engines.natTable == e.natTable.Translate(endpoint).0
            && endpoint in d.engines.natTable.privateToPub
            && (d.outcome == Allowed <==> acl.IsAllowed(p.source, p.payload.dstPort))
            && (d.outcome == Blocked <==> !acl.IsAllowed(p.source, p.payload.dstPort))
  {
  }

  /** Without a port, NAT and the ACL are skipped and the outcome is the non-TCP/UDP branch. */
  lemma NoPortSkipsNatAndAcl<S, T>(e: Engines<S>, p: Ipv4Packet, acl: Acl.AclRule,
                                   detect: Detector<S>,
                                   shaper: TrafficShaper<T>, now: nat)
    requires !detect(e.idps, p.source, None, false, now).0
    requires e.limiter.AllowRequest(p.source, now).1
    requires shaper.CheckTraffic(p.destination, PacketSize(p), now)
    requires p.payload.OtherTransport?
    ensures var d := Handle(e, Some(p), acl, detect, shaper, now);
            && d.outcome == NonTransport
            && d.trace == [IntrusionCheck, RateCheck, ShapeCheck]
            && d.engines.natTable == e.natTable
  {
  }

  /**
   * `handle_packet`: threads the NAT table, the intrusion detector and the
   * rate limiter through the stages in place, returning early on each
   * rejection. The result mirrors the branch whose log line would be emitted.
   */
  method HandlePacket<S, T>(packet: Option<Ipv4Packet>, natTable: Nat.NatTable, aclRule: Acl.AclRule,
                            idps: Idps<S>, rateLimiter: RateLimiting.RateLimiter,
                            trafficShaper: TrafficShaper<T>, now: nat) returns (outcome: Outcome)
    requires natTable.Valid() && rateLimiter.Valid()
    requires NatReady(Engines(natTable.State(), rateLimiter.State(), idps.state), packet,
                      idps.detect, trafficShaper, now)
    modifies natTable, idps, rateLimiter
    ensures natTable.Valid() && rateLimiter.Valid()
    ensures var d := Handle(Engines(old(natTable.State()), old(rateLimiter.State()), old(idps.state)),
                            packet, aclRule, idps.detect, trafficShaper, now);
            && natTable.State() == d.engines.natTable
            && rateLimiter.State() == d.engines.limiter
            && idps.state == d.engines.idps
            && outcome == d.outcome
  {
    if packet.None? {
      return NotIpv4;
    }
    var p := packet.value;
    var (port, isSyn) := PortAndSyn(p.payload);

    var intrusion := idps.IsIntrusion(p.source, port, isSyn, now);
    if intrusion {
      return IntrusionDetected;
    }

    var admitted := rateLimiter.AllowRequest(p.source, now);
    if !admitted {
      return RateLimited;
    }

    if !trafficShaper.CheckTraffic(p.destination, PacketSize(p), now) {
      return TrafficShaped;
    }

    if port.Some? {
      var translated := natTable.Translate(SocketAddr(p.source, port.value));
    }

    if port.Some? {
      outcome := if aclRule.IsAllowed(p.source, port.value) then Allowed else Blocked;
    } else {
      outcome := NonTransport;
    }
  }

  /** An intrusion detector that never reports, with a state it leaves alone. */
  const NeverIntrusion: Detector<int> := (s: int, ip: IpAddr, port: Option<U16>, syn: bool, t: nat) => (false, s)

  /** A traffic shaper that admits every packet. */
  const AdmitAll: TrafficShaper<int> := TrafficShaper(0, (s: int, ip: IpAddr, size: U32, t: nat) => true)

  /**
   * From a fresh NAT table and a fresh limiter of 100 requests a minute, a
   * source allowed only ports 22 and 443 sends a TCP SYN to port 22 and then
   * to port 80, every other check passing. The first is allowed and the
   * second blocked, yet both create a NAT mapping: `(src, 22)` gets public
   * port 10000, and public port 10001 leads back to `(src, 80)`.
   */
  lemma BlockedPacketStillMapped<S, T>(acl: Acl.AclRule, publicIp: IpAddr, idps: S, detect: Detector<S>,
                                       shaper: TrafficShaper<T>, src: IpAddr, dst: IpAddr, now: nat)
    requires forall s, ip, port, syn, t :: !detect(s, ip, port, syn, t).0
    requires forall ip, size, t :: shaper.CheckTraffic(ip, size, t)
    requires acl.allowedIps == map[src := [22, 443]]
    ensures var e0 := Engines(Nat.Fresh(publicIp), RateLimiting.Fresh(100, 60), idps);
            var d0 := Handle(e0, Some(Ipv4Packet(src, dst, 40, Tcp(22, SynFlag))), acl, detect, shaper, now);
            var d1 := Handle(d0.engines, Some(Ipv4Packet(src, dst, 40, Tcp(80, SynFlag))), acl, detect, shaper, now);
            && d0.outcome == Allowed && d1.outcome == Blocked
            && d1.engines.natTable.privateToPub[SocketAddr(src, 22)] == SocketAddr(publicIp, 10000)
            && SocketAddr(publicIp, 10001) in d1.engines.natTable.pubToPrivate
            && d1.engines.natTable.pubToPrivate[SocketAddr(publicIp, 10001)] == SocketAddr(src, 80)
  {
    assert acl.IsAllowed(src, 22) && !acl.IsAllowed(src, 80);
    var e0 := Engines(Nat.Fresh(publicIp), RateLimiting.Fresh(100, 60), idps);
    var toSsh := Ipv4Packet(src, dst, 40, Tcp(22, SynFlag));
    assert e0.limiter.AllowRequest(src, now).1;
    NatRunsBeforeAcl(e0, toSsh, acl, detect, shaper, now);
    var e1 := Handle(e0, Some(toSsh), acl, detect, shaper, now).engines;
    assert e1.natTable.privateToPub == map[SocketAddr(src, 22) := SocketAddr(publicIp, 10000)];
    assert e1.limiter.clients[src] == RateLimiting.Entry(1, now);
    assert e1.limiter.AllowRequest(src, now).1;
    NatRunsBeforeAcl(e1, Ipv4Packet(src, dst, 40, Tcp(80, SynFlag)), acl, detect, shaper, now);
  }
}
