/**
 * The access-control list: each source address may have a list of
 * destination ports it is allowed to reach; everything else is denied.
 */
module Acl {
  import opened Addresses

  /** `Vec::contains`: a front-to-back scan for `port`. */
  function Contains(ports: seq<U16>, port: U16): (r: bool)
    ensures r <==> exists i :: 0 <= i < |ports| && ports[i] == port
    decreases |ports|
  {
    if |ports| == 0 then false
    else if ports[0] == port then true
    else
      var found := Contains(ports[1..], port);
      assert forall i :: 1 <= i < |ports| ==> ports[i] == ports[1..][i - 1];
      found
  }

  /** The rule table; `add_rule` changes it in place, `is_allowed` only reads it. */
  class AclRule {
    var allowedIps: map<IpAddr, seq<U16>>

    /** `AclRule::new`: no rules, so every `(ip, port)` is denied. */
    constructor ()
      ensures allowedIps == map[]
      ensures forall ip, port :: !IsAllowed(ip, port)
    {
      allowedIps := map[];
    }

    /** Replaces any earlier list for `ip` (last writer wins); no other address is affected. */
    method AddRule(ip: IpAddr, ports: seq<U16>)
      modifies this
      ensures allowedIps == old(allowedIps)[ip := ports]
      ensures forall port :: IsAllowed(ip, port) <==> port in ports
      ensures forall other, port :: other != ip ==> IsAllowed(other, port) == old(IsAllowed(other, port))
    {
      allowedIps := allowedIps[ip := ports];
    }

    /** Allowed iff a rule exists for `srcIp` and its list holds `dstPort`; default deny. */
    function IsAllowed(srcIp: IpAddr, dstPort: U16): (r: bool)
      reads this
      ensures r <==> srcIp in allowedIps && dstPort in allowedIps[srcIp]
      ensures srcIp !in allowedIps ==> !r
    {
      if srcIp in allowedIps then Contains(allowedIps[srcIp], dstPort) else false
    }
  }

  /** Two successive rules for one address: only the second list is in effect. */
  method LastWriterWins(acl: AclRule, ip: IpAddr, first: seq<U16>, second: seq<U16>)
    modifies acl
    ensures acl.allowedIps == old(acl.allowedIps)[ip := second]
    ensures forall port :: acl.IsAllowed(ip, port) <==> port in second
  {
    acl.AddRule(ip, first);
    acl.AddRule(ip, second);
  }
}
