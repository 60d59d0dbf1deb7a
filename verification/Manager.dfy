/** The manager: the guards between the controller and the provider. */
module Manager {
  import opened Ip
  import opened Store
  import opened Provider

  /** `isIPV4Addr`. */
  predicate IsIPv4Addr(ip: string) {
    ParseIP(ip).Some? && ':' !in ip
  }

  /** The guard lets exactly the IPv4 texts through; the colon test turns none of them away. */
  lemma IsIPv4AddrIff(ip: string)
    ensures IsIPv4Addr(ip) <==> exists n :: QuadText(ip, n)
  {
    hide ParseIPv4, QuadText;
    ParseIPIs(ip);
    if n :| QuadText(ip, n) {
      ParseIPv4Iff(ip, n);
      QuadNoColon(ip, n);
    }
    if IsIPv4Addr(ip) {
      ParseIPv4Iff(ip, ParseIP(ip).value);
    }
  }

  function RecordCreated(core: Core, host: string, ip: string): Core {
    if IsIPv4Addr(ip) then
      core.(tables := core.tables.(records := core.tables.records + [ARecord(ip, host)]))
    else core
  }

  function RecordDeleted(core: Core, host: string, ip: string): Core {
    if IsIPv4Addr(ip) then
      core.(tables := core.tables.(records := Without(core.tables.records, ARecord(ip, host))))
    else core
  }

  function AddressReleased(core: Core, ip: string): Core {
    if IsIPv4Addr(ip) then core.(tables := core.tables.(rows := Released(core.tables.rows, ip))) else core
  }

  function NextAddress(core: Core, cidr: string): (Core, string) {
    if ParseCIDR(cidr).None? then (core, "") else NextAddr(core, cidr)
  }

  /** What is not IPv4 text never reaches the provider. */
  lemma RefusesOthers(core: Core, host: string, ip: string)
    requires forall n :: !QuadText(ip, n)
    ensures RecordCreated(core, host, ip) == core && RecordDeleted(core, host, ip) == core
    ensures AddressReleased(core, ip) == core
  {
    hide QuadText;
    IsIPv4AddrIff(ip);
  }

  class IPAMManager {
    const provider: IPAMProvider

    ghost function View(): Core
      reads this, provider, provider.store
    {
      provider.View()
    }

    constructor (provider: IPAMProvider)
      ensures this.provider == provider
    {
      this.provider := provider;
    }

    method CreateARecord(hostname: string, ipAddr: string) returns (ok: bool)
      modifies provider.store`records
      ensures View() == RecordCreated(old(View()), hostname, ipAddr)
      ensures ok == IsIPv4Addr(ipAddr)
    {
      var valid := IsIPv4Addr(ipAddr);
      if !valid {
        return false;
      }
      provider.CreateARecord(hostname, ipAddr);
      return true;
    }

    method DeleteARecord(hostname: string, ipAddr: string)
      modifies provider.store`records
      ensures View() == RecordDeleted(old(View()), hostname, ipAddr)
    {
      var valid := IsIPv4Addr(ipAddr);
      if !valid {
        return;
      }
      provider.DeleteARecord(hostname, ipAddr);
    }

    method GetIPAddress(hostname: string) returns (ip: string)
      ensures ip == LeastIp(View().tables.records, hostname)
    {
      ip := provider.GetIPAddress(hostname);
    }

    method GetNextIPAddress(cidr: string) returns (ip: string)
      modifies provider.store`rows
      ensures (View(), ip) == NextAddress(old(View()), cidr)
    {
      var parsed := ParseCIDR(cidr);
      if parsed.None? {
        return "";
      }
      ip := provider.GetNextAddr(cidr);
    }

    method AllocateIPAddress(cidr: string, ipAddr: string) returns (ok: bool)
      modifies provider.store`rows
      ensures (View(), ok) == AllocateAt(old(View()), cidr, ipAddr)
    {
      ok := provider.AllocateIPAddress(cidr, ipAddr);
    }

    method ReleaseIPAddress(ipAddr: string)
      modifies provider.store`rows
      ensures View() == AddressReleased(old(View()), ipAddr)
    {
      var valid := IsIPv4Addr(ipAddr);
      if !valid {
        return;
      }
      provider.ReleaseAddr(ipAddr);
    }
  }
}
