/** The address provider: range expansion at start-up, then the guarded store operations. */
module Provider {
  import opened Wrappers
  import opened Text
  import opened Ip
  import opened Store

  /** What the provider holds: the CIDR labels it supports and the two tables. */
  datatype Core = Core(cidrs: set<string>, tables: Tables)

  // ---------------------------------------------------------------- reading the configuration

  datatype RangeText = RangeText(start: string, end: string, mask: string)

  /** "a/m-b/m" taken apart; None wherever the loader logs an error and moves on. */
  function ReadRange(entry: string): Option<RangeText> {
    var ends := Split(Trim(entry, '"'), '-');
    if |ends| != 2 then None
    else
      var start, end := Split(ends[0], '/'), Split(ends[1], '/');
      if |start| != 2 || |end| != 2 || start[1] != end[1] then None
      else Some(RangeText(start[0], end[0], start[1]))
  }

  /** The last address the expansion yields: the range's end when the walk from `start`
      meets it inside the start address's own prefix, otherwise that prefix's top. */
  function LastAddress(start: nat, net: Net, end: nat): (last: nat)
    requires net.Valid() && Prefix(start, net.bits) == net.base
    ensures start <= last < net.base + Size(net.bits)
  {
    if start <= end && Prefix(end, net.bits) == net.base then
      PrefixInterval(net, end);
      end
    else net.base + Size(net.bits) - 1
  }

  /** lo, lo + 1, ..., hi - 1 as texts. */
  function Texts(lo: nat, hi: nat): (ips: seq<string>)
    requires lo <= hi <= IPV4_COUNT
    ensures |ips| == hi - lo
    ensures forall i :: 0 <= i < |ips| ==> ips[i] == Render(lo + i)
  {
    seq(hi - lo, i requires 0 <= i < hi - lo => Render(lo + i))
  }

  lemma TextsNext(lo: nat, hi: nat)
    requires lo <= hi < IPV4_COUNT
    ensures Texts(lo, hi + 1) == Texts(lo, hi) + [Render(hi)]
  {
  }

  /** The texts one range contributes; None when its start address does not parse. */
  function RangeTexts(start: string, mask: string, end: nat): Option<seq<string>> {
    match ParseCIDR(start + "/" + mask)
    case None => None
    case Some((first, net)) =>
      PrefixEnd(net);
      Some(Texts(first, LastAddress(first, net, end) + 1))
  }

  lemma RangeTextsIs(start: string, mask: string, end: nat, first: nat, net: Net)
    requires ParseCIDR(start + "/" + mask) == Some((first, net))
    ensures LastAddress(first, net, end) < IPV4_COUNT
    ensures RangeTexts(start, mask, end) == Some(Texts(first, LastAddress(first, net, end) + 1))
  {
    hide ParseCIDR, Render;
    PrefixEnd(net);
  }

  /** A well-separated range folded into the provider. The end address names the CIDR, which
      is registered even when the start address then fails to parse. */
  function LoadText(t: RangeText, core: Core): Core {
    match ParseCIDR(t.end + "/" + t.mask)
    case None => core
    case Some((end, net)) =>
      var named := core.(cidrs := core.cidrs + {Label(net)});
      match RangeTexts(t.start, t.mask, end)
      case None => named
      case Some(ips) => named.(tables := Inserted(named.tables, ips, Label(net)))
  }

  /** One configured range folded into the provider. */
  function LoadEntry(entry: string, core: Core): Core {
    match ReadRange(entry)
    case None => core
    case Some(t) => LoadText(t, core)
  }

  function LoadAll(entries: seq<string>, core: Core): Core {
    if entries == [] then core else LoadAll(entries[1..], LoadEntry(entries[0], core))
  }

  /** `parseIPRange`. */
  function Entries(text: string): (entries: seq<string>)
    requires text != ""
    ensures entries != []
  {
    var parts := Split(text, ',');
    seq(|parts|, i requires 0 <= i < |parts| => Trim(parts[i], ' '))
  }

  // ---------------------------------------------------------------- guarded operations

  function NextAddr(core: Core, cidr: string): (Core, string) {
    if cidr !in core.cidrs then (core, "")
    else
      var (t, ip) := AfterAllocate(core.tables, cidr);
      (core.(tables := t), ip)
  }

  /** The address text lies in the prefix the CIDR text names. */
  predicate InPrefix(cidr: string, ip: string) {
    ParseCIDR(cidr).Some? && ParseIP(ip).Some? && Contains(ParseCIDR(cidr).value.1, V4(ParseIP(ip).value))
  }

  function AllocateAt(core: Core, cidr: string, ip: string): (Core, bool) {
    if cidr !in core.cidrs || !InPrefix(cidr, ip) then (core, false)
    else
      var (t, ok) := AfterMark(core.tables, cidr, ip);
      (core.(tables := t), ok)
  }

  /** The address is tested against the interval of the prefix. */
  lemma InPrefixIff(cidr: string, ip: string, net: Net, n: nat)
    requires ParseCIDR(cidr).Some? && ParseCIDR(cidr).value.1 == net && QuadText(ip, n)
    ensures n < IPV4_COUNT
    ensures InPrefix(cidr, ip) <==> net.base <= n < net.base + Size(net.bits)
  {
    hide ParseCIDR, ParseIPv4, QuadText, V4, To4, Prefix;
    ParseIPv4Iff(ip, n);
    ParseIPIs(ip);
    To4V4(V4(n), n);
    PrefixInterval(net, n);
  }

  /** A label that no range registered gets no address, and so does an address outside its
      prefix or a text that is no address. */
  lemma Refused(core: Core, cidr: string, ip: string)
    ensures cidr !in core.cidrs ==> NextAddr(core, cidr) == (core, "") && AllocateAt(core, cidr, ip) == (core, false)
    ensures (forall n :: !QuadText(ip, n)) ==> AllocateAt(core, cidr, ip) == (core, false)
  {
    hide ParseCIDR, ParseIPv4, QuadText;
    ParseIPIs(ip);
    if ParseIPv4(ip).Some? { ParseIPv4Iff(ip, ParseIPv4(ip).value); }
  }

  // ---------------------------------------------------------------- the provider itself

  method ParseIPRange(ipRange: string) returns (ipRanges: Option<seq<string>>)
    ensures ipRanges == if ipRange == "" then None else Some(Entries(ipRange))
  {
    if ipRange == "" {
      return None;
    }
    var ranges := Split(ipRange, ',');
    var out: seq<string> := [];
    for i := 0 to |ranges|
      invariant out == Entries(ipRange)[..i]
    {
      out := out + [Trim(ranges[i], ' ')];
    }
    assert out == Entries(ipRange);
    return Some(out);
  }

  /** Where the expansion stands once it has rendered start .. n - 1. */
  ghost predicate Walking(bytes: seq<byte>, ips: seq<string>, start: nat, net: Net, end: nat, n: nat)
    requires net.Valid() && Prefix(start, net.bits) == net.base
  {
    && start <= n <= LastAddress(start, net, end) + 1 <= IPV4_COUNT
    && (n == LastAddress(start, net, end) + 1 ==> n == net.base + Size(net.bits))
    && Holds(bytes, n)
    && ips == Texts(start, n)
  }

  lemma WalkStep(bytes: seq<byte>, ips: seq<string>, start: nat, net: Net, end: nat, n: nat)
    requires net.Valid() && Prefix(start, net.bits) == net.base && end < IPV4_COUNT
    requires Walking(bytes, ips, start, net, end, n) && Contains(net, bytes)
    ensures To4(bytes) == Some(n) && n <= LastAddress(start, net, end)
    ensures if Render(n) == Render(end) then ips + [Render(n)] == Texts(start, LastAddress(start, net, end) + 1)
            else Walking(Succ(bytes), ips + [Render(n)], start, net, end, n + 1)
  {
    HoldsContains(net, bytes, n);
    HoldsNext(bytes, n);
    PrefixInterval(net, end);
    RenderInjective(n, end);
    TextsNext(start, n);
  }

  lemma WalkEnd(bytes: seq<byte>, ips: seq<string>, start: nat, net: Net, end: nat, n: nat)
    requires net.Valid() && Prefix(start, net.bits) == net.base
    requires Walking(bytes, ips, start, net, end, n) && !Contains(net, bytes)
    ensures ips == Texts(start, LastAddress(start, net, end) + 1)
  {
    HoldsContains(net, bytes, n);
  }

  /** The expansion loop: renders the current address, stops when its text equals the end
      address's, and otherwise increments the bytes in place while the prefix holds them.
      It also stops past 255.255.255.255, where the bytes stop reading as IPv4. */
  method ExpandRange(ipStart: array<byte>, net: Net, ipEnd: nat, ghost start: nat) returns (ips: seq<string>)
    requires net.Valid() && start < IPV4_COUNT && ipEnd < IPV4_COUNT
    requires ipStart[..] == V4(start) && Prefix(start, net.bits) == net.base
    modifies ipStart
    ensures LastAddress(start, net, ipEnd) < IPV4_COUNT
    ensures ips == Texts(start, LastAddress(start, net, ipEnd) + 1)
  {
    hide Render, Succ, To4;
    PrefixEnd(net);
    ghost var n := start;
    ips := [];
    while Contains(net, ipStart[..])
      invariant Walking(ipStart[..], ips, start, net, ipEnd, n)
      decreases IPV4_COUNT - n
    {
      WalkStep(ipStart[..], ips, start, net, ipEnd, n);
      var current := To4(ipStart[..]).value;
      ips := ips + [Render(current)];
      if Render(current) == Render(ipEnd) {
        return;
      }
      Inc(ipStart);
      n := n + 1;
    }
    WalkEnd(ipStart[..], ips, start, net, ipEnd, n);
  }

  method ToArray(b: seq<byte>) returns (a: array<byte>)
    ensures fresh(a) && a[..] == b
  {
    a := new byte[|b|](k requires 0 <= k < |b| => b[k]);
  }

  class IPAMProvider {
    const store: DBStore
    var cidrs: set<string>

    ghost function View(): Core
      reads this, store
    {
      Core(cidrs, store.View())
    }

    constructor ()
      ensures View() == Core({}, EMPTY) && fresh(store)
    {
      store := new DBStore();
      cidrs := {};
    }

    /** Loads every configured range; malformed ones are skipped. */
    method GenerateExternalIPAddr(ipRanges: seq<string>)
      requires ipRanges != []
      modifies this`cidrs, store`rows
      ensures View() == LoadAll(ipRanges, old(View()))
    {
      for i := 0 to |ipRanges|
        invariant LoadAll(ipRanges[i..], View()) == LoadAll(ipRanges, old(View()))
        invariant store.records == old(store.records)
      {
        assert ipRanges[i..][1..] == ipRanges[i + 1..];
        LoadRange(ipRanges[i]);
      }
    }

    /** One turn of that loop; each early return is a `continue` there. */
    method LoadRange(entry: string)
      modifies this`cidrs, store`rows
      ensures View() == LoadEntry(entry, old(View()))
    {
      var ip := Trim(entry, '"');
      var ipRangeArr := Split(ip, '-');
      if |ipRangeArr| != 2 {
        return;
      }
      var ipRangeStart, ipRangeEnd := Split(ipRangeArr[0], '/'), Split(ipRangeArr[1], '/');
      if |ipRangeStart| != 2 || |ipRangeEnd| != 2 {
        return;
      }
      if ipRangeStart[1] != ipRangeEnd[1] {
        return;
      }
      LoadSubnet(ipRangeStart[0], ipRangeEnd[0], ipRangeStart[1]);
    }

    method LoadSubnet(startRangeIP: string, endRangeIP: string, subnet: string)
      modifies this`cidrs, store`rows
      ensures View() == LoadText(RangeText(startRangeIP, endRangeIP, subnet), old(View()))
    {
      var parsed := ParseCIDR(endRangeIP + "/" + subnet);
      if parsed.None? {
        return;
      }
      var cidr := Label(parsed.value.1);
      cidrs := cidrs + {cidr};
      var ips := ListRange(startRangeIP, subnet, parsed.value.0);
      if ips.None? {
        return;
      }
      store.InsertIP(ips.value, cidr);
    }

    static method ListRange(startRangeIP: string, subnet: string, ipEnd: nat) returns (ips: Option<seq<string>>)
      requires ipEnd < IPV4_COUNT
      ensures ips == RangeTexts(startRangeIP, subnet, ipEnd)
    {
      var parsed := ParseCIDR(startRangeIP + "/" + subnet);
      if parsed.None? {
        return None;
      }
      hide ParseCIDR, Render;
      var start, net := parsed.value.0, parsed.value.1;
      RangeTextsIs(startRangeIP, subnet, ipEnd, start, net);
      var ipStart := ToArray(V4(start));
      var texts := ExpandRange(ipStart, net, ipEnd, start);
      ips := Some(texts);
    }

    method CreateARecord(hostname: string, ipAddr: string)
      modifies store`records
      ensures View() == old(View()).(tables :=
                old(store.View()).(records := old(store.records) + [ARecord(ipAddr, hostname)]))
    {
      store.CreateARecord(hostname, ipAddr);
    }

    method DeleteARecord(hostname: string, ipAddr: string)
      modifies store`records
      ensures View() == old(View()).(tables :=
                old(store.View()).(records := Without(old(store.records), ARecord(ipAddr, hostname))))
    {
      store.DeleteARecord(hostname, ipAddr);
    }

    method GetIPAddress(hostname: string) returns (ip: string)
      ensures ip == LeastIp(store.records, hostname)
    {
      ip := store.GetIPAddress(hostname);
    }

    method GetNextAddr(cidr: string) returns (ip: string)
      modifies store`rows
      ensures (View(), ip) == NextAddr(old(View()), cidr)
    {
      if cidr !in cidrs {
        return "";
      }
      ip := store.AllocateIP(cidr);
    }

    method AllocateIPAddress(cidr: string, ipAddr: string) returns (ok: bool)
      modifies store`rows
      ensures (View(), ok) == AllocateAt(old(View()), cidr, ipAddr)
    {
      if cidr !in cidrs {
        return false;
      }
      var inside := CidrHolds(cidr, ipAddr);
      if inside {
        ok := store.MarkIPAsAllocated(cidr, ipAddr);
      } else {
        ok := false;
      }
    }

    /** Both texts parse and the prefix contains the address. */
    static method CidrHolds(cidr: string, ipAddr: string) returns (inside: bool)
      ensures inside == InPrefix(cidr, ipAddr)
    {
      var parsed := ParseCIDR(cidr);
      if parsed.None? {
        return false;
      }
      var ip := ParseIP(ipAddr);
      if ip.None? {
        return false;
      }
      inside := Contains(parsed.value.1, V4(ip.value));
    }

    method ReleaseAddr(ipAddr: string)
      modifies store`rows
      ensures View() == old(View()).(tables := old(store.View()).(rows := Released(old(store.rows), ipAddr)))
    {
      store.ReleaseIP(ipAddr);
    }
  }

  /** `NewProvider`: an empty range text yields no provider. */
  method NewProvider(text: string) returns (prov: IPAMProvider?)
    ensures prov == null <==> text == ""
    ensures prov != null ==> fresh(prov) && fresh(prov.store) && prov.View() == LoadAll(Entries(text), Core({}, EMPTY))
  {
    var ipRanges := ParseIPRange(text);
    if ipRanges.None? {
      return null;
    }
    prov := new IPAMProvider();
    prov.GenerateExternalIPAddr(ipRanges.value);
  }
}
