/** The two in-memory tables behind the provider and the statements run against them. */
module Store {

  import opened Wrappers
  import opened Text

  datatype Status = Allocated | Available

  /** A row of `ipaddress_range`. Ids are handed out by AUTOINCREMENT and rows are never
      deleted, so the row with id k + 1 is element k of the table. */
  datatype Row = Row(ip: string, status: Status, cidr: string)

  /** A row of `a_records`. The column option is spelled PRIMARY_KEY in the schema, which
      SQLite reads as part of the type name: nothing keeps these rows unique. */
  datatype ARecord = ARecord(ip: string, host: string)

  datatype Tables = Tables(rows: seq<Row>, records: seq<ARecord>)

  const EMPTY := Tables([], [])

  // ---------------------------------------------------------------- what the statements mean

  function FreshRows(ips: seq<string>, cidr: string): seq<Row> {
    seq(|ips|, i requires 0 <= i < |ips| => Row(ips[i], Available, cidr))
  }

  function Inserted(t: Tables, ips: seq<string>, cidr: string): Tables {
    t.(rows := t.rows + FreshRows(ips, cidr))
  }

  /** status = AVAILABLE AND cidr = ?; AllocateIP asks for no address in particular. */
  predicate Free(row: Row, cidr: string) {
    row.status == Available && row.cidr == cidr
  }

  /** The lowest id among the available rows of a CIDR. */
  function FirstFree(rows: seq<Row>, cidr: string): (k: nat)
    ensures k <= |rows|
    ensures k < |rows| ==> Free(rows[k], cidr)
    ensures forall j :: 0 <= j < k ==> !Free(rows[j], cidr)
  {
    if rows == [] || Free(rows[0], cidr) then 0 else 1 + FirstFree(rows[1..], cidr)
  }

  /** The lowest id among the available rows of a CIDR that carry the given address. */
  function FirstFreeAt(rows: seq<Row>, cidr: string, ip: string): (k: nat)
    ensures k <= |rows|
    ensures k < |rows| ==> Free(rows[k], cidr) && rows[k].ip == ip
    ensures forall j :: 0 <= j < k ==> !(Free(rows[j], cidr) && rows[j].ip == ip)
  {
    if rows == [] || (Free(rows[0], cidr) && rows[0].ip == ip) then 0
    else 1 + FirstFreeAt(rows[1..], cidr, ip)
  }

  function Taken(rows: seq<Row>, k: nat): (r: seq<Row>)
    requires k < |rows|
    ensures |r| == |rows|
  {
    rows[k := rows[k].(status := Allocated)]
  }

  function AfterAllocate(t: Tables, cidr: string): (Tables, string) {
    var k := FirstFree(t.rows, cidr);
    if k < |t.rows| then (t.(rows := Taken(t.rows, k)), t.rows[k].ip) else (t, "")
  }

  function AfterMark(t: Tables, cidr: string, ip: string): (Tables, bool) {
    var k := FirstFreeAt(t.rows, cidr, ip);
    if k < |t.rows| then (t.(rows := Taken(t.rows, k)), true) else (t, false)
  }

  function Released(rows: seq<Row>, ip: string): (r: seq<Row>)
    ensures |r| == |rows|
  {
    seq(|rows|, i requires 0 <= i < |rows| =>
      if rows[i].ip == ip then rows[i].(status := Available) else rows[i])
  }

  /** A release makes available what was available or carries the address, and moves no row. */
  lemma ReleasedIs(rows: seq<Row>, ip: string, i: nat)
    requires i < |rows|
    ensures var row := Released(rows, ip)[i];
      && row.ip == rows[i].ip && row.cidr == rows[i].cidr
      && (row.status == Available <==> rows[i].status == Available || rows[i].ip == ip)
  {
  }

  function Without(records: seq<ARecord>, r: ARecord): (rest: seq<ARecord>)
    ensures forall x :: x in rest <==> x in records && x != r
  {
    if records == [] then []
    else
      var n := |records| - 1;
      assert records == records[..n] + [records[n]];
      Without(records[..n], r) + if records[n] == r then [] else [records[n]]
  }

  /** The host's address that sorts first as text. */
  function LeastRecord(records: seq<ARecord>, host: string): (best: Option<string>)
    ensures best.None? <==> forall r :: r in records ==> r.host != host
    ensures best.Some? ==> ARecord(best.value, host) in records
    ensures best.Some? ==> forall r :: r in records && r.host == host ==> LexLe(best.value, r.ip)
    ensures best.Some? ==> forall r :: r in records && r.host == host ==> NoLater(best.value, r.ip)
  {
    if records == [] then None
    else
      var n := |records| - 1;
      var least := Better(LeastRecord(records[..n], host), records, host);
      assert least.Some? ==> forall r :: r in records && r.host == host ==> NoLater(least.value, r.ip) by {
        forall r | least.Some? && r in records && r.host == host ensures NoLater(least.value, r.ip) {
          LexLeIff(least.value, r.ip);
        }
      }
      least
  }

  /** The least of `best` and the last record. */
  function Better(best: Option<string>, records: seq<ARecord>, host: string): (r: Option<string>)
    requires records != []
    requires var front := records[..|records| - 1];
      && (best.None? <==> forall r :: r in front ==> r.host != host)
      && (best.Some? ==> ARecord(best.value, host) in front)
      && (best.Some? ==> forall r :: r in front && r.host == host ==> LexLe(best.value, r.ip))
    ensures r.None? <==> forall x :: x in records ==> x.host != host
    ensures r.Some? ==> ARecord(r.value, host) in records
    ensures r.Some? ==> forall x :: x in records && x.host == host ==> LexLe(r.value, x.ip)
  {
    var last := records[|records| - 1];
    assert records == records[..|records| - 1] + [last];
    if last.host != host then best
    else if best.Some? && LexLe(best.value, last.ip) then best
    else
      assert LexLe(last.ip, last.ip) by { LexTotal(last.ip, last.ip); }
      assert best.Some? ==> LexLe(last.ip, best.value) by {
        if best.Some? { LexTotal(last.ip, best.value); }
      }
      assert forall x :: x in records[..|records| - 1] && x.host == host ==> LexLe(last.ip, x.ip) by {
        forall x | x in records[..|records| - 1] && x.host == host ensures LexLe(last.ip, x.ip) {
          LexTransitive(last.ip, best.value, x.ip);
        }
      }
      Some(last.ip)
  }

  /** What GetIPAddress returns: "" stands for no row. */
  function LeastIp(records: seq<ARecord>, host: string): string {
    match LeastRecord(records, host)
    case None => ""
    case Some(ip) => ip
  }

  // ---------------------------------------------------------------- the store itself

  class DBStore {
    var rows: seq<Row>
    var records: seq<ARecord>

    ghost function View(): Tables
      reads this
    {
      Tables(rows, records)
    }

    constructor ()
      ensures View() == EMPTY
    {
      rows, records := [], [];
    }

    method InsertIP(ips: seq<string>, cidr: string)
      modifies this`rows
      ensures View() == Inserted(old(View()), ips, cidr)
    {
      for i := 0 to |ips|
        invariant rows == old(rows) + FreshRows(ips, cidr)[..i]
      {
        rows := rows + [Row(ips[i], Available, cidr)];
      }
    }

    /** The loop behind "... where status and cidr order by id ASC limit 1". */
    method SelectFree(cidr: string) returns (k: nat)
      ensures k == FirstFree(rows, cidr)
    {
      k := 0;
      while k < |rows| && !(rows[k].status == Available && rows[k].cidr == cidr)
        invariant k <= |rows|
        invariant k + FirstFree(rows[k..], cidr) == FirstFree(rows, cidr)
      {
        assert rows[k..][1..] == rows[k + 1..];
        k := k + 1;
      }
    }

    method SelectFreeAt(cidr: string, ip: string) returns (k: nat)
      ensures k == FirstFreeAt(rows, cidr, ip)
    {
      k := 0;
      while k < |rows| && !(rows[k].status == Available && rows[k].cidr == cidr && rows[k].ip == ip)
        invariant k <= |rows|
        invariant k + FirstFreeAt(rows[k..], cidr, ip) == FirstFreeAt(rows, cidr, ip)
      {
        assert rows[k..][1..] == rows[k + 1..];
        k := k + 1;
      }
    }

    /** Reserves the lowest available row of the CIDR. */
    method AllocateIP(cidr: string) returns (ipaddress: string)
      modifies this`rows
      ensures (View(), ipaddress) == AfterAllocate(old(View()), cidr)
    {
      var k := SelectFree(cidr);
      if k == |rows| {
        return "";
      }
      ipaddress := rows[k].ip;
      rows := rows[k := rows[k].(status := Allocated)];
    }

    /** Reserves one particular address of the CIDR. */
    method MarkIPAsAllocated(cidr: string, ipAddr: string) returns (ok: bool)
      modifies this`rows
      ensures (View(), ok) == AfterMark(old(View()), cidr, ipAddr)
    {
      var k := SelectFreeAt(cidr, ipAddr);
      if k == |rows| {
        return false;
      }
      rows := rows[k := rows[k].(status := Allocated)];
      return true;
    }

    method GetIPAddress(hostname: string) returns (ipaddress: string)
      ensures ipaddress == LeastIp(records, hostname)
    {
      var best: Option<string> := None;
      for i := 0 to |records|
        invariant best == LeastRecord(records[..i], hostname)
      {
        assert records[..i + 1][..i] == records[..i];
        if records[i].host == hostname && (best.None? || !LexLe(best.value, records[i].ip)) {
          best := Some(records[i].ip);
        }
      }
      assert records[..|records|] == records;
      return match best case None => "" case Some(ip) => ip;
    }

    method ReleaseIP(ip: string)
      modifies this`rows
      ensures View() == old(View()).(rows := Released(old(rows), ip))
    {
      for i := 0 to |rows|
        invariant |rows| == |old(rows)|
        invariant rows == Released(old(rows), ip)[..i] + old(rows)[i..]
      {
        if rows[i].ip == ip {
          rows := rows[i := rows[i].(status := Available)];
        }
      }
    }

    method CreateARecord(hostname: string, ipAddr: string)
      modifies this`records
      ensures View() == old(View()).(records := old(records) + [ARecord(ipAddr, hostname)])
    {
      records := records + [ARecord(ipAddr, hostname)];
    }

    method DeleteARecord(hostname: string, ipAddr: string)
      modifies this`records
      ensures View() == old(View()).(records := Without(old(records), ARecord(ipAddr, hostname)))
    {
      var kept: seq<ARecord> := [];
      for i := 0 to |records|
        invariant kept == Without(records[..i], ARecord(ipAddr, hostname))
      {
        assert records[..i + 1][..i] == records[..i];
        if !(records[i].ip == ipAddr && records[i].host == hostname) {
          kept := kept + [records[i]];
        }
      }
      assert records[..|records|] == records;
      records := kept;
    }
  }
}
