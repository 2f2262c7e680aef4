/** The host table of src/host_info.c and src/host_info.h. */
module Hosts {
  import opened Bytes
  import opened CStrings
  import opened Address
  import opened Wrappers

  datatype HostInfo = HostInfo(name: cstring, ip: cstring)

  /** The address of the first host with the given name. */
  function HostIp(hosts: seq<HostInfo>, name: cstring): Option<cstring> {
    if hosts == [] then None
    else if hosts[0].name == name then Some(hosts[0].ip)
    else HostIp(hosts[1..], name)
  }

  /** The table has a host of that name. */
  predicate Listed(hosts: seq<HostInfo>, name: cstring) {
    exists k :: 0 <= k < |hosts| && hosts[k].name == name
  }

  /** The lookup finds nothing exactly for a name that is not listed. */
  lemma {:induction false} HostIpIff(hosts: seq<HostInfo>, name: cstring)
    ensures HostIp(hosts, name) == None <==> !Listed(hosts, name)
  {
    if hosts != [] {
      HostIpIff(hosts[1..], name);
      assert forall k :: 0 <= k < |hosts| - 1 ==> hosts[1..][k] == hosts[k + 1];
    }
  }

  method GetHostIp(hosts: seq<HostInfo>, hostName: cstring) returns (ip: Option<cstring>)
    ensures ip == HostIp(hosts, hostName)
  {
    var i := 0;
    while i < |hosts|
      invariant 0 <= i <= |hosts|
      invariant HostIp(hosts[i..], hostName) == HostIp(hosts, hostName)
    {
      if hosts[i].name == hostName {
        return Some(hosts[i].ip);
      }
      i := i + 1;
    }
    return None;
  }

  /** Host `hk` with address 10.0.0.k. */
  function Host(k: byte): HostInfo
    requires 1 <= k <= 7
  {
    HostInfo([0x68, ZERO + k], [0x31, 0x30, DOT, 0x30, DOT, 0x30, DOT, ZERO + k])
  }

  const HOSTS: seq<HostInfo> := [Host(1), Host(2), Host(3), Host(4), Host(5), Host(6), Host(7)]

  lemma HostIsCanonical(k: byte)
    requires 1 <= k <= 7
    ensures Canonical(Host(k).ip)
  {
    var ten, zero, last := Decimal(10), Decimal(0), Decimal(k);
    DecimalIsOctetText(10);
    DecimalIsOctetText(0);
    DecimalIsOctetText(k);
    hide IsOctetText;
    assert Host(k).ip == Dotted(ten, zero, zero, last);
  }

  /** A name that no earlier entry has is looked up to its own entry. */
  lemma {:induction false} LookupFinds(hosts: seq<HostInfo>, k: nat)
    requires k < |hosts| && forall j :: 0 <= j < k ==> hosts[j].name != hosts[k].name
    ensures HostIp(hosts, hosts[k].name) == Some(hosts[k].ip)
  {
    if k > 0 {
      LookupFinds(hosts[1..], k - 1);
    }
  }

  /** The entries of the table. */
  lemma HostText(k: byte)
    requires 1 <= k <= 7
    ensures Host(k).name == Ascii("h") + [0x30 + k] && Host(k).ip == Ascii("10.0.0.") + [0x30 + k]
  {
  }

  /** The table, exactly: `h1` to `h7` have the addresses 10.0.0.1 to 10.0.0.7, and no other name has
      one. */
  lemma TableIs(name: cstring)
    ensures HostIp(HOSTS, name)
         == if |name| == 2 && name[0] == 0x68 && 0x31 <= name[1] <= 0x37
            then Some(Ascii("10.0.0.") + [name[1]])
            else None
  {
    hide HostIp, Host, HOSTS, Ascii;
    TableSize();
    HostIpIff(HOSTS, name);
    if |name| == 2 && name[0] == 0x68 && 0x31 <= name[1] <= 0x37 {
      HostText(name[1] - 0x30);
      HostNameIff(name[1] - 0x30, name);
      TableLookup(name[1] - 0x30);
    } else {
      forall k | 0 <= k < |HOSTS|
        ensures HOSTS[k].name != name
      {
        TableEntry(k + 1);
        HostNameIff(k + 1, name);
      }
    }
  }

  lemma TableSize()
    ensures |HOSTS| == 7
  {
  }

  lemma TableEntry(k: byte)
    requires 1 <= k <= 7
    ensures |HOSTS| == 7 && HOSTS[k - 1] == Host(k)
  {
  }

  lemma HostNameIff(k: byte, name: cstring)
    requires 1 <= k <= 7
    ensures Host(k).name == name <==> |name| == 2 && name[0] == 0x68 && name[1] == 0x30 + k
  {
    hide HOSTS;
  }

  /** The table gives each of its hosts that host's address. */
  lemma TableLookup(k: byte)
    requires 1 <= k <= 7
    ensures HostIp(HOSTS, Host(k).name) == Some(Host(k).ip)
  {
    hide HostIp;
    assert forall j :: 0 <= j < 7 ==> HOSTS[j] == Host(j + 1);
    assert HOSTS[k - 1] == Host(k);
    assert forall j :: 0 <= j < k - 1 ==> HOSTS[j].name[1] != Host(k).name[1];
    LookupFinds(HOSTS, k - 1);
  }

  lemma {:induction false} LookupKeepsCanonical(hosts: seq<HostInfo>, name: cstring)
    requires forall k :: 0 <= k < |hosts| ==> Canonical(hosts[k].ip)
    ensures HostIp(hosts, name).Some? ==> Canonical(HostIp(hosts, name).value)
  {
    hide Canonical;
    if hosts != [] {
      LookupKeepsCanonical(hosts[1..], name);
    }
  }

  /** Every address the table yields is a canonical dotted quad. */
  lemma HostIpsAreCanonical(name: cstring)
    ensures HostIp(HOSTS, name).Some? ==> Canonical(HostIp(HOSTS, name).value)
  {
    hide Canonical, Host, HostIp;
    forall k | 0 <= k < |HOSTS|
      ensures Canonical(HOSTS[k].ip)
    {
      HostIsCanonical(k + 1);
    }
    LookupKeepsCanonical(HOSTS, name);
  }
}
