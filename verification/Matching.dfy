/**
 To which device a scan answer goes (backend/app/scanner/sync.py, _match_dashboard_device and its helpers): who
 is at the address comes first, unless the one owner of the MAC is elsewhere; names decide last.
 */
module Matching {
  import opened Wrappers
  import opened Texts
  import opened Networks
  import opened Sync

  /** The primary key. */
  ghost predicate DistinctIds(devices: seq<Device>) {
    forall i, j :: 0 <= i < j < |devices| ==> devices[i].id != devices[j].id
  }

  /** Device o alone has the scanned MAC. */
  ghost predicate OnlyOwner(devices: seq<Device>, mac: Option<string>, o: nat) {
    o < |devices| && devices[o].mac == mac && forall j :: 0 <= j < |devices| && j != o ==> devices[j].mac != mac
  }

  /** The scanned MAC is not that of the device at the address but of exactly one other, which is no Unraid host. */
  ghost predicate Rejects(devices: seq<Device>, hit: Hit, names: Names, c: nat, o: nat)
    requires c < |devices|
  {
    && MacIsValid(hit.mac) && MacIsValid(devices[c].mac) && Lower(devices[c].mac.value) != Lower(hit.mac.value)
    && OnlyOwner(devices, hit.mac, o) && !IsUnraid(devices[o], names)
  }

  /** A host counts as Unraid by any of its names: the shown one, the host name or the vendor. */
  lemma UnraidByAnyName(d: Device, names: Names)
    ensures IsUnraid(d, names)
            <==> exists s :: s != "" && names.unraid(s) && (s == d.displayName || d.hostname == Some(s) || d.vendor == Some(s))
  {
    if d.displayName != "" && names.unraid(d.displayName) {
    } else if Truthy(d.hostname) && names.unraid(d.hostname.value) {
      assert d.hostname == Some(d.hostname.value);
    } else if Truthy(d.vendor) && names.unraid(d.vendor.value) {
      assert d.vendor == Some(d.vendor.value);
    }
  }

  // ---------------------------------------------------------------- queries

  /** The positions come in order, so each once. */
  lemma {:induction false} SelectRises(devices: seq<Device>, p: Device -> bool)
    ensures forall a, b :: 0 <= a < b < |Select(devices, p)| ==> Select(devices, p)[a] < Select(devices, p)[b]
  {
    if devices != [] {
      var n := |devices| - 1;
      SelectRises(devices[..n], p);
      var before := Select(devices[..n], p);
      assert forall a :: 0 <= a < |before| ==> before[a] in before;
    }
  }

  lemma FirstTwo(found: seq<nat>)
    requires |found| >= 2 && forall a, b :: 0 <= a < b < |found| ==> found[a] < found[b]
    ensures found[0] < found[1]
  {
  }

  /** One row is found exactly when one device satisfies the condition, and then it is that one. */
  lemma SelectOne(devices: seq<Device>, p: Device -> bool, o: nat)
    requires o < |devices|
    ensures Select(devices, p) == [o] <==> p(devices[o]) && forall j :: 0 <= j < |devices| && j != o ==> !p(devices[j])
  {
    var found := Select(devices, p);
    SelectRises(devices, p);
    hide Select;
    assert found == [o] ==> forall j: nat :: j in found <==> j == o;
    if p(devices[o]) && forall j :: 0 <= j < |devices| && j != o ==> !p(devices[j]) {
      assert o in found && forall a :: 0 <= a < |found| ==> found[a] in found;
      assert forall a :: 0 <= a < |found| ==> found[a] == o;
      if |found| >= 2 {
        FirstTwo(found);
      }
    }
  }

  lemma OwnersAre(devices: seq<Device>, mac: Option<string>, o: nat)
    requires o < |devices|
    ensures Select(devices, (d: Device) => d.mac == mac) == [o] <==> OnlyOwner(devices, mac, o)
  {
    SelectOne(devices, (d: Device) => d.mac == mac, o);
  }

  /** Elsewhere than at a device with another MAC. */
  lemma OtherOwnersAre(devices: seq<Device>, mac: Option<string>, c: nat, o: nat)
    requires DistinctIds(devices) && c < |devices| && o < |devices| && devices[c].mac != mac
    ensures Select(devices, (d: Device) => d.mac == mac && d.id != devices[c].id) == [o] <==> OnlyOwner(devices, mac, o)
  {
    SelectOne(devices, (d: Device) => d.mac == mac && d.id != devices[c].id, o);
  }

  lemma OneFound(found: seq<nat>)
    ensures |found| == 1 ==> found == [found[0]] && found[0] in found
  {
  }

  // ---------------------------------------------------------------- somebody is at the address

  lemma FirstAtAddress(devices: seq<Device>, ip: Address, c: nat)
    requires DistinctAddresses(devices) && c < |devices| && devices[c].ip == ip
    ensures FirstOf(Select(devices, (d: Device) => d.ip == ip)) == Some(c)
  {
    SelectOne(devices, (d: Device) => d.ip == ip, c);
  }

  /** The match by address fails exactly when the owner of the MAC elsewhere rejects it. */
  lemma ByIpUnlessRejected(devices: seq<Device>, hit: Hit, names: Names, c: nat)
    requires DistinctAddresses(devices) && DistinctIds(devices) && c < |devices| && devices[c].ip == hit.ip
    ensures MatchByIp(devices, hit, names) == if exists o: nat :: Rejects(devices, hit, names, c, o) then None else Some(c)
  {
    FirstAtAddress(devices, hit.ip, c);
    var cand := devices[c];
    hide MacIsValid, IsUnraid, DistinctAddresses, Lower;
    if MacIsValid(hit.mac) && MacIsValid(cand.mac) && Lower(cand.mac.value) != Lower(hit.mac.value) {
      var owners := Select(devices, (d: Device) => d.mac == hit.mac && d.id != cand.id);
      OneFound(owners);
      hide Select;
      forall o: nat | o < |devices| ensures owners == [o] <==> OnlyOwner(devices, hit.mac, o) {
        OtherOwnersAre(devices, hit.mac, c, o);
      }
      if o: nat :| Rejects(devices, hit, names, c, o) {
        assert owners == [o];
      } else if |owners| == 1 {
        assert !Rejects(devices, hit, names, c, owners[0]);
      }
    }
  }

  lemma ByMacIsOwner(devices: seq<Device>, hit: Hit, names: Names, o: nat)
    requires MacIsValid(hit.mac) && OnlyOwner(devices, hit.mac, o)
    ensures MatchByMac(devices, hit, names)
            == if devices[o].ip != hit.ip && IsUnraid(devices[o], names) then None else Some(o)
  {
    OwnersAre(devices, hit.mac, o);
    hide MacIsValid, IsUnraid;
  }

  lemma ExactIsThere(devices: seq<Device>, hit: Hit, c: nat)
    requires DistinctAddresses(devices) && c < |devices| && devices[c].ip == hit.ip
    ensures FirstOf(Select(devices, (d: Device) => d.mac == hit.mac && d.ip == hit.ip))
            == if devices[c].mac == hit.mac then Some(c) else None
  {
    if devices[c].mac == hit.mac {
      SelectOne(devices, (d: Device) => d.mac == hit.mac && d.ip == hit.ip, c);
    } else {
      SelectNone(devices, (d: Device) => d.mac == hit.mac && d.ip == hit.ip);
    }
  }

  /** Whoever is at the address gets the answer, unless the owner of the MAC rejects it: then the owner does. */
  lemma AddressOrOwner(devices: seq<Device>, hit: Hit, names: Names, c: nat)
    requires DistinctAddresses(devices) && DistinctIds(devices) && c < |devices| && devices[c].ip == hit.ip
    ensures MatchDevice(devices, hit, names).Some?
    ensures (forall o: nat :: !Rejects(devices, hit, names, c, o)) ==>
              MatchDevice(devices, hit, names).value.0 == c && MatchDevice(devices, hit, names).value.1 in {Exact, ByIp}
    ensures forall o: nat :: Rejects(devices, hit, names, c, o) ==> MatchDevice(devices, hit, names).value == (o, ByMac)
  {
    ByIpUnlessRejected(devices, hit, names, c);
    ExactIsThere(devices, hit, c);
    hide MacIsValid, IsUnraid, DistinctAddresses, DistinctIds, Select, MatchByIp, MatchByMac;
    forall o: nat | Rejects(devices, hit, names, c, o) ensures MatchByMac(devices, hit, names) == Some(o) {
      ByMacIsOwner(devices, hit, names, o);
    }
  }

  // ---------------------------------------------------------------- nobody is

  predicate Named(d: Device, name: string, names: Names) {
    (d.hostname.Some? && names.ilike(d.hostname.value, name)) || names.ilike(d.displayName, name)
  }

  /** The name says something and belongs to this device; while a placeholder has it, only placeholders count. */
  ghost predicate NameFits(devices: seq<Device>, hit: Hit, names: Names, d: nat) {
    && !IsIpLike(hit.hostname, names) && d < |devices| && Named(devices[d], hit.hostname.value, names)
    && (devices[d].placeholder
        || forall j :: 0 <= j < |devices| && devices[j].placeholder ==> !Named(devices[j], hit.hostname.value, names))
  }

  lemma SelectNone(devices: seq<Device>, p: Device -> bool)
    ensures Select(devices, p) == [] <==> forall j :: 0 <= j < |devices| ==> !p(devices[j])
  {
    var found := Select(devices, p);
    if found != [] {
      assert found[0] in found;
    } else {
      assert forall j: nat :: j < |devices| && p(devices[j]) ==> j in found;
    }
  }

  lemma FoundSatisfies(devices: seq<Device>, p: Device -> bool)
    ensures var found := FirstOf(Select(devices, p));
            && (found.None? <==> forall j :: 0 <= j < |devices| ==> !p(devices[j]))
            && (found.Some? ==> found.value < |devices| && p(devices[found.value]))
  {
    SelectNone(devices, p);
  }

  lemma ByNameFits(devices: seq<Device>, hit: Hit, names: Names)
    ensures var found := MatchByName(devices, hit, names);
            && (found.None? <==> forall d :: !NameFits(devices, hit, names, d))
            && (found.Some? ==> NameFits(devices, hit, names, found.value))
  {
    hide IsIpLike, Select;
    if !IsIpLike(hit.hostname, names) {
      NamedRows(devices, hit, names);
    }
  }

  lemma NamedRows(devices: seq<Device>, hit: Hit, names: Names)
    requires !IsIpLike(hit.hostname, names)
    ensures var found := MatchByName(devices, hit, names);
            && (found.None? <==> forall d :: 0 <= d < |devices| ==> !Named(devices[d], hit.hostname.value, names))
            && (found.Some? ==> NameFits(devices, hit, names, found.value))
    ensures (forall d :: !NameFits(devices, hit, names, d))
            <==> forall d :: 0 <= d < |devices| ==> !Named(devices[d], hit.hostname.value, names)
  {
    var name := hit.hostname.value;
    var named := (d: Device) =>
      (d.hostname.Some? && names.ilike(d.hostname.value, name)) || names.ilike(d.displayName, name);
    FoundSatisfies(devices, d => named(d) && d.placeholder);
    FoundSatisfies(devices, named);
    hide Select, FirstOf;
    if d: nat :| d < |devices| && Named(devices[d], name, names) {
      if p: nat :| p < |devices| && Named(devices[p], name, names) && devices[p].placeholder {
        assert NameFits(devices, hit, names, p);
      } else {
        assert NameFits(devices, hit, names, d);
      }
    }
  }

  /** With nobody at the address the answer goes to the one owner of the MAC, else by name, else to nobody. */
  lemma OwnerThenName(devices: seq<Device>, hit: Hit, names: Names)
    requires forall j :: 0 <= j < |devices| ==> devices[j].ip != hit.ip
    ensures forall o: nat :: MacIsValid(hit.mac) && OnlyOwner(devices, hit.mac, o) && !IsUnraid(devices[o], names) ==>
              MatchDevice(devices, hit, names) == Some((o, ByMac))
    ensures (forall o: nat :: MacIsValid(hit.mac) && OnlyOwner(devices, hit.mac, o) ==> IsUnraid(devices[o], names)) ==>
              var found := MatchDevice(devices, hit, names);
              && (found.None? <==> forall d :: !NameFits(devices, hit, names, d))
              && (found.Some? ==> found.value.1 == ByName && NameFits(devices, hit, names, found.value.0))
  {
    NobodyThere(devices, hit, names);
    ByNameFits(devices, hit, names);
    ByMacOwners(devices, hit, names);
    hide MacIsValid, IsUnraid, Select, MatchByIp, MatchByMac, MatchByName, OnlyOwner, NameFits;
  }

  lemma NobodyThere(devices: seq<Device>, hit: Hit, names: Names)
    requires forall j :: 0 <= j < |devices| ==> devices[j].ip != hit.ip
    ensures FirstOf(Select(devices, (d: Device) => d.mac == hit.mac && d.ip == hit.ip)).None?
    ensures MatchByIp(devices, hit, names).None?
  {
    SelectNone(devices, (d: Device) => d.mac == hit.mac && d.ip == hit.ip);
    SelectNone(devices, (d: Device) => d.ip == hit.ip);
    hide MacIsValid, IsUnraid;
  }

  lemma ByMacOwners(devices: seq<Device>, hit: Hit, names: Names)
    requires forall j :: 0 <= j < |devices| ==> devices[j].ip != hit.ip
    ensures forall o: nat :: MacIsValid(hit.mac) && OnlyOwner(devices, hit.mac, o) && !IsUnraid(devices[o], names) ==>
              MatchByMac(devices, hit, names) == Some(o)
    ensures (forall o: nat :: MacIsValid(hit.mac) && OnlyOwner(devices, hit.mac, o) ==> IsUnraid(devices[o], names)) ==>
              MatchByMac(devices, hit, names).None?
  {
    hide MacIsValid, IsUnraid;
    forall o: nat | MacIsValid(hit.mac) && OnlyOwner(devices, hit.mac, o) && !IsUnraid(devices[o], names)
      ensures MatchByMac(devices, hit, names) == Some(o)
    {
      ByMacIsOwner(devices, hit, names, o);
    }
    var owners := Select(devices, (d: Device) => d.mac == hit.mac);
    OneFound(owners);
    if |owners| == 1 {
      OwnersAre(devices, hit.mac, owners[0]);
    }
  }
}
