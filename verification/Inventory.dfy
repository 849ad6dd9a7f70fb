/**
 The device inventory as the scan changes it (backend/app/scanner/sync.py): one transaction per answer,
 rolled back when the unique key on the address refuses the commit.
 */
module Inventory {
  import opened Wrappers
  import opened Networks
  import opened Placeholders
  import opened Sync
  import opened SyncSafety

  class Inventory {
    const names: Names
    var devices: seq<Device>
    var interfaces: seq<Interface>

    ghost function Contents(): State
      reads this
    {
      State(devices, interfaces)
    }

    ghost predicate Valid()
      reads this
    {
      DistinctAddresses(devices)
    }

    constructor (names: Names)
      ensures Valid() && this.names == names && devices == [] && interfaces == []
    {
      this.names := names;
      devices, interfaces := [], [];
    }

    /** The device's old address if it is usable and free, else the first free placeholder. */
    method FindSafePlaceholderIp(c: nat) returns (safe: Address)
      requires c < |devices|
      ensures safe == SafeAddress(devices, c)
    {
      var others := OtherAddresses(devices, c);
      var former := devices[c].oldIp;
      if Reusable(former) && former.value !in others {
        return former.value;
      }
      var n := Placeholders.Search(others);
      return PlaceholderAt(n);
    }

    /** Move any other device at the address out of the way. */
    method ResolveIpConflict(ip: Address, i: nat)
      requires i < |devices|
      modifies this`devices
      ensures devices == Displaced(old(devices), i, ip)
    {
      var conflict := ConflictAt(devices, i, ip);
      if conflict.None? {
        return;
      }
      var c := conflict.value;
      var before := devices;
      devices := devices[c := devices[c].(online := false, placeholder := true)];
      OthersSame(before, devices, c);
      var safe := FindSafePlaceholderIp(c);
      devices := devices[c := devices[c].(ip := safe)];
    }

    method UpdateDashboardDevice(i: nat, hit: Hit)
      requires i < |devices|
      modifies this`devices
      ensures devices == Updated(old(devices), i, hit, names)
    {
      var dev := Refreshed(devices[i], hit, names);
      if dev.ip == hit.ip {
        devices := devices[i := dev];
        return;
      }
      ResolveIpConflict(hit.ip, i);
      devices := devices[i := dev.(oldIp := Some(dev.ip), ip := hit.ip)];
    }

    /** One scan answer. */
    method SyncHost(hit: Hit, ctx: Context)
      requires Valid()
      modifies this`devices, this`interfaces
      ensures Valid() && Contents() == Step(old(Contents()), hit, ctx, names)
    {
      var iface := InterfaceAt(interfaces, hit.ip);
      if iface.Some? {
        interfaces := interfaces[iface.value := RefreshedInterface(interfaces[iface.value], hit, ctx)];
        return;
      }
      var found := MatchDevice(devices, hit, names);
      if found.None? {
        return;
      }
      var (i, how) := found.value;
      if KeepsIp(State(devices, interfaces), i, hit.ip, how, ctx) {
        if how == ByMac && ctx.IsGateway(hit.ip) {
          var sub := ctx.SubnetFor(hit.ip);
          interfaces := interfaces
            + [Interface(devices[i].id, hit.ip, hit.mac, true, 0, if sub.Some? then Some(sub.value.id) else None)];
        }
        return;
      }
      var saved := devices;
      UpdateDashboardDevice(i, hit);
      if !DistinctAddresses(devices) {
        devices := saved;
      }
    }

    /** A run of answers, each with the subnets configured at its time. */
    method SyncAll(hits: seq<(Hit, Context)>)
      requires Valid()
      modifies this`devices, this`interfaces
      ensures Valid() && Contents() == RunHits(old(Contents()), hits, names)
    {
      for k := 0 to |hits|
        invariant Valid() && RunHits(Contents(), hits[k..], names) == RunHits(old(Contents()), hits, names)
      {
        assert hits[k..][0] == hits[k] && hits[k..][1..] == hits[k + 1..];
        SyncHost(hits[k].0, hits[k].1);
      }
      assert hits[|hits|..] == [];
    }
  }

  lemma OthersSame(before: seq<Device>, after: seq<Device>, c: nat)
    requires |before| == |after| && forall i :: 0 <= i < |before| && i != c ==> before[i].ip == after[i].ip
    ensures OtherAddresses(before, c) == OtherAddresses(after, c)
  {
    forall a | a in OtherAddresses(before, c) ensures a in OtherAddresses(after, c) {
      var i :| 0 <= i < |before| && i != c && before[i].ip == a;
      assert after[i].ip == a;
    }
    forall a | a in OtherAddresses(after, c) ensures a in OtherAddresses(before, c) {
      var i :| 0 <= i < |after| && i != c && after[i].ip == a;
      assert before[i].ip == a;
    }
  }
}
