/**
 Where a scan answer leaves the device it is matched to (backend/app/scanner/sync.py, _keeps_ip_across_subnets,
 _update_dashboard_device and _resolve_ip_conflict): who moves, who stays, and who has to make room.
 */
module Roaming {
  import opened Wrappers
  import opened Texts
  import opened Networks
  import opened Placeholders
  import opened Sync
  import opened SyncSafety

  lemma NoInterfaceThere(interfaces: seq<Interface>, ip: Address)
    requires forall k :: 0 <= k < |interfaces| ==> interfaces[k].ip != ip
    ensures InterfaceAt(interfaces, ip).None?
  {
  }

  /** The device has no further address. */
  ghost predicate SingleHomed(s: State, id: int) {
    forall k :: 0 <= k < |s.interfaces| ==> s.interfaces[k].device != id
  }

  /** The address is the gateway of the innermost subnet around it. */
  ghost predicate Routes(ctx: Context, ip: Address) {
    exists sub: Subnet :: ctx.SubnetFor(ip) == Some(sub) && sub.gateway == Some(ip)
  }

  /** Known by its MAC or name in another segment: such a hit moves the device only if it may roam. */
  lemma RoamsUnlessKnown(s: State, i: nat, ip: Address, how: MatchType, ctx: Context)
    requires i < |s.devices| && (how == ByMac || how == ByName)
    requires ctx.IsCrossSegment(s.devices[i].ip, ip)
    ensures var dev := s.devices[i];
            !KeepsIp(s, i, ip, how, ctx)
            <==> SingleHomed(s, dev.id) && !Routes(ctx, ip) && !Routes(ctx, dev.ip) && (!dev.online || dev.placeholder)
    ensures ctx.IsGateway(ip) <==> Routes(ctx, ip)
  {
    hide FirstHolding, ByPrefix;
    assert s.devices[i].ip != ip;
  }

  /**
   A device found by its MAC or name, answering at an address in another segment where no other device or
   interface is: it ends up there exactly when it has no interface, neither address is a gateway, and it is
   offline or a placeholder; nothing else changes then. Otherwise no device changes, and the address becomes an
   interface of the device exactly when it is a gateway and the device was found by its MAC.
   */
  lemma RoamsExactly(s: State, hit: Hit, ctx: Context, names: Names, i: nat, how: MatchType)
    requires DistinctAddresses(s.devices) && MatchDevice(s.devices, hit, names) == Some((i, how))
    requires how == ByMac || how == ByName
    requires forall j :: 0 <= j < |s.devices| ==> s.devices[j].ip != hit.ip
    requires forall k :: 0 <= k < |s.interfaces| ==> s.interfaces[k].ip != hit.ip
    requires ctx.IsCrossSegment(s.devices[i].ip, hit.ip)
    ensures var now, dev := Step(s, hit, ctx, names), s.devices[i];
            && |now.devices| == |s.devices|
            && (now.devices[i].ip == hit.ip
                <==> SingleHomed(s, dev.id) && !Routes(ctx, hit.ip) && !Routes(ctx, dev.ip)
                     && (!dev.online || dev.placeholder))
            && (now.devices[i].ip == hit.ip ==>
                  && now.interfaces == s.interfaces && now.devices == s.devices[i := now.devices[i]]
                  && now.devices[i].online && !now.devices[i].placeholder && now.devices[i].missed == 0
                  && now.devices[i].oldIp == Some(dev.ip))
            && (now.devices[i].ip != hit.ip ==>
                  && now.devices == s.devices
                  && now.interfaces == s.interfaces + if how == ByMac && Routes(ctx, hit.ip)
                       then [Interface(dev.id, hit.ip, hit.mac, true, 0, SubnetId(ctx, hit.ip))] else [])
  {
    hide MatchDevice, InterfaceAt, KeepsIp, Refreshed, FirstHolding, ByPrefix, Context.IsCrossSegment, SingleHomed, Routes, Context.IsGateway;
    NoInterfaceThere(s.interfaces, hit.ip);
    RoamsUnlessKnown(s, i, hit.ip, how, ctx);
    if !KeepsIp(s, i, hit.ip, how, ctx) {
      FreeMove(s.devices, i, hit, names);
    }
  }

  function SubnetId(ctx: Context, ip: Address): Option<int> {
    var sub := ctx.SubnetFor(ip);
    if sub.Some? then Some(sub.value.id) else None
  }

  /** At a free address the device simply arrives. */
  lemma FreeMove(devices: seq<Device>, i: nat, hit: Hit, names: Names)
    requires DistinctAddresses(devices) && i < |devices| && forall j :: 0 <= j < |devices| ==> devices[j].ip != hit.ip
    ensures var now := Updated(devices, i, hit, names);
            && DistinctAddresses(now) && now == devices[i := now[i]] && now[i].ip == hit.ip
            && now[i].online && !now[i].placeholder && now[i].missed == 0 && now[i].oldIp == Some(devices[i].ip)
  {
    hide Refreshed, SafeAddress;
    RefreshKeeps(devices[i], hit, names);
    assert ConflictAt(devices, i, hit.ip).None?;
  }

  // ---------------------------------------------------------------- who makes room

  ghost predicate Elsewhere(devices: seq<Device>, c: nat, a: Address) {
    exists j :: 0 <= j < |devices| && j != c && devices[j].ip == a
  }

  /** Where device c has to go: its former address if that is usable and no other device's, else the first free placeholder. */
  ghost predicate GoesTo(devices: seq<Device>, c: nat, to: Address)
    requires c < |devices|
  {
    var former := devices[c].oldIp;
    && (former.Some? && Reusable(former) && !Elsewhere(devices, c, former.value) ==> to == former.value)
    && (former.None? || !Reusable(former) || Elsewhere(devices, c, former.value) ==>
          exists n: nat :: to == PlaceholderAt(n) && !Elsewhere(devices, c, to) && EarlierTaken(devices, c, n))
  }

  ghost predicate EarlierTaken(devices: seq<Device>, c: nat, n: nat) {
    forall m: nat :: m < n ==> Elsewhere(devices, c, PlaceholderAt(m))
  }

  lemma OthersAreElsewhere(devices: seq<Device>, c: nat)
    requires c < |devices|
    ensures forall a :: a in OtherAddresses(devices, c) <==> Elsewhere(devices, c, a)
  {
  }

  /** The search for a safe address finds it. */
  lemma SafeAddressMeans(devices: seq<Device>, c: nat)
    requires c < |devices|
    ensures GoesTo(devices, c, SafeAddress(devices, c))
  {
    OthersAreElsewhere(devices, c);
    var others, former := OtherAddresses(devices, c), devices[c].oldIp;
    hide OtherAddresses, Elsewhere, Reusable, PlaceholderAt;
    var n := FirstFree(others, 0);
    if !(Reusable(former) && former.value !in others) {
      assert SafeAddress(devices, c) == PlaceholderAt(n) && EarlierTaken(devices, c, n);
    }
  }

  /** Whoever is at the address makes room for device i, and every other device stays as it is. */
  lemma MakesRoom(devices: seq<Device>, i: nat, hit: Hit, names: Names, j: nat)
    requires DistinctAddresses(devices) && i < |devices| && j < |devices| && j != i && devices[i].ip != hit.ip
    ensures var now := Updated(devices, i, hit, names)[j];
            && (devices[j].ip != hit.ip ==> now == devices[j])
            && (devices[j].ip == hit.ip ==>
                  now == devices[j].(ip := now.ip, online := false, placeholder := true) && GoesTo(devices, j, now.ip))
  {
    hide Refreshed, SafeAddress, GoesTo;
    RefreshKeeps(devices[i], hit, names);
    SafeAddressMeans(devices, j);
    var c := ConflictAt(devices, i, hit.ip);
    if devices[j].ip == hit.ip {
      SameAddressSamePlace(devices, c.value, j);
    }
  }

  /**
   An answer that may move its device (found by address, or in its own segment, or free to roam) brings it to the
   address unless another device there is blocked; then the answer leaves everything as it was.
   */
  lemma ArrivesUnlessBlocked(s: State, hit: Hit, ctx: Context, names: Names, i: nat, how: MatchType)
    requires DistinctAddresses(s.devices) && MatchDevice(s.devices, hit, names) == Some((i, how))
    requires forall k :: 0 <= k < |s.interfaces| ==> s.interfaces[k].ip != hit.ip
    requires ctx.IsCrossSegment(s.devices[i].ip, hit.ip) && (how == ByMac || how == ByName) ==>
               && SingleHomed(s, s.devices[i].id) && !Routes(ctx, hit.ip) && !Routes(ctx, s.devices[i].ip)
               && (!s.devices[i].online || s.devices[i].placeholder)
    ensures var now := Step(s, hit, ctx, names);
            && |now.devices| == |s.devices| && now.interfaces == s.interfaces
            && (s.devices[i].ip == hit.ip ==> now.devices == s.devices[i := Refreshed(s.devices[i], hit, names)])
            && (s.devices[i].ip != hit.ip && (exists c: nat :: BlockedAt(s.devices, c, hit.ip)) ==> now == s)
            && (s.devices[i].ip != hit.ip && (forall c: nat :: !BlockedAt(s.devices, c, hit.ip)) ==>
                  && now.devices[i] == Refreshed(s.devices[i], hit, names).(ip := hit.ip, oldIp := Some(s.devices[i].ip))
                  && forall j: nat :: j < |s.devices| && j != i ==>
                       now.devices[j] == Updated(s.devices, i, hit, names)[j])
  {
    hide MatchDevice, InterfaceAt, KeepsIp, Refreshed, FirstHolding, ByPrefix, Context.IsCrossSegment, SingleHomed, Routes, Context.IsGateway, Displaced, Blocked;
    NoInterfaceThere(s.interfaces, hit.ip);
    MayMove(s, i, hit.ip, how, ctx);
    RefreshKeeps(s.devices[i], hit, names);
    if s.devices[i].ip != hit.ip {
      KeptUnlessBlocked(s.devices, i, hit, names);
    }
  }

  lemma KeptUnlessBlocked(devices: seq<Device>, i: nat, hit: Hit, names: Names)
    requires DistinctAddresses(devices) && i < |devices| && devices[i].ip != hit.ip
    ensures DistinctAddresses(Updated(devices, i, hit, names)) <==> forall c: nat :: !BlockedAt(devices, c, hit.ip)
  {
    hide Updated, Blocked, DistinctAddresses;
    MoveKeepsDistinct(devices, i, hit, names);
    if c: nat :| BlockedAt(devices, c, hit.ip) {
      assert Blocked(devices, c, hit.ip);
    }
    if forall c: nat :: !BlockedAt(devices, c, hit.ip) {
      forall c: nat | c < |devices| && devices[c].ip == hit.ip ensures !Blocked(devices, c, hit.ip) {
        assert !BlockedAt(devices, c, hit.ip);
      }
    }
  }

  lemma MayMove(s: State, i: nat, ip: Address, how: MatchType, ctx: Context)
    requires i < |s.devices|
    requires ctx.IsCrossSegment(s.devices[i].ip, ip) && (how == ByMac || how == ByName) ==>
               && SingleHomed(s, s.devices[i].id) && !Routes(ctx, ip) && !Routes(ctx, s.devices[i].ip)
               && (!s.devices[i].online || s.devices[i].placeholder)
    ensures !KeepsIp(s, i, ip, how, ctx)
  {
    hide Context.IsCrossSegment, Routes, Context.IsGateway, SingleHomed;
    if ctx.IsCrossSegment(s.devices[i].ip, ip) && (how == ByMac || how == ByName) {
      RoamsUnlessKnown(s, i, ip, how, ctx);
    }
  }

  ghost predicate BlockedAt(devices: seq<Device>, c: nat, ip: Address) {
    c < |devices| && devices[c].ip == ip && Blocked(devices, c, ip)
  }

  // ---------------------------------------------------------------- what an answer refreshes

  /** A name that says something: neither empty nor generic. */
  predicate Speaks(name: Option<string>, names: Names) {
    name.Some? && name.value != "" && !names.ipLike(name.value)
  }

  /**
   A refreshed device is online; a host name is filled in only where none says anything yet, and the shown name
   follows it only if it says nothing either; the name lent by the discovered host replaces no given name.
   */
  lemma RefreshedNames(d: Device, hit: Hit, names: Names)
    ensures var r := Refreshed(d, hit, names);
            && r.online && !r.placeholder && r.missed == 0
            && r.id == d.id && r.ip == d.ip && r.oldIp == d.oldIp && r.vendor == d.vendor
            && (Speaks(d.hostname, names) || !Speaks(hit.hostname, names) ==> r.hostname == d.hostname)
            && (!Speaks(d.hostname, names) && Speaks(hit.hostname, names) ==> r.hostname == hit.hostname)
            && (Speaks(Some(d.displayName), names) ==> r.displayName == d.displayName || d.displayName == "Unknown")
            && (!Speaks(Some(d.displayName), names) && r.hostname != d.hostname
                && names.firstLabel(hit.hostname.value) != "" && names.firstLabel(hit.hostname.value) != "Unknown" ==>
                  r.displayName == names.firstLabel(hit.hostname.value))
            && (r.hostname == d.hostname && (d.displayName == "" || d.displayName == "Unknown")
                && hit.customName.Some? && hit.customName.value != "" && !Speaks(hit.hostname, names) ==>
                  r.displayName == hit.customName.value)
  {
    hide MacIsValid;
  }

  /** A valid MAC fills an invalid one, and nothing else changes the MAC. */
  lemma RefreshedMac(d: Device, hit: Hit, names: Names)
    ensures Refreshed(d, hit, names).mac == if !MacIsValid(d.mac) && MacIsValid(hit.mac) then hit.mac else d.mac
  {
    hide MacIsValid, IsIpLike, Truthy;
  }

  /** Blank, all zeros, broadcast and multicast are no MACs; anything else is one. */
  lemma ValidMacs(mac: string)
    ensures MacIsValid(Some(mac))
            <==> && (exists k :: 0 <= k < |mac| && !IsSpace(mac[k]))
                 && Lower(mac) != "00:00:00:00:00:00" && Lower(mac) != "ff:ff:ff:ff:ff:ff"
                 && !(|mac| >= 8 && Lower(mac)[..8] == "01:00:5e") && !(|mac| >= 5 && mac[..5] == "33:33")
    ensures !MacIsValid(None)
  {
    StripBlank(mac);
    MulticastPrefix(Lower(mac));
    DigitsStay(mac);
    hide Strip, Lower;
  }

  lemma StripBlank(s: string)
    ensures Strip(s) != "" <==> exists k :: 0 <= k < |s| && !IsSpace(s[k])
  {
    var before, after := StripTrims(s);
    hide Strip, IsSpace;
    if Strip(s) != "" {
      assert s[|before|] == Strip(s)[0];
    } else {
      assert s == before + after;
    }
  }

  lemma MulticastPrefix(m: string)
    ensures "01:00:5e" <= m <==> |m| >= 8 && m[..8] == "01:00:5e"
    ensures "33:33" <= m <==> |m| >= 5 && m[..5] == "33:33"
  {
  }

  lemma DigitsStay(m: string)
    ensures |m| >= 5 ==> (Lower(m)[..5] == "33:33" <==> m[..5] == "33:33")
  {
    if |m| >= 5 {
      assert forall k :: 0 <= k < 5 ==> (LowerChar(m[k]) == '3' <==> m[k] == '3') && (LowerChar(m[k]) == ':' <==> m[k] == ':');
      if Lower(m)[..5] == "33:33" {
        assert forall k :: 0 <= k < 5 ==> Lower(m)[..5][k] == LowerChar(m[k]);
        assert m[..5] == "33:33";
      }
      if m[..5] == "33:33" {
        assert forall k :: 0 <= k < 5 ==> Lower(m)[k] == LowerChar(m[..5][k]);
        assert Lower(m)[..5] == "33:33";
      }
    }
  }

  /** An answer at an address that an interface has refreshes that interface alone. */
  lemma InterfaceAnswers(s: State, hit: Hit, ctx: Context, names: Names, k: nat)
    requires k < |s.interfaces| && s.interfaces[k].ip == hit.ip
    requires forall j :: 0 <= j < |s.interfaces| && j != k ==> s.interfaces[j].ip != hit.ip
    ensures var now, was := Step(s, hit, ctx, names), s.interfaces[k];
            && now.devices == s.devices && |now.interfaces| == |s.interfaces|
            && (forall j :: 0 <= j < |s.interfaces| && j != k ==> now.interfaces[j] == s.interfaces[j])
            && now.interfaces[k].device == was.device && now.interfaces[k].ip == hit.ip
            && now.interfaces[k].online && now.interfaces[k].missed == 0
            && now.interfaces[k].mac == (if !MacIsValid(was.mac) && MacIsValid(hit.mac) then hit.mac else was.mac)
            && now.interfaces[k].subnet == (if was.subnet.Some? then was.subnet else SubnetId(ctx, hit.ip))
  {
    hide MacIsValid, MatchDevice, FirstHolding, ByPrefix;
    assert InterfaceAt(s.interfaces, hit.ip).Some?;
  }
}
