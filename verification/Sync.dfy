/**
 What one scan answer does to the inventory (backend/app/scanner/sync.py, _sync_host_internal): find the
 device it belongs to, refresh it, move it to a new address, displace another device, or record a further
 address of a gateway. Batches of one host are modelled, each with its own context and commit.
 */
module Sync {
  import opened Wrappers
  import opened Texts
  import opened Networks
  import opened Placeholders

  datatype Device = Device(
    id: int, ip: Address, mac: Option<string>, hostname: Option<string>, displayName: string, vendor: Option<string>,
    online: bool, placeholder: bool, missed: int, oldIp: Option<Address>)

  /** A further address of a device. */
  datatype Interface = Interface(device: int, ip: Address, mac: Option<string>, online: bool, missed: int, subnet: Option<int>)

  datatype State = State(devices: seq<Device>, interfaces: seq<Interface>)

  /** A scan answer. `customName` is the name its discovered host lends, which other tables decide. */
  datatype Hit = Hit(ip: Address, mac: Option<string>, hostname: Option<string>, customName: Option<string>)

  /** Text matching that the model does not look into. */
  datatype Names = Names(
    ilike: (string, string) -> bool, ipLike: string -> bool, unraid: string -> bool, firstLabel: string -> string)

  datatype MatchType = Exact | ByIp | ByMac | ByName

  // ---------------------------------------------------------------- MAC addresses and names

  predicate MacIsValid(mac: Option<string>) {
    && mac.Some? && Strip(mac.value) != ""
    && Lower(mac.value) != "00:00:00:00:00:00" && Lower(mac.value) != "ff:ff:ff:ff:ff:ff"
    && !("01:00:5e" <= Lower(mac.value)) && !("33:33" <= Lower(mac.value))
  }

  predicate Truthy(name: Option<string>) {
    name.Some? && name.value != ""
  }

  /** A missing name counts as a generic one. */
  predicate IsIpLike(name: Option<string>, names: Names) {
    !Truthy(name) || names.ipLike(name.value)
  }

  predicate IsUnraid(d: Device, names: Names) {
    || (d.displayName != "" && names.unraid(d.displayName))
    || (Truthy(d.hostname) && names.unraid(d.hostname.value))
    || (Truthy(d.vendor) && names.unraid(d.vendor.value))
  }

  // ---------------------------------------------------------------- queries

  /** The positions of the rows that satisfy p, in table order. */
  function Select(devices: seq<Device>, p: Device -> bool): (found: seq<nat>)
    ensures forall i :: i in found ==> 0 <= i < |devices| && p(devices[i])
    ensures forall i: nat :: i < |devices| && p(devices[i]) ==> i in found
  {
    if devices == [] then []
    else
      var n := |devices| - 1;
      Select(devices[..n], p) + (if p(devices[n]) then [n] else [])
  }

  function FirstOf(found: seq<nat>): (first: Option<nat>)
    ensures first.Some? ==> first.value in found
  {
    if found == [] then None else Some(found[0])
  }

  function InterfaceAt(interfaces: seq<Interface>, ip: Address): (found: Option<nat>)
    ensures found.Some? ==> found.value < |interfaces| && interfaces[found.value].ip == ip
    ensures found.None? ==> forall i :: 0 <= i < |interfaces| ==> interfaces[i].ip != ip
  {
    if interfaces == [] then None
    else
      var n := |interfaces| - 1;
      var before := InterfaceAt(interfaces[..n], ip);
      if before.Some? then before else if interfaces[n].ip == ip then Some(n) else None
  }

  // ---------------------------------------------------------------- matching

  /** The device at the address, unless the scanned MAC belongs to exactly one other device that is no Unraid host. */
  function MatchByIp(devices: seq<Device>, hit: Hit, names: Names): (found: Option<nat>)
    ensures found.Some? ==> found.value < |devices| && devices[found.value].ip == hit.ip
  {
    var at := FirstOf(Select(devices, (d: Device) => d.ip == hit.ip));
    if at.None? then None
    else
      var cand := devices[at.value];
      if !(MacIsValid(hit.mac) && MacIsValid(cand.mac) && Lower(cand.mac.value) != Lower(hit.mac.value)) then at
      else
        var owners := Select(devices, (d: Device) => d.mac == hit.mac && d.id != cand.id);
        assert |owners| == 1 ==> owners[0] in owners;
        if |owners| != 1 then at
        else if IsUnraid(devices[owners[0]], names) then at
        else None
  }

  function MatchByMac(devices: seq<Device>, hit: Hit, names: Names): (found: Option<nat>)
    ensures found.Some? ==> found.value < |devices| && MacIsValid(hit.mac) && devices[found.value].mac == hit.mac
  {
    if !MacIsValid(hit.mac) then None
    else
      var owners := Select(devices, (d: Device) => d.mac == hit.mac);
      assert |owners| == 1 ==> owners[0] in owners;
      if |owners| != 1 then None
      else if devices[owners[0]].ip != hit.ip && IsUnraid(devices[owners[0]], names) then None
      else Some(owners[0])
  }

  function MatchByName(devices: seq<Device>, hit: Hit, names: Names): (found: Option<nat>)
    ensures found.Some? ==> found.value < |devices| && Truthy(hit.hostname)
  {
    if IsIpLike(hit.hostname, names) then None
    else
      var name := hit.hostname.value;
      var named := (d: Device) =>
        (d.hostname.Some? && names.ilike(d.hostname.value, name)) || names.ilike(d.displayName, name);
      var placeholder := FirstOf(Select(devices, d => named(d) && d.placeholder));
      if placeholder.Some? then placeholder else FirstOf(Select(devices, named))
  }

  /** Exact match, then by address, then by MAC, then by name. */
  function MatchDevice(devices: seq<Device>, hit: Hit, names: Names): (found: Option<(nat, MatchType)>)
    ensures found.Some? ==> found.value.0 < |devices|
    ensures found.Some? && found.value.1 in {Exact, ByIp} ==> devices[found.value.0].ip == hit.ip
    ensures found.Some? && found.value.1 == ByMac ==> MacIsValid(hit.mac) && devices[found.value.0].mac == hit.mac
    ensures found.Some? && found.value.1 == ByName ==> Truthy(hit.hostname)
  {
    var exact := if MacIsValid(hit.mac) then FirstOf(Select(devices, (d: Device) => d.mac == hit.mac && d.ip == hit.ip)) else None;
    if exact.Some? then Some((exact.value, Exact))
    else
      var byIp := MatchByIp(devices, hit, names);
      if byIp.Some? then Some((byIp.value, ByIp))
      else
        var byMac := MatchByMac(devices, hit, names);
        if byMac.Some? then Some((byMac.value, ByMac))
        else
          var byName := MatchByName(devices, hit, names);
          if byName.Some? then Some((byName.value, ByName)) else None
  }

  /** A fallback hit in another segment does not move a gateway, a box with interfaces, or one that still answers. */
  predicate KeepsIp(s: State, i: nat, ip: Address, how: MatchType, ctx: Context)
    requires i < |s.devices|
  {
    var dev := s.devices[i];
    && (how == ByMac || how == ByName) && dev.ip != ip && ctx.IsCrossSegment(dev.ip, ip)
    && ((exists k :: 0 <= k < |s.interfaces| && s.interfaces[k].device == dev.id)
        || ctx.IsGateway(ip) || ctx.IsGateway(dev.ip)
        || (dev.online && !dev.placeholder))
  }

  // ---------------------------------------------------------------- effects

  function Refreshed(d: Device, hit: Hit, names: Names): Device {
    var named :=
      if Truthy(hit.hostname) && !names.ipLike(hit.hostname.value) && IsIpLike(d.hostname, names) then
        d.(hostname := hit.hostname,
           displayName := if IsIpLike(Some(d.displayName), names) then names.firstLabel(hit.hostname.value) else d.displayName)
      else d;
    var seen := named.(
      online := true, missed := 0, placeholder := false,
      mac := if MacIsValid(hit.mac) && !MacIsValid(d.mac) then hit.mac else d.mac);
    if Truthy(hit.customName) && (seen.displayName == "" || seen.displayName == "Unknown") then
      seen.(displayName := hit.customName.value)
    else seen
  }

  function RefreshedInterface(iface: Interface, hit: Hit, ctx: Context): Interface {
    var sub := ctx.SubnetFor(iface.ip);
    iface.(
      online := true, missed := 0,
      mac := if MacIsValid(hit.mac) && !MacIsValid(iface.mac) then hit.mac else iface.mac,
      subnet := if iface.subnet.None? && sub.Some? then Some(sub.value.id) else iface.subnet)
  }

  /** The addresses of all devices but the one at position c. */
  function OtherAddresses(devices: seq<Device>, c: nat): set<Address> {
    set i | 0 <= i < |devices| && i != c :: devices[i].ip
  }

  /** Back to its old address if that is free, else to the first free placeholder. */
  function SafeAddress(devices: seq<Device>, c: nat): Address
    requires c < |devices|
  {
    var others := OtherAddresses(devices, c);
    var former := devices[c].oldIp;
    if Reusable(former) && former.value !in others then former.value else PlaceholderAt(FirstFree(others, 0))
  }

  /** The other device that holds the address, if there is one. */
  function ConflictAt(devices: seq<Device>, i: nat, ip: Address): (found: Option<nat>)
    ensures found.Some? ==> found.value < |devices| && found.value != i && devices[found.value].ip == ip
    ensures found.None? ==> forall j :: 0 <= j < |devices| && j != i ==> devices[j].ip != ip
  {
    FirstPlace(devices, i, ip, 0)
  }

  function FirstPlace(devices: seq<Device>, i: nat, ip: Address, from: nat): (found: Option<nat>)
    requires from <= |devices|
    ensures found.Some? ==> found.value < |devices| && found.value != i && devices[found.value].ip == ip
    ensures found.None? ==> forall j :: from <= j < |devices| && j != i ==> devices[j].ip != ip
    decreases |devices| - from
  {
    if from == |devices| then None
    else if from != i && devices[from].ip == ip then Some(from)
    else FirstPlace(devices, i, ip, from + 1)
  }

  function Displaced(devices: seq<Device>, i: nat, ip: Address): (result: seq<Device>)
    ensures |result| == |devices|
  {
    var c := ConflictAt(devices, i, ip);
    if c.None? then devices
    else devices[c.value := devices[c.value].(online := false, placeholder := true, ip := SafeAddress(devices, c.value))]
  }

  /** The matched device is refreshed and, if it answered elsewhere, moved; whoever was there makes room. */
  function Updated(devices: seq<Device>, i: nat, hit: Hit, names: Names): (result: seq<Device>)
    requires i < |devices|
    ensures |result| == |devices|
  {
    var dev := Refreshed(devices[i], hit, names);
    if dev.ip == hit.ip then devices[i := dev]
    else Displaced(devices, i, hit.ip)[i := dev.(oldIp := Some(dev.ip), ip := hit.ip)]
  }

  /** The database's unique key on the address. */
  predicate DistinctAddresses(devices: seq<Device>) {
    forall i, j :: 0 <= i < j < |devices| ==> devices[i].ip != devices[j].ip
  }

  /** One scan answer, committed or, when the unique key refuses it, rolled back. */
  function Step(s: State, hit: Hit, ctx: Context, names: Names): State {
    var iface := InterfaceAt(s.interfaces, hit.ip);
    if iface.Some? then
      s.(interfaces := s.interfaces[iface.value := RefreshedInterface(s.interfaces[iface.value], hit, ctx)])
    else
      match MatchDevice(s.devices, hit, names)
      case None => s
      case Some((i, how)) =>
        if KeepsIp(s, i, hit.ip, how, ctx) then
          if how == ByMac && ctx.IsGateway(hit.ip) then
            var sub := ctx.SubnetFor(hit.ip);
            var further := Interface(s.devices[i].id, hit.ip, hit.mac, true, 0, if sub.Some? then Some(sub.value.id) else None);
            s.(interfaces := s.interfaces + [further])
          else s
        else
          var next := Updated(s.devices, i, hit, names);
          if DistinctAddresses(next) then s.(devices := next) else s
  }
}
