/**
 Device ids that name another device after an import (backend/app/api/backup.py, _device_identities,
 _same_device and _detach_reassigned_devices; backend/app/api/ssh.py, _target_from_profile).
 */
module DeviceIdentity {
  import opened Rows
  import opened Texts
  import opened Cascade

  /** A column as text; an empty column reads as the empty string. */
  function TextOf(r: Row, column: string): string {
    var v := Get(r, column);
    if v.Text? then v.s else ""
  }

  /** MAC in lower case and address, both trimmed. */
  datatype Identity = Identity(mac: string, ip: string)

  function IdentityOf(r: Row): Identity {
    Identity(Lower(Strip(TextOf(r, "mac"))), Strip(TextOf(r, "ip")))
  }

  function Identities(devices: Table): map<Value, Identity> {
    if devices == [] then map[]
    else
      var last := devices[|devices| - 1];
      Identities(devices[..|devices| - 1])[Get(last, "id") := IdentityOf(last)]
  }

  /** The MACs decide; the address only if one side has no MAC. */
  predicate SameDevice(before: Identity, after: Identity) {
    if before.mac != "" && after.mac != "" then before.mac == after.mac else before.ip == after.ip
  }

  predicate IsReassigned(id: Value, before: map<Value, Identity>, after: map<Value, Identity>) {
    id in before && (id !in after || !SameDevice(before[id], after[id]))
  }

  function Reassigned(before: map<Value, Identity>, after: map<Value, Identity>): set<Value> {
    set id | id in before && IsReassigned(id, before, after)
  }

  const DEVICE_BOUND_DELETE: seq<string> := ["agent_tokens", "device_interfaces", "device_history", "rack_ports"]
  const DEVICE_BOUND_UNLINK: seq<string> := ["ssh_profiles", "ssh_history"]

  /** `WHERE device_id IN (...)`, which an empty device_id never satisfies. */
  predicate BoundTo(r: Row, ids: set<Value>) {
    Get(r, "device_id") != Null && Get(r, "device_id") in ids
  }

  function WithoutBound(t: Table, ids: set<Value>): Table {
    Filter(t, r => !BoundTo(r, ids))
  }

  /** `SET host = COALESCE(NULLIF(host, ''), address), device_id = NULL` */
  function Unlink(r: Row, before: map<Value, Identity>): Row
    requires Get(r, "device_id") in before
  {
    var address := before[Get(r, "device_id")].ip;
    var host := Get(r, "host");
    var kept := if host != Null && host != Text("") then host else if address != "" then Text(address) else Null;
    r["host" := kept]["device_id" := Null]
  }

  function UnlinkBound(t: Table, ids: set<Value>, before: map<Value, Identity>): (result: Table)
    requires ids <= before.Keys
    ensures |result| == |t|
    ensures forall i :: 0 <= i < |t| ==> result[i] == if BoundTo(t[i], ids) then Unlink(t[i], before) else t[i]
  {
    seq(|t|, i requires 0 <= i < |t| => if BoundTo(t[i], ids) then Unlink(t[i], before) else t[i])
  }

  /** What a table looks like after the detaching. */
  function Detached(name: string, t: Table, ids: set<Value>, before: map<Value, Identity>, restored: set<string>): Table
    requires ids <= before.Keys
  {
    if name in DEVICE_BOUND_DELETE && name !in restored then WithoutBound(t, ids)
    else if name in DEVICE_BOUND_UNLINK then UnlinkBound(t, ids, before)
    else t
  }

  function Detach(db: Database, before: map<Value, Identity>, restored: set<string>): Database {
    var ids := Reassigned(before, Identities(TableOf(db, "devices")));
    map name | name in db :: Detached(name, db[name], ids, before, restored)
  }

  // ---------------------------------------------------------------- what the detaching means

  /**
   A token stays exactly when its device was not there before or is still there and still the same device:
   no agent of an old device can report for a new one.
   */
  lemma TokenSurvives(db: Database, before: map<Value, Identity>, restored: set<string>, token: Row)
    requires "agent_tokens" in db && "agent_tokens" !in restored && Null !in before
    ensures var after := Identities(TableOf(db, "devices"));
            var device := Get(token, "device_id");
            token in Detach(db, before, restored)["agent_tokens"]
            <==> (token in db["agent_tokens"]
                  && (device in before ==> device in after && SameDevice(before[device], after[device])))
  {
    assert DEVICE_BOUND_DELETE[0] == "agent_tokens";
  }

  /** Device id -> address, as the devices table has it. */
  function Addresses(devices: Table): map<Value, string> {
    if devices == [] then map[]
    else
      var last := devices[|devices| - 1];
      Addresses(devices[..|devices| - 1])[Get(last, "id") := TextOf(last, "ip")]
  }

  /** The identities hold the addresses without the blanks around them. */
  lemma {:induction false} AddressOfIdentity(devices: Table, id: Value)
    ensures id in Addresses(devices) <==> id in Identities(devices)
    ensures id in Addresses(devices) ==> Identities(devices)[id].ip == Strip(Addresses(devices)[id])
  {
    if devices != [] {
      AddressOfIdentity(devices[..|devices| - 1], id);
    }
  }

  /** The host a saved connection is opened to; empty when it has none. */
  function EffectiveHost(profile: Row, devices: map<Value, string>): string {
    var host, device := TextOf(profile, "host"), Get(profile, "device_id");
    if host != "" then host
    else if device != Null && device != Int(0) && device in devices then devices[device]
    else ""
  }

  /**
   A detached connection is opened to the same host as before exactly when it had a host of its own or the
   old device's address has no blanks around it, which the detaching trims.
   */
  lemma DetachedTarget(
    profile: Row, before: map<Value, Identity>, oldDevices: map<Value, string>, newDevices: map<Value, string>
  )
    requires Get(profile, "device_id") in before && Get(profile, "device_id") in oldDevices
    requires Get(profile, "device_id") != Null && Get(profile, "device_id") != Int(0)
    requires before[Get(profile, "device_id")].ip == Strip(oldDevices[Get(profile, "device_id")])
    requires Get(profile, "host").Text? || Get(profile, "host") == Null
    ensures EffectiveHost(Unlink(profile, before), newDevices) == EffectiveHost(profile, oldDevices)
            <==> TextOf(profile, "host") != ""
                 || Strip(oldDevices[Get(profile, "device_id")]) == oldDevices[Get(profile, "device_id")]
    ensures Get(Unlink(profile, before), "device_id") == Null
  {
  }

  /** A profile without a host, bound to device 1, whose stored address starts with a blank, is opened elsewhere afterwards. */
  lemma BlankIsTrimmed(address: string, newDevices: map<Value, string>)
    requires address != "" && !IsSpace(address[0]) && !IsSpace(address[|address| - 1])
    ensures var profile: Row := map["device_id" := Int(1)];
            var devices: Table := [map["id" := Int(1), "ip" := Text(" " + address)]];
            && EffectiveHost(profile, Addresses(devices)) == " " + address
            && EffectiveHost(Unlink(profile, Identities(devices)), newDevices) == address != " " + address
  {
    var profile: Row := map["device_id" := Int(1)];
    var device: Row := map["id" := Int(1), "ip" := Text(" " + address)];
    OneDevice(device, 1, " " + address);
    assert (" " + address)[1..] == address;
    assert StripLeft(" " + address) == StripLeft(address) == address && StripRight(address) == address;
    assert Get(profile, "device_id") == Int(1) && TextOf(profile, "host") == "";
    assert |" " + address| != |address|;
    hide Strip;
    UnlinkedHost(profile, Identities([device]), address, newDevices);
  }

  lemma OneDevice(device: Row, id: int, ip: string)
    requires Get(device, "id") == Int(id) && TextOf(device, "ip") == ip
    ensures Addresses([device]) == map[Int(id) := ip]
    ensures Identities([device]).Keys == {Int(id)} && Identities([device])[Int(id)].ip == Strip(ip)
  {
    assert [device][..0] == [];
    AddressOfIdentity([device], Int(id));
  }

  lemma UnlinkedHost(profile: Row, before: map<Value, Identity>, address: string, newDevices: map<Value, string>)
    requires Get(profile, "device_id") in before && before[Get(profile, "device_id")].ip == address
    requires TextOf(profile, "host") == "" && (Get(profile, "host").Text? || Get(profile, "host") == Null)
    ensures EffectiveHost(Unlink(profile, before), newDevices) == address
  {
  }
}
