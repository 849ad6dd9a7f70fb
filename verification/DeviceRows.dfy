/**
 What an import does to the rows bound to devices, said of the rows of the devices table before and after it
 (backend/app/api/backup.py, _same_device and _detach_reassigned_devices).
 */
module DeviceRows {
  import opened Wrappers
  import opened Rows
  import opened Cascade
  import opened Texts
  import opened DeviceIdentity
  import opened BackupImport
  import opened ImportSafety

  /** The device with this id; ids do not repeat. */
  ghost predicate IsDevice(devices: Table, id: Value, d: Row) {
    d in devices && Get(d, "id") == id && forall e :: e in devices && Get(e, "id") == id ==> e == d
  }

  ghost predicate NoDevice(devices: Table, id: Value) {
    forall e :: e in devices ==> Get(e, "id") != id
  }

  /** What a text column holds; nothing in it reads as the empty text. */
  predicate Holds(r: Row, column: string, s: string) {
    if s == "" then column !in r || r[column] == Null || r[column] == Text("")
    else column in r && r[column] == Text(s)
  }

  lemma HeldText(r: Row, column: string, s: string)
    requires Holds(r, column, s)
    ensures TextOf(r, column) == s
  {
  }

  /** MAC and address of a device as they are compared. */
  ghost predicate Known(d: Row, mac: string, ip: string) {
    exists m, a :: Holds(d, "mac", m) && Holds(d, "ip", a) && mac == Lower(Strip(m)) && ip == Strip(a)
  }

  lemma KnownIdentity(d: Row, mac: string, ip: string)
    requires Known(d, mac, ip)
    ensures IdentityOf(d) == Identity(mac, ip)
  {
    var m, a :| Holds(d, "mac", m) && Holds(d, "ip", a) && mac == Lower(Strip(m)) && ip == Strip(a);
    HeldText(d, "mac", m);
    HeldText(d, "ip", a);
  }

  lemma {:induction false} NoIdentity(devices: Table, id: Value)
    requires NoDevice(devices, id)
    ensures id !in Identities(devices)
  {
    if devices != [] {
      assert devices[|devices| - 1] in devices;
      NoIdentity(devices[..|devices| - 1], id);
    }
  }

  lemma {:induction false} OneIdentity(devices: Table, id: Value, d: Row)
    requires IsDevice(devices, id, d)
    ensures id in Identities(devices) && Identities(devices)[id] == IdentityOf(d)
  {
    var last := devices[|devices| - 1];
    assert last in devices && devices == devices[..|devices| - 1] + [last];
    if Get(last, "id") != id {
      hide IdentityOf;
      assert d != last;
      OneIdentity(devices[..|devices| - 1], id, d);
    }
  }

  lemma NoEmptyId(devices: Table)
    requires Filled(devices, "id")
    ensures Null !in Identities(devices)
  {
    NoIdentity(devices, Null);
  }

  /** Devices with one id before and after an import: the MACs decide, the addresses only without one of them. */
  lemma SameWhenMacsAgree(before: Table, after: Table, id: Value, d: Row, e: Row, mac: string, ip: string, newMac: string, newIp: string)
    requires IsDevice(before, id, d) && Known(d, mac, ip)
    requires IsDevice(after, id, e) && Known(e, newMac, newIp)
    ensures id in Identities(before) && id in Identities(after) && Identities(before)[id].ip == ip
    ensures mac != "" && newMac != "" ==> (SameDevice(Identities(before)[id], Identities(after)[id]) <==> mac == newMac)
    ensures mac == "" || newMac == "" ==> (SameDevice(Identities(before)[id], Identities(after)[id]) <==> ip == newIp)
  {
    OneIdentity(before, id, d);
    OneIdentity(after, id, e);
    hide Known, Identities;
    KnownIdentity(d, mac, ip);
    KnownIdentity(e, newMac, newIp);
  }

  /** The ids an import reports as reassigned: of devices that are gone, or that another device has now. */
  lemma ReassignedIds(before: Table, after: Table, id: Value, d: Row, e: Row, mac: string, ip: string, newMac: string, newIp: string)
    ensures var ids := Reassigned(Identities(before), Identities(after));
            && (NoDevice(before, id) ==> id !in ids)
            && (!NoDevice(before, id) && NoDevice(after, id) ==> id in ids)
            && (IsDevice(before, id, d) && Known(d, mac, ip) && IsDevice(after, id, e) && Known(e, newMac, newIp) ==>
                  && (mac != "" && newMac != "" ==> (id in ids <==> mac != newMac))
                  && (mac == "" || newMac == "" ==> (id in ids <==> ip != newIp)))
  {
    hide Identities, SameDevice, Known, IsDevice, NoDevice;
    if NoDevice(before, id) {
      NoIdentity(before, id);
    } else if NoDevice(after, id) {
      SomeIdentity(before, id);
      NoIdentity(after, id);
    }
    if IsDevice(before, id, d) && Known(d, mac, ip) && IsDevice(after, id, e) && Known(e, newMac, newIp) {
      SameWhenMacsAgree(before, after, id, d, e, mac, ip, newMac, newIp);
    }
  }

  /** The tables whose rows go with their device; an agent token lets an agent report for it. */
  const GO_WITH_DEVICE: set<string> := {"agent_tokens", "device_interfaces", "device_history"}

  lemma {:induction false} SectionsSpare(schema: Schema, p: Progress, data: Backup, name: string)
    requires ImportSections(schema, p, data).Some? && name in p.db
    requires name !in ImportSections(schema, p, data).value.imported
    ensures var after := ImportSections(schema, p, data).value.db; name in after && after[name] == p.db[name]
    ensures name !in p.imported
    decreases |data|
  {
    if data != [] {
      SectionWritesOneTable(schema, p, data[0]);
      var next := ImportSection(schema, p, data[0]).value;
      assert SectionRows(schema, data[0]).Some? ==> TableName(data[0].key) in next.imported;
      hide ImportSection, SectionRows;
      SectionsSpare(schema, next, data[1..], name);
    }
  }

  lemma DetachedRows(db: Database, before: map<Value, Identity>, restored: set<string>, name: string, r: Row)
    requires name in GO_WITH_DEVICE && name in db && name !in restored && Null !in before
    ensures var d, id, after := Detach(db, before, restored), Get(r, "device_id"), Identities(TableOf(db, "devices"));
            && name in d
            && (r in d[name] <==>
                  (r in db[name] && (id in before ==> id in after && SameDevice(before[id], after[id]))))
  {
    hide Identities, SameDevice;
    assert DEVICE_BOUND_DELETE[0] == "agent_tokens" && DEVICE_BOUND_DELETE[1] == "device_interfaces";
    assert DEVICE_BOUND_DELETE[2] == "device_history";
    assert name in DEVICE_BOUND_DELETE;
  }

  /** Which rows of a table that came not from the backup are left, through the whole import. */
  lemma RowsLeft(schema: Schema, db: Database, data: Backup, name: string, r: Row)
    requires Import(schema, db, data).Some? && "devices" in db && Filled(db["devices"], "id")
    requires name in GO_WITH_DEVICE && name in db && name !in Import(schema, db, data).value.imported
    ensures var after, id := Import(schema, db, data).value.db, Get(r, "device_id");
            && name in after && "devices" in after
            && var was, now := Identities(db["devices"]), Identities(after["devices"]);
               (r in after[name] <==> (r in db[name] && (id in was ==> id in now && SameDevice(was[id], now[id]))))
  {
    hide Import, ImportSections, Detach, Cleanup, Identities, SameDevice, Filled;
    NoEmptyId(db["devices"]);
    var p := ImportParts(schema, db, data);
    var was := Identities(db["devices"]);
    SectionsSpare(schema, Progress(db, map[], map[]), data, name);
    DetachedRows(p.db, was, p.imported.Keys, name, r);
    DetachLeaves(p.db, was, p.imported.Keys, "devices");
    var d := Detach(p.db, was, p.imported.Keys);
    CleanupLeaves(d, name);
    CleanupLeaves(d, "devices");
  }

  /**
   A row of a device that is there before and after an import: with both MACs known it stays exactly when they
   agree, at whatever addresses; with one of them unknown, exactly when the addresses agree.
   */
  lemma RowsFollowMacs(schema: Schema, db: Database, data: Backup, name: string, r: Row, d: Row, e: Row, mac: string, ip: string, newMac: string, newIp: string)
    requires Import(schema, db, data).Some? && "devices" in db && Filled(db["devices"], "id")
    requires name in GO_WITH_DEVICE && name in db && name !in Import(schema, db, data).value.imported
    requires IsDevice(db["devices"], Get(r, "device_id"), d) && Known(d, mac, ip)
    requires IsDevice(TableOf(Import(schema, db, data).value.db, "devices"), Get(r, "device_id"), e) && Known(e, newMac, newIp)
    ensures var after := Import(schema, db, data).value.db;
            && name in after
            && (mac != "" && newMac != "" ==> (r in after[name] <==> r in db[name] && mac == newMac))
            && (mac == "" || newMac == "" ==> (r in after[name] <==> r in db[name] && ip == newIp))
  {
    hide Import, Identities, SameDevice, IsDevice, Known, Filled;
    RowsLeft(schema, db, data, name, r);
    var after := Import(schema, db, data).value.db;
    SameWhenMacsAgree(db["devices"], after["devices"], Get(r, "device_id"), d, e, mac, ip, newMac, newIp);
  }

  /** A row of a device that the import removes goes; a row of no device of before stays. */
  lemma RowsOfNoDevice(schema: Schema, db: Database, data: Backup, name: string, r: Row)
    requires Import(schema, db, data).Some? && "devices" in db && Filled(db["devices"], "id")
    requires name in GO_WITH_DEVICE && name in db && name !in Import(schema, db, data).value.imported
    ensures var after, id := Import(schema, db, data).value.db, Get(r, "device_id");
            && name in after && "devices" in after
            && (NoDevice(db["devices"], id) ==> (r in after[name] <==> r in db[name]))
            && (!NoDevice(db["devices"], id) && NoDevice(after["devices"], id) ==> r !in after[name])
  {
    hide Import, Identities, SameDevice, Filled, NoDevice;
    RowsLeft(schema, db, data, name, r);
    var after, id := Import(schema, db, data).value.db, Get(r, "device_id");
    if NoDevice(db["devices"], id) {
      NoIdentity(db["devices"], id);
    } else if NoDevice(after["devices"], id) {
      SomeIdentity(db["devices"], id);
      NoIdentity(after["devices"], id);
    }
  }

  lemma {:induction false} SomeIdentity(devices: Table, id: Value)
    requires !NoDevice(devices, id)
    ensures id in Identities(devices)
  {
    var last := devices[|devices| - 1];
    assert devices == devices[..|devices| - 1] + [last];
    if Get(last, "id") != id {
      SomeIdentity(devices[..|devices| - 1], id);
    }
  }

  lemma DetachedPorts(db: Database, before: map<Value, Identity>, restored: set<string>, r: Row)
    requires HasTables(db) && "rack_ports" !in restored && Null !in before
    ensures var d, id, after := Detach(db, before, restored), Get(r, "device_id"), Identities(db["devices"]);
            && "rack_ports" in d
            && (r in d["rack_ports"] <==>
                  (r in db["rack_ports"] && (id in before ==> id in after && SameDevice(before[id], after[id]))))
  {
    hide Identities, SameDevice;
    assert DEVICE_BOUND_DELETE[3] == "rack_ports";
  }

  lemma PortsDetached(schema: Schema, db: Database, data: Backup, r: Row) returns (d: Database)
    requires ReferenceSchema(schema) && HasTables(db) && Keyed(db) && Import(schema, db, data).Some?
    requires "rack_ports" !in Import(schema, db, data).value.imported
    ensures HasTables(d) && Keyed(d) && Cleanup(d) == Import(schema, db, data).value.db
    ensures var was, now, id := Identities(db["devices"]), Identities(d["devices"]), Get(r, "device_id");
            r in d["rack_ports"] <==>
              (r in db["rack_ports"] && (id in was ==> id in now && SameDevice(was[id], now[id])))
  {
    var p := ImportParts(schema, db, data);
    var was := Identities(db["devices"]);
    NoEmptyId(db["devices"]);
    hide Import, ImportSections, Detach, Cleanup, Identities, SameDevice, Keyed, ReferenceSchema;
    SectionsSpare(schema, Progress(db, map[], map[]), data, "rack_ports");
    KeyedSections(schema, db, data);
    d := Detach(p.db, was, p.imported.Keys);
    DetachKeepsKeyed(p.db, was, p.imported.Keys);
    DetachLeaves(p.db, was, p.imported.Keys, "devices");
    DetachedPorts(p.db, was, p.imported.Keys, r);
  }

  lemma PortsLeft(schema: Schema, db: Database, data: Backup, r: Row)
    requires ReferenceSchema(schema) && HasTables(db) && Keyed(db) && Import(schema, db, data).Some?
    requires "rack_ports" !in Import(schema, db, data).value.imported
    ensures var after, id := Import(schema, db, data).value.db, Get(r, "device_id");
            && HasTables(after)
            && var was, now := Identities(db["devices"]), Identities(after["devices"]);
               (r in after["rack_ports"] <==>
                  (r in db["rack_ports"] && (id in was ==> id in now && SameDevice(was[id], now[id]))
                   && Refers(id, after["devices"]) && Refers(Get(r, "rack_item_id"), after["rack_items"])))
  {
    hide Import, Cleanup, Identities, SameDevice, Keyed, ReferenceSchema, Refers, KeepItems, KeepPorts, KeepCables, KeepLinks;
    var d := PortsDetached(schema, db, data, r);
    CleanupTables(d);
    CleanupRows(d, r);
  }

  /**
   Rack ports that came not from the backup: those of a device stay as its other rows do, if the rack item they
   may name besides is still there; those of rack items alone exactly if the item is still there.
   */
  lemma PortsFollowMacs(schema: Schema, db: Database, data: Backup, r: Row, d: Row, e: Row, mac: string, ip: string, newMac: string, newIp: string)
    requires ReferenceSchema(schema) && HasTables(db) && Keyed(db) && Import(schema, db, data).Some?
    requires "rack_ports" !in Import(schema, db, data).value.imported
    ensures var after, id := Import(schema, db, data).value.db, Get(r, "device_id");
            && HasTables(after)
            && var held := r in db["rack_ports"] && Refers(Get(r, "rack_item_id"), after["rack_items"]);
               && (id == Null ==> (r in after["rack_ports"] <==> held))
               && (id != Null && NoDevice(after["devices"], id) ==> r !in after["rack_ports"])
               && (IsDevice(db["devices"], id, d) && Known(d, mac, ip)
                   && IsDevice(after["devices"], id, e) && Known(e, newMac, newIp) ==>
                     && (mac != "" && newMac != "" ==> (r in after["rack_ports"] <==> held && mac == newMac))
                     && (mac == "" || newMac == "" ==> (r in after["rack_ports"] <==> held && ip == newIp)))
  {
    PortsLeft(schema, db, data, r);
    NoEmptyId(db["devices"]);
    var after, id := Import(schema, db, data).value.db, Get(r, "device_id");
    hide Import, ImportSections, Identities, SameDevice, Known, Keyed, HasTables, ReferenceSchema;
    if IsDevice(db["devices"], id, d) && Known(d, mac, ip) && IsDevice(after["devices"], id, e) && Known(e, newMac, newIp) {
      assert Refers(id, after["devices"]);
      hide Refers, IsDevice;
      SameWhenMacsAgree(db["devices"], after["devices"], id, d, e, mac, ip, newMac, newIp);
    }
  }

  // ---------------------------------------------------------------- saved connections

  /** Unbound: no device any more, its own host or else the address of the old device, and all else as it was. */
  ghost predicate Unbound(was: Row, now: Row, ip: string) {
    && now.Keys == was.Keys + {"device_id", "host"}
    && now["device_id"] == Null
    && (Get(was, "host") != Null && Get(was, "host") != Text("") ==> now["host"] == was["host"])
    && (Get(was, "host") == Null || Get(was, "host") == Text("") ==> now["host"] == if ip == "" then Null else Text(ip))
    && forall c :: c in was && c != "device_id" && c != "host" ==> now[c] == was[c]
  }

  lemma UnlinkUnbinds(r: Row, before: map<Value, Identity>)
    requires Get(r, "device_id") in before
    ensures Unbound(r, Unlink(r, before), before[Get(r, "device_id")].ip)
  {
  }

  /** A saved connection to a device that is there before and after: it stays bound exactly when a token would stay. */
  lemma ConnectionsFollowMacs(schema: Schema, db: Database, data: Backup, name: string, i: nat, d: Row, e: Row, mac: string, ip: string, newMac: string, newIp: string)
    requires Import(schema, db, data).Some? && "devices" in db && Filled(db["devices"], "id")
    requires (name == "ssh_profiles" || name == "ssh_history") && name in db && i < |db[name]|
    requires IsDevice(db["devices"], Get(db[name][i], "device_id"), d) && Known(d, mac, ip)
    requires var after := TableOf(Import(schema, db, data).value.db, "devices");
             IsDevice(after, Get(db[name][i], "device_id"), e) && Known(e, newMac, newIp)
    ensures var after := Import(schema, db, data).value.db;
            && name in after && |after[name]| == |db[name]|
            && (mac != "" && newMac != "" && mac == newMac ==> after[name][i] == db[name][i])
            && (mac != "" && newMac != "" && mac != newMac ==> Unbound(db[name][i], after[name][i], ip))
            && ((mac == "" || newMac == "") && ip == newIp ==> after[name][i] == db[name][i])
            && ((mac == "" || newMac == "") && ip != newIp ==> Unbound(db[name][i], after[name][i], ip))
  {
    hide Import, Identities, SameDevice, IsDevice, Known, Filled, Unlink, Unbound;
    NoEmptyId(db["devices"]);
    ImportUnlinksConnections(schema, db, data, name, i);
    var after := Import(schema, db, data).value.db;
    SameWhenMacsAgree(db["devices"], after["devices"], Get(db[name][i], "device_id"), d, e, mac, ip, newMac, newIp);
    UnlinkUnbinds(db[name][i], Identities(db["devices"]));
  }

  /** Without a device before it stays as it is; when its device is gone it is unbound and keeps its address. */
  lemma ConnectionsOfNoDevice(schema: Schema, db: Database, data: Backup, name: string, i: nat)
    requires Import(schema, db, data).Some? && "devices" in db && Filled(db["devices"], "id")
    requires (name == "ssh_profiles" || name == "ssh_history") && name in db && i < |db[name]|
    ensures var after := Import(schema, db, data).value.db;
            && name in after && "devices" in after && |after[name]| == |db[name]|
            && var id := Get(db[name][i], "device_id");
               && (NoDevice(db["devices"], id) ==> after[name][i] == db[name][i])
               && (forall d, mac, ip ::
                     IsDevice(db["devices"], id, d) && Known(d, mac, ip) && NoDevice(after["devices"], id) ==>
                       Unbound(db[name][i], after[name][i], ip))
  {
    hide Import, Identities, SameDevice, IsDevice, Known, Filled, NoDevice, Unlink, Unbound;
    NoEmptyId(db["devices"]);
    ImportUnlinksConnections(schema, db, data, name, i);
    var after, id := Import(schema, db, data).value.db, Get(db[name][i], "device_id");
    if NoDevice(db["devices"], id) {
      NoIdentity(db["devices"], id);
    }
    forall d, mac, ip | IsDevice(db["devices"], id, d) && Known(d, mac, ip) && NoDevice(after["devices"], id)
      ensures Unbound(db[name][i], after[name][i], ip)
    {
      OneIdentity(db["devices"], id, d);
      KnownIdentity(d, mac, ip);
      NoIdentity(after["devices"], id);
      UnlinkUnbinds(db[name][i], Identities(db["devices"]));
    }
  }
}
