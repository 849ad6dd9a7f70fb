/**
 What every import keeps, whatever the backup holds: the protected settings, closed references among racks
 and links, and agent tokens only for devices that are still the same.
 */
module ImportSafety {
  import opened Wrappers
  import opened Rows
  import opened Duplicates
  import opened Cascade
  import opened Texts
  import opened DeviceIdentity
  import opened BackupImport

  // ---------------------------------------------------------------- protected settings

  /** The settings table has its key column, and no default is a protected key. */
  ghost predicate SettingsSchema(schema: Schema) {
    "app_settings" in schema.tables ==>
      var columns := schema.tables["app_settings"].columns;
      "key" in columns && columns["key"].notNull && columns["key"].fill !in PROTECTED_SETTING_KEYS
  }

  function ProtectedRows(settings: Table): Table {
    Filter(settings, r => IsProtected(r))
  }

  lemma {:induction false} FilterAppend(t: Table, r: Row, keep: Row -> bool)
    ensures Filter(t + [r], keep) == Filter(t, keep) + (if keep(r) then [r] else [])
    decreases |t|
  {
    if t == [] {
      assert [] + [r] == [r] && [r][1..] == [];
    } else {
      assert (t + [r])[0] == t[0] && (t + [r])[1..] == t[1..] + [r];
      FilterAppend(t[1..], r, keep);
    }
  }

  lemma SettingsAppend(settings: Table, last: Row)
    ensures ProtectedSettings(settings + [last])
            == if IsProtected(last) then ProtectedSettings(settings)[Get(last, "key") := Get(last, "value")]
               else ProtectedSettings(settings)
  {
    hide IsProtected;
    assert (settings + [last])[..|settings|] == settings;
  }

  /** The protected values depend on the protected rows only. */
  lemma {:induction false} ValuesFromRows(settings: Table)
    ensures ProtectedSettings(settings) == ProtectedSettings(ProtectedRows(settings))
  {
    if settings != [] {
      var init, last := settings[..|settings| - 1], settings[|settings| - 1];
      assert settings == init + [last];
      ValuesFromRows(init);
      FilterAppend(init, last, r => IsProtected(r));
      hide IsProtected, ProtectedSettings, Filter;
      var kept := ProtectedRows(init);
      SettingsAppend(init, last);
      SettingsAppend(kept, last);
      assert ProtectedRows(settings) == if IsProtected(last) then kept + [last] else kept;
    }
  }

  lemma {:induction false} InsertUnprotected(r: Row, t: Table)
    requires !IsProtected(r)
    ensures ProtectedRows(InsertUp(r, t)) == ProtectedRows(t)
  {
    if t == [] || IdOf(r) <= IdOf(t[0]) {
      assert ([r] + t)[1..] == t;
    } else {
      var rest := InsertUp(r, t[1..]);
      assert ([t[0]] + rest)[1..] == rest;
      InsertUnprotected(r, t[1..]);
    }
  }

  lemma {:induction false} InsertRowsUnprotected(info: TableInfo, named: set<string>, t: Table, rows: Table)
    requires "key" in named && "key" in info.columns
    requires forall r :: r in rows ==> !IsProtected(r)
    ensures InsertRows(info, named, t, rows).Some? ==>
              ProtectedRows(InsertRows(info, named, t, rows).value) == ProtectedRows(t)
    decreases |rows|
  {
    if rows != [] {
      var r := StoredRow(info, named, t, rows[0]);
      assert rows[0] in rows && Get(r, "key") == Get(rows[0], "key");
      InsertUnprotected(r, t);
      InsertRowsUnprotected(info, named, InsertUp(r, t), rows[1..]);
    }
  }

  lemma CleanedUnprotected(schema: Schema, rows: Table)
    requires SettingsSchema(schema) && "app_settings" in schema.tables
    ensures forall r :: r in CleanRows(schema, "app_settings", rows) ==> !IsProtected(r) && "key" in r
  {
    var columns := schema.tables["app_settings"].columns;
    var open := Filter(rows, r => !IsProtected(r));
    forall i | 0 <= i < |open|
      ensures !IsProtected(CleanRow(columns - {"id"}, open[i])) && "key" in CleanRow(columns - {"id"}, open[i])
    {
      assert open[i] in open;
      assert "key" in columns - {"id"} && (columns - {"id"})["key"] == columns["key"];
    }
  }

  lemma EmptiedKeepsProtected(settings: Table)
    ensures ProtectedRows(Emptied("app_settings", settings)) == ProtectedRows(settings)
  {
    FilterTwice(settings, r => Get(r, "key") == Null || IsProtected(r), r => IsProtected(r));
  }

  lemma SectionKeepsProtected(schema: Schema, p: Progress, s: Section)
    requires SettingsSchema(schema) && ImportSection(schema, p, s).Some?
    ensures ProtectedRows(TableOf(ImportSection(schema, p, s).value.db, "app_settings"))
            == ProtectedRows(TableOf(p.db, "app_settings"))
  {
    var section := SectionRows(schema, s);
    if section.Some? && TableName(s.key) == "app_settings" {
      var valid := section.value;
      assert valid != [];
      CleanedUnprotected(schema, s.rows);
      var rows := KeepNewest(valid, KeysFor(schema, "app_settings"));
      KeepNewestUnique(valid, KeysFor(schema, "app_settings"));
      forall r | r in rows ensures !IsProtected(r) && "key" in r {
        OnlyFrom(rows, valid, r);
      }
      EmptiedKeepsProtected(p.db["app_settings"]);
      if rows != [] {
        assert rows[0] in rows;
        InsertRowsUnprotected(
          schema.tables["app_settings"], rows[0].Keys, Emptied("app_settings", p.db["app_settings"]), rows);
      }
    }
  }

  /** No backup, tampered or not, changes a protected setting: the final check of the import never fires. */
  lemma {:induction false} ProtectedUnchanged(schema: Schema, p: Progress, data: Backup)
    requires SettingsSchema(schema) && ImportSections(schema, p, data).Some?
    ensures var after := ImportSections(schema, p, data).value.db;
            && ProtectedRows(TableOf(after, "app_settings")) == ProtectedRows(TableOf(p.db, "app_settings"))
            && ProtectedSettings(TableOf(after, "app_settings")) == ProtectedSettings(TableOf(p.db, "app_settings"))
    decreases |data|
  {
    if data != [] {
      SectionKeepsProtected(schema, p, data[0]);
      ProtectedUnchanged(schema, ImportSection(schema, p, data[0]).value, data[1..]);
      ValuesFromRows(TableOf(p.db, "app_settings"));
      ValuesFromRows(TableOf(ImportSection(schema, p, data[0]).value.db, "app_settings"));
    }
  }

  // ---------------------------------------------------------------- tables the import never writes

  lemma SectionWritesOneTable(schema: Schema, p: Progress, s: Section)
    requires ImportSection(schema, p, s).Some?
    ensures var next := ImportSection(schema, p, s).value;
            && next.db.Keys == p.db.Keys
            && (forall name :: name in p.db && (SectionRows(schema, s).None? || name != TableName(s.key)) ==>
                  next.db[name] == p.db[name])
            && (forall name :: name in next.imported ==> name in p.imported || (s.key in EXPORT_KEYS && name == TableName(s.key)))
            && p.imported.Keys <= next.imported.Keys
  {
  }

  lemma {:induction false} OtherTablesUntouched(schema: Schema, p: Progress, data: Backup, name: string)
    requires ImportSections(schema, p, data).Some? && name in p.db
    requires forall key :: key in EXPORT_KEYS ==> TableName(key) != name
    ensures var after := ImportSections(schema, p, data).value;
            after.db.Keys == p.db.Keys && after.db[name] == p.db[name] && (name in after.imported ==> name in p.imported)
    decreases |data|
  {
    if data != [] {
      SectionWritesOneTable(schema, p, data[0]);
      OtherTablesUntouched(schema, ImportSection(schema, p, data[0]).value, data[1..], name);
    }
  }

  lemma {:induction false} TablesStay(schema: Schema, p: Progress, data: Backup)
    requires ImportSections(schema, p, data).Some?
    ensures ImportSections(schema, p, data).value.db.Keys == p.db.Keys
    decreases |data|
  {
    if data != [] {
      SectionWritesOneTable(schema, p, data[0]);
      TablesStay(schema, ImportSection(schema, p, data[0]).value, data[1..]);
    }
  }

  lemma CleanupLeaves(db: Database, name: string)
    requires name in db && name !in CLEANED
    ensures name in Cleanup(db) && Cleanup(db)[name] == db[name]
  {
  }

  lemma ImportParts(schema: Schema, db: Database, data: Backup) returns (p: Progress)
    requires Import(schema, db, data).Some?
    ensures NEEDED <= db.Keys && ImportSections(schema, Progress(db, map[], map[]), data) == Some(p)
    ensures p.db.Keys == db.Keys
    ensures Import(schema, db, data)
            == Some(p.(db := Cleanup(Detach(p.db, Identities(db["devices"]), p.imported.Keys))))
  {
    p := ImportSections(schema, Progress(db, map[], map[]), data).value;
    TablesStay(schema, Progress(db, map[], map[]), data);
  }

  /** The detaching touches only tables bound to devices. */
  lemma DetachLeaves(db: Database, before: map<Value, Identity>, restored: set<string>, name: string)
    requires name in db
    requires name !in {"agent_tokens", "device_interfaces", "device_history", "ssh_profiles", "ssh_history"}
    requires name == "rack_ports" ==> name in restored
    ensures Detach(db, before, restored).Keys == db.Keys && Detach(db, before, restored)[name] == db[name]
  {
  }

  /**
   After any import an agent token is there exactly when it was before and its device id names the same
   device as before: no import ever adds a token.
   */
  lemma ImportKeepsTokens(schema: Schema, db: Database, data: Backup, token: Row)
    requires Import(schema, db, data).Some? && "devices" in db && Null !in Identities(db["devices"])
    ensures var after := Import(schema, db, data).value.db;
            && "agent_tokens" in db && "agent_tokens" in after && "devices" in after
            && var was, now, device := Identities(db["devices"]), Identities(after["devices"]), Get(token, "device_id");
               token in after["agent_tokens"]
               <==> (token in db["agent_tokens"] && (device in was ==> device in now && SameDevice(was[device], now[device])))
  {
    hide Import, ImportSections, Detach, Cleanup, Identities, SameDevice;
    var p := ImportParts(schema, db, data);
    var was := Identities(db["devices"]);
    NoTokenSection();
    OtherTablesUntouched(schema, Progress(db, map[], map[]), data, "agent_tokens");
    TokenSurvives(p.db, was, p.imported.Keys, token);
    DetachLeaves(p.db, was, p.imported.Keys, "devices");
    var d := Detach(p.db, was, p.imported.Keys);
    CleanupLeaves(d, "agent_tokens");
    CleanupLeaves(d, "devices");
  }

  /** The master token, the administrator's password and the mark of a finished set-up are after any import as before. */
  lemma SecretsStay(schema: Schema, db: Database, data: Backup, r: Row)
    requires SettingsSchema(schema) && Import(schema, db, data).Some?
    requires Get(r, "key") in {Text("api.master_token"), Text("api.admin_password"), Text("setup.complete")}
    ensures var after := Import(schema, db, data).value.db;
            "app_settings" in db && "app_settings" in after && (r in after["app_settings"] <==> r in db["app_settings"])
  {
    var p := ImportParts(schema, db, data);
    ProtectedUnchanged(schema, Progress(db, map[], map[]), data);
    assert IsProtected(r);
    assert r in ProtectedRows(p.db["app_settings"]) <==> r in p.db["app_settings"];
    assert r in ProtectedRows(db["app_settings"]) <==> r in db["app_settings"];
    hide Import, ImportSections, Detach, Cleanup, Identities, SettingsSchema, ProtectedRows, IsProtected;
    DetachLeaves(p.db, Identities(db["devices"]), p.imported.Keys, "app_settings");
    SettingsNotCleaned();
    CleanupLeaves(Detach(p.db, Identities(db["devices"]), p.imported.Keys), "app_settings");
  }

  lemma SettingsNotCleaned()
    ensures "app_settings" !in CLEANED
  {
  }

  lemma NoTokenSection()
    ensures forall key :: key in EXPORT_KEYS ==> TableName(key) != "agent_tokens"
  {
  }

  /** Saved connections and their history stay; those of a reassigned device lose the binding and keep its address. */
  lemma ImportUnlinksConnections(schema: Schema, db: Database, data: Backup, name: string, i: nat)
    requires Import(schema, db, data).Some? && "devices" in db && Null !in Identities(db["devices"])
    requires name == "ssh_profiles" || name == "ssh_history"
    requires name in db && i < |db[name]|
    ensures var after := Import(schema, db, data).value.db;
            && "devices" in after && name in after && |after[name]| == |db[name]|
            && var was, now, device := Identities(db["devices"]), Identities(after["devices"]), Get(db[name][i], "device_id");
               after[name][i] == if IsReassigned(device, was, now) then Unlink(db[name][i], was) else db[name][i]
  {
    hide Import, ImportSections, Detach, Cleanup, Identities, SameDevice;
    var p := ImportParts(schema, db, data);
    var was := Identities(db["devices"]);
    NoConnectionSection(name);
    OtherTablesUntouched(schema, Progress(db, map[], map[]), data, name);
    Unlinked(p.db, was, p.imported.Keys, name, i);
    DetachLeaves(p.db, was, p.imported.Keys, "devices");
    var d := Detach(p.db, was, p.imported.Keys);
    CleanupLeaves(d, name);
    CleanupLeaves(d, "devices");
  }

  /**
   A saved connection of a reassigned device is opened to the same host after the import as before, exactly
   when it has a host of its own or the device's address had no blanks around it.
   */
  lemma ImportKeepsTargets(schema: Schema, db: Database, data: Backup, i: nat)
    requires Import(schema, db, data).Some? && "devices" in db && Null !in Identities(db["devices"])
    requires "ssh_profiles" in db && i < |db["ssh_profiles"]|
    requires var profile := db["ssh_profiles"][i];
             && (Get(profile, "host").Text? || Get(profile, "host") == Null) && Get(profile, "device_id") != Int(0)
             && var after := Import(schema, db, data).value.db;
                IsReassigned(Get(profile, "device_id"), Identities(db["devices"]), Identities(TableOf(after, "devices")))
    ensures var after := Import(schema, db, data).value.db;
            && "ssh_profiles" in after && i < |after["ssh_profiles"]|
            && var was, now := db["ssh_profiles"][i], after["ssh_profiles"][i];
               && var address := Addresses(db["devices"]);
                  && Get(was, "device_id") in address && Get(now, "device_id") == Null
                  && (EffectiveHost(now, Addresses(TableOf(after, "devices"))) == EffectiveHost(was, address)
                      <==> TextOf(was, "host") != ""
                           || Strip(address[Get(was, "device_id")]) == address[Get(was, "device_id")])
  {
    hide Import, Identities, Addresses, SameDevice, EffectiveHost, Unlink;
    var profile := db["ssh_profiles"][i];
    ImportUnlinksConnections(schema, db, data, "ssh_profiles", i);
    AddressOfIdentity(db["devices"], Get(profile, "device_id"));
    var after := Import(schema, db, data).value.db;
    DetachedTarget(profile, Identities(db["devices"]), Addresses(db["devices"]), Addresses(TableOf(after, "devices")));
  }

  lemma NoConnectionSection(name: string)
    requires name == "ssh_profiles" || name == "ssh_history"
    ensures forall key :: key in EXPORT_KEYS ==> TableName(key) != name
  {
  }

  lemma Unlinked(db: Database, before: map<Value, Identity>, restored: set<string>, name: string, i: nat)
    requires name in db && i < |db[name]| && Null !in before && (name == "ssh_profiles" || name == "ssh_history")
    ensures var now := Identities(TableOf(db, "devices"));
            var d, device := Detach(db, before, restored), Get(db[name][i], "device_id");
            && name in d && |d[name]| == |db[name]|
            && d[name][i] == if IsReassigned(device, before, now) then Unlink(db[name][i], before) else db[name][i]
  {
    assert DEVICE_BOUND_UNLINK[0] == "ssh_profiles" && DEVICE_BOUND_UNLINK[1] == "ssh_history";
    assert name in DEVICE_BOUND_UNLINK && name !in DEVICE_BOUND_DELETE;
  }

  // ---------------------------------------------------------------- closed references

  /** The columns through which racks and links refer to each other may not be empty. */
  ghost predicate ReferenceSchema(schema: Schema) {
    && Required(schema, "racks", "id") && Required(schema, "devices", "id")
    && Required(schema, "rack_items", "id") && Required(schema, "rack_items", "rack_id")
    && Required(schema, "rack_ports", "id")
    && Required(schema, "rack_cables", "a_port_id") && Required(schema, "rack_cables", "b_port_id")
    && Required(schema, "topology_links", "source_id") && Required(schema, "topology_links", "target_id")
  }

  ghost predicate Required(schema: Schema, table: string, column: string) {
    table in schema.tables && column in schema.tables[table].columns && schema.tables[table].columns[column].notNull
  }

  lemma {:induction false} InsertRowsFilled(info: TableInfo, named: set<string>, t: Table, rows: Table, column: string)
    requires column in info.columns && info.columns[column].notNull && Filled(t, column)
    ensures InsertRows(info, named, t, rows).Some? ==> Filled(InsertRows(info, named, t, rows).value, column)
    decreases |rows|
  {
    if rows != [] {
      var r := StoredRow(info, named, t, rows[0]);
      if Accepts(info, t, r) {
        InsertMembers(InsertUp(r, t), t, r);
        InsertRowsFilled(info, named, InsertUp(r, t), rows[1..], column);
      }
    }
  }

  lemma SectionFills(schema: Schema, p: Progress, s: Section, table: string, column: string)
    requires ImportSection(schema, p, s).Some? && Required(schema, table, column)
    requires table in p.db && Filled(p.db[table], column)
    ensures var next := ImportSection(schema, p, s).value;
            table in next.db && Filled(next.db[table], column)
  {
    SectionWritesOneTable(schema, p, s);
    var section := SectionRows(schema, s);
    if section.Some? && TableName(s.key) == table {
      var rows := KeepNewest(section.value, KeysFor(schema, table));
      var named := if rows == [] then {} else rows[0].Keys;
      InsertRowsFilled(schema.tables[table], named, Emptied(table, p.db[table]), rows, column);
    }
  }

  lemma {:induction false} SectionsFill(schema: Schema, p: Progress, data: Backup, table: string, column: string)
    requires ImportSections(schema, p, data).Some? && Required(schema, table, column)
    requires table in p.db && Filled(p.db[table], column)
    ensures var after := ImportSections(schema, p, data).value;
            table in after.db && Filled(after.db[table], column)
    decreases |data|
  {
    if data != [] {
      SectionFills(schema, p, data[0], table, column);
      SectionsFill(schema, ImportSection(schema, p, data[0]).value, data[1..], table, column);
    }
  }

  lemma PortsShrink(db: Database, before: map<Value, Identity>, restored: set<string>)
    requires HasTables(db)
    ensures "rack_ports" in Detach(db, before, restored)
    ensures Subset(Detach(db, before, restored)["rack_ports"], db["rack_ports"])
  {
  }

  lemma DetachKeepsKeyed(db: Database, before: map<Value, Identity>, restored: set<string>)
    requires HasTables(db) && Keyed(db)
    ensures HasTables(Detach(db, before, restored)) && Keyed(Detach(db, before, restored))
  {
    hide Detach, Filled;
    var d := Detach(db, before, restored);
    DetachLeaves(db, before, restored, "racks");
    DetachLeaves(db, before, restored, "devices");
    DetachLeaves(db, before, restored, "rack_items");
    DetachLeaves(db, before, restored, "rack_cables");
    DetachLeaves(db, before, restored, "topology_links");
    PortsShrink(db, before, restored);
    hide Subset;
    StillFilled(d["rack_ports"], db["rack_ports"], "id");
  }

  /**
   After any import every rack item, port, cable and link refers to rows that exist, although foreign keys were
   off and the detaching removed ports of its own just before.
   */
  lemma ImportCloses(schema: Schema, db: Database, data: Backup)
    requires ReferenceSchema(schema) && HasTables(db) && Keyed(db) && Import(schema, db, data).Some?
    ensures var after := Import(schema, db, data).value.db;
            HasTables(after) && Closed(after)
  {
    var p := ImportParts(schema, db, data);
    hide Import, ImportSections, Detach, Cleanup, Identities, Keyed, Closed, ReferenceSchema;
    KeyedSections(schema, db, data);
    DetachKeepsKeyed(p.db, Identities(db["devices"]), p.imported.Keys);
    CleanupCloses(Detach(p.db, Identities(db["devices"]), p.imported.Keys));
  }

  lemma KeyedSections(schema: Schema, db: Database, data: Backup)
    requires ReferenceSchema(schema) && HasTables(db) && Keyed(db)
    requires ImportSections(schema, Progress(db, map[], map[]), data).Some?
    ensures var after := ImportSections(schema, Progress(db, map[], map[]), data).value.db;
            HasTables(after) && Keyed(after)
  {
    var start := Progress(db, map[], map[]);
    TablesStay(schema, start, data);
    hide ImportSections, Filled, Required;
    SectionsFill(schema, start, data, "racks", "id");
    SectionsFill(schema, start, data, "devices", "id");
    SectionsFill(schema, start, data, "rack_items", "id");
    SectionsFill(schema, start, data, "rack_items", "rack_id");
    SectionsFill(schema, start, data, "rack_ports", "id");
    SectionsFill(schema, start, data, "rack_cables", "a_port_id");
    SectionsFill(schema, start, data, "rack_cables", "b_port_id");
    SectionsFill(schema, start, data, "topology_links", "source_id");
    SectionsFill(schema, start, data, "topology_links", "target_id");
  }

  // ---------------------------------------------------------------- links of services

  ghost predicate SafeLinks(t: Table, safeUrl: string -> bool) {
    forall r :: r in t ==> safeUrl(TextOf(r, "url_template"))
  }

  /** What the column holds when a backup does not bring it. */
  function UnnamedLink(info: TableInfo): string {
    if "url_template" in info.columns && info.columns["url_template"].sqlDefault.Text?
    then info.columns["url_template"].sqlDefault.s else ""
  }

  lemma CleanedLinksSafe(schema: Schema, rows: Table)
    requires schema.safeUrl("")
    ensures SafeLinks(CleanRows(schema, "services", rows), schema.safeUrl)
  {
    var cleaned := CleanRows(schema, "services", rows);
    forall i | 0 <= i < |cleaned| ensures schema.safeUrl(TextOf(cleaned[i], "url_template")) {
      var r := CleanRow(schema.tables["services"].columns, rows[i]);
      hide CleanRow;
      assert cleaned[i] == SafeLink(r, schema.safeUrl);
    }
  }

  lemma {:induction false} InsertRowsSafe(info: TableInfo, named: set<string>, t: Table, rows: Table, safeUrl: string -> bool)
    requires SafeLinks(t, safeUrl) && SafeLinks(rows, safeUrl) && safeUrl("") && safeUrl(UnnamedLink(info))
    ensures InsertRows(info, named, t, rows).Some? ==> SafeLinks(InsertRows(info, named, t, rows).value, safeUrl)
    decreases |rows|
  {
    if rows != [] {
      var r := StoredRow(info, named, t, rows[0]);
      assert rows[0] in rows && safeUrl(TextOf(r, "url_template"));
      if Accepts(info, t, r) {
        InsertMembers(InsertUp(r, t), t, r);
        hide StoredRow, Accepts;
        InsertRowsSafe(info, named, InsertUp(r, t), rows[1..], safeUrl);
      }
    }
  }

  lemma FewerLinksSafe(kept: Table, t: Table, safeUrl: string -> bool)
    requires multiset(kept) <= multiset(t) && SafeLinks(t, safeUrl)
    ensures SafeLinks(kept, safeUrl)
  {
    forall r | r in kept ensures r in t {
      assert r in multiset(kept);
    }
  }

  ghost predicate SafeSchema(schema: Schema) {
    schema.safeUrl("") && ("services" in schema.tables ==> schema.safeUrl(UnnamedLink(schema.tables["services"])))
  }

  lemma SectionLinksSafe(schema: Schema, p: Progress, s: Section)
    requires SafeSchema(schema) && ImportSection(schema, p, s).Some? && "services" in p.db
    ensures var next := ImportSection(schema, p, s).value;
            "services" in next.db
            && (next.db["services"] == p.db["services"] || SafeLinks(next.db["services"], schema.safeUrl))
  {
    SectionWritesOneTable(schema, p, s);
    var section := SectionRows(schema, s);
    if section.Some? && TableName(s.key) == "services" {
      CleanedLinksSafe(schema, s.rows);
      var rows := KeepNewest(section.value, KeysFor(schema, "services"));
      KeepNewestUnique(section.value, KeysFor(schema, "services"));
      FewerLinksSafe(rows, section.value, schema.safeUrl);
      var named := if rows == [] then {} else rows[0].Keys;
      hide SafeLinks, CleanRows, KeepNewest;
      NoLinks(schema.safeUrl);
      InsertRowsSafe(schema.tables["services"], named, [], rows, schema.safeUrl);
    }
  }

  lemma NoLinks(safeUrl: string -> bool)
    ensures SafeLinks([], safeUrl)
  {
  }

  lemma {:induction false} SectionsLinksSafe(schema: Schema, p: Progress, data: Backup)
    requires SafeSchema(schema) && ImportSections(schema, p, data).Some? && "services" in p.db
    ensures var after := ImportSections(schema, p, data).value;
            "services" in after.db
            && (after.db["services"] == p.db["services"] || SafeLinks(after.db["services"], schema.safeUrl))
    decreases |data|
  {
    hide SafeSchema, SafeLinks, ImportSection;
    if data != [] {
      SectionLinksSafe(schema, p, data[0]);
      SectionsLinksSafe(schema, ImportSection(schema, p, data[0]).value, data[1..]);
    }
  }

  /** After any import the services are those from before, or all their links are safe. */
  lemma ImportedLinksSafe(schema: Schema, db: Database, data: Backup)
    requires SafeSchema(schema) && Import(schema, db, data).Some? && "services" in db
    ensures var after := Import(schema, db, data).value.db;
            "services" in after && (after["services"] == db["services"] || SafeLinks(after["services"], schema.safeUrl))
  {
    hide Import, ImportSections, Detach, Cleanup, Identities, SafeLinks, SafeSchema;
    var p := ImportParts(schema, db, data);
    SectionsLinksSafe(schema, Progress(db, map[], map[]), data);
    DetachLeaves(p.db, Identities(db["devices"]), p.imported.Keys, "services");
    ServicesNotCleaned();
    CleanupLeaves(Detach(p.db, Identities(db["devices"]), p.imported.Keys), "services");
  }

  lemma ServicesNotCleaned()
    ensures "services" !in CLEANED
  {
  }
}
