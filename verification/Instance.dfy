/**
 The running instance: its tables, the export that reads them and the import that rewrites them inside one
 transaction (backend/app/api/backup.py, _read_db, _detach_reassigned_devices, _drop_* and _write_db).
 */
module Instance {
  import opened Wrappers
  import opened Rows
  import opened Duplicates
  import opened Cascade
  import opened DeviceIdentity
  import opened BackupImport
  import opened ImportSafety

  /** What an import reports to its caller. */
  datatype Report = Report(imported: map<string, nat>, duplicates: map<string, nat>, tokensRevoked: int, reassigned: set<Value>)

  datatype ImportError = MissingTable | RowRefused | ProtectedSettingsChanged

  // ---------------------------------------------------------------- unlinking device by device

  lemma UnlinkOneMore(t: Table, done: set<Value>, id: Value, before: map<Value, Identity>)
    requires done <= before.Keys && id in before
    ensures UnlinkBound(UnlinkBound(t, done, before), {id}, before) == UnlinkBound(t, done + {id}, before)
  {
    var once := UnlinkBound(t, done, before);
    forall i | 0 <= i < |t|
      ensures UnlinkBound(once, {id}, before)[i] == UnlinkBound(t, done + {id}, before)[i]
    {
      if BoundTo(t[i], done) {
        assert Get(once[i], "device_id") == Null;
      }
    }
  }

  lemma InsertNext(info: TableInfo, named: set<string>, t: Table, rows: Table, i: nat)
    requires i < |rows|
    ensures InsertRows(info, named, t, rows[i..])
            == var r := StoredRow(info, named, t, rows[i]);
               if Accepts(info, t, r) then InsertRows(info, named, InsertUp(r, t), rows[i + 1..]) else None
  {
    hide StoredRow, Accepts, InsertUp;
    assert rows[i..][0] == rows[i] && rows[i..][1..] == rows[i + 1..];
  }

  lemma NoRowsLeft(info: TableInfo, named: set<string>, t: Table, rows: Table)
    ensures InsertRows(info, named, t, rows[|rows|..]) == Some(t)
  {
  }

  class Instance {
    const schema: Schema
    var tables: Database

    constructor (schema: Schema, tables: Database)
      ensures this.schema == schema && this.tables == tables
    {
      this.schema := schema;
      this.tables := tables;
    }

    /** All tables a backup may restore, in the order of the export. */
    method ReadDb() returns (data: Backup)
      ensures data == Export(tables)
    {
      data := [Section("metadata", [])];
      var rest := ReadTables(EXPORT_KEYS);
      data := data + rest;
    }

    method ReadTables(keys: seq<string>) returns (data: Backup)
      ensures data == ExportTables(tables, keys)
    {
      hide ExportTable;
      data := [];
      for i := 0 to |keys|
        invariant data + ExportTables(tables, keys[i..]) == ExportTables(tables, keys)
      {
        assert keys[i..][0] == keys[i] && keys[i..][1..] == keys[i + 1..];
        data := data + ExportTable(tables, keys[i]);
      }
    }

    /** `executemany("INSERT ...")`; on a refused row the statements before it have already run. */
    method InsertAll(table: string, rows: Table) returns (ok: bool)
      requires table in tables && table in schema.tables
      modifies this`tables
      ensures var named := if rows == [] then {} else rows[0].Keys;
              match InsertRows(schema.tables[table], named, old(tables)[table], rows)
              case Some(t) => ok && tables == old(tables)[table := t]
              case None => !ok
    {
      hide InsertRows, StoredRow, Accepts, InsertUp;
      var info := schema.tables[table];
      var named := if rows == [] then {} else rows[0].Keys;
      assert rows[0..] == rows;
      for i := 0 to |rows|
        invariant table in tables && tables == old(tables)[table := tables[table]]
        invariant InsertRows(info, named, tables[table], rows[i..]) == InsertRows(info, named, old(tables)[table], rows)
      {
        var row := StoredRow(info, named, tables[table], rows[i]);
        InsertNext(info, named, tables[table], rows, i);
        if !Accepts(info, tables[table], row) {
          return false;
        }
        tables := tables[table := InsertUp(row, tables[table])];
      }
      NoRowsLeft(info, named, tables[table], rows);
      return true;
    }

    /** Drop or unbind what hangs on device ids that now name another device or none. */
    method DetachReassignedDevices(before: map<Value, Identity>, restored: set<string>) returns (ids: set<Value>)
      modifies this`tables
      ensures ids == Reassigned(before, Identities(TableOf(old(tables), "devices")))
      ensures tables == Detach(old(tables), before, restored)
    {
      ids := Reassigned(before, Identities(TableOf(tables, "devices")));
      ghost var start := tables;
      DeleteBound(DEVICE_BOUND_DELETE, ids, restored);
      ghost var deleted := tables;
      UnlinkTables(DEVICE_BOUND_UNLINK, ids, before);
      DetachedInTwoSteps(start, deleted, tables, before, restored, ids);
    }

    /** `DELETE FROM <table> WHERE device_id IN (...)` for each table, except those the backup restored. */
    method DeleteBound(names: seq<string>, ids: set<Value>, restored: set<string>)
      modifies this`tables
      ensures tables.Keys == old(tables).Keys
      ensures forall name :: name in tables ==>
        tables[name] == if name in names && name !in restored then WithoutBound(old(tables)[name], ids) else old(tables)[name]
    {
      hide WithoutBound;
      for i := 0 to |names|
        invariant tables.Keys == old(tables).Keys
        invariant forall name :: name in tables ==>
          tables[name] == if name in names[..i] && name !in restored then WithoutBound(old(tables)[name], ids)
                          else old(tables)[name]
      {
        var table := names[i];
        if table in tables && table !in restored {
          WithoutBoundTwice(old(tables)[table], ids);
          tables := tables[table := WithoutBound(tables[table], ids)];
        }
      }
    }

    method UnlinkTables(names: seq<string>, ids: set<Value>, before: map<Value, Identity>)
      requires ids <= before.Keys
      modifies this`tables
      ensures tables.Keys == old(tables).Keys
      ensures forall name :: name in tables ==>
        tables[name] == if name in names then UnlinkBound(old(tables)[name], ids, before) else old(tables)[name]
    {
      hide UnlinkBound;
      for i := 0 to |names|
        invariant tables.Keys == old(tables).Keys
        invariant forall name :: name in tables ==>
          tables[name] == if name in names[..i] then UnlinkBound(old(tables)[name], ids, before) else old(tables)[name]
      {
        var table := names[i];
        if table in tables {
          UnlinkBoundTwice(old(tables)[table], ids, before);
          UnlinkTable(table, ids, before);
        }
      }
    }

    /** One UPDATE per reassigned device. */
    method UnlinkTable(table: string, ids: set<Value>, before: map<Value, Identity>)
      requires table in tables && ids <= before.Keys
      modifies this`tables
      ensures tables == old(tables)[table := UnlinkBound(old(tables)[table], ids, before)]
    {
      var rest := ids;
      assert ids - rest == {} && tables[table] == UnlinkBound(old(tables)[table], {}, before);
      while rest != {}
        invariant rest <= ids && table in tables
        invariant tables == old(tables)[table := UnlinkBound(old(tables)[table], ids - rest, before)]
      {
        var id :| id in rest;
        UnlinkOneMore(old(tables)[table], ids - rest, id, before);
        assert ids - rest + {id} == ids - (rest - {id});
        tables := tables[table := UnlinkBound(tables[table], {id}, before)];
        rest := rest - {id};
      }
      assert ids - rest == ids;
    }

    /** Deletes in the order of the references, each statement on what the one before left. */
    method DropOrphans()
      modifies this`tables
      ensures tables == DropOrphanedRackRows(old(tables))
    {
      if !(RACK_TABLES <= tables.Keys) {
        return;
      }
      tables := tables["rack_items" := KeepItems(tables["rack_items"], tables["racks"])];
      tables := tables["rack_ports" := KeepPorts(tables["rack_ports"], TableOf(tables, "devices"), tables["rack_items"])];
      tables := tables["rack_cables" := KeepCables(tables["rack_cables"], tables["rack_ports"])];
    }

    /** One section of the backup: empty its table and fill it again. */
    method ImportOne(s: Section, imported: map<string, nat>, duplicates: map<string, nat>)
      returns (failed: Option<ImportError>, imported': map<string, nat>, duplicates': map<string, nat>)
      modifies this`tables
      ensures match ImportSection(schema, Progress(old(tables), imported, duplicates), s)
              case None => failed.Some?
              case Some(p) => failed.None? && p == Progress(tables, imported', duplicates')
    {
      hide SectionRows, KeepNewest, InsertRows, Emptied, TableName, KeysFor;
      imported', duplicates' := imported, duplicates;
      var section := SectionRows(schema, s);
      if section.None? {
        return None, imported, duplicates;
      }
      var table := TableName(s.key);
      var rows, dropped := DropDuplicates(section.value, KeysFor(schema, table));
      if dropped > 0 {
        duplicates' := duplicates[table := dropped];
      }
      if table !in tables || table !in schema.tables {
        return Some(MissingTable), imported, duplicates;
      }
      tables := tables[table := Emptied(table, tables[table])];
      var ok := InsertAll(table, rows);
      if !ok {
        return Some(RowRefused), imported, duplicates;
      }
      imported' := imported[table := |rows|];
      return None, imported', duplicates';
    }

    /**
     Replace the allowed tables with the backup's rows. Either all of it happens or nothing: any error
     brings back the tables as they were.
     */
    method WriteDb(data: Backup) returns (result: Result<Report, ImportError>)
      modifies this`tables
      ensures match Import(schema, old(tables), data)
              case None => result.Failure? && tables == old(tables)
              case Some(p) =>
                && result.Success? && tables == p.db
                && result.value.imported == p.imported && result.value.duplicates == p.duplicates
                && result.value.tokensRevoked == |TableOf(old(tables), "agent_tokens")| - |TableOf(p.db, "agent_tokens")|
                && result.value.reassigned
                   == Reassigned(Identities(TableOf(old(tables), "devices")), Identities(TableOf(p.db, "devices")))
    {
      hide ImportSection, DropDanglingLinks, DropOrphanedRackRows, Detach, Identities, ProtectedSettings;
      var saved := tables;
      if !(NEEDED <= tables.Keys) {
        return Failure(MissingTable);
      }
      var protectedBefore := ProtectedSettings(tables["app_settings"]);
      var devicesBefore := Identities(tables["devices"]);
      var tokensBefore := |tables["agent_tokens"]|;
      var imported: map<string, nat>, duplicates: map<string, nat> := map[], map[];
      for i := 0 to |data|
        invariant ImportSections(schema, Progress(tables, imported, duplicates), data[i..])
                  == ImportSections(schema, Progress(saved, map[], map[]), data)
      {
        assert data[i..][0] == data[i] && data[i..][1..] == data[i + 1..];
        var failed, imported', duplicates' := ImportOne(data[i], imported, duplicates);
        if failed.Some? {
          tables := saved;
          return Failure(failed.value);
        }
        imported, duplicates := imported', duplicates';
      }
      assert data[|data|..] == [];
      if ProtectedSettings(TableOf(tables, "app_settings")) != protectedBefore {
        tables := saved;
        return Failure(ProtectedSettingsChanged);
      }
      ghost var sections := tables;
      var reassigned := DetachReassignedDevices(devicesBefore, imported.Keys);
      DevicesStay(sections, devicesBefore, imported.Keys);
      DropOrphans();
      tables := DropDanglingLinks(tables);
      var revoked := tokensBefore - |TableOf(tables, "agent_tokens")|;
      return Success(Report(imported, duplicates, revoked, reassigned));
    }
  }

  lemma DevicesStay(db: Database, before: map<Value, Identity>, restored: set<string>)
    ensures TableOf(Cleanup(Detach(db, before, restored)), "devices") == TableOf(db, "devices")
  {
    var d := Detach(db, before, restored);
    if "devices" in db {
      DetachLeaves(db, before, restored, "devices");
      CleanupLeaves(d, "devices");
    } else {
      NoNewTable(db, before, restored);
    }
  }

  lemma NoNewTable(db: Database, before: map<Value, Identity>, restored: set<string>)
    requires "devices" !in db
    ensures "devices" !in Cleanup(Detach(db, before, restored))
  {
    hide Detached;
    assert Detach(db, before, restored).Keys == db.Keys;
  }

  lemma WithoutBoundTwice(t: Table, ids: set<Value>)
    ensures WithoutBound(WithoutBound(t, ids), ids) == WithoutBound(t, ids)
  {
    FilterAll(WithoutBound(t, ids), r => !BoundTo(r, ids));
  }

  lemma UnlinkBoundTwice(t: Table, ids: set<Value>, before: map<Value, Identity>)
    requires ids <= before.Keys
    ensures UnlinkBound(UnlinkBound(t, ids, before), ids, before) == UnlinkBound(t, ids, before)
  {
    var once := UnlinkBound(t, ids, before);
    forall i | 0 <= i < |t| ensures UnlinkBound(once, ids, before)[i] == once[i] {
      if BoundTo(t[i], ids) {
        assert Get(once[i], "device_id") == Null;
      }
    }
  }

  /** No table is on both lists, so deleting first and unlinking then is what Detach says. */
  lemma DetachedInTwoSteps(
    start: Database, deleted: Database, done: Database, before: map<Value, Identity>, restored: set<string>, ids: set<Value>
  )
    requires start.Keys == deleted.Keys == done.Keys && ids == Reassigned(before, Identities(TableOf(start, "devices")))
    requires forall name :: name in start ==>
      deleted[name] == if name in DEVICE_BOUND_DELETE && name !in restored then WithoutBound(start[name], ids) else start[name]
    requires forall name :: name in start ==>
      done[name] == if name in DEVICE_BOUND_UNLINK then UnlinkBound(deleted[name], ids, before) else deleted[name]
    ensures done == Detach(start, before, restored)
  {
    DisjointLists();
    hide WithoutBound, UnlinkBound, IsReassigned, Identities;
    forall name | name in start ensures done[name] == Detached(name, start[name], ids, before, restored) {}
  }

  lemma DisjointLists()
    ensures forall name :: name in DEVICE_BOUND_DELETE ==> name !in DEVICE_BOUND_UNLINK
  {
  }
}
