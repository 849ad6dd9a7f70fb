/**
 Restoring a backup (backend/app/api/backup.py, _read_db, _clean_rows and _write_db): the allowed tables are
 replaced with the rows of the backup inside one transaction, then what the old rows left behind is cleaned up.
 */
module BackupImport {
  import opened Wrappers
  import opened Rows
  import opened Duplicates
  import opened Cascade
  import opened DeviceIdentity

  /** A column: NOT NULL or not, what an older backup gets for it, and what the database fills in by itself. */
  datatype Column = Column(notNull: bool, fill: Value, sqlDefault: Value)

  /** A live table: its columns, the keys it keeps unique besides its id, and its CHECK constraint. */
  datatype TableInfo = TableInfo(columns: map<string, Column>, unique: seq<Columns>, check: Row -> bool)

  /** The live tables, the unique keys of the models, and the test for safe service links. */
  datatype Schema = Schema(tables: map<string, TableInfo>, keys: map<string, seq<Columns>>, safeUrl: string -> bool)

  datatype Section = Section(key: string, rows: Table)

  type Backup = seq<Section>

  /** The backup keys in the order in which an export writes them. */
  const EXPORT_KEYS: seq<string> := [
    "device_groups", "devices", "services", "discovered_hosts", "settings", "device_interfaces", "agent_configs",
    "subnets", "topology_links", "racks", "rack_items", "rack_ports", "rack_cables"]

  const REPLACE_WHEN_EMPTY: set<string> := {"rack_items", "rack_ports", "rack_cables"}

  const PROTECTED_SETTING_KEYS: set<Value> :=
    {Text("api.master_token"), Text("api.admin_password"), Text("setup.complete")}

  /** The backup key of the settings differs from the name of their table. */
  function TableName(key: string): string {
    if key == "settings" then "app_settings" else key
  }

  function KeysFor(schema: Schema, table: string): seq<Columns> {
    if table in schema.keys then schema.keys[table] else []
  }

  predicate IsProtected(r: Row) {
    Get(r, "key") in PROTECTED_SETTING_KEYS
  }

  /** The current values of the protected settings. */
  function ProtectedSettings(settings: Table): map<Value, Value> {
    if settings == [] then map[]
    else
      var before, last := ProtectedSettings(settings[..|settings| - 1]), settings[|settings| - 1];
      if IsProtected(last) then before[Get(last, "key") := Get(last, "value")] else before
  }

  // ---------------------------------------------------------------- export

  /** The section of one key: an older database may lack a table, and then some keys are written empty. */
  function ExportTable(db: Database, key: string): Backup {
    if TableName(key) in db then [Section(key, db[TableName(key)])]
    else if key in EXPORT_KEYS[..5] then [Section(key, [])]
    else []
  }

  function ExportTables(db: Database, keys: seq<string>): Backup {
    if keys == [] then [] else ExportTable(db, keys[0]) + ExportTables(db, keys[1..])
  }

  function Export(db: Database): Backup {
    [Section("metadata", [])] + ExportTables(db, EXPORT_KEYS)
  }

  // ---------------------------------------------------------------- one table

  /** Known columns only; a NOT NULL column the backup left empty is filled. */
  function CleanRow(columns: map<string, Column>, r: Row): Row {
    map c | c in columns && (columns[c].notNull || c in r) ::
      if Get(r, c) != Null then Get(r, c) else if columns[c].notNull then columns[c].fill else Null
  }

  function SafeLink(r: Row, safeUrl: string -> bool): Row {
    if safeUrl(TextOf(r, "url_template")) then r else r["url_template" := Text("")]
  }

  function CleanRows(schema: Schema, table: string, rows: Table): Table {
    if table !in schema.tables then []
    else
      var columns := schema.tables[table].columns;
      if table == "app_settings" then
        var open := Filter(rows, r => !IsProtected(r));
        seq(|open|, i requires 0 <= i < |open| => CleanRow(columns - {"id"}, open[i]))
      else
        seq(|rows|, i requires 0 <= i < |rows| =>
          var r := CleanRow(columns, rows[i]);
          if table == "services" then SafeLink(r, schema.safeUrl) else r)
  }

  /** The id the database gives to a row that comes without one. */
  function NextId(t: Table): int {
    if t == [] then 1 else IdOf(t[|t| - 1]) + 1
  }

  /** The row as it is stored: the statement names the columns of the first row of the table. */
  function StoredRow(info: TableInfo, named: set<string>, t: Table, r: Row): Row {
    map c | c in info.columns ::
      if c in named && !(c == "id" && Get(r, c) == Null) then Get(r, c)
      else if c == "id" then Int(NextId(t))
      else info.columns[c].sqlDefault
  }

  predicate Accepts(info: TableInfo, t: Table, r: Row) {
    && (forall c :: c in info.columns && info.columns[c].notNull ==> Get(r, c) != Null)
    && info.check(r)
    && (forall x :: x in t ==> Get(x, "id") != Get(r, "id") && !Conflict(x, r, info.unique))
  }

  function InsertRows(info: TableInfo, named: set<string>, t: Table, rows: Table): Option<Table>
    decreases |rows|
  {
    if rows == [] then Some(t)
    else
      var r := StoredRow(info, named, t, rows[0]);
      if Accepts(info, t, r) then InsertRows(info, named, InsertUp(r, t), rows[1..]) else None
  }

  /** `DELETE FROM app_settings WHERE key NOT IN (...)`, or everything for the other tables. */
  function Emptied(table: string, t: Table): Table {
    if table == "app_settings" then Filter(t, r => Get(r, "key") == Null || IsProtected(r)) else []
  }

  function ReplaceRows(schema: Schema, db: Database, table: string, rows: Table): Option<Database> {
    if table !in db || table !in schema.tables then None
    else
      var named := if rows == [] then {} else rows[0].Keys;
      match InsertRows(schema.tables[table], named, Emptied(table, db[table]), rows)
      case None => None
      case Some(t) => Some(db[table := t])
  }

  // ---------------------------------------------------------------- the whole backup

  datatype Progress = Progress(db: Database, imported: map<string, nat>, duplicates: map<string, nat>)

  /** The rows a section brings to its table, or nothing when the section is passed over. */
  function SectionRows(schema: Schema, s: Section): Option<Table> {
    if s.key == "metadata" || s.key !in EXPORT_KEYS || (s.rows == [] && s.key !in REPLACE_WHEN_EMPTY) then None
    else
      var valid := CleanRows(schema, TableName(s.key), s.rows);
      if valid == [] && s.key !in REPLACE_WHEN_EMPTY then None else Some(valid)
  }

  function ImportSection(schema: Schema, p: Progress, s: Section): Option<Progress> {
    match SectionRows(schema, s)
    case None => Some(p)
    case Some(valid) =>
      var table := TableName(s.key);
      var rows := KeepNewest(valid, KeysFor(schema, table));
      match ReplaceRows(schema, p.db, table, rows)
      case None => None
      case Some(db) =>
        var dropped := |valid| - |rows|;
        Some(Progress(db, p.imported[table := |rows|],
                      if dropped > 0 then p.duplicates[table := dropped] else p.duplicates))
  }

  function ImportSections(schema: Schema, p: Progress, data: Backup): Option<Progress>
    decreases |data|
  {
    if data == [] then Some(p)
    else match ImportSection(schema, p, data[0])
      case None => None
      case Some(next) => ImportSections(schema, next, data[1..])
  }

  const NEEDED: set<string> := {"app_settings", "devices", "agent_tokens", "topology_links"}

  /** The result of an import, or nothing when it fails. */
  function Import(schema: Schema, db: Database, data: Backup): Option<Progress> {
    if !(NEEDED <= db.Keys) then None
    else match ImportSections(schema, Progress(db, map[], map[]), data)
      case None => None
      case Some(p) =>
        if ProtectedSettings(TableOf(p.db, "app_settings")) != ProtectedSettings(db["app_settings"]) then None
        else Some(p.(db := Cleanup(Detach(p.db, Identities(db["devices"]), p.imported.Keys))))
  }
}
