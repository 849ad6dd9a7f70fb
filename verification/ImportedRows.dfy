/**
 What an import leaves in a table that the backup brings, row by row and column by column
 (backend/app/api/backup.py, _clean_rows and _write_db).
 */
module ImportedRows {
  import opened Wrappers
  import opened Rows
  import opened Duplicates
  import opened Cascade
  import opened DeviceIdentity
  import opened BackupImport
  import opened ImportSafety

  /**
   Column c of a stored row x, for row r of the backup and the row `first` whose columns the statement names: the
   value of the backup; what an empty NOT NULL column is filled with; or, not named, what the database fills in.
   */
  ghost predicate ColumnHolds(info: TableInfo, first: Row, r: Row, x: Row, c: string)
    requires c in info.columns
  {
    var column := info.columns[c];
    var named := column.notNull || c in first;
    && c in x
    && (named && Get(r, c) != Null ==> x[c] == Get(r, c))
    && (named && Get(r, c) == Null && column.notNull && (c != "id" || column.fill != Null) ==> x[c] == column.fill)
    && (named && Get(r, c) == Null && !column.notNull && c != "id" ==> x[c] == Null)
    && (!named && c != "id" ==> x[c] == column.sqlDefault)
    && (c == "id" && (!named || (Get(r, c) == Null && (!column.notNull || column.fill == Null))) ==> x[c].Int?)
  }

  /** All columns, but the links of services, which have a rule of their own. */
  ghost predicate Stored(schema: Schema, table: string, first: Row, r: Row, x: Row)
    requires table in schema.tables
  {
    var info := schema.tables[table];
    && x.Keys == info.columns.Keys
    && forall c :: c in info.columns && (table == "services" ==> c != "url_template") ==> ColumnHolds(info, first, r, x, c)
  }

  ghost predicate ComesFrom(schema: Schema, table: string, rows: Table, first: Row, x: Row)
    requires table in schema.tables
  {
    exists r :: r in rows && Stored(schema, table, first, r, x)
  }

  /** All rows come from the backup, with the columns of one row of it. */
  ghost predicate AllComeFrom(schema: Schema, table: string, rows: Table, t: Table)
    requires table in schema.tables
  {
    t == [] || exists first :: first in rows && forall x :: x in t ==> ComesFrom(schema, table, rows, first, x)
  }

  /** So a value for a column that is not required comes back if and only if that row has the column, or by chance. */
  lemma LaterColumnsAreLost(schema: Schema, table: string, first: Row, r: Row, x: Row, c: string)
    requires table in schema.tables && Stored(schema, table, first, r, x) && (table == "services" ==> c != "url_template")
    requires c in schema.tables[table].columns && !schema.tables[table].columns[c].notNull && c != "id" && Get(r, c) != Null
    ensures x[c] == Get(r, c) <==> c in first || schema.tables[table].columns[c].sqlDefault == Get(r, c)
  {
    assert ColumnHolds(schema.tables[table], first, r, x, c);
  }

  /** Required columns are not empty, the table's own condition holds, and neither ids nor unique keys repeat. */
  ghost predicate MeetsConstraints(info: TableInfo, t: Table) {
    && (forall i :: 0 <= i < |t| ==> info.check(t[i]))
    && (forall i, c :: 0 <= i < |t| && c in info.columns && info.columns[c].notNull ==> Get(t[i], c) != Null)
    && Apart(info, t)
  }

  ghost predicate Apart(info: TableInfo, t: Table) {
    forall i, j :: 0 <= i < j < |t| ==> Differ(info, t[i], t[j])
  }

  ghost predicate Differ(info: TableInfo, a: Row, b: Row) {
    Get(a, "id") != Get(b, "id") && !Conflict(a, b, info.unique)
  }

  lemma DifferBoth(info: TableInfo, a: Row, b: Row)
    ensures Differ(info, a, b) <==> Differ(info, b, a)
  {
    hide Conflict;
    ConflictSymmetric(a, b, info.unique);
  }

  lemma {:induction false} InsertUpApart(info: TableInfo, r: Row, t: Table)
    requires Apart(info, t) && forall x :: x in t ==> Differ(info, x, r)
    ensures Apart(info, InsertUp(r, t))
  {
    hide Differ, IdOf;
    if t == [] || IdOf(r) <= IdOf(t[0]) {
      forall i | 0 <= i < |t| ensures Differ(info, r, t[i]) {
        assert t[i] in t;
        DifferBoth(info, t[i], r);
      }
    } else {
      var rest := InsertUp(r, t[1..]);
      InsertUpApart(info, r, t[1..]);
      InsertMembers(rest, t[1..], r);
      hide InsertUp;
      assert t[0] in t;
      forall j | 0 <= j < |rest| ensures Differ(info, t[0], rest[j]) {
        assert rest[j] == r || rest[j] in t[1..];
        if rest[j] != r {
          var k :| 0 <= k < |t[1..]| && t[1..][k] == rest[j];
          assert t[k + 1] == rest[j];
        }
      }
      HeadApart(info, t[0], rest);
    }
  }

  lemma HeadApart(info: TableInfo, r: Row, rest: Table)
    requires Apart(info, rest) && forall j :: 0 <= j < |rest| ==> Differ(info, r, rest[j])
    ensures Apart(info, [r] + rest)
  {
    hide Differ;
  }

  lemma OneLonger(r: Row, t: Table)
    ensures |InsertUp(r, t)| == |t| + 1
  {
    var next := InsertUp(r, t);
    assert |multiset(next)| == |next| && |multiset(t) + multiset{r}| == |t| + 1;
  }

  lemma InsertUpMeets(info: TableInfo, r: Row, t: Table)
    requires MeetsConstraints(info, t) && Accepts(info, t, r)
    ensures MeetsConstraints(info, InsertUp(r, t)) && |InsertUp(r, t)| == |t| + 1
  {
    hide Conflict, Apart, InsertUp;
    OneLonger(r, t);
    InsertUpApart(info, r, t);
    InsertMembers(InsertUp(r, t), t, r);
    SameConstraints(info, r, t, InsertUp(r, t));
  }

  lemma SameConstraints(info: TableInfo, r: Row, t: Table, next: Table)
    requires MeetsConstraints(info, t) && Accepts(info, t, r) && Apart(info, next)
    requires forall x :: x in next <==> x == r || x in t
    ensures MeetsConstraints(info, next)
  {
    hide Conflict, Apart;
    forall i | 0 <= i < |next| ensures next[i] == r || exists k :: 0 <= k < |t| && t[k] == next[i] {
      assert next[i] in next;
    }
  }

  /** Whatever the rows: what is inserted keeps the constraints of the table, and nothing is left out. */
  lemma {:induction false} InsertedMeets(info: TableInfo, named: set<string>, t: Table, rows: Table)
    requires InsertRows(info, named, t, rows).Some? && MeetsConstraints(info, t)
    ensures MeetsConstraints(info, InsertRows(info, named, t, rows).value)
    ensures |InsertRows(info, named, t, rows).value| == |t| + |rows|
    decreases |rows|
  {
    hide MeetsConstraints, StoredRow, Accepts, InsertUp;
    if rows != [] {
      var r := StoredRow(info, named, t, rows[0]);
      InsertUpMeets(info, r, t);
      InsertedMeets(info, named, InsertUp(r, t), rows[1..]);
    }
  }

  /** The row as it is stored, for some table it was added to. */
  ghost predicate IsStored(info: TableInfo, named: set<string>, rows: Table, x: Row) {
    exists u: Table, k: nat :: k < |rows| && x == StoredRow(info, named, u, rows[k])
  }

  lemma {:induction false} InsertedFrom(info: TableInfo, named: set<string>, t: Table, rows: Table, x: Row)
    requires InsertRows(info, named, t, rows).Some? && x in InsertRows(info, named, t, rows).value
    ensures x in t || IsStored(info, named, rows, x)
    decreases |rows|
  {
    hide StoredRow, Accepts, InsertUp;
    if rows != [] {
      var r := StoredRow(info, named, t, rows[0]);
      InsertMembers(InsertUp(r, t), t, r);
      InsertedFrom(info, named, InsertUp(r, t), rows[1..], x);
      if IsStored(info, named, rows[1..], x) {
        var u: Table, k: nat :| k < |rows[1..]| && x == StoredRow(info, named, u, rows[1..][k]);
        assert rows[1..][k] == rows[k + 1];
      } else if x == r {
        assert x == StoredRow(info, named, t, rows[0]);
      }
    }
  }

  /** A cleaned row, but for the link of a service. */
  ghost predicate IsCleaned(schema: Schema, table: string, r: Row, y: Row)
    requires table in schema.tables
  {
    var clean := CleanRow(schema.tables[table].columns, r);
    forall c :: (table == "services" ==> c != "url_template") ==> (c in y <==> c in clean) && Get(y, c) == Get(clean, c)
  }

  lemma CleanedFrom(schema: Schema, table: string, rows: Table, y: Row) returns (r: Row)
    requires table in schema.tables && table != "app_settings" && y in CleanRows(schema, table, rows)
    ensures r in rows && IsCleaned(schema, table, r, y)
  {
    var cleaned := CleanRows(schema, table, rows);
    var i :| 0 <= i < |cleaned| && cleaned[i] == y;
    r := rows[i];
    hide CleanRow;
  }

  lemma StoredColumns(schema: Schema, table: string, first: Row, r: Row, y0: Row, y: Row, t: Table)
    requires table in schema.tables && IsCleaned(schema, table, first, y0) && IsCleaned(schema, table, r, y)
    ensures Stored(schema, table, first, r, StoredRow(schema.tables[table], y0.Keys, t, y))
  {
    var info := schema.tables[table];
    var x := StoredRow(info, y0.Keys, t, y);
    forall c | c in info.columns && (table == "services" ==> c != "url_template") ensures ColumnHolds(info, first, r, x, c) {
      CleanedColumn(info.columns, first, c);
      CleanedColumn(info.columns, r, c);
      assert c in y0.Keys <==> c in CleanRow(info.columns, first);
    }
  }

  /** Cleaning keeps what the backup says, fills what is required, and drops what the table does not know. */
  lemma CleanedColumn(columns: map<string, Column>, r: Row, c: string)
    ensures var clean := CleanRow(columns, r);
            && (c in clean <==> c in columns && (columns[c].notNull || c in r))
            && (c in clean && Get(r, c) != Null ==> clean[c] == Get(r, c))
            && (c in clean && Get(r, c) == Null && columns[c].notNull ==> clean[c] == columns[c].fill)
            && (c in clean && Get(r, c) == Null && !columns[c].notNull ==> clean[c] == Null)
  {
  }

  /** The table of a section that is not passed over holds rows of the backup only, as many as are counted. */
  lemma SectionArrives(schema: Schema, p: Progress, s: Section)
    requires ImportSection(schema, p, s).Some? && SectionRows(schema, s).Some? && s.key != "settings"
    ensures var next, name := ImportSection(schema, p, s).value, TableName(s.key);
            && name in next.db && name in schema.tables && name in next.imported
            && AllComeFrom(schema, name, s.rows, next.db[name])
            && MeetsConstraints(schema.tables[name], next.db[name])
            && next.imported[name] == |next.db[name]|
            && |next.db[name]| <= |s.rows|
            && (|next.db[name]| < |s.rows| ==>
                  name in next.duplicates && next.duplicates[name] == |s.rows| - |next.db[name]|)
  {
    var name, valid := TableName(s.key), SectionRows(schema, s).value;
    KeyIsName(s.key);
    var rows := KeepNewest(valid, KeysFor(schema, name));
    KeepNewestUnique(valid, KeysFor(schema, name));
    FewerRows(rows, valid);
    var info := schema.tables[name];
    var named := if rows == [] then {} else rows[0].Keys;
    assert Emptied(name, p.db[name]) == [];
    Empty(info);
    InsertedMeets(info, named, [], rows);
    assert |valid| == |s.rows|;
    hide KeepNewest, MeetsConstraints, InsertRows, Emptied, KeysFor;
    var t := ImportSection(schema, p, s).value.db[name];
    if t != [] {
      OnlyFrom(rows, valid, rows[0]);
      var first := CleanedFrom(schema, name, s.rows, rows[0]);
      forall x | x in t ensures ComesFrom(schema, name, s.rows, first, x) {
        RowArrives(schema, name, s.rows, valid, rows, first, x);
      }
    }
  }

  lemma RowArrives(schema: Schema, name: string, source: Table, valid: Table, rows: Table, first: Row, x: Row)
    requires name in schema.tables && name != "app_settings" && valid == CleanRows(schema, name, source)
    requires multiset(rows) <= multiset(valid) && (rows != [] ==> IsCleaned(schema, name, first, rows[0]))
    requires var named := if rows == [] then {} else rows[0].Keys;
             InsertRows(schema.tables[name], named, [], rows).Some? && x in InsertRows(schema.tables[name], named, [], rows).value
    ensures ComesFrom(schema, name, source, first, x)
  {
    hide CleanRows, InsertRows, IsCleaned, Stored, StoredRow;
    var info := schema.tables[name];
    var named := if rows == [] then {} else rows[0].Keys;
    InsertedFrom(info, named, [], rows, x);
    var u: Table, k: nat :| k < |rows| && x == StoredRow(info, named, u, rows[k]);
    OnlyFrom(rows, valid, rows[k]);
    var r := CleanedFrom(schema, name, source, rows[k]);
    StoredColumns(schema, name, first, r, rows[0], rows[k], u);
  }

  lemma Empty(info: TableInfo)
    ensures MeetsConstraints(info, [])
  {
  }

  lemma KeyIsName(key: string)
    requires key != "settings" && key in EXPORT_KEYS
    ensures TableName(key) == key && key != "app_settings"
  {
  }

  lemma FewerRows(kept: Table, t: Table)
    requires multiset(kept) <= multiset(t)
    ensures |kept| <= |t|
  {
    assert |multiset(t)| == |multiset(t) - multiset(kept)| + |multiset(kept)|;
    assert |multiset(kept)| == |kept| && |multiset(t)| == |t|;
  }

  // ---------------------------------------------------------------- the whole import

  /** What a table and its two counts look like is the same. */
  ghost predicate SameFor(p: Progress, q: Progress, name: string) {
    && name in p.db && name in q.db && q.db[name] == p.db[name]
    && name in p.imported && name in q.imported && q.imported[name] == p.imported[name]
    && (name in p.duplicates <==> name in q.duplicates)
    && (name in p.duplicates ==> q.duplicates[name] == p.duplicates[name])
  }

  lemma SectionLeaves(schema: Schema, p: Progress, s: Section, name: string)
    requires ImportSection(schema, p, s).Some? && name in p.db && name in p.imported && TableName(s.key) != name
    ensures SameFor(p, ImportSection(schema, p, s).value, name)
  {
    hide KeepNewest, CleanRows, InsertRows, Emptied, KeysFor;
  }

  lemma {:induction false} SectionsLeave(schema: Schema, p: Progress, data: Backup, name: string)
    requires ImportSections(schema, p, data).Some? && name in p.db && name in p.imported
    requires forall k :: 0 <= k < |data| ==> TableName(data[k].key) != name
    ensures SameFor(p, ImportSections(schema, p, data).value, name)
    decreases |data|
  {
    hide ImportSection;
    if data != [] {
      SectionLeaves(schema, p, data[0], name);
      SectionsLeave(schema, ImportSection(schema, p, data[0]).value, data[1..], name);
    }
  }

  /** All that is said of the table of a section. */
  ghost predicate Arrived(schema: Schema, p: Progress, s: Section) {
    var name := TableName(s.key);
    && name in p.db && name in schema.tables && name in p.imported
    && AllComeFrom(schema, name, s.rows, p.db[name])
    && MeetsConstraints(schema.tables[name], p.db[name])
    && p.imported[name] == |p.db[name]| <= |s.rows|
    && (p.imported[name] < |s.rows| ==> name in p.duplicates && p.duplicates[name] == |s.rows| - p.imported[name])
  }

  /** Of several sections for one table the last one counts. */
  ghost predicate LastFor(data: Backup, i: nat) {
    i < |data| && forall k :: i < k < |data| ==> TableName(data[k].key) != TableName(data[i].key)
  }

  lemma {:induction false} SectionsArrive(schema: Schema, p: Progress, data: Backup, i: nat)
    requires ImportSections(schema, p, data).Some? && LastFor(data, i)
    requires SectionRows(schema, data[i]).Some? && data[i].key != "settings"
    ensures Arrived(schema, ImportSections(schema, p, data).value, data[i])
    decreases |data|
  {
    hide ImportSection, SectionRows, AllComeFrom, MeetsConstraints;
    var next := ImportSection(schema, p, data[0]).value;
    if i == 0 {
      SectionArrives(schema, p, data[0]);
      SectionsLeave(schema, next, data[1..], TableName(data[0].key));
    } else {
      assert LastFor(data[1..], i - 1);
      SectionsArrive(schema, next, data[1..], i - 1);
    }
  }

  /** What the steps after the sections leave alone, if a section brought it. */
  lemma RestoredStays(db: Database, before: map<Value, Identity>, restored: set<string>, name: string)
    requires name in db && name in restored && name !in CLEANED && name in EXPORT_KEYS
    ensures name in Cleanup(Detach(db, before, restored)) && Cleanup(Detach(db, before, restored))[name] == db[name]
  {
    NotUnlinked(name);
    var d := Detach(db, before, restored);
    assert name in d && d[name] == db[name];
    hide Detach, Cleanup;
    CleanupLeaves(d, name);
  }

  lemma NotUnlinked(name: string)
    requires name in EXPORT_KEYS
    ensures name !in DEVICE_BOUND_UNLINK
  {
  }

  /**
   After an import a table that the backup brings holds rows of the backup and no others, each with the values of the
   backup; rows are left out as duplicates only, and counted.
   */
  lemma ImportArrives(schema: Schema, db: Database, data: Backup, i: nat)
    requires Import(schema, db, data).Some? && LastFor(data, i)
    requires SectionRows(schema, data[i]).Some? && data[i].key !in CLEANED && data[i].key != "settings"
    ensures Arrived(schema, Import(schema, db, data).value, data[i])
  {
    var p := ImportParts(schema, db, data);
    var name := data[i].key;
    KeyIsName(name);
    SectionsArrive(schema, Progress(db, map[], map[]), data, i);
    hide Import, ImportSections, Detach, Cleanup, Identities, AllComeFrom, MeetsConstraints, SectionRows;
    RestoredStays(p.db, Identities(db["devices"]), p.imported.Keys, name);
  }
}
