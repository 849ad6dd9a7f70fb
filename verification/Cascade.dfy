/**
 What the import does instead of ON DELETE CASCADE, since it runs with foreign keys off
 (backend/app/api/backup.py, _drop_orphaned_rack_rows and _drop_dangling_links).
 */
module Cascade {
  import opened Rows

  type Database = map<string, Table>

  function TableOf(db: Database, name: string): Table {
    if name in db then db[name] else []
  }

  /** SQL's `v NOT IN (SELECT ...)`: neither true nor false, so not true, once an empty value is involved. */
  predicate NotIn(v: Value, ids: set<Value>) {
    ids == {} || (v != Null && Null !in ids && v !in ids)
  }

  predicate ItemOrphaned(r: Row, racks: set<Value>) {
    NotIn(Get(r, "rack_id"), racks)
  }

  predicate PortOrphaned(r: Row, devices: set<Value>, items: set<Value>) {
    || (Get(r, "device_id") != Null && NotIn(Get(r, "device_id"), devices))
    || (Get(r, "rack_item_id") != Null && NotIn(Get(r, "rack_item_id"), items))
  }

  predicate CableOrphaned(r: Row, ports: set<Value>) {
    NotIn(Get(r, "a_port_id"), ports) || NotIn(Get(r, "b_port_id"), ports)
  }

  predicate LinkDangling(r: Row, devices: set<Value>) {
    NotIn(Get(r, "source_id"), devices) || NotIn(Get(r, "target_id"), devices)
  }

  const RACK_TABLES: set<string> := {"racks", "rack_items", "rack_ports", "rack_cables"}

  function KeepItems(items: Table, racks: Table): Table {
    Filter(items, r => !ItemOrphaned(r, Ids(racks)))
  }

  function KeepPorts(ports: Table, devices: Table, items: Table): Table {
    Filter(ports, r => !PortOrphaned(r, Ids(devices), Ids(items)))
  }

  function KeepCables(cables: Table, ports: Table): Table {
    Filter(cables, r => !CableOrphaned(r, Ids(ports)))
  }

  function KeepLinks(links: Table, devices: Table): Table {
    Filter(links, r => !LinkDangling(r, Ids(devices)))
  }

  /** Items, then ports, then cables, each against what the step before left. */
  function DropOrphanedRackRows(db: Database): Database {
    if !(RACK_TABLES <= db.Keys) then db
    else
      var items := KeepItems(db["rack_items"], db["racks"]);
      var ports := KeepPorts(db["rack_ports"], TableOf(db, "devices"), items);
      var cables := KeepCables(db["rack_cables"], ports);
      db["rack_items" := items]["rack_ports" := ports]["rack_cables" := cables]
  }

  function DropDanglingLinks(db: Database): Database {
    if "topology_links" !in db then db
    else db["topology_links" := KeepLinks(db["topology_links"], TableOf(db, "devices"))]
  }

  function Cleanup(db: Database): Database {
    DropDanglingLinks(DropOrphanedRackRows(db))
  }

  /** The tables the clean-up works on exist. */
  ghost predicate HasTables(db: Database) {
    RACK_TABLES + {"topology_links", "devices"} <= db.Keys
  }

  const CLEANED: set<string> := {"rack_items", "rack_ports", "rack_cables", "topology_links"}

  /**
   SQL with empty values, which only a damaged table holds: without racks every item goes; a rack without an id keeps
   them all; and an item that names no rack stays while there are racks.
   */
  lemma EmptyReferences(items: Table, racks: Table, r: Row)
    ensures racks == [] ==> KeepItems(items, racks) == []
    ensures Null in Ids(racks) ==> KeepItems(items, racks) == items
    ensures racks != [] && r in items && Get(r, "rack_id") == Null ==> r in KeepItems(items, racks)
  {
    if racks == [] {
      FilterNone(items, x => !ItemOrphaned(x, Ids(racks)));
    } else {
      assert Get(racks[0], "id") in Ids(racks);
      if Null in Ids(racks) {
        FilterAll(items, x => !ItemOrphaned(x, Ids(racks)));
      }
    }
  }

  /** The clean-up table by table. */
  lemma CleanupTables(db: Database)
    requires HasTables(db)
    ensures var c := Cleanup(db);
            && c.Keys == db.Keys && HasTables(c)
            && (forall name :: name in db && name !in CLEANED ==> c[name] == db[name])
            && c["rack_items"] == KeepItems(db["rack_items"], db["racks"])
            && c["rack_ports"] == KeepPorts(db["rack_ports"], db["devices"], c["rack_items"])
            && c["rack_cables"] == KeepCables(db["rack_cables"], c["rack_ports"])
            && c["topology_links"] == KeepLinks(db["topology_links"], db["devices"])
  {
    hide KeepItems, KeepPorts, KeepCables, KeepLinks;
  }

  // ---------------------------------------------------------------- what foreign keys demand

  /** A reference names an existing row or nothing at all. */
  predicate Refers(v: Value, t: Table) {
    v == Null || v in Ids(t)
  }

  ghost predicate ItemsClosed(items: Table, racks: Table) {
    forall r :: r in items ==> Refers(Get(r, "rack_id"), racks)
  }

  ghost predicate PortsClosed(ports: Table, devices: Table, items: Table) {
    forall r :: r in ports ==> Refers(Get(r, "device_id"), devices) && Refers(Get(r, "rack_item_id"), items)
  }

  ghost predicate CablesClosed(cables: Table, ports: Table) {
    forall r :: r in cables ==> Refers(Get(r, "a_port_id"), ports) && Refers(Get(r, "b_port_id"), ports)
  }

  ghost predicate LinksClosed(links: Table, devices: Table) {
    forall r :: r in links ==> Refers(Get(r, "source_id"), devices) && Refers(Get(r, "target_id"), devices)
  }

  /** Every reference among rack items, ports, cables and links is kept. */
  ghost predicate Closed(db: Database)
    requires HasTables(db)
  {
    && ItemsClosed(db["rack_items"], db["racks"])
    && PortsClosed(db["rack_ports"], db["devices"], db["rack_items"])
    && CablesClosed(db["rack_cables"], db["rack_ports"])
    && LinksClosed(db["topology_links"], db["devices"])
  }

  ghost predicate Filled(t: Table, column: string) {
    forall r :: r in t ==> Get(r, column) != Null
  }

  /** No column that the schema declares NOT NULL is empty, as far as the clean-up looks at it. */
  ghost predicate Keyed(db: Database)
    requires HasTables(db)
  {
    && Filled(db["racks"], "id") && Filled(db["devices"], "id")
    && Filled(db["rack_items"], "id") && Filled(db["rack_items"], "rack_id")
    && Filled(db["rack_ports"], "id")
    && Filled(db["rack_cables"], "a_port_id") && Filled(db["rack_cables"], "b_port_id")
    && Filled(db["topology_links"], "source_id") && Filled(db["topology_links"], "target_id")
  }

  ghost predicate Subset(a: Table, b: Table) {
    forall r :: r in a ==> r in b
  }

  /** `part` lacks some rows of the cleaned tables, and is otherwise the same database. */
  ghost predicate Part(part: Database, whole: Database)
    requires HasTables(whole)
  {
    && part.Keys == whole.Keys
    && (forall name :: name in whole && name !in CLEANED ==> part[name] == whole[name])
    && Subset(part["rack_items"], whole["rack_items"]) && Subset(part["rack_ports"], whole["rack_ports"])
    && Subset(part["rack_cables"], whole["rack_cables"]) && Subset(part["topology_links"], whole["topology_links"])
  }

  lemma OrphanedMeansLost(v: Value, t: Table)
    requires Filled(t, "id")
    ensures (v != Null && NotIn(v, Ids(t))) <==> !Refers(v, t)
  {
  }

  lemma ItemsKept(items: Table, racks: Table, r: Row)
    requires Filled(racks, "id") && Filled(items, "rack_id")
    ensures r in KeepItems(items, racks) <==> r in items && Refers(Get(r, "rack_id"), racks)
  {
    OrphanedMeansLost(Get(r, "rack_id"), racks);
  }

  lemma PortsKept(ports: Table, devices: Table, items: Table, r: Row)
    requires Filled(devices, "id") && Filled(items, "id")
    ensures r in KeepPorts(ports, devices, items) <==>
              (r in ports && Refers(Get(r, "device_id"), devices) && Refers(Get(r, "rack_item_id"), items))
  {
    OrphanedMeansLost(Get(r, "device_id"), devices);
    OrphanedMeansLost(Get(r, "rack_item_id"), items);
  }

  lemma CablesKept(cables: Table, ports: Table, r: Row)
    requires Filled(ports, "id") && Filled(cables, "a_port_id") && Filled(cables, "b_port_id")
    ensures r in KeepCables(cables, ports) <==>
              (r in cables && Refers(Get(r, "a_port_id"), ports) && Refers(Get(r, "b_port_id"), ports))
  {
    OrphanedMeansLost(Get(r, "a_port_id"), ports);
    OrphanedMeansLost(Get(r, "b_port_id"), ports);
  }

  lemma LinksKept(links: Table, devices: Table, r: Row)
    requires Filled(devices, "id") && Filled(links, "source_id") && Filled(links, "target_id")
    ensures r in KeepLinks(links, devices) <==>
              (r in links && Refers(Get(r, "source_id"), devices) && Refers(Get(r, "target_id"), devices))
  {
    OrphanedMeansLost(Get(r, "source_id"), devices);
    OrphanedMeansLost(Get(r, "target_id"), devices);
  }

  lemma StillFilled(a: Table, b: Table, column: string)
    requires Subset(a, b) && Filled(b, column)
    ensures Filled(a, column)
  {
  }

  /** Which rows the clean-up leaves, in terms of references. */
  lemma CleanupRows(db: Database, r: Row)
    requires HasTables(db) && Keyed(db)
    ensures var c := Cleanup(db);
            && HasTables(c)
            && (r in c["rack_items"] <==> (r in db["rack_items"] && Refers(Get(r, "rack_id"), db["racks"])))
            && (r in c["rack_ports"] <==>
                  (r in db["rack_ports"] && Refers(Get(r, "device_id"), db["devices"])
                   && Refers(Get(r, "rack_item_id"), c["rack_items"])))
            && (r in c["rack_cables"] <==>
                  (r in db["rack_cables"] && Refers(Get(r, "a_port_id"), c["rack_ports"])
                   && Refers(Get(r, "b_port_id"), c["rack_ports"])))
            && (r in c["topology_links"] <==>
                  (r in db["topology_links"] && Refers(Get(r, "source_id"), db["devices"])
                   && Refers(Get(r, "target_id"), db["devices"])))
  {
    CleanupTables(db);
    var c := Cleanup(db);
    StillFilled(c["rack_items"], db["rack_items"], "id");
    StillFilled(c["rack_ports"], db["rack_ports"], "id");
    hide Cleanup, Filled, Refers, KeepItems, KeepPorts, KeepCables, KeepLinks;
    ItemsKept(db["rack_items"], db["racks"], r);
    PortsKept(db["rack_ports"], db["devices"], c["rack_items"], r);
    CablesKept(db["rack_cables"], c["rack_ports"], r);
    LinksKept(db["topology_links"], db["devices"], r);
  }

  /** After one pass no reference is broken. */
  lemma CleanupCloses(db: Database)
    requires HasTables(db) && Keyed(db)
    ensures HasTables(Cleanup(db)) && Closed(Cleanup(db)) && Part(Cleanup(db), db)
  {
    hide Cleanup, Keyed, Refers, KeepItems, KeepPorts, KeepCables, KeepLinks;
    CleanupTables(db);
    forall r { CleanupRows(db, r); }
  }

  lemma RefersMore(v: Value, small: Table, large: Table)
    requires Refers(v, small) && Subset(small, large)
    ensures Refers(v, large)
  {
  }

  /** Nothing is deleted without need: whatever can be kept with all references intact is kept. */
  lemma CleanupIsLargest(db: Database, part: Database)
    requires HasTables(db) && Keyed(db) && Part(part, db) && Closed(part)
    ensures HasTables(Cleanup(db)) && Part(part, Cleanup(db))
  {
    hide Cleanup, Keyed, Refers, KeepItems, KeepPorts, KeepCables, KeepLinks;
    CleanupTables(db);
    var c := Cleanup(db);
    forall r | r in part["rack_items"] ensures r in c["rack_items"] {
      CleanupRows(db, r);
    }
    forall r | r in part["rack_ports"] ensures r in c["rack_ports"] {
      CleanupRows(db, r);
      RefersMore(Get(r, "rack_item_id"), part["rack_items"], c["rack_items"]);
    }
    forall r | r in part["rack_cables"] ensures r in c["rack_cables"] {
      CleanupRows(db, r);
      RefersMore(Get(r, "a_port_id"), part["rack_ports"], c["rack_ports"]);
      RefersMore(Get(r, "b_port_id"), part["rack_ports"], c["rack_ports"]);
    }
    forall r | r in part["topology_links"] ensures r in c["topology_links"] {
      CleanupRows(db, r);
    }
  }

  // ---------------------------------------------------------------- the cascade, round by round

  /** The tables of the cascade. */
  datatype Cascading = Cascading(
    racks: Table, devices: Table, items: Table, ports: Table, cables: Table, links: Table)

  ghost function CascadingOf(db: Database): Cascading
    requires HasTables(db)
  {
    Cascading(db["racks"], db["devices"], db["rack_items"], db["rack_ports"], db["rack_cables"], db["topology_links"])
  }

  ghost function FkItems(items: Table, racks: Table): Table {
    Filter(items, r => Refers(Get(r, "rack_id"), racks))
  }

  ghost function FkPorts(ports: Table, devices: Table, items: Table): Table {
    Filter(ports, r => Refers(Get(r, "device_id"), devices) && Refers(Get(r, "rack_item_id"), items))
  }

  ghost function FkCables(cables: Table, ports: Table): Table {
    Filter(cables, r => Refers(Get(r, "a_port_id"), ports) && Refers(Get(r, "b_port_id"), ports))
  }

  ghost function FkLinks(links: Table, devices: Table): Table {
    Filter(links, r => Refers(Get(r, "source_id"), devices) && Refers(Get(r, "target_id"), devices))
  }

  /** One round of cascading: every row that references a missing row goes, all at once. */
  ghost function Round(c: Cascading): Cascading {
    c.(items := FkItems(c.items, c.racks), ports := FkPorts(c.ports, c.devices, c.items),
       cables := FkCables(c.cables, c.ports), links := FkLinks(c.links, c.devices))
  }

  ghost function Rounds(c: Cascading, n: nat): Cascading {
    if n == 0 then c else Round(Rounds(c, n - 1))
  }

  lemma ItemsSettle(items: Table, racks: Table)
    ensures FkItems(FkItems(items, racks), racks) == FkItems(items, racks)
  {
    FilterAll(FkItems(items, racks), r => Refers(Get(r, "rack_id"), racks));
  }

  lemma LinksSettle(links: Table, devices: Table)
    ensures FkLinks(FkLinks(links, devices), devices) == FkLinks(links, devices)
  {
    FilterAll(FkLinks(links, devices), r => Refers(Get(r, "source_id"), devices) && Refers(Get(r, "target_id"), devices));
  }

  /** Filtering by references into a table and then into a part of it is filtering by the part. */
  lemma PortsSettle(ports: Table, devices: Table, large: Table, small: Table)
    requires Subset(small, large)
    ensures FkPorts(FkPorts(ports, devices, large), devices, small) == FkPorts(ports, devices, small)
  {
    var weak := (r: Row) => Refers(Get(r, "device_id"), devices) && Refers(Get(r, "rack_item_id"), large);
    var strong := (r: Row) => Refers(Get(r, "device_id"), devices) && Refers(Get(r, "rack_item_id"), small);
    forall r | strong(r) ensures weak(r) {
      RefersMore(Get(r, "rack_item_id"), small, large);
    }
    FilterTwice(ports, weak, strong);
  }

  lemma CablesSettle(cables: Table, large: Table, small: Table)
    requires Subset(small, large)
    ensures FkCables(FkCables(cables, large), small) == FkCables(cables, small)
  {
    var weak := (r: Row) => Refers(Get(r, "a_port_id"), large) && Refers(Get(r, "b_port_id"), large);
    var strong := (r: Row) => Refers(Get(r, "a_port_id"), small) && Refers(Get(r, "b_port_id"), small);
    forall r | strong(r) ensures weak(r) {
      RefersMore(Get(r, "a_port_id"), small, large);
      RefersMore(Get(r, "b_port_id"), small, large);
    }
    FilterTwice(cables, weak, strong);
  }

  /** What one ordered pass over items, ports and cables leaves. */
  ghost function OnePass(c: Cascading): Cascading {
    var items := FkItems(c.items, c.racks);
    var ports := FkPorts(c.ports, c.devices, items);
    c.(items := items, ports := ports, cables := FkCables(c.cables, ports), links := FkLinks(c.links, c.devices))
  }

  /** A pass in the order of the references does in one go what the cascade does in three rounds. */
  lemma ThreeRounds(c: Cascading)
    ensures Rounds(c, 3) == OnePass(c) && Round(OnePass(c)) == OnePass(c)
  {
    hide Refers;
    assert Rounds(c, 1) == Round(c) by { assert Rounds(c, 0) == c; }
    assert Rounds(c, 2) == Round(Round(c));
    assert Rounds(c, 3) == Round(Round(Round(c)));
    var items := FkItems(c.items, c.racks);
    var ports1 := FkPorts(c.ports, c.devices, c.items);
    var ports := FkPorts(c.ports, c.devices, items);
    ItemsSettle(c.items, c.racks);
    LinksSettle(c.links, c.devices);
    PortsSettle(c.ports, c.devices, c.items, items);
    PortsSettle(c.ports, c.devices, items, items);
    FewerPorts(c.ports, c.devices, c.items, items);
    CablesSettle(c.cables, c.ports, ports1);
    CablesSettle(c.cables, ports1, ports);
    CablesSettle(c.cables, ports, ports);
    hide FkItems, FkPorts, FkCables, FkLinks, Subset;
  }

  lemma FewerPorts(ports: Table, devices: Table, large: Table, small: Table)
    requires Subset(small, large)
    ensures Subset(FkPorts(ports, devices, small), FkPorts(ports, devices, large))
    ensures Subset(FkPorts(ports, devices, large), ports)
  {
    forall r | r in FkPorts(ports, devices, small) ensures r in FkPorts(ports, devices, large) {
      RefersMore(Get(r, "rack_item_id"), small, large);
    }
  }

  lemma {:induction false} CascadeSettles(c: Cascading, n: nat)
    requires 3 <= n
    ensures Rounds(c, n) == OnePass(c)
  {
    ThreeRounds(c);
    hide Round, OnePass;
    if n > 3 {
      CascadeSettles(c, n - 1);
    }
  }

  /** The clean-up is the fixpoint of the cascade: three rounds or more leave the same tables. */
  lemma CleanupIsCascade(db: Database, n: nat)
    requires HasTables(db) && Keyed(db) && 3 <= n
    ensures HasTables(Cleanup(db)) && CascadingOf(Cleanup(db)) == Rounds(CascadingOf(db), n)
  {
    CleanupTables(db);
    CascadeSettles(CascadingOf(db), n);
    var c := Cleanup(db);
    StillFilled(c["rack_items"], db["rack_items"], "id");
    StillFilled(c["rack_ports"], db["rack_ports"], "id");
    hide Cleanup, Rounds;
    KeepIsFkItems(db["rack_items"], db["racks"]);
    KeepIsFkPorts(db["rack_ports"], db["devices"], c["rack_items"]);
    KeepIsFkCables(db["rack_cables"], c["rack_ports"]);
    KeepIsFkLinks(db["topology_links"], db["devices"]);
  }

  lemma KeepIsFkItems(items: Table, racks: Table)
    requires Filled(racks, "id") && Filled(items, "rack_id")
    ensures KeepItems(items, racks) == FkItems(items, racks)
  {
    forall r | r in items ensures !ItemOrphaned(r, Ids(racks)) == Refers(Get(r, "rack_id"), racks) {
      OrphanedMeansLost(Get(r, "rack_id"), racks);
    }
    FilterAgree(items, r => !ItemOrphaned(r, Ids(racks)), r => Refers(Get(r, "rack_id"), racks));
  }

  lemma KeepIsFkPorts(ports: Table, devices: Table, items: Table)
    requires Filled(devices, "id") && Filled(items, "id")
    ensures KeepPorts(ports, devices, items) == FkPorts(ports, devices, items)
  {
    forall r | r in ports
      ensures !PortOrphaned(r, Ids(devices), Ids(items))
              == (Refers(Get(r, "device_id"), devices) && Refers(Get(r, "rack_item_id"), items))
    {
      OrphanedMeansLost(Get(r, "device_id"), devices);
      OrphanedMeansLost(Get(r, "rack_item_id"), items);
    }
    FilterAgree(ports, r => !PortOrphaned(r, Ids(devices), Ids(items)),
                r => Refers(Get(r, "device_id"), devices) && Refers(Get(r, "rack_item_id"), items));
  }

  lemma KeepIsFkCables(cables: Table, ports: Table)
    requires Filled(ports, "id") && Filled(cables, "a_port_id") && Filled(cables, "b_port_id")
    ensures KeepCables(cables, ports) == FkCables(cables, ports)
  {
    forall r | r in cables
      ensures !CableOrphaned(r, Ids(ports)) == (Refers(Get(r, "a_port_id"), ports) && Refers(Get(r, "b_port_id"), ports))
    {
      OrphanedMeansLost(Get(r, "a_port_id"), ports);
      OrphanedMeansLost(Get(r, "b_port_id"), ports);
    }
    FilterAgree(cables, r => !CableOrphaned(r, Ids(ports)),
                r => Refers(Get(r, "a_port_id"), ports) && Refers(Get(r, "b_port_id"), ports));
  }

  lemma KeepIsFkLinks(links: Table, devices: Table)
    requires Filled(devices, "id") && Filled(links, "source_id") && Filled(links, "target_id")
    ensures KeepLinks(links, devices) == FkLinks(links, devices)
  {
    forall r | r in links
      ensures !LinkDangling(r, Ids(devices))
              == (Refers(Get(r, "source_id"), devices) && Refers(Get(r, "target_id"), devices))
    {
      OrphanedMeansLost(Get(r, "source_id"), devices);
      OrphanedMeansLost(Get(r, "target_id"), devices);
    }
    FilterAgree(links, r => !LinkDangling(r, Ids(devices)),
                r => Refers(Get(r, "source_id"), devices) && Refers(Get(r, "target_id"), devices));
  }
}
