/**
 When the greedy pass of the import and the SQL form of the migration keep the same rows: always with one key
 set, always for the ports of the racks, and otherwise exactly if no chain of three rows comes in.
 */
module Agreement {
  import opened Rows
  import opened Duplicates

  lemma NotBoth(kept: Table, keys: seq<Columns>, a: Row, b: Row)
    requires Unique(kept, keys) && a in kept && Conflict(a, b, keys) && a != b
    ensures b !in kept
  {
    hide Conflict;
    ConflictSymmetric(a, b, keys);
    var i :| 0 <= i < |kept| && kept[i] == a;
    forall j | 0 <= j < |kept| ensures kept[j] != b {
      assert i < j ==> !Conflict(kept[i], kept[j], keys);
      assert j < i ==> !Conflict(kept[j], kept[i], keys);
    }
  }

  lemma KeptRow(t: Table, keys: seq<Columns>, r: Row)
    requires r in KeepNewest(t, keys)
    ensures r in t
  {
    KeepNewestUnique(t, keys);
    OnlyFrom(KeepNewest(t, keys), t, r);
  }

  /** A newer row that conflicts. */
  ghost predicate Rival(t: Table, keys: seq<Columns>, m: Row, r: Row) {
    m in t && IdOf(r) < IdOf(m) && Conflict(m, r, keys)
  }

  lemma DroppedForRival(t: Table, keys: seq<Columns>, r: Row) returns (m: Row)
    requires DistinctIds(t) && r in t && r !in KeepNewest(t, keys)
    ensures m in KeepNewest(t, keys) && Rival(t, keys, m, r)
  {
    hide Conflict, KeepNewest, Unique;
    KeepNewestUnique(t, keys);
    m := DroppedForNewer(t, keys, r);
    OnlyFrom(KeepNewest(t, keys), t, m);
    if IdOf(m) == IdOf(r) {
      SameRow(t, m, r);
    }
  }

  /** The import and the migration keep the same rows of the table. */
  ghost predicate Agree(t: Table, keys: seq<Columns>) {
    forall r :: r in KeepNewest(t, keys) <==> r in SqlKeepAll(t, keys)
  }

  // ---------------------------------------------------------------- the migration, key by key

  /** What is left when the first k key sets have had their turn. */
  function Stage(t: Table, keys: seq<Columns>, k: nat): Table
    requires k <= |keys|
  {
    if k == 0 then t else SqlKeep(Stage(t, keys, k - 1), keys[k - 1])
  }

  lemma {:induction false} StageAfterFirst(t: Table, keys: seq<Columns>, k: nat)
    requires 1 <= k <= |keys|
    ensures Stage(t, keys, k) == Stage(SqlKeep(t, keys[0]), keys[1..], k - 1)
    decreases k
  {
    hide SqlKeep;
    if k > 1 {
      StageAfterFirst(t, keys, k - 1);
    }
  }

  lemma {:induction false} LastStage(t: Table, keys: seq<Columns>)
    ensures Stage(t, keys, |keys|) == SqlKeepAll(t, keys)
    decreases |keys|
  {
    hide SqlKeep;
    if keys != [] {
      StageAfterFirst(t, keys, |keys|);
      LastStage(SqlKeep(t, keys[0]), keys[1..]);
    }
  }

  lemma {:induction false} StageShrinks(t: Table, keys: seq<Columns>, j: nat, k: nat)
    requires j <= k <= |keys|
    ensures forall r :: r in Stage(t, keys, k) ==> r in Stage(t, keys, j)
    decreases k
  {
    hide SqlKeep;
    if j < k {
      StageShrinks(t, keys, j, k - 1);
    }
  }

  lemma SqlKeepDistinct(t: Table, cols: Columns)
    requires DistinctIds(t)
    ensures DistinctIds(SqlKeep(t, cols))
  {
    FilterKeepsUnique(t, r => Null in KeyOf(r, cols) || exists m :: m in t && Newest(t, cols, m) && IdOf(m) == IdOf(r), []);
  }

  lemma {:induction false} StageDistinct(t: Table, keys: seq<Columns>, k: nat)
    requires DistinctIds(t) && k <= |keys|
    ensures DistinctIds(Stage(t, keys, k))
    decreases k
  {
    hide SqlKeep, DistinctIds;
    if k > 0 {
      StageDistinct(t, keys, k - 1);
      SqlKeepDistinct(Stage(t, keys, k - 1), keys[k - 1]);
    }
  }

  /** A row goes at a turn exactly when a newer one that is still there has the same key. */
  lemma TurnOf(t: Table, keys: seq<Columns>, k: nat, r: Row)
    requires DistinctIds(t) && k < |keys| && r in Stage(t, keys, k)
    ensures r !in Stage(t, keys, k + 1)
            <==> exists m :: m in Stage(t, keys, k) && Collide(m, r, keys[k]) && IdOf(r) < IdOf(m)
  {
    StageDistinct(t, keys, k);
    SqlKeepMembers(Stage(t, keys, k), keys[k], r);
  }

  lemma CollideConflicts(a: Row, b: Row, keys: seq<Columns>, k: nat)
    requires k < |keys| && Collide(a, b, keys[k])
    ensures Conflict(a, b, keys)
  {
  }

  // ---------------------------------------------------------------- chains

  /**
   Row 2 shares key k with row 1 and is newer; row 3 is newer still and conflicts with row 2 alone, and not on a
   key that has its turn before k. So row 2 takes row 1 with it before it goes itself.
   */
  ghost predicate Chain(keys: seq<Columns>, r1: Row, r2: Row, r3: Row, k: nat) {
    && k < |keys| && IdOf(r1) < IdOf(r2) < IdOf(r3)
    && Collide(r2, r1, keys[k]) && Conflict(r3, r2, keys) && !Conflict(r3, r1, keys)
    && forall j :: 0 <= j < k ==> !Collide(r3, r2, keys[j])
  }

  ghost predicate NoChains(t: Table, keys: seq<Columns>) {
    forall r1, r2, r3, k: nat :: r1 in t && r2 in t && r3 in t ==> !Chain(keys, r1, r2, r3, k)
  }

  /** Without chains a row the import keeps is there at every turn of the migration. */
  lemma {:induction false} KeptStays(t: Table, keys: seq<Columns>, r: Row, k: nat, top: int)
    requires DistinctIds(t) && NoChains(t, keys) && r in KeepNewest(t, keys) && k <= |keys|
    requires forall x :: x in t ==> IdOf(x) <= top
    ensures r in Stage(t, keys, k)
    decreases top - IdOf(r), k
  {
    hide Conflict, Collide, KeepNewest, Unique, Stage, DistinctIds, NoChains, IdOf;
    KeptRow(t, keys, r);
    if k == 0 {
      FirstStage(t, keys);
    } else {
      KeptStays(t, keys, r, k - 1, top);
      TurnOf(t, keys, k - 1, r);
      if m :| m in Stage(t, keys, k - 1) && Collide(m, r, keys[k - 1]) && IdOf(r) < IdOf(m) {
        var m2, j := GoesBefore(t, keys, r, m, k - 1);
        KeptStays(t, keys, m2, j, top);
        GoneSince(t, keys, j, m2, m, k - 1);
      }
    }
  }

  lemma FirstStage(t: Table, keys: seq<Columns>)
    ensures Stage(t, keys, 0) == t
  {
  }

  /** Without chains a rival of a kept row has itself a kept rival on an earlier key. */
  lemma GoesBefore(t: Table, keys: seq<Columns>, r: Row, m: Row, k: nat) returns (m2: Row, j: nat)
    requires DistinctIds(t) && NoChains(t, keys) && r in KeepNewest(t, keys) && k < |keys|
    requires m in Stage(t, keys, k) && Collide(m, r, keys[k]) && IdOf(r) < IdOf(m)
    ensures m2 in KeepNewest(t, keys) && IdOf(m) < IdOf(m2) && j < k && Collide(m2, m, keys[j])
  {
    hide Collide, KeepNewest, Unique, Stage, DistinctIds, IdOf;
    StageShrinks(t, keys, 0, k);
    FirstStage(t, keys);
    CollideConflicts(m, r, keys, k);
    hide Conflict;
    KeepNewestUnique(t, keys);
    KeptRow(t, keys, r);
    if m in KeepNewest(t, keys) {
      NotBoth(KeepNewest(t, keys), keys, m, r);
    }
    m2 := DroppedForRival(t, keys, m);
    if Conflict(m2, r, keys) {
      NotBoth(KeepNewest(t, keys), keys, m2, r);
    }
    assert !Chain(keys, r, m, m2, k);
    j :| 0 <= j < k && Collide(m2, m, keys[j]);
  }

  lemma GoneSince(t: Table, keys: seq<Columns>, j: nat, newer: Row, r: Row, k: nat)
    requires DistinctIds(t) && j < k <= |keys| && newer in Stage(t, keys, j) && Collide(newer, r, keys[j]) && IdOf(r) < IdOf(newer)
    ensures r !in Stage(t, keys, k)
  {
    hide Collide, DistinctIds, IdOf, Stage;
    StageShrinks(t, keys, j + 1, k);
    StageShrinks(t, keys, j, k);
    if r in Stage(t, keys, j) {
      TurnOf(t, keys, j, r);
    }
  }

  ghost function Top(t: Table): (top: int)
    ensures forall x :: x in t ==> IdOf(x) <= top
  {
    if t == [] then 0
    else
      var before := Top(t[1..]);
      assert t == [t[0]] + t[1..];
      if IdOf(t[0]) > before then IdOf(t[0]) else before
  }

  /** Where no chain comes in, the import and the migration keep the same rows, for any number of keys. */
  lemma WithoutChainsTheyAgree(t: Table, keys: seq<Columns>)
    requires DistinctIds(t) && NoChains(t, keys)
    ensures Agree(t, keys)
  {
    hide Conflict, Collide, KeepNewest, Stage, DistinctIds, NoChains, SqlKeepAll;
    LastStage(t, keys);
    forall r ensures r in KeepNewest(t, keys) <==> r in SqlKeepAll(t, keys) {
      if r in KeepNewest(t, keys) {
        KeptStays(t, keys, r, |keys|, Top(t));
      } else if r in Stage(t, keys, |keys|) {
        StageShrinks(t, keys, 0, |keys|);
        FirstStage(t, keys);
        TakenByKept(t, keys, r);
      }
    }
  }

  lemma TakenByKept(t: Table, keys: seq<Columns>, r: Row)
    requires DistinctIds(t) && NoChains(t, keys) && r in t && r !in KeepNewest(t, keys)
    ensures r !in Stage(t, keys, |keys|)
  {
    hide Collide, KeepNewest, Stage, DistinctIds, NoChains;
    var m := DroppedForRival(t, keys, r);
    var k :| 0 <= k < |keys| && Collide(m, r, keys[k]);
    KeptStays(t, keys, m, k, Top(t));
    GoneSince(t, keys, k, m, r, |keys|);
  }

  // ---------------------------------------------------------------- with a chain they differ

  lemma NoOther(t: Table, r1: Row, r2: Row, r3: Row)
    requires t == [r1, r2, r3]
    ensures forall r :: r in t <==> r == r1 || r == r2 || r == r3
  {
  }

  lemma ThreeDistinct(r1: Row, r2: Row, r3: Row)
    requires IdOf(r1) < IdOf(r2) < IdOf(r3)
    ensures DistinctIds([r1, r2, r3])
  {
  }

  /** The import, which goes from the newest down, keeps row 1: its only rival has gone. */
  lemma ImportSpares(keys: seq<Columns>, r1: Row, r2: Row, r3: Row, k: nat)
    requires Chain(keys, r1, r2, r3, k)
    ensures r1 in KeepNewest([r1, r2, r3], keys)
  {
    hide Conflict, Collide, KeepNewest, Unique, IdOf, DistinctIds;
    var t := [r1, r2, r3];
    NoOther(t, r1, r2, r3);
    ThreeDistinct(r1, r2, r3);
    KeepNewestUnique(t, keys);
    if r3 !in KeepNewest(t, keys) {
      var m := DroppedForRival(t, keys, r3);
    }
    if r1 !in KeepNewest(t, keys) {
      NotBoth(KeepNewest(t, keys), keys, r3, r2);
      var m := DroppedForRival(t, keys, r1);
    }
  }

  lemma {:induction false} SecondStays(keys: seq<Columns>, r1: Row, r2: Row, r3: Row, k: nat, i: nat)
    requires Chain(keys, r1, r2, r3, k) && i <= k
    ensures r2 in Stage([r1, r2, r3], keys, i)
    decreases i
  {
    hide Conflict, Collide, IdOf, DistinctIds, Stage;
    var t := [r1, r2, r3];
    NoOther(t, r1, r2, r3);
    ThreeDistinct(r1, r2, r3);
    FirstStage(t, keys);
    if i > 0 {
      SecondStays(keys, r1, r2, r3, k, i - 1);
      StageShrinks(t, keys, 0, i - 1);
      TurnOf(t, keys, i - 1, r2);
    }
  }

  /** The migration drops it for row 2, although row 2 then goes for row 3. */
  lemma MigrationDrops(keys: seq<Columns>, r1: Row, r2: Row, r3: Row, k: nat)
    requires Chain(keys, r1, r2, r3, k)
    ensures r1 !in SqlKeepAll([r1, r2, r3], keys)
  {
    hide Conflict, Collide, IdOf, DistinctIds, Stage;
    ThreeDistinct(r1, r2, r3);
    SecondStays(keys, r1, r2, r3, k, k);
    GoneSince([r1, r2, r3], keys, k, r2, r1, |keys|);
    LastStage([r1, r2, r3], keys);
  }

  ghost predicate Part(s: Table, t: Table) {
    DistinctIds(s) && forall r :: r in s ==> r in t
  }

  /**
   The two forms keep the same rows of every table that these rows can make up if and only if no three of them
   form a chain.
   */
  lemma AgreeUnlessChained(t: Table, keys: seq<Columns>)
    ensures (forall s :: Part(s, t) ==> Agree(s, keys)) <==> NoChains(t, keys)
  {
    hide Chain, DistinctIds, KeepNewest, SqlKeepAll;
    if NoChains(t, keys) {
      forall s | Part(s, t) ensures Agree(s, keys) {
        WithoutChainsTheyAgree(s, keys);
      }
    } else {
      var r1, r2, r3, k: nat :| r1 in t && r2 in t && r3 in t && Chain(keys, r1, r2, r3, k);
      ImportSpares(keys, r1, r2, r3, k);
      MigrationDrops(keys, r1, r2, r3, k);
      ChainRises(keys, r1, r2, r3, k);
      ThreeDistinct(r1, r2, r3);
      NoOther([r1, r2, r3], r1, r2, r3);
      assert Part([r1, r2, r3], t) && !Agree([r1, r2, r3], keys);
    }
  }

  lemma ChainRises(keys: seq<Columns>, r1: Row, r2: Row, r3: Row, k: nat)
    requires Chain(keys, r1, r2, r3, k)
    ensures IdOf(r1) < IdOf(r2) < IdOf(r3)
  {
  }

  // ---------------------------------------------------------------- the ports of the racks

  /** The unique keys of rack_ports, the only table of a backup with more than one. */
  const PORT_KEYS: seq<Columns> := [["device_id", "number"], ["rack_item_id", "number"]]

  /** CHECK ((device_id IS NULL) != (rack_item_id IS NULL)) */
  predicate OneOwner(r: Row) {
    (Get(r, "device_id") == Null) != (Get(r, "rack_item_id") == Null)
  }

  /** Two rows for one port: the same owner and number. */
  predicate SamePort(a: Row, b: Row) {
    && Get(a, "number") != Null && Get(a, "number") == Get(b, "number")
    && Get(a, "device_id") == Get(b, "device_id") && Get(a, "rack_item_id") == Get(b, "rack_item_id")
  }

  lemma PortCollision(a: Row, b: Row, column: string)
    ensures Collide(a, b, [column, "number"])
            <==> Get(a, column) != Null && Get(a, "number") != Null
                 && Get(a, column) == Get(b, column) && Get(a, "number") == Get(b, "number")
  {
    var x, y := KeyOf(a, [column, "number"]), KeyOf(b, [column, "number"]);
    assert x == [Get(a, column), Get(a, "number")] && y == [Get(b, column), Get(b, "number")];
    assert x[0] == Get(a, column) && x[1] == Get(a, "number") && y[0] == Get(b, column) && y[1] == Get(b, "number");
  }

  lemma PortConflict(a: Row, b: Row)
    ensures Conflict(a, b, PORT_KEYS)
            <==> Collide(a, b, ["device_id", "number"]) || Collide(a, b, ["rack_item_id", "number"])
  {
    hide Collide;
    assert PORT_KEYS[0] == ["device_id", "number"] && PORT_KEYS[1] == ["rack_item_id", "number"];
  }

  /** Conflicting ports have the same owner and number, so conflicts carry over. */
  lemma PortsDoNotChain(t: Table)
    requires forall r :: r in t ==> OneOwner(r)
    ensures NoChains(t, PORT_KEYS)
  {
    forall r1, r2, r3, k: nat | r1 in t && r2 in t && r3 in t ensures !Chain(PORT_KEYS, r1, r2, r3, k) {
      if Chain(PORT_KEYS, r1, r2, r3, k) {
        CollideConflicts(r2, r1, PORT_KEYS, k);
        PortConflicts(r1, r2);
        PortConflicts(r2, r3);
        PortConflicts(r1, r3);
      }
    }
  }

  lemma PortConflicts(a: Row, b: Row)
    requires OneOwner(a) && OneOwner(b)
    ensures Conflict(b, a, PORT_KEYS) <==> SamePort(a, b)
  {
    PortCollision(b, a, "device_id");
    PortCollision(b, a, "rack_item_id");
    PortConflict(b, a);
    hide Collide, Conflict;
  }

  /** So an import and the migration treat the ports alike. */
  lemma PortsAgree(t: Table)
    requires DistinctIds(t) && forall r :: r in t ==> OneOwner(r)
    ensures Agree(t, PORT_KEYS)
  {
    hide Agree, NoChains;
    PortsDoNotChain(t);
    WithoutChainsTheyAgree(t, PORT_KEYS);
  }

  /** A rival of a rival is a rival. */
  ghost predicate RivalsCarryOver(t: Table, keys: seq<Columns>) {
    forall r1, r2, r3 :: r1 in t && Rival(t, keys, r2, r1) && Rival(t, keys, r3, r2) ==> Rival(t, keys, r3, r1)
  }

  /** Then a row with a rival always has one that is kept. */
  lemma RivalDrops(t: Table, keys: seq<Columns>, m: Row, r: Row) returns (kept: Row)
    requires DistinctIds(t) && RivalsCarryOver(t, keys) && r in t && Rival(t, keys, m, r)
    ensures r !in KeepNewest(t, keys) && kept in KeepNewest(t, keys) && Rival(t, keys, kept, r)
  {
    hide Conflict, KeepNewest, Unique, IdOf, DistinctIds;
    kept := m;
    if m !in KeepNewest(t, keys) {
      kept := DroppedForRival(t, keys, m);
    }
    KeepNewestUnique(t, keys);
    NotBoth(KeepNewest(t, keys), keys, kept, r);
  }

  lemma KeptIffNoRival(t: Table, keys: seq<Columns>, r: Row)
    requires DistinctIds(t) && RivalsCarryOver(t, keys) && r in t
    ensures r in KeepNewest(t, keys) <==> forall m :: !Rival(t, keys, m, r)
  {
    hide Rival, RivalsCarryOver, KeepNewest, DistinctIds;
    if r !in KeepNewest(t, keys) {
      var m := DroppedForRival(t, keys, r);
    } else if m :| Rival(t, keys, m, r) {
      var kept := RivalDrops(t, keys, m, r);
    }
  }

  lemma PortRivals(t: Table, m: Row, r: Row)
    requires (forall x :: x in t ==> OneOwner(x)) && r in t
    ensures Rival(t, PORT_KEYS, m, r) <==> m in t && IdOf(r) < IdOf(m) && SamePort(r, m)
  {
    hide OneOwner, Conflict, SamePort, IdOf;
    if m in t {
      PortConflicts(r, m);
    }
  }

  lemma PortRivalsCarryOver(t: Table)
    requires forall x :: x in t ==> OneOwner(x)
    ensures RivalsCarryOver(t, PORT_KEYS)
  {
    hide OneOwner, Rival;
    forall r1, r2, r3 | r1 in t && Rival(t, PORT_KEYS, r2, r1) && Rival(t, PORT_KEYS, r3, r2)
      ensures Rival(t, PORT_KEYS, r3, r1)
    {
      PortRivals(t, r2, r1);
      PortRivals(t, r3, r2);
      PortRivals(t, r3, r1);
    }
  }

  /** Of the ports exactly those stay that no newer row describes. */
  lemma PortsKept(t: Table, r: Row)
    requires DistinctIds(t) && (forall x :: x in t ==> OneOwner(x)) && r in t
    ensures r in KeepNewest(t, PORT_KEYS) <==> forall m :: m in t && IdOf(r) < IdOf(m) ==> !SamePort(r, m)
  {
    PortRivalsCarryOver(t);
    hide Rival, KeepNewest, IdOf, DistinctIds, OneOwner, SamePort, RivalsCarryOver;
    KeptIffNoRival(t, PORT_KEYS, r);
    forall m ensures Rival(t, PORT_KEYS, m, r) <==> m in t && IdOf(r) < IdOf(m) && SamePort(r, m) {
      PortRivals(t, m, r);
    }
  }

  // ---------------------------------------------------------------- the tokens of the agents

  /** The unique keys of agent_tokens, which the migration treats and no backup restores. */
  const TOKEN_KEYS: seq<Columns> := [["device_id"], ["token"]]

  function TokenRow(id: int, device: int, token: string): Row {
    map["id" := Int(id), "device_id" := Int(device), "token" := Text(token)]
  }

  lemma TokenConflict(x: Row, y: Row, i: int, d: int, s: string, j: int, e: int, u: string)
    requires x == TokenRow(i, d, s) && y == TokenRow(j, e, u)
    ensures (Conflict(x, y, TOKEN_KEYS) <==> d == e || s == u) && (Collide(x, y, TOKEN_KEYS[0]) <==> d == e)
  {
    assert KeyOf(x, ["device_id"]) == [Int(d)] && KeyOf(y, ["device_id"]) == [Int(e)];
    assert KeyOf(x, ["token"]) == [Text(s)] && KeyOf(y, ["token"]) == [Text(u)];
    assert [Int(d)][0] == Int(d) && [Int(e)][0] == Int(e) && [Text(s)][0] == Text(s) && [Text(u)][0] == Text(u);
    assert Collide(x, y, TOKEN_KEYS[0]) <==> d == e;
    assert Collide(x, y, TOKEN_KEYS[1]) <==> s == u;
  }

  /** Of three tokens, two of one device and two alike, the migration keeps one; the rule of the import would keep two. */
  lemma TokensChain(a: string, b: string)
    requires a != b
    ensures var t := [TokenRow(1, 1, a), TokenRow(2, 1, b), TokenRow(3, 2, b)];
            TokenRow(1, 1, a) in KeepNewest(t, TOKEN_KEYS) && TokenRow(1, 1, a) !in SqlKeepAll(t, TOKEN_KEYS)
  {
    var r1, r2, r3 := TokenRow(1, 1, a), TokenRow(2, 1, b), TokenRow(3, 2, b);
    TokenConflict(r3, r2, 3, 2, b, 2, 1, b);
    TokenConflict(r3, r1, 3, 2, b, 1, 1, a);
    TokenConflict(r2, r1, 2, 1, b, 1, 1, a);
    assert IdOf(r1) == 1 && IdOf(r2) == 2 && IdOf(r3) == 3;
    hide Collide, Conflict, TokenRow, KeepNewest, SqlKeepAll;
    assert Chain(TOKEN_KEYS, r1, r2, r3, 0);
    ImportSpares(TOKEN_KEYS, r1, r2, r3, 0);
    MigrationDrops(TOKEN_KEYS, r1, r2, r3, 0);
  }
}
