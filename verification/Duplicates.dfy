/**
 Duplicate rows: the greedy pass of the backup import (backend/app/api/backup.py, _drop_duplicates) and
 the SQL form of the start-up migration (backend/app/database/migrations.py, _deduplicate_and_index).
 */
module Duplicates {
  import opened Rows

  /** The columns of one unique key. */
  type Columns = seq<string>

  function KeyOf(r: Row, cols: Columns): (key: seq<Value>)
    ensures |key| == |cols|
  {
    seq(|cols|, i requires 0 <= i < |cols| => Get(r, cols[i]))
  }

  /** Two rows collide on a key: no column of it is empty and the values are the same. */
  predicate Collide(a: Row, b: Row, cols: Columns) {
    Null !in KeyOf(a, cols) && KeyOf(a, cols) == KeyOf(b, cols)
  }

  predicate Conflict(a: Row, b: Row, keys: seq<Columns>) {
    exists k :: 0 <= k < |keys| && Collide(a, b, keys[k])
  }

  predicate AgreeOn(a: Row, b: Row, cols: Columns) {
    forall c :: c in cols ==> Get(a, c) == Get(b, c) != Null
  }

  /** Rows conflict when they agree on all columns of one key, and none of these is empty. */
  lemma ConflictMeans(a: Row, b: Row, keys: seq<Columns>)
    ensures Conflict(a, b, keys)
            <==> exists k :: 0 <= k < |keys| && AgreeOn(a, b, keys[k])
  {
    forall k | 0 <= k < |keys| ensures Collide(a, b, keys[k]) <==> AgreeOn(a, b, keys[k]) {
      CollideMeans(a, b, keys[k]);
    }
  }

  lemma CollideMeans(a: Row, b: Row, cols: Columns)
    ensures Collide(a, b, cols) <==> AgreeOn(a, b, cols)
  {
    var x, y := KeyOf(a, cols), KeyOf(b, cols);
    assert forall i :: 0 <= i < |cols| ==> x[i] == Get(a, cols[i]) && y[i] == Get(b, cols[i]);
    if Collide(a, b, cols) {
      forall c | c in cols ensures Get(a, c) == Get(b, c) != Null {
        var i :| 0 <= i < |cols| && cols[i] == c;
        assert x[i] in x && x[i] == y[i];
      }
    }
  }

  /** No two rows of the table collide on a key. */
  ghost predicate Unique(t: Table, keys: seq<Columns>) {
    forall i, j :: 0 <= i < j < |t| ==> !Conflict(t[i], t[j], keys)
  }

  // ---------------------------------------------------------------- the greedy pass of the import

  /** Take the rows one after another, leaving out those that conflict with one already kept. */
  function Greedy(t: Table, keys: seq<Columns>): (kept: Table)
    ensures forall r :: r in kept ==> r in t
  {
    if t == [] then []
    else
      var before, r := Greedy(t[..|t| - 1], keys), t[|t| - 1];
      if exists a :: a in before && Conflict(a, r, keys) then before else before + [r]
  }

  /** What the import keeps: the newest first, without conflicts, back in the order of the ids. */
  function KeepNewest(t: Table, keys: seq<Columns>): Table {
    if keys == [] then t else SortUp(Greedy(SortDown(t), keys))
  }

  lemma {:induction false} GreedyUnique(t: Table, keys: seq<Columns>)
    ensures Unique(Greedy(t, keys), keys)
  {
    if t != [] {
      GreedyUnique(t[..|t| - 1], keys);
    }
  }

  lemma {:induction false} GreedyExplains(t: Table, keys: seq<Columns>, i: nat)
    requires i < |t| && t[i] !in Greedy(t, keys)
    ensures exists j :: 0 <= j < i && t[j] in Greedy(t, keys) && Conflict(t[j], t[i], keys)
  {
    var before, r := Greedy(t[..|t| - 1], keys), t[|t| - 1];
    if i < |t| - 1 {
      GreedyExplains(t[..|t| - 1], keys, i);
    } else {
      var a :| a in before && Conflict(a, r, keys);
      assert a in t[..|t| - 1];
    }
  }

  lemma {:induction false} GreedySubmultiset(t: Table, keys: seq<Columns>)
    ensures multiset(Greedy(t, keys)) <= multiset(t)
  {
    if t != [] {
      GreedySubmultiset(t[..|t| - 1], keys);
      assert t == t[..|t| - 1] + [t[|t| - 1]];
    }
  }

  /** Rows that do not conflict are all kept, in their order. */
  lemma {:induction false} GreedyKeepsUnique(t: Table, keys: seq<Columns>)
    requires Unique(t, keys)
    ensures Greedy(t, keys) == t
  {
    if t != [] {
      GreedyKeepsUnique(t[..|t| - 1], keys);
      assert t == t[..|t| - 1] + [t[|t| - 1]];
    }
  }

  lemma ConflictSymmetric(a: Row, b: Row, keys: seq<Columns>)
    ensures Conflict(a, b, keys) <==> Conflict(b, a, keys)
  {
    forall k | 0 <= k < |keys| ensures Collide(a, b, keys[k]) <==> Collide(b, a, keys[k]) {}
  }

  /** Two rows of a table stand at two places of every reordering of it. */
  lemma PlacesIn(a: Table, b: Table, i: nat, j: nat) returns (x: nat, y: nat)
    requires multiset(a) == multiset(b) && i < j < |b|
    ensures x < |a| && y < |a| && x != y && a[x] == b[i] && a[y] == b[j]
  {
    SameMembers(a, b);
    if b[i] == b[j] {
      TwiceSomewhere(b, i, j);
      x, y := TwoPlaces(a, b[i]);
    } else {
      assert b[i] in a && b[j] in a;
      x :| 0 <= x < |a| && a[x] == b[i];
      y :| 0 <= y < |a| && a[y] == b[j];
    }
  }

  /** Being free of conflicts does not depend on the order of the rows. */
  lemma UniqueReordered(a: Table, b: Table, keys: seq<Columns>)
    requires multiset(a) == multiset(b) && Unique(a, keys)
    ensures Unique(b, keys)
  {
    forall i, j | 0 <= i < j < |b| ensures !Conflict(b[i], b[j], keys) {
      var x, y := PlacesIn(a, b, i, j);
      ConflictSymmetric(b[i], b[j], keys);
      assert if x < y then !Conflict(a[x], a[y], keys) else !Conflict(a[y], a[x], keys);
    }
  }

  lemma TwiceSomewhere(t: Table, i: nat, j: nat)
    requires i < j < |t| && t[i] == t[j]
    ensures multiset(t)[t[i]] >= 2
  {
    assert t == t[..j] + [t[j]] + t[j + 1..];
    assert t[i] in t[..j];
    assert multiset(t[..j])[t[i]] >= 1;
  }

  lemma {:induction false} TwoPlaces(t: Table, r: Row) returns (x: nat, y: nat)
    requires multiset(t)[r] >= 2
    ensures x < y < |t| && t[x] == t[y] == r
  {
    assert t == [t[0]] + t[1..];
    if t[0] == r {
      assert r in multiset(t[1..]);
      var k :| 0 <= k < |t[1..]| && t[1..][k] == r;
      x, y := 0, k + 1;
    } else {
      x, y := TwoPlaces(t[1..], r);
      x, y := x + 1, y + 1;
    }
  }

  /** The rows the import keeps are unique on every key. */
  lemma KeepNewestUnique(t: Table, keys: seq<Columns>)
    ensures Unique(KeepNewest(t, keys), keys)
    ensures multiset(KeepNewest(t, keys)) <= multiset(t)
    ensures keys != [] ==> Rising(KeepNewest(t, keys))
  {
    GreedyUnique(SortDown(t), keys);
    GreedySubmultiset(SortDown(t), keys);
    SortUpSorts(Greedy(SortDown(t), keys));
    UniqueReordered(Greedy(SortDown(t), keys), SortUp(Greedy(SortDown(t), keys)), keys);
  }

  /** A row is dropped only for a kept row that conflicts with it and is at least as new. */
  lemma DroppedForNewer(t: Table, keys: seq<Columns>, r: Row) returns (kept: Row)
    requires r in t && r !in KeepNewest(t, keys)
    ensures kept in KeepNewest(t, keys) && Conflict(kept, r, keys) && IdOf(r) <= IdOf(kept)
  {
    var down := SortDown(t);
    SameMembers(t, down);
    SameMembers(Greedy(down, keys), KeepNewest(t, keys));
    var i :| 0 <= i < |down| && down[i] == r;
    GreedyExplains(down, keys, i);
    var j :| 0 <= j < i && down[j] in Greedy(down, keys) && Conflict(down[j], down[i], keys);
    SortDownSorts(t);
    kept := down[j];
  }

  /** A table without duplicates, in the order of its ids, passes unchanged. */
  lemma NothingToDrop(t: Table, keys: seq<Columns>)
    requires Unique(t, keys) && (StrictlyRising(t) || forall r :: r in t ==> IdOf(r) == 0)
    ensures KeepNewest(t, keys) == t
  {
    UniqueReordered(t, SortDown(t), keys);
    GreedyKeepsUnique(SortDown(t), keys);
    if StrictlyRising(t) {
      SortDownRising(t);
      SortUpReversed(t);
    } else {
      SortDownLevel(t);
      LevelRising(t);
    }
  }

  lemma LevelRising(t: Table)
    requires forall r :: r in t ==> IdOf(r) == 0
    ensures SortUp(t) == t
  {
    forall i | 0 <= i < |t| ensures IdOf(t[i]) == 0 {
      assert t[i] in t;
    }
    SortUpRising(t);
  }

  // ---------------------------------------------------------------- one key

  /** Somewhere in the table the row stands before every other row with its key. */
  ghost predicate ComesFirst(t: Table, cols: Columns, r: Row) {
    exists p :: 0 <= p < |t| && t[p] == r && forall j :: 0 <= j < p ==> !Collide(t[j], r, cols)
  }

  lemma OneKey(a: Row, b: Row, cols: Columns)
    ensures Conflict(a, b, [cols]) <==> Collide(a, b, cols)
  {
    assert [cols][0] == cols;
  }

  /** With one key the greedy pass keeps the first row of every key. */
  lemma {:induction false} GreedyOneKey(t: Table, cols: Columns, r: Row)
    ensures r in Greedy(t, [cols]) <==> ComesFirst(t, cols, r)
  {
    if ComesFirst(t, cols, r) {
      var p :| 0 <= p < |t| && t[p] == r && forall j :: 0 <= j < p ==> !Collide(t[j], r, cols);
      if r !in Greedy(t, [cols]) {
        GreedyExplains(t, [cols], p);
        var j :| 0 <= j < p && t[j] in Greedy(t, [cols]) && Conflict(t[j], t[p], [cols]);
        OneKey(t[j], r, cols);
        assert false;
      }
    }
    if r in Greedy(t, [cols]) {
      GreedyFirst(t, cols, r);
    }
  }

  lemma {:induction false} GreedyFirst(t: Table, cols: Columns, r: Row)
    requires r in Greedy(t, [cols])
    ensures ComesFirst(t, cols, r)
  {
    var init, last := t[..|t| - 1], t[|t| - 1];
    var before := Greedy(init, [cols]);
    if r in before {
      GreedyFirst(init, cols, r);
      var p :| 0 <= p < |init| && init[p] == r && forall j :: 0 <= j < p ==> !Collide(init[j], r, cols);
      assert t[p] == r && forall j :: 0 <= j < p ==> t[j] == init[j];
    } else {
      forall j | 0 <= j < |init| ensures !Collide(t[j], r, cols) {
        if Collide(t[j], r, cols) {
          var k := KeptForKey(init, cols, j);
          OneKey(init[k], r, cols);
          assert false;
        }
      }
      assert t[|t| - 1] == r;
    }
  }

  /** A row with a full key is kept or gives way to a kept row with the same key. */
  lemma KeptForKey(t: Table, cols: Columns, j: nat) returns (k: nat)
    requires j < |t| && Null !in KeyOf(t[j], cols)
    ensures k <= j && t[k] in Greedy(t, [cols]) && Collide(t[k], t[j], cols)
  {
    if t[j] in Greedy(t, [cols]) {
      k := j;
    } else {
      GreedyExplains(t, [cols], j);
      k :| 0 <= k < j && t[k] in Greedy(t, [cols]) && Conflict(t[k], t[j], [cols]);
      OneKey(t[k], t[j], cols);
    }
  }

  /**
   Settings rows have lost their ids when they get here, so of several rows with one key the import keeps
   the first of the backup, not the newest.
   */
  lemma WithoutIdsTheFirstStays(t: Table, cols: Columns, r: Row)
    requires forall x :: x in t ==> IdOf(x) == 0
    ensures r in KeepNewest(t, [cols]) <==> ComesFirst(t, cols, r)
  {
    SortDownLevel(t);
    LevelRising(Greedy(t, [cols]));
    GreedyOneKey(t, cols, r);
  }

  // ---------------------------------------------------------------- the SQL form of the migration

  ghost predicate DistinctIds(t: Table) {
    forall i, j :: 0 <= i < j < |t| ==> IdOf(t[i]) != IdOf(t[j])
  }

  /** The row has the highest id of its group. */
  predicate Newest(t: Table, cols: Columns, r: Row) {
    Null !in KeyOf(r, cols) && forall x :: x in t && Collide(x, r, cols) ==> IdOf(x) <= IdOf(r)
  }

  /** `DELETE ... WHERE <no column empty> AND id NOT IN (SELECT MAX(id) ... GROUP BY <columns>)` */
  function SqlKeep(t: Table, cols: Columns): (kept: Table)
    ensures |kept| <= |t| && forall r :: r in kept ==> r in t
  {
    Filter(t, r => Null in KeyOf(r, cols) || exists m :: m in t && Newest(t, cols, m) && IdOf(m) == IdOf(r))
  }

  /** One key after another. */
  function SqlKeepAll(t: Table, keys: seq<Columns>): Table
    decreases |keys|
  {
    if keys == [] then t else SqlKeepAll(SqlKeep(t, keys[0]), keys[1..])
  }

  lemma SameRow(t: Table, a: Row, b: Row)
    requires DistinctIds(t) && a in t && b in t && IdOf(a) == IdOf(b)
    ensures a == b
  {
    var i :| 0 <= i < |t| && t[i] == a;
    var j :| 0 <= j < |t| && t[j] == b;
    assert !(i < j) && !(j < i);
  }

  lemma SqlKeepMembers(t: Table, cols: Columns, r: Row)
    requires DistinctIds(t)
    ensures r in SqlKeep(t, cols) <==> r in t && (Null in KeyOf(r, cols) || Newest(t, cols, r))
  {
    if r in t {
      forall m | m in t && Newest(t, cols, m) && IdOf(m) == IdOf(r) ensures m == r {
        SameRow(t, m, r);
      }
    }
  }

  lemma FilterKeepsUnique(t: Table, keep: Row -> bool, keys: seq<Columns>)
    requires DistinctIds(t)
    ensures DistinctIds(Filter(t, keep)) && (Unique(t, keys) ==> Unique(Filter(t, keep), keys))
  {
    forall i, j | 0 <= i < j < |Filter(t, keep)|
      ensures IdOf(Filter(t, keep)[i]) != IdOf(Filter(t, keep)[j])
      ensures Unique(t, keys) ==> !Conflict(Filter(t, keep)[i], Filter(t, keep)[j], keys)
    {
      var a, b := FilterPair(t, keep, i, j);
    }
  }

  lemma SqlKeepUnique(t: Table, cols: Columns)
    requires DistinctIds(t)
    ensures Unique(SqlKeep(t, cols), [cols])
  {
    var kept := SqlKeep(t, cols);
    forall i, j | 0 <= i < j < |kept| ensures !Conflict(kept[i], kept[j], [cols]) {
      assert kept[i] in kept && kept[j] in kept;
      SqlKeepMembers(t, cols, kept[i]);
      SqlKeepMembers(t, cols, kept[j]);
      OneKey(kept[i], kept[j], cols);
      if Collide(kept[i], kept[j], cols) {
        assert Collide(kept[j], kept[i], cols);
        FilterKeepsUnique(
          t, r => Null in KeyOf(r, cols) || exists m :: m in t && Newest(t, cols, m) && IdOf(m) == IdOf(r), [cols]);
        assert false;
      }
    }
  }

  lemma ConflictOnMore(a: Row, b: Row, keys: seq<Columns>, more: Columns)
    ensures Conflict(a, b, keys + [more]) ==> Conflict(a, b, keys) || Conflict(a, b, [more])
  {
    if Conflict(a, b, keys + [more]) {
      var k :| 0 <= k < |keys + [more]| && Collide(a, b, (keys + [more])[k]);
      if k < |keys| {
        assert Collide(a, b, keys[k]);
      } else {
        OneKey(a, b, more);
      }
    }
  }

  lemma UniqueOnMore(t: Table, keys: seq<Columns>, more: Columns)
    requires Unique(t, keys) && Unique(t, [more])
    ensures Unique(t, keys + [more])
  {
    forall i, j | 0 <= i < j < |t| ensures !Conflict(t[i], t[j], keys + [more]) {
      ConflictOnMore(t[i], t[j], keys, more);
    }
  }

  /** Running the SQL form over all keys one after another leaves every key unique. */
  lemma SqlKeepAllUnique(t: Table, keys: seq<Columns>)
    requires DistinctIds(t)
    ensures DistinctIds(SqlKeepAll(t, keys)) && Unique(SqlKeepAll(t, keys), keys)
    ensures forall r :: r in SqlKeepAll(t, keys) ==> r in t
  {
    hide Unique, DistinctIds, SqlKeepAll;
    NoKeys(t);
    SqlKeepRest(t, [], keys);
    assert [] + keys == keys;
  }

  lemma NoKeys(t: Table)
    ensures Unique(t, [])
  {
  }

  /** Keys that are unique already stay so. */
  lemma {:induction false} SqlKeepRest(t: Table, done: seq<Columns>, rest: seq<Columns>)
    requires DistinctIds(t) && Unique(t, done)
    ensures DistinctIds(SqlKeepAll(t, rest)) && Unique(SqlKeepAll(t, rest), done + rest)
    ensures forall r :: r in SqlKeepAll(t, rest) ==> r in t
    decreases |rest|
  {
    hide Unique, DistinctIds, SqlKeep;
    if rest == [] {
      assert done + rest == done;
    } else {
      SqlKeepMore(t, done, rest[0]);
      SqlKeepRest(SqlKeep(t, rest[0]), done + [rest[0]], rest[1..]);
      assert done + [rest[0]] + rest[1..] == done + rest;
    }
  }

  lemma SqlKeepMore(t: Table, keys: seq<Columns>, last: Columns)
    requires DistinctIds(t) && Unique(t, keys)
    ensures DistinctIds(SqlKeep(t, last)) && Unique(SqlKeep(t, last), keys + [last])
  {
    FilterKeepsUnique(
      t, r => Null in KeyOf(r, last) || exists m :: m in t && Newest(t, last, m) && IdOf(m) == IdOf(r), keys);
    SqlKeepUnique(t, last);
    UniqueOnMore(SqlKeep(t, last), keys, last);
  }

  /** For one key the import and the migration keep the same rows. */
  lemma ImportAgreesWithMigration(t: Table, cols: Columns, r: Row)
    requires DistinctIds(t)
    ensures r in KeepNewest(t, [cols]) <==> r in SqlKeep(t, cols)
  {
    var down := SortDown(t);
    SortDownSorts(t);
    SameMembers(t, down);
    SameMembers(Greedy(down, [cols]), KeepNewest(t, [cols]));
    GreedyOneKey(down, cols, r);
    SqlKeepMembers(t, cols, r);
    if ComesFirst(down, cols, r) {
      FirstIsNewest(t, cols, r);
    }
    if r in t && (Null in KeyOf(r, cols) || Newest(t, cols, r)) {
      NewestIsFirst(t, cols, r);
    }
  }

  lemma FirstIsNewest(t: Table, cols: Columns, r: Row)
    requires DistinctIds(t) && ComesFirst(SortDown(t), cols, r)
    ensures r in t && (Null in KeyOf(r, cols) || Newest(t, cols, r))
  {
    hide SortDown, Collide, IdOf, DistinctIds, KeyOf;
    var down := SortDown(t);
    SortDownSorts(t);
    SameMembers(t, down);
    var p :| 0 <= p < |down| && down[p] == r && forall j :: 0 <= j < p ==> !Collide(down[j], r, cols);
    forall x | x in t && Collide(x, r, cols) ensures IdOf(x) <= IdOf(r) {
      var q :| 0 <= q < |down| && down[q] == x;
      assert p <= q;
    }
  }

  lemma NewestIsFirst(t: Table, cols: Columns, r: Row)
    requires DistinctIds(t) && r in t && (Null in KeyOf(r, cols) || Newest(t, cols, r))
    ensures ComesFirst(SortDown(t), cols, r)
  {
    var down := SortDown(t);
    SortDownSorts(t);
    SameMembers(t, down);
    var p := FirstPlace(down, r);
    forall j | 0 <= j < p ensures !Collide(down[j], r, cols) {
      if Collide(down[j], r, cols) {
        assert down[j] in t && IdOf(down[j]) == IdOf(r);
        SameRow(t, down[j], r);
        assert false;
      }
    }
  }

  lemma {:induction false} FirstPlace(t: Table, r: Row) returns (p: nat)
    requires r in t
    ensures p < |t| && t[p] == r && forall j :: 0 <= j < p ==> t[j] != r
  {
    if t[0] == r {
      p := 0;
    } else {
      p := FirstPlace(t[1..], r);
      p := p + 1;
    }
  }

  lemma OnlyFrom(kept: Table, t: Table, r: Row)
    requires multiset(kept) <= multiset(t) && r in kept
    ensures r in t
  {
    assert r in multiset(kept);
    assert r in multiset(t);
  }

  // ---------------------------------------------------------------- the code

  predicate Taken(seen: seq<set<seq<Value>>>, r: Row, keys: seq<Columns>)
    requires |seen| == |keys|
  {
    exists k :: 0 <= k < |keys| && Null !in KeyOf(r, keys[k]) && KeyOf(r, keys[k]) in seen[k]
  }

  /** The set holds the value exactly if it is the full key of a row. */
  ghost predicate Knows(taken: set<seq<Value>>, kept: Table, cols: Columns, v: seq<Value>) {
    v in taken <==> Null !in v && exists a :: a in kept && KeyOf(a, cols) == v
  }

  /** `seen` holds, per key, the full key values of the rows kept so far. */
  ghost predicate Remembers(seen: seq<set<seq<Value>>>, kept: Table, keys: seq<Columns>)
    requires |seen| == |keys|
  {
    forall k, v :: 0 <= k < |keys| ==> Knows(seen[k], kept, keys[k], v)
  }

  lemma TakenMeansConflict(seen: seq<set<seq<Value>>>, kept: Table, r: Row, keys: seq<Columns>)
    requires |seen| == |keys| && Remembers(seen, kept, keys)
    ensures Taken(seen, r, keys) <==> exists a :: a in kept && Conflict(a, r, keys)
  {
    hide KeyOf;
    if Taken(seen, r, keys) {
      var k :| 0 <= k < |keys| && Null !in KeyOf(r, keys[k]) && KeyOf(r, keys[k]) in seen[k];
      assert Knows(seen[k], kept, keys[k], KeyOf(r, keys[k]));
      var a :| a in kept && KeyOf(a, keys[k]) == KeyOf(r, keys[k]);
      assert Collide(a, r, keys[k]);
    }
    if a :| a in kept && Conflict(a, r, keys) {
      var k :| 0 <= k < |keys| && Collide(a, r, keys[k]);
      assert Knows(seen[k], kept, keys[k], KeyOf(r, keys[k]));
    }
  }

  method DropDuplicates(rows: Table, keys: seq<Columns>) returns (kept: Table, dropped: nat)
    ensures kept == KeepNewest(rows, keys) && dropped == |rows| - |kept|
  {
    if keys == [] {
      return rows, 0;
    }
    hide Remembers, Taken, Greedy, Conflict, SortDown, SortUp;
    var seen: seq<set<seq<Value>>> := seq(|keys|, i => {});
    var down := SortDown(rows);
    kept := [];
    NothingTaken(seen, keys);
    GreedyNone(keys);
    for i := 0 to |down|
      invariant |seen| == |keys| && kept == Greedy(down[..i], keys) && Remembers(seen, kept, keys)
    {
      var row := down[i];
      TakenMeansConflict(seen, kept, row, keys);
      GreedyNext(down, keys, i);
      if !Taken(seen, row, keys) {
        seen := Remember(seen, kept, row, keys);
        kept := kept + [row];
      }
    }
    assert down[..|down|] == down;
    KeptIsShorter(rows, keys);
    kept := SortUp(kept);
    dropped := |rows| - |kept|;
  }

  lemma NothingTaken(seen: seq<set<seq<Value>>>, keys: seq<Columns>)
    requires |seen| == |keys| && forall k :: 0 <= k < |keys| ==> seen[k] == {}
    ensures Remembers(seen, [], keys)
  {
  }

  lemma GreedyNone(keys: seq<Columns>)
    ensures Greedy([], keys) == []
  {
  }

  lemma GreedyNext(t: Table, keys: seq<Columns>, i: nat)
    requires i < |t|
    ensures var before := Greedy(t[..i], keys);
            Greedy(t[..i + 1], keys) == if exists a :: a in before && Conflict(a, t[i], keys) then before else before + [t[i]]
  {
    assert t[..i + 1][..i] == t[..i];
  }

  lemma KeptIsShorter(rows: Table, keys: seq<Columns>)
    ensures |SortUp(Greedy(SortDown(rows), keys))| <= |rows|
  {
    var down := SortDown(rows);
    SameMembers(rows, down);
    GreedySubmultiset(down, keys);
    SubmultisetLength(Greedy(down, keys), rows);
    SameMembers(Greedy(down, keys), SortUp(Greedy(down, keys)));
    SubmultisetLength(SortUp(Greedy(down, keys)), rows);
  }

  method Remember(seen: seq<set<seq<Value>>>, ghost kept: Table, row: Row, keys: seq<Columns>)
    returns (more: seq<set<seq<Value>>>)
    requires |seen| == |keys| && Remembers(seen, kept, keys)
    ensures |more| == |keys| && Remembers(more, kept + [row], keys)
  {
    hide Remembers, KeyOf;
    more := seen;
    for k := 0 to |keys|
      invariant |more| == |keys|
      invariant forall m :: 0 <= m < |keys| ==>
        more[m] == if m < k && Null !in KeyOf(row, keys[m]) then seen[m] + {KeyOf(row, keys[m])} else seen[m]
    {
      var key := KeyOf(row, keys[k]);
      if Null !in key {
        more := more[k := more[k] + {key}];
      }
    }
    RemembersMore(seen, more, kept, row, keys);
  }

  lemma KnowsMore(taken: set<seq<Value>>, kept: Table, row: Row, cols: Columns, v: seq<Value>)
    requires Knows(taken, kept, cols, v)
    ensures Knows(if Null !in KeyOf(row, cols) then taken + {KeyOf(row, cols)} else taken, kept + [row], cols, v)
  {
    hide KeyOf;
    assert row in kept + [row];
    if a :| a in kept && KeyOf(a, cols) == v {
      assert a in kept + [row];
    }
  }

  lemma RemembersMore(seen: seq<set<seq<Value>>>, more: seq<set<seq<Value>>>, kept: Table, row: Row, keys: seq<Columns>)
    requires |seen| == |keys| == |more| && Remembers(seen, kept, keys)
    requires forall k :: 0 <= k < |keys| ==>
      more[k] == if Null !in KeyOf(row, keys[k]) then seen[k] + {KeyOf(row, keys[k])} else seen[k]
    ensures Remembers(more, kept + [row], keys)
  {
    hide KeyOf, Knows;
    forall k, v | 0 <= k < |keys| ensures Knows(more[k], kept + [row], keys[k], v) {
      assert Knows(seen[k], kept, keys[k], v);
      KnowsMore(seen[k], kept, row, keys[k], v);
    }
  }

  lemma SubmultisetLength(a: Table, b: Table)
    requires multiset(a) <= multiset(b)
    ensures |a| <= |b|
  {
    assert |multiset(a)| + |multiset(b) - multiset(a)| == |multiset(b)|;
  }

  /** The key sets whose turn goes through. */
  function Enforced(missing: seq<Columns>, works: seq<bool>): (done: seq<Columns>)
    requires |works| == |missing|
    ensures |done| <= |missing| && forall cols :: cols in done ==> cols in missing
  {
    if missing == [] then []
    else (if works[0] then [missing[0]] else []) + Enforced(missing[1..], works[1..])
  }

  /**
   The migration of one table: for every key its database lacks, delete the older rows and add the index. A key
   whose turn fails, for whatever reason, is rolled back and the next one gets its turn.
   */
  method AddMissingUniqueIndexes(rows: Table, missing: seq<Columns>, works: seq<bool>)
    returns (kept: Table, indexes: set<Columns>, removed: nat)
    requires |works| == |missing|
    ensures kept == SqlKeepAll(rows, Enforced(missing, works)) && removed == |rows| - |kept|
    ensures indexes == set cols | cols in Enforced(missing, works)
  {
    kept, indexes, removed := rows, {}, 0;
    for i := 0 to |missing|
      invariant SqlKeepAll(kept, Enforced(missing[i..], works[i..])) == SqlKeepAll(rows, Enforced(missing, works))
      invariant |kept| <= |rows| && removed == |rows| - |kept|
      invariant indexes + (set cols | cols in Enforced(missing[i..], works[i..])) == set cols | cols in Enforced(missing, works)
    {
      var cols := missing[i];
      ghost var todo, rest := Enforced(missing[i..], works[i..]), Enforced(missing[i + 1..], works[i + 1..]);
      assert missing[i..][1..] == missing[i + 1..] && works[i..][1..] == works[i + 1..];
      assert todo == (if works[i] then [cols] else []) + rest;
      if !works[i] {
        assert todo == rest;
        continue;
      }
      assert todo[1..] == rest;
      var left := SqlKeep(kept, cols);
      removed := removed + |kept| - |left|;
      kept := left;
      indexes := indexes + {cols};
    }
  }
}
