/**
 Database rows as the backup code sees them: a row maps column names to values, a table is the list of
 its rows in the order of their ids.
 */
module Rows {

  datatype Value = Null | Int(n: int) | Text(s: string)

  type Row = map<string, Value>

  type Table = seq<Row>

  /** `row.get(column)`: a missing column reads as empty. */
  function Get(r: Row, column: string): Value {
    if column in r then r[column] else Null
  }

  /** `row.get("id") or 0` */
  function IdOf(r: Row): int {
    var id := Get(r, "id");
    if id.Int? then id.n else 0
  }

  /** The ids of a table, as a subquery `SELECT id FROM ...` returns them. */
  function Ids(t: Table): set<Value> {
    set r | r in t :: Get(r, "id")
  }

  // ---------------------------------------------------------------- filtering

  /** The rows that satisfy `keep`, in their order: what a DELETE leaves. */
  function Filter(t: Table, keep: Row -> bool): (kept: Table)
    ensures forall r :: r in kept <==> r in t && keep(r)
    ensures |kept| <= |t|
  {
    if t == [] then []
    else
      assert t == [t[0]] + t[1..];
      (if keep(t[0]) then [t[0]] else []) + Filter(t[1..], keep)
  }

  lemma {:induction false} FilterAll(t: Table, keep: Row -> bool)
    requires forall r :: r in t ==> keep(r)
    ensures Filter(t, keep) == t
  {
    if t != [] {
      assert t[0] in t;
      FilterAll(t[1..], keep);
    }
  }

  lemma {:induction false} FilterNone(t: Table, keep: Row -> bool)
    requires forall r :: r in t ==> !keep(r)
    ensures Filter(t, keep) == []
  {
    if t != [] {
      assert t[0] in t;
      FilterNone(t[1..], keep);
    }
  }

  /** Two predicates that agree on the rows of a table filter it alike. */
  lemma {:induction false} FilterAgree(t: Table, p: Row -> bool, q: Row -> bool)
    requires forall r :: r in t ==> p(r) == q(r)
    ensures Filter(t, p) == Filter(t, q)
  {
    if t != [] {
      assert t[0] in t;
      FilterAgree(t[1..], p, q);
    }
  }

  /** A weaker filter before a stronger one makes no difference. */
  lemma {:induction false} FilterTwice(t: Table, weak: Row -> bool, strong: Row -> bool)
    requires forall r :: r in t && strong(r) ==> weak(r)
    ensures Filter(Filter(t, weak), strong) == Filter(t, strong)
  {
    if t != [] {
      assert t[0] in t;
      FilterTwice(t[1..], weak, strong);
      var rest := Filter(t[1..], weak);
      if weak(t[0]) {
        assert Filter(t, weak) == [t[0]] + rest && Filter(t, weak)[1..] == rest;
      } else {
        assert Filter(t, weak) == rest;
      }
    }
  }

  /** Two rows of a filtered table stand in the same order in the table. */
  lemma {:induction false} FilterPair(t: Table, keep: Row -> bool, i: nat, j: nat) returns (a: nat, b: nat)
    requires i < j < |Filter(t, keep)|
    ensures a < b < |t| && t[a] == Filter(t, keep)[i] && t[b] == Filter(t, keep)[j]
  {
    var rest := Filter(t[1..], keep);
    if !keep(t[0]) {
      a, b := FilterPair(t[1..], keep, i, j);
      a, b := a + 1, b + 1;
    } else if i == 0 {
      assert Filter(t, keep)[j] == rest[j - 1] && rest[j - 1] in t[1..];
      var k :| 0 <= k < |t[1..]| && t[1..][k] == rest[j - 1];
      a, b := 0, k + 1;
    } else {
      a, b := FilterPair(t[1..], keep, i - 1, j - 1);
      a, b := a + 1, b + 1;
    }
  }

  // ---------------------------------------------------------------- sorting by id

  /** The highest id first; rows with one id keep their order, as Python's sort does. */
  function InsertDown(r: Row, t: Table): (sorted: Table)
    ensures multiset(sorted) == multiset(t) + multiset{r}
  {
    if t == [] || IdOf(t[0]) <= IdOf(r) then [r] + t
    else
      assert t == [t[0]] + t[1..];
      [t[0]] + InsertDown(r, t[1..])
  }

  function SortDown(t: Table): (sorted: Table)
    ensures multiset(sorted) == multiset(t)
  {
    if t == [] then []
    else
      assert t == [t[0]] + t[1..];
      InsertDown(t[0], SortDown(t[1..]))
  }

  /** The lowest id first, also stable. */
  function InsertUp(r: Row, t: Table): (sorted: Table)
    ensures multiset(sorted) == multiset(t) + multiset{r}
  {
    if t == [] || IdOf(r) <= IdOf(t[0]) then [r] + t
    else
      assert t == [t[0]] + t[1..];
      [t[0]] + InsertUp(r, t[1..])
  }

  function SortUp(t: Table): (sorted: Table)
    ensures multiset(sorted) == multiset(t)
  {
    if t == [] then []
    else
      assert t == [t[0]] + t[1..];
      InsertUp(t[0], SortUp(t[1..]))
  }

  ghost predicate Falling(t: Table) {
    forall i, j :: 0 <= i < j < |t| ==> IdOf(t[j]) <= IdOf(t[i])
  }

  ghost predicate Rising(t: Table) {
    forall i, j :: 0 <= i < j < |t| ==> IdOf(t[i]) <= IdOf(t[j])
  }

  ghost predicate StrictlyRising(t: Table) {
    forall i, j :: 0 <= i < j < |t| ==> IdOf(t[i]) < IdOf(t[j])
  }

  lemma SameMembers(a: Table, b: Table)
    requires multiset(a) == multiset(b)
    ensures |a| == |b| && forall r :: r in a <==> r in b
  {
    assert |multiset(a)| == |a| && |multiset(b)| == |b|;
    forall r ensures r in a <==> r in b {
      assert r in a <==> r in multiset(a);
      assert r in b <==> r in multiset(b);
    }
  }

  lemma InsertMembers(sorted: Table, t: Table, r: Row)
    requires multiset(sorted) == multiset(t) + multiset{r}
    ensures forall x :: x in sorted <==> x == r || x in t
  {
    assert multiset(sorted) == multiset(t + [r]);
    SameMembers(sorted, t + [r]);
  }

  lemma {:induction false} InsertDownSorts(r: Row, t: Table)
    requires Falling(t)
    ensures Falling(InsertDown(r, t))
  {
    if t != [] && IdOf(t[0]) > IdOf(r) {
      InsertDownSorts(r, t[1..]);
      InsertMembers(InsertDown(r, t[1..]), t[1..], r);
      hide IdOf;
      var rest := InsertDown(r, t[1..]);
      forall i | 0 <= i < |rest| ensures IdOf(rest[i]) <= IdOf(t[0]) {
        assert rest[i] == r || rest[i] in t[1..];
      }
    }
  }

  lemma {:induction false} SortDownSorts(t: Table)
    ensures Falling(SortDown(t))
  {
    if t != [] {
      SortDownSorts(t[1..]);
      InsertDownSorts(t[0], SortDown(t[1..]));
    }
  }

  lemma {:induction false} InsertUpSorts(r: Row, t: Table)
    requires Rising(t)
    ensures Rising(InsertUp(r, t))
  {
    if t != [] && IdOf(r) > IdOf(t[0]) {
      InsertUpSorts(r, t[1..]);
      InsertMembers(InsertUp(r, t[1..]), t[1..], r);
      hide IdOf;
      var rest := InsertUp(r, t[1..]);
      forall i | 0 <= i < |rest| ensures IdOf(t[0]) <= IdOf(rest[i]) {
        assert rest[i] == r || rest[i] in t[1..];
      }
    }
  }

  lemma {:induction false} SortUpSorts(t: Table)
    ensures Rising(SortUp(t))
  {
    if t != [] {
      SortUpSorts(t[1..]);
      InsertUpSorts(t[0], SortUp(t[1..]));
    }
  }

  /** Sorting rows that already rise changes nothing. */
  lemma {:induction false} SortUpRising(t: Table)
    requires Rising(t)
    ensures SortUp(t) == t
  {
    if t != [] {
      SortUpRising(t[1..]);
    }
  }

  function Reverse(t: Table): (r: Table)
    ensures |r| == |t|
  {
    if t == [] then [] else Reverse(t[1..]) + [t[0]]
  }

  lemma {:induction false} ReverseAt(t: Table, i: nat)
    requires i < |t|
    ensures Reverse(t)[i] == t[|t| - 1 - i]
  {
    if i < |t| - 1 {
      ReverseAt(t[1..], i);
    }
  }

  lemma {:induction false} InsertDownLast(r: Row, t: Table)
    requires forall i :: 0 <= i < |t| ==> IdOf(r) < IdOf(t[i])
    ensures InsertDown(r, t) == t + [r]
  {
    if t != [] {
      InsertDownLast(r, t[1..]);
    }
  }

  /** Rows whose ids strictly rise come out reversed when sorted downwards. */
  lemma {:induction false} SortDownRising(t: Table)
    requires StrictlyRising(t)
    ensures SortDown(t) == Reverse(t)
  {
    if t != [] {
      SortDownRising(t[1..]);
      forall i | 0 <= i < |t| - 1 ensures IdOf(t[0]) < IdOf(Reverse(t[1..])[i]) {
        ReverseAt(t[1..], i);
      }
      InsertDownLast(t[0], Reverse(t[1..]));
    }
  }

  /** Rows without ids keep their order in either direction. */
  lemma {:induction false} SortDownLevel(t: Table)
    requires forall r :: r in t ==> IdOf(r) == 0
    ensures SortDown(t) == t
  {
    if t != [] {
      assert t[0] in t;
      SortDownLevel(t[1..]);
      if |t| > 1 {
        assert t[1] in t;
      }
    }
  }

  lemma SortUpReversed(t: Table)
    requires StrictlyRising(t)
    ensures SortUp(Reverse(t)) == t
  {
    SortUpSorts(Reverse(t));
    ReverseMultiset(t);
    RisingUnique(SortUp(Reverse(t)), t);
  }

  lemma {:induction false} ReverseMultiset(t: Table)
    ensures multiset(Reverse(t)) == multiset(t)
  {
    if t != [] {
      ReverseMultiset(t[1..]);
      assert t == [t[0]] + t[1..];
    }
  }

  /** Two tables with the same rows in rising order are the same table when ids do not repeat. */
  lemma {:induction false} RisingUnique(a: Table, b: Table)
    requires Rising(a) && StrictlyRising(b) && multiset(a) == multiset(b)
    ensures a == b
    decreases |a|
  {
    SameMembers(a, b);
    if a != [] {
      SameFirst(a, b);
      DropFirst(a);
      DropFirst(b);
      RisingUnique(a[1..], b[1..]);
    }
  }

  lemma SameFirst(a: Table, b: Table)
    requires Rising(a) && StrictlyRising(b) && a != [] && |a| == |b| && forall r :: r in a <==> r in b
    ensures a[0] == b[0]
  {
    hide IdOf;
    assert a[0] in a && b[0] in b;
    var i :| 0 <= i < |b| && b[i] == a[0];
    var j :| 0 <= j < |a| && a[j] == b[0];
    assert IdOf(a[0]) <= IdOf(a[j]);
  }

  lemma DropFirst(a: Table)
    requires a != []
    ensures multiset(a[1..]) == multiset(a) - multiset{a[0]}
  {
    assert a == [a[0]] + a[1..];
  }
}
