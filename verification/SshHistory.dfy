/**
 The list of recent ad-hoc connections (backend/app/api/ssh.py, _record_history and list_history): one entry
 per target and user, the 20 newest are kept.
 */
module SshHistory {
  import opened Wrappers

  const LIMIT := 20

  /** A device, or else a host, with port and user. */
  datatype Target = OfDevice(device: int, port: int, user: string) | OfHost(host: string, port: int, user: string)

  /** A connection; without a key it used a password. */
  datatype Connection = Connection(target: Target, key: Option<int>)

  datatype Entry = Entry(id: int, connection: Connection, usedAt: int)

  // ---------------------------------------------------------------- the specification, over the whole log

  function Without(list: seq<Connection>, t: Target): (rest: seq<Connection>)
    ensures |rest| <= |list|
    ensures forall i :: 0 <= i < |rest| ==> rest[i].target != t && rest[i] in list
  {
    if list == [] then []
    else
      var n := |list| - 1;
      Without(list[..n], t) + if list[n].target == t then [] else [list[n]]
  }

  /** Every target once, with its newest connection, newest first. */
  function Newest(log: seq<Connection>): seq<Connection> {
    if log == [] then []
    else
      var n := |log| - 1;
      [log[n]] + Without(Newest(log[..n]), log[n].target)
  }

  function First(list: seq<Connection>, n: nat): seq<Connection> {
    if |list| <= n then list else list[..n]
  }

  ghost predicate OneEach(list: seq<Connection>) {
    forall i, j :: 0 <= i < j < |list| ==> list[i].target != list[j].target
  }

  lemma {:induction false} WithoutAbsent(list: seq<Connection>, t: Target)
    requires forall i :: 0 <= i < |list| ==> list[i].target != t
    ensures Without(list, t) == list
  {
    if list != [] {
      WithoutAbsent(list[..|list| - 1], t);
    }
  }

  lemma {:induction false} WithoutPresent(list: seq<Connection>, t: Target, i: nat)
    requires OneEach(list) && i < |list| && list[i].target == t
    ensures Without(list, t) == list[..i] + list[i + 1..]
  {
    var n := |list| - 1;
    if i == n {
      WithoutAbsent(list[..n], t);
    } else {
      WithoutPresent(list[..n], t, i);
      assert list[..n][..i] == list[..i];
      assert list[i + 1..] == list[..n][i + 1..] + [list[n]];
    }
  }

  /** Where the target is listed. */
  function Place(list: seq<Connection>, t: Target): (i: nat)
    ensures i <= |list| && (i < |list| ==> list[i].target == t)
    ensures forall j :: 0 <= j < i ==> list[j].target != t
  {
    if list == [] || list[0].target == t then 0 else Place(list[1..], t) + 1
  }

  lemma WithoutIs(list: seq<Connection>, t: Target)
    requires OneEach(list)
    ensures Without(list, t) == if Place(list, t) == |list| then list else list[..Place(list, t)] + list[Place(list, t) + 1..]
  {
    hide Without, OneEach, Place;
    var i := Place(list, t);
    if i == |list| {
      WithoutAbsent(list, t);
    } else {
      WithoutPresent(list, t, i);
    }
  }

  lemma OneEachCut(list: seq<Connection>, n: nat)
    requires OneEach(list) && n <= |list|
    ensures OneEach(list[..n])
  {
  }

  lemma PlaceInCut(list: seq<Connection>, t: Target)
    requires |list| > LIMIT
    ensures Place(list[..LIMIT], t) == if Place(list, t) < LIMIT then Place(list, t) else LIMIT
  {
    var i, k := Place(list, t), Place(list[..LIMIT], t);
    assert i < LIMIT ==> list[..LIMIT][i].target == t;
    assert k < LIMIT ==> list[..LIMIT][k] == list[k];
  }

  lemma CutBefore(list: seq<Connection>, t: Target)
    requires OneEach(list) && |list| > LIMIT && Place(list, t) < LIMIT
    ensures |Without(list, t)| >= LIMIT && |Without(list[..LIMIT], t)| == LIMIT - 1
    ensures Without(list[..LIMIT], t) == Without(list, t)[..LIMIT - 1]
  {
    hide Without, Place, OneEach;
    OneEachCut(list, LIMIT);
    WithoutIs(list, t);
    WithoutIs(list[..LIMIT], t);
    PlaceInCut(list, t);
    TakenOut(list, LIMIT, Place(list, t));
  }

  lemma CutBehind(list: seq<Connection>, t: Target)
    requires OneEach(list) && |list| > LIMIT && Place(list, t) >= LIMIT
    ensures |Without(list, t)| >= LIMIT && Without(list[..LIMIT], t) == list[..LIMIT]
    ensures Without(list, t)[..LIMIT] == list[..LIMIT]
  {
    hide Without, Place, OneEach;
    OneEachCut(list, LIMIT);
    WithoutIs(list, t);
    WithoutIs(list[..LIMIT], t);
    PlaceInCut(list, t);
    var i := Place(list, t);
    if i < |list| {
      KeptAsIs(list, LIMIT, i);
    }
  }

  /** Of a list that is too long: cutting it first and taking a target out of it first. */
  lemma CutWithout(list: seq<Connection>, t: Target)
    requires OneEach(list) && |list| > LIMIT
    ensures var (cut, rest, i) := (Without(list[..LIMIT], t), Without(list, t), Place(list, t));
            && |rest| >= LIMIT && |cut| == (if i < LIMIT then LIMIT - 1 else LIMIT)
            && cut[..LIMIT - 1] == rest[..LIMIT - 1]
            && (i >= LIMIT ==> cut == rest[..LIMIT])
  {
    hide Without, Place, OneEach;
    if Place(list, t) < LIMIT {
      CutBefore(list, t);
    } else {
      CutBehind(list, t);
      assert forall k :: 0 <= k < LIMIT - 1 ==> Without(list, t)[k] == Without(list, t)[..LIMIT][k];
    }
  }

  lemma TakenOut<T>(list: seq<T>, n: nat, i: nat)
    requires i < n < |list|
    ensures |list[..i] + list[i + 1..]| >= n && list[..n][..i] + list[..n][i + 1..] == (list[..i] + list[i + 1..])[..n - 1]
  {
  }

  lemma KeptAsIs<T>(list: seq<T>, n: nat, i: nat)
    requires n <= i < |list|
    ensures (list[..i] + list[i + 1..])[..n] == list[..n]
  {
  }

  /** Cutting the list before the next connection comes in makes no difference. */
  lemma CutThenConnect(list: seq<Connection>, c: Connection)
    requires OneEach(list)
    ensures First([c] + Without(First(list, LIMIT), c.target), LIMIT) == First([c] + Without(list, c.target), LIMIT)
  {
    if |list| > LIMIT {
      CutWithout(list, c.target);
      var cut, rest := Without(list[..LIMIT], c.target), Without(list, c.target);
      hide Without, Place, OneEach;
      FirstOfJoined(c, cut);
      FirstOfJoined(c, rest);
    }
  }

  lemma FirstOfJoined(c: Connection, list: seq<Connection>)
    requires |list| >= LIMIT - 1
    ensures First([c] + list, LIMIT) == [c] + list[..LIMIT - 1]
  {
  }

  /** But deleting an entry shows it: what was cut off does not come back. */
  lemma DeletionShows(list: seq<Connection>, t: Target)
    requires OneEach(list)
    ensures Without(First(list, 20), t) == First(Without(list, t), 20) <==> |list| <= 20 || Place(list, t) >= 20
  {
    if |list| > LIMIT {
      CutWithout(list, t);
      hide Without, Place, OneEach;
    }
  }

  lemma WithoutKeepsOneEach(list: seq<Connection>, t: Target)
    requires OneEach(list)
    ensures OneEach(Without(list, t))
  {
    WithoutIs(list, t);
    hide Without;
  }

  lemma {:induction false} NewestOneEach(log: seq<Connection>)
    ensures OneEach(Newest(log))
  {
    if log != [] {
      var n := |log| - 1;
      NewestOneEach(log[..n]);
      WithoutKeepsOneEach(Newest(log[..n]), log[n].target);
    }
  }

  /** When the target was last connected to, or -1. */
  function LastUse(log: seq<Connection>, t: Target): (k: int)
    ensures -1 <= k < |log| && (k >= 0 ==> log[k].target == t)
    ensures forall j :: k < j < |log| ==> log[j].target != t
  {
    if log == [] then -1
    else
      var n := |log| - 1;
      if log[n].target == t then n else LastUse(log[..n], t)
  }

  lemma {:induction false} WithoutMembers(list: seq<Connection>, t: Target, c: Connection)
    ensures c in Without(list, t) <==> c in list && c.target != t
  {
    if list != [] {
      var n := |list| - 1;
      WithoutMembers(list[..n], t, c);
      assert list == list[..n] + [list[n]];
    }
  }

  /** Listed are the connections after which their target was not connected to again. */
  lemma {:induction false} NewestMembers(log: seq<Connection>, c: Connection)
    ensures c in Newest(log) <==> exists k :: 0 <= k < |log| && log[k] == c && LastUse(log, c.target) == k
  {
    if log != [] {
      var n := |log| - 1;
      NewestMembers(log[..n], c);
      WithoutMembers(Newest(log[..n]), log[n].target, c);
      assert LastUse(log, c.target) == if log[n].target == c.target then n else LastUse(log[..n], c.target);
      assert log[n].target != c.target ==>
        forall k :: 0 <= k < n ==> (log[k] == c && LastUse(log, c.target) == k <==> log[..n][k] == c && LastUse(log[..n], c.target) == k);
    }
  }

  /** The latest use comes first. */
  ghost predicate ByLastUse(list: seq<Connection>, log: seq<Connection>) {
    forall i, j :: 0 <= i < j < |list| ==> LastUse(log, list[i].target) > LastUse(log, list[j].target)
  }

  lemma {:induction false} NewestInOrder(log: seq<Connection>)
    ensures ByLastUse(Newest(log), log)
  {
    if log != [] {
      var n := |log| - 1;
      var t := log[n].target;
      NewestInOrder(log[..n]);
      NewestOneEach(log[..n]);
      RestInOrder(Newest(log[..n]), t, log[..n]);
      var rest := Without(Newest(log[..n]), t);
      assert Newest(log) == [log[n]] + rest && forall i :: 0 <= i < |rest| ==> rest[i].target != t;
      hide Without, Newest;
      OneMoreUse(rest, log);
    }
  }

  lemma OneMoreUse(rest: seq<Connection>, log: seq<Connection>)
    requires log != [] && ByLastUse(rest, log[..|log| - 1])
    requires forall i :: 0 <= i < |rest| ==> rest[i].target != log[|log| - 1].target
    ensures ByLastUse([log[|log| - 1]] + rest, log)
  {
    var n := |log| - 1;
    var list := [log[n]] + rest;
    forall i | 0 <= i < |rest| ensures LastUse(log, rest[i].target) == LastUse(log[..n], rest[i].target) < n {}
    assert LastUse(log, log[n].target) == n;
    hide LastUse;
    forall i, j | 0 <= i < j < |list| ensures LastUse(log, list[i].target) > LastUse(log, list[j].target) {
      assert list[j] == rest[j - 1];
    }
  }

  lemma RestInOrder(list: seq<Connection>, t: Target, log: seq<Connection>)
    requires OneEach(list) && ByLastUse(list, log)
    ensures ByLastUse(Without(list, t), log)
  {
    hide Without, LastUse, OneEach, ByLastUse, Place;
    WithoutIs(list, t);
    if Place(list, t) < |list| {
      OneLess(list, Place(list, t), log);
    }
  }

  lemma OneLess(list: seq<Connection>, k: nat, log: seq<Connection>)
    requires k < |list| && ByLastUse(list, log)
    ensures ByLastUse(list[..k] + list[k + 1..], log)
  {
    hide LastUse;
    var rest := list[..k] + list[k + 1..];
    forall i, j | 0 <= i < j < |rest| ensures LastUse(log, rest[i].target) > LastUse(log, rest[j].target) {
      var a, b := if i < k then i else i + 1, if j < k then j else j + 1;
      assert rest[i] == list[a] && rest[j] == list[b];
    }
  }

  // ---------------------------------------------------------------- the table, ordered as it is listed

  /** Last used first; of two used at the same time the one with the larger id. */
  predicate Before(a: Entry, b: Entry) {
    a.usedAt > b.usedAt || (a.usedAt == b.usedAt && a.id > b.id)
  }

  predicate Listed(list: seq<Entry>) {
    forall i, j :: 0 <= i < j < |list| ==> Before(list[i], list[j])
  }

  function Insert(e: Entry, list: seq<Entry>): (result: seq<Entry>)
    ensures forall x :: x in result <==> x == e || x in list
  {
    if list == [] || Before(e, list[0]) then [e] + list
    else
      assert list == [list[0]] + list[1..];
      [list[0]] + Insert(e, list[1..])
  }

  /** ORDER BY last_used_at DESC, id DESC. */
  function Listing(entries: seq<Entry>): (list: seq<Entry>)
    ensures forall x :: x in list <==> x in entries
  {
    if entries == [] then []
    else
      assert entries == entries[..|entries| - 1] + [entries[|entries| - 1]];
      Insert(entries[|entries| - 1], Listing(entries[..|entries| - 1]))
  }

  ghost predicate DistinctIds(entries: seq<Entry>) {
    forall i, j :: 0 <= i < j < |entries| ==> entries[i].id != entries[j].id
  }

  lemma {:induction false} InsertListed(e: Entry, list: seq<Entry>)
    requires Listed(list) && forall x :: x in list ==> x.id != e.id
    ensures Listed(Insert(e, list))
  {
    if list != [] && !Before(e, list[0]) {
      assert list == [list[0]] + list[1..];
      assert list[0].id != e.id;
      assert Before(list[0], e);
      InsertListed(e, list[1..]);
      var rest := Insert(e, list[1..]);
      forall j | 0 <= j < |rest| ensures Before(list[0], rest[j]) {
        assert rest[j] in rest;
        if rest[j] != e {
          var k :| 0 <= k < |list[1..]| && list[1..][k] == rest[j];
          assert list[k + 1] == rest[j];
        }
      }
    } else if list != [] {
      forall j | 0 <= j < |list| ensures Before(e, list[j]) {}
    }
  }

  lemma {:induction false} ListingListed(entries: seq<Entry>)
    requires DistinctIds(entries)
    ensures Listed(Listing(entries))
  {
    if entries != [] {
      var n := |entries| - 1;
      ListingListed(entries[..n]);
      InsertListed(entries[n], Listing(entries[..n]));
    }
  }

  lemma HeadsAgree(a: seq<Entry>, b: seq<Entry>)
    requires Listed(a) && Listed(b) && a != [] && forall x :: x in a <==> x in b
    ensures b != [] && a[0] == b[0]
    ensures forall x :: x in a[1..] <==> x in b[1..]
  {
    assert a[0] in b && b != [] && b[0] in a;
    var i :| 0 <= i < |a| && a[i] == b[0];
    var j :| 0 <= j < |b| && b[j] == a[0];
    LaterAfterHead(a, i);
    LaterAfterHead(b, j);
    HeadOnce(a);
    HeadOnce(b);
  }

  lemma LaterAfterHead(a: seq<Entry>, i: nat)
    requires Listed(a) && i < |a|
    ensures i == 0 || Before(a[0], a[i])
  {
  }

  lemma HeadOnce(a: seq<Entry>)
    requires Listed(a) && a != []
    ensures forall x :: x in a[1..] <==> x in a && x != a[0]
  {
    assert a == [a[0]] + a[1..];
    forall x | x in a[1..] ensures x != a[0] {
      var k :| 0 <= k < |a[1..]| && a[1..][k] == x;
      assert Before(a[0], a[k + 1]);
    }
  }

  /** Rows have one order only. */
  lemma {:induction false} OneOrder(a: seq<Entry>, b: seq<Entry>)
    requires Listed(a) && Listed(b) && forall x :: x in a <==> x in b
    ensures a == b
  {
    if a == [] {
      if b != [] {
        HeadsAgree(b, a);
      }
    } else {
      HeadsAgree(a, b);
      OneOrder(a[1..], b[1..]);
      assert a == [a[0]] + a[1..] && b == [b[0]] + b[1..];
    }
  }

  // ---------------------------------------------------------------- rows taken out

  function Filter(list: seq<Entry>, keep: Entry -> bool): (kept: seq<Entry>)
    ensures forall x :: x in kept <==> x in list && keep(x)
  {
    if list == [] then []
    else
      var n := |list| - 1;
      assert list == list[..n] + [list[n]];
      Filter(list[..n], keep) + if keep(list[n]) then [list[n]] else []
  }

  lemma {:induction false} FilterListed(list: seq<Entry>, keep: Entry -> bool)
    requires Listed(list)
    ensures Listed(Filter(list, keep))
  {
    if list != [] {
      var n := |list| - 1;
      FilterListed(list[..n], keep);
      var before := Filter(list[..n], keep);
      forall i | 0 <= i < |before| ensures Before(before[i], list[n]) {
        assert before[i] in before;
        var k :| 0 <= k < n && list[..n][k] == before[i];
        assert Before(list[k], list[n]);
      }
    }
  }

  /** No two rows agree on the id or on the target. */
  ghost predicate Separate(entries: seq<Entry>) {
    forall i, j :: 0 <= i < j < |entries| ==>
      entries[i].id != entries[j].id && entries[i].connection.target != entries[j].connection.target
  }

  lemma {:induction false} FilterSeparate(list: seq<Entry>, keep: Entry -> bool)
    requires Separate(list)
    ensures Separate(Filter(list, keep))
  {
    if list != [] {
      var n := |list| - 1;
      FilterSeparate(list[..n], keep);
      var before := Filter(list[..n], keep);
      forall i | 0 <= i < |before|
        ensures before[i].id != list[n].id && before[i].connection.target != list[n].connection.target
      {
        assert before[i] in before;
        var k :| 0 <= k < n && list[..n][k] == before[i];
      }
    }
  }

  function NotTo(t: Target): Entry -> bool {
    (e: Entry) => e.connection.target != t
  }

  function Shown(list: seq<Entry>): (shown: seq<Connection>)
    ensures |shown| == |list| && forall i :: 0 <= i < |list| ==> shown[i] == list[i].connection
  {
    seq(|list|, i requires 0 <= i < |list| => list[i].connection)
  }

  lemma WithoutAppend(list: seq<Connection>, c: Connection, t: Target)
    ensures Without(list + [c], t) == Without(list, t) + if c.target == t then [] else [c]
  {
    assert (list + [c])[..|list|] == list;
  }

  lemma ShownAppend(list: seq<Entry>, e: Entry)
    ensures Shown(list + [e]) == Shown(list) + [e.connection]
  {
  }

  lemma {:induction false} ShownFilter(list: seq<Entry>, t: Target)
    ensures Shown(Filter(list, NotTo(t))) == Without(Shown(list), t)
  {
    if list != [] {
      var n := |list| - 1;
      ShownFilter(list[..n], t);
      assert list == list[..n] + [list[n]];
      var before := Filter(list[..n], NotTo(t));
      assert Filter(list, NotTo(t)) == before + if list[n].connection.target != t then [list[n]] else [];
      hide Filter, Without, Shown;
      ShownAppend(list[..n], list[n]);
      WithoutAppend(Shown(list[..n]), list[n].connection, t);
      ShownAppend(before, list[n]);
    }
  }

  // ---------------------------------------------------------------- recording

  /** The newest connection is listed first, the others as before. */
  lemma RecordedListing(entries: seq<Entry>, next: seq<Entry>, e: Entry)
    requires Separate(entries) && Separate(next) && forall x :: x in entries ==> x.usedAt < e.usedAt
    requires forall x :: x in next <==> x == e || (x in entries && x.connection.target != e.connection.target)
    ensures Listing(next) == [e] + Filter(Listing(entries), NotTo(e.connection.target))
  {
    var others := Filter(Listing(entries), NotTo(e.connection.target));
    ListingListed(entries);
    ListingListed(next);
    FilterListed(Listing(entries), NotTo(e.connection.target));
    forall j | 0 <= j < |others| ensures Before(e, others[j]) {
      assert others[j] in others;
    }
    assert Listed([e] + others);
    assert forall x :: x in [e] + others <==> x == e || x in others;
    hide Before, Filter, Listing, Listed;
    OneOrder(Listing(next), [e] + others);
  }

  lemma CutListing(entries: seq<Entry>, next: seq<Entry>, list: seq<Entry>)
    requires DistinctIds(entries) && DistinctIds(next) && list == Listing(entries)
    requires |list| > LIMIT && forall x :: x in next <==> x in entries && x !in list[LIMIT..]
    ensures Listing(next) == list[..LIMIT]
  {
    ListingListed(entries);
    ListingListed(next);
    CutMembers(list, LIMIT);
    hide Listing, Before;
    OneOrder(Listing(next), list[..LIMIT]);
  }

  lemma CutMembers(list: seq<Entry>, n: nat)
    requires Listed(list) && n <= |list|
    ensures Listed(list[..n]) && forall x :: x in list[..n] <==> x in list && x !in list[n..]
  {
    assert list == list[..n] + list[n..];
    forall x | x in list[..n] ensures x !in list[n..] {
      var i :| 0 <= i < n && list[i] == x;
      forall j | 0 <= j < |list[n..]| ensures list[n..][j] != x {
        assert Before(list[i], list[n + j]);
      }
    }
  }

  function NextId(entries: seq<Entry>): (id: int)
    ensures forall i :: 0 <= i < |entries| ==> entries[i].id < id
  {
    if entries == [] then 1
    else
      var n := |entries| - 1;
      var before := NextId(entries[..n]);
      if entries[n].id >= before then entries[n].id + 1 else before
  }

  class History {
    var entries: seq<Entry>
    ghost var clock: int

    ghost predicate Valid()
      reads this
    {
      Separate(entries) && forall i :: 0 <= i < |entries| ==> entries[i].usedAt <= clock
    }

    /** What the list shows. */
    ghost function Contents(): seq<Connection>
      reads this
    {
      Shown(Listing(entries))
    }

    constructor (now: int)
      ensures Valid() && Contents() == [] && clock == now
    {
      entries, clock := [], now;
    }

    method Find(t: Target) returns (k: nat)
      ensures k <= |entries| && (k < |entries| ==> entries[k].connection.target == t)
      ensures forall j :: 0 <= j < k ==> entries[j].connection.target != t
    {
      k := 0;
      while k < |entries| && entries[k].connection.target != t
        invariant k <= |entries| && forall j :: 0 <= j < k ==> entries[j].connection.target != t
      {
        k := k + 1;
      }
    }

    /** The first entry of the target, or a new one, gets the key and the time. */
    method Touch(c: Connection, now: int)
      requires Valid() && clock < now
      modifies this
      ensures Valid() && clock == now
      ensures Contents() == [c] + Without(old(Contents()), c.target)
    {
      hide Separate, Listing, Shown, Without;
      ghost var before := entries;
      var k := Find(c.target);
      var e: Entry;
      if k == |entries| {
        e := Entry(NextId(entries), c, now);
        entries := entries + [e];
      } else {
        e := Entry(entries[k].id, c, now);
        entries := entries[k := e];
      }
      clock := now;
      TouchedRows(before, entries, k, e);
      TouchedListing(before, entries, e);
    }

    method DropBeyondLimit()
      requires Valid()
      modifies this`entries
      ensures Valid() && Contents() == First(old(Contents()), LIMIT)
    {
      SeparateIds(entries);
      var list := Listing(entries);
      if |list| <= LIMIT {
        return;
      }
      var stale := list[LIMIT..];
      ghost var before := entries;
      FilterSeparate(entries, NotIn(stale));
      entries := Filter(entries, NotIn(stale));
      SeparateIds(entries);
      CutListing(before, entries, list);
      assert Shown(list[..LIMIT]) == Shown(list)[..LIMIT];
      StillNotAfter(before, entries, clock);
    }

    method Record(c: Connection, now: int)
      requires Valid() && clock < now
      modifies this
      ensures Valid() && clock == now
      ensures Contents() == First([c] + Without(old(Contents()), c.target), LIMIT)
    {
      Touch(c, now);
      DropBeyondLimit();
    }

    /** Any run of connections, each at a later time: the list shows the first 20 of the newest per target. */
    method RecordAll(log: seq<(Connection, int)>)
      requires Valid() && Contents() == []
      requires forall i :: 0 <= i < |log| ==> clock < log[i].1
      requires forall i, j :: 0 <= i < j < |log| ==> log[i].1 < log[j].1
      modifies this
      ensures Valid() && Contents() == First(Newest(Connections(log)), 20)
    {
      hide Separate, Listing, Shown, Without, Newest, First, Connections;
      NothingYet(log);
      for k := 0 to |log|
        invariant Valid() && Contents() == First(Newest(Connections(log[..k])), LIMIT)
        invariant k < |log| ==> clock < log[k].1
      {
        NewestNext(log, k);
        Record(log[k].0, log[k].1);
      }
      assert log[..|log|] == log;
    }

    method Delete(id: int) returns (removed: Option<Entry>)
      requires Valid()
      modifies this`entries
      ensures Valid()
      ensures removed.None? ==> entries == old(entries) && forall x :: x in entries ==> x.id != id
      ensures removed.Some? ==> removed.value in old(entries) && removed.value.id == id
                                && Contents() == Without(old(Contents()), removed.value.connection.target)
    {
      ghost var before := entries;
      var k := 0;
      while k < |entries| && entries[k].id != id
        invariant k <= |entries| && forall j :: 0 <= j < k ==> entries[j].id != id
      {
        k := k + 1;
      }
      if k == |entries| {
        return None;
      }
      var t := entries[k].connection.target;
      removed := Some(entries[k]);
      FilterSeparate(entries, NotTo(t));
      entries := Filter(entries, NotTo(t));
      StillNotAfter(before, entries, clock);
      DeletedListing(before, entries, t);
      ShownFilter(Listing(before), t);
    }
  }

  lemma NothingYet(log: seq<(Connection, int)>)
    ensures First(Newest(Connections(log[..0])), LIMIT) == []
  {
  }

  /** The list after one more connection, from the cut list before it. */
  lemma NewestNext(log: seq<(Connection, int)>, k: nat)
    requires k < |log|
    ensures First(Newest(Connections(log[..k + 1])), LIMIT)
            == First([log[k].0] + Without(First(Newest(Connections(log[..k])), LIMIT), log[k].0.target), LIMIT)
  {
    var before := Connections(log[..k]);
    assert Connections(log[..k + 1]) == before + [log[k].0];
    assert (before + [log[k].0])[..k] == before;
    hide Without, First, Connections, OneEach;
    NewestOneEach(before);
    CutThenConnect(Newest(before), log[k].0);
  }

  lemma TouchedListing(before: seq<Entry>, after: seq<Entry>, e: Entry)
    requires Separate(before) && Separate(after) && forall x :: x in before ==> x.usedAt < e.usedAt
    requires forall x :: x in after <==> x == e || (x in before && x.connection.target != e.connection.target)
    ensures Shown(Listing(after)) == [e.connection] + Without(Shown(Listing(before)), e.connection.target)
    ensures forall i :: 0 <= i < |after| ==> after[i].usedAt <= e.usedAt
  {
    RecordedListing(before, after, e);
    ShownFilter(Listing(before), e.connection.target);
    ShownHead(e, Filter(Listing(before), NotTo(e.connection.target)));
    forall i | 0 <= i < |after| ensures after[i].usedAt <= e.usedAt {
      assert after[i] in after;
    }
  }

  function Connections(log: seq<(Connection, int)>): (connections: seq<Connection>)
    ensures |connections| == |log| && forall i :: 0 <= i < |log| ==> connections[i] == log[i].0
  {
    seq(|log|, i requires 0 <= i < |log| => log[i].0)
  }

  function NotIn(stale: seq<Entry>): Entry -> bool {
    (e: Entry) => e !in stale
  }

  lemma SeparateIds(entries: seq<Entry>)
    requires Separate(entries)
    ensures DistinctIds(entries)
  {
  }

  lemma StillNotAfter(before: seq<Entry>, entries: seq<Entry>, clock: int)
    requires forall i :: 0 <= i < |before| ==> before[i].usedAt <= clock
    requires forall x :: x in entries ==> x in before
    ensures forall i :: 0 <= i < |entries| ==> entries[i].usedAt <= clock
  {
    forall i | 0 <= i < |entries| ensures entries[i].usedAt <= clock {
      assert entries[i] in entries;
    }
  }

  lemma ShownHead(e: Entry, rest: seq<Entry>)
    ensures Shown([e] + rest) == [e.connection] + Shown(rest)
  {
  }

  lemma TouchedRows(before: seq<Entry>, after: seq<Entry>, k: nat, e: Entry)
    requires Separate(before) && k <= |before|
    requires forall j :: 0 <= j < k ==> before[j].connection.target != e.connection.target
    requires if k == |before| then after == before + [e] && forall j :: 0 <= j < |before| ==> before[j].id < e.id
             else before[k].connection.target == e.connection.target && before[k].id == e.id && after == before[k := e]
    ensures Separate(after)
    ensures forall x :: x in after <==> x == e || (x in before && x.connection.target != e.connection.target)
  {
    forall x | x in before && x.connection.target != e.connection.target ensures x in after {
      var j :| 0 <= j < |before| && before[j] == x;
      assert after[j] == x;
    }
    forall x | x in after && x != e ensures x in before && x.connection.target != e.connection.target {
      var j :| 0 <= j < |after| && after[j] == x;
      assert before[j] == x;
    }
    assert after[k] == e;
  }

  lemma DeletedListing(before: seq<Entry>, after: seq<Entry>, t: Target)
    requires Separate(before) && Separate(after) && after == Filter(before, NotTo(t))
    ensures Listing(after) == Filter(Listing(before), NotTo(t))
  {
    ListingListed(before);
    ListingListed(after);
    FilterListed(Listing(before), NotTo(t));
    OneOrder(Listing(after), Filter(Listing(before), NotTo(t)));
  }
}
