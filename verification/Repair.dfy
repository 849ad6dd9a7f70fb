/**
 The start-up repair of device addresses (backend/app/database/migrations.py, _repair_corrupted_devices):
 records with an "offline-" address or a placeholder get a usable one, without taking anybody else's.
 */
module Repair {
  import opened Wrappers
  import opened Texts
  import opened Networks
  import opened Placeholders

  datatype Record = Record(ip: Address, oldIp: Option<Address>, name: string, online: bool, placeholder: bool)

  /** The running containers with their addresses, in order, and the fuzzy comparison of names. */
  datatype Containers = Containers(running: seq<(string, Address)>, fuzzy: (string, string) -> bool)

  /** SQL's `ip LIKE 'offline-%'`, which ignores case. */
  predicate LooksOffline(a: Address) {
    a.Other? && "offline-" <= Lower(a.text)
  }

  predicate Corrupted(r: Record) {
    LooksOffline(r.ip) || r.placeholder
  }

  predicate IsFree(candidate: Address, used: set<Address>, current: Address) {
    candidate !in used || candidate == current
  }

  function ContainerAddress(r: Record, used: set<Address>, c: Containers, from: nat): (found: Option<Address>)
    requires from <= |c.running|
    ensures found.Some? ==> IsFree(found.value, used, r.ip) && exists k :: 0 <= k < |c.running| && c.running[k].1 == found.value
    decreases |c.running| - from
  {
    if from == |c.running| then None
    else
      var (name, ip) := c.running[from];
      if c.fuzzy(Lower(r.name), name) && IsFree(ip, used, r.ip) then Some(ip) else ContainerAddress(r, used, c, from + 1)
  }

  /** The container's address, else the former one, else the next free placeholder. */
  function RepairOne(r: Record, used: set<Address>, c: Containers): (repaired: Record)
    ensures repaired.name == r.name && repaired.oldIp == r.oldIp
  {
    var container := ContainerAddress(r, used, c, 0);
    if container.Some? then r.(ip := container.value, online := true, placeholder := false)
    else if Reusable(r.oldIp) && r.oldIp.value !in used then
      r.(ip := r.oldIp.value, online := false, placeholder := true)
    else r.(ip := PlaceholderAt(FirstFree(used, 0)), online := false, placeholder := true)
  }

  /** The records from position i on, one after another, with the set of used addresses kept along. */
  function RepairFrom(records: seq<Record>, used: set<Address>, c: Containers, i: nat): (result: (seq<Record>, set<Address>))
    requires i <= |records|
    ensures |result.0| == |records|
    decreases |records| - i
  {
    if i == |records| then (records, used)
    else if Corrupted(records[i]) then
      var repaired := RepairOne(records[i], used, c);
      RepairFrom(records[i := repaired], used - {records[i].ip} + {repaired.ip}, c, i + 1)
    else RepairFrom(records, used, c, i + 1)
  }

  ghost predicate Distinct(records: seq<Record>) {
    forall i, j :: 0 <= i < j < |records| ==> records[i].ip != records[j].ip
  }

  function AddressesOf(records: seq<Record>): set<Address> {
    set i | 0 <= i < |records| :: records[i].ip
  }

  /** Text of the dotted shape, or one of the generic names, never looks offline. */
  predicate WellShaped(a: Address) {
    a.Other? && a.ipLike ==> !LooksOffline(a)
  }

  predicate GoodContainers(c: Containers) {
    forall k :: 0 <= k < |c.running| ==> !LooksOffline(c.running[k].1)
  }

  predicate GoodRecords(records: seq<Record>) {
    forall i :: 0 <= i < |records| && records[i].oldIp.Some? ==> WellShaped(records[i].oldIp.value)
  }

  /** The new address is the record's own or one that nobody used. */
  lemma RepairOneIsFree(r: Record, used: set<Address>, c: Containers)
    ensures IsFree(RepairOne(r, used, c).ip, used, r.ip)
  {
    if ContainerAddress(r, used, c, 0).None? && !(Reusable(r.oldIp) && r.oldIp.value !in used) {
      assert PlaceholderAt(FirstFree(used, 0)) !in used;
    }
  }

  lemma RepairOneIsNotOffline(r: Record, used: set<Address>, c: Containers)
    requires GoodContainers(c) && (r.oldIp.Some? ==> WellShaped(r.oldIp.value))
    ensures !LooksOffline(RepairOne(r, used, c).ip)
  {
    hide Lower, FirstFree;
  }

  /** Repairing always changes the record: the fallbacks never choose the address it has. */
  lemma RepairOneChanges(r: Record, used: set<Address>, c: Containers)
    requires Corrupted(r) && r.ip in used && GoodContainers(c)
    ensures RepairOne(r, used, c) != r
  {
    hide Lower;
    if ContainerAddress(r, used, c, 0).None? && !(Reusable(r.oldIp) && r.oldIp.value !in used) {
      assert PlaceholderAt(FirstFree(used, 0)) !in used;
    }
  }

  predicate Lends(c: Containers, k: nat, r: Record, used: set<Address>)
    requires k < |c.running|
  {
    c.fuzzy(Lower(r.name), c.running[k].0) && IsFree(c.running[k].1, used, r.ip)
  }

  /** The containers are tried in order, and the first one that can lend its address does. */
  lemma {:induction false} FirstLender(r: Record, used: set<Address>, c: Containers, from: nat) returns (k: nat)
    requires from <= |c.running|
    ensures from <= k <= |c.running| && forall j: nat :: from <= j < k ==> !Lends(c, j, r, used)
    ensures k == |c.running| ==> ContainerAddress(r, used, c, from).None?
    ensures k < |c.running| ==> Lends(c, k, r, used) && ContainerAddress(r, used, c, from) == Some(c.running[k].1)
    decreases |c.running| - from
  {
    hide Lower, IsFree;
    if from == |c.running| || Lends(c, from, r, used) {
      k := from;
    } else {
      k := FirstLender(r, used, c, from + 1);
    }
  }

  /** A repaired record is online, and no placeholder any more, exactly when a container lends it an address. */
  lemma OnlyContainersRevive(r: Record, used: set<Address>, c: Containers)
    ensures var repaired := RepairOne(r, used, c);
            && repaired.placeholder == !repaired.online
            && (repaired.online <==> exists k: nat :: k < |c.running| && Lends(c, k, r, used))
            && (repaired.online ==> exists k: nat :: k < |c.running| && Lends(c, k, r, used) && repaired.ip == c.running[k].1)
  {
    hide Lower, IsFree, Lends, ContainerAddress;
    var k := FirstLender(r, used, c, 0);
  }

  lemma SwapKeepsDistinct(records: seq<Record>, i: nat, r: Record)
    requires i < |records| && Distinct(records) && IsFree(r.ip, AddressesOf(records), records[i].ip)
    ensures Distinct(records[i := r])
    ensures AddressesOf(records[i := r]) == AddressesOf(records) - {records[i].ip} + {r.ip}
  {
    var next := records[i := r];
    forall j | 0 <= j < |records| && j != i
      ensures next[j] == records[j] && records[j].ip != records[i].ip && records[j].ip != r.ip
    {
      assert records[j].ip in AddressesOf(records);
    }
    forall a | a in AddressesOf(records) - {records[i].ip} + {r.ip} ensures a in AddressesOf(next) {
      if a == r.ip {
        assert next[i].ip == a;
      } else {
        var j :| 0 <= j < |records| && records[j].ip == a;
        assert next[j].ip == a;
      }
    }
  }

  /** The set kept along is the set of addresses all the time, and no two records share one. */
  lemma {:induction false} RepairKeepsDistinct(records: seq<Record>, used: set<Address>, c: Containers, i: nat)
    requires i <= |records| && Distinct(records) && used == AddressesOf(records)
    ensures var (repaired, after) := RepairFrom(records, used, c, i);
            Distinct(repaired) && after == AddressesOf(repaired)
    decreases |records| - i
  {
    if i < |records| {
      if Corrupted(records[i]) {
        var r := RepairOne(records[i], used, c);
        RepairOneIsFree(records[i], used, c);
        hide RepairOne, Distinct, AddressesOf, Corrupted;
        SwapKeepsDistinct(records, i, r);
        RepairKeepsDistinct(records[i := r], used - {records[i].ip} + {r.ip}, c, i + 1);
      } else {
        RepairKeepsDistinct(records, used, c, i + 1);
      }
    }
  }

  lemma RepairedIsFine(records: seq<Record>, used: set<Address>, c: Containers, i: nat)
    requires i < |records| && used == AddressesOf(records) && GoodContainers(c) && GoodRecords(records)
    requires Corrupted(records[i])
    ensures var r := RepairOne(records[i], used, c);
            && IsFree(r.ip, used, records[i].ip) && !LooksOffline(r.ip) && r != records[i]
            && GoodRecords(records[i := r])
  {
    assert records[i].ip in used;
    RepairOneIsFree(records[i], used, c);
    RepairOneIsNotOffline(records[i], used, c);
    RepairOneChanges(records[i], used, c);
    hide RepairOne, LooksOffline, AddressesOf;
  }

  /** Which records change: exactly the corrupted ones, in their address and the two flags only. */
  lemma {:induction false} RepairTouches(records: seq<Record>, used: set<Address>, c: Containers, i: nat)
    requires i <= |records| && Distinct(records) && used == AddressesOf(records) && GoodContainers(c) && GoodRecords(records)
    ensures var repaired := RepairFrom(records, used, c, i).0;
            && repaired[..i] == records[..i]
            && (forall j :: i <= j < |records| ==>
                  && repaired[j].name == records[j].name && repaired[j].oldIp == records[j].oldIp
                  && (repaired[j] == records[j] <==> !Corrupted(records[j]))
                  && !LooksOffline(repaired[j].ip))
    decreases |records| - i
  {
    if i < |records| {
      if Corrupted(records[i]) {
        var r := RepairOne(records[i], used, c);
        RepairedIsFine(records, used, c, i);
        var next := records[i := r];
        hide RepairOne, Distinct, AddressesOf, Corrupted, IsFree, GoodContainers, GoodRecords, LooksOffline;
        SwapKeepsDistinct(records, i, r);
        RepairTouches(next, used - {records[i].ip} + {r.ip}, c, i + 1);
        var repaired := RepairFrom(next, used - {records[i].ip} + {r.ip}, c, i + 1).0;
        assert repaired[i] == repaired[..i + 1][i] == r;
        assert repaired[..i] == repaired[..i + 1][..i] == records[..i];
      } else {
        RepairTouches(records, used, c, i + 1);
        var repaired := RepairFrom(records, used, c, i + 1).0;
        assert repaired[i] == repaired[..i + 1][i] == records[i];
        assert repaired[..i] == repaired[..i + 1][..i];
      }
    }
  }

  /** Repairing at start-up is settled exactly when there is nothing to repair. */
  lemma RepairSettled(records: seq<Record>, c: Containers)
    requires Distinct(records) && GoodContainers(c) && GoodRecords(records)
    ensures RepairFrom(records, AddressesOf(records), c, 0).0 == records
            <==> forall j :: 0 <= j < |records| ==> !Corrupted(records[j])
  {
    RepairTouches(records, AddressesOf(records), c, 0);
    var repaired := RepairFrom(records, AddressesOf(records), c, 0).0;
    if j :| 0 <= j < |records| && Corrupted(records[j]) {
      assert repaired[j] != records[j];
    } else {
      assert forall j :: 0 <= j < |records| ==> repaired[j] == records[j];
    }
  }

  /** A device that no container lends an address and that came from nowhere alternates between two placeholders. */
  lemma LoneDeviceAlternates(r: Record, c: Containers)
    requires r.placeholder && !Reusable(r.oldIp) && c.running == [] && r.ip == V4(0)
    ensures var first := RepairFrom([r], AddressesOf([r]), c, 0).0;
            var second := RepairFrom(first, AddressesOf(first), c, 0).0;
            first[0].ip == V4(1) && second[0].ip == V4(0)
  {
    LoneRepair(r, c, 1);
    var next := RepairOne(r, {r.ip}, c);
    LoneRepair(next, c, 0);
  }

  lemma LoneRepair(r: Record, c: Containers, n: nat)
    requires r.placeholder && !Reusable(r.oldIp) && c.running == [] && n < 2 && r.ip == PlaceholderAt(1 - n)
    ensures RepairFrom([r], AddressesOf([r]), c, 0).0 == [RepairOne(r, {r.ip}, c)]
    ensures RepairOne(r, {r.ip}, c).ip == PlaceholderAt(n) && RepairOne(r, {r.ip}, c).placeholder
  {
    hide Reusable;
    assert AddressesOf([r]) == {r.ip} by {
      assert [r][0].ip == r.ip;
    }
    var m := FirstFree({r.ip}, 0);
    if n == 1 {
      assert PlaceholderAt(m) != PlaceholderAt(0) && PlaceholderAt(1) !in {r.ip};
      assert m == 1;
    } else {
      assert PlaceholderAt(0) !in {r.ip};
      assert m == 0;
    }
    var next := [r][0 := RepairOne(r, {r.ip}, c)];
    assert next == [RepairOne(r, {r.ip}, c)];
    assert RepairFrom(next, {r.ip} - {r.ip} + {RepairOne(r, {r.ip}, c).ip}, c, 1).0 == next;
  }

  // ---------------------------------------------------------------- one record in its turn

  /** An address that begins with "offline-", in upper or lower case. */
  lemma OfflineInAnyCase(a: Address)
    ensures LooksOffline(a) <==> a.Other? && |a.text| >= 8 && forall k :: 0 <= k < 8 ==> SameLetter(a.text[k], "offline-"[k])
  {
    if a.Other? && |a.text| >= 8 {
      var lower := Lower(a.text);
      assert lower[..8] == "offline-" <==> "offline-" <= lower;
      assert lower[..8] == "offline-" <==> forall k :: 0 <= k < 8 ==> lower[k] == "offline-"[k];
      forall k | 0 <= k < 8 ensures lower[k] == "offline-"[k] <==> SameLetter(a.text[k], "offline-"[k]) {
        assert !('A' <= "offline-"[k] <= 'Z');
      }
    }
  }

  /** Some device of the table has the address. */
  ghost predicate Taken(records: seq<Record>, a: Address) {
    exists i :: 0 <= i < |records| && records[i].ip == a
  }

  /** The table when it is the turn of position j: repaired before it, untouched from there on. */
  ghost function AtTurn(repaired: seq<Record>, records: seq<Record>, j: nat): seq<Record>
    requires j <= |records| == |repaired|
  {
    repaired[..j] + records[j..]
  }

  /** Container k has a name like that of the record, and an address that is the record's own or nobody's. */
  ghost predicate CanLend(c: Containers, k: nat, r: Record, table: seq<Record>) {
    && k < |c.running| && c.fuzzy(Lower(r.name), c.running[k].0)
    && (c.running[k].1 == r.ip || !Taken(table, c.running[k].1))
  }

  ghost predicate NobodyLends(c: Containers, r: Record, table: seq<Record>) {
    forall k: nat :: k < |c.running| ==> !CanLend(c, k, r, table)
  }

  ghost predicate FirstToLend(c: Containers, k: nat, r: Record, table: seq<Record>) {
    CanLend(c, k, r, table) && forall m: nat :: m < k ==> !CanLend(c, m, r, table)
  }

  ghost predicate FirstPlaceholder(table: seq<Record>, n: nat) {
    !Taken(table, PlaceholderAt(n)) && forall m: nat :: m < n ==> Taken(table, PlaceholderAt(m))
  }

  /** The former address of the record can be given back. */
  ghost predicate Restorable(r: Record, table: seq<Record>) {
    Reusable(r.oldIp) && !Taken(table, r.oldIp.value)
  }

  /** The first container that can lend, else the former address, else the first placeholder that nobody has. */
  ghost predicate WellRepaired(r: Record, repaired: Record, table: seq<Record>, c: Containers) {
    && (forall k: nat :: FirstToLend(c, k, r, table) ==>
          repaired == r.(ip := c.running[k].1, online := true, placeholder := false))
    && (NobodyLends(c, r, table) && Restorable(r, table) ==>
          repaired == r.(ip := r.oldIp.value, online := false, placeholder := true))
    && (NobodyLends(c, r, table) && !Restorable(r, table) ==>
          exists n: nat :: FirstPlaceholder(table, n)
            && repaired == r.(ip := PlaceholderAt(n), online := false, placeholder := true))
  }

  lemma TakenIsUsed(table: seq<Record>)
    ensures forall a :: Taken(table, a) <==> a in AddressesOf(table)
  {
  }

  lemma LendsMeans(r: Record, table: seq<Record>, c: Containers, k: nat)
    requires k < |c.running|
    ensures Lends(c, k, r, AddressesOf(table)) <==> CanLend(c, k, r, table)
  {
    TakenIsUsed(table);
    hide Lower, AddressesOf, Taken;
  }

  lemma RepairOneIsWell(r: Record, table: seq<Record>, c: Containers)
    ensures WellRepaired(r, RepairOne(r, AddressesOf(table), c), table, c)
  {
    TakenIsUsed(table);
    var used := AddressesOf(table);
    var k := FirstLender(r, used, c, 0);
    forall m: nat | m < |c.running| ensures Lends(c, m, r, used) <==> CanLend(c, m, r, table) {
      LendsMeans(r, table, c, m);
    }
    var n := FirstFree(used, 0);
    assert FirstPlaceholder(table, n);
    hide Lends, CanLend, Taken, AddressesOf, Lower, Reusable, FirstPlaceholder, ContainerAddress, PlaceholderAt, FirstFree;
    if k < |c.running| {
      assert CanLend(c, k, r, table);
      forall m: nat | FirstToLend(c, m, r, table) ensures m == k {
        assert CanLend(c, m, r, table) && m < |c.running| by { CanLendBound(c, m, r, table); }
      }
    } else {
      forall m: nat | FirstToLend(c, m, r, table) ensures false {
        CanLendBound(c, m, r, table);
      }
    }
  }

  lemma CanLendBound(c: Containers, k: nat, r: Record, table: seq<Record>)
    requires CanLend(c, k, r, table)
    ensures k < |c.running|
  {
  }

  lemma {:induction false} EarlierStay(records: seq<Record>, used: set<Address>, c: Containers, i: nat, j: nat)
    requires j < i <= |records|
    ensures RepairFrom(records, used, c, i).0[j] == records[j]
    decreases |records| - i
  {
    hide RepairOne, Corrupted;
    if i < |records| {
      if Corrupted(records[i]) {
        var r := RepairOne(records[i], used, c);
        EarlierStay(records[i := r], used - {records[i].ip} + {r.ip}, c, i + 1, j);
      } else {
        EarlierStay(records, used, c, i + 1, j);
      }
    }
  }

  lemma {:induction false} TurnFrom(records: seq<Record>, used: set<Address>, c: Containers, i: nat, j: nat)
    requires i <= j < |records| && Distinct(records) && used == AddressesOf(records)
    ensures var repaired := RepairFrom(records, used, c, i).0;
            && (Corrupted(records[j]) ==> WellRepaired(records[j], repaired[j], AtTurn(repaired, records, j), c))
            && (!Corrupted(records[j]) ==> repaired[j] == records[j])
    decreases |records| - i
  {
    var repaired := RepairFrom(records, used, c, i).0;
    var r := RepairOne(records[i], used, c);
    var next := records[i := r];
    RepairOneIsFree(records[i], used, c);
    RepairOneIsWell(records[i], records, c);
    hide RepairOne, WellRepaired, Distinct, AddressesOf, Corrupted, IsFree;
    if i == j {
      forall k | 0 <= k < i ensures repaired[k] == records[k] {
        EarlierStay(records, used, c, i, k);
      }
      assert AtTurn(repaired, records, j) == records;
      if Corrupted(records[i]) {
        EarlierStay(next, used - {records[i].ip} + {r.ip}, c, i + 1, i);
      } else {
        EarlierStay(records, used, c, i + 1, i);
      }
    } else if Corrupted(records[i]) {
      SwapKeepsDistinct(records, i, r);
      TurnFrom(next, used - {records[i].ip} + {r.ip}, c, i + 1, j);
      assert AtTurn(repaired, next, j) == AtTurn(repaired, records, j);
    } else {
      TurnFrom(records, used, c, i + 1, j);
    }
  }

  /** Every corrupted record is repaired with regard to the table as it is when its turn comes; the others stay. */
  lemma RepairTurn(records: seq<Record>, c: Containers, j: nat)
    requires Distinct(records) && j < |records|
    ensures var repaired := RepairFrom(records, AddressesOf(records), c, 0).0;
            && (Corrupted(records[j]) ==> WellRepaired(records[j], repaired[j], AtTurn(repaired, records, j), c))
            && (!Corrupted(records[j]) ==> repaired[j] == records[j])
  {
    TurnFrom(records, AddressesOf(records), c, 0, j);
  }

  /** Without containers a device that was hidden under an "offline-" address gets its former IPv4 address back. */
  lemma FormerAddressReturns(records: seq<Record>, c: Containers, j: nat, bits: nat)
    requires Distinct(records) && c.running == [] && j < |records| && LooksOffline(records[j].ip)
    requires records[j].oldIp == Some(V4(bits))
    requires forall i :: 0 <= i < |records| ==> records[i].ip != V4(bits)
    requires forall i :: 0 <= i < j ==> !Corrupted(records[i])
    ensures RepairFrom(records, AddressesOf(records), c, 0).0[j]
            == records[j].(ip := V4(bits), online := false, placeholder := true)
  {
    hide RepairFrom, WellRepaired, Corrupted, Distinct, AddressesOf;
    RepairTurn(records, c, j);
    var repaired := RepairFrom(records, AddressesOf(records), c, 0).0;
    forall i: nat | i < j ensures repaired[i] == records[i] {
      RepairTurn(records, c, i);
    }
    assert AtTurn(repaired, records, j) == records;
    IsCorrupted(records[j]);
    FormerIsFree(records, repaired[j], c, j, bits);
  }

  lemma IsCorrupted(r: Record)
    requires LooksOffline(r.ip)
    ensures Corrupted(r)
  {
  }

  lemma FormerIsFree(records: seq<Record>, repaired: Record, c: Containers, j: nat, bits: nat)
    requires c.running == [] && j < |records| && records[j].oldIp == Some(V4(bits))
    requires forall i :: 0 <= i < |records| ==> records[i].ip != V4(bits)
    requires WellRepaired(records[j], repaired, records, c)
    ensures repaired == records[j].(ip := V4(bits), online := false, placeholder := true)
  {
    hide FirstToLend, FirstPlaceholder;
    assert NobodyLends(c, records[j], records) && Restorable(records[j], records);
  }

  // ---------------------------------------------------------------- the table, repaired in place

  lemma {:induction false} NothingToRepair(records: seq<Record>, used: set<Address>, c: Containers, i: nat)
    requires i <= |records| && forall j :: i <= j < |records| ==> !Corrupted(records[j])
    ensures RepairFrom(records, used, c, i).0 == records
    decreases |records| - i
  {
    if i < |records| {
      NothingToRepair(records, used, c, i + 1);
    }
  }

  /** The devices that were corrupted at the start, one after another. */
  method RepairCorrupted(devices: array<Record>, c: Containers)
    modifies devices
    ensures devices[..] == RepairFrom(old(devices[..]), AddressesOf(old(devices[..])), c, 0).0
  {
    ghost var before := devices[..];
    var corrupted := seq(devices.Length, i requires 0 <= i < devices.Length reads devices => Corrupted(devices[i]));
    if true !in corrupted {
      assert forall j :: 0 <= j < |before| ==> corrupted[j] == Corrupted(before[j]);
      NothingToRepair(before, AddressesOf(before), c, 0);
      return;
    }
    var used := AddressesOf(devices[..]);
    for i := 0 to devices.Length
      invariant forall j :: i <= j < devices.Length ==> devices[j] == before[j]
      invariant RepairFrom(devices[..], used, c, i).0 == RepairFrom(before, AddressesOf(before), c, 0).0
    {
      if corrupted[i] {
        ghost var previous := devices[..];
        var dev := devices[i];
        var repaired := RepairOne(dev, used, c);
        used := used - {dev.ip};
        used := used + {repaired.ip};
        devices[i] := repaired;
        assert devices[..] == previous[i := repaired];
      }
    }
  }
}
