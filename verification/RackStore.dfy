/**
 The rack requests (backend/app/api/rack_cabling.py, backend/app/api/topology.py). Each request is checked
 and applied in one step; ids of new rows are any that the table does not hold yet.
 */
module RackStore {
  import opened Wrappers
  import opened Racks

  /** Any member, as a loop over a set takes them. */
  method TakeAny<T(==)>(s: set<T>) returns (x: T)
    requires s != {}
    ensures x in s
  {
    x :| x in s;
  }

  ghost predicate Below(ids: set<int>, id: int) {
    forall k :: k in ids ==> k < id
  }

  /** An id above all that exist. */
  method FreshId(ids: set<int>) returns (id: int)
    ensures Below(ids, id)
  {
    id := 1;
    var rest := ids;
    while rest != {}
      invariant rest <= ids && Below(ids - rest, id)
    {
      var k := TakeAny(rest);
      assert ids - (rest - {k}) == (ids - rest) + {k};
      rest := rest - {k};
      if id <= k {
        id := k + 1;
      }
    }
    assert ids - rest == ids;
  }

  // ---------------------------------------------------------------- what setting ports means

  /** The ports that stay, with their new kind and side. */
  ghost function Trimmed(ports: map<int, Port>, owner: Owner, count: nat, kind: string, side: Side): map<int, Port> {
    map p | p in ports && (ports[p].owner != owner || ports[p].number <= count) ::
      if ports[p].owner == owner then ports[p].(kind := kind, side := side) else ports[p]
  }

  ghost predicate HasNumber(ports: map<int, Port>, owner: Owner, number: int) {
    exists p :: p in ports && ports[p].owner == owner && ports[p].number == number
  }

  /**
   The owner has exactly the ports 1 .. count, all of one kind and side; ports that were in range keep
   their ids, and nobody else's ports change.
   */
  ghost predicate PortsSet(before: map<int, Port>, after: map<int, Port>, owner: Owner, count: nat, kind: string, side: Side) {
    var kept := Trimmed(before, owner, count, kind, side);
    && (forall p :: p in kept ==> p in after && after[p] == kept[p])
    && (forall p :: p in after && p !in kept ==>
          p !in before && after[p].owner == owner && after[p].kind == kind && after[p].side == side)
    && (forall p :: p in after && after[p].owner == owner ==> 1 <= after[p].number <= count)
    && (forall n :: 1 <= n <= count ==> HasNumber(after, owner, n))
    && (forall p, q :: p in after && q in after && p != q && after[p].owner == owner && after[q].owner == owner ==>
          after[p].number != after[q].number)
  }

  /** All ports of the owner are of the kind and side then, those that stay are the same as before, and no other owner's change. */
  lemma PortsSetMeans(before: map<int, Port>, after: map<int, Port>, owner: Owner, count: nat, kind: string, side: Side)
    requires PortsSet(before, after, owner, count, kind, side)
    ensures forall p :: p in after && after[p].owner == owner ==> after[p].kind == kind && after[p].side == side
    ensures forall p :: p in before && before[p].owner == owner && before[p].number <= count ==>
              p in after && after[p] == Port(owner, before[p].number, kind, side)
    ensures forall p :: p in before && before[p].owner == owner && before[p].number > count ==> p !in after
    ensures forall p :: p in before && before[p].owner != owner ==> p in after && after[p] == before[p]
    ensures forall p :: p in after && after[p].owner != owner ==> p in before
  {
    hide HasNumber;
    var kept := Trimmed(before, owner, count, kind, side);
    forall p | p in after ensures p in kept || (p !in before && after[p].kind == kind && after[p].side == side) {}
    forall p | p in before && before[p].owner == owner && before[p].number <= count ensures p in kept {}
    forall p | p in before && before[p].owner != owner ensures p in kept {}
  }

  ghost predicate LosesCabledPort(ports: map<int, Port>, cables: map<int, Cable>, owner: Owner, count: nat) {
    exists p :: p in ports && ports[p].owner == owner && ports[p].number > count && Cabled(cables, p)
  }

  /** The port is above the count of its owner, and the cable ends there. */
  predicate Loses(port: Port, cable: Cable, p: int, owner: Owner, count: nat) {
    port.owner == owner && count + 1 <= port.number && (cable.a == p || cable.b == p)
  }

  lemma LossMeans(ports: map<int, Port>, cables: map<int, Cable>, owner: Owner, count: nat)
    ensures LosesCabledPort(ports, cables, owner, count)
            <==> exists p, c :: p in ports && c in cables && Loses(ports[p], cables[c], p, owner, count)
  {
    if p :| p in ports && ports[p].owner == owner && ports[p].number > count && Cabled(cables, p) {
      var c :| c in cables && Ends(cables[c], p);
      assert Loses(ports[p], cables[c], p, owner, count);
    }
    if p, c :| p in ports && c in cables && Loses(ports[p], cables[c], p, owner, count) {
      assert Ends(cables[c], p) && Cabled(cables, p);
    }
  }

  /** The numbering of one owner while missing numbers are added. */
  ghost predicate Adding(
    before: map<int, Port>, kept: map<int, Port>, now: map<int, Port>, owner: Owner, upTo: int, kind: string, side: Side)
  {
    && (forall p :: p in kept ==> p in now && now[p] == kept[p])
    && (forall p :: p in now && p !in kept ==>
          p !in before && now[p].owner == owner && now[p].kind == kind && now[p].side == side
          && 1 <= now[p].number < upTo && !HasNumber(kept, owner, now[p].number))
    && (forall n :: 1 <= n < upTo ==> HasNumber(now, owner, n))
    && (forall p, q :: p in now && q in now && p != q && p !in kept && q !in kept ==> now[p].number != now[q].number)
  }

  lemma AddPort(
    before: map<int, Port>, kept: map<int, Port>, now: map<int, Port>, owner: Owner, n: int, kind: string, side: Side, id: int)
    requires Adding(before, kept, now, owner, n, kind, side) && 1 <= n && !HasNumber(kept, owner, n)
    requires id !in now && id !in before && id !in kept
    ensures Adding(before, kept, now[id := Port(owner, n, kind, side)], owner, n + 1, kind, side)
  {
    var next := now[id := Port(owner, n, kind, side)];
    forall m | 1 <= m < n + 1 ensures HasNumber(next, owner, m) {
      if m < n {
        assert HasNumber(now, owner, m);
        var p :| p in now && now[p].owner == owner && now[p].number == m;
        assert next[p] == now[p];
      } else {
        assert next[id].number == m;
      }
    }
  }

  lemma SkipNumber(
    before: map<int, Port>, kept: map<int, Port>, now: map<int, Port>, owner: Owner, n: int, kind: string, side: Side)
    requires Adding(before, kept, now, owner, n, kind, side) && HasNumber(kept, owner, n)
    ensures Adding(before, kept, now, owner, n + 1, kind, side)
  {
    var p :| p in kept && kept[p].owner == owner && kept[p].number == n;
    assert now[p] == kept[p];
    assert HasNumber(now, owner, n);
  }

  /** No two ports of one owner have the same number once all numbers are there. */
  lemma AddedUnique(
    devices: map<int, Device>, items: map<int, Item>,
    before: map<int, Port>, now: map<int, Port>, owner: Owner, count: nat, kind: string, side: Side, p: int, q: int)
    requires Owned(devices, items, before)
    requires Adding(before, Trimmed(before, owner, count, kind, side), now, owner, count + 1, kind, side)
    requires p in now && q in now && p != q && now[p].owner == now[q].owner
    ensures now[p].number != now[q].number
  {
    var kept := Trimmed(before, owner, count, kind, side);
    hide HasNumber;
    if p in kept && q !in kept {
      NumbersDiffer(before, kept, now, owner, count + 1, kind, side, p, q);
    } else if q in kept && p !in kept {
      NumbersDiffer(before, kept, now, owner, count + 1, kind, side, q, p);
    } else if p in kept && q in kept {
      assert now[p] == kept[p] && now[q] == kept[q];
    }
  }

  lemma AddedOne(
    devices: map<int, Device>, items: map<int, Item>,
    before: map<int, Port>, now: map<int, Port>, owner: Owner, count: nat, kind: string, side: Side, p: int)
    requires Owned(devices, items, before) && OwnerExists(owner, devices, items) && p in now
    requires Adding(before, Trimmed(before, owner, count, kind, side), now, owner, count + 1, kind, side)
    ensures OwnerExists(now[p].owner, devices, items) && 1 <= now[p].number
    ensures now[p].owner == owner ==> now[p].number <= count
  {
    hide HasNumber, OwnerExists;
    var kept := Trimmed(before, owner, count, kind, side);
    if p in kept {
      assert now[p] == kept[p] && p in before && before[p].owner == now[p].owner;
    }
  }

  lemma AddedOwned(
    devices: map<int, Device>, items: map<int, Item>,
    before: map<int, Port>, now: map<int, Port>, owner: Owner, count: nat, kind: string, side: Side)
    requires Owned(devices, items, before) && OwnerExists(owner, devices, items)
    requires Adding(before, Trimmed(before, owner, count, kind, side), now, owner, count + 1, kind, side)
    ensures Owned(devices, items, now)
  {
    forall p, q | p in now && q in now && p != q
      ensures now[p].owner != now[q].owner || now[p].number != now[q].number
    {
      if now[p].owner == now[q].owner {
        AddedUnique(devices, items, before, now, owner, count, kind, side, p, q);
      }
    }
    hide Adding, Trimmed, OwnerExists;
    forall p | p in now ensures OwnerExists(now[p].owner, devices, items) && 1 <= now[p].number {
      AddedOne(devices, items, before, now, owner, count, kind, side, p);
    }
  }

  lemma AddedSet(
    devices: map<int, Device>, items: map<int, Item>,
    before: map<int, Port>, now: map<int, Port>, owner: Owner, count: nat, kind: string, side: Side)
    requires Owned(devices, items, before) && OwnerExists(owner, devices, items)
    requires Adding(before, Trimmed(before, owner, count, kind, side), now, owner, count + 1, kind, side)
    ensures PortsSet(before, now, owner, count, kind, side)
  {
    AddedOwned(devices, items, before, now, owner, count, kind, side);
    hide HasNumber, OwnerExists, Trimmed;
    forall p | p in now && now[p].owner == owner ensures 1 <= now[p].number <= count {
      AddedOne(devices, items, before, now, owner, count, kind, side, p);
    }
  }

  /** A kept port and an added one never have the same owner and number. */
  lemma NumbersDiffer(
    before: map<int, Port>, kept: map<int, Port>, now: map<int, Port>, owner: Owner, upTo: int, kind: string, side: Side,
    p: int, q: int)
    requires Adding(before, kept, now, owner, upTo, kind, side)
    requires p in now && q in now && p in kept && q !in kept && now[p].owner == now[q].owner
    ensures now[p].number != now[q].number
  {
    assert now[p] == kept[p];
    assert !HasNumber(kept, owner, now[q].number);
  }

  /** Setting ports keeps the cables a matching when no cabled port is lost. */
  lemma MatchingSurvives(
    before: map<int, Port>, after: map<int, Port>, cables: map<int, Cable>, owner: Owner, count: nat, kind: string, side: Side)
    requires Matching(before, cables) && PortsSet(before, after, owner, count, kind, side)
    requires !LosesCabledPort(before, cables, owner, count)
    ensures Matching(after, cables)
  {
    var kept := Trimmed(before, owner, count, kind, side);
    forall c, p | c in cables && (p == cables[c].a || p == cables[c].b)
      ensures p in after && after[p].owner == before[p].owner
    {
      assert Ends(cables[c], p) && Cabled(cables, p);
      assert p in kept;
    }
  }

  // ---------------------------------------------------------------- what disappears with a rack, an item or a device

  /** The ports of a set of owners. */
  ghost function PortsOfAll(ports: map<int, Port>, owners: set<Owner>): set<int> {
    set p | p in ports && ports[p].owner in owners
  }

  lemma CabledLost(
    ports: map<int, Port>, cables: map<int, Cable>, owner: Owner, count: nat, existing: set<int>, removed: set<int>)
    requires existing == set p | p in ports && ports[p].owner == owner
    requires removed == set p | p in existing && ports[p].number > count
    ensures LosesCabledPort(ports, cables, owner, count) <==> exists p :: p in removed && Cabled(cables, p)
  {
    hide Cabled;
  }

  lemma OwnersVanish(
    devices: map<int, Device>, items: map<int, Item>, ports: map<int, Port>,
    goneDevices: set<int>, goneItems: set<int>, owners: set<Owner>)
    requires Owned(devices, items, ports)
    requires forall d :: d in goneDevices ==> OfDevice(d) in owners
    requires forall i :: i in goneItems ==> OfItem(i) in owners
    ensures Owned(devices - goneDevices, items - goneItems, WithoutPorts(ports, PortsOfAll(ports, owners)))
  {
  }

  class Store {
    var racks: map<int, Rack>
    var devices: map<int, Device>
    var items: map<int, Item>
    var ports: map<int, Port>
    var cables: map<int, Cable>

    ghost predicate Valid()
      reads this
    {
      Packed(racks, items) && Owned(devices, items, ports) && Matching(ports, cables)
    }

    constructor ()
      ensures Valid() && racks == map[] && devices == map[] && items == map[] && ports == map[] && cables == map[]
    {
      racks, devices, items, ports, cables := map[], map[], map[], map[], map[];
    }

    /** Refuse a placement that does not fit the rack or covers a unit that is taken. */
    method CheckPlacement(rack: int, unit: Option<int>, height: int, except: Option<int>) returns (refusal: Option<Refusal>)
      requires 1 <= height
      ensures refusal == Placement(racks, devices, items, rack, unit, height, except)
    {
      if rack !in racks {
        return Some(NotFound);
      }
      if unit.None? {
        return None;
      }
      if !(1 <= unit.value - height + 1 && unit.value <= racks[rack].units) {
        return Some(Unprocessable);
      }
      var span := Span(unit.value, height);
      var free := UnitsFreeOfDevices(rack, span);
      if !free {
        return Some(Conflict);
      }
      free := UnitsFreeOfItems(rack, span, except);
      return if free then None else Some(Conflict);
    }

    method UnitsFreeOfDevices(rack: int, span: set<int>) returns (free: bool)
      ensures free == FreeOfDevices(devices, rack, span)
    {
      hide DeviceSpan;
      var rest := devices.Keys;
      while rest != {}
        invariant rest <= devices.Keys && FreeOfDevices(devices - rest, rack, span)
      {
        var d := TakeAny(rest);
        if devices[d].rack == Some(rack) && DeviceSpan(devices[d]) * span != {} {
          return false;
        }
        assert devices[d].rack == Some(rack) ==> DeviceSpan(devices[d]) !! span by {
          Disjoint(DeviceSpan(devices[d]), span);
        }
        assert devices - (rest - {d}) == (devices - rest)[d := devices[d]];
        rest := rest - {d};
      }
      assert devices - rest == devices;
      return true;
    }

    method UnitsFreeOfItems(rack: int, span: set<int>, except: Option<int>) returns (free: bool)
      ensures free == FreeOfItems(items, rack, span, except)
    {
      hide ItemSpan;
      var rest := items.Keys;
      while rest != {}
        invariant rest <= items.Keys && FreeOfItems(items - rest, rack, span, except)
      {
        var i := TakeAny(rest);
        if items[i].rack == rack && Some(i) != except && ItemSpan(items[i]) * span != {} {
          return false;
        }
        assert items[i].rack == rack && Some(i) != except ==> ItemSpan(items[i]) !! span by {
          Disjoint(ItemSpan(items[i]), span);
        }
        assert items - (rest - {i}) == (items - rest)[i := items[i]];
        rest := rest - {i};
      }
      assert items - rest == items;
      return true;
    }

    /** Whether one of the ports has a cable at one of its ends. */
    method AnyCabled(wanted: set<int>) returns (cabled: bool)
      ensures cabled == exists p :: p in wanted && Cabled(cables, p)
    {
      cabled := exists c :: c in cables && (cables[c].a in wanted || cables[c].b in wanted);
      if cabled {
        ghost var c :| c in cables && (cables[c].a in wanted || cables[c].b in wanted);
        assert Ends(cables[c], cables[c].a) && Ends(cables[c], cables[c].b);
        assert Cabled(cables, cables[c].a) && Cabled(cables, cables[c].b);
      }
    }

    method TrimPorts(existing: set<int>, ghost owner: Owner, count: nat, kind: string, side: Side)
      requires existing == set p | p in ports && ports[p].owner == owner
      modifies this`ports
      ensures ports == Trimmed(old(ports), owner, count, kind, side)
    {
      ghost var before := ports;
      var rest := existing;
      while rest != {}
        invariant rest <= existing
        invariant ports == map p | p in before && (p in rest || p !in existing || before[p].number <= count) ::
          if p in existing && p !in rest then before[p].(kind := kind, side := side) else before[p]
      {
        var p := TakeAny(rest);
        if ports[p].number > count {
          ports := ports - {p};
        } else {
          ports := ports[p := ports[p].(kind := kind, side := side)];
        }
        rest := rest - {p};
      }
    }

    method AddPorts(ghost before: map<int, Port>, taken: set<int>, numbers: set<int>, owner: Owner, count: nat, kind: string, side: Side)
      requires ports == Trimmed(before, owner, count, kind, side) && taken == before.Keys
      requires forall n :: 1 <= n <= count ==> (n in numbers <==> HasNumber(ports, owner, n))
      modifies this`ports
      ensures Adding(before, old(ports), ports, owner, count + 1, kind, side)
    {
      hide HasNumber;
      ghost var kept := ports;
      for number := 1 to count + 1
        invariant Adding(before, kept, ports, owner, number, kind, side)
      {
        if number !in numbers {
          var id := FreshId(ports.Keys + taken);
          FreshFor(ports.Keys, taken, id);
          AddPort(before, kept, ports, owner, number, kind, side, id);
          ports := ports[id := Port(owner, number, kind, side)];
        } else {
          SkipNumber(before, kept, ports, owner, number, kind, side);
        }
      }
    }

    /** Give the owner exactly the ports 1 .. count; refused while a port that would go has a cable. */
    method SetPorts(owner: Owner, count: nat, kind: string, side: Side) returns (refusal: Option<Refusal>)
      requires Owned(devices, items, ports) && OwnerExists(owner, devices, items)
      modifies this`ports
      ensures refusal == if LosesCabledPort(old(ports), cables, owner, count) then Some(Conflict) else None
      ensures refusal.Some? ==> ports == old(ports)
      ensures refusal.None? ==> PortsSet(old(ports), ports, owner, count, kind, side)
      ensures Owned(devices, items, ports)
    {
      hide Trimmed, Adding, PortsSet, Owned, LosesCabledPort, HasNumber, OwnerExists, Cabled;
      var existing := set p | p in ports && ports[p].owner == owner;
      var removed := set p | p in existing && ports[p].number > count;
      var cabled := AnyCabled(removed);
      CabledLost(ports, cables, owner, count, existing, removed);
      if cabled {
        return Some(Conflict);
      }
      var numbers := set p | p in existing :: ports[p].number;
      ghost var before := ports;
      var taken := ports.Keys;
      forall n: nat | 1 <= n <= count ensures n in numbers <==> HasNumber(Trimmed(before, owner, count, kind, side), owner, n) {
        NumbersKept(before, existing, numbers, owner, count, kind, side, n);
      }
      TrimPorts(existing, owner, count, kind, side);
      AddPorts(before, taken, numbers, owner, count, kind, side);
      AddedSet(devices, items, before, ports, owner, count, kind, side);
      AddedOwned(devices, items, before, ports, owner, count, kind, side);
      return None;
    }

    // -------------------------------------------------------------- rack items

    method CreateItem(item: Item, portCount: nat, portKind: string) returns (result: Result<int, Refusal>)
      requires Valid() && 1 <= item.height
      modifies this`items, this`ports
      ensures Valid()
      ensures var refusal := Placement(racks, devices, old(items), item.rack, item.unit, item.height, None);
              result.Success? == refusal.None? && (result.Failure? ==> result.error == refusal.value)
      ensures result.Failure? ==> items == old(items) && ports == old(ports)
      ensures result.Success? ==>
        && result.value !in old(items) && items == old(items)[result.value := item]
        && (item.unit.Some? ==>
              forall d :: d in devices ==> !DeviceInTheWay(devices[d], item.rack, item.unit.value, item.height))
        && PortsSet(old(ports), ports, OfItem(result.value), portCount, portKind, Front)
    {
      var refusal := CheckPlacement(item.rack, item.unit, item.height, None);
      PlacementMeans(racks, devices, items, item.rack, item.unit, item.height, None);
      if refusal.Some? {
        return Failure(refusal.value);
      }
      var id := FreshId(items.Keys);
      NewItem(racks, devices, items, ports, cables, id, item, portCount);
      items := items[id := item];
      ghost var before := ports;
      var refused := SetPorts(OfItem(id), portCount, portKind, Front);
      MatchingSurvives(before, ports, cables, OfItem(id), portCount, portKind, Front);
      return Success(id);
    }

    method UpdateItem(id: int, rack: Field<int>, unit: Field<int>, height: Field<int>) returns (refusal: Option<Refusal>)
      requires Valid() && (height.Given? ==> 1 <= height.value)
      modifies this`items
      ensures Valid()
      ensures id !in old(items) ==> refusal == Some(NotFound)
      ensures id in old(items) && (rack.Cleared? || height.Cleared?) ==> refusal == Some(Unprocessable)
      ensures id in old(items) && !rack.Cleared? && !height.Cleared? ==>
        var item := Patched(old(items)[id], rack, unit, height);
        && refusal == Placement(racks, devices, old(items), item.rack, item.unit, item.height, Some(id))
        && (refusal.None? ==> items == old(items)[id := item])
        && (refusal.None? ==> PatchesItem(old(items)[id], items[id], rack, unit, height))
        && (refusal.None? && item.unit.Some? ==>
              forall d :: d in devices ==> !DeviceInTheWay(devices[d], item.rack, item.unit.value, item.height))
      ensures refusal.Some? ==> items == old(items)
    {
      if id !in items {
        return Some(NotFound);
      }
      if rack.Cleared? || height.Cleared? {
        return Some(Unprocessable);
      }
      var item := Patched(items[id], rack, unit, height);
      refusal := CheckPlacement(item.rack, item.unit, item.height, Some(id));
      PlacementMeans(racks, devices, items, item.rack, item.unit, item.height, Some(id));
      if refusal.None? {
        PackedPut(racks, devices, items, id, item);
        items := items[id := item];
      }
    }

    /** The item's ports and their cables go with it. */
    method DeleteItem(id: int) returns (refusal: Option<Refusal>)
      requires Valid()
      modifies this`items, this`ports, this`cables
      ensures Valid()
      ensures refusal == if id in old(items) then None else Some(NotFound)
      ensures refusal.Some? ==> items == old(items) && ports == old(ports) && cables == old(cables)
      ensures refusal.None? ==>
        var gone := PortsOf(old(ports), OfItem(id));
        && items == old(items) - {id} && ports == WithoutPorts(old(ports), gone)
        && cables == WithoutCablesOn(old(cables), gone)
    {
      hide Packed, Owned, Matching;
      if id !in items {
        return Some(NotFound);
      }
      var gone := set p | p in ports && ports[p].owner == OfItem(id);
      PackedRemove(racks, items, {id});
      OwnersVanish(devices, items, ports, {}, {id}, {OfItem(id)});
      MatchingShrinks(ports, cables, gone);
      assert gone == PortsOfAll(ports, {OfItem(id)}) && devices - {} == devices;
      cables := map c | c in cables && cables[c].a !in gone && cables[c].b !in gone :: cables[c];
      ports := ports - gone;
      items := items - {id};
      return None;
    }

    // -------------------------------------------------------------- ports and cables

    method SetPortsRequest(owner: Owner, count: nat, kind: string, side: Side) returns (refusal: Option<Refusal>)
      requires Valid()
      modifies this`ports
      ensures Valid()
      ensures refusal == if !OwnerExists(owner, devices, items) then Some(NotFound)
                         else if LosesCabledPort(old(ports), cables, owner, count) then Some(Conflict) else None
      ensures refusal.Some? ==> ports == old(ports)
      ensures refusal == Some(Conflict) ==> exists p, c :: p in old(ports) && c in cables && Loses(old(ports)[p], cables[c], p, owner, count)
      ensures refusal == None ==> forall p, c :: p in old(ports) && c in cables ==> !Loses(old(ports)[p], cables[c], p, owner, count)
      ensures refusal.None? ==> PortsSet(old(ports), ports, owner, count, kind, side)
    {
      var exists_ := match owner case OfDevice(d) => d in devices case OfItem(i) => i in items;
      if !exists_ {
        return Some(NotFound);
      }
      ghost var before := ports;
      LossMeans(ports, cables, owner, count);
      refusal := SetPorts(owner, count, kind, side);
      if refusal.None? {
        MatchingSurvives(before, ports, cables, owner, count, kind, side);
      }
    }

    method CreateCable(cable: Cable) returns (result: Result<int, Refusal>)
      requires Valid()
      modifies this`cables
      ensures Valid()
      ensures cable.a == cable.b ==> result == Failure(Unprocessable)
      ensures cable.a != cable.b && (cable.a !in ports || cable.b !in ports) ==> result == Failure(NotFound)
      ensures cable.a != cable.b && cable.a in ports && cable.b in ports ==>
        if ports[cable.a].owner == ports[cable.b].owner then result == Failure(Unprocessable)
        else if Cabled(old(cables), cable.a) || Cabled(old(cables), cable.b) then result == Failure(Conflict)
        else result.Success? && result.value !in old(cables) && cables == old(cables)[result.value := cable]
      ensures result.Failure? ==> cables == old(cables)
    {
      if cable.a == cable.b {
        return Failure(Unprocessable);
      }
      if cable.a !in ports || cable.b !in ports {
        return Failure(NotFound);
      }
      if ports[cable.a].owner == ports[cable.b].owner {
        return Failure(Unprocessable);
      }
      var cabled := AnyCabled({cable.a, cable.b});
      if cabled {
        return Failure(Conflict);
      }
      assert !Cabled(cables, cable.a) && !Cabled(cables, cable.b);
      var id := FreshId(cables.Keys);
      NewCable(ports, cables, id, cable);
      cables := cables[id := cable];
      return Success(id);
    }

    /** Only the look of a cable can be changed, never its ends. */
    method UpdateCable(id: int, look: Field<string>) returns (refusal: Option<Refusal>)
      requires Valid()
      modifies this`cables
      ensures Valid()
      ensures refusal == if id !in old(cables) then Some(NotFound) else if look.Cleared? then Some(Unprocessable) else None
      ensures cables == if refusal.None? && look.Given? then old(cables)[id := old(cables)[id].(look := look.value)]
                        else old(cables)
    {
      if id !in cables {
        return Some(NotFound);
      }
      if look.Cleared? {
        return Some(Unprocessable);
      }
      if look.Given? {
        SameEnds(ports, cables, id, look.value);
        cables := cables[id := cables[id].(look := look.value)];
      }
      return None;
    }

    method DeleteCable(id: int) returns (refusal: Option<Refusal>)
      requires Valid()
      modifies this`cables
      ensures Valid()
      ensures refusal == if id in old(cables) then None else Some(NotFound)
      ensures cables == old(cables) - {id}
    {
      if id !in cables {
        assert cables - {id} == cables;
        return Some(NotFound);
      }
      cables := cables - {id};
      return None;
    }

    // -------------------------------------------------------------- racks

    method CreateRack(rack: Rack) returns (id: int)
      requires Valid()
      modifies this`racks
      ensures Valid() && id !in old(racks) && racks == old(racks)[id := rack]
    {
      id := FreshId(racks.Keys);
      assert id !in racks by { FreshFor(racks.Keys, {}, id); }
      racks := racks[id := rack];
    }

    /** Change a rack's height; refused while something in it would not fit. */
    method UpdateRack(id: int, units: Field<int>) returns (refusal: Option<Refusal>)
      requires Valid()
      modifies this`racks
      ensures Valid()
      ensures id !in old(racks) ==> refusal == Some(NotFound)
      ensures id in old(racks) && units.Cleared? ==> refusal == Some(Unprocessable)
      ensures id in old(racks) && !units.Cleared? ==>
        var rack := if units.Given? then Rack(units.value) else old(racks)[id];
        refusal == if AllFit(devices, items, id, rack) then None else Some(Conflict)
      ensures racks == if refusal.None? && units.Given? then old(racks)[id := Rack(units.value)] else old(racks)
    {
      if id !in racks {
        return Some(NotFound);
      }
      if units.Cleared? {
        return Some(Unprocessable);
      }
      var rack := if units.Given? then Rack(units.value) else racks[id];
      var devicesFit := forall d | d in devices && devices[d].rack == Some(id) && devices[d].unit.Some? ::
        Fits(rack, devices[d].unit.value, HeightOf(devices[d]));
      var itemsFit := forall i | i in items && items[i].rack == id && items[i].unit.Some? ::
        Fits(rack, items[i].unit.value, items[i].height);
      if !devicesFit || !itemsFit {
        return Some(Conflict);
      }
      if units.Given? {
        racks := racks[id := rack];
      }
      return None;
    }

    /** Deleting a rack cascades to its items, their ports and their cables; devices only lose the rack. */
    method DeleteRack(id: int)
      requires Valid()
      modifies this
      ensures Valid()
      ensures var goneItems := ItemsIn(old(items), id);
              var gone := PortsOfAll(old(ports), Owners(goneItems));
              && racks == old(racks) - {id} && items == old(items) - goneItems
              && ports == WithoutPorts(old(ports), gone) && cables == WithoutCablesOn(old(cables), gone)
              && devices == Unracked(old(devices), id)
    {
      var goneItems := set i | i in items && items[i].rack == id;
      var gone := set p | p in ports && ports[p].owner.OfItem? && ports[p].owner.item in goneItems;
      RackGone(racks, devices, items, ports, cables, id, goneItems, gone);
      hide Packed, Owned, Matching;
      cables := map c | c in cables && cables[c].a !in gone && cables[c].b !in gone :: cables[c];
      ports := ports - gone;
      items := items - goneItems;
      racks := racks - {id};
      devices := map d | d in devices ::
        if devices[d].rack == Some(id) then devices[d].(rack := None) else devices[d];
    }

    // -------------------------------------------------------------- devices, as the rest of the program handles them

    /** Any other request may add a device or move it anywhere, without looking at the racks. */
    method PutDevice(id: int, device: Device)
      requires Valid()
      modifies this`devices
      ensures Valid() && devices == old(devices)[id := device]
    {
      devices := devices[id := device];
    }

    /** A deleted device takes its ports and their cables with it. */
    method DeleteDevice(id: int)
      requires Valid()
      modifies this`devices, this`ports, this`cables
      ensures Valid()
      ensures var gone := PortsOf(old(ports), OfDevice(id));
              && devices == old(devices) - {id} && ports == WithoutPorts(old(ports), gone)
              && cables == WithoutCablesOn(old(cables), gone)
    {
      var gone := set p | p in ports && ports[p].owner == OfDevice(id);
      OwnersVanish(devices, items, ports, {id}, {}, {OfDevice(id)});
      MatchingShrinks(ports, cables, gone);
      assert gone == PortsOfAll(ports, {OfDevice(id)}) && items - {} == items;
      cables := map c | c in cables && cables[c].a !in gone && cables[c].b !in gone :: cables[c];
      ports := ports - gone;
      devices := devices - {id};
    }

    // -------------------------------------------------------------- runs

    /** Carry out one request, whatever it is; refused ones change nothing. */
    method Handle(request: Request)
      requires Valid() && request.WellFormed()
      modifies this
      ensures Valid()
    {
      match request
      case CreateItem(item, count, kind) => var r := CreateItem(item, count, kind);
      case UpdateItem(id, rack, unit, height) => var r := UpdateItem(id, rack, unit, height);
      case DeleteItem(id) => var r := DeleteItem(id);
      case SetPorts(owner, count, kind, side) => var r := SetPortsRequest(owner, count, kind, side);
      case CreateCable(cable) => var r := CreateCable(cable);
      case UpdateCable(id, look) => var r := UpdateCable(id, look);
      case DeleteCable(id) => var r := DeleteCable(id);
      case CreateRack(rack) => var r := CreateRack(rack);
      case UpdateRack(id, units) => var r := UpdateRack(id, units);
      case DeleteRack(id) => DeleteRack(id);
      case PutDevice(id, device) => PutDevice(id, device);
      case DeleteDevice(id) => DeleteDevice(id);
    }

    /** After any sequence of requests no rack is overfull and the cables are a matching of the ports. */
    method Run(requests: seq<Request>)
      requires Valid() && forall r :: r in requests ==> r.WellFormed()
      modifies this
      ensures Valid()
      ensures forall rack :: rack in racks ==>
        HeightsOf(items, PlacedIn(items, rack)) <= if racks[rack].units > 0 then racks[rack].units else 0
      ensures 2 * |cables| <= |ports|
    {
      for i := 0 to |requests|
        invariant Valid()
      {
        Handle(requests[i]);
      }
      forall rack | rack in racks
        ensures HeightsOf(items, PlacedIn(items, rack)) <= if racks[rack].units > 0 then racks[rack].units else 0
      {
        RackNotOverfull(racks, items, rack);
      }
      CablesBounded(ports, cables);
    }
  }

  /** The requests, with what their schemas already guarantee. */
  datatype Request =
    | CreateItem(item: Item, portCount: nat, portKind: string)
    | UpdateItem(id: int, rack: Field<int>, unit: Field<int>, height: Field<int>)
    | DeleteItem(id: int)
    | SetPorts(owner: Owner, count: nat, kind: string, side: Side)
    | CreateCable(cable: Cable)
    | UpdateCable(id: int, look: Field<string>)
    | DeleteCable(id: int)
    | CreateRack(newRack: Rack)
    | UpdateRack(id: int, units: Field<int>)
    | DeleteRack(id: int)
    | PutDevice(id: int, device: Device)
    | DeleteDevice(id: int)
  {
    predicate WellFormed() {
      && (CreateItem? ==> 1 <= item.height)
      && (UpdateItem? && height.Given? ==> 1 <= height.value)
    }
  }

  function Patched(item: Item, rack: Field<int>, unit: Field<int>, height: Field<int>): Item {
    Item(if rack.Given? then rack.value else item.rack,
         match unit case Unset => item.unit case Cleared => None case Given(u) => Some(u),
         if height.Given? then height.value else item.height)
  }

  /** Field by field: what the request gives is taken, what it leaves out stays, and a cleared unit takes the item out. */
  ghost predicate PatchesItem(was: Item, now: Item, rack: Field<int>, unit: Field<int>, height: Field<int>) {
    && (rack == Unset ==> now.rack == was.rack) && (forall r :: rack == Given(r) ==> now.rack == r)
    && (unit == Unset ==> now.unit == was.unit) && (unit == Cleared ==> now.unit == None)
    && (forall u :: unit == Given(u) ==> now.unit == Some(u))
    && (height == Unset ==> now.height == was.height) && (forall h :: height == Given(h) ==> now.height == h)
  }

  ghost function ItemsIn(items: map<int, Item>, rack: int): set<int> {
    set i | i in items && items[i].rack == rack
  }

  ghost function Owners(items: set<int>): set<Owner> {
    set i | i in items :: OfItem(i)
  }

  ghost function Unracked(devices: map<int, Device>, rack: int): map<int, Device> {
    map d | d in devices :: if devices[d].rack == Some(rack) then devices[d].(rack := None) else devices[d]
  }

  /** Everything placed in the rack fits into it. */
  ghost predicate AllFit(devices: map<int, Device>, items: map<int, Item>, id: int, rack: Rack) {
    && (forall d :: d in devices && devices[d].rack == Some(id) && devices[d].unit.Some? ==>
          Fits(rack, devices[d].unit.value, HeightOf(devices[d])))
    && (forall i :: i in items && items[i].rack == id && items[i].unit.Some? ==>
          Fits(rack, items[i].unit.value, items[i].height))
  }

  /** In plain numbers: the lowest unit of everything placed is 1 or more, the highest at most the height of the rack. */
  lemma AllFitMeans(devices: map<int, Device>, items: map<int, Item>, id: int, rack: Rack)
    ensures AllFit(devices, items, id, rack)
            <==> && (forall d :: d in devices && devices[d].rack == Some(id) && devices[d].unit.Some? ==>
                       && devices[d].unit.value <= rack.units
                       && (devices[d].height == None || devices[d].height == Some(0) ==> 1 <= devices[d].unit.value)
                       && (devices[d].height.Some? && devices[d].height != Some(0) ==>
                             devices[d].height.value <= devices[d].unit.value))
                 && (forall i :: i in items && items[i].rack == id && items[i].unit.Some? ==>
                       items[i].height <= items[i].unit.value <= rack.units)
  {
  }

  /** With its owners a port goes, and with either of its ports a cable. */
  lemma GoesWithOwners(ports: map<int, Port>, cables: map<int, Cable>, owners: set<Owner>)
    requires Matching(ports, cables)
    ensures var gone := PortsOfAll(ports, owners);
            && (forall p :: p in WithoutPorts(ports, gone) <==> p in ports && ports[p].owner !in owners)
            && (forall p :: p in WithoutPorts(ports, gone) ==> WithoutPorts(ports, gone)[p] == ports[p])
            && (forall c :: c in WithoutCablesOn(cables, gone)
                  <==> c in cables && ports[cables[c].a].owner !in owners && ports[cables[c].b].owner !in owners)
            && (forall c :: c in WithoutCablesOn(cables, gone) ==> WithoutCablesOn(cables, gone)[c] == cables[c])
    ensures forall owner :: owners == {owner} ==> PortsOf(ports, owner) == PortsOfAll(ports, owners)
  {
  }

  /** A device of a deleted rack is in no rack but keeps its unit and height; other devices stay as they are. */
  lemma UnrackedDevices(devices: map<int, Device>, rack: int)
    ensures var after := Unracked(devices, rack);
            && after.Keys == devices.Keys
            && (forall d :: d in devices ==> after[d].unit == devices[d].unit && after[d].height == devices[d].height)
            && (forall d :: d in devices ==>
                  after[d].rack == if devices[d].rack == Some(rack) then None else devices[d].rack)
  {
  }

  lemma RackGone(
    racks: map<int, Rack>, devices: map<int, Device>, items: map<int, Item>, ports: map<int, Port>,
    cables: map<int, Cable>, id: int, goneItems: set<int>, gone: set<int>)
    requires Packed(racks, items) && Owned(devices, items, ports) && Matching(ports, cables)
    requires goneItems == set i | i in items && items[i].rack == id
    requires gone == set p | p in ports && ports[p].owner.OfItem? && ports[p].owner.item in goneItems
    ensures goneItems == ItemsIn(items, id) && gone == PortsOfAll(ports, Owners(goneItems))
    ensures Packed(racks - {id}, items - goneItems)
    ensures Owned(Unracked(devices, id), items - goneItems, WithoutPorts(ports, gone))
    ensures Matching(WithoutPorts(ports, gone), WithoutCablesOn(cables, gone))
  {
    assert gone == PortsOfAll(ports, Owners(goneItems)) by {
      hide Packed, Owned, Matching;
    }
    PackedRemove(racks, items, goneItems);
    OwnersVanish(devices, items, ports, {}, goneItems, Owners(goneItems));
    MatchingShrinks(ports, cables, gone);
    assert devices - {} == devices;
    hide Matching;
  }

  lemma NewItem(
    racks: map<int, Rack>, devices: map<int, Device>, items: map<int, Item>, ports: map<int, Port>,
    cables: map<int, Cable>, id: int, item: Item, count: nat)
    requires Packed(racks, items) && Owned(devices, items, ports) && Below(items.Keys, id) && 1 <= item.height
    requires Placement(racks, devices, items, item.rack, item.unit, item.height, None).None?
    ensures id !in items && Packed(racks, items[id := item]) && Owned(devices, items[id := item], ports)
    ensures !LosesCabledPort(ports, cables, OfItem(id), count)
  {
    FreshFor(items.Keys, {}, id);
    assert items.Keys + {} == items.Keys;
    PackedPut(racks, devices, items, id, item);
  }

  lemma NewCable(ports: map<int, Port>, cables: map<int, Cable>, id: int, cable: Cable)
    requires Matching(ports, cables) && Below(cables.Keys, id)
    requires cable.a in ports && cable.b in ports && ports[cable.a].owner != ports[cable.b].owner
    requires !Cabled(cables, cable.a) && !Cabled(cables, cable.b)
    ensures id !in cables && Matching(ports, cables[id := cable])
  {
    assert cables.Keys + {} == cables.Keys;
    FreshFor(cables.Keys, {}, id);
  }

  lemma SameEnds(ports: map<int, Port>, cables: map<int, Cable>, id: int, look: string)
    requires Matching(ports, cables) && id in cables
    ensures Matching(ports, cables[id := cables[id].(look := look)])
  {
    var next := cables[id := cables[id].(look := look)];
    forall c, p | c in next ensures Ends(next[c], p) == Ends(cables[c], p) {}
  }

  lemma Disjoint(a: set<int>, b: set<int>)
    ensures a * b == {} <==> a !! b
  {
    assert forall x :: x in a * b <==> x in a && x in b;
  }

  lemma FreshFor(now: set<int>, taken: set<int>, id: int)
    requires Below(now + taken, id)
    ensures id !in now && id !in taken
  {
    if id in now + taken {
      assert false;
    }
  }

  lemma NumbersKept(
    before: map<int, Port>, existing: set<int>, numbers: set<int>, owner: Owner, count: nat, kind: string, side: Side, n: int)
    requires existing == set p | p in before && before[p].owner == owner
    requires numbers == set p | p in existing :: before[p].number
    requires n <= count
    ensures n in numbers <==> HasNumber(Trimmed(before, owner, count, kind, side), owner, n)
  {
    if n in numbers {
      var p :| p in existing && before[p].number == n;
      assert p in Trimmed(before, owner, count, kind, side);
    }
  }
}
