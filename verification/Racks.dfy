/**
 Racks, the equipment placed in them, its ports and the cables between ports
 (backend/app/api/rack_cabling.py, backend/app/api/topology.py).

 Every request is one method of the store; Valid() is what no sequence of requests can break.
 */
module Racks {
  import opened Wrappers

  datatype Rack = Rack(units: int)

  /** Where a network device sits; requests elsewhere move devices without any check. */
  datatype Device = Device(rack: Option<int>, unit: Option<int>, height: Option<int>)

  /** Equipment in a rack: `unit` is its top unit, if it is placed at all. */
  datatype Item = Item(rack: int, unit: Option<int>, height: int)

  datatype Owner = OfDevice(device: int) | OfItem(item: int)

  datatype Side = Front | Rear

  datatype Port = Port(owner: Owner, number: int, kind: string, side: Side)

  datatype Cable = Cable(a: int, b: int, look: string)

  /** The status codes of a refused request. */
  datatype Refusal = NotFound | Unprocessable | Conflict

  /** A field of a PATCH request: left out, null, or a value. */
  datatype Field<T> = Unset | Cleared | Given(value: T)

  // ---------------------------------------------------------------- placement

  /** `set(range(lo, hi))` */
  function Range(lo: int, hi: int): (range: set<int>)
    ensures forall u :: u in range <==> lo <= u < hi
    ensures lo <= hi ==> |range| == hi - lo
    decreases hi - lo
  {
    if lo < hi then Range(lo, hi - 1) + {hi - 1} else {}
  }

  /** The units a thing at `unit` covering `height` units downwards takes. */
  function Span(unit: int, height: int): set<int> {
    Range(unit - height + 1, unit + 1)
  }

  function ItemSpan(item: Item): set<int> {
    if item.unit.Some? then Span(item.unit.value, item.height) else {}
  }

  /** `rack_height or 1` */
  function HeightOf(d: Device): int {
    if d.height.Some? && d.height.value != 0 then d.height.value else 1
  }

  function DeviceSpan(d: Device): set<int> {
    if d.unit.Some? then Span(d.unit.value, HeightOf(d)) else {}
  }

  predicate Fits(rack: Rack, unit: int, height: int) {
    1 <= unit - height + 1 && unit <= rack.units
  }

  ghost predicate FreeOfDevices(devices: map<int, Device>, rack: int, span: set<int>) {
    forall d :: d in devices && devices[d].rack == Some(rack) ==> DeviceSpan(devices[d]) !! span
  }

  ghost predicate FreeOfItems(items: map<int, Item>, rack: int, span: set<int>, except: Option<int>) {
    forall i :: i in items && items[i].rack == rack && Some(i) != except ==> ItemSpan(items[i]) !! span
  }

  /** Why a placement is refused, if it is. */
  ghost function Placement(
    racks: map<int, Rack>, devices: map<int, Device>, items: map<int, Item>,
    rack: int, unit: Option<int>, height: int, except: Option<int>
  ): Option<Refusal>
  {
    if rack !in racks then Some(NotFound)
    else if unit.None? then None
    else if !Fits(racks[rack], unit.value, height) then Some(Unprocessable)
    else if FreeOfDevices(devices, rack, Span(unit.value, height)) && FreeOfItems(items, rack, Span(unit.value, height), except)
    then None
    else Some(Conflict)
  }

  /** Units top - height + 1 .. top and bottom .. unit have one in common. */
  predicate Meet(top: int, height: int, unit: int, itemHeight: int) {
    1 <= height && top - height + 1 <= unit && unit - itemHeight + 1 <= top
  }

  /** The device is in one of the units; without a height, or with height 0, it takes one unit, and below 0 none. */
  ghost predicate DeviceInTheWay(d: Device, rack: int, unit: int, height: int) {
    && d.rack == Some(rack) && d.unit.Some?
    && Meet(d.unit.value, if d.height == None || d.height == Some(0) then 1 else d.height.value, unit, height)
  }

  ghost predicate ItemInTheWay(i: Item, rack: int, unit: int, height: int) {
    i.rack == rack && i.unit.Some? && Meet(i.unit.value, i.height, unit, height)
  }

  lemma SpansMeet(top: int, height: int, unit: int, itemHeight: int)
    requires 1 <= itemHeight
    ensures Span(top, height) !! Span(unit, itemHeight) <==> !Meet(top, height, unit, itemHeight)
  {
    hide Range;
    if Meet(top, height, unit, itemHeight) {
      var u := if top <= unit then top else unit;
      assert u in Span(top, height) && u in Span(unit, itemHeight);
    }
  }

  /**
   A request is refused with "not found" exactly without the rack, as unprocessable exactly when it names units
   outside the rack, and as a conflict exactly when it fits but a device or another item is in one of the units.
   */
  lemma PlacementMeans(
    racks: map<int, Rack>, devices: map<int, Device>, items: map<int, Item>,
    rack: int, unit: Option<int>, height: int, except: Option<int>)
    requires 1 <= height
    ensures var answer := Placement(racks, devices, items, rack, unit, height, except);
            && (answer == Some(NotFound) <==> rack !in racks)
            && (rack in racks && unit.None? ==> answer == None)
            && (rack in racks && unit.Some? ==>
                  && (answer == Some(Unprocessable) <==> unit.value - height + 1 < 1 || racks[rack].units < unit.value)
                  && (1 <= unit.value - height + 1 && unit.value <= racks[rack].units ==>
                        (answer == Some(Conflict)
                         <==> (exists d :: d in devices && DeviceInTheWay(devices[d], rack, unit.value, height))
                              || (exists i :: i in items && Some(i) != except && ItemInTheWay(items[i], rack, unit.value, height))))
                  && (answer == None ==>
                        && (forall d :: d in devices ==> !DeviceInTheWay(devices[d], rack, unit.value, height))
                        && (forall i :: i in items && Some(i) != except ==> !ItemInTheWay(items[i], rack, unit.value, height))))
  {
    if unit.Some? {
      DevicesMeet(devices, rack, unit.value, height);
      ItemsMeet(items, rack, unit.value, height, except);
      hide FreeOfDevices, FreeOfItems, DeviceInTheWay, ItemInTheWay, Span;
    }
  }

  lemma DevicesMeet(devices: map<int, Device>, rack: int, unit: int, height: int)
    requires 1 <= height
    ensures FreeOfDevices(devices, rack, Span(unit, height))
            <==> forall d :: d in devices ==> !DeviceInTheWay(devices[d], rack, unit, height)
  {
    hide Span, Meet;
    forall d | d in devices && devices[d].rack == Some(rack)
      ensures DeviceSpan(devices[d]) !! Span(unit, height) <==> !DeviceInTheWay(devices[d], rack, unit, height)
    {
      if devices[d].unit.Some? {
        SpansMeet(devices[d].unit.value, HeightOf(devices[d]), unit, height);
      }
    }
  }

  lemma ItemsMeet(items: map<int, Item>, rack: int, unit: int, height: int, except: Option<int>)
    requires 1 <= height
    ensures FreeOfItems(items, rack, Span(unit, height), except)
            <==> forall i :: i in items && Some(i) != except ==> !ItemInTheWay(items[i], rack, unit, height)
  {
    hide Span, Meet;
    forall i | i in items && items[i].rack == rack
      ensures ItemSpan(items[i]) !! Span(unit, height) <==> !ItemInTheWay(items[i], rack, unit, height)
    {
      if items[i].unit.Some? {
        SpansMeet(items[i].unit.value, items[i].height, unit, height);
      }
    }
  }

  /** Items lie inside their racks and no two of them share a unit. */
  ghost predicate Packed(racks: map<int, Rack>, items: map<int, Item>) {
    && (forall i :: i in items ==> items[i].rack in racks && 1 <= items[i].height)
    && (forall i :: i in items && items[i].unit.Some? ==> Fits(racks[items[i].rack], items[i].unit.value, items[i].height))
    && (forall i, j :: i in items && j in items && i != j && items[i].rack == items[j].rack ==>
          ItemSpan(items[i]) !! ItemSpan(items[j]))
  }

  lemma PackedPut(racks: map<int, Rack>, devices: map<int, Device>, items: map<int, Item>, id: int, item: Item)
    requires Packed(racks, items) && 1 <= item.height
    requires Placement(racks, devices, items, item.rack, item.unit, item.height, Some(id)).None?
    ensures Packed(racks, items[id := item])
  {
    hide Span, Fits;
    var next := items[id := item];
    forall i, j | i in next && j in next && i != j && next[i].rack == next[j].rack
      ensures ItemSpan(next[i]) !! ItemSpan(next[j])
    {
      if i == id && item.unit.Some? {
        assert ItemSpan(items[j]) !! Span(item.unit.value, item.height);
      } else if j == id && item.unit.Some? {
        assert ItemSpan(items[i]) !! Span(item.unit.value, item.height);
      }
    }
  }

  lemma PackedRemove(racks: map<int, Rack>, items: map<int, Item>, gone: set<int>)
    requires Packed(racks, items)
    ensures Packed(racks, items - gone)
  {
  }

  /** All placed items of one rack. */
  ghost function PlacedIn(items: map<int, Item>, rack: int): set<int> {
    set i | i in items && items[i].rack == rack && items[i].unit.Some?
  }

  ghost function PickOne<T>(s: set<T>): (x: T)
    requires s != {}
    ensures x in s
  {
    var x :| x in s;
    x
  }

  ghost function HeightsOf(items: map<int, Item>, ids: set<int>): int
    requires forall i :: i in ids ==> i in items
  {
    if ids == {} then 0
    else
      var i := PickOne(ids);
      items[i].height + HeightsOf(items, ids - {i})
  }

  ghost function UnitsOf(items: map<int, Item>, ids: set<int>): set<int>
    requires forall i :: i in ids ==> i in items
  {
    set i, u | i in ids && u in ItemSpan(items[i]) :: u
  }

  lemma Smaller(a: set<int>, b: set<int>)
    requires a <= b
    ensures |a| <= |b|
  {
    assert b == a + (b - a) && a !! b - a;
  }

  /** Together the items take as many units as their heights add up to: none is counted twice. */
  lemma {:induction false} HeightsAreUnits(racks: map<int, Rack>, items: map<int, Item>, rack: int, ids: set<int>)
    requires Packed(racks, items) && ids <= PlacedIn(items, rack)
    ensures HeightsOf(items, ids) == |UnitsOf(items, ids)|
    decreases |ids|
  {
    hide Span, Fits;
    if ids != {} {
      var i := PickOne(ids);
      HeightsAreUnits(racks, items, rack, ids - {i});
      UnitsSplit(items, ids, i);
      UnitsApart(racks, items, rack, ids, i);
      ItemTakesHeight(items[i]);
      hide UnitsOf, ItemSpan, Packed;
      assert HeightsOf(items, ids) == items[i].height + HeightsOf(items, ids - {i});
    } else {
      assert UnitsOf(items, ids) == {};
    }
  }

  lemma ItemTakesHeight(item: Item)
    requires item.unit.Some? && 1 <= item.height
    ensures |ItemSpan(item)| == item.height
  {
  }

  lemma UnitsApart(racks: map<int, Rack>, items: map<int, Item>, rack: int, ids: set<int>, i: int)
    requires Packed(racks, items) && ids <= PlacedIn(items, rack) && i in ids
    ensures UnitsOf(items, ids - {i}) !! ItemSpan(items[i])
  {
    hide Span, Fits;
    forall u | u in UnitsOf(items, ids - {i}) ensures u !in ItemSpan(items[i]) {
      var j :| j in ids - {i} && u in ItemSpan(items[j]);
    }
  }

  lemma UnitsSplit(items: map<int, Item>, ids: set<int>, i: int)
    requires i in ids && forall j :: j in ids ==> j in items
    ensures UnitsOf(items, ids) == UnitsOf(items, ids - {i}) + ItemSpan(items[i])
  {
    forall u | u in UnitsOf(items, ids) ensures u in UnitsOf(items, ids - {i}) + ItemSpan(items[i]) {
      var j :| j in ids && u in ItemSpan(items[j]);
      if j != i {
        assert j in ids - {i};
      }
    }
  }

  /** The heights of what is placed in a rack never add up to more than the rack has. */
  lemma RackNotOverfull(racks: map<int, Rack>, items: map<int, Item>, rack: int)
    requires Packed(racks, items) && rack in racks
    ensures HeightsOf(items, PlacedIn(items, rack)) <= if racks[rack].units > 0 then racks[rack].units else 0
  {
    var ids, units := PlacedIn(items, rack), racks[rack].units;
    HeightsAreUnits(racks, items, rack, ids);
    var top := if units > 0 then units else 0;
    Smaller(UnitsOf(items, ids), Range(1, top + 1));
  }

  // ---------------------------------------------------------------- ports and cables

  ghost predicate OwnerExists(owner: Owner, devices: map<int, Device>, items: map<int, Item>) {
    match owner
    case OfDevice(d) => d in devices
    case OfItem(i) => i in items
  }

  /** Every port has an owner, and an owner's ports have different numbers. */
  ghost predicate Owned(devices: map<int, Device>, items: map<int, Item>, ports: map<int, Port>) {
    && (forall p :: p in ports ==> OwnerExists(ports[p].owner, devices, items) && 1 <= ports[p].number)
    && (forall p, q :: p in ports && q in ports && p != q ==>
          ports[p].owner != ports[q].owner || ports[p].number != ports[q].number)
  }

  predicate Ends(c: Cable, p: int) {
    c.a == p || c.b == p
  }

  /** Every cable joins two ports of different owners; no port has two cables. */
  ghost predicate Matching(ports: map<int, Port>, cables: map<int, Cable>) {
    && (forall c :: c in cables ==>
          cables[c].a in ports && cables[c].b in ports && ports[cables[c].a].owner != ports[cables[c].b].owner)
    && (forall c, d, p :: c in cables && d in cables && Ends(cables[c], p) && Ends(cables[d], p) ==> c == d)
  }

  ghost function EndsOf(cables: map<int, Cable>): set<int> {
    (set c | c in cables :: cables[c].a) + (set c | c in cables :: cables[c].b)
  }

  lemma {:induction false} EndsCount(ports: map<int, Port>, cables: map<int, Cable>)
    requires Matching(ports, cables)
    ensures |EndsOf(cables)| == 2 * |cables|
    decreases |cables|
  {
    if cables.Keys != {} {
      var c := PickOne(cables.Keys);
      var rest := cables - {c};
      assert rest.Keys == cables.Keys - {c} && |rest.Keys| == |cables.Keys| - 1;
      EndsCount(ports, rest);
      EndsSplit(cables, c);
      EndsApart(ports, cables, c);
      assert cables[c].a != cables[c].b;
    } else {
      assert EndsOf(cables) == {} && |cables| == |cables.Keys| == 0;
    }
  }

  lemma EndsSplit(cables: map<int, Cable>, c: int)
    requires c in cables
    ensures EndsOf(cables) == EndsOf(cables - {c}) + {cables[c].a, cables[c].b}
  {
    var rest := cables - {c};
    forall p | p in EndsOf(cables) ensures p in EndsOf(rest) + {cables[c].a, cables[c].b} {
      var d :| d in cables && (cables[d].a == p || cables[d].b == p);
      if d != c {
        assert d in rest;
      }
    }
  }

  lemma EndsApart(ports: map<int, Port>, cables: map<int, Cable>, c: int)
    requires Matching(ports, cables) && c in cables
    ensures EndsOf(cables - {c}) !! {cables[c].a, cables[c].b}
  {
    assert Ends(cables[c], cables[c].a) && Ends(cables[c], cables[c].b);
    forall p | p in EndsOf(cables - {c}) ensures p != cables[c].a && p != cables[c].b {
      var d :| d in cables - {c} && (cables[d].a == p || cables[d].b == p);
      assert Ends(cables[d], p);
    }
  }

  /** There are at least twice as many ports as cables. */
  lemma CablesBounded(ports: map<int, Port>, cables: map<int, Cable>)
    requires Matching(ports, cables)
    ensures 2 * |cables| <= |ports|
  {
    EndsCount(ports, cables);
    Smaller(EndsOf(cables), ports.Keys);
  }

  /** The ports of one owner. */
  ghost function PortsOf(ports: map<int, Port>, owner: Owner): set<int> {
    set p | p in ports && ports[p].owner == owner
  }

  ghost predicate Cabled(cables: map<int, Cable>, p: int) {
    exists c :: c in cables && Ends(cables[c], p)
  }

  /** Without ports that some owner loses, and without the cables on them. */
  ghost function WithoutPorts(ports: map<int, Port>, gone: set<int>): map<int, Port> {
    ports - gone
  }

  ghost function WithoutCablesOn(cables: map<int, Cable>, gone: set<int>): map<int, Cable> {
    map c | c in cables && cables[c].a !in gone && cables[c].b !in gone :: cables[c]
  }

  lemma MatchingShrinks(ports: map<int, Port>, cables: map<int, Cable>, gone: set<int>)
    requires Matching(ports, cables)
    ensures Matching(WithoutPorts(ports, gone), WithoutCablesOn(cables, gone))
  {
  }
}
