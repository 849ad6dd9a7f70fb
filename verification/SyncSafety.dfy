/**
 What scan answers can and cannot do to a device's address, over any run of them.
 */
module SyncSafety {
  import opened Wrappers
  import opened Texts
  import opened Networks
  import opened Placeholders
  import opened Sync
  import opened Matching

  // ---------------------------------------------------------------- a device that answers keeps its address

  /** The device at position d answers at p with MAC m. */
  ghost predicate Settled(s: State, d: nat, p: Address, m: Option<string>) {
    && d < |s.devices| && s.devices[d].ip == p && s.devices[d].mac == m
    && s.devices[d].online && !s.devices[d].placeholder
  }

  /**
   A hit at p with the device's own MAC, or in another segment, or at another address without a host name
   and without the device's MAC.
   */
  ghost predicate Harmless(hit: Hit, ctx: Context, p: Address, m: Option<string>) {
    || (hit.ip == p && hit.mac == m)
    || ctx.IsCrossSegment(p, hit.ip)
    || (hit.ip != p && !Truthy(hit.hostname) && (hit.mac != m || !MacIsValid(hit.mac)))
  }

  lemma CrossMeansElsewhere(ctx: Context, p: Address, ip: Address)
    requires ctx.IsCrossSegment(p, ip)
    ensures p != ip
  {
  }

  lemma SameAddressSamePlace(devices: seq<Device>, i: nat, j: nat)
    requires DistinctAddresses(devices) && i < |devices| && j < |devices| && devices[i].ip == devices[j].ip
    ensures i == j
  {
  }

  /** A hit at a device's own address with its own MAC finds that device. */
  lemma OwnHitMatches(devices: seq<Device>, hit: Hit, names: Names, d: nat)
    requires DistinctAddresses(devices) && d < |devices| && devices[d].ip == hit.ip && devices[d].mac == hit.mac
    ensures MatchDevice(devices, hit, names).Some? && MatchDevice(devices, hit, names).value.0 == d
  {
    if MacIsValid(hit.mac) {
      var found := Select(devices, (x: Device) => x.mac == hit.mac && x.ip == hit.ip);
      assert d in found && found[0] in found;
      SameAddressSamePlace(devices, found[0], d);
    } else {
      var found := Select(devices, (x: Device) => x.ip == hit.ip);
      assert d in found && found[0] in found;
      SameAddressSamePlace(devices, found[0], d);
    }
  }

  /** A harmless hit that is matched to the device either answers at its address or leaves it where it is. */
  lemma MatchedHarmlessly(s: State, hit: Hit, ctx: Context, names: Names, d: nat, p: Address, m: Option<string>)
    requires Settled(s, d, p, m) && Harmless(hit, ctx, p, m)
    requires MatchDevice(s.devices, hit, names).Some? && MatchDevice(s.devices, hit, names).value.0 == d
    ensures (hit.ip == p && hit.mac == m) || KeepsIp(s, d, hit.ip, MatchDevice(s.devices, hit, names).value.1, ctx)
  {
    if hit.ip != p {
      assert MatchDevice(s.devices, hit, names).value.1 in {ByMac, ByName};
    }
  }

  lemma OthersLeaveIt(devices: seq<Device>, hit: Hit, names: Names, i: nat, d: nat)
    requires i < |devices| && d < |devices| && i != d && devices[d].ip != hit.ip
    ensures Updated(devices, i, hit, names)[d] == devices[d]
  {
  }

  /** Whatever a harmless hit does to other devices, this one stays where it is and online. */
  lemma StepKeepsSettled(s: State, hit: Hit, ctx: Context, names: Names, d: nat, p: Address, m: Option<string>)
    requires DistinctAddresses(s.devices) && Settled(s, d, p, m) && Harmless(hit, ctx, p, m)
    ensures DistinctAddresses(Step(s, hit, ctx, names).devices) && Settled(Step(s, hit, ctx, names), d, p, m)
  {
    hide MatchDevice, InterfaceAt, SafeAddress, OtherAddresses, KeepsIp;
    var found := MatchDevice(s.devices, hit, names);
    if InterfaceAt(s.interfaces, hit.ip).None? && found.Some? {
      var (i, how) := found.value;
      if i == d {
        MatchedHarmlessly(s, hit, ctx, names, d, p, m);
      } else {
        if hit.ip == p {
          if ctx.IsCrossSegment(p, hit.ip) {
            CrossMeansElsewhere(ctx, p, hit.ip);
          }
          OwnHitMatches(s.devices, hit, names, d);
          assert false;
        }
        OthersLeaveIt(s.devices, hit, names, i, d);
      }
    }
  }

  /** A run of scan answers, each with the subnets configured at its time. */
  function RunHits(s: State, hits: seq<(Hit, Context)>, names: Names): State
    decreases |hits|
  {
    if hits == [] then s else RunHits(Step(s, hits[0].0, hits[0].1, names), hits[1..], names)
  }

  /** Over any run of harmless hits an online device keeps its address and stays online. */
  lemma {:induction false} RunKeepsSettled(
    s: State, hits: seq<(Hit, Context)>, names: Names, d: nat, p: Address, m: Option<string>)
    requires DistinctAddresses(s.devices) && Settled(s, d, p, m)
    requires forall h :: h in hits ==> Harmless(h.0, h.1, p, m)
    ensures Settled(RunHits(s, hits, names), d, p, m)
    ensures DistinctAddresses(RunHits(s, hits, names).devices)
    decreases |hits|
  {
    if hits != [] {
      assert hits[0] in hits;
      hide Step, Harmless, Settled, DistinctAddresses;
      StepKeepsSettled(s, hits[0].0, hits[0].1, names, d, p, m);
      RunKeepsSettled(Step(s, hits[0].0, hits[0].1, names), hits[1..], names, d, p, m);
    }
  }

  // ---------------------------------------------------------------- what any answer leaves alone

  lemma RefreshKeeps(d: Device, hit: Hit, names: Names)
    ensures var r := Refreshed(d, hit, names);
            && r.id == d.id && r.ip == d.ip && r.oldIp == d.oldIp && r.online && !r.placeholder && r.missed == 0
            && (MacIsValid(d.mac) ==> r.mac == d.mac) && (MacIsValid(hit.mac) ==> MacIsValid(r.mac))
  {
    hide MacIsValid, IsIpLike, Truthy;
  }

  /**
   An accepted answer puts the matched device at the address, online, with its former address remembered if it
   moved; only a device that was there is displaced, and it goes offline.
   */
  lemma AnswerArrives(s: State, hit: Hit, ctx: Context, names: Names, i: nat, how: MatchType)
    requires DistinctAddresses(s.devices) && InterfaceAt(s.interfaces, hit.ip).None?
    requires MatchDevice(s.devices, hit, names) == Some((i, how)) && !KeepsIp(s, i, hit.ip, how, ctx)
    requires Step(s, hit, ctx, names) != s
    ensures var (was, now) := (s.devices, Step(s, hit, ctx, names).devices);
            && i < |was| == |now| && DistinctAddresses(now)
            && now[i].ip == hit.ip && now[i].online && !now[i].placeholder && now[i].missed == 0
            && now[i].oldIp == (if was[i].ip == hit.ip then was[i].oldIp else Some(was[i].ip))
            && forall j :: 0 <= j < |was| && j != i ==>
                 now[j] == was[j]
                 || (was[j].ip == hit.ip && now[j].ip != hit.ip
                     && now[j] == was[j].(ip := now[j].ip, online := false, placeholder := true))
  {
    hide MatchDevice, InterfaceAt, SafeAddress, KeepsIp, Refreshed;
    RefreshKeeps(s.devices[i], hit, names);
    var now := Updated(s.devices, i, hit, names);
    assert now[i].ip == hit.ip;
  }

  /** Whatever the answer: ids stay, and a valid MAC is never replaced. */
  lemma StepKeepsMacs(s: State, hit: Hit, ctx: Context, names: Names, j: nat)
    requires j < |s.devices|
    ensures var now := Step(s, hit, ctx, names).devices;
            && |now| == |s.devices| && now[j].id == s.devices[j].id
            && (MacIsValid(s.devices[j].mac) ==> now[j].mac == s.devices[j].mac)
  {
    hide MatchDevice, InterfaceAt, SafeAddress, KeepsIp, Refreshed, MacIsValid, DistinctAddresses;
    var found := MatchDevice(s.devices, hit, names);
    if found.Some? {
      RefreshKeeps(s.devices[found.value.0], hit, names);
    }
  }

  lemma {:induction false} RunKeepsMacs(s: State, hits: seq<(Hit, Context)>, names: Names, j: nat)
    requires j < |s.devices|
    ensures var now := RunHits(s, hits, names).devices;
            && |now| == |s.devices| && now[j].id == s.devices[j].id
            && (MacIsValid(s.devices[j].mac) ==> now[j].mac == s.devices[j].mac)
    decreases |hits|
  {
    hide Step, MacIsValid;
    if hits != [] {
      StepKeepsMacs(s, hits[0].0, hits[0].1, names, j);
      RunKeepsMacs(Step(s, hits[0].0, hits[0].1, names), hits[1..], names, j);
    }
  }

  // ---------------------------------------------------------------- when a move is refused

  /** The displaced device would land on the very address it has to leave. */
  ghost predicate Blocked(devices: seq<Device>, c: nat, a: Address)
    requires c < |devices|
  {
    var others, former := OtherAddresses(devices, c), devices[c].oldIp;
    if Reusable(former) && former.value !in others then former.value == a
    else exists k: nat :: a == PlaceholderAt(k) && forall j: nat :: j < k ==> PlaceholderAt(j) in others
  }

  lemma BlockedIsSafeAddress(devices: seq<Device>, c: nat, a: Address)
    requires c < |devices| && DistinctAddresses(devices) && devices[c].ip == a
    ensures Blocked(devices, c, a) <==> SafeAddress(devices, c) == a
  {
    var others := OtherAddresses(devices, c);
    var n := FirstFree(others, 0);
    if k: nat :| a == PlaceholderAt(k) && forall j: nat :: j < k ==> PlaceholderAt(j) in others {
      assert a !in others;
      assert n == k;
    }
  }

  lemma SafeAddressIsFree(devices: seq<Device>, c: nat)
    requires c < |devices|
    ensures forall j :: 0 <= j < |devices| && j != c ==> devices[j].ip != SafeAddress(devices, c)
  {
    forall j | 0 <= j < |devices| && j != c ensures devices[j].ip in OtherAddresses(devices, c) {}
  }

  /**
   Moving a device to an address keeps all addresses different, unless another device is there and blocked:
   then and only then the unique key refuses the whole answer.
   */
  lemma MoveKeepsDistinct(devices: seq<Device>, i: nat, hit: Hit, names: Names)
    requires DistinctAddresses(devices) && i < |devices| && devices[i].ip != hit.ip
    ensures DistinctAddresses(Updated(devices, i, hit, names))
            <==> forall c: nat :: c < |devices| && devices[c].ip == hit.ip ==> !Blocked(devices, c, hit.ip)
  {
    var next := Updated(devices, i, hit, names);
    var conflict := ConflictAt(devices, i, hit.ip);
    if conflict.None? {
      assert next == devices[i := next[i]] && next[i].ip == hit.ip;
    } else {
      var c := conflict.value;
      BlockedIsSafeAddress(devices, c, hit.ip);
      SafeAddressIsFree(devices, c);
      assert next[c].ip == SafeAddress(devices, c) && next[i].ip == hit.ip;
      forall b: nat | b < |devices| && devices[b].ip == hit.ip ensures b == c {
        SameAddressSamePlace(devices, b, c);
      }
      if SafeAddress(devices, c) == hit.ip {
        assert next[c].ip == next[i].ip && (c < i || i < c);
      } else {
        forall j, k | 0 <= j < k < |next| ensures next[j].ip != next[k].ip {
          assert j != i && j != c ==> next[j].ip == devices[j].ip;
          assert k != i && k != c ==> next[k].ip == devices[k].ip;
        }
      }
    }
  }

  /** In particular it works whenever the displaced device did not come from there and it is no placeholder. */
  lemma OrdinaryMoves(devices: seq<Device>, i: nat, hit: Hit, names: Names)
    requires DistinctAddresses(devices) && i < |devices| && devices[i].ip != hit.ip && IndexOf(hit.ip) == -1
    requires forall c: nat :: c < |devices| && devices[c].ip == hit.ip ==> devices[c].oldIp != Some(hit.ip)
    ensures DistinctAddresses(Updated(devices, i, hit, names))
  {
    forall c: nat | c < |devices| && devices[c].ip == hit.ip ensures !Blocked(devices, c, hit.ip) {}
    MoveKeepsDistinct(devices, i, hit, names);
  }

  /** A refused answer leaves no trace. */
  lemma RefusedMoveIsLost(s: State, hit: Hit, ctx: Context, names: Names, c: nat)
    requires DistinctAddresses(s.devices) && InterfaceAt(s.interfaces, hit.ip).None?
    requires c < |s.devices| && s.devices[c].ip == hit.ip && Blocked(s.devices, c, hit.ip)
    requires var found := MatchDevice(s.devices, hit, names);
             && found.Some? && s.devices[found.value.0].ip != hit.ip
             && !KeepsIp(s, found.value.0, hit.ip, found.value.1, ctx)
    ensures Step(s, hit, ctx, names) == s
  {
    MoveKeepsDistinct(s.devices, MatchDevice(s.devices, hit, names).value.0, hit, names);
  }

  /** A device that was displaced back to its old address is blocked there from then on. */
  lemma SentBackIsBlocked(devices: seq<Device>, i: nat, hit: Hit, names: Names, c: nat)
    requires DistinctAddresses(devices) && i < |devices| && devices[i].ip != hit.ip
    requires ConflictAt(devices, i, hit.ip) == Some(c)
    requires Reusable(devices[c].oldIp) && devices[c].oldIp.value !in OtherAddresses(devices, c)
    requires devices[c].oldIp.value != hit.ip
    ensures var next := Updated(devices, i, hit, names);
            && DistinctAddresses(next) && next[c].ip == devices[c].oldIp.value && Blocked(next, c, next[c].ip)
  {
    forall b: nat | b < |devices| && devices[b].ip == hit.ip ensures !Blocked(devices, b, hit.ip) {
      SameAddressSamePlace(devices, b, c);
    }
    MoveKeepsDistinct(devices, i, hit, names);
    var next := Updated(devices, i, hit, names);
    assert next[c].oldIp == devices[c].oldIp;
    assert next[c].ip !in OtherAddresses(next, c);
  }

  // ---------------------------------------------------------------- an answer that is lost

  const NOWHERE := Context([])

  /** A device that answered with this MAC and is known by nothing else. */
  function Plain(id: int, ip: Address, mac: string, oldIp: Option<Address>): Device {
    Device(id, ip, Some(mac), None, "", None, true, false, 0, oldIp)
  }

  function MacAt(ip: Address, mac: string): Hit {
    Hit(ip, Some(mac), None, None)
  }

  predicate Apart(a: string, b: string) {
    MacIsValid(Some(a)) && MacIsValid(Some(b)) && Lower(a) != Lower(b)
  }

  /** Of two devices in one /24, the first one answering at the address of the second is moved there. */
  lemma FirstMoves(s: State, a: string, b: string, to: nat, names: Names)
    requires |s.devices| == 2 && s.interfaces == [] && s.devices[0].ip.V4? && s.devices[0].ip != V4(to)
    requires s.devices[0].id != s.devices[1].id && s.devices[1].ip == V4(to) && Apart(a, b)
    requires s.devices[0].mac == Some(a) && s.devices[1].mac == Some(b) && !IsUnraid(s.devices[0], names)
    requires Shift(s.devices[0].ip.bits, 8) == Shift(to, 8)
    ensures MatchDevice(s.devices, MacAt(V4(to), a), names) == Some((0, ByMac))
    ensures !KeepsIp(s, 0, V4(to), ByMac, NOWHERE)
  {
    hide MacIsValid, Lower, IsUnraid, Shift, MatchDevice;
    var hit := MacAt(V4(to), a);
    assert a != b;
    assert Rejects(s.devices, hit, names, 1, 0);
    AddressOrOwner(s.devices, hit, names, 1);
    NoSubnets(V4(to));
    NoSubnets(s.devices[0].ip);
  }

  lemma NoSubnets(ip: Address)
    ensures NOWHERE.SubnetFor(ip).None?
  {
    LongestPrefix(NOWHERE, ip);
  }

  lemma PlainIsNoUnraid(id: int, ip: Address, mac: string, oldIp: Option<Address>, names: Names)
    ensures !IsUnraid(Plain(id, ip, mac, oldIp), names)
  {
  }

  /** The addresses 192.168.0.1, .2 and .3. */
  const X := V4(3232235521)
  const Y := V4(3232235522)
  const Z := V4(3232235523)

  lemma OneSegment()
    ensures Shift(X.bits, 8) == Shift(Y.bits, 8) == Shift(Z.bits, 8)
  {
    HalvedTo(X.bits);
    HalvedTo(Y.bits);
    HalvedTo(Z.bits);
  }

  lemma HalvedTo(n: nat)
    ensures Shift(n, 8) == n / 2 / 2 / 2 / 2 / 2 / 2 / 2 / 2
  {
    assert Shift(n, 8) == Shift(n / 2, 7) == Shift(n / 2 / 2, 6) == Shift(n / 2 / 2 / 2, 5);
    assert Shift(n / 2 / 2 / 2, 5) == Shift(n / 2 / 2 / 2 / 2, 4) == Shift(n / 2 / 2 / 2 / 2 / 2, 3);
    assert Shift(n / 2 / 2 / 2 / 2 / 2, 3) == Shift(n / 2 / 2 / 2 / 2 / 2 / 2, 2) == Shift(n / 2 / 2 / 2 / 2 / 2 / 2 / 2, 1);
  }

  /** Device 1 is at .1, device 2 at .2 and came from .3. */
  function Start(a: string, b: string): State {
    State([Plain(1, X, a, None), Plain(2, Y, b, Some(Z))], [])
  }

  /** Device 1 answers at .2: it moves there, and device 2 goes back to .3, which is the address it came from. */
  lemma FirstAnswer(a: string, b: string, names: Names)
    requires Apart(a, b)
    ensures var s := Step(Start(a, b), MacAt(Y, a), NOWHERE, names);
            && DistinctAddresses(s.devices) && s.interfaces == [] && |s.devices| == 2
            && s.devices[0].(oldIp := None) == Plain(1, Y, a, None) && s.devices[0].ip == Y
            && s.devices[1] == Plain(2, Z, b, Some(Z)).(online := false, placeholder := true)
            && Blocked(s.devices, 1, Z)
  {
    var devices, hit := Start(a, b).devices, MacAt(Y, a);
    OneSegment();
    PlainIsNoUnraid(1, X, a, None, names);
    FirstMoves(Start(a, b), a, b, Y.bits, names);
    hide MatchDevice, KeepsIp, MacIsValid, Lower, Shift, IsUnraid;
    assert ConflictAt(devices, 0, Y) == Some(1);
    assert OtherAddresses(devices, 1) == {X} by {
      assert devices[0].ip == X;
    }
    SentBackIsBlocked(devices, 0, hit, names, 1);
    PlainRefreshed(1, X, a, None, hit, names);
    var next := Updated(devices, 0, hit, names);
    assert next[1].ip == Z && next[0].ip == Y;
  }

  lemma PlainRefreshed(id: int, ip: Address, mac: string, oldIp: Option<Address>, hit: Hit, names: Names)
    requires MacIsValid(Some(mac)) && hit == MacAt(hit.ip, mac)
    ensures Refreshed(Plain(id, ip, mac, oldIp), hit, names) == Plain(id, ip, mac, oldIp)
  {
    hide MacIsValid, IsIpLike;
  }

  /** Then it answers at .3, and this answer is lost: the device stays listed at .2. */
  lemma SecondAnswerIsLost(a: string, b: string, names: Names)
    requires Apart(a, b)
    ensures var s := Step(Start(a, b), MacAt(Y, a), NOWHERE, names);
            && Step(s, MacAt(Z, a), NOWHERE, names) == s
            && |s.devices| == 2 && s.devices[0].mac == Some(a) && s.devices[0].ip == Y
  {
    hide Step, Start, MacIsValid, Lower, Shift, Blocked, DistinctAddresses;
    FirstAnswer(a, b, names);
    OneSegment();
    var s := Step(Start(a, b), MacAt(Y, a), NOWHERE, names);
    var d := s.devices[0];
    SameButOldIp(d, Plain(1, Y, a, None), names);
    FirstMoves(s, a, b, Z.bits, names);
    RefusedMoveIsLost(s, MacAt(Z, a), NOWHERE, names, 1);
  }

  lemma SameButOldIp(d: Device, e: Device, names: Names)
    requires d.(oldIp := None) == e && e.displayName == "" && e.hostname.None? && e.vendor.None?
    ensures !IsUnraid(d, names) && d.mac == e.mac && d.id == e.id
  {
  }

  /** There are such MACs. */
  lemma TwoMacs()
    ensures Apart("02:00:00:00:00:0a", "02:00:00:00:00:0b")
  {
    GoodMac("02:00:00:00:00:0a");
    GoodMac("02:00:00:00:00:0b");
    assert Lower("02:00:00:00:00:0a")[16] == 'a' && Lower("02:00:00:00:00:0b")[16] == 'b';
  }

  lemma GoodMac(mac: string)
    requires |mac| == 17 && mac[0] == '0' && mac[1] == '2' && !IsSpace(mac[16])
    ensures MacIsValid(Some(mac))
  {
    assert StripLeft(mac) == mac && StripRight(mac) == mac;
    assert Lower(mac)[0] == '0' && Lower(mac)[1] == '2';
  }
}
