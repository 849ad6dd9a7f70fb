/**
 Addresses, networks and the lookup of the configured subnet that holds an address
 (backend/app/scanner/sync.py, SyncContext and load_sync_context).
 */
module Networks {
  import opened Wrappers

  /**
   What the address column may hold: an IPv4 address, "0.0.0.n" for an n that no address has, or other
   text. `ipLike` says whether that text has the dotted shape or is a generic placeholder name.
   */
  datatype Address = V4(bits: nat) | OutOfRange(n: nat) | Other(text: string, ipLike: bool)

  /** The address without its last k bits. */
  function Shift(bits: nat, k: nat): nat
    decreases k
  {
    if k == 0 then bits else Shift(bits / 2, k - 1)
  }

  lemma {:induction false} ShiftTwice(bits: nat, j: nat, k: nat)
    ensures Shift(Shift(bits, j), k) == Shift(bits, j + k)
    decreases j
  {
    if j > 0 {
      ShiftTwice(bits / 2, j - 1, k);
    }
  }

  function Pow2(k: nat): (p: nat)
    ensures p > 0
  {
    if k == 0 then 1 else 2 * Pow2(k - 1)
  }

  lemma HalfThenDivide(n: nat, p: nat)
    requires p > 0
    ensures n / 2 / p == n / (2 * p)
  {
    var q, r := n / (2 * p), n % (2 * p);
    assert n == q * (2 * p) + r;
    assert n / 2 == q * p + r / 2 && r / 2 < p;
    Quotient(q, r / 2, p);
  }

  lemma Further(a: int, b: int, p: nat)
    ensures a < b ==> a * p + p <= b * p
  {
    if a < b {
      assert b * p == (a + 1) * p + (b - a - 1) * p;
      Product(b - a - 1, p);
    }
  }

  lemma Product(a: nat, p: nat)
    ensures a * p >= 0
  {
  }

  lemma Quotient(q: nat, r: nat, p: nat)
    requires r < p
    ensures (q * p + r) / p == q
  {
    var n := q * p + r;
    assert n == n / p * p + n % p;
    Further(n / p, q, p);
    Further(q, n / p, p);
  }

  /** Dropping the last k bits is division by 2 to the k. */
  lemma {:induction false} ShiftDivides(bits: nat, k: nat)
    ensures Shift(bits, k) == bits / Pow2(k)
    decreases k
  {
    if k > 0 {
      ShiftDivides(bits / 2, k - 1);
      HalfThenDivide(bits, Pow2(k - 1));
    }
  }

  /** The last number of an IPv4 address is its last 8 bits. */
  lemma LastNumber(bits: nat)
    ensures Shift(bits, 8) == bits / 256
  {
    ShiftDivides(bits, 8);
    assert Pow2(4) == 16;
    assert Pow2(8) == 256;
  }

  /** A network, given by any of its addresses; host bits are ignored. */
  datatype Network = Network(base: nat, prefix: nat)

  predicate Contains(net: Network, ip: Address)
    requires net.prefix <= 32
  {
    ip.V4? && Shift(ip.bits, 32 - net.prefix) == Shift(net.base, 32 - net.prefix)
  }

  /** A network is the block of 2 to the (32 - prefix) addresses around its base; no prefix bits: all of them. */
  lemma ContainsMeans(net: Network, ip: Address)
    requires net.prefix <= 32
    ensures var size := Pow2(32 - net.prefix);
            Contains(net, ip) <==> ip.V4? && ip.bits / size == net.base / size
  {
    if ip.V4? {
      ShiftDivides(ip.bits, 32 - net.prefix);
      ShiftDivides(net.base, 32 - net.prefix);
    }
  }

  /** Of two networks around one address the one with the longer prefix lies inside the other. */
  lemma LongerIsInner(inner: Network, outer: Network, ip: Address, other: Address)
    requires outer.prefix <= inner.prefix <= 32
    requires Contains(inner, ip) && Contains(outer, ip) && Contains(inner, other)
    ensures Contains(outer, other)
  {
    var j, k := 32 - inner.prefix, inner.prefix - outer.prefix;
    ShiftTwice(ip.bits, j, k);
    ShiftTwice(inner.base, j, k);
    ShiftTwice(outer.base, j, k);
    ShiftTwice(other.bits, j, k);
  }

  /** A configured subnet; `network` is missing when its CIDR text cannot be read. */
  datatype Subnet = Subnet(id: int, cidr: string, network: Option<Network>, gateway: Option<Address>)

  predicate Usable(s: Subnet) {
    s.network.Some? && s.network.value.prefix <= 32
  }

  function PrefixOf(s: Subnet): nat {
    if s.network.Some? then s.network.value.prefix else 0
  }

  predicate Holds(s: Subnet, ip: Address) {
    Usable(s) && Contains(s.network.value, ip)
  }

  // ---------------------------------------------------------------- most specific first

  function InsertByPrefix(s: Subnet, sorted: seq<Subnet>): (result: seq<Subnet>)
    ensures forall x :: x in result <==> x == s || x in sorted
  {
    if sorted == [] || PrefixOf(sorted[0]) <= PrefixOf(s) then [s] + sorted
    else
      assert sorted == [sorted[0]] + sorted[1..];
      [sorted[0]] + InsertByPrefix(s, sorted[1..])
  }

  /** The readable networks, longest prefix first; equal prefixes keep the order of the table. */
  function ByPrefix(subnets: seq<Subnet>): (result: seq<Subnet>)
    ensures forall x :: x in result <==> x in subnets && Usable(x)
  {
    if subnets == [] then []
    else
      assert subnets == [subnets[0]] + subnets[1..];
      var rest := ByPrefix(subnets[1..]);
      if Usable(subnets[0]) then InsertByPrefix(subnets[0], rest) else rest
  }

  ghost predicate Falling(sorted: seq<Subnet>) {
    forall i, j :: 0 <= i < j < |sorted| ==> PrefixOf(sorted[j]) <= PrefixOf(sorted[i])
  }

  lemma {:induction false} InsertFalls(s: Subnet, sorted: seq<Subnet>)
    requires Falling(sorted)
    ensures Falling(InsertByPrefix(s, sorted))
  {
    if sorted != [] && PrefixOf(sorted[0]) > PrefixOf(s) {
      InsertFalls(s, sorted[1..]);
      var rest := InsertByPrefix(s, sorted[1..]);
      forall j | 0 <= j < |rest| ensures PrefixOf(rest[j]) <= PrefixOf(sorted[0]) {
        assert rest[j] == s || rest[j] in sorted[1..];
      }
    }
  }

  lemma {:induction false} ByPrefixFalls(subnets: seq<Subnet>)
    ensures Falling(ByPrefix(subnets))
  {
    if subnets != [] {
      ByPrefixFalls(subnets[1..]);
      if Usable(subnets[0]) {
        InsertFalls(subnets[0], ByPrefix(subnets[1..]));
      }
    }
  }

  // ---------------------------------------------------------------- the context of a batch

  function FirstHolding(sorted: seq<Subnet>, ip: Address): Option<Subnet> {
    if sorted == [] then None
    else if Holds(sorted[0], ip) then Some(sorted[0])
    else FirstHolding(sorted[1..], ip)
  }

  /** What the address is a part of: a configured subnet, or else the /24 around it. */
  datatype Segment = Configured(cidr: string) | Around(top: nat)

  datatype Context = Context(subnets: seq<Subnet>)
  {
    function SubnetFor(ip: Address): Option<Subnet> {
      FirstHolding(ByPrefix(subnets), ip)
    }

    function SegmentOf(ip: Address): Option<Segment> {
      var sub := SubnetFor(ip);
      if sub.Some? then Some(Configured(sub.value.cidr))
      else if ip.V4? then Some(Around(Shift(ip.bits, 8)))
      else None
    }

    predicate IsCrossSegment(a: Address, b: Address) {
      var sa, sb := SegmentOf(a), SegmentOf(b);
      sa.Some? && sb.Some? && sa != sb
    }

    predicate IsGateway(ip: Address) {
      var sub := SubnetFor(ip);
      sub.Some? && sub.value.gateway == Some(ip)
    }
  }

  lemma {:induction false} FirstHoldingIsFirst(sorted: seq<Subnet>, ip: Address)
    ensures FirstHolding(sorted, ip).None? <==> forall x :: x in sorted ==> !Holds(x, ip)
    ensures FirstHolding(sorted, ip).Some? ==>
              exists i :: 0 <= i < |sorted| && sorted[i] == FirstHolding(sorted, ip).value && Holds(sorted[i], ip)
                && forall j :: 0 <= j < i ==> !Holds(sorted[j], ip)
  {
    hide Holds;
    if sorted != [] && !Holds(sorted[0], ip) {
      FirstHoldingIsFirst(sorted[1..], ip);
      if FirstHolding(sorted[1..], ip).Some? {
        var i :| 0 <= i < |sorted[1..]| && sorted[1..][i] == FirstHolding(sorted, ip).value && Holds(sorted[1..][i], ip)
          && forall j :: 0 <= j < i ==> !Holds(sorted[1..][j], ip);
        assert sorted[i + 1] == sorted[1..][i];
        assert forall j :: 0 < j < i + 1 ==> sorted[j] == sorted[1..][j - 1];
      }
      assert sorted == [sorted[0]] + sorted[1..];
    } else if sorted != [] {
      assert sorted[0] in sorted;
    }
  }

  /**
   The lookup finds a subnet exactly when some readable subnet holds the address, and then the innermost
   one: every subnet around the address contains all of it.
   */
  lemma LongestPrefix(ctx: Context, ip: Address)
    ensures ctx.SubnetFor(ip).None? <==> forall s :: s in ctx.subnets ==> !Holds(s, ip)
    ensures ctx.SubnetFor(ip).Some? ==>
              var found := ctx.SubnetFor(ip).value;
              && found in ctx.subnets && Holds(found, ip)
              && (forall s :: s in ctx.subnets && Holds(s, ip) ==>
                    && PrefixOf(s) <= PrefixOf(found)
                    && forall other :: Holds(found, other) ==> Holds(s, other))
  {
    var sorted := ByPrefix(ctx.subnets);
    FirstHoldingIsFirst(sorted, ip);
    ByPrefixFalls(ctx.subnets);
    hide FirstHolding, ByPrefix, Holds, PrefixOf;
    forall s | s in ctx.subnets && Holds(s, ip) ensures s in sorted {
      HoldsUsable(s, ip);
    }
    if ctx.SubnetFor(ip).Some? {
      var found := ctx.SubnetFor(ip).value;
      var i :| 0 <= i < |sorted| && sorted[i] == found && Holds(sorted[i], ip) && forall j :: 0 <= j < i ==> !Holds(sorted[j], ip);
      forall s | s in ctx.subnets && Holds(s, ip)
        ensures PrefixOf(s) <= PrefixOf(found) && forall other :: Holds(found, other) ==> Holds(s, other)
      {
        var k :| 0 <= k < |sorted| && sorted[k] == s;
        assert i <= k;
        WiderHolds(found, s, ip);
      }
    }
  }

  lemma HoldsUsable(s: Subnet, ip: Address)
    requires Holds(s, ip)
    ensures Usable(s)
  {
  }

  /** Of two subnets around the address the one with the shorter prefix holds all that the other holds. */
  lemma WiderHolds(inner: Subnet, outer: Subnet, ip: Address)
    requires Holds(inner, ip) && Holds(outer, ip) && PrefixOf(outer) <= PrefixOf(inner)
    ensures forall other :: Holds(inner, other) ==> Holds(outer, other)
  {
    forall other | Holds(inner, other) ensures Holds(outer, other) {
      LongerIsInner(inner.network.value, outer.network.value, ip, other);
    }
  }

  /**
   Two addresses lie in different segments when their subnets have different CIDR texts, when only one of them
   lies in a subnet, or when neither does and they differ before the last number. What is no IPv4 address lies
   in no segment.
   */
  lemma CrossSegments(ctx: Context, a: Address, b: Address)
    ensures var x, y := ctx.SubnetFor(a), ctx.SubnetFor(b);
            && (x.Some? && y.Some? ==> (ctx.IsCrossSegment(a, b) <==> x.value.cidr != y.value.cidr))
            && (x.Some? && y.None? ==> (ctx.IsCrossSegment(a, b) <==> b.V4?))
            && (x.None? && y.Some? ==> (ctx.IsCrossSegment(a, b) <==> a.V4?))
            && (x.None? && y.None? ==> (ctx.IsCrossSegment(a, b) <==> a.V4? && b.V4? && a.bits / 256 != b.bits / 256))
  {
    hide FirstHolding, ByPrefix;
    if a.V4? {
      LastNumber(a.bits);
    }
    if b.V4? {
      LastNumber(b.bits);
    }
  }
}
