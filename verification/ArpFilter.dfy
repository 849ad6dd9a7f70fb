/**
 Which entries of the ARP cache are believed (backend/app/scanner/arp.py, _filter_gateway_and_proxy_macs): a
 router answers for addresses behind it, so a MAC that many addresses share is dropped from remote ones.
 */
module ArpFilter {
  import opened Wrappers
  import opened Texts
  import opened Networks

  /** An IPv4 or IPv6 address, or text that is neither. */
  datatype Host = Host4(bits: nat) | Host6(bits: nat) | NoHost(text: string)

  datatype Entry = Entry(host: Host, mac: string)

  /** A local subnet as configured; None when its text cannot be read. */
  datatype Net = Net4(base: nat, prefix: nat) | Net6(base: nat, prefix: nat)

  predicate Holding(net: Net, h: Host) {
    match (net, h)
    case (Net4(base, prefix), Host4(bits)) => prefix <= 32 && Shift(bits, 32 - prefix) == Shift(base, 32 - prefix)
    case (Net6(base, prefix), Host6(bits)) => prefix <= 128 && Shift(bits, 128 - prefix) == Shift(base, 128 - prefix)
    case _ => false
  }

  predicate Local(h: Host, nets: seq<Net>) {
    exists k :: 0 <= k < |nets| && Holding(nets[k], h)
  }

  lemma LocalMeans(h: Host, nets: seq<Net>)
    ensures Local(h, nets) <==> exists net :: net in nets && Holding(net, h)
  {
    hide Holding;
    if net :| net in nets && Holding(net, h) {
      var k :| 0 <= k < |nets| && nets[k] == net;
    }
  }

  /** The /24 network around an address, of its own kind. */
  datatype Block = Block4(n: nat) | Block6(n: nat)

  function BlockOf(h: Host): Option<Block> {
    match h
    case Host4(bits) => Some(Block4(Shift(bits, 8)))
    case Host6(bits) => Some(Block6(Shift(bits, 104)))
    case NoHost(_) => None
  }

  /** Two addresses have one block exactly when they are of one kind and agree in all but the last 8 or 104 bits. */
  lemma BlocksAgree(g: Host, h: Host)
    requires !g.NoHost? && !h.NoHost?
    ensures BlockOf(g) == BlockOf(h)
            <==> (g.Host4? && h.Host4? && g.bits / 256 == h.bits / 256)
                 || (g.Host6? && h.Host6? && g.bits / Pow2(104) == h.bits / Pow2(104))
  {
    hide Pow2;
    LastNumber(g.bits);
    LastNumber(h.bits);
    ShiftDivides(g.bits, 104);
    ShiftDivides(h.bits, 104);
  }

  /** A local network holds the addresses of its kind in one block of 2 to the (32 or 128 - prefix) of them. */
  lemma HoldingMeans(net: Net, h: Host)
    ensures Holding(net, h)
            <==> || (net.Net4? && h.Host4? && net.prefix <= 32
                     && h.bits / Pow2(32 - net.prefix) == net.base / Pow2(32 - net.prefix))
                 || (net.Net6? && h.Host6? && net.prefix <= 128
                     && h.bits / Pow2(128 - net.prefix) == net.base / Pow2(128 - net.prefix))
  {
    hide Pow2;
    if net.Net4? && h.Host4? && net.prefix <= 32 {
      ShiftDivides(h.bits, 32 - net.prefix);
      ShiftDivides(net.base, 32 - net.prefix);
    } else if net.Net6? && h.Host6? && net.prefix <= 128 {
      ShiftDivides(h.bits, 128 - net.prefix);
      ShiftDivides(net.base, 128 - net.prefix);
    }
  }

  // ---------------------------------------------------------------- the specification

  /** The addresses that show the MAC, whatever the case; the empty MAC is nobody's. */
  function Sharing(entries: seq<Entry>, mac: string): (hosts: seq<Host>)
    ensures forall h :: h in hosts <==> exists e :: e in entries && e.host == h && e.mac != "" && Lower(e.mac) == mac
  {
    if entries == [] then []
    else
      var n := |entries| - 1;
      assert entries == entries[..n] + [entries[n]];
      Sharing(entries[..n], mac) + if entries[n].mac != "" && Lower(entries[n].mac) == mac then [entries[n].host] else []
  }

  predicate AnyLocal4(hosts: seq<Host>, nets: seq<Net>) {
    exists k :: 0 <= k < |hosts| && hosts[k].Host4? && Local(hosts[k], nets)
  }

  function Blocks(hosts: seq<Host>): set<Option<Block>> {
    set k | 0 <= k < |hosts| && !hosts[k].NoHost? :: BlockOf(hosts[k])
  }

  predicate Believed(entries: seq<Entry>, nets: seq<Net>, e: Entry) {
    var shared := Sharing(entries, Lower(e.mac));
    || |shared| <= 1 || e.host.NoHost? || Local(e.host, nets)
    || (!AnyLocal4(shared, nets) && |Blocks(shared)| <= 1)
  }

  /** The believed ones among the given entries, in order. */
  function Kept(some: seq<Entry>, entries: seq<Entry>, nets: seq<Net>): (kept: seq<Entry>)
    ensures forall e :: e in kept <==> e in some && Believed(entries, nets, e)
  {
    if some == [] then []
    else
      var n := |some| - 1;
      assert some == some[..n] + [some[n]];
      Kept(some[..n], entries, nets) + if Believed(entries, nets, some[n]) then [some[n]] else []
  }

  function Sanitized(entries: seq<Entry>, nets: seq<Net>): seq<Entry> {
    Kept(entries, entries, nets)
  }

  // ---------------------------------------------------------------- what is left

  predicate SameMac(e: Entry, f: Entry) {
    e.mac != "" && f.mac != "" && Lower(e.mac) == Lower(f.mac)
  }

  lemma TwoShare(entries: seq<Entry>, e: Entry, f: Entry)
    requires e in entries && f in entries && e.host != f.host && SameMac(e, f)
    ensures var shared := Sharing(entries, Lower(e.mac)); e.host in shared && f.host in shared && |shared| > 1
  {
    var shared := Sharing(entries, Lower(e.mac));
    assert e.host in shared && f.host in shared;
    hide Sharing;
    TwoInList(shared, e.host, f.host);
  }

  lemma TwoInList<T>(list: seq<T>, x: T, y: T)
    requires x in list && y in list && x != y
    ensures |list| > 1
  {
  }

  lemma SameBlock(hosts: seq<Host>, g: Host, h: Host)
    requires g in hosts && h in hosts && !g.NoHost? && !h.NoHost? && |Blocks(hosts)| <= 1
    ensures BlockOf(g) == BlockOf(h)
  {
    assert BlockOf(g) in Blocks(hosts) && BlockOf(h) in Blocks(hosts);
    AtMostOne(Blocks(hosts), BlockOf(g), BlockOf(h));
  }

  lemma AtMostOne<T>(s: set<T>, x: T, y: T)
    requires x in s && y in s && |s| <= 1
    ensures x == y
  {
    assert |s - {x}| == 0;
    assert y !in s - {x};
  }

  /** A remote address that keeps a shared MAC: no local IPv4 address has it, and one /24 holds all that do. */
  lemma RemoteKeeper(entries: seq<Entry>, nets: seq<Net>, e: Entry, h: Host)
    requires e in Sanitized(entries, nets) && !e.host.NoHost? && !Local(e.host, nets)
    requires var shared := Sharing(entries, Lower(e.mac)); |shared| > 1 && e.host in shared && h in shared && !h.NoHost?
    ensures BlockOf(h) == BlockOf(e.host) && (h.Host4? ==> !Local(h, nets))
  {
    var shared := Sharing(entries, Lower(e.mac));
    hide Sharing, Local, Blocks, BlockOf;
    assert Believed(entries, nets, e);
    SameBlock(shared, e.host, h);
  }

  /**
   Any two addresses left with one MAC are both local, or in one /24, and then both remote if they are IPv4.
   */
  lemma SharedMeansNear(entries: seq<Entry>, nets: seq<Net>, e: Entry, f: Entry)
    requires e in Sanitized(entries, nets) && f in Sanitized(entries, nets)
    requires e.host != f.host && SameMac(e, f) && !e.host.NoHost? && !f.host.NoHost?
    ensures || (Local(e.host, nets) && Local(f.host, nets))
            || (&& BlockOf(e.host) == BlockOf(f.host)
                && (e.host.Host4? ==> !Local(e.host, nets) && !Local(f.host, nets)))
  {
    TwoShare(entries, e, f);
    TwoShare(entries, f, e);
    hide Sharing, Local, Sanitized;
    if !Local(e.host, nets) {
      RemoteKeeper(entries, nets, e, f.host);
    } else if !Local(f.host, nets) {
      RemoteKeeper(entries, nets, f, e.host);
    }
  }

  /** What the filter is for: one MAC is on one segment, here or elsewhere. */
  ghost predicate Near(e: Entry, f: Entry, nets: seq<Net>) {
    || (Local(e.host, nets) && Local(f.host, nets))
    || (!Local(e.host, nets) && !Local(f.host, nets) && BlockOf(e.host) == BlockOf(f.host))
  }

  ghost predicate AllNear(left: seq<Entry>, nets: seq<Net>) {
    forall e, f :: e in left && f in left && e.host != f.host && SameMac(e, f) && !e.host.NoHost? && !f.host.NoHost? ==>
      Near(e, f, nets)
  }

  /** A local and a remote IPv6 address show one MAC, and so does no readable address outside their /24. */
  ghost predicate Mixed(entries: seq<Entry>, nets: seq<Net>, e: Entry, f: Entry) {
    && e in entries && f in entries && SameMac(e, f) && e.host.Host6? && f.host.Host6?
    && Local(e.host, nets) && !Local(f.host, nets) && |Blocks(Sharing(entries, Lower(f.mac)))| <= 1
  }

  /** If two entries left are not near, it is because local IPv6 addresses do not count as local sharers. */
  lemma FarMeansMixed(entries: seq<Entry>, nets: seq<Net>, e: Entry, f: Entry)
    requires e in Sanitized(entries, nets) && f in Sanitized(entries, nets)
    requires e.host != f.host && SameMac(e, f) && !e.host.NoHost? && !f.host.NoHost? && !Near(e, f, nets)
    ensures Mixed(entries, nets, e, f) || Mixed(entries, nets, f, e)
  {
    SharedMeansNear(entries, nets, e, f);
    TwoShare(entries, e, f);
    TwoShare(entries, f, e);
    hide Sharing, Local, Blocks, Lower, Shift;
    assert Believed(entries, nets, e) && Believed(entries, nets, f);
  }

  /** A mixed pair is kept: one /24 of IPv6 addresses holds no local IPv4 address. */
  lemma MixedStays(entries: seq<Entry>, nets: seq<Net>, e: Entry, f: Entry)
    requires Mixed(entries, nets, e, f)
    ensures e in Sanitized(entries, nets) && f in Sanitized(entries, nets) && e.host != f.host && !Near(e, f, nets)
  {
    var shared := Sharing(entries, Lower(f.mac));
    assert e.host != f.host;
    TwoShare(entries, f, e);
    hide Sharing, Local, Blocks, Lower, Shift;
    OneKind(shared, f.host);
    assert Believed(entries, nets, e) && Believed(entries, nets, f);
  }

  lemma OneKind(hosts: seq<Host>, h: Host)
    requires h in hosts && h.Host6? && |Blocks(hosts)| <= 1
    ensures forall k :: 0 <= k < |hosts| ==> !hosts[k].Host4?
  {
    hide Blocks, Shift;
    forall k | 0 <= k < |hosts| && !hosts[k].NoHost? ensures hosts[k].Host6? {
      assert hosts[k] in hosts;
      SameBlock(hosts, h, hosts[k]);
    }
  }

  /** All addresses left with one MAC are near each other if and only if no mixed pair comes in. */
  lemma NearUnlessMixed(entries: seq<Entry>, nets: seq<Net>)
    ensures AllNear(Sanitized(entries, nets), nets) <==> !exists e, f :: Mixed(entries, nets, e, f)
  {
    hide Near, Sanitized;
    var left := Sanitized(entries, nets);
    if e, f :| Mixed(entries, nets, e, f) {
      MixedStays(entries, nets, e, f);
    } else {
      forall e, f | e in left && f in left && e.host != f.host && SameMac(e, f) && !e.host.NoHost? && !f.host.NoHost?
        ensures Near(e, f, nets)
      {
        if !Near(e, f, nets) {
          FarMeansMixed(entries, nets, e, f);
        }
      }
    }
  }

  /** With IPv4 subnets only, which is all that the subnet detection collects, they always are. */
  lemma NearWithIpv4Subnets(entries: seq<Entry>, nets: seq<Net>)
    requires forall k :: 0 <= k < |nets| ==> nets[k].Net4?
    ensures AllNear(Sanitized(entries, nets), nets)
  {
    forall e, f ensures !Mixed(entries, nets, e, f) {}
    NearUnlessMixed(entries, nets);
  }

  /** Two entries that are a mixed pair: both keep the MAC. */
  lemma MixedIpv6(nets: seq<Net>, here: Entry, there: Entry)
    requires here.host.Host6? && there.host.Host6? && BlockOf(here.host) == BlockOf(there.host)
    requires Local(here.host, nets) && !Local(there.host, nets)
    ensures Sanitized([here, there], nets) == [here, there]
  {
    var entries := [here, there];
    forall e | e in entries ensures Believed(entries, nets, e) {
      var shared := Sharing(entries, Lower(e.mac));
      assert forall k :: 0 <= k < |shared| ==> shared[k] in shared;
      assert Blocks(shared) <= {BlockOf(here.host)};
      OneAtMost(Blocks(shared), BlockOf(here.host));
    }
    hide Believed;
    assert entries[..1] == [here] && [here][..0] == [];
    assert Kept([here], entries, nets) == [here];
  }

  lemma OneAtMost<T>(s: set<T>, x: T)
    requires s <= {x}
    ensures |s| <= 1
  {
    if x in s {
      assert s == {x};
    } else {
      assert s == {};
    }
  }

  /**
   Which entries stay: those without a readable address, the local ones, and a remote one exactly when every
   readable address with its MAC is in its /24 and no local IPv4 address has it.
   */
  lemma StaysExactly(entries: seq<Entry>, nets: seq<Net>, e: Entry)
    ensures e in Sanitized(entries, nets)
            <==> e in entries
                 && (e.host.NoHost? || Local(e.host, nets)
                     || forall f :: f in entries && SameMac(e, f) && !f.host.NoHost? ==>
                          BlockOf(f.host) == BlockOf(e.host) && !(f.host.Host4? && Local(f.host, nets)))
  {
    if e in entries && !e.host.NoHost? && !Local(e.host, nets) {
      var shared := Sharing(entries, Lower(e.mac));
      NoneElsewhere(entries, nets, e, shared);
      SharersFew(entries, nets, e, shared);
    }
  }

  /** Said of the addresses with the MAC instead of the entries. */
  lemma SharersFew(entries: seq<Entry>, nets: seq<Net>, e: Entry, shared: seq<Host>)
    requires e in entries && !e.host.NoHost? && !Local(e.host, nets) && shared == Sharing(entries, Lower(e.mac))
    ensures |shared| <= 1 || (!AnyLocal4(shared, nets) && |Blocks(shared)| <= 1) <==> AllHere(shared, nets, e)
  {
    hide Local, BlockOf;
    var block := BlockOf(e.host);
    if AllHere(shared, nets, e) {
      assert Blocks(shared) <= {block} by {
        assert forall k :: 0 <= k < |shared| ==> shared[k] in shared;
      }
      OneAtMost(Blocks(shared), block);
      assert !AnyLocal4(shared, nets);
    } else if e.mac != "" {
      assert e.host in shared;
      var h :| h in shared && !h.NoHost? && (BlockOf(h) != block || (h.Host4? && Local(h, nets)));
      assert h != e.host;
      hide Sharing;
      TwoInList(shared, h, e.host);
      if |Blocks(shared)| <= 1 {
        SameBlock(shared, h, e.host);
      }
    }
  }

  ghost predicate AllHere(shared: seq<Host>, nets: seq<Net>, e: Entry) {
    forall h :: h in shared && !h.NoHost? ==> BlockOf(h) == BlockOf(e.host) && !(h.Host4? && Local(h, nets))
  }

  lemma NoneElsewhere(entries: seq<Entry>, nets: seq<Net>, e: Entry, shared: seq<Host>)
    requires e in entries && shared == Sharing(entries, Lower(e.mac))
    ensures AllHere(shared, nets, e)
            <==> forall f :: f in entries && SameMac(e, f) && !f.host.NoHost? ==>
                   BlockOf(f.host) == BlockOf(e.host) && !(f.host.Host4? && Local(f.host, nets))
  {
    hide Local, BlockOf;
    NoMacNoSharers(entries, e);
    hide Lower;
    forall f | f in entries && SameMac(e, f) ensures f.host in shared {}
  }

  /** The empty MAC stays alone in lower case. */
  lemma NoMacNoSharers(entries: seq<Entry>, e: Entry)
    ensures forall f :: f in entries && f.mac != "" && Lower(f.mac) == Lower(e.mac) ==> SameMac(e, f)
  {
  }

  /** Entries with a local address, a MAC of their own, or no readable address are never touched. */
  lemma TrustedStay(entries: seq<Entry>, nets: seq<Net>, e: Entry)
    requires e in entries
    requires Local(e.host, nets) || e.host.NoHost? || e.mac == "" || |Sharing(entries, Lower(e.mac))| <= 1
    ensures e in Sanitized(entries, nets)
  {
    if e.mac == "" {
      var shared := Sharing(entries, Lower(e.mac));
      assert forall x :: x in entries && x.mac != "" ==> |Lower(x.mac)| > 0;
      assert forall k :: 0 <= k < |shared| ==> shared[k] in shared;
    }
  }

  // ---------------------------------------------------------------- filtering again

  lemma {:induction false} SharingOfKept(some: seq<Entry>, entries: seq<Entry>, nets: seq<Net>, mac: string)
    ensures |Sharing(Kept(some, entries, nets), mac)| <= |Sharing(some, mac)|
    ensures forall h :: h in Sharing(Kept(some, entries, nets), mac) ==> h in Sharing(some, mac)
    decreases |some|
  {
    if some != [] {
      var n := |some| - 1;
      SharingOfKept(some[..n], entries, nets, mac);
      var before := Kept(some[..n], entries, nets);
      hide Believed;
      if Believed(entries, nets, some[n]) {
        assert (before + [some[n]])[..|before|] == before;
      } else {
        assert Kept(some, entries, nets) == before;
      }
    }
  }

  lemma FewerBlocks(fewer: seq<Host>, hosts: seq<Host>, nets: seq<Net>)
    requires forall h :: h in fewer ==> h in hosts
    ensures |Blocks(fewer)| <= |Blocks(hosts)|
    ensures AnyLocal4(fewer, nets) ==> AnyLocal4(hosts, nets)
  {
    hide BlockOf, Local;
    assert forall k :: 0 <= k < |fewer| ==> fewer[k] in fewer;
    assert Blocks(fewer) <= Blocks(hosts);
    Subset(Blocks(fewer), Blocks(hosts));
  }

  lemma Subset<T>(a: set<T>, b: set<T>)
    requires a <= b
    ensures |a| <= |b|
  {
    assert b == a + (b - a);
  }

  lemma StillBelieved(entries: seq<Entry>, nets: seq<Net>, e: Entry)
    requires Believed(entries, nets, e)
    ensures Believed(Sanitized(entries, nets), nets, e)
  {
    SharingOfKept(entries, entries, nets, Lower(e.mac));
    FewerBlocks(Sharing(Sanitized(entries, nets), Lower(e.mac)), Sharing(entries, Lower(e.mac)), nets);
    hide Sharing, Blocks, AnyLocal4, Local, Sanitized;
  }

  lemma {:induction false} AllKept(some: seq<Entry>, entries: seq<Entry>, nets: seq<Net>)
    requires forall e :: e in some ==> Believed(entries, nets, e)
    ensures Kept(some, entries, nets) == some
  {
    hide Believed;
    if some != [] {
      assert some == some[..|some| - 1] + [some[|some| - 1]];
      AllKept(some[..|some| - 1], entries, nets);
    }
  }

  /** Filtering again changes nothing. */
  lemma SanitizedTwice(entries: seq<Entry>, nets: seq<Net>)
    ensures Sanitized(Sanitized(entries, nets), nets) == Sanitized(entries, nets)
  {
    forall e | e in Sanitized(entries, nets) ensures Believed(Sanitized(entries, nets), nets, e) {
      StillBelieved(entries, nets, e);
    }
    hide Believed;
    AllKept(Sanitized(entries, nets), Sanitized(entries, nets), nets);
  }

  // ---------------------------------------------------------------- the loops

  function Get(macToIps: map<string, seq<Host>>, mac: string): seq<Host> {
    if mac in macToIps then macToIps[mac] else []
  }

  method GroupByMac(entries: seq<Entry>) returns (macToIps: map<string, seq<Host>>)
    ensures forall mac :: Get(macToIps, mac) == Sharing(entries, mac)
  {
    macToIps := map[];
    for i := 0 to |entries|
      invariant forall mac :: Get(macToIps, mac) == Sharing(entries[..i], mac)
    {
      var e := entries[i];
      assert entries[..i + 1][..i] == entries[..i];
      if e.mac != "" {
        var mac := Lower(e.mac);
        macToIps := macToIps[mac := Get(macToIps, mac) + [e.host]];
      }
    }
    assert entries[..|entries|] == entries;
  }

  function Readable(subnets: seq<Option<Net>>): (nets: seq<Net>)
    ensures forall n :: n in nets <==> Some(n) in subnets
  {
    if subnets == [] then []
    else
      var n := |subnets| - 1;
      assert subnets == subnets[..n] + [subnets[n]];
      Readable(subnets[..n]) + if subnets[n].Some? then [subnets[n].value] else []
  }

  method LocalNets(subnets: seq<Option<Net>>) returns (nets: seq<Net>)
    ensures nets == Readable(subnets)
  {
    nets := [];
    for i := 0 to |subnets|
      invariant nets == Readable(subnets[..i])
    {
      assert subnets[..i + 1][..i] == subnets[..i];
      if subnets[i].Some? {
        nets := nets + [subnets[i].value];
      }
    }
    assert subnets[..|subnets|] == subnets;
  }

  method Filter(entries: seq<Entry>, subnets: seq<Option<Net>>) returns (sanitized: seq<Entry>)
    ensures sanitized == Sanitized(entries, Readable(subnets))
  {
    sanitized := [];
    if entries == [] {
      return;
    }
    var macToIps := GroupByMac(entries);
    var nets := LocalNets(subnets);
    for i := 0 to |entries|
      invariant sanitized == Kept(entries[..i], entries, nets)
    {
      var e := entries[i];
      assert entries[..i + 1][..i] == entries[..i];
      var shared := Get(macToIps, Lower(e.mac));
      assert shared == Sharing(entries, Lower(e.mac));
      hide Sharing, Local, AnyLocal4, Blocks, Get;
      if |shared| <= 1 || e.host.NoHost? {
        sanitized := sanitized + [e];
        continue;
      }
      var local := Local(e.host, nets);
      if AnyLocal4(shared, nets) && !local {
        continue;
      }
      var distinct := Blocks(shared);
      if |distinct| > 1 && !local {
        continue;
      }
      sanitized := sanitized + [e];
    }
    assert entries[..|entries|] == entries;
  }
}
