/**
 When a device counts as offline (backend/app/scanner/presence.py): only a row of missed checks, or a miss
 that its silent agent confirms, takes it offline; any answer brings it back.
 */
module Presence {
  import opened Wrappers
  import opened Networks

  /** Each miss comes with the threshold in force at the time. */
  datatype Event = Seen | Miss(threshold: nat) | ConfirmedMiss(threshold: nat)

  datatype Entry = WentOffline | BackOnline

  datatype State = State(online: bool, missed: nat, history: seq<Entry>)

  /** Thresholds are at least 1. */
  predicate Proper(e: Event) {
    e.Seen? || e.threshold >= 1
  }

  function AfterSeen(s: State): State {
    State(true, 0, if s.online then s.history else s.history + [BackOnline])
  }

  function AfterMiss(s: State, threshold: nat, alert: bool): State {
    if !s.online then s
    else if s.missed + 1 < threshold then s.(missed := s.missed + 1)
    else State(false, s.missed + 1, if alert then s.history + [WentOffline] else s.history)
  }

  /** The counter is moved next to the threshold, then the miss counts. */
  function Confirmed(s: State, threshold: nat): State
    requires threshold >= 1
  {
    s.(missed := if s.missed < threshold - 1 then threshold - 1 else s.missed)
  }

  function Step(s: State, e: Event, alert: bool): State
    requires Proper(e)
  {
    match e
    case Seen => AfterSeen(s)
    case Miss(n) => AfterMiss(s, n, alert)
    case ConfirmedMiss(n) => AfterMiss(Confirmed(s, n), n, alert)
  }

  predicate AllProper(events: seq<Event>) {
    forall i :: 0 <= i < |events| ==> Proper(events[i])
  }

  function Run(s: State, events: seq<Event>, alert: bool): State
    requires AllProper(events)
  {
    if events == [] then s else Step(Run(s, events[..|events| - 1], alert), events[|events| - 1], alert)
  }

  // ---------------------------------------------------------------- the closed form

  /** What happened since the device was last seen. */
  function SinceSeen(events: seq<Event>): (since: seq<Event>)
    ensures |since| <= |events| && since == events[|events| - |since|..]
    ensures Seen !in since
    ensures |since| < |events| ==> events[|events| - |since| - 1] == Seen
  {
    if events == [] then []
    else
      var n := |events| - 1;
      if events[n].Seen? then [] else SinceSeen(events[..n]) + [events[n]]
  }

  /** A confirmed miss, or the misses reached the threshold then in force. */
  predicate Decisive(since: seq<Event>, k: nat)
    requires k < |since|
  {
    since[k].ConfirmedMiss? || (since[k].Miss? && k + 1 >= since[k].threshold)
  }

  ghost predicate GivenUp(since: seq<Event>) {
    exists k: nat :: k < |since| && Decisive(since, k)
  }

  lemma GivenUpGrows(since: seq<Event>, e: Event)
    ensures GivenUp(since + [e]) <==> GivenUp(since) || Decisive(since + [e], |since|)
  {
    var longer := since + [e];
    if k: nat :| k < |since| && Decisive(since, k) {
      assert Decisive(longer, k);
    }
    if k: nat :| k < |longer| && Decisive(longer, k) {
      assert k < |since| ==> Decisive(since, k);
    }
  }

  /** What the state says about the misses so far. */
  ghost predicate Tells(s: State, since: seq<Event>) {
    (!s.online <==> GivenUp(since)) && (s.online ==> s.missed == |since|)
  }

  function Extended(since: seq<Event>, e: Event): seq<Event> {
    if e.Seen? then [] else since + [e]
  }

  lemma StepTells(s: State, since: seq<Event>, e: Event, alert: bool)
    requires Tells(s, since) && Proper(e)
    ensures Tells(Step(s, e, alert), Extended(since, e))
  {
    NothingGivenUp();
    GivenUpGrows(since, e);
    hide GivenUp;
  }

  /** What one event does: an offline device stays offline until seen; a confirmed miss always takes it offline. */
  lemma OneEvent(s: State, e: Event, alert: bool)
    requires Proper(e)
    ensures var t := Step(s, e, alert);
            && (e.Seen? ==> t.online && t.missed == 0)
            && (e.Miss? && !s.online ==> t == s)
            && (e.ConfirmedMiss? && !s.online ==>
                  !t.online && t.missed == if s.missed + 1 < e.threshold then e.threshold - 1 else s.missed)
            && (e.Miss? && s.online ==> t.missed == s.missed + 1 && (t.online <==> s.missed + 1 < e.threshold))
            && (e.ConfirmedMiss? && s.online ==>
                  !t.online && t.missed == if s.missed + 1 < e.threshold then e.threshold else s.missed + 1)
            && (s.online == t.online ==> t.history == s.history)
            && (!s.online && t.online ==> t.history == s.history + [BackOnline])
            && (s.online && !t.online ==> t.history == if alert then s.history + [WentOffline] else s.history)
  {
  }

  /** A device is offline exactly when, since it was last seen, a miss was decisive. */
  lemma {:induction false} OfflineIffGivenUp(events: seq<Event>, history: seq<Entry>, alert: bool)
    requires AllProper(events)
    ensures Tells(Run(State(true, 0, history), events, alert), SinceSeen(events))
  {
    hide GivenUp, Step, Decisive;
    if events == [] {
      NothingGivenUp();
    } else {
      var n := |events| - 1;
      OfflineIffGivenUp(events[..n], history, alert);
      hide Tells;
      StepTells(Run(State(true, 0, history), events[..n], alert), SinceSeen(events[..n]), events[n], alert);
    }
  }

  lemma NothingGivenUp()
    ensures !GivenUp([])
  {
  }

  ghost predicate OneThreshold(events: seq<Event>, threshold: nat) {
    forall i :: 0 <= i < |events| && !events[i].Seen? ==> events[i].threshold == threshold
  }

  /** With one threshold throughout: a confirmed miss, or that many misses, since last seen. */
  lemma OfflineAtThreshold(events: seq<Event>, threshold: nat, history: seq<Entry>, alert: bool)
    requires threshold >= 1 && AllProper(events) && OneThreshold(events, threshold)
    ensures var since := SinceSeen(events);
            !Run(State(true, 0, history), events, alert).online
            <==> ConfirmedMiss(threshold) in since || |since| >= threshold
  {
    OfflineIffGivenUp(events, history, alert);
    GivenUpAtThreshold(SinceSeen(events), threshold);
  }

  lemma GivenUpAtThreshold(since: seq<Event>, threshold: nat)
    requires threshold >= 1 && Seen !in since && OneThreshold(since, threshold)
    ensures GivenUp(since) <==> ConfirmedMiss(threshold) in since || |since| >= threshold
  {
    if |since| >= threshold {
      assert since[threshold - 1] in since;
      assert Decisive(since, threshold - 1);
    } else if ConfirmedMiss(threshold) in since {
      var k: nat :| k < |since| && since[k] == ConfirmedMiss(threshold);
      assert Decisive(since, k);
    }
  }

  // ---------------------------------------------------------------- the history

  /** Offline first, then in turns. */
  predicate Alternates(history: seq<Entry>) {
    forall i :: 0 <= i < |history| ==> history[i] == if i % 2 == 0 then WentOffline else BackOnline
  }

  /** With alerts on the history strictly alternates, and its length tells the status. */
  lemma {:induction false} HistoryAlternates(events: seq<Event>)
    requires AllProper(events)
    ensures var s := Run(State(true, 0, []), events, true);
            Alternates(s.history) && (s.online <==> |s.history| % 2 == 0)
  {
    if events != [] {
      HistoryAlternates(events[..|events| - 1]);
    }
  }

  /** With alerts off only recoveries are logged. */
  lemma {:induction false} SilentHistory(events: seq<Event>)
    requires AllProper(events)
    ensures forall i :: 0 <= i < |Run(State(true, 0, []), events, false).history|
              ==> Run(State(true, 0, []), events, false).history[i] == BackOnline
  {
    if events != [] {
      SilentHistory(events[..|events| - 1]);
    }
  }

  /** Alerts change the history only. */
  lemma {:induction false} AlertsDoNotMatter(events: seq<Event>, s: State, t: State)
    requires AllProper(events) && s.online == t.online && s.missed == t.missed
    ensures var (a, b) := (Run(s, events, true), Run(t, events, false)); a.online == b.online && a.missed == b.missed
  {
    if events != [] {
      AlertsDoNotMatter(events[..|events| - 1], s, t);
    }
  }

  // ---------------------------------------------------------------- the device record

  class Device {
    const alertOffline: bool
    var online: bool
    var missed: nat
    var history: seq<Entry>

    constructor (alertOffline: bool)
      ensures this.alertOffline == alertOffline && Value() == State(true, 0, [])
    {
      this.alertOffline := alertOffline;
      online, missed, history := true, 0, [];
    }

    ghost function Value(): State
      reads this
    {
      State(online, missed, history)
    }

    /** Setting the flag logs a recovery. */
    method SetOnline()
      modifies this`online, this`history
      ensures online && history == if old(online) then old(history) else old(history) + [BackOnline]
    {
      if !online {
        history := history + [BackOnline];
      }
      online := true;
    }

    method RegisterSeen()
      modifies this
      ensures Value() == AfterSeen(old(Value()))
    {
      SetOnline();
      missed := 0;
    }

    method MarkOffline()
      modifies this`history
      ensures history == if alertOffline then old(history) + [WentOffline] else old(history)
    {
      if !alertOffline {
        return;
      }
      history := history + [WentOffline];
    }

    /** Tells whether this very miss took the device offline. */
    method RegisterMiss(threshold: nat) returns (flipped: bool)
      modifies this
      ensures Value() == AfterMiss(old(Value()), threshold, alertOffline)
      ensures flipped <==> old(online) && !online
    {
      if !online {
        return false;
      }
      missed := missed + 1;
      if missed < threshold {
        return false;
      }
      online := false;
      MarkOffline();
      return true;
    }

    method ConfirmMiss(threshold: nat)
      requires threshold >= 1
      modifies this
      ensures Value() == AfterMiss(Confirmed(old(Value()), threshold), threshold, alertOffline)
    {
      if missed < threshold - 1 {
        missed := threshold - 1;
      }
      var _ := RegisterMiss(threshold);
    }

    method Observe(events: seq<Event>)
      requires AllProper(events)
      modifies this
      ensures Value() == Run(old(Value()), events, alertOffline)
    {
      for k := 0 to |events|
        invariant Value() == Run(old(Value()), events[..k], alertOffline)
      {
        assert events[..k + 1][..k] == events[..k];
        match events[k] {
          case Seen => RegisterSeen();
          case Miss(n) => var _ := RegisterMiss(n);
          case ConfirmedMiss(n) => ConfirmMiss(n);
        }
      }
      assert events[..|events|] == events;
    }
  }

  // ---------------------------------------------------------------- interfaces

  datatype Interface = Interface(ip: Address, online: bool, missed: nat)

  /** One scan: the subnets as written, the addresses that answered, and the threshold. */
  datatype Scan = Scan(subnets: seq<Option<Network>>, alive: set<Address>, threshold: nat)

  function Readable(subnets: seq<Option<Network>>): (nets: seq<Network>)
    ensures forall k :: 0 <= k < |nets| ==> nets[k].prefix <= 32
    ensures forall n :: n in nets <==> Some(n) in subnets && n.prefix <= 32
  {
    if subnets == [] then []
    else
      assert subnets == [subnets[0]] + subnets[1..];
      (if subnets[0].Some? && subnets[0].value.prefix <= 32 then [subnets[0].value] else []) + Readable(subnets[1..])
  }

  predicate Covered(ip: Address, scan: Scan) {
    var nets := Readable(scan.subnets);
    exists k :: 0 <= k < |nets| && Contains(nets[k], ip)
  }

  /** What the scan means for an interface: nothing, an answer or a miss. */
  function EventFor(ip: Address, scan: Scan): Option<Event> {
    if !Covered(ip, scan) then None else if ip in scan.alive then Some(Seen) else Some(Miss(scan.threshold))
  }

  function AfterScan(i: Interface, scan: Scan): Interface {
    if !Covered(i.ip, scan) then i
    else if i.ip in scan.alive then i.(online := true, missed := 0)
    else if i.online then i.(missed := i.missed + 1, online := i.missed + 1 < scan.threshold)
    else i
  }

  method UpdateInterfaces(interfaces: array<Interface>, scan: Scan)
    modifies interfaces
    ensures forall k :: 0 <= k < interfaces.Length ==> interfaces[k] == AfterScan(old(interfaces[k]), scan)
  {
    var nets := Readable(scan.subnets);
    if nets == [] {
      return;
    }
    for k := 0 to interfaces.Length
      invariant forall j :: 0 <= j < k ==> interfaces[j] == AfterScan(old(interfaces[j]), scan)
      invariant forall j :: k <= j < interfaces.Length ==> interfaces[j] == old(interfaces[j])
    {
      var i := interfaces[k];
      if !Covered(i.ip, scan) {
        continue;
      }
      if i.ip in scan.alive {
        interfaces[k] := i.(online := true, missed := 0);
      } else if i.online {
        var missed := i.missed + 1;
        interfaces[k] := i.(missed := missed, online := if missed >= scan.threshold then false else i.online);
      }
    }
  }

  function AfterScans(i: Interface, scans: seq<Scan>): Interface {
    if scans == [] then i else AfterScan(AfterScans(i, scans[..|scans| - 1]), scans[|scans| - 1])
  }

  function EventsFor(ip: Address, scans: seq<Scan>): seq<Event> {
    if scans == [] then []
    else
      var last := EventFor(ip, scans[|scans| - 1]);
      EventsFor(ip, scans[..|scans| - 1]) + if last.Some? then [last.value] else []
  }

  /** An interface goes through the states of a device that is seen and missed by the scans that cover it. */
  lemma {:induction false} InterfaceFollowsDevice(i: Interface, scans: seq<Scan>)
    requires forall k :: 0 <= k < |scans| ==> scans[k].threshold >= 1
    ensures AllProper(EventsFor(i.ip, scans))
    ensures var s := Run(State(i.online, i.missed, []), EventsFor(i.ip, scans), false);
            AfterScans(i, scans) == Interface(i.ip, s.online, s.missed)
  {
    hide Covered, Step, AfterScan;
    if scans != [] {
      var n := |scans| - 1;
      InterfaceFollowsDevice(i, scans[..n]);
      var before, last := EventsFor(i.ip, scans[..n]), EventFor(i.ip, scans[n]);
      var s := Run(State(i.online, i.missed, []), before, false);
      ScanIsStep(AfterScans(i, scans[..n]), scans[n], s);
      if last.Some? {
        assert (before + [last.value])[..|before|] == before;
      } else {
        assert EventsFor(i.ip, scans) == before;
      }
    }
  }

  lemma ScanIsStep(i: Interface, scan: Scan, s: State)
    requires i.online == s.online && i.missed == s.missed && scan.threshold >= 1
    ensures var e := EventFor(i.ip, scan);
            && (e.Some? ==> Proper(e.value))
            && var t := if e.Some? then Step(s, e.value, false) else s; AfterScan(i, scan) == Interface(i.ip, t.online, t.missed)
  {
    hide Covered;
  }

  /** So an interface is offline exactly when a miss was decisive since it last answered. */
  lemma InterfaceOffline(i: Interface, scans: seq<Scan>)
    requires i.online && i.missed == 0 && forall k :: 0 <= k < |scans| ==> scans[k].threshold >= 1
    ensures !AfterScans(i, scans).online <==> GivenUp(SinceSeen(EventsFor(i.ip, scans)))
  {
    InterfaceFollowsDevice(i, scans);
    OfflineIffGivenUp(EventsFor(i.ip, scans), [], false);
  }

  /** A scan covers the addresses in one of the networks it can read. */
  lemma CoveredMeans(ip: Address, scan: Scan)
    ensures Covered(ip, scan)
            <==> exists n: Network :: Some(n) in scan.subnets && n.prefix <= 32 && ip.V4?
                   && ip.bits / Pow2(32 - n.prefix) == n.base / Pow2(32 - n.prefix)
  {
    hide Pow2, Contains;
    var nets := Readable(scan.subnets);
    forall k | 0 <= k < |nets|
      ensures Contains(nets[k], ip)
              <==> ip.V4? && ip.bits / Pow2(32 - nets[k].prefix) == nets[k].base / Pow2(32 - nets[k].prefix)
    {
      ContainsMeans(nets[k], ip);
    }
    if n: Network :| Some(n) in scan.subnets && n.prefix <= 32 && ip.V4?
                     && ip.bits / Pow2(32 - n.prefix) == n.base / Pow2(32 - n.prefix) {
      assert n in nets;
    }
  }

  /** How many of the last scans the address did not answer, one after the other. */
  function Unanswered(ip: Address, scans: seq<Scan>): (n: nat)
    ensures n <= |scans|
    ensures forall k :: |scans| - n <= k < |scans| ==> ip !in scans[k].alive
    ensures n < |scans| ==> ip in scans[|scans| - n - 1].alive
  {
    if scans == [] || ip in scans[|scans| - 1].alive then 0 else Unanswered(ip, scans[..|scans| - 1]) + 1
  }

  /** Scans that do not cover an interface change nothing, and such an answer brings it back. */
  lemma OneScan(i: Interface, scan: Scan)
    ensures !Covered(i.ip, scan) ==> AfterScan(i, scan) == i
    ensures Covered(i.ip, scan) && i.ip in scan.alive ==> AfterScan(i, scan) == Interface(i.ip, true, 0)
    ensures Covered(i.ip, scan) && i.ip !in scan.alive && !i.online ==> AfterScan(i, scan) == i
    ensures Covered(i.ip, scan) && i.ip !in scan.alive && i.online ==>
              AfterScan(i, scan) == Interface(i.ip, i.missed + 1 < scan.threshold, i.missed + 1)
  {
    hide Covered;
  }

  /**
   Under scans that cover it, with one threshold, an interface is offline exactly when it answered none of the last
   `threshold` scans; while it is online its counter says how many it did not answer.
   */
  lemma {:induction false} InterfaceMissesInARow(i: Interface, scans: seq<Scan>, threshold: nat)
    requires i.online && i.missed == 0 && threshold >= 1
    requires forall k :: 0 <= k < |scans| ==> Covered(i.ip, scans[k]) && scans[k].threshold == threshold
    ensures var now, n := AfterScans(i, scans), Unanswered(i.ip, scans);
            now.ip == i.ip && (now.online <==> n < threshold) && (now.online ==> now.missed == n)
  {
    hide Covered, AfterScan;
    if scans != [] {
      var n := |scans| - 1;
      InterfaceMissesInARow(i, scans[..n], threshold);
      OneScan(AfterScans(i, scans[..n]), scans[n]);
    }
  }
}
