/**
 The health score of a device and its status (backend/app/api/health.py). The score subtracts penalties;
 their constants fit together so that nothing that gets worse can raise it.
 */
module Health {
  import opened Wrappers

  datatype Service = Service(up: bool, certDays: Option<int>, ignoreSsl: bool)

  datatype Agent = Agent(
    hasAgent: bool, active: bool, securityPatches: int, rebootRequired: bool, cpu: Option<real>, temperature: Option<real>)

  /** Everything the score looks at. */
  datatype Reading = Reading(
    alertOffline: bool, online: bool, missed: int, uptime: real, average: Option<real>, current: Option<real>,
    services: seq<Service>, agent: Option<Agent>)

  datatype Status = Healthy | Degraded | Critical | Offline | Flapping | Standby

  // ---------------------------------------------------------------- penalties

  function CertificatePenalty(s: Service): int {
    if s.ignoreSsl || s.certDays.None? then 0
    else if s.certDays.value <= 3 then 15
    else if s.certDays.value <= 14 then 5
    else 0
  }

  function CertificatePenalties(services: seq<Service>): int {
    if services == [] then 0 else CertificatePenalty(services[0]) + CertificatePenalties(services[1..])
  }

  function ServicePenalty(services: seq<Service>): int {
    if services == [] then 0
    else (if services[0].up then CertificatePenalty(services[0]) else 20) + ServicePenalty(services[1..])
  }

  function MaintenancePenalty(a: Agent): int {
    (if a.securityPatches > 0 then 10 else 0) + (if a.rebootRequired then 5 else 0)
  }

  function AgentPenalty(agent: Option<Agent>): int {
    if agent.None? || !agent.value.hasAgent then 0
    else if !agent.value.active then 35
    else
      MaintenancePenalty(agent.value)
      + (if agent.value.cpu.Some? && agent.value.cpu.value > 90.0 then 10 else 0)
      + (if agent.value.temperature.Some? && agent.value.temperature.value > 75.0 then 10 else 0)
  }

  function MissedPenalty(missed: int): int {
    if missed > 0 then (if missed * 15 < 30 then missed * 15 else 30) else 0
  }

  /** Truncation is rounding down here, as the difference is positive. */
  function UptimePenalty(uptime: real): int {
    if uptime < 99.0 then ((99.0 - uptime) * 0.8).Floor else 0
  }

  function LatencyPenalty(average: Option<real>): int {
    if average.None? then 0
    else if average.value > 150.0 then 15
    else if average.value > 60.0 then 8
    else 0
  }

  function ReachabilityPenalty(r: Reading): int {
    MissedPenalty(r.missed) + UptimePenalty(r.uptime) + LatencyPenalty(r.average)
  }

  // ---------------------------------------------------------------- score and status

  predicate NothingUp(services: seq<Service>) {
    forall i :: 0 <= i < |services| ==> !services[i].up
  }

  predicate SomethingDown(services: seq<Service>) {
    exists i :: 0 <= i < |services| && !services[i].up
  }

  predicate AgentSilent(agent: Option<Agent>) {
    agent.Some? && agent.value.hasAgent && !agent.value.active
  }

  /** The agent stopped reporting and nothing else answers. */
  predicate HostGone(r: Reading) {
    AgentSilent(r.agent) && r.current.None? && NothingUp(r.services)
  }

  predicate Sleeping(r: Reading) {
    !r.online || r.missed > 0 || r.current.None? || (r.services != [] && NothingUp(r.services))
  }

  function PartTimePenalty(r: Reading): int {
    CertificatePenalties(r.services)
    + (if r.agent.Some? && r.agent.value.active then MaintenancePenalty(r.agent.value) else 0)
  }

  function ScorePartTime(r: Reading): (int, Status) {
    if Sleeping(r) then (100, Standby)
    else
      var score := 100 - PartTimePenalty(r);
      (score, if score >= 85 then Healthy else Degraded)
  }

  function Penalties(r: Reading): int {
    ReachabilityPenalty(r) + ServicePenalty(r.services) + AgentPenalty(r.agent)
  }

  function Clamped(score: int): int {
    if score < 0 then 0 else if score > 100 then 100 else score
  }

  function MonitoredStatus(r: Reading, score: int): Status {
    if r.missed > 0 then Flapping
    else if score < 60 || SomethingDown(r.services) || AgentSilent(r.agent) then Critical
    else if score < 85 || (r.average.Some? && r.average.value > 60.0) then Degraded
    else Healthy
  }

  function HealthScore(r: Reading): (int, Status) {
    if !r.alertOffline then ScorePartTime(r)
    else if !r.online || HostGone(r) then (0, Offline)
    else
      var score := Clamped(100 - Penalties(r));
      (score, MonitoredStatus(r, score))
  }

  // ---------------------------------------------------------------- what "worse" means

  predicate NoMoreThan(a: Option<real>, b: Option<real>) {
    a.None? || (b.Some? && a.value <= b.value)
  }

  /** A certificate that is not watched is best; otherwise fewer days left are worse. */
  predicate CertificateWorse(a: Service, b: Service) {
    a.ignoreSsl || a.certDays.None? || (!b.ignoreSsl && b.certDays.Some? && b.certDays.value <= a.certDays.value)
  }

  predicate ServiceWorse(a: Service, b: Service) {
    !b.up || (a.up && CertificateWorse(a, b))
  }

  predicate ServicesWorse(a: seq<Service>, b: seq<Service>) {
    |a| == |b| && forall i :: 0 <= i < |a| ==> ServiceWorse(a[i], b[i])
  }

  /** No agent is best, then an active one by its readings; a silent one is worst. */
  predicate AgentWorse(a: Option<Agent>, b: Option<Agent>) {
    || a.None? || !a.value.hasAgent
    || (&& b.Some? && b.value.hasAgent
        && (!b.value.active
            || (&& a.value.active && a.value.securityPatches <= b.value.securityPatches
                && (a.value.rebootRequired ==> b.value.rebootRequired)
                && NoMoreThan(a.value.cpu, b.value.cpu) && NoMoreThan(a.value.temperature, b.value.temperature))))
  }

  /** In every respect b is at least as bad as a. */
  predicate Worse(a: Reading, b: Reading) {
    && (b.online ==> a.online) && a.missed <= b.missed && b.uptime <= a.uptime
    && NoMoreThan(a.average, b.average) && (b.current.Some? ==> a.current.Some?)
    && ServicesWorse(a.services, b.services) && AgentWorse(a.agent, b.agent)
  }

  // ---------------------------------------------------------------- devices watched around the clock

  /** A service that goes down costs at least as much as its certificate did. */
  lemma {:induction false} ServicePenaltyMonotone(a: seq<Service>, b: seq<Service>)
    requires ServicesWorse(a, b)
    ensures 0 <= ServicePenalty(a) <= ServicePenalty(b)
  {
    if a != [] {
      assert ServiceWorse(a[0], b[0]);
      assert forall i :: 0 <= i < |a[1..]| ==> a[1..][i] == a[i + 1] && b[1..][i] == b[i + 1];
      ServicePenaltyMonotone(a[1..], b[1..]);
    }
  }

  /** A silent agent costs at least as much as all its readings together. */
  lemma AgentPenaltyMonotone(a: Option<Agent>, b: Option<Agent>)
    requires AgentWorse(a, b)
    ensures 0 <= AgentPenalty(a) <= AgentPenalty(b) <= 35
  {
  }

  lemma ReachabilityMonotone(a: Reading, b: Reading)
    requires a.missed <= b.missed && b.uptime <= a.uptime && NoMoreThan(a.average, b.average)
    ensures 0 <= ReachabilityPenalty(a) <= ReachabilityPenalty(b)
  {
    if a.uptime < 99.0 {
      assert (99.0 - a.uptime) * 0.8 <= (99.0 - b.uptime) * 0.8;
    }
  }

  lemma GoneStaysGone(a: Reading, b: Reading)
    requires Worse(a, b) && HostGone(a)
    ensures HostGone(b)
  {
    forall i | 0 <= i < |b.services| ensures !b.services[i].up {
      assert ServiceWorse(a.services[i], b.services[i]);
    }
  }

  lemma DownStaysDown(a: Reading, b: Reading)
    requires Worse(a, b) && SomethingDown(a.services)
    ensures SomethingDown(b.services)
  {
    var i :| 0 <= i < |a.services| && !a.services[i].up;
    assert ServiceWorse(a.services[i], b.services[i]);
  }

  /** The score is between 0 and 100 and never rises when things get worse. */
  lemma ScoreMonotone(a: Reading, b: Reading)
    requires a.alertOffline && b.alertOffline && Worse(a, b)
    ensures 0 <= HealthScore(b).0 <= HealthScore(a).0 <= 100
  {
    ServicePenaltyMonotone(a.services, b.services);
    AgentPenaltyMonotone(a.agent, b.agent);
    ReachabilityMonotone(a, b);
    if HostGone(a) {
      GoneStaysGone(a, b);
    }
  }

  /** From healthy to offline. */
  function Severity(s: Status): nat {
    match s
    case Healthy => 0
    case Degraded => 1
    case Critical => 2
    case Offline => 3
    case Flapping => 4
    case Standby => 0
  }

  /** Without missed scans the status never improves when things get worse. */
  lemma StatusMonotone(a: Reading, b: Reading)
    requires a.alertOffline && b.alertOffline && Worse(a, b) && b.missed <= 0
    ensures Severity(HealthScore(a).1) <= Severity(HealthScore(b).1) <= 3
  {
    ScoreMonotone(a, b);
    if HostGone(a) {
      GoneStaysGone(a, b);
    }
    if SomethingDown(a.services) {
      DownStaysDown(a, b);
    }
    hide ServicePenalty, AgentPenalty, ReachabilityPenalty, ServicesWorse, NothingUp, SomethingDown;
  }

  /** A missed scan hides every other trouble but being offline. */
  lemma FlappingHides(r: Reading)
    requires r.alertOffline
    ensures HostGone(r) <==> && r.agent.Some? && r.agent.value.hasAgent && !r.agent.value.active && r.current.None?
                             && forall i :: 0 <= i < |r.services| ==> !r.services[i].up
    ensures HealthScore(r).1 == Flapping <==> r.online && r.missed > 0 && !HostGone(r)
    ensures HealthScore(r).1 == Offline <==> !r.online || HostGone(r)
  {
  }

  /** With no missed scan a service down or a silent agent always shows. */
  lemma TroubleShows(r: Reading)
    requires r.alertOffline && r.missed <= 0
    requires SomethingDown(r.services) || AgentSilent(r.agent)
    ensures HealthScore(r).1 in {Critical, Offline}
  {
  }

  // ---------------------------------------------------------------- the price of each trouble

  function Down(services: seq<Service>): nat {
    if services == [] then 0 else (if services[0].up then 0 else 1) + Down(services[1..])
  }

  /** Running services whose watched certificate has at most so many days left. */
  function UpExpiring(services: seq<Service>, days: int): nat {
    if services == [] then 0
    else
      (if services[0].up && !services[0].ignoreSsl && services[0].certDays.Some? && services[0].certDays.value <= days then 1 else 0)
      + UpExpiring(services[1..], days)
  }

  lemma {:induction false} ServicesCounted(services: seq<Service>)
    ensures ServicePenalty(services) == 20 * Down(services) + 10 * UpExpiring(services, 3) + 5 * UpExpiring(services, 14)
  {
    if services != [] {
      ServicesCounted(services[1..]);
    }
  }

  /** Below 99 % every full 1.25 points of uptime cost one point, nothing at first. */
  lemma UptimeSteps(uptime: real, k: nat)
    requires uptime < 99.0
    ensures UptimePenalty(uptime) == k <==> 1.25 * k as real <= 99.0 - uptime < 1.25 * (k as real + 1.0)
  {
    var x := (99.0 - uptime) * 0.8;
    assert x.Floor == k <==> k as real <= x < k as real + 1.0;
  }

  lemma UptimeFree(uptime: real)
    ensures UptimePenalty(uptime) >= 0
    ensures UptimePenalty(uptime) == 0 <==> uptime > 97.75
  {
    if uptime < 99.0 {
      UptimeSteps(uptime, 0);
    }
  }

  /** What an agent that reports is charged for, and what a silent one costs. */
  ghost predicate AgentCosts(agent: Option<Agent>, cost: int) {
    match agent
    case None => cost == 0
    case Some(a) =>
      if !a.hasAgent then cost == 0
      else if !a.active then cost == 35
      else
        var patches, reboot := if a.securityPatches > 0 then 10 else 0, if a.rebootRequired then 5 else 0;
        var cpu := if a.cpu.Some? && a.cpu.value > 90.0 then 10 else 0;
        var hot := if a.temperature.Some? && a.temperature.value > 75.0 then 10 else 0;
        cost == patches + reboot + cpu + hot
  }

  /**
   The score of a 24/7 device that is there: one missed scan costs 15, more cost 30; latency above 60 ms 8, above
   150 ms 15; a service down 20, a certificate with 14 days left 5 and with 3 days 15; uptime and agent as above.
   */
  lemma ScoreInNumbers(r: Reading, cost: int)
    requires r.alertOffline && r.online && !HostGone(r) && AgentCosts(r.agent, cost)
    ensures var missed := if r.missed <= 0 then 0 else if r.missed == 1 then 15 else 30;
            var slow := if r.average.None? || r.average.value <= 60.0 then 0 else if r.average.value <= 150.0 then 8 else 15;
            var services := 20 * Down(r.services) + 10 * UpExpiring(r.services, 3) + 5 * UpExpiring(r.services, 14);
            var points := 100 - missed - slow - services - UptimePenalty(r.uptime) - cost;
            HealthScore(r).0 == if points < 0 then 0 else points
  {
    ServicesCounted(r.services);
    AgentPriced(r.agent, cost);
    hide ServicePenalty, Down, UpExpiring, AgentPenalty, AgentCosts, UptimePenalty, HostGone;
    UptimeFree(r.uptime);
  }

  lemma AgentPriced(agent: Option<Agent>, cost: int)
    requires AgentCosts(agent, cost)
    ensures cost == AgentPenalty(agent) && 0 <= cost
  {
  }

  /** A certificate that is watched, or any running service, is fine from 15 days on. */
  ghost predicate FineService(s: Service) {
    s.up && (s.ignoreSsl || s.certDays.None? || s.certDays.value > 14)
  }

  ghost predicate FineAgent(agent: Option<Agent>) {
    agent.None? || !agent.value.hasAgent
    || (&& agent.value.active && agent.value.securityPatches <= 0 && !agent.value.rebootRequired
        && (agent.value.cpu.None? || agent.value.cpu.value <= 90.0)
        && (agent.value.temperature.None? || agent.value.temperature.value <= 75.0))
  }

  lemma {:induction false} FineServicesAreFree(services: seq<Service>)
    ensures ServicePenalty(services) >= 0
    ensures ServicePenalty(services) == 0 <==> forall i :: 0 <= i < |services| ==> FineService(services[i])
  {
    if services != [] {
      FineServicesAreFree(services[1..]);
      assert forall i :: 0 < i < |services| ==> services[i] == services[1..][i - 1];
      assert (forall i :: 0 <= i < |services| ==> FineService(services[i]))
             <==> FineService(services[0]) && forall i :: 0 <= i < |services[1..]| ==> FineService(services[1..][i]);
    }
  }

  /** Full marks and healthy exactly without any fault; uptime may be down to 97.75 %. */
  lemma FaultFreeExactly(r: Reading)
    requires r.alertOffline
    ensures HealthScore(r) == (100, Healthy)
            <==> && r.online && r.missed <= 0 && r.uptime > 97.75 && (r.average.None? || r.average.value <= 60.0)
                 && (forall i :: 0 <= i < |r.services| ==> FineService(r.services[i])) && FineAgent(r.agent)
  {
    FineServicesAreFree(r.services);
    UptimeFree(r.uptime);
    if SomethingDown(r.services) {
      var i :| 0 <= i < |r.services| && !r.services[i].up;
      assert !FineService(r.services[i]);
    }
    hide ServicePenalty, UptimePenalty, FineService, SomethingDown, NothingUp;
  }

  /** With no missed scan, no service down and no silent agent the score decides, but slow is never healthy. */
  lemma StatusByScore(r: Reading)
    requires r.alertOffline && r.online && r.missed <= 0 && !AgentSilent(r.agent)
    requires forall i :: 0 <= i < |r.services| ==> r.services[i].up
    ensures var (score, status) := HealthScore(r);
            && (status == Critical <==> score < 60)
            && (status == Healthy <==> 85 <= score && (r.average.None? || r.average.value <= 60.0))
            && (status == Degraded <==> 60 <= score && (score < 85 || (r.average.Some? && r.average.value > 60.0)))
  {
    hide ServicePenalty, AgentPenalty, ReachabilityPenalty;
  }

  // ---------------------------------------------------------------- devices that may sleep

  /** How many watched certificates have at most so many days left. */
  function Expiring(services: seq<Service>, days: int): nat {
    if services == [] then 0
    else
      (if !services[0].ignoreSsl && services[0].certDays.Some? && services[0].certDays.value <= days then 1 else 0)
      + Expiring(services[1..], days)
  }

  lemma {:induction false} CertificatesCounted(services: seq<Service>)
    ensures CertificatePenalties(services) == 10 * Expiring(services, 3) + 5 * Expiring(services, 14)
  {
    if services != [] {
      CertificatesCounted(services[1..]);
    }
  }

  /**
   The score of a device that may sleep has no lower end: it is within 0 and 100 only while few enough
   certificates run out.
   */
  lemma PartTimeRange(r: Reading)
    requires !r.alertOffline
    ensures HealthScore(r).0 <= 100
    ensures 0 <= HealthScore(r).0
            <==> || Sleeping(r)
                 || 10 * Expiring(r.services, 3) + 5 * Expiring(r.services, 14)
                    + (if r.agent.Some? && r.agent.value.active then MaintenancePenalty(r.agent.value) else 0) <= 100
  {
    CertificatesCounted(r.services);
  }

  /**
   A device that may sleep has full marks while it is off, misses a scan, does not answer, or has services of which
   none is up; awake it pays 15 or 5 for certificates, and 10 for patches and 5 for a reboot if its agent reports.
   */
  lemma PartTimeInNumbers(r: Reading)
    requires !r.alertOffline
    ensures var up := r.services == [] || exists i :: 0 <= i < |r.services| && r.services[i].up;
            var awake := r.online && r.missed <= 0 && r.current.Some? && up;
            var reports := r.agent.Some? && r.agent.value.active;
            var patches := if reports && r.agent.value.securityPatches > 0 then 10 else 0;
            var reboot := if reports && r.agent.value.rebootRequired then 5 else 0;
            var points := 100 - 10 * Expiring(r.services, 3) - 5 * Expiring(r.services, 14) - patches - reboot;
            HealthScore(r) == if !awake then (100, Standby) else (points, if points >= 85 then Healthy else Degraded)
  {
    CertificatesCounted(r.services);
    hide CertificatePenalties, Expiring;
    if r.services != [] {
      SomeUp(r.services);
    }
    hide NothingUp;
  }

  lemma SomeUp(services: seq<Service>)
    ensures NothingUp(services) <==> !exists i :: 0 <= i < |services| && services[i].up
  {
  }

  function Copies(s: Service, n: nat): (services: seq<Service>)
    ensures |services| == n && forall i :: 0 <= i < n ==> services[i] == s
  {
    if n == 0 then [] else [s] + Copies(s, n - 1)
  }

  lemma {:induction false} CopiesCost(s: Service, n: nat)
    ensures CertificatePenalties(Copies(s, n)) == n * CertificatePenalty(s)
  {
    if n > 0 {
      assert Copies(s, n)[1..] == Copies(s, n - 1);
      CopiesCost(s, n - 1);
    }
  }

  /** Seven certificates about to run out give -5. */
  lemma PartTimeBelowZero(r: Reading, s: Service)
    requires !r.alertOffline && r.online && r.missed <= 0 && r.current.Some? && r.agent.None?
    requires s.up && !s.ignoreSsl && s.certDays == Some(3) && r.services == Copies(s, 7)
    ensures HealthScore(r) == (-5, Degraded)
  {
    assert r.services[0].up;
    CopiesCost(s, 7);
  }

  lemma {:induction false} CertificatesMonotone(a: seq<Service>, b: seq<Service>)
    requires |a| == |b| && forall i :: 0 <= i < |a| ==> CertificateWorse(a[i], b[i])
    ensures CertificatePenalties(a) <= CertificatePenalties(b)
  {
    if a != [] {
      assert CertificateWorse(a[0], b[0]);
      assert forall i :: 0 <= i < |a[1..]| ==> a[1..][i] == a[i + 1] && b[1..][i] == b[i + 1];
      CertificatesMonotone(a[1..], b[1..]);
    }
  }

  /** While it is awake, and its agent active or not as before, its score never rises when things get worse. */
  lemma PartTimeMonotone(a: Reading, b: Reading)
    requires !a.alertOffline && !b.alertOffline && !Sleeping(a) && !Sleeping(b)
    requires |a.services| == |b.services| && forall i :: 0 <= i < |a.services| ==> CertificateWorse(a.services[i], b.services[i])
    requires a.agent.Some? && a.agent.value.active ==>
               && b.agent.Some? && b.agent.value.active && a.agent.value.securityPatches <= b.agent.value.securityPatches
               && (a.agent.value.rebootRequired ==> b.agent.value.rebootRequired)
    ensures HealthScore(b).0 <= HealthScore(a).0
    ensures Severity(HealthScore(a).1) <= Severity(HealthScore(b).1)
  {
    CertificatesMonotone(a.services, b.services);
  }

  /**
   When its agent falls silent, patches and reboots no longer count: the score rises exactly if they cost more
   than what certificates have come to cost meanwhile; with the services as before, if there were any.
   */
  lemma SilentAgentHelps(a: Reading, b: Reading)
    requires !a.alertOffline && !b.alertOffline && !Sleeping(a) && !Sleeping(b)
    requires a.agent.Some? && a.agent.value.active && (b.agent.Some? ==> !b.agent.value.active)
    ensures HealthScore(a).0 < HealthScore(b).0
            <==> 10 * Expiring(b.services, 3) + 5 * Expiring(b.services, 14)
                 < 10 * Expiring(a.services, 3) + 5 * Expiring(a.services, 14) + MaintenancePenalty(a.agent.value)
    ensures a.services == b.services ==>
              (HealthScore(a).0 < HealthScore(b).0 <==> a.agent.value.securityPatches > 0 || a.agent.value.rebootRequired)
  {
    CertificatesCounted(a.services);
    CertificatesCounted(b.services);
  }
}
