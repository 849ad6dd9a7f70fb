/**
 The brute-force guard of the login (backend/app/api/auth.py, _reserve_login_attempt): a sliding window per
 client address, kept in a store that forgets what no answer depends on. Times are seconds of a clock that
 never goes back.
 */
module LoginLimiter {
  import opened Wrappers

  const MAX_FAILURES := 5
  const WINDOW := 60.0

  /** A request to log in, or a login that succeeded and clears the count. */
  datatype Event = Attempt(ip: string, time: real) | Cleared(ip: string)

  ghost predicate Ordered(log: seq<Event>) {
    forall i, j :: 0 <= i < j < |log| && log[i].Attempt? && log[j].Attempt? ==> log[i].time <= log[j].time
  }

  ghost predicate NotAfter(log: seq<Event>, now: real) {
    forall i :: 0 <= i < |log| && log[i].Attempt? ==> log[i].time <= now
  }

  // ---------------------------------------------------------------- the specification, over the whole log

  /** The times inside the window that ends now. */
  function Recent(times: seq<real>, now: real): (recent: seq<real>)
    ensures |recent| <= |times|
    ensures forall i :: 0 <= i < |recent| ==> recent[i] > now - WINDOW
  {
    if times == [] then []
    else
      var n := |times| - 1;
      Recent(times[..n], now) + if times[n] > now - WINDOW then [times[n]] else []
  }

  predicate Full(times: seq<real>, now: real) {
    |Recent(times, now)| >= MAX_FAILURES
  }

  /** All attempts of an address that were let through since its last clear. */
  function Admitted(log: seq<Event>, ip: string): seq<real> {
    if log == [] then []
    else
      var n := |log| - 1;
      var before := Admitted(log[..n], ip);
      match log[n]
      case Cleared(other) => if other == ip then [] else before
      case Attempt(other, now) => if other == ip && !Full(before, now) then before + [now] else before
  }

  function Ceiling(x: real): (n: int)
    ensures x <= n as real < x + 1.0
  {
    if x.Floor as real == x then x.Floor else x.Floor + 1
  }

  /** Time until the oldest attempt leaves the window. */
  function Wait(times: seq<real>, now: real): real
    requires Full(times, now)
  {
    Recent(times, now)[0] - (now - WINDOW)
  }

  /** No answer means that the attempt is let through, else it is the number of seconds to wait. */
  function Answer(log: seq<Event>, ip: string, now: real): Option<int> {
    var times := Admitted(log, ip);
    if Full(times, now) then Some(Ceiling(Wait(times, now))) else None
  }

  // ---------------------------------------------------------------- windows of sorted times

  ghost predicate Sorted(times: seq<real>) {
    forall i, j :: 0 <= i < j < |times| ==> times[i] <= times[j]
  }

  lemma {:induction false} AllExpired(times: seq<real>, now: real)
    requires forall i :: 0 <= i < |times| ==> times[i] <= now - WINDOW
    ensures Recent(times, now) == []
  {
    if times != [] {
      AllExpired(times[..|times| - 1], now);
    }
  }

  lemma RecentLast(times: seq<real>, now: real)
    requires times != []
    ensures var n := |times| - 1;
            Recent(times, now) == Recent(times[..n], now) + if times[n] > now - WINDOW then [times[n]] else []
  {
  }

  /** Of sorted times the recent ones are the last ones. */
  lemma {:induction false} RecentIsSuffix(times: seq<real>, now: real)
    requires Sorted(times)
    ensures var r := |times| - |Recent(times, now)|;
            Recent(times, now) == times[r..] && forall i :: 0 <= i < r ==> times[i] <= now - WINDOW
  {
    hide Recent, WINDOW;
    if times != [] {
      var n := |times| - 1;
      FewerSorted(times, n);
      RecentIsSuffix(times[..n], now);
      RecentLast(times, now);
      var r := n - |Recent(times[..n], now)|;
      if times[n] <= now - WINDOW {
        AllExpired(times[..n], now);
      } else {
        LastOfSuffix(times, r);
      }
    }
  }

  lemma FewerSorted(times: seq<real>, n: nat)
    requires Sorted(times) && n <= |times|
    ensures Sorted(times[..n])
  {
  }

  lemma LastOfSuffix(times: seq<real>, r: nat)
    requires times != [] && r <= |times| - 1
    ensures times[..|times| - 1][r..] + [times[|times| - 1]] == times[r..]
  {
  }

  lemma RecentTells(times: seq<real>, now: real, i: nat)
    requires Sorted(times) && i < |times|
    ensures times[i] > now - WINDOW <==> |times| - |Recent(times, now)| <= i
  {
    RecentIsSuffix(times, now);
    var r := |times| - |Recent(times, now)|;
    assert i >= r ==> Recent(times, now)[i - r] == times[i];
  }

  lemma RecentAppend(times: seq<real>, t: real, now: real)
    ensures Recent(times + [t], now) == Recent(times, now) + if t > now - WINDOW then [t] else []
  {
    assert (times + [t])[..|times|] == times;
  }

  /** What was outside the window stays outside. */
  lemma {:induction false} RecentTwice(times: seq<real>, earlier: real, now: real)
    requires earlier <= now
    ensures Recent(Recent(times, earlier), now) == Recent(times, now)
  {
    if times != [] {
      var n := |times| - 1;
      RecentTwice(times[..n], earlier, now);
      var before := Recent(times[..n], earlier);
      if times[n] > earlier - WINDOW {
        assert Recent(times, earlier) == before + [times[n]];
        RecentAppend(before, times[n], now);
      } else {
        assert Recent(times, earlier) == before;
      }
    }
  }

  // ---------------------------------------------------------------- what the specification guarantees

  /** In order, none in the future, and the fifth next always at least a window later. */
  ghost predicate Spaced(times: seq<real>, now: real) {
    && Sorted(times) && (forall i :: 0 <= i < |times| ==> times[i] <= now)
    && forall i, j :: 0 <= i && i + MAX_FAILURES <= j < |times| ==> times[i] + WINDOW <= times[j]
  }

  lemma SpacedLater(times: seq<real>, earlier: real, now: real)
    requires Spaced(times, earlier) && earlier <= now
    ensures Spaced(times, now)
  {
  }

  lemma AdmitKeepsSpaced(times: seq<real>, now: real)
    requires Spaced(times, now) && !Full(times, now)
    ensures Spaced(times + [now], now)
  {
    RecentIsSuffix(times, now);
  }

  lemma {:induction false} AdmittedIsSpaced(log: seq<Event>, ip: string, now: real)
    requires Ordered(log) && NotAfter(log, now)
    ensures Spaced(Admitted(log, ip), now)
  {
    if log != [] {
      var n := |log| - 1;
      var last := log[n];
      if last.Attempt? && last.ip == ip {
        AdmittedIsSpaced(log[..n], ip, last.time);
        var before := Admitted(log[..n], ip);
        if !Full(before, last.time) {
          AdmitKeepsSpaced(before, last.time);
        }
        SpacedLater(Admitted(log, ip), last.time, now);
      } else {
        AdmittedIsSpaced(log[..n], ip, now);
      }
    }
  }

  /** Within less than 60 seconds at most five attempts of an address are let through since its last clear. */
  lemma AtMostFive(log: seq<Event>, ip: string, i: nat, j: nat)
    requires Ordered(log) && i <= j < |Admitted(log, ip)|
    requires Admitted(log, ip)[j] < Admitted(log, ip)[i] + 60.0
    ensures j - i + 1 <= 5
  {
    var now := LatestTime(log);
    AdmittedIsSpaced(log, ip, now);
  }

  ghost function LatestTime(log: seq<Event>): (now: real)
    ensures NotAfter(log, now)
  {
    if log == [] then 0.0
    else
      var n := |log| - 1;
      var before := LatestTime(log[..n]);
      if log[n].Attempt? && log[n].time > before then log[n].time else before
  }

  lemma NeverMoreThanFull(times: seq<real>, now: real)
    requires Spaced(times, now)
    ensures |Recent(times, now)| <= MAX_FAILURES
  {
    RecentIsSuffix(times, now);
    var r := |times| - |Recent(times, now)|;
    assert r < |times| ==> Recent(times, now)[0] == times[r];
  }

  /** What one more event makes of the admitted attempts. */
  function After(before: seq<real>, e: Event, ip: string): seq<real> {
    match e
    case Cleared(other) => if other == ip then [] else before
    case Attempt(other, now) => if other == ip && !Full(before, now) then before + [now] else before
  }

  lemma AdmittedNext(log: seq<Event>, e: Event, ip: string)
    ensures Admitted(log + [e], ip) == After(Admitted(log, ip), e, ip)
  {
    assert (log + [e])[..|log|] == log;
  }

  predicate Foreign(log: seq<Event>, ip: string) {
    forall i :: 0 <= i < |log| ==> log[i].ip != ip
  }

  lemma {:induction false} OthersDoNotMatter(log: seq<Event>, others: seq<Event>, ip: string)
    requires Foreign(others, ip)
    ensures Admitted(log + others, ip) == Admitted(log, ip)
  {
    if others == [] {
      assert log + others == log;
    } else {
      var n := |others| - 1;
      OthersDoNotMatter(log, others[..n], ip);
      hide Admitted, Full;
      assert log + others == (log + others[..n]) + [others[n]];
      AdmittedNext(log + others[..n], others[n], ip);
    }
  }

  lemma WindowMoves(times: seq<real>, now: real, later: real)
    requires Spaced(times, now) && Full(times, now) && now <= later
    ensures Full(times, later) <==> later < now + Wait(times, now)
  {
    NeverMoreThanFull(times, now);
    RecentIsSuffix(times, now);
    RecentTells(times, later, |times| - MAX_FAILURES);
  }

  /**
   A refused caller is let through exactly from the end of the wait on, if nothing else comes from that
   address meanwhile, whatever other addresses do.
   */
  lemma RefusedUntilWaitEnds(log: seq<Event>, ip: string, now: real, others: seq<Event>, later: real)
    requires Ordered(log) && NotAfter(log, now) && Answer(log, ip, now).Some?
    requires Foreign(others, ip) && now <= later
    ensures Answer(log + [Attempt(ip, now)] + others, ip, later).Some? <==> later < now + Wait(Admitted(log, ip), now)
  {
    var next := log + [Attempt(ip, now)];
    assert next[..|log|] == log;
    assert Admitted(next, ip) == Admitted(log, ip);
    OthersDoNotMatter(next, others, ip);
    AdmittedIsSpaced(log, ip, now);
    WindowMoves(Admitted(log, ip), now, later);
  }

  /** So the number of seconds answered suffices (RFC 9110, section 10.2.3), and it is between 1 and 60. */
  lemma RetryAfterSuffices(log: seq<Event>, ip: string, now: real, others: seq<Event>, later: real)
    requires Ordered(log) && NotAfter(log, now) && Answer(log, ip, now).Some?
    requires Foreign(others, ip) && now + Answer(log, ip, now).value as real <= later
    ensures 1 <= Answer(log, ip, now).value <= 60
    ensures Answer(log + [Attempt(ip, now)] + others, ip, later).None?
  {
    var times := Admitted(log, ip);
    AdmittedIsSpaced(log, ip, now);
    RecentIsSuffix(times, now);
    assert 0.0 < Wait(times, now) <= WINDOW;
    RefusedUntilWaitEnds(log, ip, now, others, later);
  }

  /** And it is the least such number: up to one second less the caller is still refused. */
  lemma RetryAfterIsLeast(log: seq<Event>, ip: string, now: real, others: seq<Event>, later: real)
    requires Ordered(log) && NotAfter(log, now) && Answer(log, ip, now).Some?
    requires Foreign(others, ip) && now <= later <= now + (Answer(log, ip, now).value - 1) as real
    ensures Answer(log + [Attempt(ip, now)] + others, ip, later).Some?
  {
    RefusedUntilWaitEnds(log, ip, now, others, later);
  }

  /**
   An attempt is refused exactly while the fifth last one that was let through is less than 60 seconds old; the
   answer is the time until it is that old, in whole seconds rounded up.
   */
  lemma RefusedExactly(log: seq<Event>, ip: string, now: real)
    requires Ordered(log) && NotAfter(log, now)
    ensures var times, answer := Admitted(log, ip), Answer(log, ip, now);
            && (answer.Some? <==> |times| >= 5 && times[|times| - 5] + 60.0 > now)
            && (answer.Some? ==>
                  (answer.value - 1) as real < times[|times| - 5] + 60.0 - now <= answer.value as real)
  {
    hide Admitted, Recent, Ordered, NotAfter, Spaced, WINDOW;
    var times := Admitted(log, ip);
    AdmittedIsSpaced(log, ip, now);
    FullMeans(times, now);
  }

  lemma FullMeans(times: seq<real>, now: real)
    requires Spaced(times, now)
    ensures Full(times, now) <==> |times| >= 5 && times[|times| - 5] + 60.0 > now
    ensures Full(times, now) ==> Wait(times, now) == times[|times| - 5] + 60.0 - now
  {
    hide Recent;
    NeverMoreThanFull(times, now);
    RecentIsSuffix(times, now);
    if |times| >= 5 {
      RecentTells(times, now, |times| - 5);
    }
  }

  /** What is let through counts, what is refused does not, and a login that succeeds forgets all of it. */
  lemma AdmittedGrows(log: seq<Event>, ip: string, other: string, now: real)
    ensures Admitted([], ip) == []
    ensures Admitted(log + [Attempt(ip, now)], ip)
            == if Answer(log, ip, now).None? then Admitted(log, ip) + [now] else Admitted(log, ip)
    ensures Admitted(log + [Cleared(ip)], ip) == []
    ensures other != ip ==>
              Admitted(log + [Attempt(other, now)], ip) == Admitted(log + [Cleared(other)], ip) == Admitted(log, ip)
  {
    AdmittedNext(log, Attempt(ip, now), ip);
    AdmittedNext(log, Cleared(ip), ip);
    AdmittedNext(log, Attempt(other, now), ip);
    AdmittedNext(log, Cleared(other), ip);
    hide Recent;
  }

  // ---------------------------------------------------------------- six in a closed window

  function Burst(ip: string, time: real, n: nat): (log: seq<Event>)
    ensures |log| == n
  {
    if n == 0 then [] else Burst(ip, time, n - 1) + [Attempt(ip, time)]
  }

  function Times(time: real, n: nat): (times: seq<real>)
    ensures |times| == n && forall i :: 0 <= i < n ==> times[i] == time
  {
    if n == 0 then [] else Times(time, n - 1) + [time]
  }

  lemma {:induction false} BurstAdmitted(ip: string, time: real, n: nat)
    requires n <= MAX_FAILURES
    ensures Admitted(Burst(ip, time, n), ip) == Times(time, n)
  {
    if n > 0 {
      BurstAdmitted(ip, time, n - 1);
      hide Admitted, Recent;
      AdmittedNext(Burst(ip, time, n - 1), Attempt(ip, time), ip);
    }
  }

  /** The window is open at its old end: five attempts and a sixth exactly 60 seconds later all pass. */
  lemma SixWithinSixtySeconds(ip: string, time: real)
    ensures Admitted(Burst(ip, time, 5) + [Attempt(ip, time + 60.0)], ip) == Times(time, 5) + [time + 60.0]
  {
    BurstAdmitted(ip, time, 5);
    AllExpired(Times(time, 5), time + 60.0);
    hide Admitted, Burst, Times, Recent;
    AdmittedNext(Burst(ip, time, 5), Attempt(ip, time + 60.0), ip);
  }

  // ---------------------------------------------------------------- the store

  function Stored(attempts: map<string, seq<real>>, ip: string): seq<real> {
    if ip in attempts then attempts[ip] else []
  }

  /** From now on the store shows the same windows as the whole log. */
  ghost predicate Faithful(attempts: map<string, seq<real>>, log: seq<Event>, clock: real) {
    forall ip, now :: clock <= now ==> Recent(Stored(attempts, ip), now) == Recent(Admitted(log, ip), now)
  }

  /** Stored lists are never empty, hold at most five times, and are in order. */
  ghost predicate Tidy(attempts: map<string, seq<real>>) {
    forall ip :: ip in attempts ==> 0 < |attempts[ip]| <= MAX_FAILURES && Sorted(attempts[ip])
  }

  /** All attempts are 60 seconds old or more. */
  ghost predicate Stale(times: seq<real>, now: real) {
    forall i :: 0 <= i < |times| ==> times[i] + 60.0 <= now
  }

  lemma PurgedAreStale(attempts: map<string, seq<real>>, now: real, ip: string)
    requires Tidy(attempts)
    ensures ip in Purged(attempts, now) <==> ip in attempts && !Stale(attempts[ip], now)
    ensures ip in Purged(attempts, now) ==> Purged(attempts, now)[ip] == attempts[ip]
  {
  }

  /** The clients whose last attempt is still in the window. */
  function Purged(attempts: map<string, seq<real>>, now: real): map<string, seq<real>>
    requires forall ip :: ip in attempts ==> attempts[ip] != []
  {
    map ip | ip in attempts && attempts[ip][|attempts[ip]| - 1] > now - WINDOW :: attempts[ip]
  }

  lemma PurgeIsFaithful(attempts: map<string, seq<real>>, log: seq<Event>, now: real)
    requires Tidy(attempts) && Faithful(attempts, log, now)
    ensures Tidy(Purged(attempts, now)) && Faithful(Purged(attempts, now), log, now)
  {
    var purged := Purged(attempts, now);
    forall ip, later | now <= later ensures Recent(Stored(purged, ip), later) == Recent(Admitted(log, ip), later) {
      assert Recent(Stored(attempts, ip), later) == Recent(Admitted(log, ip), later);
      if ip in attempts && ip !in purged {
        AllExpired(attempts[ip], later);
      }
    }
  }

  lemma UpdateIsFaithful(attempts: map<string, seq<real>>, log: seq<Event>, ip: string, now: real, kept: seq<real>)
    requires Faithful(attempts, log, now) && kept == Recent(Stored(attempts, ip), now)
    ensures !Full(Admitted(log, ip), now) ==> Faithful(attempts[ip := kept + [now]], log + [Attempt(ip, now)], now)
    ensures Full(Admitted(log, ip), now) ==> Faithful(attempts[ip := kept], log + [Attempt(ip, now)], now)
  {
    var longer := log + [Attempt(ip, now)];
    assert longer[..|log|] == log;
    var times, full := Admitted(log, ip), Full(Admitted(log, ip), now);
    var next := attempts[ip := if full then kept else kept + [now]];
    forall other, later | now <= later ensures Recent(Stored(next, other), later) == Recent(Admitted(longer, other), later) {
      assert Recent(Stored(attempts, other), later) == Recent(Admitted(log, other), later);
      if other == ip {
        RecentTwice(Stored(attempts, ip), now, later);
        RecentAppend(kept, now, later);
        RecentAppend(times, now, later);
      }
    }
  }

  lemma ClearIsFaithful(attempts: map<string, seq<real>>, log: seq<Event>, ip: string, clock: real)
    requires Faithful(attempts, log, clock)
    ensures Faithful(attempts - {ip}, log + [Cleared(ip)], clock)
  {
    var longer := log + [Cleared(ip)];
    assert longer[..|log|] == log;
    forall other, now | clock <= now
      ensures Recent(Stored(attempts - {ip}, other), now) == Recent(Admitted(longer, other), now)
    {
      assert Recent(Stored(attempts, other), now) == Recent(Admitted(log, other), now);
    }
  }

  lemma FaithfulLater(attempts: map<string, seq<real>>, log: seq<Event>, clock: real, now: real)
    requires Faithful(attempts, log, clock) && clock <= now
    ensures Faithful(attempts, log, now)
  {
  }

  lemma LogGrows(log: seq<Event>, clock: real, ip: string, now: real)
    requires Ordered(log) && NotAfter(log, clock) && clock <= now
    ensures Ordered(log + [Attempt(ip, now)]) && NotAfter(log, now) && NotAfter(log + [Attempt(ip, now)], now)
    ensures Ordered(log + [Cleared(ip)]) && NotAfter(log + [Cleared(ip)], clock)
  {
  }

  /** What the store and the whole log agree on when an attempt comes in. */
  lemma WindowsAgree(attempts: map<string, seq<real>>, log: seq<Event>, ip: string, now: real)
    requires Ordered(log) && NotAfter(log, now) && Faithful(attempts, log, now)
    ensures var recent := Recent(Stored(attempts, ip), now);
            && recent == Recent(Admitted(log, ip), now)
            && |recent| <= MAX_FAILURES && Sorted(recent) && Sorted(recent + [now])
            && (|recent| >= MAX_FAILURES <==> Full(Admitted(log, ip), now))
            && (|recent| >= MAX_FAILURES ==> recent[0] > now - WINDOW)
  {
    hide Admitted, Recent, Ordered, NotAfter, Stored;
    AdmittedIsSpaced(log, ip, now);
    NeverMoreThanFull(Admitted(log, ip), now);
    RecentIsSuffix(Admitted(log, ip), now);
  }

  lemma TidyPut(attempts: map<string, seq<real>>, ip: string, times: seq<real>)
    requires Tidy(attempts) && 0 < |times| <= MAX_FAILURES && Sorted(times)
    ensures Tidy(attempts[ip := times])
  {
  }

  class Limiter {
    var attempts: map<string, seq<real>>
    ghost var log: seq<Event>
    ghost var clock: real

    ghost predicate Valid()
      reads this
    {
      && Ordered(log) && NotAfter(log, clock)
      && Tidy(attempts) && Faithful(attempts, log, clock)
    }

    constructor (now: real)
      ensures Valid() && log == [] && clock == now
    {
      attempts, log, clock := map[], [], now;
    }

    method DropStale(now: real)
      requires Valid() && clock <= now
      modifies this`attempts, this`clock
      ensures Valid() && clock == now
      ensures forall ip :: ip in attempts <==> ip in old(attempts) && !Stale(old(attempts)[ip], now)
      ensures forall ip :: ip in attempts ==> attempts[ip] == old(attempts)[ip]
    {
      LogGrows(log, clock, "", now);
      FaithfulLater(attempts, log, clock, now);
      PurgeIsFaithful(attempts, log, now);
      forall ip { PurgedAreStale(attempts, now, ip); }
      hide Purged, Stale, Recent, Faithful, Admitted;
      clock := now;
      attempts := Purged(attempts, now);
    }

    /** The answer depends on the whole log only, so what the store has dropped was not needed. */
    method Reserve(ip: string, now: real) returns (retryAfter: Option<int>)
      requires Valid() && clock <= now
      modifies this
      ensures Valid() && clock == now && log == old(log) + [Attempt(ip, now)]
      ensures retryAfter == Answer(old(log), ip, now)
    {
      hide Recent, Faithful, Admitted, Ordered, NotAfter, Stored, Full, Stale, Tidy;
      if |attempts| > 1000 {
        DropStale(now);
      }
      LogGrows(log, clock, ip, now);
      FaithfulLater(attempts, log, clock, now);
      var recent := Recent(Stored(attempts, ip), now);
      WindowsAgree(attempts, log, ip, now);
      UpdateIsFaithful(attempts, log, ip, now, recent);
      clock := now;
      log := log + [Attempt(ip, now)];
      if |recent| >= MAX_FAILURES {
        TidyPut(attempts, ip, recent);
        attempts := attempts[ip := recent];
        var seconds := Ceiling(recent[0] - (now - WINDOW));
        return Some(if seconds < 1 then 1 else seconds);
      }
      recent := recent + [now];
      TidyPut(attempts, ip, recent);
      attempts := attempts[ip := recent];
      return None;
    }

    method Clear(ip: string)
      requires Valid()
      modifies this
      ensures Valid() && clock == old(clock) && log == old(log) + [Cleared(ip)]
    {
      LogGrows(log, clock, ip, clock);
      ClearIsFaithful(attempts, log, ip, clock);
      hide Recent, Faithful, Admitted, Ordered, NotAfter;
      log := log + [Cleared(ip)];
      attempts := attempts - {ip};
    }
  }
}
