/**
 The in-memory sliding-window rate limiter with its background sweeper (common/rate-limit.go).

 The limiter keeps at most `max` timestamps per key and forgets idle keys; it is compared with an unbounded
 log that forgets nothing.  Times are whole seconds.
 */
module RateLimit {
  import opened Common

  datatype Limit = Limit(max: nat, duration: int)

  // ---------------------------------------------------------------- one key of the limiter

  /** What Request answers for a key whose queue is `entry`. */
  predicate Admits(entry: Option<seq<int>>, limit: Limit, now: int) {
    entry.None? || |entry.value| < limit.max || entry.value == [] || now - entry.value[0] >= limit.duration
  }

  /** The queue Request leaves. */
  function Served(entry: Option<seq<int>>, limit: Limit, now: int): seq<int> {
    if entry.None? then [now]
    else if |entry.value| < limit.max || entry.value == [] then entry.value + [now]
    else if now - entry.value[0] >= limit.duration then entry.value[1..] + [now]
    else entry.value
  }

  predicate Stale(queue: seq<int>, now: int, expiration: int) {
    queue == [] || now - queue[|queue| - 1] > expiration
  }

  type Store = map<string, seq<int>>

  function Lookup(store: Store, key: string): Option<seq<int>> {
    if key in store then Some(store[key]) else None
  }

  function Swept(store: Store, now: int, expiration: int): Store {
    map key | key in store && !Stale(store[key], now, expiration) :: store[key]
  }

  const SECOND := 1_000_000_000

  /** What the sweeper goes by: the expiration in whole seconds, and whether it runs at all. */
  datatype Expiry = Expiry(seconds: nat, sweeping: bool)

  function ExpiryOf(nanoseconds: int): Expiry {
    Expiry(if nanoseconds > 0 then nanoseconds / SECOND else 0, nanoseconds > 0)
  }

  /** The object the request handlers and the sweeper share; each method runs under its mutex. */
  class InMemoryRateLimiter {
    var store: Store
    const expiration: nat       // in whole seconds
    const sweeping: bool        // the sweeper was started

    ghost predicate Valid()
      reads this
    {
      forall key :: key in store ==> store[key] != []
    }

    /** Init; the duration is in nanoseconds, and without one no sweeper is started. */
    constructor (nanoseconds: int)
      ensures Valid() && store == map[] && Expiry(expiration, sweeping) == ExpiryOf(nanoseconds)
      ensures nanoseconds > 0 ==> sweeping && expiration == nanoseconds / 1_000_000_000
      ensures nanoseconds <= 0 ==> !sweeping
    {
      expiration := if nanoseconds > 0 then nanoseconds / SECOND else 0;
      sweeping := nanoseconds > 0;
      store := map[];
    }

    method Request(key: string, maxRequestNum: nat, duration: int, now: int) returns (admitted: bool)
      requires Valid()
      modifies this
      ensures Valid()
      ensures admitted == Admits(old(Lookup(store, key)), Limit(maxRequestNum, duration), now)
      ensures store == old(store)[key := Served(old(Lookup(store, key)), Limit(maxRequestNum, duration), now)]
    {
      if key in store {
        var queue := store[key];
        if |queue| < maxRequestNum {
          store := store[key := queue + [now]];
          return true;
        }
        if now - queue[0] >= duration {
          store := store[key := queue[1..] + [now]];
          return true;
        }
        return false;
      }
      store := store[key := [now]];
      return true;
    }

    /** One pass of clearExpiredItems; the keys come in any order. */
    method Sweep(now: int)
      requires Valid()
      modifies this
      ensures Valid()
      ensures store == Swept(old(store), now, expiration)
    {
      ghost var before := store;
      var keys := store.Keys;
      while keys != {}
        invariant keys <= before.Keys
        invariant store == map key | key in before && (key in keys || !Stale(before[key], now, expiration))
                               :: before[key]
        decreases |keys|
      {
        var key :| key in keys;
        var queue := store[key];
        if |queue| == 0 || now - queue[|queue| - 1] > expiration {
          store := store - {key};
        }
        keys := keys - {key};
      }
    }
  }

  // ---------------------------------------------------------------- runs

  datatype Event = Request(key: string, now: int) | Sweep(now: int)

  /** Each key has its own fixed limit. */
  type Limits = string -> Limit

  function StoreAfter(limits: Limits, expiry: Expiry, events: seq<Event>): Store {
    if events == [] then map[]
    else
      var store := StoreAfter(limits, expiry, events[..|events| - 1]);
      match events[|events| - 1]
      case Request(key, now) => store[key := Served(Lookup(store, key), limits(key), now)]
      case Sweep(now) => Swept(store, now, expiry.seconds)
  }

  function Recent(log: seq<int>, duration: int, now: int): nat {
    if log == [] then 0
    else Recent(log[..|log| - 1], duration, now) + (if now - log[|log| - 1] < duration then 1 else 0)
  }

  /** The specification: fewer than `max` admitted requests are less than `duration` old. */
  predicate LogAdmits(log: seq<int>, limit: Limit, now: int) {
    Recent(log, limit.duration, now) < limit.max
  }

  /** The times of all requests of `key` the specification admitted, oldest first. */
  function LogAfter(limits: Limits, events: seq<Event>, key: string): seq<int> {
    if events == [] then []
    else
      var log := LogAfter(limits, events[..|events| - 1], key);
      var last := events[|events| - 1];
      if last.Request? && last.key == key && LogAdmits(log, limits(key), last.now) then log + [last.now] else log
  }

  /** The times do not decrease, and there are sweeps only if the sweeper runs. */
  predicate Possible(events: seq<Event>, expiry: Expiry) {
    InOrder(events) && (expiry.sweeping || forall event | event in events :: !event.Sweep?)
  }

  predicate InOrder(events: seq<Event>) {
    forall i, j :: 0 <= i < j < |events| ==> events[i].now <= events[j].now
  }

  /** The limiter and the specification give the same answer to event `i`. */
  predicate SameAnswer(limits: Limits, expiry: Expiry, events: seq<Event>, i: nat)
    requires i < |events|
  {
    match events[i]
    case Request(key, now) =>
      Admits(Lookup(StoreAfter(limits, expiry, events[..i]), key), limits(key), now)
      == LogAdmits(LogAfter(limits, events[..i], key), limits(key), now)
    case Sweep(_) => true
  }

  // ---------------------------------------------------------------- the coupling

  predicate Sorted(log: seq<int>) {
    forall i, j :: 0 <= i < j < |log| ==> log[i] <= log[j]
  }

  /**
   The queue is the newest part of the log; what is missing from it is too old to matter, unless the queue
   is full.
   */
  predicate Coupled(entry: Option<seq<int>>, log: seq<int>, limit: Limit, now: int) {
    && Sorted(log) && (forall k :: 0 <= k < |log| ==> log[k] <= now)
    && (entry.None? ==> forall k :: 0 <= k < |log| ==> now - log[k] >= limit.duration)
    && (entry.Some? ==>
          var queue, cut := entry.value, |log| - |entry.value|;
          && 1 <= |queue| <= limit.max && cut >= 0 && queue == log[cut..]
          && (|queue| < limit.max ==> forall k :: 0 <= k < cut ==> now - log[k] >= limit.duration))
  }

  lemma {:induction false} RecentBounds(log: seq<int>, cut: nat, duration: int, now: int)
    requires Sorted(log) && cut <= |log|
    ensures (forall k :: 0 <= k < cut ==> now - log[k] >= duration) ==> Recent(log, duration, now) <= |log| - cut
    ensures cut < |log| && now - log[cut] < duration ==> Recent(log, duration, now) >= |log| - cut
  {
    if log != [] {
      var n := |log| - 1;
      if cut <= n {
        RecentBounds(log[..n], cut, duration, now);
      } else {
        RecentBounds(log[..n], n, duration, now);
      }
    }
  }

  /** Coupled states answer alike. */
  lemma CoupledAnswer(entry: Option<seq<int>>, log: seq<int>, limit: Limit, now: int)
    requires Coupled(entry, log, limit, now) && limit.max >= 1
    ensures Admits(entry, limit, now) == LogAdmits(log, limit, now)
  {
    if entry.None? {
      RecentBounds(log, |log|, limit.duration, now);
    } else {
      var cut := |log| - |entry.value|;
      RecentBounds(log, cut, limit.duration, now);
      RecentBounds(log, cut + 1, limit.duration, now);
    }
  }

  lemma CoupledServe(entry: Option<seq<int>>, log: seq<int>, limit: Limit, now: int)
    requires Coupled(entry, log, limit, now) && limit.max >= 1
    ensures Coupled(Some(Served(entry, limit, now)), if LogAdmits(log, limit, now) then log + [now] else log,
                    limit, now)
  {
    CoupledAnswer(entry, log, limit, now);
  }

  lemma CoupledSweep(entry: Option<seq<int>>, log: seq<int>, limit: Limit, now: int, expiry: Expiry)
    requires Coupled(entry, log, limit, now) && limit.duration <= expiry.seconds + 1
    ensures entry.Some? && Stale(entry.value, now, expiry.seconds) ==> Coupled(None, log, limit, now)
  {
  }

  /** The condition under which the limiter is exact; a caller can check it before using a key. */
  predicate Supported(limit: Limit, expiry: Expiry) {
    limit.max >= 1 && (expiry.sweeping ==> limit.duration <= expiry.seconds + 1)
  }

  lemma CoupledLater(entry: Option<seq<int>>, log: seq<int>, limit: Limit, now: int, later: int)
    requires Coupled(entry, log, limit, now) && now <= later
    ensures Coupled(entry, log, limit, later)
  {
  }

  lemma StepCoupled(limits: Limits, expiry: Expiry, front: seq<Event>, last: Event, key: string)
    requires Supported(limits(key), expiry) && (last.Sweep? ==> expiry.sweeping)
    requires Coupled(Lookup(StoreAfter(limits, expiry, front), key), LogAfter(limits, front, key),
                     limits(key), last.now)
    ensures Coupled(Lookup(StoreAfter(limits, expiry, front + [last]), key),
                    LogAfter(limits, front + [last], key), limits(key), last.now)
  {
    var events := front + [last];
    assert events[..|events| - 1] == front;
    var entry := Lookup(StoreAfter(limits, expiry, front), key);
    var log := LogAfter(limits, front, key);
    match last {
      case Request(_, _) => CoupledServe(entry, log, limits(key), last.now);
      case Sweep(_) => CoupledSweep(entry, log, limits(key), last.now, expiry);
    }
  }

  lemma OrderedFront(events: seq<Event>, expiry: Expiry)
    requires Possible(events, expiry) && events != []
    ensures Possible(events[..|events| - 1], expiry) && InOrder(events)
    ensures |events| > 1 ==> events[|events| - 2].now <= events[|events| - 1].now
    ensures events[|events| - 1].Sweep? ==> expiry.sweeping
  {
    assert events[|events| - 1] in events;
  }

  lemma PossiblePrefix(events: seq<Event>, expiry: Expiry, i: nat)
    requires Possible(events, expiry) && i < |events|
    ensures Possible(events[..i], expiry)
    ensures i > 0 ==> events[i - 1].now <= events[i].now
  {
  }

  lemma {:induction false} RunCoupled(limits: Limits, expiry: Expiry, events: seq<Event>, key: string, now: int)
    requires Possible(events, expiry) && (events != [] ==> events[|events| - 1].now <= now)
    requires Supported(limits(key), expiry)
    ensures Coupled(Lookup(StoreAfter(limits, expiry, events), key), LogAfter(limits, events, key), limits(key), now)
  {
    hide *;
    if events == [] {
      NothingCoupled(limits, expiry, key, now);
    } else {
      var front, last := events[..|events| - 1], events[|events| - 1];
      assert events == front + [last];
      assert front != [] ==> front[|front| - 1] == events[|events| - 2];
      OrderedFront(events, expiry);
      RunCoupled(limits, expiry, front, key, last.now);
      StepCoupled(limits, expiry, front, last, key);
      CoupledLater(Lookup(StoreAfter(limits, expiry, events), key), LogAfter(limits, events, key),
                   limits(key), last.now, now);
    }
  }

  lemma NothingCoupled(limits: Limits, expiry: Expiry, key: string, now: int)
    ensures Coupled(Lookup(StoreAfter(limits, expiry, []), key), LogAfter(limits, [], key), limits(key), now)
  {
  }

  /** The limiter answers like the unbounded log in every run with sweeps anywhere. */
  lemma ExactWhenSupported(limits: Limits, expiry: Expiry, events: seq<Event>, i: nat)
    requires Possible(events, expiry) && i < |events|
    requires forall key :: Supported(limits(key), expiry)
    ensures SameAnswer(limits, expiry, events, i)
  {
    if events[i].Request? {
      PossiblePrefix(events, expiry, i);
      RunCoupled(limits, expiry, events[..i], events[i].key, events[i].now);
      CoupledAnswer(Lookup(StoreAfter(limits, expiry, events[..i]), events[i].key),
                    LogAfter(limits, events[..i], events[i].key), limits(events[i].key), events[i].now);
    }
  }

  // ---------------------------------------------------------------- and only then

  function Burst(key: string, n: nat): seq<Event> {
    if n == 0 then [] else Burst(key, n - 1) + [Request(key, 0)]
  }

  lemma {:induction false} BurstEvents(key: string, n: nat)
    ensures |Burst(key, n)| == n && forall i :: 0 <= i < n ==> Burst(key, n)[i] == Request(key, 0)
  {
    if n > 0 {
      BurstEvents(key, n - 1);
    }
  }

  lemma {:induction false} RecentAtMost(log: seq<int>, duration: int, now: int)
    ensures Recent(log, duration, now) <= |log|
  {
    if log != [] {
      RecentAtMost(log[..|log| - 1], duration, now);
    }
  }

  /** `log` holds `n` zeros and the limiter's entry for the key is the same. */
  ghost predicate Filled(entry: Option<seq<int>>, log: seq<int>, n: nat) {
    |log| == n && (forall k :: 0 <= k < n ==> log[k] == 0) && entry == if n == 0 then None else Some(log)
  }

  lemma FilledServe(entry: Option<seq<int>>, log: seq<int>, n: nat, limit: Limit)
    requires Filled(entry, log, n) && n < limit.max
    ensures LogAdmits(log, limit, 0) && Filled(Some(Served(entry, limit, 0)), log + [0], n + 1)
  {
    RecentAtMost(log, limit.duration, 0);
    if n == 0 {
      assert log + [0] == [0];
    }
  }

  /** A burst of at most `max` requests is admitted completely. */
  lemma {:induction false} BurstFills(limits: Limits, expiry: Expiry, key: string, n: nat)
    requires n <= limits(key).max
    ensures Filled(Lookup(StoreAfter(limits, expiry, Burst(key, n)), key), LogAfter(limits, Burst(key, n), key), n)
  {
    if n > 0 {
      hide Filled, LogAfter, StoreAfter, Lookup;
      BurstFills(limits, expiry, key, n - 1);
      OneMoreFills(limits, expiry, Burst(key, n - 1), key, n - 1);
    }
  }

  lemma OneMoreFills(limits: Limits, expiry: Expiry, events: seq<Event>, key: string, n: nat)
    requires Filled(Lookup(StoreAfter(limits, expiry, events), key), LogAfter(limits, events, key), n)
    requires n < limits(key).max
    ensures var all := events + [Request(key, 0)];
            Filled(Lookup(StoreAfter(limits, expiry, all), key), LogAfter(limits, all, key), n + 1)
  {
    hide *;
    RequestLast(limits, expiry, events, key, 0);
    FilledServe(Lookup(StoreAfter(limits, expiry, events), key), LogAfter(limits, events, key), n, limits(key));
  }

  /** The sweeper forgets a full queue whose entries still count. */
  lemma SweepForgets(limits: Limits, expiry: Expiry, key: string)
    requires limits(key).max >= 1 && limits(key).duration > expiry.seconds + 1
    ensures var events := Burst(key, limits(key).max) + [Sweep(expiry.seconds + 1)];
            && Lookup(StoreAfter(limits, expiry, events), key) == None
            && !LogAdmits(LogAfter(limits, events, key), limits(key), expiry.seconds + 1)
  {
    var burst := Burst(key, limits(key).max);
    var events := burst + [Sweep(expiry.seconds + 1)];
    SweepLast(limits, expiry, burst, key, expiry.seconds + 1);
    BurstFills(limits, expiry, key, limits(key).max);
    hide StoreAfter, LogAfter, Burst;
    RecentBounds(LogAfter(limits, burst, key), 0, limits(key).duration, expiry.seconds + 1);
  }

  /** A request serves its key, and is logged if the log admits it. */
  lemma RequestLast(limits: Limits, expiry: Expiry, events: seq<Event>, key: string, now: int)
    ensures var log := LogAfter(limits, events, key);
            LogAfter(limits, events + [Request(key, now)], key) ==
            if LogAdmits(log, limits(key), now) then log + [now] else log
    ensures Lookup(StoreAfter(limits, expiry, events + [Request(key, now)]), key) ==
            Some(Served(Lookup(StoreAfter(limits, expiry, events), key), limits(key), now))
  {
    hide Burst, Served, LogAdmits;
    assert (events + [Request(key, now)])[..|events|] == events;
  }

  /** A sweep leaves the log alone and drops a queue that is stale. */
  lemma SweepLast(limits: Limits, expiry: Expiry, events: seq<Event>, key: string, now: int)
    ensures LogAfter(limits, events + [Sweep(now)], key) == LogAfter(limits, events, key)
    ensures var before := Lookup(StoreAfter(limits, expiry, events), key);
            Lookup(StoreAfter(limits, expiry, events + [Sweep(now)]), key) ==
            if before.Some? && !Stale(before.value, now, expiry.seconds) then before else None
  {
    hide Burst, Served, Stale;
    assert (events + [Sweep(now)])[..|events|] == events;
  }

  /** An unsupported limit gives a wrong answer in some run: a burst, one sweep, one more request. */
  lemma WrongWhenUnsupported(limits: Limits, expiry: Expiry, key: string) returns (events: seq<Event>, i: nat)
    requires !Supported(limits(key), expiry)
    ensures Possible(events, expiry) && i < |events| && !SameAnswer(limits, expiry, events, i)
  {
    if limits(key).max == 0 {
      events, i := [Request(key, 0)], 0;
      assert events[..0] == [];
    } else {
      BurstEvents(key, limits(key).max);
      SweepForgets(limits, expiry, key);
      var before := Burst(key, limits(key).max) + [Sweep(expiry.seconds + 1)];
      events, i := before + [Request(key, expiry.seconds + 1)], |before|;
      assert events[..i] == before;
    }
  }

  /** The limiter is exact in all runs if and only if every key's limit is supported. */
  lemma ExactIffSupported(limits: Limits, expiry: Expiry)
    ensures (forall events, i: nat ::
               Possible(events, expiry) && i < |events| ==> SameAnswer(limits, expiry, events, i))
            <==> forall key :: Supported(limits(key), expiry)
  {
    if forall key :: Supported(limits(key), expiry) {
      forall events, i: nat | Possible(events, expiry) && i < |events|
        ensures SameAnswer(limits, expiry, events, i)
      {
        ExactWhenSupported(limits, expiry, events, i);
      }
    } else {
      var key :| !Supported(limits(key), expiry);
      var events, i := WrongWhenUnsupported(limits, expiry, key);
    }
  }

  // ---------------------------------------------------------------- the window guarantee

  /** The times at which the limiter itself admitted a request of `key`. */
  function AdmittedBy(limits: Limits, expiry: Expiry, events: seq<Event>, key: string): seq<int> {
    if events == [] then []
    else
      var front, last := events[..|events| - 1], events[|events| - 1];
      var times := AdmittedBy(limits, expiry, front, key);
      if last.Request? && last.key == key
         && Admits(Lookup(StoreAfter(limits, expiry, front), key), limits(key), last.now)
      then times + [last.now]
      else times
  }

  lemma {:induction false} AdmittedIsLog(limits: Limits, expiry: Expiry, events: seq<Event>, key: string)
    requires Possible(events, expiry) && Supported(limits(key), expiry)
    ensures AdmittedBy(limits, expiry, events, key) == LogAfter(limits, events, key)
  {
    if events != [] {
      var front, last := events[..|events| - 1], events[|events| - 1];
      AdmittedIsLog(limits, expiry, front, key);
      if last.Request? && last.key == key {
        RunCoupled(limits, expiry, front, key, last.now);
        CoupledAnswer(Lookup(StoreAfter(limits, expiry, front), key),
                      LogAfter(limits, front, key), limits(key), last.now);
      }
    }
  }

  predicate Spaced(log: seq<int>, limit: Limit, now: int) {
    && Sorted(log) && (forall k :: 0 <= k < |log| ==> log[k] <= now)
    && (forall j :: limit.max <= j < |log| ==> log[j] - log[j - limit.max] >= limit.duration)
  }

  lemma SpacedAppend(log: seq<int>, limit: Limit, now: int)
    requires Spaced(log, limit, now) && limit.max >= 1 && LogAdmits(log, limit, now)
    ensures Spaced(log + [now], limit, now)
  {
    if |log| >= limit.max {
      RecentBounds(log, |log| - limit.max, limit.duration, now);
    }
  }

  lemma {:induction false} LogSpacing(limits: Limits, events: seq<Event>, key: string, now: int)
    requires InOrder(events) && (events != [] ==> events[|events| - 1].now <= now) && limits(key).max >= 1
    ensures Spaced(LogAfter(limits, events, key), limits(key), now)
    decreases |events|
  {
    if events != [] {
      var front, last := events[..|events| - 1], events[|events| - 1];
      LogSpacing(limits, front, key, last.now);
      var log := LogAfter(limits, front, key);
      if LogAdmits(log, limits(key), last.now) {
        SpacedAppend(log, limits(key), last.now);
      }
    }
  }

  /** Any `max + 1` admitted requests of a key span at least `duration`: no window ever holds more than `max`. */
  lemma WindowNeverExceeded(limits: Limits, expiry: Expiry, events: seq<Event>, key: string, i: nat, j: nat)
    requires Possible(events, expiry) && Supported(limits(key), expiry)
    requires i + limits(key).max <= j < |AdmittedBy(limits, expiry, events, key)|
    ensures var times := AdmittedBy(limits, expiry, events, key);
            times[j] - times[i] >= limits(key).duration
  {
    AdmittedIsLog(limits, expiry, events, key);
    LogSpacing(limits, events, key, if events == [] then 0 else events[|events| - 1].now);
    var log := LogAfter(limits, events, key);
    assert log[i] <= log[j - limits(key).max];
  }

  /**
   A request is admitted exactly when fewer than `max` requests of its key were admitted before, or the one `max`
   admissions ago is at least `duration` old.
   */
  lemma AdmittedIff(limits: Limits, expiry: Expiry, events: seq<Event>, i: nat)
    requires Possible(events, expiry) && i < |events| && events[i].Request? && Supported(limits(events[i].key), expiry)
    ensures var key, now := events[i].key, events[i].now;
            var times, limit := AdmittedBy(limits, expiry, events[..i], key), limits(key);
            Admits(Lookup(StoreAfter(limits, expiry, events[..i]), key), limit, now) <==>
              |times| < limit.max || now - times[|times| - limit.max] >= limit.duration
  {
    var key, now := events[i].key, events[i].now;
    PossiblePrefix(events, expiry, i);
    RunCoupled(limits, expiry, events[..i], key, now);
    AdmittedIsLog(limits, expiry, events[..i], key);
    hide StoreAfter, LogAfter, AdmittedBy, Possible;
  }

  /** A sweep forgets exactly the keys whose last admission is more than `expiration` seconds ago. */
  lemma SweptMeans(store: Store, now: int, expiration: int, key: string)
    requires key in store ==> store[key] != []
    ensures key in Swept(store, now, expiration) <==>
              key in store && now - store[key][|store[key]| - 1] <= expiration
    ensures key in Swept(store, now, expiration) ==> Swept(store, now, expiration)[key] == store[key]
  {
  }
}
