/** A limit on requests per client address, kept as a counter with an expiry.
    Every call increments the counter and renews its expiry. */
module RateLimiter {

  datatype Expiry = Never | At(instant: int)
  datatype Entry = Entry(count: nat, expiry: Expiry)

  type Store = map<string, Entry>    // expired entries included

  /** One call at the instant its two commands run: which of them took effect, and whether both were answered. */
  datatype Call = Call(ip: string, at: int, incremented: bool, renewed: bool, answered: bool) {
    predicate Valid() { answered ==> incremented && renewed }
  }

  predicate Live(store: Store, ip: string, at: int) {
    ip in store && (store[ip].expiry.Never? || at < store[ip].expiry.instant)
  }

  /** INCR: an expired key counts from 0 again, and a new key has no expiry. */
  function Increment(store: Store, ip: string, at: int): Store {
    if Live(store, ip, at) then store[ip := store[ip].(count := store[ip].count + 1)] else store[ip := Entry(1, Never)]
  }

  /** EXPIRE: has no effect on a key that does not exist. */
  function Renew(store: Store, ip: string, at: int, window: int): Store {
    if Live(store, ip, at) then store[ip := store[ip].(expiry := At(at + window))] else store
  }

  function Apply(store: Store, c: Call, window: int): Store {
    var counted := if c.incremented then Increment(store, c.ip, c.at) else store;
    if c.renewed then Renew(counted, c.ip, c.at, window) else counted
  }

  /** The store after any interleaving of calls, from an empty one. */
  function After(trace: seq<Call>, window: int): Store {
    if trace == [] then map[] else Apply(After(trace[..|trace| - 1], window), trace[|trace| - 1], window)
  }

  /** What the last call of a trace answers: an error is a refusal. */
  predicate LastAllowed(trace: seq<Call>, max: int, window: int)
    requires trace != []
  {
    var c := trace[|trace| - 1];
    var store := After(trace, window);
    c.answered && c.ip in store && store[c.ip].count <= max
  }

  /** The calls are in the order of the clock, the last at or before now. */
  predicate Run(trace: seq<Call>, now: int) {
    trace == [] || (trace[|trace| - 1].Valid() && trace[|trace| - 1].at <= now &&
      Run(trace[..|trace| - 1], trace[|trace| - 1].at))
  }

  function AllowedWithin(trace: seq<Call>, ip: string, from: int, to: int, max: int, window: int): nat {
    if trace == [] then 0
    else
      var c := trace[|trace| - 1];
      AllowedWithin(trace[..|trace| - 1], ip, from, to, max, window)
      + (if c.ip == ip && from <= c.at <= to && LastAllowed(trace, max, window) then 1 else 0)
  }

  /** Whatever fails, any interval shorter than the window holds at most max allowed calls of one address. */
  lemma {:induction false} AtMostMaxPerWindow(trace: seq<Call>, now: int, ip: string, from: int, to: int, max: int,
          window: int)
    requires window > 0 && max > 0 && Run(trace, now) && to - from < window
    ensures AllowedWithin(trace, ip, from, to, max, window) <= max
    ensures AllowedWithin(trace, ip, from, to, max, window) > 0 ==> from <= trace[|trace| - 1].at
    ensures AllowedWithin(trace, ip, from, to, max, window) > 0 && trace[|trace| - 1].at <= to ==>
              Holds(After(trace, window), ip, AllowedWithin(trace, ip, from, to, max, window), to)
    decreases |trace|
  {
    if trace == [] {
    } else {
      var c, init := trace[|trace| - 1], trace[..|trace| - 1];
      AtMostMaxPerWindow(init, c.at, ip, from, to, max, window);
      assert init != [] ==> init[|init| - 1].at <= c.at;
    }
  }

  /** The counter of the address stands at n or more, and outlives the instant. */
  predicate Holds(store: Store, ip: string, n: nat, to: int) {
    Live(store, ip, to) && store[ip].count >= n
  }

  // ---------- Bursts ----------

  /** The calls of an address that a further call at the given instant would join: each less than a window after the
      one before. */
  function BurstBefore(trace: seq<Call>, ip: string, at: int, window: int): nat {
    if trace == [] then 0
    else
      var c, init := trace[|trace| - 1], trace[..|trace| - 1];
      if c.ip != ip then BurstBefore(init, ip, at, window)
      else if at - c.at >= window then 0
      else 1 + BurstBefore(init, ip, c.at, window)
  }

  /** Position of the last call in its burst, from 1. */
  function LastPosition(trace: seq<Call>, window: int): nat
    requires trace != []
  {
    1 + BurstBefore(trace[..|trace| - 1], trace[|trace| - 1].ip, trace[|trace| - 1].at, window)
  }

  predicate NoErrors(trace: seq<Call>) { forall i :: 0 <= i < |trace| ==> trace[i].answered }

  lemma {:induction false} CounterIsBurst(trace: seq<Call>, now: int, ip: string, at: int, window: int)
    requires window > 0 && Run(trace, now) && NoErrors(trace) && now <= at
    ensures BurstBefore(trace, ip, at, window) == (if Live(After(trace, window), ip, at)
        then After(trace, window)[ip].count else 0)
    ensures ip in After(trace, window) ==> After(trace, window)[ip].expiry.At?
    decreases |trace|
  {
    if trace == [] {
    } else {
      var c, init := trace[|trace| - 1], trace[..|trace| - 1];
      CounterIsBurst(init, c.at, ip, if c.ip == ip then c.at else at, window);
    }
  }

  /** Without errors a call is allowed exactly when its position in its burst is at most max. */
  lemma AllowedIffEarlyInBurst(trace: seq<Call>, now: int, max: int, window: int)
    requires window > 0 && trace != [] && Run(trace, now) && NoErrors(trace)
    ensures LastAllowed(trace, max, window) <==> LastPosition(trace, window) <= max
  {
    var c, init := trace[|trace| - 1], trace[..|trace| - 1];
    CounterIsBurst(init, c.at, c.ip, c.at, window);
  }

  /** The renewed expiry: after a refused call the address is let in again exactly when it kept quiet for a whole
      window. */
  lemma RefusedUntilQuiet(trace: seq<Call>, between: seq<Call>, next: Call, max: int, window: int)
    requires window > 0 && max > 0 && trace != []
    requires Run(trace + between + [next], next.at) && NoErrors(trace + between + [next])
    requires !LastAllowed(trace, max, window)
    requires next.ip == trace[|trace| - 1].ip && (forall i :: 0 <= i < |between| ==> between[i].ip != next.ip)
    ensures LastAllowed(trace + between + [next], max, window) <==> next.at - trace[|trace| - 1].at >= window
  {
    var all := trace + between + [next];
    var c, init := trace[|trace| - 1], trace[..|trace| - 1];
    assert all[..|all| - 1] == trace + between;
    PrefixRuns(trace + between, |trace|, next.at);
    assert (trace + between)[..|trace|] == trace;
    assert forall i :: 0 <= i < |trace| ==> all[i] == trace[i];
    AllowedIffEarlyInBurst(trace, c.at, max, window);
    AllowedIffEarlyInBurst(all, next.at, max, window);
    OthersDoNotJoin(trace, between, next.ip, next.at, window);
  }

  lemma {:induction false} PrefixRuns(trace: seq<Call>, k: nat, now: int)
    requires 0 < k <= |trace| && Run(trace, now)
    ensures Run(trace[..k], trace[k - 1].at)
    decreases |trace|
  {
    if k < |trace| {
      PrefixRuns(trace[..|trace| - 1], k, trace[|trace| - 1].at);
      assert trace[..|trace| - 1][..k] == trace[..k];
    } else {
      assert trace[..k] == trace;
    }
  }

  lemma {:induction false} OthersDoNotJoin(trace: seq<Call>, between: seq<Call>, ip: string, at: int, window: int)
    requires forall i :: 0 <= i < |between| ==> between[i].ip != ip
    ensures BurstBefore(trace + between, ip, at, window) == BurstBefore(trace, ip, at, window)
    decreases |between|
  {
    if between == [] {
      assert trace + between == trace;
    } else {
      assert (trace + between)[..|trace + between| - 1] == trace + between[..|between| - 1];
      OthersDoNotJoin(trace, between[..|between| - 1], ip, at, window);
    }
  }

  /** A client that calls steadily, however slowly, as long as the gap is below the window. */
  function Steady(n: nat, ip: string, gap: int): seq<Call> {
    if n == 0 then [] else Steady(n - 1, ip, gap) + [Call(ip, (n - 1) * gap, true, true, true)]
  }

  /** The window does not slide from the first request: such a client is refused from call max + 1 on for ever. */
  lemma {:induction false} SteadyClientIsLockedOut(n: nat, ip: string, gap: int, max: int, window: int)
    requires n > 0 && 0 < gap < window && max > 0
    ensures |Steady(n, ip, gap)| == n && LastPosition(Steady(n, ip, gap), window) == n
    ensures LastAllowed(Steady(n, ip, gap), max, window) <==> n <= max
  {
    SteadyRuns(n, ip, gap);
    SteadyPosition(n - 1, ip, gap, window);
    var c := Call(ip, (n - 1) * gap, true, true, true);
    assert (Steady(n - 1, ip, gap) + [c])[..n - 1] == Steady(n - 1, ip, gap);
    AllowedIffEarlyInBurst(Steady(n, ip, gap), (n - 1) * gap, max, window);
  }

  lemma {:induction false} SteadyRuns(n: nat, ip: string, gap: int)
    requires gap > 0
    ensures |Steady(n, ip, gap)| == n && NoErrors(Steady(n, ip, gap)) && Run(Steady(n, ip, gap), (n - 1) * gap)
  {
    if n == 0 {
    } else {
      SteadyRuns(n - 1, ip, gap);
      var c := Call(ip, (n - 1) * gap, true, true, true);
      assert (Steady(n - 1, ip, gap) + [c])[..n - 1] == Steady(n - 1, ip, gap);
      LaterIsFine(Steady(n - 1, ip, gap), (n - 2) * gap, (n - 1) * gap);
    }
  }

  lemma {:induction false} SteadyPosition(n: nat, ip: string, gap: int, window: int)
    requires 0 < gap < window
    ensures |Steady(n, ip, gap)| == n && BurstBefore(Steady(n, ip, gap), ip, n * gap, window) == n
  {
    if n == 0 {
    } else {
      SteadyPosition(n - 1, ip, gap, window);
      var c := Call(ip, (n - 1) * gap, true, true, true);
      assert (Steady(n - 1, ip, gap) + [c])[..n - 1] == Steady(n - 1, ip, gap);
    }
  }

  lemma LaterIsFine(trace: seq<Call>, now: int, later: int)
    requires Run(trace, now) && now <= later
    ensures Run(trace, later)
  {}

  // ---------- The limiter ----------

  /** The pipeline is answered, or breaks with either, both or none of its commands done. */
  datatype Fault = Fine | Broken(incremented: bool, renewed: bool)

  class Limiter {
    const maxAttempts: int
    const windowSeconds: int
    var store: Store
    var now: int    // milliseconds
    ghost var trace: seq<Call>

    ghost predicate Valid()
      reads this
    {
      maxAttempts > 0 && windowSeconds > 0 && Run(trace, now) && store == After(trace, 1000 * windowSeconds)
    }

    /** Limits that are not positive are replaced by 10 calls and 60 seconds. */
    constructor (maxAttempts: int, windowSeconds: int)
      ensures Valid() && trace == []
      ensures this.maxAttempts == (if maxAttempts > 0 then maxAttempts else 10)
      ensures this.windowSeconds == (if windowSeconds > 0 then windowSeconds else 60)
    {
      this.maxAttempts := if maxAttempts <= 0 then 10 else maxAttempts;
      this.windowSeconds := if windowSeconds <= 0 then 60 else windowSeconds;
      store, now, trace := map[], 0, [];
    }

    method Wait(instant: int)
      requires Valid() && now <= instant
      modifies this`now
      ensures Valid() && now == instant
    {
      LaterIsFine(trace, now, instant);
      now := instant;
    }

    /** The two pipelined commands, and the answer read from the first. */
    method Allow(ip: string, fault: Fault) returns (allowed: bool, failed: bool)
      requires Valid()
      modifies this`store, this`trace
      ensures failed == fault.Broken?
      ensures Valid() && |trace| == |old(trace)| + 1 && trace[..|old(trace)|] == old(trace)
      ensures var c := trace[|trace| - 1]; c.ip == ip && c.at == now && c.answered == !failed
      ensures allowed <==> LastAllowed(trace, maxAttempts, 1000 * windowSeconds)
    {
      var window := 1000 * windowSeconds;
      failed := fault.Broken?;
      var incremented, renewed := fault.Fine? || fault.incremented, fault.Fine? || fault.renewed;
      ghost var c := Call(ip, now, incremented, renewed, !failed);
      var count := 0;
      if incremented {
        store := Increment(store, ip, now);
        count := store[ip].count;
      }
      if renewed { store := Renew(store, ip, now, window); }
      allowed := !failed && count <= maxAttempts;
      assert (trace + [c])[..|trace|] == trace;
      trace := trace + [c];
    }
  }
}
