/** The circuit breaker of the collector: error and deactivation counters and a key that expires.
    Times and durations are nanoseconds. */
module CircuitBreaker {

  const MILLISECOND: int := 1_000_000
  const SECOND: int := 1_000_000_000
  const MAX_SHIFT: nat := 10
  const MAX_INT: int := 0x7FFF_FFFF_FFFF_FFFF

  datatype Config = Config(maxErrCount: int, base: int, maxBackoff: int) {
    /** What NewService accepts: positive durations; and at least one error is allowed. */
    predicate Valid() { maxErrCount >= 1 && 0 < base <= MAX_INT && 0 < maxBackoff <= MAX_INT }

    /** Doubling never leaves 64 bits. */
    predicate Roomy() { Valid() && base <= MAX_INT / 1024 }
  }

  function Min(a: int, b: int): int { if a < b then a else b }

  function Pow2(n: nat): nat { if n == 0 then 1 else 2 * Pow2(n - 1) }

  /** Arithmetic of 64-bit signed integers. */
  function Wrap(x: int): int { (x + MAX_INT + 1) % 0x1_0000_0000_0000_0000 - MAX_INT - 1 }

  function CalcBackoff(count: nat, base: int, maxBackoff: int): int {
    Min(Wrap(base * Pow2(Min(count, MAX_SHIFT))), maxBackoff)
  }

  /** The doubled and capped duration without the limits of the machine. */
  function Doubled(count: nat, base: int, maxBackoff: int): int {
    Min(base * Pow2(Min(count, MAX_SHIFT)), maxBackoff)
  }

  lemma {:induction false} Pow2Grows(a: nat, b: nat)
    requires a <= b
    ensures 1 <= Pow2(a) <= Pow2(b)
  {
    if b == 0 {
    } else {
      Pow2Grows(if a < b then a else a - 1, b - 1);
    }
  }

  lemma WrapIsModest(x: int)
    ensures -MAX_INT - 1 <= Wrap(x) <= MAX_INT
    ensures Wrap(x) == x <==> -MAX_INT - 1 <= x <= MAX_INT
  {}

  /** The computed backoff is the doubled one exactly when doubling does not overflow, or overflows to something
      above the cap. */
  lemma BackoffExactIff(count: nat, base: int, maxBackoff: int)
    requires 0 < base <= MAX_INT && 0 < maxBackoff <= MAX_INT
    ensures CalcBackoff(count, base, maxBackoff) == Doubled(count, base, maxBackoff) <==>
            base * Pow2(Min(count, MAX_SHIFT)) <= MAX_INT || Wrap(base * Pow2(Min(count, MAX_SHIFT))) >= maxBackoff
  {
    var p := Pow2(Min(count, MAX_SHIFT));
    Pow2Grows(0, Min(count, MAX_SHIFT));
    assert base * p >= base by { MulGrows(base, 1, p); }
    WrapIsModest(base * p);
  }

  /** Doubling can overflow: a base of 2^53 nanoseconds, some 104 days, gives after ten deactivations a negative
      duration whatever the cap, and the key then never expires. */
  lemma BackoffCanOverflow(maxBackoff: int, now: int)
    requires 0 < maxBackoff <= MAX_INT
    ensures var base := 0x20_0000_0000_0000;
            && base * Pow2(10) == MAX_INT + 1
            && CalcBackoff(10, base, maxBackoff) < 0 < Doubled(10, base, maxBackoff)
            && KeyExpiry(now, CalcBackoff(10, base, maxBackoff)) == Forever
  {
    assert Pow2(5) == 32 && Pow2(10) == 2 * (2 * (2 * (2 * (2 * Pow2(5)))));
  }

  lemma MulGrows(x: int, a: int, b: int)
    requires 0 <= x && a <= b
    ensures x * a <= x * b
  {}

  /** Within the limits, backoffs grow, stay between base and cap, and are the doubled ones. */
  lemma BackoffGrows(c: Config, i: nat, j: nat)
    requires c.Roomy() && i <= j
    ensures CalcBackoff(i, c.base, c.maxBackoff) == Doubled(i, c.base, c.maxBackoff)
    ensures 0 < CalcBackoff(i, c.base, c.maxBackoff) <= CalcBackoff(j, c.base, c.maxBackoff) <= c.maxBackoff
  {
    var a, b := Pow2(Min(i, MAX_SHIFT)), Pow2(Min(j, MAX_SHIFT));
    Pow2Grows(Min(i, MAX_SHIFT), Min(j, MAX_SHIFT));
    Pow2Grows(Min(j, MAX_SHIFT), MAX_SHIFT);
    assert Pow2(MAX_SHIFT) == 1024 by { assert Pow2(5) == 32; assert Pow2(10) == 2 * (2 * (2 * (2 * (2 * Pow2(5))))); }
    MulGrows(c.base, 1, a);
    MulGrows(c.base, a, b);
    MulGrows(c.base, b, 1024);
    WrapIsModest(c.base * a);
    WrapIsModest(c.base * b);
  }

  // ---------- One source ----------

  datatype Expiry = Absent | Until(t: int) | Forever

  /** The store keeps whole milliseconds; a duration that is not positive sets no expiry at all. */
  function Ttl(d: int): int
  {
    if d < MILLISECOND then MILLISECOND else d / MILLISECOND * MILLISECOND
  }

  function KeyExpiry(now: int, d: int): Expiry { if d > 0 then Until(now + Ttl(d)) else Forever }

  datatype Breaker = Breaker(errors: int, deactivations: nat, closed: Expiry)

  const FRESH := Breaker(0, 0, Absent)

  predicate Blocks(e: Expiry, now: int) { e.Forever? || (e.Until? && now < e.t) }

  function Failed(b: Breaker, c: Config, now: int): Breaker {
    if b.errors + 1 < c.maxErrCount then b.(errors := b.errors + 1)
    else Breaker(0, b.deactivations + 1, KeyExpiry(now, CalcBackoff(b.deactivations, c.base, c.maxBackoff)))
  }

  function Succeeded(b: Breaker): Breaker { b.(errors := 0) }

  // ---------- The store and the service ----------

  /** A command is answered, fails without effect, or takes effect and loses its answer. */
  datatype Fault = Fine | NoEffect | LostReply

  /** The pipeline of a deactivation is answered, or breaks with either, both or none of its commands done. */
  datatype Pipeline = Done | Broken(keySet: bool, counted: bool)

  datatype Faults = Faults(increment: Fault, count: Fault, deactivate: Pipeline, reset: Fault)

  const ALL_ANSWER := Faults(Fine, Fine, Done, Fine)

  /** The error path with missing answers. */
  function FailedWith(b: Breaker, c: Config, now: int, f: Faults): Breaker {
    if f.increment.NoEffect? then b
    else
      var counted := b.(errors := b.errors + 1);
      if f.increment.LostReply? || counted.errors < c.maxErrCount then counted
      else
        var expiry := KeyExpiry(now, CalcBackoff(if f.count.Fine? then b.deactivations else 0, c.base, c.maxBackoff));
        match f.deactivate
        case Broken(keySet, bumped) =>
          Breaker(counted.errors, if bumped then b.deactivations + 1 else b.deactivations, if keySet then expiry
            else b.closed)
        case Done => Breaker(if f.reset.NoEffect? then counted.errors else 0, b.deactivations + 1, expiry)
  }

  class StateStore {
    var errorCount: map<string, int>
    var deactivationCount: map<string, nat>
    var lastCollectedAt: map<string, int>
    var deactivated: map<string, Expiry>

    constructor ()
      ensures errorCount == map[] && deactivationCount == map[] && lastCollectedAt == map[] && deactivated == map[]
    {
      errorCount, deactivationCount, lastCollectedAt, deactivated := map[], map[], map[], map[];
    }

    function Of(id: string): Breaker
      reads this
    {
      Breaker(if id in errorCount then errorCount[id] else 0,
              if id in deactivationCount then deactivationCount[id] else 0,
              if id in deactivated then deactivated[id] else Absent)
    }

    twostate predicate OnlyChanges(id: string)
      reads this
    {
      forall other :: other != id ==> Of(other) == old(Of(other))
    }

    method IncrementErrorCount(id: string, f: Fault) returns (count: int, failed: bool)
      modifies this`errorCount
      ensures Of(id) == old(Of(id)).(errors := old(Of(id)).errors + if f.NoEffect? then 0 else 1) && OnlyChanges(id)
      ensures failed == !f.Fine? && (!failed ==> count == Of(id).errors)
    {
      count := (if id in errorCount then errorCount[id] else 0) + 1;
      if !f.NoEffect? { errorCount := errorCount[id := count]; }
      failed := !f.Fine?;
    }

    method ResetErrorCount(id: string, f: Fault) returns (failed: bool)
      modifies this`errorCount
      ensures Of(id) == old(Of(id)).(errors := if f.NoEffect? then old(Of(id)).errors else 0) && OnlyChanges(id)
      ensures failed == !f.Fine?
    {
      if !f.NoEffect? { errorCount := errorCount[id := 0]; }
      failed := !f.Fine?;
    }

    /** The key and the counter in one pipeline. */
    method LocallyDeactivate(id: string, now: int, backoff: int, f: Pipeline) returns (failed: bool)
      modifies this`deactivated, this`deactivationCount
      ensures var b := old(Of(id));
              Of(id) == match f
                        case Done => Breaker(b.errors, b.deactivations + 1, KeyExpiry(now, backoff))
                        case Broken(keySet, counted) =>
                          Breaker(b.errors, if counted then b.deactivations + 1 else b.deactivations,
                                  if keySet then KeyExpiry(now, backoff) else b.closed)
      ensures OnlyChanges(id) && failed == f.Broken?
    {
      if f.Done? || f.keySet { deactivated := deactivated[id := KeyExpiry(now, backoff)]; }
      if f.Done? || f.counted {
        var count := if id in deactivationCount then deactivationCount[id] else 0;
        deactivationCount := deactivationCount[id := count + 1];
      }
      failed := f.Broken?;
    }

    method GetDeactivationCount(id: string, f: Fault) returns (n: nat, failed: bool)
      ensures failed == !f.Fine? && (!failed ==> n == Of(id).deactivations)
    {
      n := if id in deactivationCount then deactivationCount[id] else 0;
      failed := !f.Fine?;
    }

    /** The Unix time in seconds. */
    method SetCollected(id: string, now: int, f: Fault) returns (failed: bool)
      modifies this`lastCollectedAt
      ensures forall x :: Of(x) == old(Of(x))
      ensures lastCollectedAt == if f.NoEffect? then old(lastCollectedAt) else old(lastCollectedAt)[id := now / SECOND]
      ensures failed == !f.Fine?
    {
      if !f.NoEffect? { lastCollectedAt := lastCollectedAt[id := now / SECOND]; }
      failed := !f.Fine?;
    }

    /** A key that has expired is gone. */
    method IsLocallyDeactivated(id: string, now: int, f: Fault) returns (yes: bool, failed: bool)
      ensures failed == !f.Fine? && (!failed ==> yes == Blocks(Of(id).closed, now)) && (failed ==> !yes)
    {
      if !f.Fine? { return false, true; }
      var e := if id in deactivated then deactivated[id] else Absent;
      return e.Forever? || (e.Until? && now < e.t), false;
    }

    /** The interval, in seconds, has passed since the last collection. */
    ghost predicate Due(id: string, now: int, interval: int)
      reads this
    {
      id !in lastCollectedAt || now > (lastCollectedAt[id] + interval) * SECOND
    }

    method IsDue(id: string, now: int, interval: int, f: Fault) returns (due: bool, failed: bool)
      ensures failed == !f.Fine? && (!failed ==> due == Due(id, now, interval)) && (failed ==> !due)
    {
      if !f.Fine? { return false, true; }
      if id !in lastCollectedAt { return true, false; }
      var nextFetch := lastCollectedAt[id] * SECOND + interval * SECOND;
      return now > nextFetch, false;
    }

    /** After a recorded collection at t the source is due from the interval less the cut-off part of a second on: not
        before the interval less a second, and certainly after the whole interval. */
    lemma DueAgain(id: string, t: int, now: int, interval: int)
      requires id in lastCollectedAt && lastCollectedAt[id] == t / SECOND
      ensures Due(id, now, interval) <==> now > t - t % SECOND + interval * SECOND
      ensures now <= t + (interval - 1) * SECOND ==> !Due(id, now, interval)
      ensures now > t + interval * SECOND ==> Due(id, now, interval)
    {
      assert t == t / SECOND * SECOND + t % SECOND;
    }
  }

  datatype Source = Source(id: string, interval: int)

  /** When the two questions about a source are asked, and whether they are answered. */
  datatype Look = Look(first: int, second: int, deactivated: Fault, due: Fault)

  /** Both questions were answered, the breaker let the source pass, and its interval was over. */
  ghost predicate Passes(state: StateStore, src: Source, look: Look)
    reads state
  {
    && look.deactivated.Fine? && !Blocks(state.Of(src.id).closed, look.first)
    && look.due.Fine? && state.Due(src.id, look.second, src.interval)
  }

  /** The sources that pass, in order. */
  ghost function Passing(state: StateStore, sources: seq<Source>, looks: seq<Look>): (due: seq<Source>)
    requires |looks| == |sources|
    reads state
    ensures |due| <= |sources| && forall src :: src in due ==> src in sources
  {
    if sources == [] then []
    else
      var n := |sources| - 1;
      Passing(state, sources[..n], looks[..n]) + (if Passes(state, sources[n], looks[n]) then [sources[n]] else [])
  }

  /** What it takes, field by field: both answers, no living key, and an interval that is over if there is a collection
      to count it from. */
  ghost predicate IsOpen(state: StateStore, src: Source, look: Look)
    reads state
  {
    && look.deactivated.Fine? && look.due.Fine?
    && (src.id in state.deactivated ==>
          match state.deactivated[src.id]
          case Absent => true
          case Until(t) => t <= look.first
          case Forever => false)
    && (src.id in state.lastCollectedAt ==>
          look.second > state.lastCollectedAt[src.id] * SECOND + src.interval * SECOND)
  }

  lemma OpenPasses(state: StateStore, src: Source, look: Look)
    ensures IsOpen(state, src, look) <==> Passes(state, src, look)
  {}

  predicate IsAnswered(look: Look) { look.deactivated.Fine? && look.due.Fine? }

  predicate AllAnswered(looks: seq<Look>) { forall i :: 0 <= i < |looks| ==> IsAnswered(looks[i]) }

  /** No collection of the source is recorded, and its breaker is absent. */
  predicate IsUnknown(state: StateStore, id: string)
    reads state
  {
    id !in state.deactivated && id !in state.lastCollectedAt
  }

  /** due holds the sources at the positions at, in order, and these are all the open ones. */
  ghost predicate StandAt(state: StateStore, sources: seq<Source>, looks: seq<Look>, due: seq<Source>, at: seq<nat>)
    requires |looks| == |sources|
    reads state
  {
    && |at| == |due| && (forall j, k :: 0 <= j < k < |at| ==> at[j] < at[k])
    && (forall k :: 0 <= k < |at| ==> at[k] < |sources| && due[k] == sources[at[k]])
    && (forall i: nat :: i in at <==> i < |sources| && IsOpen(state, sources[i], looks[i]))
  }

  lemma OneMoreStands(state: StateStore, sources: seq<Source>, looks: seq<Look>, due: seq<Source>, at: seq<nat>)
    returns (next: seq<nat>)
    requires |looks| == |sources| > 0
    requires StandAt(state, sources[..|sources| - 1], looks[..|sources| - 1], due, at)
    ensures var n := |sources| - 1;
            StandAt(state, sources, looks,
                    if IsOpen(state, sources[n], looks[n]) then due + [sources[n]] else due, next)
  {
    var n := |sources| - 1;
    assert forall i :: 0 <= i < n ==> sources[..n][i] == sources[i] && looks[..n][i] == looks[i];
    if IsOpen(state, sources[n], looks[n]) {
      next := at + [n];
      forall i: nat ensures i in next <==> i < |sources| && IsOpen(state, sources[i], looks[i]) {
        assert i in next <==> i in at || i == n;
      }
    } else {
      next := at;
    }
  }

  lemma {:induction false} PassingStandAt(state: StateStore, sources: seq<Source>, looks: seq<Look>)
    returns (at: seq<nat>)
    requires |looks| == |sources|
    ensures StandAt(state, sources, looks, Passing(state, sources, looks), at)
  {
    if sources == [] {
      at := [];
    } else {
      var n := |sources| - 1;
      at := PassingStandAt(state, sources[..n], looks[..n]);
      OpenPasses(state, sources[n], looks[n]);
      at := OneMoreStands(state, sources, looks, Passing(state, sources[..n], looks[..n]), at);
    }
  }

  lemma StandingAreDue(state: StateStore, sources: seq<Source>, looks: seq<Look>, due: seq<Source>, at: seq<nat>)
    requires |looks| == |sources| && StandAt(state, sources, looks, due, at)
    ensures forall src ::
        src in due <==> exists i :: 0 <= i < |sources| && sources[i] == src && Passes(state, src, looks[i])
  {
    forall i | 0 <= i < |sources| ensures IsOpen(state, sources[i], looks[i]) <==> Passes(state, sources[i], looks[i]) {
      OpenPasses(state, sources[i], looks[i]);
    }
    forall src | src in due
      ensures exists i :: 0 <= i < |sources| && sources[i] == src && Passes(state, src, looks[i])
    {
      var k :| 0 <= k < |due| && due[k] == src;
      assert at[k] in at;
    }
    forall i | 0 <= i < |sources| && Passes(state, sources[i], looks[i]) ensures sources[i] in due {
      assert i in at;
      var k :| 0 <= k < |at| && at[k] == i;
      assert due[k] == sources[i];
    }
  }

  lemma {:induction false} NewStorePasses(state: StateStore, sources: seq<Source>, looks: seq<Look>)
    requires |looks| == |sources| && AllAnswered(looks) && state.deactivated == map[] && state.lastCollectedAt == map[]
    ensures Passing(state, sources, looks) == sources
  {
    if sources == [] {
    } else {
      var n := |sources| - 1;
      NewStorePasses(state, sources[..n], looks[..n]);
      OpenPasses(state, sources[n], looks[n]);
      assert IsAnswered(looks[n]) && sources == sources[..n] + [sources[n]];
    }
  }

  lemma WhoIsDue(state: StateStore, sources: seq<Source>, looks: seq<Look>, due: seq<Source>) returns (at: seq<nat>)
    requires |looks| == |sources| && due == Passing(state, sources, looks)
    ensures StandAt(state, sources, looks, due, at)
    ensures forall src ::
        src in due <==> exists i :: 0 <= i < |sources| && sources[i] == src && Passes(state, src, looks[i])
    ensures forall i :: 0 <= i < |sources| && IsUnknown(state, sources[i].id) && IsAnswered(looks[i]) ==>
        sources[i] in due
    ensures AllAnswered(looks) && state.deactivated == map[] && state.lastCollectedAt == map[] ==> due == sources
  {
    at := PassingStandAt(state, sources, looks);
    StandingAreDue(state, sources, looks, due, at);
    forall i | 0 <= i < |sources| && IsUnknown(state, sources[i].id) && IsAnswered(looks[i])
      ensures sources[i] in due
    {
      OpenPasses(state, sources[i], looks[i]);
    }
    if AllAnswered(looks) && state.deactivated == map[] && state.lastCollectedAt == map[] {
      NewStorePasses(state, sources, looks);
    }
  }

  /** The sources to collect from now: in order exactly those that pass; an error leaves a source out. */
  method DueSources(state: StateStore, sources: seq<Source>, looks: seq<Look>)
    returns (due: seq<Source>, ghost at: seq<nat>)
    requires |looks| == |sources|
    ensures due == Passing(state, sources, looks)
    // Whatever is collected from passed, whatever passed is collected from.
    ensures forall src ::
        src in due <==> exists i :: 0 <= i < |sources| && sources[i] == src && Passes(state, src, looks[i])
    // They stand at these positions of the list, each as it is there, in the same order.
    ensures StandAt(state, sources, looks, due, at)
    // A source of which nothing is recorded is collected from, and of a new store all are.
    ensures forall i :: 0 <= i < |sources| && IsUnknown(state, sources[i].id) && IsAnswered(looks[i]) ==>
        sources[i] in due
    ensures AllAnswered(looks) && state.deactivated == map[] && state.lastCollectedAt == map[] ==> due == sources
  {
    due := [];
    for i := 0 to |sources|
      invariant due == Passing(state, sources[..i], looks[..i])
    {
      assert sources[..i + 1][..i] == sources[..i] && looks[..i + 1][..i] == looks[..i];
      assert Passing(state, sources[..i + 1], looks[..i + 1])
          == due + (if Passes(state, sources[i], looks[i]) then [sources[i]] else []);
      var deactivated, failed := state.IsLocallyDeactivated(sources[i].id, looks[i].first, looks[i].deactivated);
      if failed || deactivated { continue; }
      var isDue, broken := state.IsDue(sources[i].id, looks[i].second, sources[i].interval, looks[i].due);
      if broken || !isDue { continue; }
      due := due + [sources[i]];
    }
    assert sources[..|sources|] == sources && looks[..|looks|] == looks;
    at := WhoIsDue(state, sources, looks, due);
  }

  /** It does come early: collected at 1.9 s with an interval of one second, the source is due at 2.1 s. */
  lemma CollectedEarly(state: StateStore, id: string)
    requires id in state.lastCollectedAt && state.lastCollectedAt[id] == 1_900_000_000 / SECOND
    ensures state.Due(id, 2_100_000_000, 1)
  {
    state.DueAgain(id, 1_900_000_000, 2_100_000_000, 1);
  }

  /** A source is never due before its interval has passed exactly if its collection fell on a whole second. */
  lemma NeverEarlyIff(state: StateStore, id: string, t: int, interval: int)
    requires id in state.lastCollectedAt && state.lastCollectedAt[id] == t / SECOND
    ensures (forall now :: state.Due(id, now, interval) ==> now > t + interval * SECOND) <==> t % SECOND == 0
  {
    forall now ensures state.Due(id, now, interval) <==> now > t - t % SECOND + interval * SECOND {
      state.DueAgain(id, t, now, interval);
    }
    var early := t - t % SECOND + interval * SECOND + 1;
    assert state.Due(id, early, interval);
  }

  method HandleCollectError(state: StateStore, c: Config, id: string, now: int, f: Faults)
    requires c.Valid()
    modifies state
    ensures state.Of(id) == FailedWith(old(state.Of(id)), c, now, f)
    ensures forall other :: other != id ==> state.Of(other) == old(state.Of(other))
    ensures state.lastCollectedAt == old(state.lastCollectedAt)
    ensures f == ALL_ANSWER ==> state.Of(id) == Failed(old(state.Of(id)), c, now)
  {
    var count, incrErr := state.IncrementErrorCount(id, f.increment);
    if incrErr { return; }
    if count < c.maxErrCount { return; }
    var deactCount, dcErr := state.GetDeactivationCount(id, f.count);
    if dcErr { deactCount := 0; }
    var backoff := CalcBackoff(deactCount, c.base, c.maxBackoff);
    var deactErr := state.LocallyDeactivate(id, now, backoff, f.deactivate);
    if deactErr { return; }
    var resetErr := state.ResetErrorCount(id, f.reset);
  }

  /** A success notes the time and clears the errors of its source; each command may fail on its own. */
  method HandleSuccess(state: StateStore, id: string, now: int, collected: Fault, reset: Fault)
    modifies state
    ensures state.Of(id) == if reset.NoEffect? then old(state.Of(id)) else Succeeded(old(state.Of(id)))
    ensures forall other :: other != id ==> state.Of(other) == old(state.Of(other))
    ensures state.lastCollectedAt == if collected.NoEffect? then old(state.lastCollectedAt)
        else old(state.lastCollectedAt)[id := now / SECOND]
  {
    var setErr := state.SetCollected(id, now, collected);
    var resetErr := state.ResetErrorCount(id, reset);
  }

  // ---------- Histories ----------

  /** One attempt: when it was let through, when it ended, and how. */
  datatype Attempt = Attempt(start: int, end: int, ok: bool)

  function Apply(b: Breaker, c: Config, a: Attempt): Breaker {
    if a.ok then Succeeded(b) else Failed(b, c, a.end)
  }

  function Replay(c: Config, h: seq<Attempt>): Breaker {
    if h == [] then FRESH else Apply(Replay(c, h[..|h| - 1]), c, h[|h| - 1])
  }

  /** Lengths of the maximal streaks of failures, the current one last. */
  function Streaks(h: seq<Attempt>): (r: seq<nat>)
    ensures |r| >= 1
  {
    if h == [] then [0]
    else
      var r := Streaks(h[..|h| - 1]);
      if h[|h| - 1].ok then r + [0] else r[..|r| - 1] + [r[|r| - 1] + 1]
  }

  function Quotients(streaks: seq<nat>, k: int): nat
    requires k >= 1
  {
    if streaks == [] then 0 else Quotients(streaks[..|streaks| - 1], k) + streaks[|streaks| - 1] / k
  }

  lemma NextQuotient(n: nat, k: int)
    requires k >= 1
    ensures if n % k + 1 < k then (n + 1) / k == n / k && (n + 1) % k == n % k + 1
            else (n + 1) / k == n / k + 1 && (n + 1) % k == 0
  {
    var q, r := n / k, n % k;
    assert n == k * q + r;
    if r + 1 < k {
      DivModIs(n + 1, k, q, r + 1);
    } else {
      assert n + 1 == k * (q + 1);
      DivModIs(n + 1, k, q + 1, 0);
    }
  }

  lemma DivModIs(n: int, k: int, q: int, r: int)
    requires k >= 1 && 0 <= r < k && n == k * q + r
    ensures n / k == q && n % k == r
  {
    var d := n / k - q;
    assert n == k * (n / k) + n % k;
    assert k * d == r - n % k;
    if d >= 1 { MulGrows(k, 1, d); }
    if d <= -1 { MulGrows(k, d, -1); }
  }

  lemma QuotientsSnoc(r: seq<nat>, n: nat, k: int)
    requires k >= 1
    ensures Quotients(r + [n], k) == Quotients(r, k) + n / k
  {
    assert (r + [n])[..|r|] == r;
  }

  /** The two counters alone. */
  datatype Counters = Counters(errors: int, deactivations: nat)

  function Count(n: Counters, k: int, ok: bool): Counters {
    if ok then n.(errors := 0)
    else if n.errors + 1 < k then n.(errors := n.errors + 1)
    else Counters(0, n.deactivations + 1)
  }

  function CountAll(k: int, h: seq<Attempt>): Counters {
    if h == [] then Counters(0, 0) else Count(CountAll(k, h[..|h| - 1]), k, h[|h| - 1].ok)
  }

  lemma {:induction false} ReplayCounts(c: Config, h: seq<Attempt>)
    ensures Replay(c, h).errors == CountAll(c.maxErrCount, h).errors
    ensures Replay(c, h).deactivations == CountAll(c.maxErrCount, h).deactivations
  {
    if h == [] {
    } else {
      ReplayCounts(c, h[..|h| - 1]);
    }
  }

  /** One more attempt in the closed form. */
  lemma StreaksStep(k: int, r: seq<nat>, n: Counters, ok: bool)
    requires k >= 1 && r != []
    requires n.errors == r[|r| - 1] % k && n.deactivations == Quotients(r, k)
    ensures var s := if ok then r + [0] else r[..|r| - 1] + [r[|r| - 1] + 1];
            Count(n, k, ok).errors == s[|s| - 1] % k && Count(n, k, ok).deactivations == Quotients(s, k)
  {
    DivModIs(0, k, 0, 0);
    QuotientsSnoc(r, 0, k);
    QuotientsSnoc(r[..|r| - 1], r[|r| - 1] + 1, k);
    NextQuotient(r[|r| - 1], k);
  }

  lemma {:induction false} StreakCounts(k: int, h: seq<Attempt>)
    requires k >= 1
    ensures var s := Streaks(h);
            CountAll(k, h).errors == s[|s| - 1] % k && CountAll(k, h).deactivations == Quotients(s, k)
  {
    if h == [] {
      DivModIs(0, k, 0, 0);
      QuotientsSnoc([], 0, k);
      assert [] + [0] == [0];
    } else {
      var g := h[..|h| - 1];
      StreakCounts(k, g);
      StreaksStep(k, Streaks(g), CountAll(k, g), h[|h| - 1].ok);
    }
  }

  /** The counters in closed form, for every history of answered attempts. */
  lemma CountersClosedForm(c: Config, h: seq<Attempt>)
    requires c.Valid()
    ensures var s := Streaks(h); var b := Replay(c, h);
            && b.errors == s[|s| - 1] % c.maxErrCount
            && b.deactivations == Quotients(s, c.maxErrCount)
  {
    ReplayCounts(c, h);
    StreakCounts(c.maxErrCount, h);
  }

  // ---------- Histories in which commands go unanswered ----------

  /** An attempt, and what became of the commands that followed it. */
  datatype Faulty = Faulty(attempt: Attempt, faults: Faults)

  function ReplayWith(c: Config, h: seq<Faulty>): Breaker {
    if h == [] then FRESH
    else
      var b, x := ReplayWith(c, h[..|h| - 1]), h[|h| - 1];
      if !x.attempt.ok then FailedWith(b, c, x.attempt.end, x.faults)
      else if x.faults.reset.NoEffect? then b
      else Succeeded(b)
  }

  /** The failures since the last success that cleared the counter. */
  function FailuresSince(h: seq<Faulty>): nat {
    if h == [] then 0
    else if !h[|h| - 1].attempt.ok then FailuresSince(h[..|h| - 1]) + 1
    else if h[|h| - 1].faults.reset.NoEffect? then FailuresSince(h[..|h| - 1])
    else 0
  }

  lemma {:induction false} ErrorsAreFailures(c: Config, h: seq<Faulty>)
    ensures 0 <= ReplayWith(c, h).errors <= FailuresSince(h)
  {
    if h == [] {
    } else {
      ErrorsAreFailures(c, h[..|h| - 1]);
    }
  }

  /** Whatever command goes unanswered or undone: the breaker closes, and a deactivation is counted, only at a failure,
      and only when that is at least the limit's failure since the counter was cleared. */
  lemma NeverClosesEarly(c: Config, h: seq<Faulty>)
    requires c.Valid() && h != []
    ensures var b, t := ReplayWith(c, h[..|h| - 1]), ReplayWith(c, h);
            t.closed != b.closed || t.deactivations != b.deactivations ==>
              !h[|h| - 1].attempt.ok && FailuresSince(h) >= c.maxErrCount
  {
    ErrorsAreFailures(c, h[..|h| - 1]);
  }

  // ---------- A source that always fails ----------

  /** Attempts follow one another, each starts when the breaker lets it, and all fail. */
  predicate FailingRun(c: Config, h: seq<Attempt>) {
    && (forall i :: 0 <= i < |h| ==>
         !h[i].ok && h[i].start <= h[i].end && !Blocks(Replay(c, h[..i]).closed, h[i].start))
    && (forall i :: 0 < i < |h| ==> h[i - 1].end <= h[i].start)
  }

  /** How long the i-th deactivation lasts. */
  function Lasting(c: Config, i: nat): int { Ttl(CalcBackoff(i, c.base, c.maxBackoff)) }

  function Durations(c: Config): nat -> int { (i: nat) => Lasting(c, i) }

  function Starts(h: seq<Attempt>): seq<int> { seq(|h|, i requires 0 <= i < |h| => h[i].start) }

  function Sum(ttl: nat -> int, j: nat): int { if j == 0 then 0 else Sum(ttl, j - 1) + ttl(j - 1) }

  lemma {:induction false} AllFailures(k: int, h: seq<Attempt>)
    requires k >= 1 && forall i :: 0 <= i < |h| ==> !h[i].ok
    ensures CountAll(k, h) == Counters(|h| % k, |h| / k)
  {
    if h == [] {
      DivModIs(0, k, 0, 0);
    } else {
      AllFailures(k, h[..|h| - 1]);
      NextQuotient(|h| - 1, k);
    }
  }

  /** The j-th deactivation lasts its doubled and capped duration, rounded down to milliseconds. */
  lemma DeactivationLasts(c: Config, h: seq<Attempt>)
    requires c.Roomy() && h != [] && !h[|h| - 1].ok
    requires Replay(c, h).deactivations == Replay(c, h[..|h| - 1]).deactivations + 1
    ensures var j := Replay(c, h[..|h| - 1]).deactivations;
            Replay(c, h).closed == Until(h[|h| - 1].end + Ttl(Doubled(j, c.base, c.maxBackoff)))
  {
    var j := Replay(c, h[..|h| - 1]).deactivations;
    BackoffGrows(c, j, j);
  }

  lemma RoundNumbers(n: nat, k: int, j: nat)
    requires k >= 1 && n == (j + 1) * k
    ensures n >= k && n - k == j * k
    ensures n / k == j + 1 && n % k == 0 && (n - 1) / k == j && (n - 1) % k == k - 1
  {
    MulGrows(k, 0, j);
    DivModIs(n, k, j + 1, 0);
    DivModIs(n - 1, k, j, k - 1);
  }

  lemma RoundCounts(c: Config, f: seq<Attempt>, j: nat)
    requires c.maxErrCount >= 1 && |f| == (j + 1) * c.maxErrCount && forall i :: 0 <= i < |f| ==> !f[i].ok
    ensures f != [] && Replay(c, f).deactivations == j + 1 && Replay(c, f[..|f| - 1]).deactivations == j
  {
    RoundNumbers(|f|, c.maxErrCount, j);
    ReplayCounts(c, f);
    ReplayCounts(c, f[..|f| - 1]);
    AllFailures(c.maxErrCount, f);
    AllFailures(c.maxErrCount, f[..|f| - 1]);
  }

  /** After a multiple of the error limit the breaker has just closed, for its j-th time. */
  lemma RoundCloses(c: Config, f: seq<Attempt>, j: nat)
    requires c.Roomy() && |f| == (j + 1) * c.maxErrCount && forall i :: 0 <= i < |f| ==> !f[i].ok
    ensures f != [] && Replay(c, f).closed == Until(f[|f| - 1].end + Lasting(c, j))
  {
    RoundCounts(c, f, j);
    DeactivationLasts(c, f);
    BackoffGrows(c, j, j);
  }

  lemma WaitsOut(c: Config, h: seq<Attempt>, n: nat, j: nat)
    requires c.Roomy() && FailingRun(c, h) && n < |h| && n == (j + 1) * c.maxErrCount
    ensures 1 <= n && h[n].start >= h[n - 1].start + Lasting(c, j)
  {
    var f := h[..n];
    RoundCloses(c, f, j);
    assert f[n - 1] == h[n - 1];
    assert !Blocks(Replay(c, f).closed, h[n].start);
  }

  /** The first start of round i + 1 is at least ttl(i) after the last start of round i. */
  predicate Waits(starts: seq<int>, k: int, ttl: nat -> int, i: nat, n: int) {
    n == (i + 1) * k && 1 <= n < |starts| ==> starts[n] >= starts[n - 1] + ttl(i)
  }

  predicate Ascending(starts: seq<int>) { forall i, j :: 0 <= i <= j < |starts| ==> starts[i] <= starts[j] }

  lemma {:induction false} RoundsAddUp(starts: seq<int>, k: int, ttl: nat -> int, n: nat, j: nat)
    requires k >= 1 && Ascending(starts) && n < |starts| && n == j * k
    requires forall i: nat, m: int :: Waits(starts, k, ttl, i, m)
    ensures starts[n] >= starts[0] + Sum(ttl, j)
    decreases j
  {
    if j == 0 {
    } else {
      RoundNumbers(n, k, j - 1);
      RoundsAddUp(starts, k, ttl, n - k, j - 1);
      assert Waits(starts, k, ttl, j - 1, n);
    }
  }

  lemma RoundWaits(c: Config, h: seq<Attempt>, i: nat, n: int)
    requires c.Roomy() && FailingRun(c, h)
    ensures Waits(Starts(h), c.maxErrCount, Durations(c), i, n)
  {
    if n == (i + 1) * c.maxErrCount && 1 <= n < |h| { WaitsOut(c, h, n, i); }
  }

  /** A source that always fails: attempt j * maxErrCount + 1 waits out the first j deactivations. */
  lemma FailuresAreSpacedOut(c: Config, h: seq<Attempt>, n: nat, j: nat)
    requires c.Roomy() && FailingRun(c, h) && n < |h| && n == j * c.maxErrCount
    ensures h[n].start >= h[0].start + Sum(Durations(c), j)
  {
    forall i, m | 0 <= i <= m < |h| ensures Starts(h)[i] <= Starts(h)[m] { StartsAscend(c, h, i, m); }
    forall i: nat, m: int { RoundWaits(c, h, i, m); }
    RoundsAddUp(Starts(h), c.maxErrCount, Durations(c), n, j);
  }

  lemma {:induction false} StartsAscend(c: Config, h: seq<Attempt>, i: nat, j: nat)
    requires FailingRun(c, h) && i <= j < |h|
    ensures h[i].start <= h[j].start
    decreases j
  {
    if i == j {
    } else {
      StartsAscend(c, h, i, j - 1);
    }
  }
}
