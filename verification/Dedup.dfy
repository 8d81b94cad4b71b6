/** Deduplication of collected news by workers that share one store of expiring keys.
    The key of a URL is its hash, taken as injective, so the URL itself stands for it. */
module Dedup {

  datatype Outcome = New | Duplicate | Error

  /** One SET key NX with expiry, at the instant it takes effect or fails. */
  datatype Op = Op(url: string, at: int, outcome: Outcome)

  type Keys = map<string, int>    // expiry instant of every key ever set

  predicate Live(keys: Keys, url: string, at: int) { url in keys && at < keys[url] }

  /** Set if absent: an existing key keeps its expiry. */
  function SetIfAbsent(keys: Keys, url: string, at: int, ttl: int): Keys {
    if Live(keys, url, at) then keys else keys[url := at + ttl]
  }

  /** An answered command; or an error, whose command may or may not have taken effect. */
  predicate Step(keys: Keys, o: Op, ttl: int, keys': Keys) {
    match o.outcome
    case New => !Live(keys, o.url, o.at) && keys' == SetIfAbsent(keys, o.url, o.at, ttl)
    case Duplicate => Live(keys, o.url, o.at) && keys' == keys
    case Error => keys' == keys || keys' == SetIfAbsent(keys, o.url, o.at, ttl)
  }

  /** Any interleaving of commands, in the order of the clock, from an empty store. */
  ghost predicate Run(trace: seq<Op>, ttl: int, keys: Keys, now: int)
    decreases |trace|
  {
    if trace == [] then keys == map[]
    else
      var o := trace[|trace| - 1];
      o.at <= now && exists before: Keys :: RunStep(trace, ttl, before, keys)
  }

  ghost predicate RunStep(trace: seq<Op>, ttl: int, before: Keys, keys: Keys)
    requires trace != []
    decreases |trace|, 0
  {
    var o := trace[|trace| - 1];
    Run(trace[..|trace| - 1], ttl, before, o.at) && Step(before, o, ttl, keys)
  }

  function Count(trace: seq<Op>, url: string, outcome: Outcome, from: int, to: int): nat {
    if trace == [] then 0
    else
      var o := trace[|trace| - 1];
      Count(trace[..|trace| - 1], url, outcome, from, to)
      + (if o.url == url && o.outcome == outcome && from <= o.at <= to then 1 else 0)
  }

  /** In a window shorter than the time to live a URL is new at most once; from then on its key lives to the end of
      the window. */
  lemma {:induction false} NewOncePerWindow(trace: seq<Op>, ttl: int, keys: Keys, now: int, url: string, from: int,
          to: int)
    requires ttl > 0 && Run(trace, ttl, keys, now) && to - from < ttl
    ensures Count(trace, url, New, from, to) <= 1
    ensures Count(trace, url, New, from, to) == 1 ==> url in keys && keys[url] > to
    decreases |trace|
  {
    if trace == [] {
    } else {
      var o := trace[|trace| - 1];
      var before: Keys :| RunStep(trace, ttl, before, keys);
      NewOncePerWindow(trace[..|trace| - 1], ttl, before, o.at, url, from, to);
    }
  }

  /** The checks that let their item through: new, or failed and therefore treated as new. */
  function Passed(trace: seq<Op>, url: string, from: int, to: int): nat {
    if trace == [] then 0
    else
      var o := trace[|trace| - 1];
      Passed(trace[..|trace| - 1], url, from, to)
      + (if o.url == url && !o.outcome.Duplicate? && from <= o.at <= to then 1 else 0)
  }

  lemma {:induction false} PassedSplits(trace: seq<Op>, url: string, from: int, to: int)
    ensures Passed(trace, url, from, to) == Count(trace, url, New, from, to) + Count(trace, url, Error, from, to)
  {
    if trace == [] {
    } else {
      PassedSplits(trace[..|trace| - 1], url, from, to);
    }
  }

  /** Some command on the URL at instant t was not answered as a duplicate, so it may have set the key. */
  predicate SetBefore(trace: seq<Op>, url: string, t: int) {
    exists i :: 0 <= i < |trace| && trace[i].url == url && trace[i].at == t && !trace[i].outcome.Duplicate?
  }

  lemma SetBeforeGrows(trace: seq<Op>, url: string, t: int)
    requires trace != []
    ensures SetBefore(trace, url, t) <==>
              SetBefore(trace[..|trace| - 1], url, t)
              || (trace[|trace| - 1].url == url && trace[|trace| - 1].at == t && !trace[|trace| - 1].outcome.Duplicate?)
  {
    var init := trace[..|trace| - 1];
    assert forall i :: 0 <= i < |init| ==> init[i] == trace[i];
  }

  lemma {:induction false} SetIsPassed(trace: seq<Op>, url: string, t: int, from: int, to: int)
    requires from <= t <= to && SetBefore(trace, url, t)
    ensures Passed(trace, url, from, to) > 0
    decreases |trace|
  {
    SetBeforeGrows(trace, url, t);
    if SetBefore(trace[..|trace| - 1], url, t) { SetIsPassed(trace[..|trace| - 1], url, t, from, to); }
  }

  /** Every key goes back to a command that was not a duplicate, one time to live before its expiry. */
  lemma {:induction false} KeysHaveCauses(trace: seq<Op>, ttl: int, keys: Keys, now: int, url: string)
    requires ttl > 0 && Run(trace, ttl, keys, now) && url in keys
    ensures SetBefore(trace, url, keys[url] - ttl) && keys[url] - ttl <= now
    decreases |trace|
  {
    if trace == [] {
    } else {
      var o := trace[|trace| - 1];
      var before: Keys :| RunStep(trace, ttl, before, keys);
      SetBeforeGrows(trace, url, keys[url] - ttl);
      if url in before { KeysHaveCauses(trace[..|trace| - 1], ttl, before, o.at, url); }
    }
  }

  /** A check passes at least once in the time to live up to every duplicate answer: what is filtered out was let
      through before. */
  lemma DuplicatesWereSeen(trace: seq<Op>, ttl: int, keys: Keys, now: int)
    requires ttl > 0 && trace != [] && Run(trace, ttl, keys, now) && trace[|trace| - 1].outcome.Duplicate?
    ensures var o := trace[|trace| - 1]; Passed(trace, o.url, o.at - ttl + 1, o.at) > 0
  {
    var o := trace[|trace| - 1];
    var before: Keys :| RunStep(trace, ttl, before, keys);
    KeysHaveCauses(trace[..|trace| - 1], ttl, before, o.at, o.url);
    SetBeforeGrows(trace, o.url, before[o.url] - ttl);
    SetIsPassed(trace, o.url, before[o.url] - ttl, o.at - ttl + 1, o.at);
  }

  /** In a window shorter than the time to live, a URL is let through at most once, plus once for every error. */
  lemma PassedPerWindow(trace: seq<Op>, ttl: int, keys: Keys, now: int, url: string, from: int, to: int)
    requires ttl > 0 && Run(trace, ttl, keys, now) && to - from < ttl
    ensures Passed(trace, url, from, to) <= 1 + Count(trace, url, Error, from, to)
  {
    NewOncePerWindow(trace, ttl, keys, now, url, from, to);
    PassedSplits(trace, url, from, to);
  }

  // ---------- The store and the filter ----------

  datatype Item = Item(url: string, id: string)

  /** A command is answered, fails without effect, or takes effect and loses its answer. */
  datatype Fault = Fine | NoEffect | LostReply

  /** A check fails exactly when its command does. */
  predicate FaultsShow(items: seq<Item>, ops: seq<Op>, faults: seq<Fault>)
    requires |faults| == |items|
    decreases |items|
  {
    if items == [] then true
    else
      var n := |items| - 1;
      if items[n].url == "" then FaultsShow(items[..n], ops, faults[..n])
      else
        ops != [] && (ops[|ops| - 1].outcome.Error? <==> !faults[n].Fine?) &&
          FaultsShow(items[..n], ops[..|ops| - 1], faults[..n])
  }

  class DedupStore {
    const ttl: int
    var keys: Keys
    var now: int
    ghost var trace: seq<Op>

    ghost predicate Valid()
      reads this
    {
      ttl > 0 && Run(trace, ttl, keys, now)
    }

    constructor (ttl: int)
      requires ttl > 0
      ensures Valid() && trace == [] && this.ttl == ttl
    {
      this.ttl := ttl;
      keys, now, trace := map[], 0, [];
    }

    /** Time passes. */
    method Wait(instant: int)
      requires Valid() && now <= instant
      modifies this`now
      ensures Valid() && now == instant
    {
      LaterIsFine(trace, ttl, keys, now, instant);
      now := instant;
    }

    /** Time passes and other workers make their own checks; callers know no more than the contract. */
    method OthersRun()
      requires Valid()
      modifies this
      ensures Valid() && old(trace) <= trace && old(now) <= now
    {
      var checks: nat :| true;
      while checks > 0
        invariant Valid() && old(trace) <= trace && old(now) <= now
      {
        var instant: int :| now <= instant;
        Wait(instant);
        var url: string, fault: Fault := *, *;
        var isNew, failed := IsNewURL(url, fault);
        checks := checks - 1;
      }
    }

    ghost method Record(o: Op, before: Keys)
      requires ttl > 0 && Run(trace, ttl, before, now) && o.at == now && Step(before, o, ttl, keys)
      modifies this`trace
      ensures Valid() && trace == old(trace) + [o]
    {
      RunGrows(trace, ttl, before, now, o, keys);
      trace := trace + [o];
    }

    /** The command; on an error the news is to be treated as new. */
    method IsNewURL(url: string, fault: Fault) returns (isNew: bool, failed: bool)
      requires Valid()
      modifies this`keys, this`trace
      ensures Valid() && failed == !fault.Fine?
      ensures trace == old(trace) + [Op(url, now, if failed then Error else if isNew then New else Duplicate)]
      ensures failed ==> isNew
    {
      ghost var before := keys;
      failed := !fault.Fine?;
      isNew := failed || !Live(keys, url, now);
      if !fault.NoEffect? { keys := SetIfAbsent(keys, url, now, ttl); }
      Record(Op(url, now, if failed then Error else if isNew then New else Duplicate), before);
    }

    /** One item of the filter, while other workers run. */
    method CheckItem(url: string, fault: Fault) returns (keep: bool, ghost o: Op)
      requires Valid()
      modifies this
      ensures Valid() && |old(trace)| < |trace| && old(trace) <= trace
      ensures o == trace[|trace| - 1] && o.url == url && (o.outcome.Error? <==> !fault.Fine?)
      ensures keep <==> !o.outcome.Duplicate?
    {
      OthersRun();
      var isNew, failed := IsNewURL(url, fault);
      if failed {
        keep := true;
      } else {
        keep := isNew;
      }
      o := trace[|trace| - 1];
    }

    /** Keeps the items whose check passed, in order; items without a URL are not checked. */
    method FilterDuplicates(items: seq<Item>, normalize: string -> string, faults: seq<Fault>)
      returns (kept: seq<Item>, ghost ops: seq<Op>)
      requires Valid() && |faults| == |items|
      modifies this
      ensures Valid() && old(trace) <= trace
      ensures Asked(items, ops, normalize) && kept == Kept(items, ops)
      ensures IsSubsequence(ops, trace[|old(trace)|..])
      ensures FaultsShow(items, ops, faults)
    {
      kept, ops := [], [];
      for i := 0 to |items|
        invariant Valid() && old(trace) <= trace
        invariant Asked(items[..i], ops, normalize) && kept == Kept(items[..i], ops)
        invariant IsSubsequence(ops, trace[|old(trace)|..])
        invariant FaultsShow(items[..i], ops, faults[..i])
      {
        var item := items[i];
        assert items[..i + 1][..i] == items[..i] && faults[..i + 1][..i] == faults[..i];
        if item.url == "" {
          kept := kept + [item];
        } else {
          ghost var seen := trace;
          var keep, o := CheckItem(normalize(item.url), faults[i]);
          Extend(ops, seen[|old(trace)|..], trace[|old(trace)|..], o);
          assert (ops + [o])[..|ops|] == ops;
          ops := ops + [o];
          if keep { kept := kept + [item]; }
        }
      }
      assert items[..|items|] == items && faults[..|faults|] == faults;
    }
  }

  lemma RunGrows(trace: seq<Op>, ttl: int, keys: Keys, now: int, o: Op, keys': Keys)
    requires Run(trace, ttl, keys, now) && o.at == now && Step(keys, o, ttl, keys')
    ensures Run(trace + [o], ttl, keys', now)
  {
    var longer := trace + [o];
    assert longer[..|longer| - 1] == trace;
    assert RunStep(longer, ttl, keys, keys');
  }

  lemma LaterIsFine(trace: seq<Op>, ttl: int, keys: Keys, now: int, later: int)
    requires Run(trace, ttl, keys, now) && now <= later
    ensures Run(trace, ttl, keys, later)
  {}

  /** One check for every item that has a URL, in order, on its normalised URL. */
  predicate Asked(items: seq<Item>, ops: seq<Op>, normalize: string -> string)
    decreases |items|
  {
    if items == [] then ops == []
    else
      var x, init := items[|items| - 1], items[..|items| - 1];
      if x.url == "" then Asked(init, ops, normalize)
      else ops != [] && ops[|ops| - 1].url == normalize(x.url) && Asked(init, ops[..|ops| - 1], normalize)
  }

  /** The items without a URL and those whose check was not a duplicate, in order. */
  function Kept(items: seq<Item>, ops: seq<Op>): seq<Item>
    decreases |items|
  {
    if items == [] then []
    else
      var x := items[|items| - 1];
      if x.url == "" then Kept(items[..|items| - 1], ops) + [x]
      else if ops == [] then []
      else Kept(items[..|items| - 1], ops[..|ops| - 1]) + (if ops[|ops| - 1].outcome.Duplicate? then [] else [x])
  }

  ghost predicate IsSubsequence<T(!new)>(a: seq<T>, b: seq<T>)
    decreases |b|
  {
    a == [] || (b != [] && (IsSubsequence(a, b[..|b| - 1]) ||
      (a[|a| - 1] == b[|b| - 1] && IsSubsequence(a[..|a| - 1], b[..|b| - 1]))))
  }

  lemma {:induction false} SubsequenceGrows<T(!new)>(a: seq<T>, b: seq<T>, c: seq<T>)
    requires IsSubsequence(a, b)
    ensures IsSubsequence(a, b + c)
    decreases |c|
  {
    if c == [] {
      assert b + c == b;
    } else {
      SubsequenceGrows(a, b, c[..|c| - 1]);
      assert (b + c)[..|b + c| - 1] == b + c[..|c| - 1];
    }
  }

  lemma SubsequenceSnoc<T(!new)>(a: seq<T>, b: seq<T>, x: T)
    requires IsSubsequence(a, b)
    ensures IsSubsequence(a + [x], b + [x])
  {
    assert (a + [x])[..|a|] == a && (b + [x])[..|b|] == b;
  }

  /** What the filter returns is an order-preserving subsequence of its input. */
  /** How many of the first n items are checked; the check of item n has that number. */
  function Checks(items: seq<Item>, n: nat): nat
    requires n <= |items|
  {
    if n == 0 then 0 else Checks(items, n - 1) + if items[n - 1].url == "" then 0 else 1
  }

  lemma {:induction false} SameChecks(init: seq<Item>, x: Item, i: nat)
    requires i <= |init|
    ensures Checks(init + [x], i) == Checks(init, i)
  {
    if i == 0 {
    } else {
      SameChecks(init, x, i - 1);
    }
  }

  lemma {:induction false} ChecksGrow(items: seq<Item>, i: nat, n: nat)
    requires i < n <= |items|
    ensures Checks(items, i + 1) <= Checks(items, n)
    decreases n
  {
    if i + 1 < n { ChecksGrow(items, i, n - 1); }
  }

  /** The item has no URL, or its check did not answer duplicate. */
  predicate Stays(items: seq<Item>, i: nat, ops: seq<Op>)
    requires i < |items|
  {
    items[i].url == "" || (Checks(items, i) < |ops| && !ops[Checks(items, i)].outcome.Duplicate?)
  }

  lemma StaysAsBefore(init: seq<Item>, x: Item, before: seq<Op>, ops: seq<Op>, i: nat)
    requires i < |init| && |before| == Checks(init, |init|) && before <= ops
    ensures Stays(init + [x], i, ops) <==> Stays(init, i, before)
  {
    SameChecks(init, x, i);
    ChecksGrow(init, i, |init|);
  }

  predicate Increasing(at: seq<nat>) { forall j, k :: 0 <= j < k < |at| ==> at[j] < at[k] }

  /** These are the positions of all items that stay. */
  ghost predicate AreStaying(items: seq<Item>, ops: seq<Op>, at: seq<nat>) {
    forall i: nat :: i in at <==> i < |items| && Stays(items, i, ops)
  }

  lemma OneMoreStays(init: seq<Item>, x: Item, before: seq<Op>, ops: seq<Op>, at: seq<nat>)
    requires |before| == Checks(init, |init|) && before <= ops && AreStaying(init, before, at)
    ensures AreStaying(init + [x], ops, if Stays(init + [x], |init|, ops) then at + [|init|] else at)
  {
    var n, stays := |init|, Stays(init + [x], |init|, ops);
    var next := if stays then at + [n] else at;
    forall i: nat ensures i in next <==> i < n + 1 && Stays(init + [x], i, ops) {
      if i < n { StaysAsBefore(init, x, before, ops, i); }
      assert i in next <==> i in at || (stays && i == n);
    }
  }

  /** The kept items stand at these positions, in order. */
  ghost predicate StandAt(kept: seq<Item>, items: seq<Item>, at: seq<nat>) {
    |at| == |kept| && Increasing(at) && forall k :: 0 <= k < |at| ==> at[k] < |items| && kept[k] == items[at[k]]
  }

  lemma OneMoreStands(kept: seq<Item>, init: seq<Item>, x: Item, at: seq<nat>)
    requires StandAt(kept, init, at)
    ensures StandAt(kept, init + [x], at) && StandAt(kept + [x], init + [x], at + [|init|])
  {}

  lemma OneMoreKept(init: seq<Item>, x: Item, ops: seq<Op>)
    requires x.url == "" || ops != []
    ensures var before := if x.url == "" then ops else ops[..|ops| - 1];
            Kept(init + [x], ops) ==
            if x.url == "" || !ops[|ops| - 1].outcome.Duplicate? then Kept(init, before) + [x] else Kept(init, before)
  {
    assert (init + [x])[..|init|] == init;
  }

  /** Kept are exactly the items without a URL and those whose own check did not answer duplicate, in their order. */
  lemma {:induction false} KeptStandAt(items: seq<Item>, ops: seq<Op>, normalize: string -> string)
    returns (at: seq<nat>)
    requires Asked(items, ops, normalize)
    ensures |ops| == Checks(items, |items|) && StandAt(Kept(items, ops), items, at) && AreStaying(items, ops, at)
    decreases |items|
  {
    if items == [] {
      at := [];
    } else {
      var init, x := items[..|items| - 1], items[|items| - 1];
      var before := if x.url == "" then ops else ops[..|ops| - 1];
      assert items == init + [x];
      at := KeptStandAt(init, before, normalize);
      SameChecks(init, x, |init|);
      OneMoreKept(init, x, ops);
      OneMoreStays(init, x, before, ops, at);
      OneMoreStands(Kept(init, before), init, x, at);
      if Stays(items, |init|, ops) { at := at + [|init|]; }
    }
  }

  lemma {:induction false} KeptIsSubsequence(items: seq<Item>, ops: seq<Op>)
    ensures IsSubsequence(Kept(items, ops), items)
    decreases |items|
  {
    if items == [] {
    } else {
      var x, init := items[|items| - 1], items[..|items| - 1];
      assert items == init + [x];
      if x.url == "" {
        KeptIsSubsequence(init, ops);
        SubsequenceSnoc(Kept(init, ops), init, x);
      } else if ops != [] {
        var k := Kept(init, ops[..|ops| - 1]);
        KeptIsSubsequence(init, ops[..|ops| - 1]);
        SubsequenceSnoc(k, init, x);
        SubsequenceGrows(k, init, [x]);
        assert k + [] == k;
      }
    }
  }

  /** A later check comes after the earlier ones, whatever other workers did in between. */
  lemma Extend<T(!new)>(a: seq<T>, b: seq<T>, c: seq<T>, x: T)
    requires IsSubsequence(a, b) && |b| < |c| && b <= c && c[|c| - 1] == x
    ensures IsSubsequence(a + [x], c)
  {
    var between := c[|b|..|c| - 1];
    SubsequenceGrows(a, b, between);
    SubsequenceSnoc(a, b + between, x);
    assert c == (b + between) + [x];
  }

  /** The items with a URL whose normal form is the given one. */
  function Matching(items: seq<Item>, url: string, normalize: string -> string): nat {
    if items == [] then 0
    else
      var x := items[|items| - 1];
      Matching(items[..|items| - 1], url, normalize) + (if x.url != "" && normalize(x.url) == url then 1 else 0)
  }

  predicate AllWithin(ops: seq<Op>, from: int, to: int) { forall i :: 0 <= i < |ops| ==> from <= ops[i].at <= to }

  lemma {:induction false} KeptAreThePasses(items: seq<Item>, ops: seq<Op>, normalize: string -> string, url: string,
          from: int, to: int)
    requires Asked(items, ops, normalize) && AllWithin(ops, from, to)
    ensures Matching(Kept(items, ops), url, normalize) == Passed(ops, url, from, to)
    decreases |items|
  {
    if items == [] {
    } else {
      var x, init := items[|items| - 1], items[..|items| - 1];
      if x.url == "" {
        KeptAreThePasses(init, ops, normalize, url, from, to);
        assert (Kept(init, ops) + [x])[..|Kept(init, ops)|] == Kept(init, ops);
      } else {
        var rest := ops[..|ops| - 1];
        KeptAreThePasses(init, rest, normalize, url, from, to);
        assert (Kept(init, rest) + [x])[..|Kept(init, rest)|] == Kept(init, rest);
        assert Kept(init, rest) + [] == Kept(init, rest);
      }
    }
  }

  lemma {:induction false} SubsequencePasses(a: seq<Op>, b: seq<Op>, url: string, from: int, to: int)
    requires IsSubsequence(a, b)
    ensures Passed(a, url, from, to) <= Passed(b, url, from, to)
    decreases |b|
  {
    if a == [] {
    } else {
      if IsSubsequence(a, b[..|b| - 1]) {
        SubsequencePasses(a, b[..|b| - 1], url, from, to);
      } else {
        SubsequencePasses(a[..|a| - 1], b[..|b| - 1], url, from, to);
      }
    }
  }

  lemma {:induction false} PassedAdds(a: seq<Op>, b: seq<Op>, url: string, from: int, to: int)
    ensures Passed(a + b, url, from, to) == Passed(a, url, from, to) + Passed(b, url, from, to)
    decreases |b|
  {
    if b == [] {
      assert a + b == a;
    } else {
      PassedAdds(a, b[..|b| - 1], url, from, to);
      assert (a + b)[..|a + b| - 1] == a + b[..|b| - 1];
    }
  }

  /** One call of the filter whose checks fall in such a window keeps a URL at most once, plus once for every error. */
  lemma KeptPerWindow(items: seq<Item>, ops: seq<Op>, normalize: string -> string, earlier: seq<Op>, during: seq<Op>,
                      ttl: int, keys: Keys, now: int, url: string, from: int, to: int)
    requires ttl > 0 && Run(earlier + during, ttl, keys, now) && to - from < ttl
    requires Asked(items, ops, normalize) && IsSubsequence(ops, during) && AllWithin(ops, from, to)
    ensures Matching(Kept(items, ops), url, normalize) <= 1 + Count(earlier + during, url, Error, from, to)
  {
    KeptAreThePasses(items, ops, normalize, url, from, to);
    SubsequencePasses(ops, during, url, from, to);
    PassedAdds(earlier, during, url, from, to);
    PassedPerWindow(earlier + during, ttl, keys, now, url, from, to);
  }
}
