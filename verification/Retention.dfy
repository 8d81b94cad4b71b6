/** Deletion of old news texts from the object store: paginated listing, the date in the key, batches of at most
    1000. */
module Retention {
  import opened Calendar
  import opened NewsKeys
  import opened Options
  import opened Paths

  const BATCH_SIZE := 1000

  // ---------- What is listed, and what of it is old ----------

  /** One answer to a listing request. Objects without a key are skipped. */
  datatype Page = Failed | Page(keys: seq<Option<string>>, truncated: Option<bool>, hasNext: bool) {
    predicate Ends() { Failed? || truncated.None? || !truncated.value || !hasNext }
  }

  /** The store ends its listing at some page. */
  predicate Finite(pages: seq<Page>) { pages != [] && (pages[0].Ends() || Finite(pages[1..])) }

  function KeysOf(objects: seq<Option<string>>): seq<string> {
    if objects == [] then []
    else
      KeysOf(objects[..|objects| - 1])
      + (if objects[|objects| - 1].None? then [] else [objects[|objects| - 1].value])
  }

  /** All keys listed, in order; none if a page could not be read. */
  function Listing(pages: seq<Page>): Option<seq<string>>
    requires Finite(pages)
  {
    if pages[0].Failed? then None
    else if pages[0].Ends() then Some(KeysOf(pages[0].keys))
    else
      var rest := Listing(pages[1..]);
      if rest.None? then None else Some(KeysOf(pages[0].keys) + rest.value)
  }

  // ---------- The same, said of the pages themselves ----------

  predicate IsTruncated(page: Page) { page.Page? && page.truncated == Some(true) && page.hasNext }

  /** n truncated pages and one that is not. */
  predicate IsRun(pages: seq<Page>, n: nat) {
    n < |pages| && !IsTruncated(pages[n]) && forall k :: 0 <= k < n ==> IsTruncated(pages[k])
  }

  function Gather(pages: seq<Page>): seq<string> {
    if pages == [] then [] else (if pages[0].Failed? then [] else KeysOf(pages[0].keys)) + Gather(pages[1..])
  }

  lemma {:induction false} FiniteIff(pages: seq<Page>)
    ensures Finite(pages) <==> exists n: nat :: IsRun(pages, n)
  {
    if pages == [] {
    } else {
      FiniteIff(pages[1..]);
      if exists n: nat :: IsRun(pages[1..], n) {
        var n: nat :| IsRun(pages[1..], n);
        assert IsTruncated(pages[0]) ==> IsRun(pages, n + 1);
      }
      assert !IsTruncated(pages[0]) ==> IsRun(pages, 0);
      forall n: nat | n > 0 && IsRun(pages, n) ensures IsRun(pages[1..], n - 1) {
        assert forall k :: 0 <= k < n - 1 ==> pages[1..][k] == pages[k + 1];
      }
    }
  }

  /** The listing goes through the truncated pages to the first that is not, and that page decides. */
  lemma {:induction false} ListingIs(pages: seq<Page>, n: nat)
    requires IsRun(pages, n)
    ensures Finite(pages)
    ensures Listing(pages) == if pages[n].Failed? then None else Some(Gather(pages[..n + 1]))
  {
    if n == 0 {
      assert pages[..1] == [pages[0]] && [pages[0]][1..] == [];
      assert pages[0].Page? ==> KeysOf(pages[0].keys) + [] == KeysOf(pages[0].keys);
    } else {
      var rest := pages[1..];
      assert IsTruncated(pages[0]);
      assert forall k :: 0 <= k < n ==> rest[k] == pages[k + 1];
      ListingIs(rest, n - 1);
      assert pages[..n + 1][1..] == rest[..n];
    }
  }

  lemma {:induction false} KeysOfIff(objects: seq<Option<string>>, key: string)
    ensures key in KeysOf(objects) <==> Some(key) in objects
  {
    if objects == [] {
    } else {
      KeysOfIff(objects[..|objects| - 1], key);
      assert objects == objects[..|objects| - 1] + [objects[|objects| - 1]];
    }
  }

  /** Gathered are the keys of the objects on the pages. */
  lemma {:induction false} GatheredAre(pages: seq<Page>, key: string)
    ensures key in Gather(pages) <==> exists page :: page in pages && page.Page? && Some(key) in page.keys
  {
    if pages == [] {
    } else {
      GatheredAre(pages[1..], key);
      if pages[0].Page? { KeysOfIff(pages[0].keys, key); }
      assert pages == [pages[0]] + pages[1..];
    }
  }

  predicate IsOld(key: string, prefix: string, cutoff: int) {
    var date := ParseDateFromKey(key, prefix);
    date.Some? && date.value < cutoff
  }

  function Old(keys: seq<string>, prefix: string, cutoff: int): seq<string> {
    if keys == [] then []
    else
      Old(keys[..|keys| - 1], prefix, cutoff)
      + (if IsOld(keys[|keys| - 1], prefix, cutoff) then [keys[|keys| - 1]] else [])
  }

  lemma {:induction false} OldAdds(a: seq<string>, b: seq<string>, prefix: string, cutoff: int)
    ensures Old(a + b, prefix, cutoff) == Old(a, prefix, cutoff) + Old(b, prefix, cutoff)
    decreases |b|
  {
    if b == [] {
      assert a + b == a;
    } else {
      var init, last := b[..|b| - 1], b[|b| - 1];
      OldAdds(a, init, prefix, cutoff);
      assert b == init + [last];
      OldAddsOne(a, init, last, prefix, cutoff);
    }
  }

  lemma OldAddsOne(a: seq<string>, b: seq<string>, key: string, prefix: string, cutoff: int)
    requires Old(a + b, prefix, cutoff) == Old(a, prefix, cutoff) + Old(b, prefix, cutoff)
    ensures Old(a + (b + [key]), prefix, cutoff) == Old(a, prefix, cutoff) + Old(b + [key], prefix, cutoff)
  {
    RegroupKeys(a, b, [key]);
    OldSnoc(a + b, key, prefix, cutoff);
    OldSnoc(b, key, prefix, cutoff);
    RegroupKeys(Old(a, prefix, cutoff), Old(b, prefix, cutoff), [key]);
  }

  lemma RegroupKeys(a: seq<string>, b: seq<string>, c: seq<string>)
    ensures a + (b + c) == (a + b) + c
  {}

  lemma OldSnoc(keys: seq<string>, key: string, prefix: string, cutoff: int)
    ensures Old(keys + [key], prefix, cutoff) ==
            if IsOld(key, prefix, cutoff) then Old(keys, prefix, cutoff) + [key] else Old(keys, prefix, cutoff)
  {
    assert (keys + [key])[..|keys|] == keys;
  }

  lemma {:induction false} OldIff(keys: seq<string>, prefix: string, cutoff: int, key: string)
    ensures key in Old(keys, prefix, cutoff) <==> key in keys && IsOld(key, prefix, cutoff)
  {
    if keys == [] {
    } else {
      OldIff(keys[..|keys| - 1], prefix, cutoff, key);
      assert keys == keys[..|keys| - 1] + [keys[|keys| - 1]];
    }
  }

  function Elements(keys: seq<string>): set<string> { set k | k in keys }

  function Concat(batches: seq<seq<string>>): seq<string> {
    if batches == [] then [] else Concat(batches[..|batches| - 1]) + batches[|batches| - 1]
  }

  /** What a run of batches does to the store: before and after, the batches sent, the total returned, and success.
      The batches cut the keys into pieces of 1000, the last possibly shorter; on an error the total counts
      the batches before the failing one, and nothing outside the batches sent is touched. */
  ghost predicate DeletedInBatches(keys: seq<string>, before: set<string>, after: set<string>, sent: seq<seq<string>>,
                                   deleted: nat, ok: bool)
  {
    && (forall i :: 0 <= i < |sent| ==> 1 <= |sent[i]| <= BATCH_SIZE && (i < |sent| - 1 ==> |sent[i]| == BATCH_SIZE))
    && deleted <= |keys|
    && (ok ==> deleted == |keys| && Concat(sent) == keys)
    && (!ok ==> sent != [] && deleted < |keys| && Concat(sent) <= keys && Concat(sent[..|sent| - 1]) == keys[..deleted])
    && before - Elements(Concat(sent)) <= after <= before - Elements(keys[..deleted])
  }

  class Bucket {
    var objects: set<string>
    ghost var requests: seq<seq<string>>
    ghost var answers: seq<bool>    // whether each request was answered without an error

    constructor (objects: set<string>)
      ensures this.objects == objects && requests == [] && answers == []
    {
      this.objects, requests, answers := objects, [], [];
    }

    /** One request of the store's API. A call that fails, or that reports errors for some keys, may have deleted any
        of them. */
    method DeleteObjects(batch: seq<string>) returns (failed: bool, errors: nat)
      modifies this
      ensures requests == old(requests) + [batch] && answers == old(answers) + [!failed && errors == 0]
      ensures old(objects) - Elements(batch) <= objects <= old(objects)
      ensures !failed && errors == 0 ==> objects == old(objects) - Elements(batch)
    {
      failed := *;
      errors :| 0 <= errors;
      var kept: set<string> :| kept <= objects;
      objects := objects - Elements(batch) + (if failed || errors > 0 then kept else {});
      requests, answers := requests + [batch], answers + [!failed && errors == 0];
    }
  }

  lemma ElementsAdd(a: seq<string>, b: seq<string>)
    ensures Elements(a + b) == Elements(a) + Elements(b)
  {}

  /** Batches of full size have been sent and answered for the first total keys. */
  ghost predicate Progress(keys: seq<string>, before: set<string>, objects: set<string>, sent: seq<seq<string>>,
          total: nat, i: nat)
  {
    && total == (if i < |keys| then i else |keys|)
    && (forall k :: 0 <= k < |sent| ==>
         1 <= |sent[k]| <= BATCH_SIZE && (k < |sent| - 1 || i < |keys| ==> |sent[k]| == BATCH_SIZE))
    && Concat(sent) == keys[..total]
    && objects == before - Elements(keys[..total])
  }

  lemma NextBatch(keys: seq<string>, before: set<string>, objects: set<string>, sent: seq<seq<string>>, i: nat,
          after: set<string>)
    requires i < |keys| && Progress(keys, before, objects, sent, i, i)
    ensures var end := if i + BATCH_SIZE < |keys| then i + BATCH_SIZE else |keys|;
            var batch := keys[i..end];
            && (objects - Elements(batch) <= after <= objects ==>
                 DeletedInBatches(keys, before, after, sent + [batch], i, false))
            && (after == objects - Elements(batch) ==>
                 Progress(keys, before, after, sent + [batch], end, i + BATCH_SIZE))
  {
    var end := if i + BATCH_SIZE < |keys| then i + BATCH_SIZE else |keys|;
    var batch := keys[i..end];
    assert keys[..end] == keys[..i] + batch;
    ElementsAdd(keys[..i], batch);
    assert (sent + [batch])[..|sent|] == sent;
    assert Concat(sent + [batch]) == keys[..end];
  }

  lemma AllBatches(keys: seq<string>, before: set<string>, objects: set<string>, sent: seq<seq<string>>, total: nat,
          i: nat)
    requires i >= |keys| && Progress(keys, before, objects, sent, total, i)
    ensures DeletedInBatches(keys, before, objects, sent, total, true)
  {
    assert keys[..|keys|] == keys;
  }

  /** Deletes the keys in batches and stops at the first that fails. */
  method DeleteObjects(bucket: Bucket, keys: seq<string>) returns (totalDeleted: nat, ok: bool)
    modifies bucket
    ensures old(bucket.requests) <= bucket.requests
    ensures DeletedInBatches(keys, old(bucket.objects), bucket.objects, bucket.requests[|old(bucket.requests)|..],
        totalDeleted, ok)
    // It succeeds unless a request does not.
    ensures old(bucket.answers) <= bucket.answers && (ok <==> false !in bucket.answers[|old(bucket.answers)|..])
  {
    totalDeleted := 0;
    var i := 0;
    ghost var sent: seq<seq<string>> := [];
    assert keys[..0] == [];
    while i < |keys|
      invariant Progress(keys, old(bucket.objects), bucket.objects, sent, totalDeleted, i)
      invariant bucket.requests == old(bucket.requests) + sent
      invariant old(bucket.answers) <= bucket.answers && false !in bucket.answers[|old(bucket.answers)|..]
    {
      var end := if i + BATCH_SIZE < |keys| then i + BATCH_SIZE else |keys|;
      var batch := keys[i..end];
      ghost var objects := bucket.objects;
      var failed, errors := bucket.DeleteObjects(batch);
      NextBatch(keys, old(bucket.objects), objects, sent, i, bucket.objects);
      sent := sent + [batch];
      assert bucket.requests[|old(bucket.requests)|..] == sent;
      assert bucket.answers[|old(bucket.answers)|..][|bucket.answers| - |old(bucket.answers)| - 1]
          == (!failed && errors == 0);
      if failed {
        return totalDeleted, false;
      }
      if errors > 0 {
        return totalDeleted, false;
      }
      totalDeleted := totalDeleted + |batch|;
      i := i + BATCH_SIZE;
    }
    AllBatches(keys, old(bucket.objects), bucket.objects, sent, totalDeleted, i);
    assert bucket.requests[|old(bucket.requests)|..] == sent;
    ok := true;
  }

  function Cutoff(olderThan: int): int { DAY * DayOf(olderThan) }

  /** Pages before p have been read, with the keys given; the listing goes on at page p. */
  ghost predicate Gathered(pages: seq<Page>, p: nat, listed: seq<string>)
    requires Finite(pages)
  {
    && p < |pages| && Finite(pages[p..])
    && Listing(pages) == (match Listing(pages[p..]) case None => None case Some(rest) => Some(listed + rest))
  }

  lemma FirstPage(pages: seq<Page>)
    requires Finite(pages)
    ensures Gathered(pages, 0, [])
  {
    assert pages[0..] == pages;
    assert Listing(pages).Some? ==> [] + Listing(pages).value == Listing(pages).value;
  }

  lemma NextPage(pages: seq<Page>, p: nat, listed: seq<string>)
    requires Finite(pages) && Gathered(pages, p, listed)
    ensures pages[p].Failed? ==> Listing(pages) == None
    ensures !pages[p].Failed? && pages[p].Ends() ==> Listing(pages) == Some(listed + KeysOf(pages[p].keys))
    ensures !pages[p].Failed? && !pages[p].Ends() ==> Gathered(pages, p + 1, listed + KeysOf(pages[p].keys))
  {
    var here := pages[p..];
    assert here[0] == pages[p] && here[1..] == pages[p + 1..];
    if !pages[p].Ends() {
      var rest := Listing(pages[p + 1..]);
      assert rest.Some? ==>
          listed + (KeysOf(pages[p].keys) + rest.value) == (listed + KeysOf(pages[p].keys)) + rest.value;
    }
  }

  /** Reads the whole listing, and picks the keys dated before the cutoff. */
  method ListOld(prefix: string, cutoff: int, pages: seq<Page>) returns (toDelete: seq<string>, ok: bool)
    requires Finite(pages)
    ensures ok <==> Listing(pages).Some?
    ensures ok ==> toDelete == Old(Listing(pages).value, prefix, cutoff)
  {
    toDelete, ok := [], true;
    ghost var listed: seq<string> := [];
    var p := 0;
    FirstPage(pages);
    while true
      invariant Gathered(pages, p, listed) && toDelete == Old(listed, prefix, cutoff) && ok
      decreases |pages| - p
    {
      var out := pages[p];
      NextPage(pages, p, listed);
      if out.Failed? {
        return [], false;
      }
      var found := SelectOld(out.keys, prefix, cutoff);
      OldAdds(listed, KeysOf(out.keys), prefix, cutoff);
      toDelete := toDelete + found;
      listed := listed + KeysOf(out.keys);
      if out.truncated.None? || !out.truncated.value || !out.hasNext {
        break;
      }
      p := p + 1;
    }
  }

  /** Reads the whole listing, then deletes the keys dated before the day of olderThan. */
  method ListAndDeleteOld(bucket: Bucket, prefix: string, olderThan: int, pages: seq<Page>)
    returns (deleted: nat, ok: bool)
    requires Finite(pages)
    modifies bucket
    ensures old(bucket.requests) <= bucket.requests
    ensures Listing(pages).None? ==>
        deleted == 0 && !ok && bucket.objects == old(bucket.objects) && bucket.requests == old(bucket.requests)
    ensures Listing(pages).Some? ==>
              DeletedInBatches(Old(Listing(pages).value, prefix, Cutoff(olderThan)),
                               old(bucket.objects), bucket.objects, bucket.requests[|old(bucket.requests)|..],
                                 deleted, ok)
    ensures old(bucket.answers) <= bucket.answers
    ensures ok <==> Listing(pages).Some? && false !in bucket.answers[|old(bucket.answers)|..]
  {
    var cutoff := olderThan - olderThan % DAY;
    assert cutoff == Cutoff(olderThan);
    var toDelete;
    toDelete, ok := ListOld(prefix, cutoff, pages);
    if !ok {
      return 0, false;
    }
    if |toDelete| == 0 {
      assert bucket.requests[|old(bucket.requests)|..] == [] && toDelete[..0] == [];
      return 0, true;
    }
    deleted, ok := DeleteObjects(bucket, toDelete);
  }

  lemma NextObject(contents: seq<Option<string>>, i: nat, prefix: string, cutoff: int)
    requires i < |contents|
    ensures Old(KeysOf(contents[..i + 1]), prefix, cutoff) ==
              Old(KeysOf(contents[..i]), prefix, cutoff)
              + if contents[i].Some? && IsOld(contents[i].value, prefix, cutoff) then [contents[i].value] else []
  {
    assert contents[..i + 1][..i] == contents[..i];
    var seen := KeysOf(contents[..i]);
    if contents[i].Some? {
      assert (seen + [contents[i].value])[..|seen|] == seen;
    } else {
      assert seen + [] == seen;
    }
  }

  method SelectOld(contents: seq<Option<string>>, prefix: string, cutoff: int) returns (found: seq<string>)
    ensures found == Old(KeysOf(contents), prefix, cutoff)
  {
    found := [];
    for i := 0 to |contents|
      invariant found == Old(KeysOf(contents[..i]), prefix, cutoff)
    {
      NextObject(contents, i, prefix, cutoff);
      if contents[i].Some? {
        var date := ParseDateFromKey(contents[i].value, prefix);
        if date.Some? {
          if date.value < cutoff { found := found + [contents[i].value]; }
        }
      }
    }
    assert contents[..|contents|] == contents;
  }

  // ---------- What survives ----------

  /** A text is dated before the cutoff exactly when its day is. */
  lemma OldNewsIff(prefix: string, id: string, t: int, olderThan: int)
    requires SlashFree(id) && Tidy(prefix)
    ensures IsOld(BuildNewsTextKey(prefix, id, t), prefix, Cutoff(olderThan)) <==>
              0 <= DateOf(DayOf(t)).year <= 9999 && DayOf(t) < DayOf(olderThan)
  {
    RoundTrip(prefix, id, t);
  }

  lemma PrefixElements(a: seq<string>, b: seq<string>)
    requires a <= b
    ensures Elements(a) <= Elements(b)
  {
    assert b == a + b[|a|..];
    ElementsAdd(a, b[|a|..]);
  }

  /** Only old keys go, whatever fails; and on success all old keys that were listed are gone. */
  lemma OnlyOldKeysGo(keys: seq<string>, prefix: string, cutoff: int, before: set<string>, after: set<string>,
                      sent: seq<seq<string>>, deleted: nat, ok: bool, key: string)
    requires DeletedInBatches(Old(keys, prefix, cutoff), before, after, sent, deleted, ok)
    ensures after <= before
    ensures key in before && !IsOld(key, prefix, cutoff) ==> key in after
    ensures ok && key in keys && IsOld(key, prefix, cutoff) ==> key !in after
  {
    var aged := Old(keys, prefix, cutoff);
    OldIff(keys, prefix, cutoff, key);
    PrefixElements(Concat(sent), aged);
    if ok { assert aged[..deleted] == aged; }
  }

  /** The listing shows every object whose key starts with the prefix. */
  ghost predicate Complete(pages: seq<Page>, objects: set<string>, prefix: string)
    requires Finite(pages)
  {
    Listing(pages).Some? && forall k :: k in objects && prefix <= k ==> k in Listing(pages).value
  }

  class S3Cleaner {
    const prefix: string
    const retentionDays: int

    constructor (prefix: string, retentionDays: int)
      ensures this.prefix == prefix && this.retentionDays == retentionDays
    {
      this.prefix, this.retentionDays := prefix, retentionDays;
    }

    /** One cleaning: never a text of the last N days; on success with a complete listing, every listed text
        of a four-digit year whose day is more than N days back. Keys that name no date stay. */
    method RunOnce(bucket: Bucket, now: int, pages: seq<Page>) returns (ok: bool)
      requires Finite(pages)
      modifies bucket
      ensures old(bucket.answers) <= bucket.answers
      ensures ok <==> Listing(pages).Some? && false !in bucket.answers[|old(bucket.answers)|..]
      ensures bucket.objects <= old(bucket.objects)
      ensures forall k :: k in old(bucket.objects) && ParseDateFromKey(k, prefix).None? ==> k in bucket.objects
      ensures Tidy(prefix) ==> forall id: string, t: int ::
                SlashFree(id) && t >= now - retentionDays * DAY &&
                  BuildNewsTextKey(prefix, id, t) in old(bucket.objects)
                ==> BuildNewsTextKey(prefix, id, t) in bucket.objects
      ensures Tidy(prefix) && ok && Complete(pages, old(bucket.objects), prefix) ==> forall id: string, t: int ::
                SlashFree(id) && prefix <= BuildNewsTextKey(prefix, id, t) &&
                  BuildNewsTextKey(prefix, id, t) in old(bucket.objects)
                && 0 <= DateOf(DayOf(t)).year <= 9999
                ==> (BuildNewsTextKey(prefix, id, t) in bucket.objects <==> DayOf(t) >= DayOf(now) - retentionDays)
    {
      var olderThan := now - retentionDays * DAY;
      assert DayOf(olderThan) == DayOf(now) - retentionDays;
      var deleted;
      deleted, ok := ListAndDeleteOld(bucket, prefix, olderThan, pages);
      if Listing(pages).Some? {
        ghost var keys := Listing(pages).value;
        ghost var sent := bucket.requests[|old(bucket.requests)|..];
        forall key
          ensures bucket.objects <= old(bucket.objects)
          ensures key in old(bucket.objects) && !IsOld(key, prefix, Cutoff(olderThan)) ==> key in bucket.objects
          ensures ok && key in keys && IsOld(key, prefix, Cutoff(olderThan)) ==> key !in bucket.objects
        {
          OnlyOldKeysGo(keys, prefix, Cutoff(olderThan), old(bucket.objects), bucket.objects, sent, deleted, ok, key);
        }
        if Tidy(prefix) {
          forall id: string, t: int | SlashFree(id)
            ensures IsOld(BuildNewsTextKey(prefix, id, t), prefix, Cutoff(olderThan)) <==>
                      0 <= DateOf(DayOf(t)).year <= 9999 && DayOf(t) < DayOf(olderThan)
          {
            OldNewsIff(prefix, id, t, olderThan);
          }
        }
      }
    }
  }

  /** In terms of hours: a text older than N + 1 days is always past the cutoff, one younger than N days never. */
  lemma CutoffInHours(t: int, now: int, days: int)
    ensures t < now - (days + 1) * DAY ==> DayOf(t) < DayOf(now) - days
    ensures t >= now - days * DAY ==> DayOf(t) >= DayOf(now) - days
  {}
}
