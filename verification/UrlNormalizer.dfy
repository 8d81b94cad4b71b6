/** The canonical form of a parsed URL, which the collector uses to recognise an article. */
module UrlNormalizer {
  import opened HtmlText
  import opened LetterCase
  import opened Options
  import opened Utf8
  import opened UrlQuery

  // ---------- Values.Encode as it runs ----------

  lemma {:induction false} PrintedSnoc(ps: seq<Pair>, p: Pair)
    ensures Printed(ps + [p]) == (if Printed(ps) == [] then [] else Printed(ps) + [AMP]) + Setting(p)
    ensures Printed(ps) == [] <==> ps == []
  {
    if ps == [] {
      assert ps + [p] == [p];
    } else {
      assert (ps + [p])[1..] == ps[1..] + [p];
      PrintedSnoc(ps[1..], p);
    }
  }

  lemma {:induction false} PairsConcat(m: Values, a: seq<Bytes>, b: seq<Bytes>)
    requires forall k :: k in a + b ==> k in m
    requires (forall k :: k in a ==> k in m) && forall k :: k in b ==> k in m
    ensures Pairs(m, a + b) == Pairs(m, a) + Pairs(m, b)
  {
    if a == [] {
      assert a + b == b;
    } else {
      assert (a + b)[1..] == a[1..] + b;
      PairsConcat(m, a[1..], b);
    }
  }

  lemma {:induction false} PairsOfSnoc(k: Bytes, vs: seq<Bytes>, v: Bytes)
    ensures PairsOf(k, vs + [v]) == PairsOf(k, vs) + [Pair(k, v)]
  {
    if vs == [] {
      assert vs + [v] == [v];
    } else {
      assert (vs + [v])[1..] == vs[1..] + [v];
      PairsOfSnoc(k, vs[1..], v);
    }
  }

  method SortedKeys(s: set<Bytes>) returns (keys: seq<Bytes>)
    ensures keys == Ordered(s)
  {
    keys := [];
    var left := s;
    while left != {}
      invariant left <= s && IsOrderOf(keys, s - left)
      decreases left
    {
      var k :| k in left;
      PlaceSorts(keys, k);
      keys := Place(keys, k);
      left := left - {k};
    }
    OrderIsUnique(keys, Ordered(s), s);
  }

  /** The inner loop: one setting per value. */
  method EncodeKey(prefix: Bytes, k: Bytes, vs: seq<Bytes>, ghost done: seq<Pair>) returns (buf: Bytes)
    requires prefix == Printed(done)
    ensures buf == Printed(done + PairsOf(k, vs))
  {
    buf := prefix;
    assert done + [] == done;
    for j := 0 to |vs|
      invariant buf == Printed(done + PairsOf(k, vs[..j]))
    {
      ghost var sofar, p := done + PairsOf(k, vs[..j]), Pair(k, vs[j]);
      PrintedSnoc(sofar, p);
      PairsOfSnoc(k, vs[..j], vs[j]);
      assert vs[..j + 1] == vs[..j] + [vs[j]];
      assert sofar + [p] == done + PairsOf(k, vs[..j + 1]);
      if |buf| > 0 { buf := buf + [AMP]; }
      buf := buf + (Escape(k) + [EQUALS] + Escape(vs[j]));
    }
    assert vs[..|vs|] == vs;
  }

  lemma PairsSnoc(m: Values, keys: seq<Bytes>, k: Bytes)
    requires (forall x :: x in keys ==> x in m) && k in m
    ensures Pairs(m, keys + [k]) == Pairs(m, keys) + PairsOf(k, m[k])
  {
    PairsConcat(m, keys, [k]);
    assert Pairs(m, [k]) == PairsOf(k, m[k]) + [];
  }

  lemma NextPairs(m: Values, keys: seq<Bytes>, i: nat)
    requires i < |keys| && forall x :: x in keys ==> x in m
    ensures keys[i] in m && (forall x :: x in keys[..i] ==> x in m) && (forall x :: x in keys[..i + 1] ==> x in m)
    ensures Pairs(m, keys[..i + 1]) == Pairs(m, keys[..i]) + PairsOf(keys[i], m[keys[i]])
  {
    assert keys[..i + 1] == keys[..i] + [keys[i]];
    PairsSnoc(m, keys[..i], keys[i]);
  }

  method EncodeValues(m: Values) returns (buf: Bytes)
    ensures buf == Print(m)
  {
    var keys := SortedKeys(m.Keys);
    assert forall k :: k in keys ==> k in m;
    buf := [];
    for i := 0 to |keys|
      invariant forall k :: k in keys[..i] ==> k in m
      invariant buf == Printed(Pairs(m, keys[..i]))
    {
      NextPairs(m, keys, i);
      buf := EncodeKey(buf, keys[i], m[keys[i]], Pairs(m, keys[..i]));
    }
    assert keys[..|keys|] == keys;
  }

  /** Deletes the tracking keys from the query map in place. */
  method DeleteTracking(m: Values) returns (q: Values)
    ensures q == Clean(m)
    ensures forall k :: ValuesOf(q, k) == if k in TRACKING then [] else ValuesOf(m, k)
  {
    q := m;
    var left := m.Keys;
    while left != {}
      invariant left <= m.Keys
      invariant q == map k | k in m && (k in left || k !in TRACKING) :: m[k]
      decreases left
    {
      var k :| k in left;
      left := left - {k};
      if k in TRACKING { q := q - {k}; }
    }
  }

  // ---------- The URL ----------

  /** User and path are as they are printed; the host includes the port. */
  datatype Url = Url(
    scheme: string, opaquePart: Bytes, user: Option<Bytes>, host: string, omitHost: bool, path: Bytes,
    query: Bytes, forceQuery: bool, fragment: Bytes)

  ghost function Normalized(u: Url, lower: char -> char): Url {
    u.(scheme := ToLower(u.scheme, lower), host := ToLower(u.host, lower), query := Canonical(u.query), fragment := [])
  }

  class ParsedUrl {
    var scheme: string
    var opaquePart: Bytes
    var user: Option<Bytes>
    var host: string
    var omitHost: bool
    var path: Bytes
    var rawQuery: Bytes
    var forceQuery: bool
    var fragment: Bytes

    function View(): Url
      reads this
    {
      Url(scheme, opaquePart, user, host, omitHost, path, rawQuery, forceQuery, fragment)
    }

    constructor (u: Url)
      ensures View() == u
    {
      scheme, opaquePart, user, host, omitHost := u.scheme, u.opaquePart, u.user, u.host, u.omitHost;
      path, rawQuery, forceQuery, fragment := u.path, u.query, u.forceQuery, u.fragment;
    }

    method Normalize(lower: char -> char)
      modifies this
      ensures View() == Normalized(old(View()), lower)
    {
      scheme := ToLower(scheme, lower);
      host := ToLower(host, lower);
      fragment := [];
      var q := DeleteTracking(Parse(rawQuery));
      rawQuery := EncodeValues(q);
    }
  }

  /** Normalising parsed fields again changes nothing. */
  lemma NormalizedTwice(u: Url, lower: char -> char)
    requires IsLowerCase(lower)
    ensures Normalized(Normalized(u, lower), lower) == Normalized(u, lower)
  {
    CanonicalTwice(u.query);
    assert ToLower(ToLower(u.scheme, lower), lower) == ToLower(u.scheme, lower);
    assert ToLower(ToLower(u.host, lower), lower) == ToLower(u.host, lower);
  }

  /** Two URLs have the same normal form exactly when they differ only in case of scheme and host, fragment, order of
      keys, spelling of escapes, malformed settings and tracking. */
  lemma SameArticleIff(u: Url, v: Url, lower: char -> char)
    ensures Normalized(u, lower) == Normalized(v, lower) <==>
              && ToLower(u.scheme, lower) == ToLower(v.scheme, lower) &&
                ToLower(u.host, lower) == ToLower(v.host, lower)
              && u.opaquePart == v.opaquePart && u.user == v.user && u.omitHost == v.omitHost && u.path == v.path
              && u.forceQuery == v.forceQuery
              && Clean(Parse(u.query)) == Clean(Parse(v.query))
  {
    CanonicalIsComplete(u.query, v.query);
  }
}
