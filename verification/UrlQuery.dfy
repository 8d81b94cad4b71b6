/** The canonical query string that makes two spellings of one article the same URL.
    Queries are byte strings; the escape rules are those of application/x-www-form-urlencoded
    as Go's net/url applies them. */
module UrlQuery {
  import opened Options
  import opened Utf8

  type Bytes = seq<byte>
  type Values = map<Bytes, seq<Bytes>>

  const AMP: byte := 38
  const PLUS: byte := 43
  const SPACE: byte := 32
  const PERCENT: byte := 37
  const SEMICOLON: byte := 59
  const EQUALS: byte := 61

  // ---------- Escaping ----------

  predicate IsUnreserved(b: byte) {
    || 48 <= b <= 57 || 65 <= b <= 90 || 97 <= b <= 122     // digits and letters
    || b == 45 || b == 46 || b == 95 || b == 126            // - . _ ~
  }

  function HexDigit(n: int): byte
    requires 0 <= n < 16
  {
    if n < 10 then (48 + n) as byte else (55 + n) as byte
  }

  function HexValue(b: byte): Option<int> {
    if 48 <= b <= 57 then Some(b as int - 48)
    else if 65 <= b <= 70 then Some(b as int - 55)
    else if 97 <= b <= 102 then Some(b as int - 87)
    else None
  }

  function EscapeByte(b: byte): Bytes {
    if IsUnreserved(b) then [b]
    else if b == SPACE then [PLUS]
    else [PERCENT, HexDigit(b as int / 16), HexDigit(b as int % 16)]
  }

  function Escape(s: Bytes): Bytes { if s == [] then [] else EscapeByte(s[0]) + Escape(s[1..]) }

  /** None for a percent sign that two hexadecimal digits do not follow. */
  function Unescape(s: Bytes): Option<Bytes> {
    if s == [] then Some([])
    else if s[0] == PERCENT then
      if |s| < 3 || HexValue(s[1]).None? || HexValue(s[2]).None? then None else
      var rest := Unescape(s[3..]);
      if rest.None? then None else Some([(HexValue(s[1]).value * 16 + HexValue(s[2]).value) as byte] + rest.value)
    else
      var rest := Unescape(s[1..]);
      if rest.None? then None else Some([if s[0] == PLUS then SPACE else s[0]] + rest.value)
  }

  predicate Plain(s: Bytes) { forall i :: 0 <= i < |s| ==> s[i] != AMP && s[i] != SEMICOLON && s[i] != EQUALS }

  lemma UnescapeOne(b: byte, rest: Bytes)
    requires Unescape(rest).Some?
    ensures Unescape(EscapeByte(b) + rest) == Some([b] + Unescape(rest).value) && Plain(EscapeByte(b))
  {
    var e := EscapeByte(b);
    if |e| == 3 {
      assert (e + rest)[3..] == rest;
      var hi, lo := b as int / 16, b as int % 16;
      assert HexValue(HexDigit(hi)) == Some(hi) && HexValue(HexDigit(lo)) == Some(lo) && hi * 16 + lo == b as int;
    } else {
      assert (e + rest)[1..] == rest;
    }
  }

  lemma {:induction false} UnescapeEscape(s: Bytes)
    ensures Unescape(Escape(s)) == Some(s) && Plain(Escape(s))
  {
    if s == [] {
    } else {
      UnescapeEscape(s[1..]);
      UnescapeOne(s[0], Escape(s[1..]));
      assert s == [s[0]] + s[1..];
    }
  }

  // ---------- Parsing ----------

  /** Position of the first separator, the length when there is none. */
  function Find(s: Bytes, sep: byte): (i: nat)
    ensures i <= |s| && (i < |s| ==> s[i] == sep) && forall k :: 0 <= k < i ==> s[k] != sep
  {
    if s == [] || s[0] == sep then 0 else 1 + Find(s[1..], sep)
  }

  function Before(s: Bytes, sep: byte): Bytes { s[..Find(s, sep)] }

  function Behind(s: Bytes, sep: byte): Bytes { if Find(s, sep) < |s| then s[Find(s, sep) + 1..] else [] }

  function ValuesOf(m: Values, k: Bytes): seq<Bytes> { if k in m then m[k] else [] }

  function Append(m: Values, k: Bytes, v: Bytes): Values { m[k := ValuesOf(m, k) + [v]] }

  /** One setting of the query; a malformed one is dropped. */
  function AddSetting(m: Values, setting: Bytes): Values {
    if SEMICOLON in setting || setting == [] then m else
    var k, v := Unescape(Before(setting, EQUALS)), Unescape(Behind(setting, EQUALS));
    if k.None? || v.None? then m else Append(m, k.value, v.value)
  }

  function ParseInto(m: Values, query: Bytes): Values
    decreases |query|
  {
    if query == [] then m else ParseInto(AddSetting(m, Before(query, AMP)), Behind(query, AMP))
  }

  function Parse(query: Bytes): Values { ParseInto(map[], query) }

  ghost predicate NoEmptyLists(m: Values) { forall k :: k in m ==> m[k] != [] }

  lemma {:induction false} ParsedListsAreNotEmpty(m: Values, query: Bytes)
    requires NoEmptyLists(m)
    ensures NoEmptyLists(ParseInto(m, query))
    decreases |query|
  {
    if query == [] {
    } else {
      ParsedListsAreNotEmpty(AddSetting(m, Before(query, AMP)), Behind(query, AMP));
    }
  }

  // ---------- Printing, keys in order ----------

  predicate Less(a: Bytes, b: Bytes) {
    b != [] && (a == [] || a[0] < b[0] || (a[0] == b[0] && Less(a[1..], b[1..])))
  }

  lemma {:induction false} LessIsTotal(a: Bytes, b: Bytes)
    ensures Less(a, b) || Less(b, a) || a == b
  {
    if a != [] && b != [] && a[0] == b[0] {
      LessIsTotal(a[1..], b[1..]);
      assert a[1..] == b[1..] ==> a == [a[0]] + a[1..] == [b[0]] + b[1..] == b;
    }
  }

  lemma {:induction false} LessIsStrict(a: Bytes, b: Bytes, c: Bytes)
    requires Less(a, b)
    ensures a != b && !Less(b, a) && (Less(b, c) ==> Less(a, c))
  {
    if a != [] && a[0] == b[0] {
      LessIsStrict(a[1..], b[1..], if c == [] then [] else c[1..]);
    }
  }

  ghost predicate Sorted(keys: seq<Bytes>) { forall i, j :: 0 <= i < j < |keys| ==> Less(keys[i], keys[j]) }

  ghost predicate IsOrderOf(keys: seq<Bytes>, s: set<Bytes>) {
    Sorted(keys) && forall k :: k in keys <==> k in s
  }

  /** Where a key goes among sorted keys. */
  function Place(keys: seq<Bytes>, k: Bytes): seq<Bytes> {
    if keys == [] || Less(k, keys[0]) then [k] + keys else [keys[0]] + Place(keys[1..], k)
  }

  lemma {:induction false} PlaceSorts(keys: seq<Bytes>, k: Bytes)
    requires Sorted(keys) && k !in keys
    ensures Sorted(Place(keys, k)) && forall x :: x in Place(keys, k) <==> x in keys || x == k
  {
    if keys == [] {
    } else {
      if Less(k, keys[0]) {
        forall j | 0 <= j < |keys| ensures Less(k, keys[j]) {
          if j > 0 { LessIsStrict(k, keys[0], keys[j]); }
        }
      } else {
        var rest := Place(keys[1..], k);
        PlaceSorts(keys[1..], k);
        LessIsTotal(keys[0], k);
        forall j | 0 <= j < |rest| ensures Less(keys[0], rest[j]) {
          assert rest[j] in rest;
        }
        assert keys == [keys[0]] + keys[1..];
      }
    }
  }

  ghost function Ordered(s: set<Bytes>): (keys: seq<Bytes>)
    ensures IsOrderOf(keys, s)
    decreases |s|
  {
    if s == {} then [] else
    var k :| k in s;
    var rest := Ordered(s - {k});
    PlaceSorts(rest, k);
    Place(rest, k)
  }

  /** A set has only one order, whatever way its elements are met. */
  lemma {:induction false} OrderIsUnique(a: seq<Bytes>, b: seq<Bytes>, s: set<Bytes>)
    requires IsOrderOf(a, s) && IsOrderOf(b, s)
    ensures a == b
  {
    assert (a != [] ==> a[0] in s) && (b != [] ==> b[0] in s);
    if a != [] && b != [] {
      assert a[0] in b && b[0] in a;
      var i :| 0 <= i < |b| && b[i] == a[0];
      var j :| 0 <= j < |a| && a[j] == b[0];
      if i > 0 && j > 0 { LessIsStrict(a[0], b[0], a[0]); }
      assert a[0] == b[0];
      TailOrder(a, s);
      TailOrder(b, s);
      OrderIsUnique(a[1..], b[1..], s - {a[0]});
      assert a == [a[0]] + a[1..] && b == [b[0]] + b[1..];
    }
  }

  lemma TailOrder(a: seq<Bytes>, s: set<Bytes>)
    requires IsOrderOf(a, s) && a != []
    ensures IsOrderOf(a[1..], s - {a[0]})
  {
    forall k | k in a[1..] ensures k in s - {a[0]} {
      var i :| 1 <= i < |a| && a[i] == k;
      LessIsStrict(a[0], k, k);
    }
    forall k | k in s - {a[0]} ensures k in a[1..] {
      assert k in a;
    }
  }

  datatype Pair = Pair(key: Bytes, value: Bytes)

  function PairsOf(k: Bytes, values: seq<Bytes>): seq<Pair> {
    if values == [] then [] else [Pair(k, values[0])] + PairsOf(k, values[1..])
  }

  function Pairs(m: Values, keys: seq<Bytes>): seq<Pair>
    requires forall k :: k in keys ==> k in m
  {
    if keys == [] then [] else PairsOf(keys[0], m[keys[0]]) + Pairs(m, keys[1..])
  }

  function Setting(p: Pair): Bytes { Escape(p.key) + [EQUALS] + Escape(p.value) }

  function Printed(ps: seq<Pair>): Bytes {
    if ps == [] then [] else if |ps| == 1 then Setting(ps[0]) else Setting(ps[0]) + [AMP] + Printed(ps[1..])
  }

  ghost function Print(m: Values): Bytes { Printed(Pairs(m, Ordered(m.Keys))) }

  // ---------- parse(print(m)) = m ----------

  function AppendAll(m: Values, ps: seq<Pair>): Values
    decreases |ps|
  {
    if ps == [] then m else AppendAll(Append(m, ps[0].key, ps[0].value), ps[1..])
  }

  lemma FindIs(s: Bytes, sep: byte, i: nat)
    requires i <= |s| && (i < |s| ==> s[i] == sep) && forall k :: 0 <= k < i ==> s[k] != sep
    ensures Find(s, sep) == i
  {}

  lemma CutSetting(a: Bytes, b: Bytes)
    requires EQUALS !in a
    ensures Before(a + [EQUALS] + b, EQUALS) == a && Behind(a + [EQUALS] + b, EQUALS) == b
  {
    var s := a + [EQUALS] + b;
    FindIs(s, EQUALS, |a|);
    assert s[..|a|] == a && s[|a| + 1..] == b;
  }

  lemma SettingIsPlain(p: Pair)
    ensures Setting(p) != [] && AMP !in Setting(p) && SEMICOLON !in Setting(p) && EQUALS !in Escape(p.key)
  {
    UnescapeEscape(p.key);
    UnescapeEscape(p.value);
  }

  lemma SettingParses(m: Values, p: Pair)
    ensures AddSetting(m, Setting(p)) == Append(m, p.key, p.value)
    ensures Setting(p) != [] && AMP !in Setting(p)
  {
    SettingIsPlain(p);
    UnescapeEscape(p.key);
    UnescapeEscape(p.value);
    CutSetting(Escape(p.key), Escape(p.value));
  }

  lemma {:induction false} PrintedParses(m: Values, ps: seq<Pair>)
    ensures ParseInto(m, Printed(ps)) == AppendAll(m, ps)
    decreases |ps|
  {
    if ps == [] {
    } else {
      var s := Setting(ps[0]);
      var q := Printed(ps);
      SettingParses(m, ps[0]);
      FindIs(q, AMP, |s|);
      assert q[..|s|] == s;
      PrintedParses(Append(m, ps[0].key, ps[0].value), ps[1..]);
      if |ps| == 1 {
        assert ps[1..] == [];
      } else {
        assert q[|s| + 1..] == Printed(ps[1..]);
      }
    }
  }

  lemma {:induction false} AppendConcat(m: Values, ps: seq<Pair>, qs: seq<Pair>)
    ensures AppendAll(m, ps + qs) == AppendAll(AppendAll(m, ps), qs)
    decreases |ps|
  {
    if ps == [] {
      assert ps + qs == qs;
    } else {
      assert (ps + qs)[1..] == ps[1..] + qs;
      AppendConcat(Append(m, ps[0].key, ps[0].value), ps[1..], qs);
    }
  }

  lemma AppendThenMore(m: Values, k: Bytes, v: Bytes, more: seq<Bytes>)
    ensures var m' := Append(m, k, v); m'[k := ValuesOf(m', k) + more] == m[k := ValuesOf(m, k) + ([v] + more)]
  {
    assert ValuesOf(m, k) + [v] + more == ValuesOf(m, k) + ([v] + more);
  }

  lemma {:induction false} AppendValues(m: Values, k: Bytes, values: seq<Bytes>)
    requires values != []
    ensures AppendAll(m, PairsOf(k, values)) == m[k := ValuesOf(m, k) + values]
    decreases |values|
  {
    var more := values[1..];
    assert values == [values[0]] + more;
    assert PairsOf(k, values)[1..] == PairsOf(k, more);
    AppendThenMore(m, k, values[0], more);
    if more == [] {
      assert values == [values[0]];
    } else {
      AppendValues(Append(m, k, values[0]), k, more);
    }
  }

  lemma {:induction false} AppendKeys(acc: Values, m: Values, keys: seq<Bytes>)
    requires NoEmptyLists(m) && Sorted(keys)
    requires forall k :: k in keys ==> k in m && k !in acc
    ensures AppendAll(acc, Pairs(m, keys)) == acc + map k | k in keys :: m[k]
    decreases |keys|
  {
    if keys == [] {
    } else {
      var k := keys[0];
      AppendConcat(acc, PairsOf(k, m[k]), Pairs(m, keys[1..]));
      AppendValues(acc, k, m[k]);
      assert AppendAll(acc, PairsOf(k, m[k])) == acc[k := m[k]] by { assert [] + m[k] == m[k]; }
      HeadIsFirst(keys);
      AppendKeys(acc[k := m[k]], m, keys[1..]);
      MapOfKeys(acc, m, keys);
    }
  }

  lemma HeadIsFirst(keys: seq<Bytes>)
    requires Sorted(keys) && keys != []
    ensures keys[0] !in keys[1..] && Sorted(keys[1..]) && forall x :: x in keys <==> x == keys[0] || x in keys[1..]
  {
    forall x | x in keys[1..] ensures x != keys[0] {
      var i :| 1 <= i < |keys| && keys[i] == x;
      LessIsStrict(keys[0], x, x);
    }
  }

  lemma MapOfKeys(acc: Values, m: Values, keys: seq<Bytes>)
    requires keys != [] && forall k :: k in keys ==> k in m
    requires forall x :: x in keys <==> x == keys[0] || x in keys[1..]
    requires keys[0] !in keys[1..]
    ensures acc[keys[0] := m[keys[0]]] + (map k | k in keys[1..] :: m[k]) == acc + map k | k in keys :: m[k]
  {}

  /** Printing loses nothing: a reader gets the same lists for the same keys. */
  lemma ParsePrint(m: Values)
    requires NoEmptyLists(m)
    ensures Parse(Print(m)) == m
  {
    var keys := Ordered(m.Keys);
    PrintedParses(map[], Pairs(m, keys));
    AppendKeys(map[], m, keys);
    assert (map k | k in keys :: m[k]) == m;
  }

  /** Different lists for some key print differently. */
  lemma PrintIsInjective(m: Values, m': Values)
    requires NoEmptyLists(m) && NoEmptyLists(m') && Print(m) == Print(m')
    ensures m == m'
  {
    ParsePrint(m);
    ParsePrint(m');
  }

  // ---------- The canonical query ----------

  function Ascii(s: string): Bytes {
    seq(|s|, i requires 0 <= i < |s| => (if s[i] < '\U{0080}' then s[i] as int as byte else 0))
  }

  const TRACKING: seq<Bytes> := [
    Ascii("utm_source"), Ascii("utm_medium"), Ascii("utm_campaign"), Ascii("utm_term"), Ascii("utm_content"),
    Ascii("fbclid"), Ascii("gclid"), Ascii("yclid"), Ascii("ref"), Ascii("_ga")]

  function Clean(m: Values): Values { map k | k in m && k !in TRACKING :: m[k] }

  ghost function Canonical(query: Bytes): Bytes { Print(Clean(Parse(query))) }

  /** Reading a canonical query back gives the cleaned lists. */
  lemma CanonicalParses(query: Bytes)
    ensures Parse(Canonical(query)) == Clean(Parse(query))
  {
    ParsedListsAreNotEmpty(map[], query);
    ParsePrint(Clean(Parse(query)));
  }

  /** Canonical queries stay as they are, and a second reading finds no tracking key. */
  lemma CanonicalTwice(query: Bytes)
    ensures Canonical(Canonical(query)) == Canonical(query)
    ensures forall k :: ValuesOf(Parse(Canonical(query)), k) == if k in TRACKING then [] else ValuesOf(Parse(query), k)
    ensures forall k :: k in Parse(Canonical(query)) <==> k in Parse(query) && k !in TRACKING
  {
    CanonicalParses(query);
    assert Clean(Clean(Parse(query))) == Clean(Parse(query));
  }

  /** Two queries get the same canonical form exactly when they say the same apart from tracking. */
  lemma CanonicalIsComplete(p: Bytes, q: Bytes)
    ensures Canonical(p) == Canonical(q) <==> Clean(Parse(p)) == Clean(Parse(q))
  {
    CanonicalParses(p);
    CanonicalParses(q);
  }
}
