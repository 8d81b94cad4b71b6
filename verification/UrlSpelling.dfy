/** What a query says, byte by byte: how a text may be spelled in it, and what its settings give. */
module UrlSpelling {
  import opened Options
  import opened UrlQuery
  import opened Utf8

  // ---------- Spelling ----------

  /** c is a hexadecimal digit of this value, in either case. */
  predicate IsDigitOf(c: byte, n: int) {
    || (0 <= n <= 9 && c as int == 48 + n)
    || (10 <= n <= 15 && (c as int == 65 + (n - 10) || c as int == 97 + (n - 10)))
  }

  predicate IsHex(c: byte) { 48 <= c <= 57 || 65 <= c <= 70 || 97 <= c <= 102 }

  /** One byte is written as itself, as a plus sign for a space, or as a percent sign and two digits. */
  predicate IsPiece(e: Bytes, b: byte) {
    || (e == [b] && b != PLUS && b != PERCENT)
    || (e == [PLUS] && b == SPACE)
    || (|e| == 3 && e[0] == PERCENT && IsDigitOf(e[1], b as int / 16) && IsDigitOf(e[2], b as int % 16))
  }

  function Concat(pieces: seq<Bytes>): Bytes { if pieces == [] then [] else pieces[0] + Concat(pieces[1..]) }

  ghost predicate ArePieces(pieces: seq<Bytes>, s: Bytes) {
    |pieces| == |s| && forall i :: 0 <= i < |s| ==> IsPiece(pieces[i], s[i])
  }

  ghost predicate Spells(e: Bytes, s: Bytes) { exists pieces :: ArePieces(pieces, s) && Concat(pieces) == e }

  /** A percent sign that two hexadecimal digits do not follow. */
  predicate BadAt(e: Bytes, i: nat) {
    i < |e| && e[i] == PERCENT && !(i + 2 < |e| && IsHex(e[i + 1]) && IsHex(e[i + 2]))
  }

  ghost predicate Malformed(e: Bytes) { exists i: nat :: BadAt(e, i) }

  lemma DigitsAgree(c: byte)
    ensures HexValue(c).Some? <==> IsHex(c)
    ensures forall n :: IsDigitOf(c, n) <==> HexValue(c) == Some(n)
    ensures HexValue(c).Some? ==> 0 <= HexValue(c).value < 16
  {}

  /** Length of the first piece of a text that is not malformed. */
  function FirstLength(e: Bytes): nat { if e != [] && e[0] == PERCENT then 3 else 1 }

  lemma BadIsBehind(e: Bytes, n: nat)
    requires n <= |e| && forall i: nat :: i < n ==> !BadAt(e, i)
    ensures Malformed(e) <==> Malformed(e[n..])
  {
    if Malformed(e) {
      var i: nat :| BadAt(e, i);
      assert BadAt(e[n..], i - n);
    }
    if Malformed(e[n..]) {
      var i: nat :| BadAt(e[n..], i);
      assert BadAt(e, n + i);
    }
  }

  /** Unescaping fails exactly when some percent sign is not followed by two digits. */
  lemma {:induction false} UnescapeFailsIff(e: Bytes)
    ensures Unescape(e).None? <==> Malformed(e)
  {
    if e == [] {
    } else if BadAt(e, 0) {
      if |e| >= 3 {
        DigitsAgree(e[1]);
        DigitsAgree(e[2]);
      }
    } else {
      var n := FirstLength(e);
      if n == 3 {
        DigitsAgree(e[1]);
        DigitsAgree(e[2]);
      }
      BadIsBehind(e, n);
      UnescapeFailsIff(e[n..]);
    }
  }

  lemma FirstPiece(e: Bytes)
    requires e != [] && Unescape(e).Some?
    ensures var n, s := FirstLength(e), Unescape(e).value;
            n <= |e| && s != [] && IsPiece(e[..n], s[0]) && Unescape(e[n..]) == Some(s[1..])
  {
    var n := FirstLength(e);
    if n == 3 {
      DigitsAgree(e[1]);
      DigitsAgree(e[2]);
      var hi, lo := HexValue(e[1]).value, HexValue(e[2]).value;
      assert (hi * 16 + lo) / 16 == hi && (hi * 16 + lo) % 16 == lo;
    }
  }

  lemma {:induction false} UnescapedIsSpelled(e: Bytes) returns (pieces: seq<Bytes>)
    requires Unescape(e).Some?
    ensures ArePieces(pieces, Unescape(e).value) && Concat(pieces) == e
  {
    if e == [] {
      pieces := [];
    } else {
      var n := FirstLength(e);
      FirstPiece(e);
      var rest := UnescapedIsSpelled(e[n..]);
      pieces := [e[..n]] + rest;
      assert pieces[1..] == rest;
    }
  }

  lemma PieceUnescapes(piece: Bytes, b: byte, rest: Bytes)
    requires IsPiece(piece, b) && Unescape(rest).Some?
    ensures Unescape(piece + rest) == Some([b] + Unescape(rest).value)
  {
    var e := piece + rest;
    assert e[|piece|..] == rest;
    if |piece| == 3 {
      DigitsAgree(e[1]);
      DigitsAgree(e[2]);
    }
  }

  lemma {:induction false} SpelledUnescapes(pieces: seq<Bytes>, s: Bytes)
    requires ArePieces(pieces, s)
    ensures Unescape(Concat(pieces)) == Some(s)
  {
    if pieces == [] {
    } else {
      SpelledUnescapes(pieces[1..], s[1..]);
      PieceUnescapes(pieces[0], s[0], Concat(pieces[1..]));
      assert s == [s[0]] + s[1..];
    }
  }

  /** Unescaping reads every spelling of a text, and nothing else. */
  lemma UnescapeIff(e: Bytes, s: Bytes)
    ensures Unescape(e) == Some(s) <==> Spells(e, s)
  {
    if Unescape(e) == Some(s) {
      var pieces := UnescapedIsSpelled(e);
    }
    if Spells(e, s) {
      var pieces :| ArePieces(pieces, s) && Concat(pieces) == e;
      SpelledUnescapes(pieces, s);
    }
  }

  // ---------- Settings ----------

  /** A setting that is not empty, has no semicolon, and spells its key and value right. */
  ghost predicate IsReadable(setting: Bytes) { setting != [] && SEMICOLON !in setting && !Malformed(setting) }

  /** The setting spells this key and value; one without an equals sign has the empty value. */
  ghost predicate Says(setting: Bytes, p: Pair) {
    || (EQUALS !in setting && Spells(setting, p.key) && p.value == [])
    || exists k: Bytes, v: Bytes ::
         setting == k + [EQUALS] + v && EQUALS !in k && Spells(k, p.key) && Spells(v, p.value)
  }

  lemma NothingBehind(setting: Bytes)
    requires EQUALS !in setting
    ensures Before(setting, EQUALS) == setting && Behind(setting, EQUALS) == []
  {
    FindIs(setting, EQUALS, |setting|);
  }

  lemma CutAgain(setting: Bytes)
    requires EQUALS in setting
    ensures setting == Before(setting, EQUALS) + [EQUALS] + Behind(setting, EQUALS)
    ensures EQUALS !in Before(setting, EQUALS)
  {
    var n := Find(setting, EQUALS);
    assert n < |setting|;
    assert setting == setting[..n] + [setting[n]] + setting[n + 1..];
  }

  /** An equals sign is no digit: a percent sign is malformed in its half exactly when it is in the whole. */
  lemma MalformedHalves(k: Bytes, v: Bytes)
    ensures Malformed(k + [EQUALS] + v) <==> Malformed(k) || Malformed(v)
  {
    var e := k + [EQUALS] + v;
    forall i: nat ensures i < |k| ==> (BadAt(e, i) <==> BadAt(k, i)) {
      assert i < |k| ==> e[i] == k[i];
      assert i + 1 < |k| ==> e[i + 1] == k[i + 1];
      assert i + 2 < |k| ==> e[i + 2] == k[i + 2];
      assert i < |k| ==> e[|k|] == EQUALS;
    }
    forall i: nat ensures BadAt(e, |k| + 1 + i) <==> BadAt(v, i) {
      assert e[|k| + 1..] == v;
      assert i < |v| ==> e[|k| + 1 + i] == v[i];
    }
    if Malformed(e) {
      var i: nat :| BadAt(e, i);
      assert i < |k| ==> BadAt(k, i);
      assert i > |k| ==> BadAt(e, |k| + 1 + (i - |k| - 1)) && BadAt(v, i - |k| - 1);
    }
    if Malformed(k) {
      var i: nat :| BadAt(k, i);
      assert BadAt(e, i);
    }
    if Malformed(v) {
      var i: nat :| BadAt(v, i);
      assert BadAt(e, |k| + 1 + i);
    }
  }

  lemma NothingIsSpelled(s: Bytes)
    ensures Spells([], s) <==> s == []
  {
    UnescapeIff([], s);
  }

  /** The two halves of a setting. */
  lemma HalvesSay(setting: Bytes, p: Pair)
    ensures Says(setting, p) <==> Spells(Before(setting, EQUALS), p.key) && Spells(Behind(setting, EQUALS), p.value)
  {
    var k, v := Before(setting, EQUALS), Behind(setting, EQUALS);
    if EQUALS in setting {
      CutAgain(setting);
      forall a: Bytes, b: Bytes | setting == a + [EQUALS] + b && EQUALS !in a ensures a == k && b == v {
        CutSetting(a, b);
      }
    } else {
      NothingBehind(setting);
      NothingIsSpelled(p.value);
    }
  }

  /** A readable setting adds its value to its key and is the only kind that adds something. */
  lemma SettingIsRead(m: Values, setting: Bytes)
    ensures !IsReadable(setting) ==> AddSetting(m, setting) == m
    ensures IsReadable(setting) ==> exists p :: Says(setting, p)
    ensures forall p :: IsReadable(setting) && Says(setting, p) ==>
        AddSetting(m, setting) == m[p.key := ValuesOf(m, p.key) + [p.value]]
  {
    var k, v := Before(setting, EQUALS), Behind(setting, EQUALS);
    if EQUALS in setting { CutAgain(setting); MalformedHalves(k, v); } else { NothingBehind(setting); }
    UnescapeFailsIff(k);
    UnescapeFailsIff(v);
    if IsReadable(setting) {
      var q := Pair(Unescape(k).value, Unescape(v).value);
      UnescapeIff(k, q.key);
      UnescapeIff(v, q.value);
      HalvesSay(setting, q);
      assert Says(setting, q);
      forall p | Says(setting, p) ensures p == q {
        HalvesSay(setting, p);
        UnescapeIff(k, p.key);
        UnescapeIff(v, p.value);
      }
    }
  }

  // ---------- Queries ----------

  function Joined(settings: seq<Bytes>): Bytes {
    if settings == [] then [] else if |settings| == 1 then settings[0] else settings[0] + [AMP] + Joined(settings[1..])
  }

  /** The pairs said by the readable settings, in order. */
  ghost predicate SaysAll(settings: seq<Bytes>, ps: seq<Pair>) {
    if settings == [] then ps == []
    else if IsReadable(settings[0]) then ps != [] && Says(settings[0], ps[0]) && SaysAll(settings[1..], ps[1..])
    else SaysAll(settings[1..], ps)
  }

  /** The values of the pairs with this key, in order. */
  function ValuesFor(ps: seq<Pair>, k: Bytes): seq<Bytes> {
    if ps == [] then []
    else if ps[0].key == k then [ps[0].value] + ValuesFor(ps[1..], k)
    else ValuesFor(ps[1..], k)
  }

  lemma {:induction false} ReadInOrder(m: Values, settings: seq<Bytes>, ps: seq<Pair>)
    requires SaysAll(settings, ps) && forall i :: 0 <= i < |settings| ==> AMP !in settings[i]
    ensures ParseInto(m, Joined(settings)) == AppendAll(m, ps)
    decreases |settings|
  {
    if settings == [] {
    } else {
      var first, rest, q := settings[0], settings[1..], Joined(settings);
      var m' := AddSetting(m, first);
      FindIs(q, AMP, |first|);
      assert q[..|first|] == first && (|settings| > 1 ==> q[|first| + 1..] == Joined(rest));
      assert |settings| == 1 ==> rest == [] && Joined(rest) == [];
      SettingIsRead(m, first);
      ReadInOrder(m', rest, if IsReadable(first) then ps[1..] else ps);
    }
  }

  lemma Reassociated(a: seq<Bytes>, v: Bytes, b: seq<Bytes>)
    ensures (a + [v]) + b == a + ([v] + b)
  {}

  lemma {:induction false} AppendedValues(m: Values, ps: seq<Pair>, k: Bytes)
    ensures ValuesOf(AppendAll(m, ps), k) == ValuesOf(m, k) + ValuesFor(ps, k)
    ensures k in AppendAll(m, ps) <==> k in m || ValuesFor(ps, k) != []
    decreases |ps|
  {
    if ps == [] {
    } else {
      var p, more := ps[0], ValuesFor(ps[1..], k);
      AppendedValues(Append(m, p.key, p.value), ps[1..], k);
      if p.key == k { Reassociated(ValuesOf(m, k), p.value, more); }
    }
  }

  /** Reading a query gives every key the values of its readable settings, in order; the others are dropped. */
  lemma ParseReads(settings: seq<Bytes>, ps: seq<Pair>, k: Bytes)
    requires SaysAll(settings, ps) && forall i :: 0 <= i < |settings| ==> AMP !in settings[i]
    ensures ValuesOf(Parse(Joined(settings)), k) == ValuesFor(ps, k)
    ensures k in Parse(Joined(settings)) <==> ValuesFor(ps, k) != []
  {
    ReadInOrder(map[], settings, ps);
    AppendedValues(map[], ps, k);
  }

  /** Every query is the joined list of its settings, and these say something. */
  lemma {:induction false} QueryHasSettings(query: Bytes) returns (settings: seq<Bytes>, ps: seq<Pair>)
    ensures Joined(settings) == query && SaysAll(settings, ps)
    ensures forall i :: 0 <= i < |settings| ==> AMP !in settings[i]
    decreases |query|
  {
    var first := Before(query, AMP);
    var rest, more := [], [];
    if AMP in query {
      rest, more := QueryHasSettings(Behind(query, AMP));
      if rest == [] { rest := [[]]; }
    }
    settings := [first] + rest;
    assert settings[1..] == rest;
    SettingIsRead(map[], first);
    if IsReadable(first) {
      var p :| Says(first, p);
      ps := [p] + more;
      assert ps[1..] == more;
    } else {
      ps := more;
    }
  }
}
