/** UTF-8 as the byte view of text: an occurrence of one encoded text in another is an
    occurrence of the text itself, at a character boundary. */
module Utf8 {

  newtype byte = x: int | 0 <= x < 256

  function EncodeChar(c: char): (r: seq<byte>)
    ensures 1 <= |r| <= 4
  {
    var v := c as int;
    if v < 0x80 then [v as byte]
    else if v < 0x800 then [(0xC0 + v / 64) as byte, (0x80 + v % 64) as byte]
    else if v < 0x10000 then [(0xE0 + v / 4096) as byte, (0x80 + v / 64 % 64) as byte, (0x80 + v % 64) as byte]
    else [(0xF0 + v / 262144) as byte, (0x80 + v / 4096 % 64) as byte, (0x80 + v / 64 % 64) as byte,
      (0x80 + v % 64) as byte]
  }

  function Encode(s: string): seq<byte> { if s == [] then [] else EncodeChar(s[0]) + Encode(s[1..]) }

  predicate IsContinuation(b: byte) { 0x80 <= b < 0xC0 }

  /** Only the bytes after the first are continuation bytes. */
  lemma LeadByte(c: char)
    ensures !IsContinuation(EncodeChar(c)[0])
    ensures forall k :: 1 <= k < |EncodeChar(c)| ==> IsContinuation(EncodeChar(c)[k])
  {}

  /** The first byte tells the length, and the bytes tell the character. */
  lemma PrefixFree(c: char, d: char, tail: seq<byte>, tail': seq<byte>)
    requires EncodeChar(c) + tail == EncodeChar(d) + tail'
    ensures c == d && tail == tail'
  {
    var x, y := EncodeChar(c), EncodeChar(d);
    FirstOf(x, tail);
    FirstOf(y, tail');
    SameLength(c, d);
    SameParts(x, tail, y, tail');
    SameBytes(c, d);
  }

  lemma FirstOf(x: seq<byte>, tail: seq<byte>)
    requires x != []
    ensures (x + tail)[0] == x[0]
  {}

  lemma SameParts(x: seq<byte>, tail: seq<byte>, y: seq<byte>, tail': seq<byte>)
    requires |x| == |y| && x + tail == y + tail'
    ensures x == y && tail == tail'
  {
    assert (x + tail)[..|x|] == x && (y + tail')[..|x|] == y;
    assert (x + tail)[|x|..] == tail && (y + tail')[|x|..] == tail';
  }

  /** The first byte tells the length. */
  lemma SameLength(c: char, d: char)
    requires EncodeChar(c)[0] == EncodeChar(d)[0]
    ensures |EncodeChar(c)| == |EncodeChar(d)|
  {}

  lemma SameBytes(c: char, d: char)
    requires EncodeChar(c) == EncodeChar(d)
    ensures c == d
  {
    var v, w := c as int, d as int;
    var x, y := EncodeChar(c), EncodeChar(d);
    assert |x| == |y|;
    if |x| == 2 {
      assert x[0] == y[0] && x[1] == y[1];
      assert v / 64 == w / 64 && v % 64 == w % 64;
    } else if |x| == 3 {
      assert x[0] == y[0] && x[1] == y[1] && x[2] == y[2];
      assert v / 4096 == w / 4096 && v / 64 % 64 == w / 64 % 64 && v % 64 == w % 64;
      assert v / 64 == w / 64 by { Digits(v); Digits(w); }
    } else if |x| == 4 {
      assert x[0] == y[0] && x[1] == y[1] && x[2] == y[2] && x[3] == y[3];
      assert v / 262144 == w / 262144 && v / 4096 % 64 == w / 4096 % 64 && v / 64 % 64 == w / 64 % 64 &&
          v % 64 == w % 64;
      assert v / 64 == w / 64 by { Digits(v); Digits(w); }
    } else {
      assert x[0] == y[0];
    }
  }

  lemma Digits(v: nat)
    ensures v / 64 == v / 4096 * 64 + v / 64 % 64
    ensures v / 4096 == v / 262144 * 64 + v / 4096 % 64
  {
    InSixties(v / 64);
    InSixties(v / 4096);
    assert v / 64 / 64 == v / 4096 && v / 4096 / 64 == v / 262144;
  }

  lemma InSixties(v: nat)
    ensures v == v / 64 * 64 + v % 64
  {}

  lemma {:induction false} EncodeConcat(s: string, t: string)
    ensures Encode(s + t) == Encode(s) + Encode(t)
  {
    if s == [] {
      assert s + t == t;
    } else {
      assert (s + t)[1..] == s[1..] + t;
      EncodeConcat(s[1..], t);
    }
  }

  lemma FirstDecodes(t: string, k: string)
    requires k != [] && Encode(k) <= Encode(t)
    ensures t != [] && t[0] == k[0] && Encode(k[1..]) <= Encode(t[1..])
  {
    var rest := PrefixRest(Encode(k), Encode(t));
    EncodeHead(k);
    assert t != [];
    EncodeHead(t);
    Regroup(EncodeChar(k[0]), Encode(k[1..]), rest);
    PrefixFree(t[0], k[0], Encode(t[1..]), Encode(k[1..]) + rest);
  }

  lemma EncodeHead(s: string)
    requires s != []
    ensures Encode(s) == EncodeChar(s[0]) + Encode(s[1..]) && Encode(s) != []
  {}

  lemma PrefixRest(a: seq<byte>, b: seq<byte>) returns (rest: seq<byte>)
    requires a <= b
    ensures b == a + rest
  {
    rest := b[|a|..];
  }

  /** An encoded prefix is the encoding of a prefix. */
  lemma {:induction false} PrefixDecodes(t: string, k: string)
    requires Encode(k) <= Encode(t)
    ensures k <= t
  {
    if k == [] {
    } else {
      FirstDecodes(t, k);
      PrefixDecodes(t[1..], k[1..]);
      assert k == [k[0]] + k[1..] && t == [t[0]] + t[1..];
    }
  }

  predicate OccursAt<T(==)>(h: seq<T>, n: seq<T>, i: nat) { i + |n| <= |h| && h[i..i + |n|] == n }

  /** Bytes of the first i characters. */
  function Offset(t: string, i: nat): nat
    requires i <= |t|
  {
    |Encode(t[..i])|
  }

  /** An occurrence that does not start at the first byte starts behind the first character. */
  lemma LaterStart(t: string, k: string, o: nat)
    requires k != [] && OccursAt(Encode(t), Encode(k), o) && o > 0
    ensures t != [] && o >= |EncodeChar(t[0])|
    ensures OccursAt(Encode(t[1..]), Encode(k), o - |EncodeChar(t[0])|)
  {
    assert t != [];
    var first, rest, n := EncodeChar(t[0]), Encode(t[1..]), Encode(k);
    assert n[0] == EncodeChar(k[0])[0];
    LeadByte(k[0]);
    LeadByte(t[0]);
    OccursLater(first, rest, n, o);
  }

  /** An occurrence inside a + b starts at an element of a or lies in b. */
  lemma OccursLater(a: seq<byte>, b: seq<byte>, n: seq<byte>, o: nat)
    requires n != [] && OccursAt(a + b, n, o)
    ensures o < |a| ==> a[o] == n[0]
    ensures o >= |a| ==> OccursAt(b, n, o - |a|)
  {
    assert (a + b)[o] == (a + b)[o..o + |n|][0];
    if o >= |a| { assert (a + b)[o..o + |n|] == b[o - |a|..o - |a| + |n|]; }
  }

  /** A byte occurrence of a non-empty text starts at a character boundary and is an occurrence of the text. */
  lemma {:induction false} SelfSynchronizing(t: string, k: string, o: nat) returns (i: nat)
    requires k != [] && OccursAt(Encode(t), Encode(k), o)
    ensures i <= |t| && Offset(t, i) == o && OccursAt(t, k, i)
  {
    if o == 0 {
      assert Encode(t)[0..|Encode(k)|] == Encode(k);
      PrefixDecodes(t, k);
      i := 0;
      assert t[..0] == [];
    } else {
      LaterStart(t, k, o);
      var j := SelfSynchronizing(t[1..], k, o - |EncodeChar(t[0])|);
      i := j + 1;
      assert t[..i][1..] == t[1..][..j];
      assert t[i..i + |k|] == t[1..][j..j + |k|];
    }
  }

  /** The other direction: an occurrence of the text is one of the bytes. */
  lemma OccurrenceEncodes(t: string, k: string, i: nat)
    requires OccursAt(t, k, i)
    ensures OccursAt(Encode(t), Encode(k), Offset(t, i))
  {
    assert t == t[..i] + (k + t[i + |k|..]);
    EncodeConcat(t[..i], k + t[i + |k|..]);
    EncodeConcat(k, t[i + |k|..]);
  }

  lemma OffsetGrows(t: string, j: nat, i: nat)
    requires j < i <= |t|
    ensures Offset(t, j) < Offset(t, i)
  {
    assert t[..i] == t[..j] + t[j..i] && t[j..i] != [];
    EncodeConcat(t[..j], t[j..i]);
    assert Encode(t[j..i]) == EncodeChar(t[j]) + Encode(t[j..i][1..]);
  }

  /** strings.Index: the leftmost occurrence, -1 if there is none. */
  function Index<T(==)>(h: seq<T>, n: seq<T>): (r: int)
    ensures r >= 0 ==> OccursAt(h, n, r) && forall j: nat :: j < r ==> !OccursAt(h, n, j)
    ensures r < 0 ==> r == -1 && forall j: nat :: !OccursAt(h, n, j)
  {
    IndexFrom(h, n, 0)
  }

  function IndexFrom<T(==)>(h: seq<T>, n: seq<T>, i: nat): (r: int)
    ensures r >= 0 ==> r >= i && OccursAt(h, n, r) && forall j: nat :: i <= j < r ==> !OccursAt(h, n, j)
    ensures r < 0 ==> r == -1 && forall j: nat :: i <= j ==> !OccursAt(h, n, j)
    decreases |h| - i
  {
    if OccursAt(h, n, i) then i else if i >= |h| then -1 else IndexFrom(h, n, i + 1)
  }

  predicate Contains<T(==)>(h: seq<T>, n: seq<T>) { Index(h, n) >= 0 }

  /** Searching bytes or searching characters gives the same answer. */
  lemma ContainsAgrees(t: string, k: string)
    requires k != []
    ensures Contains(Encode(t), Encode(k)) <==> Contains(t, k)
  {
    if Contains(Encode(t), Encode(k)) {
      var i := SelfSynchronizing(t, k, Index(Encode(t), Encode(k)));
    }
    if Contains(t, k) { OccurrenceEncodes(t, k, Index(t, k)); }
  }

  // ---------- Cutting bytes ----------

  /** Valid UTF-8. */
  ghost predicate IsText(bytes: seq<byte>) { exists t: string :: Encode(t) == bytes }

  /** The character that a byte belongs to. */
  lemma {:induction false} CharOfByte(s: string, o: nat) returns (i: nat)
    requires o < |Encode(s)|
    ensures i < |s| && Offset(s, i) <= o < Offset(s, i) + |EncodeChar(s[i])|
    ensures Encode(s)[o] == EncodeChar(s[i])[o - Offset(s, i)]
  {
    var first := EncodeChar(s[0]);
    assert Encode(s) == first + Encode(s[1..]);
    if o < |first| {
      i := 0;
      assert s[..0] == [];
    } else {
      var j := CharOfByte(s[1..], o - |first|);
      i := j + 1;
      OffsetStep(s, j);
    }
  }

  lemma OffsetStep(s: string, j: nat)
    requires s != [] && j <= |s| - 1
    ensures Offset(s, j + 1) == |EncodeChar(s[0])| + Offset(s[1..], j)
  {
    assert s[..j + 1][1..] == s[1..][..j];
  }

  /** A character cut short and followed by another one is no text. */
  lemma CutCharacter(c: char, m: nat, tail: string, u: string)
    requires 0 < m < |EncodeChar(c)| && tail != []
    ensures Encode(u) != EncodeChar(c)[..m] + Encode(tail)
  {
    var cut := EncodeChar(c)[..m] + Encode(tail);
    if u != [] {
      var e := EncodeChar(u[0]);
      LeadByte(u[0]);
      LeadByte(tail[0]);
      assert Encode(u)[0] == e[0] && cut[0] == EncodeChar(c)[0];
      assert cut[m] == EncodeChar(tail[0])[0];
      if e[0] == EncodeChar(c)[0] {
        SameLength(u[0], c);
        assert Encode(u)[m] == e[m];
      }
    }
  }

  lemma Regroup(a: seq<byte>, b: seq<byte>, c: seq<byte>)
    ensures (a + b) + c == a + (b + c)
  {}

  /** Bytes cut off at o and followed by a text are a text exactly when the cut does not go through a character. */
  lemma CutIsTextIff(s: string, o: nat, tail: string)
    requires o < |Encode(s)| && tail != []
    ensures IsText(Encode(s)[..o] + Encode(tail)) <==> !IsContinuation(Encode(s)[o])
  {
    var i := CharOfByte(s, o);
    LeadByte(s[i]);
    SplitBytes(s, i, o);
    var cut := EncodeChar(s[i])[..o - Offset(s, i)];
    Regroup(Encode(s[..i]), cut, Encode(tail));
    if o == Offset(s, i) {
      EncodeConcat(s[..i], tail);
      assert cut + Encode(tail) == Encode(tail);
    } else {
      CutCharacterIsNoText(s[i], o - Offset(s, i), tail);
      NoTextBehind(s[..i], cut + Encode(tail));
    }
  }

  lemma CutCharacterIsNoText(c: char, m: nat, tail: string)
    requires 0 < m < |EncodeChar(c)| && tail != []
    ensures !IsText(EncodeChar(c)[..m] + Encode(tail))
  {
    forall u ensures Encode(u) != EncodeChar(c)[..m] + Encode(tail) { CutCharacter(c, m, tail, u); }
  }

  lemma SplitBytes(s: string, i: nat, o: nat)
    requires i < |s| && Offset(s, i) <= o <= Offset(s, i) + |EncodeChar(s[i])|
    ensures o <= |Encode(s)| && Encode(s)[..o] == Encode(s[..i]) + EncodeChar(s[i])[..o - Offset(s, i)]
  {
    assert s == s[..i] + s[i..] && s[i..] == [s[i]] + s[i + 1..];
    EncodeConcat(s[..i], s[i..]);
    assert Encode(s[i..]) == EncodeChar(s[i]) + Encode(s[i + 1..]);
  }

  /** Behind a text, what is no text leaves no text. */
  lemma NoTextBehind(left: string, cut: seq<byte>)
    requires !IsText(cut)
    ensures !IsText(Encode(left) + cut)
  {
    forall t ensures Encode(t) != Encode(left) + cut { NotThisText(left, cut, t); }
  }

  lemma NotThisText(left: string, cut: seq<byte>, t: string)
    requires !IsText(cut)
    ensures Encode(t) != Encode(left) + cut
  {
    if Encode(left) <= Encode(t) {
      PrefixDecodes(t, left);
      var u := t[|left|..];
      assert t == left + u;
      EncodeConcat(left, u);
      SameRest(Encode(left), Encode(u), cut);
    } else {
      assert Encode(left) <= Encode(left) + cut;
    }
  }

  lemma SameRest(a: seq<byte>, b: seq<byte>, c: seq<byte>)
    ensures a + b == a + c ==> b == c
  {
    assert (a + b)[|a|..] == b && (a + c)[|a|..] == c;
  }

  /** Byte o + 1 of a text is the second byte of the character that starts at byte o. */
  lemma SecondByte(s: string, i: nat)
    requires i < |s| && |EncodeChar(s[i])| >= 2
    ensures Offset(s, i) + 1 < |Encode(s)| && IsContinuation(Encode(s)[Offset(s, i) + 1])
  {
    SplitBytes(s, i, Offset(s, i) + 2);
    LeadByte(s[i]);
    var o := Offset(s, i);
    assert Encode(s)[o + 1] == Encode(s)[..o + 2][o + 1];
    assert EncodeChar(s[i])[..2][1] == EncodeChar(s[i])[1];
  }

  /** A letter of two bytes. */
  const TWO_BYTES: char := '\U{044F}'

  // ---------- Slices ----------

  /** The position is not inside a character. */
  predicate AtCharacter(bytes: seq<byte>, o: nat) { o >= |bytes| || !IsContinuation(bytes[o]) }

  /** A position that is not inside a character is where one starts, or the end. */
  lemma CharacterAt(s: string, o: nat) returns (i: nat)
    requires o <= |Encode(s)| && AtCharacter(Encode(s), o)
    ensures i <= |s| && Offset(s, i) == o && Encode(s)[..o] == Encode(s[..i])
  {
    if o == |Encode(s)| {
      i := |s|;
      assert s[..|s|] == s;
    } else {
      i := CharOfByte(s, o);
      LeadByte(s[i]);
      SplitBytes(s, i, o);
      assert EncodeChar(s[i])[..0] == [];
    }
  }

  lemma TextBehind(s: string, i: nat)
    requires i <= |s|
    ensures Offset(s, i) <= |Encode(s)| && Encode(s)[Offset(s, i)..] == Encode(s[i..])
  {
    assert s == s[..i] + s[i..];
    EncodeConcat(s[..i], s[i..]);
  }

  /** What comes before a text that completes a text is a text. */
  lemma TextBefore(x: seq<byte>, q: string)
    ensures IsText(x + Encode(q)) <==> IsText(x)
  {
    if IsText(x) {
      var t: string :| Encode(t) == x;
      EncodeConcat(t, q);
    }
    if IsText(x + Encode(q)) {
      var t: string :| Encode(t) == x + Encode(q);
      if q != "" { LeadByte(q[0]); }
      assert q != "" ==> Encode(t)[|x|] == EncodeChar(q[0])[0];
      var i := CharacterAt(t, |x|);
      assert Encode(t)[..|x|] == x;
    }
  }

  lemma TextAfter(p: string, x: seq<byte>)
    ensures IsText(Encode(p) + x) <==> IsText(x)
  {
    if IsText(x) {
      var t: string :| Encode(t) == x;
      EncodeConcat(p, t);
    } else {
      NoTextBehind(p, x);
    }
  }

  /** Texts on both sides make no difference. */
  lemma FramedIsTextIff(p: string, x: seq<byte>, q: string)
    ensures IsText(Encode(p) + x + Encode(q)) <==> IsText(x)
  {
    TextBefore(Encode(p) + x, q);
    TextAfter(p, x);
  }

  /** A cut of a text is a text exactly when the cut does not go through a character. */
  lemma PrefixIsTextIff(s: string, o: nat)
    requires o <= |Encode(s)|
    ensures IsText(Encode(s)[..o]) <==> AtCharacter(Encode(s), o)
  {
    if AtCharacter(Encode(s), o) {
      var i := CharacterAt(s, o);
    } else {
      CutIsTextIff(s, o, "x");
      TextBefore(Encode(s)[..o], "x");
    }
  }

  /** A text does not start inside a character. */
  lemma TextStarts(x: seq<byte>)
    requires x != [] && IsText(x)
    ensures !IsContinuation(x[0])
  {
    var t: string :| Encode(t) == x;
    LeadByte(t[0]);
  }

  /** A slice of a text is a text exactly when neither end lies inside a character. */
  lemma SliceIsTextIff(s: string, a: nat, b: nat)
    requires a <= b <= |Encode(s)| && (a == b ==> b == |Encode(s)|)
    ensures IsText(Encode(s)[a..b]) <==> AtCharacter(Encode(s), a) && AtCharacter(Encode(s), b)
  {
    var e := Encode(s);
    if AtCharacter(e, a) {
      var i := CharacterAt(s, a);
      TextBehind(s, i);
      var f := Encode(s[i..]);
      assert f == e[a..];
      PrefixIsTextIff(s[i..], b - a);
      assert e[a..b] == f[..b - a];
      assert b < |e| ==> f[b - a] == e[b];
    } else {
      assert e[a..b][0] == e[a];
      if IsText(e[a..b]) { TextStarts(e[a..b]); }
    }
  }
}
