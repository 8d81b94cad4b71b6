/** Cutting text into sentences and building the summary. */
module Sentences {
  import opened HtmlText
  import opened Utf8

  const MIN_RUNES: nat := 10
  const FALLBACK_BYTES: nat := 500

  /** A terminator followed by a space, a line break or the end of the text. */
  predicate EndsAt(text: string, i: nat)
    requires i < |text|
  {
    && (text[i] == '.' || text[i] == '!' || text[i] == '?')
    && (i + 1 >= |text| || text[i + 1] == ' ' || text[i + 1] == '\n' || text[i + 1] == '\r')
  }

  // ---------- What the cut is ----------

  /** The pieces between ends, starting at from, when the text before i holds no further end. */
  function Pieces(text: string, from: nat, i: nat): seq<string>
    requires from <= i <= |text|
    decreases |text| - i
  {
    if i == |text| then []
    else if EndsAt(text, i) then [text[from..i + 1]] + Pieces(text, i + 1, i + 1)
    else Pieces(text, from, i + 1)
  }

  /** What is left behind the last end. */
  function Rest(text: string, from: nat, i: nat): string
    requires from <= i <= |text|
    decreases |text| - i
  {
    if i == |text| then text[from..]
    else if EndsAt(text, i) then Rest(text, i + 1, i + 1)
    else Rest(text, from, i + 1)
  }

  function Join(parts: seq<string>): string { if parts == [] then "" else parts[0] + Join(parts[1..]) }

  /** Pieces and rest are the whole text. */
  lemma {:induction false} PiecesConserve(text: string, from: nat, i: nat)
    requires from <= i <= |text|
    ensures Join(Pieces(text, from, i)) + Rest(text, from, i) == text[from..]
    decreases |text| - i
  {
    if i == |text| {
    } else {
      if EndsAt(text, i) {
        PiecesConserve(text, i + 1, i + 1);
        assert text[from..] == text[from..i + 1] + text[i + 1..];
        assert Pieces(text, from, i)[1..] == Pieces(text, i + 1, i + 1);
      } else {
        PiecesConserve(text, from, i + 1);
      }
    }
  }

  /** Where the first n pieces end. */
  function EndOf(pieces: seq<string>, n: nat): nat
    requires n <= |pieces|
  {
    if n == 0 then 0 else |pieces[0]| + EndOf(pieces[1..], n - 1)
  }

  /** Some number of leading pieces has e characters. */
  ghost predicate CutAt(pieces: seq<string>, e: int) {
    exists n: nat :: 0 < n <= |pieces| && EndOf(pieces, n) == e
  }

  lemma CutAtStep(pieces: seq<string>, e: int)
    requires pieces != []
    ensures CutAt(pieces, e) <==> e == |pieces[0]| || CutAt(pieces[1..], e - |pieces[0]|)
  {
    var rest, d := pieces[1..], e - |pieces[0]|;
    if CutAt(pieces, e) {
      var n: nat :| 0 < n <= |pieces| && EndOf(pieces, n) == e;
      assert EndOf(pieces, n) == |pieces[0]| + EndOf(rest, n - 1);
      if n == 1 { assert EndOf(rest, 0) == 0; } else { assert 0 < n - 1 <= |rest| && EndOf(rest, n - 1) == d; }
    }
    if d == 0 {
      assert EndOf(rest, 0) == 0;
      assert EndOf(pieces, 1) == e;
    }
    if CutAt(rest, d) {
      var n: nat :| 0 < n <= |rest| && EndOf(rest, n) == d;
      assert EndOf(pieces, n + 1) == |pieces[0]| + EndOf(rest, n);
    }
  }

  /** No cut comes before the first character. */
  lemma CutsArePositive(pieces: seq<string>, e: int)
    requires forall p :: p in pieces ==> p != ""
    ensures CutAt(pieces, e) ==> e > 0
  {
    if CutAt(pieces, e) {
      var n: nat :| 0 < n <= |pieces| && EndOf(pieces, n) == e;
      assert pieces[0] in pieces && EndOf(pieces, n) >= |pieces[0]|;
    }
  }

  lemma {:induction false} PiecesAreNotEmpty(text: string, from: nat, i: nat)
    requires from <= i <= |text|
    ensures forall p :: p in Pieces(text, from, i) ==> p != ""
    decreases |text| - i
  {
    if i == |text| {
    } else {
      if EndsAt(text, i) { PiecesAreNotEmpty(text, i + 1, i + 1); } else { PiecesAreNotEmpty(text, from, i + 1); }
    }
  }

  /** The pieces end exactly at the ends of sentences. */
  lemma {:induction false} PiecesEndAtEnds(text: string, from: nat, i: nat, k: nat)
    requires from <= i <= |text| && from <= k < |text|
    requires k < i ==> !EndsAt(text, k)
    ensures EndsAt(text, k) <==> CutAt(Pieces(text, from, i), k + 1 - from)
    decreases |text| - i
  {
    if i == |text| {
    } else {
      if EndsAt(text, i) {
        var ps, qs := Pieces(text, from, i), Pieces(text, i + 1, i + 1);
        assert ps[1..] == qs && |ps[0]| == i + 1 - from;
        CutAtStep(ps, k + 1 - from);
        if k > i {
          PiecesEndAtEnds(text, i + 1, i + 1, k);
        } else {
          PiecesAreNotEmpty(text, i + 1, i + 1);
          CutsArePositive(qs, k - i);
        }
      } else {
        PiecesEndAtEnds(text, from, i + 1, k);
      }
    }
  }

  /** The trimmed pieces that are longer than ten characters. */
  function Kept(pieces: seq<string>): seq<string> {
    if pieces == [] then []
    else (if |TrimSpace(pieces[0])| > MIN_RUNES then [TrimSpace(pieces[0])] else []) + Kept(pieces[1..])
  }

  function Tail(rest: string): seq<string> { if TrimSpace(rest) != "" then [TrimSpace(rest)] else [] }

  function Split(text: string): seq<string> { Kept(Pieces(text, 0, 0)) + Tail(Rest(text, 0, 0)) }

  // ---------- The loop ----------

  function Keep(piece: string): seq<string> { if |TrimSpace(piece)| > MIN_RUNES then [TrimSpace(piece)] else [] }

  /** What the loop still appends when it stands at i with the piece that began at from. */
  function Remaining(text: string, from: nat, i: nat): seq<string>
    requires from <= i <= |text|
    decreases |text| - i
  {
    if i == |text| then Tail(text[from..])
    else if EndsAt(text, i) then Keep(text[from..i + 1]) + Remaining(text, i + 1, i + 1)
    else Remaining(text, from, i + 1)
  }

  lemma {:induction false} RemainingIsSplit(text: string, from: nat, i: nat)
    requires from <= i <= |text|
    ensures Remaining(text, from, i) == Kept(Pieces(text, from, i)) + Tail(Rest(text, from, i))
    decreases |text| - i
  {
    if i == |text| {
    } else {
      if EndsAt(text, i) {
        RemainingIsSplit(text, i + 1, i + 1);
        KeepFirst(text[from..i + 1], Pieces(text, i + 1, i + 1), Tail(Rest(text, i + 1, i + 1)));
      } else {
        RemainingIsSplit(text, from, i + 1);
      }
    }
  }

  lemma KeepFirst(piece: string, later: seq<string>, tail: seq<string>)
    ensures Kept([piece] + later) + tail == Keep(piece) + (Kept(later) + tail)
  {
    assert ([piece] + later)[1..] == later;
  }

  lemma Longer(text: string, from: nat, i: nat)
    requires from <= i < |text|
    ensures text[from..i] + [text[i]] == text[from..i + 1]
  {}

  lemma Regroup(a: seq<string>, b: seq<string>, c: seq<string>)
    ensures a + (b + c) == (a + b) + c
  {}

  method SplitSentences(text: string) returns (sentences: seq<string>)
    ensures sentences == Split(text)
  {
    sentences := [];
    var cur := "";
    ghost var from := 0;
    for i := 0 to |text|
      invariant from <= i && cur == text[from..i]
      invariant sentences + Remaining(text, from, i) == Remaining(text, 0, 0)
    {
      cur := cur + [text[i]];
      Longer(text, from, i);
      if text[i] == '.' || text[i] == '!' || text[i] == '?' {
        var next := i + 1;
        if next >= |text| || text[next] == ' ' || text[next] == '\n' || text[next] == '\r' {
          var s := TrimSpace(cur);
          Regroup(sentences, Keep(cur), Remaining(text, i + 1, i + 1));
          if |s| > MIN_RUNES { sentences := sentences + [s]; }
          cur := "";
          from := i + 1;
        }
      }
    }
    assert cur == text[from..];
    if |cur| > 0 {
      var s := TrimSpace(cur);
      if s != "" { sentences := sentences + [s]; }
    }
    assert sentences == Remaining(text, 0, 0);
    RemainingIsSplit(text, 0, 0);
  }

  // ---------- Main results ----------

  /** Splitting loses nothing but what trimming and the length rule drop. */
  lemma SplitConserves(text: string)
    ensures Join(Pieces(text, 0, 0)) + Rest(text, 0, 0) == text
    ensures forall k: nat :: k < |text| ==> (EndsAt(text, k) <==> CutAt(Pieces(text, 0, 0), k + 1))
    ensures forall p :: p in Pieces(text, 0, 0) ==> p != ""
    ensures forall s :: s in Split(text) ==> s != "" && Trimmed(s)
    ensures forall p :: p in Pieces(text, 0, 0) && |TrimSpace(p)| > 10 ==> TrimSpace(p) in Split(text)
  {
    PiecesConserve(text, 0, 0);
    forall k: nat | k < |text| ensures EndsAt(text, k) <==> CutAt(Pieces(text, 0, 0), k + 1) {
      PiecesEndAtEnds(text, 0, 0, k);
    }
    PiecesAreNotEmpty(text, 0, 0);
    assert text[0..] == text;
    KeptAreTrimmed(Pieces(text, 0, 0));
    LongAreKept(Pieces(text, 0, 0));
    var a, b := TrimIsStretch(Rest(text, 0, 0));
    assert forall s :: s in Split(text) ==> s in Kept(Pieces(text, 0, 0)) || s in Tail(Rest(text, 0, 0));
  }

  lemma {:induction false} KeptAreTrimmed(pieces: seq<string>)
    ensures forall s :: s in Kept(pieces) ==> |s| > MIN_RUNES && Trimmed(s)
  {
    if pieces == [] {
    } else {
      KeptAreTrimmed(pieces[1..]);
      var a, b := TrimIsStretch(pieces[0]);
    }
  }

  lemma {:induction false} LongAreKept(pieces: seq<string>)
    ensures forall p :: p in pieces && |TrimSpace(p)| > MIN_RUNES ==> TrimSpace(p) in Kept(pieces)
  {
    if pieces == [] {
    } else {
      LongAreKept(pieces[1..]);
      assert pieces == [pieces[0]] + pieces[1..];
    }
  }

  function JoinWith(parts: seq<string>): string {
    if parts == [] then "" else if |parts| == 1 then parts[0] else parts[0] + " " + JoinWith(parts[1..])
  }

  function SourceOf(content: string, description: string): string { if content == "" then description else content }

  /** The first sentences of the content, else of the description, else the title. */
  function ExtractSummary(content: string, description: string, title: string, maxSent: nat): seq<byte> {
    var source := SourceOf(content, description);
    if source == "" then Encode(title) else
    var sentences := Split(source);
    if sentences == [] then
      (if |Encode(source)| > FALLBACK_BYTES then Encode(source)[..FALLBACK_BYTES] + Encode("\U{2026}")
        else Encode(source))
    else Encode(JoinWith(sentences[..if maxSent <= |sentences| then maxSent else |sentences|]))
  }

  /** A summary is never empty when there is something to summarise; without sentences it has at most 503 bytes,
      and then the text is nothing but dropped short sentences. */
  lemma SummaryIsUseful(content: string, description: string, title: string, maxSent: nat)
    requires maxSent >= 1 && (content != "" || description != "")
    ensures ExtractSummary(content, description, title, maxSent) != []
    ensures var sentences := Split(SourceOf(content, description));
            sentences != [] ==> ExtractSummary(content, description, title, maxSent) ==
                                Encode(JoinWith(if maxSent < |sentences| then sentences[..maxSent] else sentences))
    ensures var source := SourceOf(content, description);
            Split(source) == [] ==>
              && |ExtractSummary(content, description, title, maxSent)| <= FALLBACK_BYTES + 3
              && (forall p :: p in Pieces(source, 0, 0) ==> |TrimSpace(p)| <= MIN_RUNES)
              && TrimSpace(Rest(source, 0, 0)) == ""
  {
    var source := SourceOf(content, description);
    var sentences := Split(source);
    SplitConserves(source);
    if sentences == [] {
      NothingKept(Pieces(source, 0, 0));
      FallbackFits(source);
    } else {
      assert sentences[0] in sentences;
      JoinedIsNotEmpty(sentences, if maxSent <= |sentences| then maxSent else |sentences|);
      assert sentences[..|sentences|] == sentences;
    }
  }

  /** What stands for a text without sentences. */
  lemma FallbackFits(source: string)
    requires source != ""
    ensures Encode(source) != []
    ensures |Encode(source)| > FALLBACK_BYTES ==>
        0 < |Encode(source)[..FALLBACK_BYTES] + Encode("\U{2026}")| <= FALLBACK_BYTES + 3
  {
    assert Encode(source) == EncodeChar(source[0]) + Encode(source[1..]);
    EllipsisBytes();
  }

  /** Joining puts one space between neighbours and nothing else. */
  lemma {:induction false} JoinedWithSpaces(a: seq<string>, b: seq<string>)
    requires a != [] && b != []
    ensures JoinWith(a + b) == JoinWith(a) + " " + JoinWith(b)
    ensures JoinWith([a[0]]) == a[0]
  {
    if |a| == 1 {
      assert (a + b)[1..] == b;
    } else {
      JoinedWithSpaces(a[1..], b);
      assert (a + b)[1..] == a[1..] + b;
    }
  }

  const ELLIPSIS: seq<byte> := [0xE2, 0x80, 0xA6]

  /** The content alone decides if there is one, else the description, else the title; a text without sentences is
      kept as it is up to 500 bytes and cut there, with an ellipsis, if it is longer. */
  lemma SummaryOfWhat(content: string, description: string, title: string, maxSent: nat)
    ensures content == "" && description == "" ==>
        ExtractSummary(content, description, title, maxSent) == Encode(title)
    ensures content == "" ==>
        ExtractSummary(content, description, title, maxSent) == ExtractSummary(description, "", title, maxSent)
    ensures content != "" ==> forall d, t ::
        ExtractSummary(content, d, t, maxSent) == ExtractSummary(content, description, title, maxSent)
    ensures content != "" && Split(content) == [] && |Encode(content)| <= 500 ==>
        ExtractSummary(content, description, title, maxSent) == Encode(content)
    ensures content != "" && Split(content) == [] && |Encode(content)| > 500 ==>
        ExtractSummary(content, description, title, maxSent) == Encode(content)[..500] + ELLIPSIS
  {
    EllipsisBytes();
  }

  lemma EllipsisBytes()
    ensures Encode("\U{2026}") == ELLIPSIS && |Encode("\U{2026}")| == 3
  {
    assert Encode("\U{2026}") == EncodeChar('\U{2026}') + Encode("\U{2026}"[1..]);
    assert EncodeChar('\U{2026}') == ELLIPSIS;
  }

  lemma JoinedIsNotEmpty(sentences: seq<string>, n: nat)
    requires 1 <= n <= |sentences| && sentences[0] != ""
    ensures Encode(JoinWith(sentences[..n])) != []
  {
    var joined := JoinWith(sentences[..n]);
    assert sentences[..n][0] == sentences[0];
    assert |joined| >= |sentences[0]| > 0;
    assert Encode(joined) == EncodeChar(joined[0]) + Encode(joined[1..]);
  }

  /** A summary is valid UTF-8 exactly when there are sentences, or at most 500 bytes, or byte 500 starts a
      character. */
  lemma SummaryIsTextIff(content: string, description: string, title: string, maxSent: nat)
    ensures var source := SourceOf(content, description);
            IsText(ExtractSummary(content, description, title, maxSent)) <==>
              Split(source) != [] || |Encode(source)| <= FALLBACK_BYTES ||
                !IsContinuation(Encode(source)[FALLBACK_BYTES])
  {
    var source := SourceOf(content, description);
    if source != "" && Split(source) == [] && |Encode(source)| > FALLBACK_BYTES {
      CutIsTextIff(source, FALLBACK_BYTES, "\U{2026}");
    }
  }

  // ---------- A summary that is no text ----------

  /** n sentences of two letters each, as a cleaned page may hold them. */
  function ShortSentences(n: nat): string {
    seq(4 * n, i requires 0 <= i < 4 * n => if i == 0 then 'x' else if i % 4 == 0 then ' ' else if i % 4 == 3 then '.'
      else TWO_BYTES)
  }

  lemma ShortIsNormal(n: nat)
    requires n > 0
    ensures Normal(ShortSentences(n))
  {
    var s := ShortSentences(n);
    assert forall i :: 0 <= i < |s| ==> s[i] != '<' && s[i] != '&' && (IsReSpace(s[i]) ==> s[i] == ' ' && i % 4 == 0);
    assert s[0] == 'x' && s[|s| - 1] == '.';
  }

  /** All pieces are too short, and nothing is left behind the last one. */
  lemma {:induction false} NothingRemains(n: nat, j: nat)
    requires j <= n
    ensures Remaining(ShortSentences(n), 4 * j, 4 * j) == []
    decreases n - j
  {
    var s := ShortSentences(n);
    if j == n {
      assert s[4 * j..] == "";
    } else {
      NothingRemains(n, j + 1);
      ShortGroupEnds(n, j);
      GroupRemains(s, 4 * j);
      FourAreTooShort(s[4 * j..4 * j + 4]);
    }
  }

  lemma ShortGroupEnds(n: nat, j: nat)
    requires j < n
    ensures var s, i := ShortSentences(n), 4 * j;
            !EndsAt(s, i) && !EndsAt(s, i + 1) && !EndsAt(s, i + 2) && EndsAt(s, i + 3)
  {
    var s, i := ShortSentences(n), 4 * j;
    assert (i + 1) % 4 == 1 && (i + 2) % 4 == 2 && (i + 3) % 4 == 3 && (i + 4) % 4 == 0;
    assert s[i + 1] == TWO_BYTES && s[i + 2] == TWO_BYTES && s[i + 3] == '.';
  }

  lemma FourAreTooShort(piece: string)
    requires |piece| == 4
    ensures Keep(piece) == []
  {
    var a, b := TrimIsStretch(piece);
  }

  lemma GroupRemains(s: string, i: nat)
    requires i + 4 <= |s| && !EndsAt(s, i) && !EndsAt(s, i + 1) && !EndsAt(s, i + 2) && EndsAt(s, i + 3)
    ensures Remaining(s, i, i) == Keep(s[i..i + 4]) + Remaining(s, i + 4, i + 4)
  {
    assert Remaining(s, i, i + 3) == Keep(s[i..i + 4]) + Remaining(s, i + 4, i + 4);
    assert Remaining(s, i, i) == Remaining(s, i, i + 1) == Remaining(s, i, i + 2) == Remaining(s, i, i + 3);
  }

  lemma GroupWidth(n: nat, j: nat)
    requires j < n
    ensures |Encode(ShortSentences(n)[4 * j..4 * j + 4])| == 6
  {
    var s, i := ShortSentences(n), 4 * j;
    assert (i + 1) % 4 == 1 && (i + 2) % 4 == 2 && (i + 3) % 4 == 3;
    FourWidth(s[i], s[i + 1], s[i + 2], s[i + 3]);
    assert s[i..i + 4] == [s[i], s[i + 1], s[i + 2], s[i + 3]];
  }

  lemma WidthAfter(s: string, i: nat, j: nat)
    requires i <= j <= |s|
    ensures |Encode(s[..j])| == |Encode(s[..i])| + |Encode(s[i..j])|
  {
    assert s[..j] == s[..i] + s[i..j];
    EncodeConcat(s[..i], s[i..j]);
  }

  lemma {:induction false} ShortWidth(n: nat, j: nat)
    requires j <= n
    ensures |Encode(ShortSentences(n)[..4 * j])| == 6 * j
    decreases j
  {
    if j == 0 {
      assert ShortSentences(n)[..0] == "";
    } else {
      ShortWidth(n, j - 1);
      GroupWidth(n, j - 1);
      WidthAfter(ShortSentences(n), 4 * (j - 1), 4 * j);
    }
  }

  lemma FourWidth(a: char, b: char, c: char, d: char)
    ensures |Encode([a, b, c, d])| == |EncodeChar(a)| + |EncodeChar(b)| + |EncodeChar(c)| + |EncodeChar(d)|
  {
    assert [a, b, c, d][1..] == [b, c, d] && [b, c, d][1..] == [c, d] && [c, d][1..] == [d] && [d][1..] == "";
    assert Encode([d]) == EncodeChar(d) + Encode("");
    assert Encode([c, d]) == EncodeChar(c) + Encode([d]);
    assert Encode([b, c, d]) == EncodeChar(b) + Encode([c, d]);
  }

  /** The third byte of every sentence but the first is the second byte of a letter. */
  lemma CutInside(n: nat, j: nat)
    requires 0 < j < n
    ensures |Encode(ShortSentences(n))| == 6 * n && IsContinuation(Encode(ShortSentences(n))[6 * j + 2])
  {
    var s := ShortSentences(n);
    ShortWidth(n, n);
    assert s[..|s|] == s;
    WidthInside(n, j);
    assert (4 * j + 1) % 4 == 1;
    assert s[4 * j + 1] == TWO_BYTES;
    SecondByte(s, 4 * j + 1);
  }

  lemma WidthInside(n: nat, j: nat)
    requires 0 < j < n
    ensures |Encode(ShortSentences(n)[..4 * j + 1])| == 6 * j + 1
  {
    var s := ShortSentences(n);
    ShortWidth(n, j);
    WidthAfter(s, 4 * j, 4 * j + 1);
    SpaceWidth(n, j);
    OneWidth(s, 4 * j);
  }

  lemma SpaceWidth(n: nat, j: nat)
    requires 0 < j < n
    ensures |EncodeChar(ShortSentences(n)[4 * j])| == 1
  {
    assert ShortSentences(n)[4 * j] == ' ';
  }

  lemma OneWidth(s: string, i: nat)
    requires i < |s|
    ensures |Encode(s[i..i + 1])| == |EncodeChar(s[i])|
  {
    assert s[i..i + 1] == [s[i]] && [s[i]][1..] == "";
    assert Encode([s[i]]) == EncodeChar(s[i]) + Encode("");
  }

  /** Short sentences in a two-byte script: a cleaned page whose summary is cut inside a letter. */
  lemma SummaryCanBreak(title: string, maxSent: nat)
    ensures var content := ShortSentences(84);
            StripHTML(content) == content && !IsText(ExtractSummary(content, "", title, maxSent))
  {
    var n := 84;
    var content := ShortSentences(n);
    ShortIsNormal(n);
    FixpointsAreNormal(content);
    NothingRemains(n, 0);
    RemainingIsSplit(content, 0, 0);
    CutInside(n, 83);
    SummaryIsTextIff(content, "", title, maxSent);
  }

  lemma {:induction false} NothingKept(pieces: seq<string>)
    ensures Kept(pieces) == [] <==> forall p :: p in pieces ==> |TrimSpace(p)| <= MIN_RUNES
  {
    if pieces == [] {
    } else {
      NothingKept(pieces[1..]);
    }
  }

  /** truncate: at most n characters, with an ellipsis when something was cut. */
  function Truncate(s: string, n: nat): string
    requires n >= 1
  {
    if |s| <= n then s else s[..n - 1] + "\U{2026}"
  }

  /** The column width is kept, what fits is untouched, and the kept part is a prefix. */
  lemma TruncateFits(s: string, n: nat)
    requires n >= 1
    ensures |Truncate(s, n)| <= n
    ensures |s| <= n ==> Truncate(s, n) == s
    ensures |s| > n ==> |Truncate(s, n)| == n && Truncate(s, n)[..n - 1] <= s && Truncate(s, n)[n - 1] == '\U{2026}'
  {}
}
