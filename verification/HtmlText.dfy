/** Cleaning of page text: three rewriting passes and a trim, over Unicode scalar values. */
module HtmlText {

  // ---------- The three patterns ----------

  datatype Pattern = Tags | Entities | Spaces

  /** \s of the regular expression engine. */
  predicate IsReSpace(c: char) { c == ' ' || c == '\t' || c == '\n' || c == '\r' || c == '\U{000C}' }

  predicate IsLetter(c: char) { 'a' <= c <= 'z' || 'A' <= c <= 'Z' }

  predicate IsDigit(c: char) { '0' <= c <= '9' }

  predicate IsNotGt(c: char) { c != '>' }

  predicate AllIn(s: string, i: nat, j: nat, f: char -> bool)
    requires j <= |s|
  {
    forall k :: i <= k < j ==> f(s[k])
  }

  /** The text between i and j is in the language of the pattern:
      <[^>]+>   and   &[a-zA-Z]{2,6};|&#[0-9]{1,5};   and   \s+ */
  predicate MatchAt(p: Pattern, s: string, i: nat, j: nat) {
    i < j <= |s| &&
    match p
    case Tags => j - i >= 3 && s[i] == '<' && s[j - 1] == '>' && AllIn(s, i + 1, j - 1, IsNotGt)
    case Entities =>
      s[i] == '&' && s[j - 1] == ';'
      && ((4 <= j - i <= 8 && AllIn(s, i + 1, j - 1, IsLetter))
          || (4 <= j - i <= 8 && s[i + 1] == '#' && AllIn(s, i + 2, j - 1, IsDigit)))
    case Spaces => AllIn(s, i, j, IsReSpace)
  }

  ghost predicate Starts(p: Pattern, s: string, i: nat) { exists j: nat :: MatchAt(p, s, i, j) }

  // ---------- The matcher ----------

  /** End of the run of characters of the class that starts at i. */
  function RunEnd(s: string, i: nat, f: char -> bool): (n: nat)
    requires i <= |s|
    ensures i <= n <= |s| && AllIn(s, i, n, f) && (n < |s| ==> !f(s[n]))
    decreases |s| - i
  {
    if i < |s| && f(s[i]) then RunEnd(s, i + 1, f) else i
  }

  /** End of the match that starts at i; i itself when there is none. */
  function MatchEnd(p: Pattern, s: string, i: nat): (n: nat)
    requires i <= |s|
    ensures i <= n <= |s|
  {
    if i == |s| then i else
    match p
    case Tags =>
      if s[i] != '<' then i else
      var n := RunEnd(s, i + 1, IsNotGt);
      if n > i + 1 && n < |s| then n + 1 else i
    case Entities =>
      if s[i] != '&' then i else
      var l := RunEnd(s, i + 1, IsLetter);
      if 2 <= l - (i + 1) <= 6 && l < |s| && s[l] == ';' then l + 1
      else if i + 1 == |s| || s[i + 1] != '#' then i else
      var d := RunEnd(s, i + 2, IsDigit);
      if 1 <= d - (i + 2) <= 5 && d < |s| && s[d] == ';' then d + 1 else i
    case Spaces => RunEnd(s, i, IsReSpace)
  }

  lemma EntityEnd(s: string, i: nat, j: nat)
    requires MatchAt(Entities, s, i, j)
    ensures MatchEnd(Entities, s, i) == j
  {
    var l := RunEnd(s, i + 1, IsLetter);
    if IsLetter(s[i + 1]) {
      assert l == j - 1;
    } else {
      assert l == i + 1;
      assert RunEnd(s, i + 2, IsDigit) == j - 1;
    }
  }

  /** The matcher finds the longest match, and nothing only when there is none. */
  lemma MatchEndIsLongest(p: Pattern, s: string, i: nat)
    requires i <= |s|
    ensures MatchEnd(p, s, i) > i ==> MatchAt(p, s, i, MatchEnd(p, s, i))
    ensures forall j: nat :: MatchAt(p, s, i, j) ==> j <= MatchEnd(p, s, i)
    ensures Starts(p, s, i) <==> MatchEnd(p, s, i) > i
  {
    forall j: nat | MatchAt(p, s, i, j) ensures j <= MatchEnd(p, s, i) {
      match p
      case Tags => assert RunEnd(s, i + 1, IsNotGt) == j - 1;
      case Entities => EntityEnd(s, i, j);
      case Spaces =>
    }
    if MatchEnd(p, s, i) > i { assert MatchAt(p, s, i, MatchEnd(p, s, i)); }
  }

  // ---------- ReplaceAllString(s, " ") and StripHTML ----------

  function Rewrite(p: Pattern, s: string, i: nat): string
    requires i <= |s|
    decreases |s| - i
  {
    if i == |s| then ""
    else if MatchEnd(p, s, i) > i then " " + Rewrite(p, s, MatchEnd(p, s, i))
    else [s[i]] + Rewrite(p, s, i + 1)
  }

  function ReplaceAll(p: Pattern, s: string): string { Rewrite(p, s, 0) }

  predicate IsSpace(c: char) {
    || IsReSpace(c) || c == '\U{000B}' || c == '\U{0085}' || c == '\U{00A0}' || c == '\U{1680}'
    || '\U{2000}' <= c <= '\U{200A}' || c == '\U{2028}' || c == '\U{2029}' || c == '\U{202F}' || c == '\U{205F}' ||
      c == '\U{3000}'
  }

  function TrimLeft(s: string): string { if s != [] && IsSpace(s[0]) then TrimLeft(s[1..]) else s }

  function TrimRight(s: string): string {
    if s != [] && IsSpace(s[|s| - 1]) then TrimRight(s[..|s| - 1]) else s
  }

  function TrimSpace(s: string): string { TrimRight(TrimLeft(s)) }

  function StripHTML(s: string): string {
    TrimSpace(ReplaceAll(Spaces, ReplaceAll(Entities, ReplaceAll(Tags, s))))
  }

  // ---------- Rewriting is leftmost, longest, non-overlapping replacement ----------

  datatype Span = Span(from: nat, to: nat)

  /** The spans from position i on are the leftmost longest matches, one after the other. */
  ghost predicate LeftmostLongest(p: Pattern, s: string, i: nat, spans: seq<Span>)
    decreases |spans|
  {
    if spans == [] then forall k: nat :: i <= k < |s| ==> !Starts(p, s, k)
    else
      var m := spans[0];
      && i <= m.from && MatchAt(p, s, m.from, m.to)
      && (forall k: nat :: i <= k < m.from ==> !Starts(p, s, k))
      && (forall j: nat :: MatchAt(p, s, m.from, j) ==> j <= m.to)
      && LeftmostLongest(p, s, m.to, spans[1..])
  }

  /** The text from i on with every span replaced by one space. */
  function Blanked(s: string, i: nat, spans: seq<Span>): string
    decreases |spans|
  {
    if spans == [] then (if i <= |s| then s[i..] else "")
    else if i <= spans[0].from <= |s| then s[i..spans[0].from] + " " + Blanked(s, spans[0].to, spans[1..])
    else ""
  }

  lemma {:induction false} SpansExist(p: Pattern, s: string, i: nat) returns (spans: seq<Span>)
    requires i <= |s|
    ensures LeftmostLongest(p, s, i, spans)
    decreases |s| - i
  {
    MatchEndIsLongest(p, s, i);
    if i == |s| {
      spans := [];
    } else if MatchEnd(p, s, i) > i {
      var rest := SpansExist(p, s, MatchEnd(p, s, i));
      spans := [Span(i, MatchEnd(p, s, i))] + rest;
      assert spans[1..] == rest;
    } else {
      spans := SpansExist(p, s, i + 1);
    }
  }

  lemma BlankedStep(s: string, i: nat, spans: seq<Span>)
    requires i < |s| && (spans != [] ==> i < spans[0].from <= |s|)
    ensures Blanked(s, i, spans) == [s[i]] + Blanked(s, i + 1, spans)
  {
    if spans == [] {
      assert s[i..] == [s[i]] + s[i + 1..];
    } else {
      assert s[i..spans[0].from] == [s[i]] + s[i + 1..spans[0].from];
    }
  }

  /** Where the matcher finds something the first span is what it finds. */
  lemma FirstSpan(p: Pattern, s: string, i: nat, spans: seq<Span>)
    requires i < |s| && LeftmostLongest(p, s, i, spans) && MatchEnd(p, s, i) > i
    ensures spans != [] && spans[0] == Span(i, MatchEnd(p, s, i)) && spans[0].to <= |s|
    ensures LeftmostLongest(p, s, spans[0].to, spans[1..])
    ensures Blanked(s, i, spans) == " " + Blanked(s, spans[0].to, spans[1..])
  {
    MatchEndIsLongest(p, s, i);
    assert s[i..i] + " " == " ";
  }

  /** Where it finds nothing no span starts. */
  lemma NoSpanHere(p: Pattern, s: string, i: nat, spans: seq<Span>)
    requires i < |s| && LeftmostLongest(p, s, i, spans) && MatchEnd(p, s, i) <= i
    ensures LeftmostLongest(p, s, i + 1, spans) && (spans != [] ==> i < spans[0].from <= |s|)
  {
    MatchEndIsLongest(p, s, i);
  }

  /** Replacing is what the leftmost longest matches define; there is only one way to choose them. */
  lemma {:induction false} RewriteIsReplacement(p: Pattern, s: string, i: nat, spans: seq<Span>)
    requires i <= |s| && LeftmostLongest(p, s, i, spans)
    ensures Rewrite(p, s, i) == Blanked(s, i, spans)
    decreases |s| - i
  {
    if i == |s| {
    } else {
      if MatchEnd(p, s, i) > i {
        FirstSpan(p, s, i, spans);
        RewriteIsReplacement(p, s, spans[0].to, spans[1..]);
      } else {
        NoSpanHere(p, s, i, spans);
        RewriteIsReplacement(p, s, i + 1, spans);
        BlankedStep(s, i, spans);
      }
    }
  }

  // ---------- No pass recreates what another removes ----------

  ghost predicate Free(p: Pattern, s: string) { forall i: nat :: i < |s| ==> !Starts(p, s, i) }

  /** A character of the result that is no space was copied. */
  lemma CopiedOne(p: Pattern, s: string, i: nat)
    requires i <= |s| && Rewrite(p, s, i) != "" && Rewrite(p, s, i)[0] != ' '
    ensures i < |s| && Rewrite(p, s, i) == [s[i]] + Rewrite(p, s, i + 1)
  {}

  /** A stretch of the result without spaces was copied. */
  lemma {:induction false} Copied(p: Pattern, s: string, i: nat, k: nat)
    requires i <= |s| && k <= |Rewrite(p, s, i)|
    requires forall x :: 0 <= x < k ==> Rewrite(p, s, i)[x] != ' '
    ensures i + k <= |s| && forall x :: 0 <= x < k ==> s[i + x] == Rewrite(p, s, i)[x]
    decreases k
  {
    if k == 0 {
    } else {
      CopiedOne(p, s, i);
      var o, rest := Rewrite(p, s, i), Rewrite(p, s, i + 1);
      assert forall x :: 0 <= x < |rest| ==> rest[x] == o[x + 1];
      Copied(p, s, i + 1, k - 1);
    }
  }

  /** A '>' in the result was in the text, and one in front stays in front. */
  lemma {:induction false} GtCopied(p: Pattern, s: string, i: nat)
    requires i <= |s|
    ensures '>' in Rewrite(p, s, i) ==> exists k :: i <= k < |s| && s[k] == '>'
    ensures i < |s| && s[i] == '>' ==> Rewrite(p, s, i) != "" && Rewrite(p, s, i)[0] == '>'
    decreases |s| - i
  {
    MatchEndIsLongest(p, s, i);
    if i == |s| {
    } else {
      if MatchEnd(p, s, i) > i {
        assert MatchAt(p, s, i, MatchEnd(p, s, i));
        GtCopied(p, s, MatchEnd(p, s, i));
      } else {
        GtCopied(p, s, i + 1);
      }
    }
  }

  lemma HeadEntity(p: Pattern, s: string, i: nat)
    requires i <= |s| && Starts(Entities, Rewrite(p, s, i), 0)
    ensures Starts(Entities, s, i)
  {
    var o := Rewrite(p, s, i);
    var j: nat :| MatchAt(Entities, o, 0, j);
    Copied(p, s, i, j);
    assert forall k :: i <= k < i + j ==> s[k] == o[k - i];
    assert MatchAt(Entities, s, i, i + j);
  }

  lemma HeadTag(p: Pattern, s: string, i: nat)
    requires i <= |s| && Starts(Tags, Rewrite(p, s, i), 0)
    ensures Starts(Tags, s, i)
  {
    var o := Rewrite(p, s, i);
    var j: nat :| MatchAt(Tags, o, 0, j);
    assert o[0] == '<' && o[1] != '>' && o[j - 1] == '>';
    var o' := Rewrite(p, s, i + 1);
    assert o == [s[i]] + o';
    assert o'[0] == o[1] && o'[j - 2] == '>';
    GtCopied(p, s, i + 1);
    MatchEndIsLongest(Tags, s, i);
    assert MatchEnd(Tags, s, i) > i;
  }

  lemma Shift(q: Pattern, c: char, o: string, x: nat)
    requires !q.Spaces? && Starts(q, [c] + o, x + 1)
    ensures Starts(q, o, x)
  {
    var t := [c] + o;
    var j: nat :| MatchAt(q, t, x + 1, j);
    assert forall k :: 0 <= k < |o| ==> o[k] == t[k + 1];
    assert MatchAt(q, o, x, j - 1);
  }

  /** A pass leaves none of its own matches and makes none of another's. */
  lemma {:induction false} NoneAppears(q: Pattern, p: Pattern, s: string, i: nat)
    requires i <= |s| && !q.Spaces?
    requires q == p || forall k: nat :: i <= k < |s| ==> !Starts(q, s, k)
    ensures Free(q, Rewrite(p, s, i))
    decreases |s| - i
  {
    var o := Rewrite(p, s, i);
    if i == |s| {
    } else {
      var n := if MatchEnd(p, s, i) > i then MatchEnd(p, s, i) else i + 1;
      var o' := Rewrite(p, s, n);
      NoneAppears(q, p, s, n);
      assert o == [o[0]] + o';
      forall x: nat | x < |o| ensures !Starts(q, o, x) {
        if Starts(q, o, x) {
          if x == 0 {
            if q.Tags? { HeadTag(p, s, i); } else { HeadEntity(p, s, i); }
            MatchEndIsLongest(q, s, i);
          } else {
            Shift(q, o[0], o', x - 1);
          }
        }
      }
    }
  }

  // ---------- Spaces and trimming ----------

  /** Every white space stands alone and is a plain space. */
  predicate Single(s: string) {
    forall i :: 0 <= i < |s| && IsReSpace(s[i]) ==> s[i] == ' ' && (i + 1 < |s| ==> !IsReSpace(s[i + 1]))
  }

  lemma {:induction false} SpacesSingle(s: string, i: nat)
    requires i <= |s|
    ensures Single(Rewrite(Spaces, s, i))
    ensures i < |s| && !IsReSpace(s[i]) ==> Rewrite(Spaces, s, i)[0] == s[i]
    decreases |s| - i
  {
    if i == |s| {
    } else {
      var n := MatchEnd(Spaces, s, i);
      SpacesSingle(s, if n > i then n else i + 1);
      if n > i && n < |s| { assert Rewrite(Spaces, s, n)[0] == s[n]; }
    }
  }

  predicate Trimmed(s: string) { s != [] ==> !IsSpace(s[0]) && !IsSpace(s[|s| - 1]) }

  lemma {:induction false} TrimLeftIsSuffix(s: string) returns (n: nat)
    ensures n <= |s| && TrimLeft(s) == s[n..] && AllIn(s, 0, n, IsSpace) && (n < |s| ==> !IsSpace(s[n]))
  {
    if s != [] && IsSpace(s[0]) {
      var m := TrimLeftIsSuffix(s[1..]);
      n := m + 1;
      assert s[1..][m..] == s[n..];
      assert forall k :: 1 <= k < n ==> s[k] == s[1..][k - 1];
    } else {
      n := 0;
    }
  }

  lemma {:induction false} TrimRightIsPrefix(s: string) returns (n: nat)
    ensures n <= |s| && TrimRight(s) == s[..n] && AllIn(s, n, |s|, IsSpace) && (n > 0 ==> !IsSpace(s[n - 1]))
  {
    if s != [] && IsSpace(s[|s| - 1]) {
      var t := s[..|s| - 1];
      n := TrimRightIsPrefix(t);
      assert t[..n] == s[..n];
      assert forall k :: n <= k < |t| ==> s[k] == t[k];
    } else {
      n := |s|;
    }
  }

  /** Trimming keeps exactly the stretch between the surrounding spaces. */
  lemma TrimIsStretch(s: string) returns (a: nat, b: nat)
    ensures a <= b <= |s| && TrimSpace(s) == s[a..b] && Trimmed(s[a..b])
    ensures AllIn(s, 0, a, IsSpace) && AllIn(s, b, |s|, IsSpace)
  {
    a := TrimLeftIsSuffix(s);
    var t := s[a..];
    var n := TrimRightIsPrefix(t);
    b := a + n;
    assert t[..n] == s[a..b];
    assert forall k :: n <= k < |t| ==> t[k] == s[a + k];
    if n > 0 && a < |s| { assert s[a..b][0] == s[a] && s[a..b][n - 1] == t[n - 1]; }
  }

  lemma MatchInStretch(q: Pattern, s: string, a: nat, b: nat, i: nat, j: nat)
    requires a <= b <= |s| && MatchAt(q, s[a..b], i, j)
    ensures MatchAt(q, s, a + i, a + j) && Starts(q, s, a + i)
  {
    var t := s[a..b];
    assert forall k :: a + i <= k < a + j ==> s[k] == t[k - a];
    assert MatchAt(q, s, a + i, a + j);
  }

  lemma StretchFree(q: Pattern, s: string, a: nat, b: nat)
    requires a <= b <= |s| && Free(q, s)
    ensures Free(q, s[a..b])
  {
    var t := s[a..b];
    forall i: nat | i < |t| ensures !Starts(q, t, i) {
      if Starts(q, t, i) {
        var j: nat :| MatchAt(q, t, i, j);
        MatchInStretch(q, s, a, b, i, j);
      }
    }
  }

  // ---------- The normal form ----------

  ghost predicate Normal(s: string) { Free(Tags, s) && Free(Entities, s) && Single(s) && Trimmed(s) }

  lemma StripIsNormal(s: string)
    ensures Normal(StripHTML(s))
  {
    var t := ReplaceAll(Tags, s);
    var e := ReplaceAll(Entities, t);
    var u := ReplaceAll(Spaces, e);
    NoneAppears(Tags, Tags, s, 0);
    NoneAppears(Tags, Entities, t, 0);
    NoneAppears(Entities, Entities, t, 0);
    NoneAppears(Tags, Spaces, e, 0);
    NoneAppears(Entities, Spaces, e, 0);
    SpacesSingle(e, 0);
    var a, b := TrimIsStretch(u);
    StretchFree(Tags, u, a, b);
    StretchFree(Entities, u, a, b);
  }

  lemma {:induction false} RewriteFree(q: Pattern, s: string, i: nat)
    requires i <= |s| && Free(q, s)
    ensures Rewrite(q, s, i) == s[i..]
    decreases |s| - i
  {
    if i == |s| {
    } else {
      MatchEndIsLongest(q, s, i);
      RewriteFree(q, s, i + 1);
    }
  }

  lemma {:induction false} RewriteSingle(s: string, i: nat)
    requires i <= |s| && Single(s)
    ensures Rewrite(Spaces, s, i) == s[i..]
    decreases |s| - i
  {
    if i == |s| {
    } else {
      if IsReSpace(s[i]) {
        assert i + 1 < |s| ==> !IsReSpace(s[i + 1]);
      }
      RewriteSingle(s, i + 1);
    }
  }

  lemma TrimmedStays(s: string)
    requires Trimmed(s)
    ensures TrimSpace(s) == s
  {}

  /** The texts StripHTML leaves alone are exactly the normal ones. */
  lemma FixpointsAreNormal(s: string)
    ensures StripHTML(s) == s <==> Normal(s)
  {
    if Normal(s) {
      RewriteFree(Tags, s, 0);
      RewriteFree(Entities, s, 0);
      RewriteSingle(s, 0);
      assert s[0..] == s;
      TrimmedStays(s);
    } else {
      StripIsNormal(s);
    }
  }

  /** Cleaning is idempotent on every text. */
  lemma StripTwice(s: string)
    ensures StripHTML(StripHTML(s)) == StripHTML(s)
  {
    StripIsNormal(s);
    FixpointsAreNormal(StripHTML(s));
  }
}
