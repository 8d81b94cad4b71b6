/** What cleaning a page keeps: the characters outside tags, entities and white space, in order, with a space
    wherever something lay between two of them. */
module HtmlKept {
  import opened HtmlText

  // ---------- What is to be kept ----------

  ghost predicate Inside(p: Pattern, s: string, k: nat) { exists a: nat, b: nat :: MatchAt(p, s, a, b) && a <= k < b }

  /** The character at k is neither white space nor in a tag or an entity. */
  ghost predicate IsText(s: string, k: nat) {
    k < |s| && !IsReSpace(s[k]) && !Inside(Tags, s, k) && !Inside(Entities, s, k)
  }

  predicate Rising(at: seq<nat>) { forall j, k :: 0 <= j < k < |at| ==> at[j] < at[k] }

  function Gap(gap: bool, rest: string): string { if gap then [' '] + rest else rest }

  predicate Within(at: seq<nat>, s: string) { forall k :: 0 <= k < |at| ==> at[k] < |s| }

  /** The characters at these positions, and a space between two that are no neighbours. */
  function Laid(s: string, at: seq<nat>): string
    requires Within(at, s)
  {
    if at == [] then "" else [s[at[0]]] + Gap(|at| > 1 && at[1] != at[0] + 1, Laid(s, at[1..]))
  }

  // ---------- The three passes in one ----------

  /** End of the junk that starts at i: white space, from level 1 on an entity, at level 2 also a tag. */
  function Junk(level: nat, s: string, i: nat): (n: nat)
    requires i < |s|
    ensures i <= n <= |s|
  {
    if level >= 2 && MatchEnd(Tags, s, i) > i then MatchEnd(Tags, s, i)
    else if level >= 1 && MatchEnd(Entities, s, i) > i then MatchEnd(Entities, s, i)
    else if IsReSpace(s[i]) then i + 1
    else i
  }

  /** A character, and how many characters the junk has that starts there. */
  datatype Mark = Mark(c: char, skip: nat)

  function MarksOf(level: nat, s: string, n: nat): (ms: seq<Mark>)
    requires n <= |s|
    ensures |ms| == n
  {
    if n == 0 then [] else MarksOf(level, s, n - 1) + [Mark(s[n - 1], Junk(level, s, n - 1) - (n - 1))]
  }

  lemma {:induction false} MarkOf(level: nat, s: string, n: nat, i: nat)
    requires i < n <= |s|
    ensures MarksOf(level, s, n)[i] == Mark(s[i], Junk(level, s, i) - i)
    decreases n
  {
    if i < n - 1 { MarkOf(level, s, n - 1, i); }
  }

  function Marks(level: nat, s: string): (ms: seq<Mark>)
    ensures |ms| == |s|
  {
    MarksOf(level, s, |s|)
  }

  lemma MarkAt(level: nat, s: string, i: nat)
    requires i < |s|
    ensures Marks(level, s)[i] == Mark(s[i], Junk(level, s, i) - i)
  {
    MarkOf(level, s, |s|, i);
  }

  function SqueezedMarks(ms: seq<Mark>, gap: bool): string {
    if ms == [] then Gap(gap, "")
    else if 0 < ms[0].skip <= |ms| then SqueezedMarks(ms[ms[0].skip..], true)
    else Gap(gap, [ms[0].c] + SqueezedMarks(ms[1..], false))
  }

  /** The text from i on with every stretch of junk replaced by one space; a stretch may already be open. */
  function Squeezed(level: nat, s: string, i: nat, gap: bool): string
    requires i <= |s|
  {
    SqueezedMarks(Marks(level, s)[i..], gap)
  }

  lemma SqueezedStep(level: nat, s: string, i: nat, gap: bool)
    requires i <= |s|
    ensures Squeezed(level, s, i, gap) ==
            if i == |s| then Gap(gap, "")
            else if Junk(level, s, i) > i then Squeezed(level, s, Junk(level, s, i), true)
            else Gap(gap, [s[i]] + Squeezed(level, s, i + 1, false))
  {
    if i < |s| {
      MarkAt(level, s, i);
      MarksStep(Marks(level, s), i, gap);
    }
  }

  lemma MarksStep(ms: seq<Mark>, i: nat, gap: bool)
    requires i < |ms|
    ensures SqueezedMarks(ms[i..], gap) ==
            if 0 < ms[i].skip <= |ms| - i then SqueezedMarks(ms[i + ms[i].skip..], true)
            else Gap(gap, [ms[i].c] + SqueezedMarks(ms[i + 1..], false))
  {
    var rest, n := ms[i..], ms[i].skip;
    assert rest[0] == ms[i] && rest[1..] == ms[i + 1..];
    if n <= |ms| - i { assert rest[n..] == ms[i + n..]; }
  }

  /** t ends with s; d characters stand before. */
  predicate EndsWith(t: string, d: nat, s: string) {
    |t| == d + |s| && forall k :: d <= k < |t| ==> t[k] == s[k - d]
  }

  lemma RunEndShifted(t: string, d: nat, s: string, i: nat, f: char -> bool)
    requires EndsWith(t, d, s) && i <= |s|
    ensures RunEnd(t, d + i, f) == d + RunEnd(s, i, f)
  {
    var n, m := RunEnd(s, i, f), RunEnd(t, d + i, f);
    assert m < |t| ==> t[m] == s[m - d];
    assert n < |s| ==> t[d + n] == s[n];
  }

  lemma TagShifted(t: string, d: nat, s: string, i: nat)
    requires EndsWith(t, d, s) && i < |s|
    ensures MatchEnd(Tags, t, d + i) == d + MatchEnd(Tags, s, i)
  {
    RunEndShifted(t, d, s, i + 1, IsNotGt);
  }

  lemma EntityShifted(t: string, d: nat, s: string, i: nat)
    requires EndsWith(t, d, s) && i < |s|
    ensures MatchEnd(Entities, t, d + i) == d + MatchEnd(Entities, s, i)
  {
    RunEndShifted(t, d, s, i + 1, IsLetter);
    if i + 1 < |s| { RunEndShifted(t, d, s, i + 2, IsDigit); }
  }

  lemma JunkShifted(level: nat, t: string, d: nat, s: string, i: nat)
    requires EndsWith(t, d, s) && i < |s|
    ensures Junk(level, t, d + i) == d + Junk(level, s, i)
  {
    TagShifted(t, d, s, i);
    EntityShifted(t, d, s, i);
  }

  /** What stands before does not matter. */
  lemma SqueezedShifted(level: nat, t: string, d: nat, s: string, gap: bool)
    requires EndsWith(t, d, s)
    ensures Squeezed(level, t, d, gap) == Squeezed(level, s, 0, gap)
  {
    var x, y := Marks(level, t), Marks(level, s);
    forall k | 0 <= k < |s| ensures x[d..][k] == y[k] {
      JunkShifted(level, t, d, s, k);
      MarkAt(level, t, d + k);
      MarkAt(level, s, k);
    }
    assert x[d..] == y && y[0..] == y;
  }

  /** A text that begins with junk is squeezed like the rest behind an open gap. */
  lemma JunkFirst(level: nat, junk: string, rest: string, gap: bool)
    requires junk != "" && Junk(level, junk + rest, 0) == |junk|
    ensures Squeezed(level, junk + rest, 0, gap) == Squeezed(level, rest, 0, true)
  {
    SqueezedStep(level, junk + rest, 0, gap);
    SqueezedShifted(level, junk + rest, |junk|, rest, true);
  }

  lemma TextFirst(level: nat, c: char, rest: string, gap: bool)
    requires Junk(level, [c] + rest, 0) == 0
    ensures Squeezed(level, [c] + rest, 0, gap) == Gap(gap, [c] + Squeezed(level, rest, 0, false))
  {
    SqueezedStep(level, [c] + rest, 0, gap);
    SqueezedShifted(level, [c] + rest, 1, rest, false);
  }

  /** A pass does not change what a later squeezing gives. */
  lemma {:induction false} EntitiesSqueezed(s: string, i: nat, gap: bool)
    requires i <= |s|
    ensures Squeezed(0, Rewrite(Entities, s, i), 0, gap) == Squeezed(1, s, i, gap)
    decreases |s| - i
  {
    SqueezedStep(1, s, i, gap);
    if i == |s| {
      SqueezedStep(0, "", 0, gap);
    } else {
      var n := MatchEnd(Entities, s, i);
      if n > i {
        EntitiesSqueezed(s, n, true);
        JunkFirst(0, " ", Rewrite(Entities, s, n), gap);
      } else if IsReSpace(s[i]) {
        EntitiesSqueezed(s, i + 1, true);
        JunkFirst(0, [s[i]], Rewrite(Entities, s, i + 1), gap);
      } else {
        EntitiesSqueezed(s, i + 1, false);
        TextFirst(0, s[i], Rewrite(Entities, s, i + 1), gap);
      }
    }
  }

  lemma JoinedCopy(s: string, i: nat, j: nat, rest: string)
    requires i < j <= |s|
    ensures [s[i]] + (s[i + 1..j] + rest) == s[i..j] + rest
  {}

  /** No tag starts in a stretch without '<'. */
  lemma {:induction false} NoTagCopied(s: string, i: nat, j: nat)
    requires i <= j <= |s| && forall k :: i <= k < j ==> s[k] != '<'
    ensures Rewrite(Tags, s, i) == s[i..j] + Rewrite(Tags, s, j)
    decreases j - i
  {
    if i == j {
    } else {
      NoTagCopied(s, i + 1, j);
      assert MatchEnd(Tags, s, i) == i;
      JoinedCopy(s, i, j, Rewrite(Tags, s, j));
    }
  }

  lemma EntityInFront(s: string, i: nat, n: nat, rest: string)
    requires MatchAt(Entities, s, i, n)
    ensures MatchAt(Entities, s[i..n] + rest, 0, n - i)
  {
    var o := s[i..n] + rest;
    assert forall k :: 0 <= k < n - i ==> o[k] == s[i + k];
  }

  lemma NoBracketInEntity(s: string, i: nat, j: nat)
    requires MatchAt(Entities, s, i, j)
    ensures forall k :: i <= k < j ==> s[k] != '<'
  {}

  lemma EntityCopied(s: string, i: nat)
    requires i < |s| && MatchEnd(Entities, s, i) > i
    ensures var n := MatchEnd(Entities, s, i); var o := s[i..n] + Rewrite(Tags, s, n);
            Rewrite(Tags, s, i) == o && MatchEnd(Entities, o, 0) == n - i
  {
    var n := MatchEnd(Entities, s, i);
    MatchEndIsLongest(Entities, s, i);
    NoBracketInEntity(s, i, n);
    NoTagCopied(s, i, n);
    EntityStaysFirst(s, i, n, Rewrite(Tags, s, n));
  }

  lemma EntityStaysFirst(s: string, i: nat, n: nat, rest: string)
    requires MatchAt(Entities, s, i, n)
    ensures MatchEnd(Entities, s[i..n] + rest, 0) == n - i
  {
    EntityInFront(s, i, n, rest);
    EntityEnd(s[i..n] + rest, 0, n - i);
  }

  lemma TagStep(s: string, i: nat, gap: bool)
    requires i < |s| && MatchEnd(Tags, s, i) > i
    ensures var n := MatchEnd(Tags, s, i);
            && Squeezed(1, Rewrite(Tags, s, i), 0, gap) == Squeezed(1, Rewrite(Tags, s, n), 0, true)
            && Squeezed(2, s, i, gap) == Squeezed(2, s, n, true)
  {
    SqueezedStep(2, s, i, gap);
    JunkFirst(1, " ", Rewrite(Tags, s, MatchEnd(Tags, s, i)), gap);
  }

  lemma EntityStep(s: string, i: nat, gap: bool)
    requires i < |s| && MatchEnd(Tags, s, i) == i && MatchEnd(Entities, s, i) > i
    ensures var n := MatchEnd(Entities, s, i);
            && Squeezed(1, Rewrite(Tags, s, i), 0, gap) == Squeezed(1, Rewrite(Tags, s, n), 0, true)
            && Squeezed(2, s, i, gap) == Squeezed(2, s, n, true)
  {
    var n := MatchEnd(Entities, s, i);
    SqueezedStep(2, s, i, gap);
    EntityCopied(s, i);
    JunkFirst(1, s[i..n], Rewrite(Tags, s, n), gap);
  }

  lemma PlainStep(s: string, i: nat, gap: bool)
    requires i < |s| && MatchEnd(Tags, s, i) == i && MatchEnd(Entities, s, i) == i
    ensures var rest, space := Rewrite(Tags, s, i + 1), IsReSpace(s[i]);
            && Squeezed(1, Rewrite(Tags, s, i), 0, gap) ==
               (if space then Squeezed(1, rest, 0, true) else Gap(gap, [s[i]] + Squeezed(1, rest, 0, false)))
            && Squeezed(2, s, i, gap) ==
               (if space then Squeezed(2, s, i + 1, true) else Gap(gap, [s[i]] + Squeezed(2, s, i + 1, false)))
  {
    SqueezedStep(2, s, i, gap);
    NoNewEntity(s, i);
    if IsReSpace(s[i]) {
      JunkFirst(1, [s[i]], Rewrite(Tags, s, i + 1), gap);
    } else {
      TextFirst(1, s[i], Rewrite(Tags, s, i + 1), gap);
    }
  }

  lemma {:induction false} TagsSqueezed(s: string, i: nat, gap: bool)
    requires i <= |s|
    ensures Squeezed(1, Rewrite(Tags, s, i), 0, gap) == Squeezed(2, s, i, gap)
    decreases |s| - i
  {
    if i == |s| {
      SqueezedStep(2, s, i, gap);
      SqueezedStep(1, "", 0, gap);
    } else {
      if MatchEnd(Tags, s, i) > i {
        TagStep(s, i, gap);
        TagsSqueezed(s, MatchEnd(Tags, s, i), true);
      } else if MatchEnd(Entities, s, i) > i {
        EntityStep(s, i, gap);
        TagsSqueezed(s, MatchEnd(Entities, s, i), true);
      } else {
        PlainStep(s, i, gap);
        TagsSqueezed(s, i + 1, IsReSpace(s[i]));
      }
    }
  }

  lemma NoNewEntity(s: string, i: nat)
    requires i < |s| && MatchEnd(Tags, s, i) == i && MatchEnd(Entities, s, i) == i
    ensures MatchEnd(Entities, [s[i]] + Rewrite(Tags, s, i + 1), 0) == 0
  {
    var o := Rewrite(Tags, s, i);
    MatchEndIsLongest(Entities, o, 0);
    MatchEndIsLongest(Entities, s, i);
    if Starts(Entities, o, 0) { HeadEntity(Tags, s, i); }
  }

  lemma {:induction false} OpenGap(s: string, i: nat, n: nat)
    requires i <= n <= |s| && AllIn(s, i, n, IsReSpace)
    ensures Squeezed(0, s, i, true) == Squeezed(0, s, n, true)
    decreases n - i
  {
    if i == n {
    } else {
      SqueezedStep(0, s, i, true);
      OpenGap(s, i + 1, n);
    }
  }

  lemma {:induction false} SpacesSqueezed(s: string, i: nat)
    requires i <= |s|
    ensures Rewrite(Spaces, s, i) == Squeezed(0, s, i, false)
    decreases |s| - i
  {
    SqueezedStep(0, s, i, false);
    if i == |s| {
    } else {
      var n := MatchEnd(Spaces, s, i);
      if n > i {
        SpacesSqueezed(s, n);
        OpenGap(s, i + 1, n);
        SqueezedStep(0, s, n, true);
        SqueezedStep(0, s, n, false);
      } else {
        SpacesSqueezed(s, i + 1);
      }
    }
  }

  lemma PassesSqueeze(s: string)
    ensures StripHTML(s) == TrimSpace(Squeezed(2, s, 0, false))
  {
    var t := ReplaceAll(Tags, s);
    var e := ReplaceAll(Entities, t);
    TagsSqueezed(s, 0, false);
    EntitiesSqueezed(t, 0, false);
    SpacesSqueezed(e, 0);
  }

  // ---------- Squeezing keeps the text ----------

  /** No tag and no entity reaches over i. */
  ghost predicate Clear(s: string, i: nat) {
    forall p: Pattern, a: nat, b: nat :: p != Spaces && MatchAt(p, s, a, b) ==> !(a < i < b)
  }

  /** A match in a match of the same pattern ends with it. */
  lemma SameEnd(p: Pattern, s: string, a: nat, b: nat, c: nat, d: nat)
    requires p != Spaces && MatchAt(p, s, a, b) && MatchAt(p, s, c, d) && a <= c < b
    ensures b == d
  {
    if p.Tags? {
      assert c < b - 1;
      assert !(b < d && !IsNotGt(s[b - 1]));
      assert !(d < b && !IsNotGt(s[d - 1]));
    } else {
      assert a == c;
      EntityEnd(s, a, b);
      EntityEnd(s, c, d);
    }
  }

  /** Tags and entities that overlap: the entity lies in the tag. */
  lemma EntityInTag(s: string, a: nat, b: nat, c: nat, d: nat)
    requires MatchAt(Tags, s, a, b) && MatchAt(Entities, s, c, d) && a < d && c < b
    ensures a <= c && d <= b
  {
    assert s[a] == '<' && s[b - 1] == '>';
  }

  lemma JunkIsJunk(s: string, i: nat, k: nat)
    requires i < |s| && Junk(2, s, i) > i && i <= k < Junk(2, s, i)
    ensures !IsText(s, k)
  {
    MatchEndIsLongest(Tags, s, i);
    MatchEndIsLongest(Entities, s, i);
    var n := Junk(2, s, i);
    if MatchEnd(Tags, s, i) > i {
      assert MatchAt(Tags, s, i, n) && Inside(Tags, s, k);
    } else if MatchEnd(Entities, s, i) > i {
      assert MatchAt(Entities, s, i, n) && Inside(Entities, s, k);
    }
  }

  lemma TextIsText(s: string, i: nat)
    requires i < |s| && Clear(s, i) && Junk(2, s, i) == i
    ensures IsText(s, i)
  {
    MatchEndIsLongest(Tags, s, i);
    MatchEndIsLongest(Entities, s, i);
    forall p: Pattern | p != Spaces ensures !Inside(p, s, i) {
      if Inside(p, s, i) {
        var a: nat, b: nat :| MatchAt(p, s, a, b) && a <= i < b;
        assert a == i && Starts(p, s, i);
      }
    }
  }

  lemma ClearBehind(s: string, i: nat)
    requires i < |s| && Clear(s, i)
    ensures Clear(s, if Junk(2, s, i) > i then Junk(2, s, i) else i + 1)
  {
    MatchEndIsLongest(Tags, s, i);
    MatchEndIsLongest(Entities, s, i);
    var n := if Junk(2, s, i) > i then Junk(2, s, i) else i + 1;
    forall p: Pattern, a: nat, b: nat | p != Spaces && MatchAt(p, s, a, b) ensures !(a < n < b) {
      ReachesNotOver(p, s, i, n, a, b);
    }
  }

  lemma ReachesNotOver(p: Pattern, s: string, i: nat, n: nat, a: nat, b: nat)
    requires i < |s| && Clear(s, i) && p != Spaces && MatchAt(p, s, a, b)
    requires n == if Junk(2, s, i) > i then Junk(2, s, i) else i + 1
    ensures !(a < n < b)
  {
    MatchEndIsLongest(Tags, s, i);
    MatchEndIsLongest(Entities, s, i);
    assert a == i ==> Starts(p, s, i);
    if i <= a < n {
      if MatchEnd(Tags, s, i) > i {
        if p.Tags? { SameEnd(Tags, s, i, n, a, b); } else { EntityInTag(s, i, n, a, b); }
      } else if MatchEnd(Entities, s, i) > i {
        if p.Entities? { SameEnd(Entities, s, i, n, a, b); } else { EntityInTag(s, a, b, i, n); }
      }
    }
  }

  /** These are the positions of the text from i on. */
  ghost predicate TextFrom(s: string, i: nat, at: seq<nat>) {
    Rising(at) && Within(at, s) && forall k: nat :: k in at <==> k >= i && IsText(s, k)
  }

  /** The text, and a gap where something follows. */
  function LaidOut(s: string, at: seq<nat>, tail: bool): string
    requires Within(at, s)
  {
    if at == [] then ""
    else [s[at[0]]] + Gap(if |at| > 1 then at[1] != at[0] + 1 else tail, LaidOut(s, at[1..], tail))
  }

  predicate Before(i: nat, at: seq<nat>, end: nat) { if at == [] then i < end else i < at[0] }

  predicate Behind(at: seq<nat>, end: nat) { at != [] && at[|at| - 1] + 1 < end }

  lemma {:induction false} SqueezedIsText(s: string, i: nat, gap: bool) returns (at: seq<nat>)
    requires i <= |s| && Clear(s, i)
    ensures TextFrom(s, i, at)
    ensures Squeezed(2, s, i, gap) == Gap(gap || Before(i, at, |s|), LaidOut(s, at, Behind(at, |s|)))
    decreases |s| - i
  {
    SqueezedStep(2, s, i, gap);
    if i == |s| {
      at := [];
    } else {
      var n := Junk(2, s, i);
      ClearBehind(s, i);
      if n > i {
        at := SqueezedIsText(s, n, true);
        JunkInFront(s, i, at);
      } else {
        var rest := SqueezedIsText(s, i + 1, false);
        TextIsText(s, i);
        at := TextInFront(s, i, rest);
      }
    }
  }

  lemma JunkInFront(s: string, i: nat, at: seq<nat>)
    requires i < |s| && Junk(2, s, i) > i && TextFrom(s, Junk(2, s, i), at)
    ensures TextFrom(s, i, at) && Before(i, at, |s|)
  {
    forall k: nat | i <= k < Junk(2, s, i) ensures !IsText(s, k) { JunkIsJunk(s, i, k); }
    assert at != [] ==> at[0] in at;
  }

  lemma TextInFront(s: string, i: nat, rest: seq<nat>) returns (at: seq<nat>)
    requires IsText(s, i) && TextFrom(s, i + 1, rest)
    ensures at == [i] + rest && TextFrom(s, i, at)
    ensures Behind(at, |s|) == (if rest == [] then i + 1 < |s| else Behind(rest, |s|))
    ensures LaidOut(s, at, Behind(at, |s|)) ==
            [s[i]] + Gap(Before(i + 1, rest, |s|), LaidOut(s, rest, Behind(rest, |s|)))
  {
    at := [i] + rest;
    assert at[1..] == rest;
    assert rest != [] ==> rest[0] in rest && rest[0] >= i + 1;
    forall k: nat ensures k in at <==> k >= i && IsText(s, k) {}
    forall j, k | 0 <= j < k < |at| ensures at[j] < at[k] {
      assert at[k] == rest[k - 1] && rest[k - 1] in rest;
      assert j > 0 ==> at[j] == rest[j - 1];
    }
  }

  // ---------- Trimming ----------

  lemma TrimLeftCons(c: char, rest: string)
    ensures TrimLeft([c] + rest) == if IsSpace(c) then TrimLeft(rest) else [c] + rest
  {
    assert ([c] + rest)[1..] == rest;
  }

  lemma TrimLeftGap(gap: bool, rest: string)
    ensures TrimLeft(Gap(gap, rest)) == TrimLeft(rest)
  {
    TrimLeftCons(' ', rest);
  }

  lemma TrimRightSnoc(rest: string, c: char)
    ensures TrimRight(rest + [c]) == if IsSpace(c) then TrimRight(rest) else rest + [c]
  {
    assert (rest + [c])[..|rest|] == rest;
  }

  lemma {:induction false} TrimLeftLaid(s: string, at: seq<nat>, tail: bool) returns (n: nat)
    requires Within(at, s)
    ensures n <= |at| && (forall k :: 0 <= k < n ==> IsSpace(s[at[k]])) && (n < |at| ==> !IsSpace(s[at[n]]))
    ensures TrimLeft(LaidOut(s, at, tail)) == LaidOut(s, at[n..], tail)
  {
    if at == [] {
      n := 0;
    } else {
      var rest := at[1..];
      var open := if |at| > 1 then at[1] != at[0] + 1 else tail;
      TrimLeftCons(s[at[0]], Gap(open, LaidOut(s, rest, tail)));
      if IsSpace(s[at[0]]) {
        var m := TrimLeftLaid(s, rest, tail);
        TrimLeftGap(open, LaidOut(s, rest, tail));
        n := m + 1;
        assert rest[m..] == at[n..];
      } else {
        n := 0;
        assert at[0..] == at;
      }
    }
  }

  function Closed(text: string, tail: bool): string { if tail then text + [' '] else text }

  lemma ClosedCons(c: char, gap: bool, rest: string, tail: bool)
    ensures [c] + Gap(gap, Closed(rest, tail)) == Closed([c] + Gap(gap, rest), tail)
  {}

  lemma {:induction false} TailIsLast(s: string, at: seq<nat>, tail: bool)
    requires Within(at, s) && at != []
    ensures LaidOut(s, at, tail) == Closed(Laid(s, at), tail)
  {
    if |at| == 1 {
      assert at[1..] == [];
    } else {
      TailIsLast(s, at[1..], tail);
      ClosedCons(s[at[0]], at[1] != at[0] + 1, Laid(s, at[1..]), tail);
    }
  }

  lemma GapInFront(c: char, gap: bool, rest: string, tail: bool, last: string)
    ensures [c] + Gap(gap, Closed(rest, tail) + last) == Closed([c] + Gap(gap, rest), tail) + last
  {}

  lemma {:induction false} LaidLast(s: string, at: seq<nat>, k: nat)
    requires Within(at, s) && k < |s|
    ensures Laid(s, at + [k]) == Closed(Laid(s, at), at != [] && k != at[|at| - 1] + 1) + [s[k]]
  {
    var all := at + [k];
    if at == [] {
      assert all[1..] == [];
    } else {
      var rest := at[1..];
      assert all[1..] == rest + [k];
      LaidLast(s, rest, k);
      if rest != [] {
        GapInFront(s[at[0]], at[1] != at[0] + 1, Laid(s, rest), k != rest[|rest| - 1] + 1, [s[k]]);
      }
    }
  }

  lemma TrimRightClosed(text: string, tail: bool)
    ensures TrimRight(Closed(text, tail)) == TrimRight(text)
  {
    TrimRightSnoc(text, ' ');
  }

  lemma TrimRightLast(s: string, at: seq<nat>, k: nat)
    requires Within(at, s) && k < |s|
    ensures TrimRight(Laid(s, at + [k])) == if IsSpace(s[k]) then TrimRight(Laid(s, at)) else Laid(s, at + [k])
  {
    var open := at != [] && k != at[|at| - 1] + 1;
    LaidLast(s, at, k);
    TrimRightSnoc(Closed(Laid(s, at), open), s[k]);
    TrimRightClosed(Laid(s, at), open);
  }

  lemma LastGoes(s: string, at: seq<nat>)
    requires Within(at, s) && at != []
    ensures TrimRight(Laid(s, at)) ==
            if IsSpace(s[at[|at| - 1]]) then TrimRight(Laid(s, at[..|at| - 1])) else Laid(s, at)
  {
    assert at == at[..|at| - 1] + [at[|at| - 1]];
    TrimRightLast(s, at[..|at| - 1], at[|at| - 1]);
  }

  lemma {:induction false} SpacesGo(s: string, at: seq<nat>, n: nat)
    requires Within(at, s) && n <= |at| && forall k :: n <= k < |at| ==> IsSpace(s[at[k]])
    ensures TrimRight(Laid(s, at)) == TrimRight(Laid(s, at[..n]))
    decreases |at|
  {
    if n == |at| {
      assert at[..n] == at;
    } else {
      var init := at[..|at| - 1];
      LastGoes(s, at);
      SpacesGo(s, init, n);
      assert init[..n] == at[..n];
    }
  }

  lemma LastText(s: string, at: seq<nat>) returns (n: nat)
    requires Within(at, s)
    ensures n <= |at| && (forall k :: n <= k < |at| ==> IsSpace(s[at[k]])) && (n > 0 ==> !IsSpace(s[at[n - 1]]))
  {
    n := |at|;
    while n > 0 && IsSpace(s[at[n - 1]])
      invariant n <= |at| && forall k :: n <= k < |at| ==> IsSpace(s[at[k]])
    {
      n := n - 1;
    }
  }

  lemma TrimRightLaid(s: string, at: seq<nat>) returns (n: nat)
    requires Within(at, s)
    ensures n <= |at| && (forall k :: n <= k < |at| ==> IsSpace(s[at[k]])) && (n > 0 ==> !IsSpace(s[at[n - 1]]))
    ensures TrimRight(Laid(s, at)) == Laid(s, at[..n])
  {
    n := LastText(s, at);
    SpacesGo(s, at, n);
    if n > 0 { LastGoes(s, at[..n]); }
  }

  // ---------- Spans ----------

  /** No match of the pattern reaches over i. */
  ghost predicate ClearOf(p: Pattern, s: string, i: nat) {
    forall a: nat, b: nat :: MatchAt(p, s, a, b) ==> !(a < i < b)
  }

  ghost predicate Spanned(spans: seq<Span>, k: nat) {
    exists x :: 0 <= x < |spans| && spans[x].from <= k < spans[x].to
  }

  lemma SpanIsClear(p: Pattern, s: string, i: nat, spans: seq<Span>)
    requires p != Spaces && spans != [] && LeftmostLongest(p, s, i, spans) && ClearOf(p, s, i)
    ensures ClearOf(p, s, spans[0].to)
    ensures forall k: nat :: i <= k < spans[0].from ==> !Inside(p, s, k)
  {
    var m := spans[0];
    forall a: nat, b: nat | MatchAt(p, s, a, b) ensures !(a < m.to < b) && !(a < m.from && i <= b - 1 && i <= a) {
      assert Starts(p, s, a);
      if m.from <= a < m.to { SameEnd(p, s, m.from, m.to, a, b); }
    }
  }

  /** Every choice of leftmost longest matches covers exactly the positions that are in some match. */
  lemma {:induction false} InsideIsSpanned(p: Pattern, s: string, i: nat, spans: seq<Span>, k: nat)
    requires p != Spaces && LeftmostLongest(p, s, i, spans) && ClearOf(p, s, i) && i <= k
    ensures Inside(p, s, k) <==> Spanned(spans, k)
    decreases |spans|
  {
    if spans == [] {
      if Inside(p, s, k) {
        var a: nat, b: nat :| MatchAt(p, s, a, b) && a <= k < b;
        assert Starts(p, s, a);
      }
    } else {
      var m, rest := spans[0], spans[1..];
      SpanIsClear(p, s, i, spans);
      if k < m.to {
        LaterSpans(p, s, m.to, rest);
        assert forall x :: 0 <= x < |rest| ==> rest[x] == spans[x + 1];
        if m.from <= k { assert MatchAt(p, s, m.from, m.to); }
      } else {
        InsideIsSpanned(p, s, m.to, rest, k);
        if Spanned(rest, k) {
          var x :| 0 <= x < |rest| && rest[x].from <= k < rest[x].to;
          assert spans[x + 1] == rest[x];
        }
        if Spanned(spans, k) {
          var x :| 0 <= x < |spans| && spans[x].from <= k < spans[x].to;
          assert rest[x - 1] == spans[x];
        }
      }
    }
  }

  lemma {:induction false} LaterSpans(p: Pattern, s: string, i: nat, spans: seq<Span>)
    requires LeftmostLongest(p, s, i, spans)
    ensures forall x :: 0 <= x < |spans| ==> i <= spans[x].from
    decreases |spans|
  {
    if spans == [] {
    } else {
      LaterSpans(p, s, spans[0].to, spans[1..]);
      assert forall x :: 1 <= x < |spans| ==> spans[x] == spans[1..][x - 1];
    }
  }

  // ---------- What StripHTML keeps ----------

  /** The positions that are kept: a stretch of the text, with nothing but Unicode spaces cut off at its ends. */
  ghost predicate Kept(s: string, at: seq<nat>) {
    && Rising(at) && Within(at, s) && (forall k: nat :: k in at ==> IsText(s, k))
    && (at != [] ==> !IsSpace(s[at[0]]) && !IsSpace(s[at[|at| - 1]]))
    && (forall k: nat :: IsText(s, k) && k !in at ==> IsSpace(s[k]) && (at == [] || k < at[0] || k > at[|at| - 1]))
  }

  /** Cleaning gives the characters outside tags, entities and white space, in order, with one space between two of
      them exactly when they were no neighbours. */
  lemma StripKeepsText(s: string) returns (at: seq<nat>)
    ensures Kept(s, at) && StripHTML(s) == Laid(s, at)
  {
    PassesSqueeze(s);
    var all := SqueezedIsText(s, 0, false);
    at := TrimmedText(s, all, Before(0, all, |s|), Behind(all, |s|));
  }

  lemma TrimmedText(s: string, all: seq<nat>, gap: bool, tail: bool) returns (at: seq<nat>)
    requires TextFrom(s, 0, all)
    ensures Kept(s, at) && TrimSpace(Gap(gap, LaidOut(s, all, tail))) == Laid(s, at)
  {
    TrimLeftGap(gap, LaidOut(s, all, tail));
    var n := TrimLeftLaid(s, all, tail);
    if n == |all| {
      at := [];
      NothingKept(s, all);
    } else {
      at := BehindTrimmed(s, all, n, tail);
    }
  }

  lemma BehindTrimmed(s: string, all: seq<nat>, n: nat, tail: bool) returns (at: seq<nat>)
    requires TextFrom(s, 0, all) && n < |all| && !IsSpace(s[all[n]]) && forall k :: 0 <= k < n ==> IsSpace(s[all[k]])
    ensures Kept(s, at) && TrimRight(LaidOut(s, all[n..], tail)) == Laid(s, at)
  {
    var m := TrimRightTail(s, all[n..], tail);
    at := all[n..][..m];
    assert forall k :: m <= k < |all| - n ==> all[n..][k] == all[n + k];
    StretchKept(s, all, n, n + m);
  }

  lemma NothingKept(s: string, all: seq<nat>)
    requires TextFrom(s, 0, all) && forall k :: 0 <= k < |all| ==> IsSpace(s[all[k]])
    ensures Kept(s, [])
  {}

  lemma TrimRightTail(s: string, at: seq<nat>, tail: bool) returns (n: nat)
    requires Within(at, s) && at != [] && !IsSpace(s[at[0]])
    ensures 0 < n <= |at| && (forall k :: n <= k < |at| ==> IsSpace(s[at[k]])) && !IsSpace(s[at[n - 1]])
    ensures TrimRight(LaidOut(s, at, tail)) == Laid(s, at[..n])
  {
    TailIsLast(s, at, tail);
    TrimRightClosed(Laid(s, at), tail);
    n := TrimRightLaid(s, at);
  }

  lemma StretchOf(all: seq<nat>, n: nat, m: nat)
    requires n < m <= |all|
    ensures var at := all[n..][..m - n];
            && |at| == m - n && (forall x :: 0 <= x < m - n ==> at[x] == all[n + x])
            && (forall x :: n <= x < m ==> all[x] in at)
            && (forall k :: k in at ==> k in all)
  {
    var at := all[n..][..m - n];
    forall x | n <= x < m ensures all[x] in at { assert at[x - n] == all[x]; }
  }

  lemma OutsideStretch(s: string, all: seq<nat>, n: nat, m: nat, k: nat)
    requires TextFrom(s, 0, all) && n < m <= |all| && IsText(s, k)
    requires forall k :: 0 <= k < |all| && !(n <= k < m) ==> IsSpace(s[all[k]])
    ensures k in all[n..][..m - n] || (IsSpace(s[k]) && (k < all[n] || k > all[m - 1]))
  {
    StretchOf(all, n, m);
    var x :| 0 <= x < |all| && all[x] == k;
  }

  lemma StretchIsText(s: string, all: seq<nat>, n: nat, m: nat)
    requires TextFrom(s, 0, all) && n < m <= |all|
    ensures var at := all[n..][..m - n];
            && |at| == m - n && at[0] == all[n] && at[|at| - 1] == all[m - 1]
            && Rising(at) && Within(at, s) && forall k: nat :: k in at ==> IsText(s, k)
  {
    StretchOf(all, n, m);
  }

  lemma StretchKept(s: string, all: seq<nat>, n: nat, m: nat)
    requires TextFrom(s, 0, all) && n < m <= |all| && !IsSpace(s[all[n]]) && !IsSpace(s[all[m - 1]])
    requires forall k :: 0 <= k < |all| && !(n <= k < m) ==> IsSpace(s[all[k]])
    ensures Kept(s, all[n..][..m - n])
  {
    var at := all[n..][..m - n];
    StretchIsText(s, all, n, m);
    forall k: nat | IsText(s, k) && k !in at ensures IsSpace(s[k]) && (k < at[0] || k > at[|at| - 1]) {
      OutsideStretch(s, all, n, m, k);
    }
  }
}
