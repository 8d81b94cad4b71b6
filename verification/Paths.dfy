/** Slash-separated paths: splitting, joining and the lexical cleaning of Go's path package. */
module Paths {

  predicate SlashFree(s: string) { '/' !in s }

  predicate AllSlashFree(segs: seq<string>) { forall i :: 0 <= i < |segs| ==> SlashFree(segs[i]) }

  function IndexOfSlash(s: string): (i: nat)
    ensures i <= |s| && SlashFree(s[..i]) && (i < |s| ==> s[i] == '/')
  {
    if s == "" || s[0] == '/' then 0
    else
      assert forall k :: 1 <= k <= |s| ==> s[..k] == [s[0]] + s[1..][..k - 1];
      1 + IndexOfSlash(s[1..])
  }

  /** At most n pieces; the last one keeps its slashes. */
  function SplitN(s: string, n: nat): seq<string>
    decreases n
  {
    var i := IndexOfSlash(s);
    if n <= 1 || i == |s| then [s] else [s[..i]] + SplitN(s[i + 1..], n - 1)
  }

  function Split(s: string): (segs: seq<string>)
    ensures segs != [] && AllSlashFree(segs)
    decreases |s|
  {
    var i := IndexOfSlash(s);
    if i == |s| then assert s[..i] == s; [s] else [s[..i]] + Split(s[i + 1..])
  }

  function Join(segs: seq<string>): string {
    if segs == [] then "" else if |segs| == 1 then segs[0] else segs[0] + "/" + Join(segs[1..])
  }

  lemma {:induction false} SlashAfter(a: string, b: string)
    requires SlashFree(a)
    ensures IndexOfSlash(a + "/" + b) == |a| && IndexOfSlash(a) == |a|
  {
    if a == "" {
    } else {
      SlashAfter(a[1..], b);
      assert (a + "/" + b)[1..] == a[1..] + "/" + b;
    }
  }

  lemma {:induction false} SplitJoin(segs: seq<string>)
    requires segs != [] && AllSlashFree(segs)
    ensures Split(Join(segs)) == segs
  {
    if |segs| == 1 {
      SlashAfter(segs[0], "");
    } else {
      SlashAfter(segs[0], Join(segs[1..]));
      CutAtSlash(segs[0], Join(segs[1..]));
      SplitJoin(segs[1..]);
    }
  }

  lemma JoinHead(x: string, rest: seq<string>)
    requires rest != []
    ensures Join([x] + rest) == x + "/" + Join(rest)
  {
    assert ([x] + rest)[1..] == rest;
  }

  lemma AroundSlash(s: string, i: nat)
    requires i < |s| && s[i] == '/'
    ensures s == s[..i] + "/" + s[i + 1..]
  {}

  lemma {:induction false} JoinSplit(s: string)
    ensures Join(Split(s)) == s
    decreases |s|
  {
    var i := IndexOfSlash(s);
    if i == |s| {
    } else {
      JoinSplit(s[i + 1..]);
      JoinHead(s[..i], Split(s[i + 1..]));
      AroundSlash(s, i);
    }
  }

  lemma {:induction false} JoinAppend(a: seq<string>, b: seq<string>)
    requires a != [] && b != []
    ensures Join(a + b) == Join(a) + "/" + Join(b)
  {
    if |a| == 1 {
      assert (a + b)[1..] == b;
    } else {
      JoinAppend(a[1..], b);
      assert (a + b)[1..] == a[1..] + b;
    }
  }

  lemma SplitAppend(a: string, b: string)
    ensures Split(a + "/" + b) == Split(a) + Split(b)
  {
    JoinSplit(a);
    JoinSplit(b);
    JoinAppend(Split(a), Split(b));
    SplitJoin(Split(a) + Split(b));
  }

  /** If a joined path starts with a string and a slash, it starts with the segments of the string. */
  lemma SplitsLikePrefix(segs: seq<string>, a: string, b: string)
    requires segs != [] && AllSlashFree(segs) && Join(segs) == a + "/" + b
    ensures |Split(a)| < |segs| && segs[..|Split(a)|] == Split(a)
  {
    SplitAppend(a, b);
    SplitJoin(segs);
  }

  lemma Regroup(a: string, b: string, c: string)
    ensures (a + b) + c == a + (b + c)
  {}

  lemma JoinGlue(x: string, segs: seq<string>)
    requires segs != []
    ensures Join([x + segs[0]] + segs[1..]) == x + Join(segs)
  {
    assert segs == [segs[0]] + segs[1..];
    if |segs| > 1 {
      JoinHead(x + segs[0], segs[1..]);
      JoinHead(segs[0], segs[1..]);
      Regroup(x, segs[0], "/");
      Regroup(x, segs[0] + "/", Join(segs[1..]));
    }
  }

  lemma JoinMeets(init: seq<string>, last: string, y: seq<string>)
    requires y != []
    ensures Join(init + ([last + y[0]] + y[1..])) == Join(init + [last]) + Join(y)
  {
    var glued := [last + y[0]] + y[1..];
    JoinGlue(last, y);
    if init == [] {
      assert init + glued == glued && init + [last] == [last];
    } else {
      JoinAppend(init, glued);
      JoinAppend(init, [last]);
      Regroup(Join(init) + "/", last, Join(y));
    }
  }

  /** Where two strings meet, the last segment of one and the first of the other become one segment. */
  lemma SplitConcat(a: string, b: string)
    ensures var x, y := Split(a), Split(b);
            Split(a + b) == x[..|x| - 1] + ([x[|x| - 1] + y[0]] + y[1..])
  {
    var x, y := Split(a), Split(b);
    var init, last := x[..|x| - 1], x[|x| - 1];
    JoinSplit(a);
    JoinSplit(b);
    JoinMeets(init, last, y);
    assert x == init + [last];
    SplitJoin(init + ([last + y[0]] + y[1..]));
  }

  lemma GluedAt(init: seq<string>, x: string, y: string, rest: seq<string>)
    ensures var segs := init + ([x + y] + rest); |init| < |segs| && segs[..|init|] == init && x <= segs[|init|]
  {}

  lemma CutOff(s: string, a: string)
    requires a <= s
    ensures s == a + s[|a|..]
  {}

  /** A path that starts with a string starts with the segments of the string, the last one possibly cut short. */
  lemma PrefixSplits(s: string, a: string)
    requires a <= s
    ensures |Split(a)| <= |Split(s)| && Split(a)[..|Split(a)| - 1] == Split(s)[..|Split(a)| - 1]
    ensures Split(a)[|Split(a)| - 1] <= Split(s)[|Split(a)| - 1]
  {
    var b := s[|a|..];
    CutOff(s, a);
    SplitConcat(a, b);
    GluedAt(Split(a)[..|Split(a)| - 1], Split(a)[|Split(a)| - 1], Split(b)[0], Split(b)[1..]);
  }

  /** The pieces of a limited split are the first segments and the rest unsplit. */
  lemma {:induction false} SplitNJoin(segs: seq<string>, n: nat)
    requires 0 < n <= |segs| && AllSlashFree(segs)
    ensures SplitN(Join(segs), n) == segs[..n - 1] + [Join(segs[n - 1..])]
    decreases n
  {
    if n > 1 {
      SplitFirst(segs, n);
      SplitNJoin(segs[1..], n - 1);
      assert segs[1..][n - 2..] == segs[n - 1..];
      assert segs[..n - 1] == [segs[0]] + segs[1..][..n - 2];
    } else {
      assert segs[0..] == segs;
    }
  }

  lemma SplitFirst(segs: seq<string>, n: nat)
    requires |segs| >= 2 && SlashFree(segs[0]) && n > 1
    ensures SplitN(Join(segs), n) == [segs[0]] + SplitN(Join(segs[1..]), n - 1)
  {
    SlashAfter(segs[0], Join(segs[1..]));
    CutAtSlash(segs[0], Join(segs[1..]));
  }

  lemma CutAtSlash(a: string, b: string)
    ensures (a + "/" + b)[..|a|] == a && (a + "/" + b)[|a| + 1..] == b
  {}

  // ---------- Cleaning ----------

  /** Drops empty and "." segments and lets ".." cancel the name before it. */
  function CleanSegments(segs: seq<string>, rooted: bool): seq<string> {
    if segs == [] then []
    else
      var x, before := segs[|segs| - 1], CleanSegments(segs[..|segs| - 1], rooted);
      if x == "" || x == "." then before
      else if x != ".." then before + [x]
      else if before != [] && before[|before| - 1] != ".." then before[..|before| - 1]
      else if rooted then before
      else before + [x]
  }

  function Clean(p: string): string {
    var rooted := p != "" && p[0] == '/';
    var r := (if rooted then "/" else "") + Join(CleanSegments(Split(p), rooted));
    if r == "" then "." else r
  }

  /** Joins the elements from the first non-empty one on, and cleans the result. */
  function PathJoin(elems: seq<string>): string {
    if elems == [] then ""
    else if elems[0] == "" then PathJoin(elems[1..])
    else Clean(Join(elems))
  }

  /** A name that cleaning leaves alone wherever it stands. */
  predicate PlainName(x: string) { x != "" && x != "." && x != ".." && SlashFree(x) }

  /** What cleaning produces from an unrooted path: names, after any number of "..". */
  predicate Normal(segs: seq<string>) {
    segs == [] ||
    (var x, before := segs[|segs| - 1], segs[..|segs| - 1];
     Normal(before) && x != "" && x != "." && (x == ".." ==> before == [] || before[|before| - 1] == ".."))
  }

  lemma {:induction false} CleanIsNormal(segs: seq<string>)
    requires AllSlashFree(segs)
    ensures Normal(CleanSegments(segs, false)) && AllSlashFree(CleanSegments(segs, false))
  {
    if segs == [] {
    } else {
      var x, before := segs[|segs| - 1], CleanSegments(segs[..|segs| - 1], false);
      CleanIsNormal(segs[..|segs| - 1]);
      assert (before + [x])[..|before|] == before;
    }
  }

  lemma {:induction false} NormalIsFixed(segs: seq<string>)
    requires Normal(segs)
    ensures CleanSegments(segs, false) == segs
  {
    if segs == [] {
    } else {
      NormalIsFixed(segs[..|segs| - 1]);
      assert segs == segs[..|segs| - 1] + [segs[|segs| - 1]];
    }
  }

  lemma {:induction false} PrefixIsNormal(segs: seq<string>, k: nat)
    requires Normal(segs) && k <= |segs|
    ensures Normal(segs[..k])
  {
    if k < |segs| {
      PrefixIsNormal(segs[..|segs| - 1], k);
      assert segs[..|segs| - 1][..k] == segs[..k];
    } else {
      assert segs[..k] == segs;
    }
  }

  lemma {:induction false} NamesStay(segs: seq<string>, names: seq<string>, rooted: bool)
    requires forall i :: 0 <= i < |names| ==> PlainName(names[i])
    ensures CleanSegments(segs + names, rooted) == CleanSegments(segs, rooted) + names
    decreases |names|
  {
    if names == [] {
      assert segs + names == segs;
    } else {
      var init := names[..|names| - 1];
      NamesStay(segs, init, rooted);
      assert (segs + names)[..|segs + names| - 1] == segs + init;
      assert names == init + [names[|names| - 1]];
    }
  }

  lemma FirstOfNormal(segs: seq<string>)
    requires segs != [] && Normal(segs) && AllSlashFree(segs)
    ensures Join(segs) != "" && Join(segs)[0] != '/'
  {
    PrefixIsNormal(segs, 1);
    assert segs[..1][0] == segs[0];
    assert segs[0] != "";
    assert Join(segs)[0] == segs[0][0];
  }
}
