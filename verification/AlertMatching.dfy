/** Which alert events a processed news item gives, and the snippet each carries.
    Text is a sequence of characters; searching and slicing work on its UTF-8 bytes. */
module AlertMatching {
  import opened HtmlText
  import opened LetterCase
  import opened Sentences
  import opened Utf8

  const MARGIN: nat := 60
  const SNIPPET_RUNES: nat := 180

  /** No character of the text changes its number of bytes. */
  predicate KeepsWidth(lower: char -> char, s: string) {
    forall i :: 0 <= i < |s| ==> |EncodeChar(lower(s[i]))| == |EncodeChar(s[i])|
  }

  datatype Rule = Rule(id: string, user: string, keyword: string)
  datatype News = News(id: string, title: string, summary: string, content: string, url: string)
  datatype Field = Title | Summary | Content

  /** A slice bound out of range stops the goroutine. */
  datatype Snippet = OutOfRange | Text(bytes: seq<byte>)

  datatype Event = Event(rule: string, user: string, news: string, keyword: string, field: Field, snippet: Snippet,
    title: string, url: string)

  function FieldOf(n: News, f: Field): string {
    match f case Title => n.title case Summary => n.summary case Content => n.content
  }

  const DOTS: seq<byte> := ['.' as int as byte, '.' as int as byte, '.' as int as byte]

  function WindowStart(idx: nat): nat { if idx > MARGIN then idx - MARGIN else 0 }

  function WindowEnd(bytes: seq<byte>, idx: nat, width: nat): nat {
    if idx + width + MARGIN < |bytes| then idx + width + MARGIN else |bytes|
  }

  /** The stretch of width bytes at idx with a margin on both sides, and dots where text was cut off. */
  function Window(bytes: seq<byte>, idx: nat, width: nat): Snippet {
    var start, end := WindowStart(idx), WindowEnd(bytes, idx, width);
    if start > end then OutOfRange
    else Text((if start > 0 then DOTS else []) + bytes[start..end] + (if end < |bytes| then DOTS else []))
  }

  function BuildSnippet(text: string, keyword: string, lower: char -> char): Snippet {
    var raw := TrimSpace(text);
    if raw == "" then Text([]) else
    var idx := Index(Encode(ToLower(raw, lower)), Encode(ToLower(keyword, lower)));
    if idx < 0 then Text(Encode(Truncate(raw, SNIPPET_RUNES))) else Window(Encode(raw), idx, |Encode(keyword)|)
  }

  function Keyword(r: Rule, lower: char -> char): string { TrimSpace(ToLower(r.keyword, lower)) }

  predicate FoundIn(n: News, f: Field, k: string, lower: char -> char) {
    Contains(Encode(ToLower(FieldOf(n, f), lower)), Encode(k))
  }

  predicate Hits(n: News, r: Rule, lower: char -> char) {
    var k := Keyword(r, lower);
    k != "" && (FoundIn(n, Title, k, lower) || FoundIn(n, Summary, k, lower) || FoundIn(n, Content, k, lower))
  }

  function FirstField(n: News, k: string, lower: char -> char): Field {
    if FoundIn(n, Title, k, lower) then Title else if FoundIn(n, Summary, k, lower) then Summary else Content
  }

  function EventFor(n: News, r: Rule, lower: char -> char): Event {
    var k := Keyword(r, lower);
    var f := FirstField(n, k, lower);
    Event(r.id, r.user, n.id, k, f, BuildSnippet(FieldOf(n, f), k, lower), n.title, n.url)
  }

  /** The images of the elements that satisfy p, in order. */
  function FilterMap<T, U>(xs: seq<T>, p: T -> bool, f: T -> U): seq<U> {
    if xs == [] then []
    else FilterMap(xs[..|xs| - 1], p, f) + (if p(xs[|xs| - 1]) then [f(xs[|xs| - 1])] else [])
  }

  function EventsOf(n: News, rules: seq<Rule>, lower: char -> char): seq<Event> {
    FilterMap(rules, r => Hits(n, r, lower), r => EventFor(n, r, lower))
  }

  /** One round of the loop: nothing, or the event of the first field that contains the keyword. */
  method MatchRule(n: News, r: Rule, lower: char -> char) returns (events: seq<Event>)
    ensures events == if Hits(n, r, lower) then [EventFor(n, r, lower)] else []
  {
    events := [];
    var keyword := TrimSpace(ToLower(r.keyword, lower));
    if keyword == "" { return; }
    if Contains(Encode(ToLower(n.title, lower)), Encode(keyword)) {
      events := [Event(r.id, r.user, n.id, keyword, Title, BuildSnippet(n.title, keyword, lower), n.title, n.url)];
    } else if Contains(Encode(ToLower(n.summary, lower)), Encode(keyword)) {
      events := [Event(r.id, r.user, n.id, keyword, Summary, BuildSnippet(n.summary, keyword, lower), n.title, n.url)];
    } else if Contains(Encode(ToLower(n.content, lower)), Encode(keyword)) {
      events := [Event(r.id, r.user, n.id, keyword, Content, BuildSnippet(n.content, keyword, lower), n.title, n.url)];
    }
  }

  // ---------- The events are exactly the hits, in rule order ----------

  predicate Increasing(at: seq<nat>) { forall i, j :: 0 <= i < j < |at| ==> at[i] < at[j] }

  function Places<T>(xs: seq<T>, p: T -> bool): (at: seq<nat>)
    ensures forall i :: 0 <= i < |at| ==> at[i] < |xs|
  {
    if xs == [] then [] else Places(xs[..|xs| - 1], p) + (if p(xs[|xs| - 1]) then [|xs| - 1] else [])
  }

  lemma {:induction false} PlacesIncrease<T>(xs: seq<T>, p: T -> bool)
    ensures Increasing(Places(xs, p))
  {
    if xs == [] {
    } else {
      PlacesIncrease(xs[..|xs| - 1], p);
    }
  }

  lemma {:induction false} PlacesHold<T>(xs: seq<T>, p: T -> bool, r: nat)
    requires r < |xs|
    ensures p(xs[r]) <==> r in Places(xs, p)
  {
    if r < |xs| - 1 {
      PlacesHold(xs[..|xs| - 1], p, r);
    } else {
      assert r !in Places(xs[..|xs| - 1], p);
    }
  }

  lemma {:induction false} PlacesMap<T, U>(xs: seq<T>, p: T -> bool, f: T -> U, i: nat)
    requires i < |Places(xs, p)|
    ensures |FilterMap(xs, p, f)| == |Places(xs, p)| && FilterMap(xs, p, f)[i] == f(xs[Places(xs, p)[i]])
  {
    var init := xs[..|xs| - 1];
    PlacesCount(init, p, f);
    if i < |Places(init, p)| { PlacesMap(init, p, f, i); }
  }

  lemma {:induction false} PlacesCount<T, U>(xs: seq<T>, p: T -> bool, f: T -> U)
    ensures |FilterMap(xs, p, f)| == |Places(xs, p)|
  {
    if xs == [] {
    } else {
      PlacesCount(xs[..|xs| - 1], p, f);
    }
  }

  /** The places of the rules that hit, in order, and their events. */
  lemma EventsAreHits(n: News, rules: seq<Rule>, lower: char -> char) returns (at: seq<nat>)
    ensures Increasing(at) && |at| == |EventsOf(n, rules, lower)|
    ensures forall i :: 0 <= i < |at| ==>
        at[i] < |rules| && EventsOf(n, rules, lower)[i] == EventFor(n, rules[at[i]], lower)
    ensures forall r: nat :: r < |rules| ==> (Hits(n, rules[r], lower) <==> r in at)
  {
    var p, f := r => Hits(n, r, lower), r => EventFor(n, r, lower);
    at := Places(rules, p);
    PlacesIncrease(rules, p);
    PlacesCount(rules, p, f);
    forall r: nat | r < |rules| ensures Hits(n, rules[r], lower) <==> r in at {
      PlacesHold(rules, p, r);
      assert p(rules[r]) == Hits(n, rules[r], lower);
    }
    forall i | 0 <= i < |at| ensures EventsOf(n, rules, lower)[i] == EventFor(n, rules[at[i]], lower) {
      PlacesMap(rules, p, f, i);
      assert f(rules[at[i]]) == EventFor(n, rules[at[i]], lower);
    }
  }

  // ---------- Whose events they are, said without the functions above ----------

  /** k is the lower-cased text without the white space around it. */
  ghost predicate IsTrimmedLower(k: string, text: string, lower: char -> char) {
    exists a: nat, b: nat :: IsTrimmedLowerAt(k, text, lower, a, b)
  }

  ghost predicate IsTrimmedLowerAt(k: string, text: string, lower: char -> char, a: nat, b: nat) {
    && a <= b <= |text| && |k| == b - a && (forall x :: a <= x < b ==> k[x - a] == lower(text[x]))
    && (forall x :: 0 <= x < a || b <= x < |text| ==> IsSpace(lower(text[x])))
    && (k != [] ==> !IsSpace(k[0]) && !IsSpace(k[|k| - 1]))
  }

  /** The keyword stands somewhere in the lower-cased text. */
  ghost predicate Mentions(text: string, k: string, lower: char -> char) {
    exists i: nat :: MentionsAt(text, k, lower, i)
  }

  ghost predicate MentionsAt(text: string, k: string, lower: char -> char, i: nat) {
    i + |k| <= |text| && forall x :: 0 <= x < |k| ==> lower(text[i + x]) == k[x]
  }

  ghost predicate MentionedIn(n: News, k: string, lower: char -> char) {
    Mentions(n.title, k, lower) || Mentions(n.summary, k, lower) || Mentions(n.content, k, lower)
  }

  /** The rule has a keyword, and the item mentions it. */
  ghost predicate IsWanted(n: News, r: Rule, lower: char -> char) {
    exists k :: k != "" && IsTrimmedLower(k, r.keyword, lower) && MentionedIn(n, k, lower)
  }

  /** The event is about this item and for this rule, and names the first field that mentions its keyword. */
  ghost predicate IsEventOf(n: News, r: Rule, lower: char -> char, e: Event) {
    && e.rule == r.id && e.user == r.user && e.news == n.id && e.title == n.title && e.url == n.url
    && e.keyword != "" && IsTrimmedLower(e.keyword, r.keyword, lower)
    && match e.field
       case Title => Mentions(n.title, e.keyword, lower) && e.snippet == BuildSnippet(n.title, e.keyword, lower)
       case Summary =>
         && !Mentions(n.title, e.keyword, lower) && Mentions(n.summary, e.keyword, lower)
         && e.snippet == BuildSnippet(n.summary, e.keyword, lower)
       case Content =>
         && !Mentions(n.title, e.keyword, lower) && !Mentions(n.summary, e.keyword, lower)
         && Mentions(n.content, e.keyword, lower) && e.snippet == BuildSnippet(n.content, e.keyword, lower)
  }

  lemma MentionsAtAgrees(text: string, k: string, lower: char -> char, i: nat)
    ensures MentionsAt(text, k, lower, i) <==> OccursAt(ToLower(text, lower), k, i)
  {
    var t := ToLower(text, lower);
    if i + |k| <= |text| {
      var piece := t[i..i + |k|];
      assert forall x :: 0 <= x < |k| ==> piece[x] == lower(text[i + x]);
    }
  }

  lemma MentionsAgrees(text: string, k: string, lower: char -> char)
    requires k != ""
    ensures Mentions(text, k, lower) <==> Contains(Encode(ToLower(text, lower)), Encode(k))
  {
    var t := ToLower(text, lower);
    ContainsAgrees(t, k);
    forall i: nat ensures MentionsAt(text, k, lower, i) <==> OccursAt(t, k, i) { MentionsAtAgrees(text, k, lower, i); }
    if Contains(t, k) { assert MentionsAt(text, k, lower, Index(t, k)); }
  }

  lemma KeywordIsTrimmedLower(r: Rule, lower: char -> char)
    ensures IsTrimmedLower(Keyword(r, lower), r.keyword, lower)
  {
    var t := ToLower(r.keyword, lower);
    var a, b := TrimIsStretch(t);
    assert forall x :: 0 <= x < a ==> IsSpace(t[x]);
    assert forall x :: b <= x < |t| ==> IsSpace(t[x]);
    assert IsTrimmedLowerAt(Keyword(r, lower), r.keyword, lower, a, b);
  }

  /** What is left of one trimming lies within what is left of another. */
  lemma TrimmedWithin(k: string, a: nat, b: nat, l: string, c: nat, d: nat, text: string, lower: char -> char)
    requires IsTrimmedLowerAt(k, text, lower, a, b) && IsTrimmedLowerAt(l, text, lower, c, d) && k != ""
    ensures c <= a < b <= d
  {
    assert k[0] == lower(text[a]);
    assert k[|k| - 1] == lower(text[b - 1]);
  }

  /** There is only one way to trim. */
  lemma TrimmedLowerIsOne(k: string, a: nat, b: nat, l: string, c: nat, d: nat, text: string, lower: char -> char)
    requires IsTrimmedLowerAt(k, text, lower, a, b) && IsTrimmedLowerAt(l, text, lower, c, d) && k != ""
    ensures k == l
  {
    TrimmedWithin(k, a, b, l, c, d, text, lower);
    TrimmedWithin(l, c, d, k, a, b, text, lower);
    forall x | 0 <= x < |k| ensures k[x] == l[x] { assert k[x] == lower(text[a + x]); }
  }

  lemma OnlyKeyword(r: Rule, k: string, lower: char -> char)
    requires k != "" && IsTrimmedLower(k, r.keyword, lower)
    ensures k == Keyword(r, lower)
  {
    KeywordIsTrimmedLower(r, lower);
    var a: nat, b: nat :| IsTrimmedLowerAt(k, r.keyword, lower, a, b);
    var c: nat, d: nat :| IsTrimmedLowerAt(Keyword(r, lower), r.keyword, lower, c, d);
    TrimmedLowerIsOne(k, a, b, Keyword(r, lower), c, d, r.keyword, lower);
  }

  lemma FieldsAgree(n: News, k: string, lower: char -> char)
    requires k != ""
    ensures forall f :: FoundIn(n, f, k, lower) <==> Mentions(FieldOf(n, f), k, lower)
  {
    forall f ensures FoundIn(n, f, k, lower) <==> Mentions(FieldOf(n, f), k, lower) {
      MentionsAgrees(FieldOf(n, f), k, lower);
    }
  }

  lemma FieldsMention(n: News, k: string, lower: char -> char)
    requires k != ""
    ensures MentionedIn(n, k, lower) <==>
              FoundIn(n, Title, k, lower) || FoundIn(n, Summary, k, lower) || FoundIn(n, Content, k, lower)
    ensures FoundIn(n, Title, k, lower) <==> Mentions(n.title, k, lower)
    ensures FoundIn(n, Summary, k, lower) <==> Mentions(n.summary, k, lower)
    ensures FoundIn(n, Content, k, lower) <==> Mentions(n.content, k, lower)
  {
    FieldsAgree(n, k, lower);
    assert FieldOf(n, Title) == n.title && FieldOf(n, Summary) == n.summary && FieldOf(n, Content) == n.content;
  }

  lemma HitIsWanted(n: News, r: Rule, lower: char -> char)
    ensures Hits(n, r, lower) <==> IsWanted(n, r, lower)
  {
    var k := Keyword(r, lower);
    if k != "" { FieldsMention(n, k, lower); }
    KeywordIsTrimmedLower(r, lower);
    if IsWanted(n, r, lower) {
      var l :| l != "" && IsTrimmedLower(l, r.keyword, lower) && MentionedIn(n, l, lower);
      OnlyKeyword(r, l, lower);
    }
  }

  lemma HitHasItsEvent(n: News, r: Rule, lower: char -> char)
    requires Hits(n, r, lower)
    ensures IsEventOf(n, r, lower, EventFor(n, r, lower))
  {
    FieldsMention(n, Keyword(r, lower), lower);
    KeywordIsTrimmedLower(r, lower);
  }

  lemma EventsOfWanted(n: News, rules: seq<Rule>, lower: char -> char) returns (at: seq<nat>)
    ensures Increasing(at) && |at| == |EventsOf(n, rules, lower)|
    ensures forall r: nat :: r in at <==> r < |rules| && IsWanted(n, rules[r], lower)
    ensures forall i :: 0 <= i < |at| ==>
        at[i] < |rules| && IsEventOf(n, rules[at[i]], lower, EventsOf(n, rules, lower)[i])
  {
    at := EventsAreHits(n, rules, lower);
    forall r: nat ensures r in at <==> r < |rules| && IsWanted(n, rules[r], lower) {
      if r < |rules| { HitIsWanted(n, rules[r], lower); }
    }
    forall i | 0 <= i < |at| ensures IsEventOf(n, rules[at[i]], lower, EventsOf(n, rules, lower)[i]) {
      assert at[i] in at;
      HitHasItsEvent(n, rules[at[i]], lower);
    }
  }

  /** The loop: the events are those of exactly the wanted rules, in the order of the rules. */
  method MatchAlertEvents(n: News, rules: seq<Rule>, lower: char -> char)
    returns (events: seq<Event>, ghost at: seq<nat>)
    ensures events == EventsOf(n, rules, lower)
    ensures Increasing(at) && |at| == |events|
    ensures forall r: nat :: r in at <==> r < |rules| && IsWanted(n, rules[r], lower)
    ensures forall i :: 0 <= i < |at| ==> at[i] < |rules| && IsEventOf(n, rules[at[i]], lower, events[i])
  {
    events := [];
    at := EventsOfWanted(n, rules, lower);
    if |rules| == 0 { return; }
    ghost var p, f := r => Hits(n, r, lower), r => EventFor(n, r, lower);
    for i := 0 to |rules|
      invariant events == FilterMap(rules[..i], p, f)
    {
      assert rules[..i + 1][..i] == rules[..i];
      var next := MatchRule(n, rules[i], lower);
      events := events + next;
    }
    assert rules[..|rules|] == rules;
  }

  // ---------- Snippets ----------

  lemma {:induction false} SameWidth(s: string, lower: char -> char)
    requires KeepsWidth(lower, s)
    ensures |Encode(ToLower(s, lower))| == |Encode(s)|
  {
    if s == [] {
    } else {
      SameWidth(s[1..], lower);
      assert ToLower(s, lower)[1..] == ToLower(s[1..], lower);
    }
  }

  /** What lies between two non-spaces lies between the trimmed ends. */
  lemma InsideTrim(text: string, t: string, a: nat, b: nat, i: nat, j: nat)
    requires a <= b <= |text| == |t| && AllIn(text, 0, a, IsSpace) && AllIn(text, b, |text|, IsSpace)
    requires i < j <= |text| && !IsSpace(text[i]) && !IsSpace(text[j - 1])
    ensures a <= i && j <= b && OccursAt(t[a..b], t[i..j], i - a)
  {
    assert forall x :: 0 <= x < a ==> IsSpace(text[x]);
    assert forall x :: b <= x < |text| ==> IsSpace(text[x]);
    var u := t[a..b];
    var p, q := i - a, j - a;
    assert forall x :: p <= x < q ==> u[x] == t[a + x];
    assert u[p..q] == t[i..j];
  }

  /** A trimmed keyword found in the lower-cased text is found in the lower-cased trimmed text. */
  lemma FoundInTrimmed(text: string, k: string, lower: char -> char)
    requires IsLowerCase(lower) && k != "" && Trimmed(k)
    requires Contains(Encode(ToLower(text, lower)), Encode(k))
    ensures Contains(ToLower(TrimSpace(text), lower), k)
  {
    var t := ToLower(text, lower);
    ContainsAgrees(t, k);
    var a, b := TrimIsStretch(text);
    KeywordInside(text, t, k, Index(t, k), a, b, lower);
    LowerSlice(text, a, b, lower);
  }

  lemma LowerSlice(text: string, a: nat, b: nat, lower: char -> char)
    requires a <= b <= |text|
    ensures ToLower(text[a..b], lower) == ToLower(text, lower)[a..b]
  {}

  lemma KeywordInside(text: string, t: string, k: string, i: nat, a: nat, b: nat, lower: char -> char)
    requires IsLowerCase(lower) && k != "" && Trimmed(k) && OccursAt(t, k, i)
    requires |t| == |text| && forall x :: 0 <= x < |text| ==> t[x] == lower(text[x])
    requires a <= b <= |text| && AllIn(text, 0, a, IsSpace) && AllIn(text, b, |text|, IsSpace)
    ensures Contains(t[a..b], k)
  {
    var j := i + |k|;
    assert t[i..j] == k;
    assert k[0] == t[i] && k[|k| - 1] == t[j - 1];
    InsideTrim(text, t, a, b, i, j);
  }

  /** The snippet of a hit: bounds in range, a piece of the text that lower-cases to the keyword inside, at most 126
      bytes more than the keyword. */
  ghost predicate GoodSnippet(text: string, k: string, lower: char -> char, s: Snippet) {
    s.Text? && |s.bytes| <= |Encode(k)| + 2 * MARGIN + 6
    && exists i: nat, before: seq<byte>, after: seq<byte> :: ShowsAt(s.bytes, text, k, lower, i, before, after)
  }

  ghost predicate ShowsAt(bytes: seq<byte>, text: string, k: string, lower: char -> char, i: nat, before: seq<byte>,
          after: seq<byte>)
  {
    i + |k| <= |text| && ToLower(text[i..i + |k|], lower) == k && Shows(bytes, Encode(text[i..i + |k|]), before, after)
  }

  ghost predicate Shows(bytes: seq<byte>, piece: seq<byte>, before: seq<byte>, after: seq<byte>) {
    bytes == before + piece + after
  }

  lemma WidthOfPiece(raw: string, i: nat, j: nat, lower: char -> char)
    requires KeepsWidth(lower, raw) && i <= j <= |raw|
    ensures KeepsWidth(lower, raw[i..j])
  {}

  /** A piece of a text lower-cases to the same piece of the lower-cased text, with the same width. */
  lemma PieceLowered(raw: string, i: nat, j: nat, lower: char -> char)
    requires KeepsWidth(lower, raw) && i <= j <= |raw|
    ensures ToLower(raw[i..j], lower) == ToLower(raw, lower)[i..j]
    ensures |Encode(raw[i..j])| == |Encode(ToLower(raw, lower)[i..j])|
  {
    LowerSlice(raw, i, j, lower);
    WidthOfPiece(raw, i, j, lower);
    SameWidth(raw[i..j], lower);
  }

  lemma CutInThree(raw: string, i: nat, j: nat)
    requires i <= j <= |raw|
    ensures raw == raw[0..i] + (raw[i..j] + raw[j..])
  {}

  /** The bytes of a text before, in, and behind a piece of it. */
  lemma BytesInThree(raw: string, i: nat, j: nat)
    requires i <= j <= |raw|
    ensures Encode(raw) == Encode(raw[0..i]) + (Encode(raw[i..j]) + Encode(raw[j..]))
  {
    CutInThree(raw, i, j);
    EncodeConcat(raw[0..i], raw[i..j] + raw[j..]);
    EncodeConcat(raw[i..j], raw[j..]);
  }

  /** The window around a piece of the text shows the piece. */
  lemma WindowShows(left: seq<byte>, piece: seq<byte>, right: seq<byte>) returns (before: seq<byte>, after: seq<byte>)
    ensures var s := Window(left + (piece + right), |left|, |piece|);
            s.Text? && |s.bytes| <= |piece| + 2 * MARGIN + 6 && Shows(s.bytes, piece, before, after)
  {
    var bytes := left + (piece + right);
    var idx, width := |left|, |piece|;
    var start, end := WindowStart(idx), WindowEnd(bytes, idx, width);
    SliceAround(left, piece, right, start, end);
    before := (if start > 0 then DOTS else []) + left[start..];
    after := right[..end - idx - width] + (if end < |bytes| then DOTS else []);
  }

  /** At most sixty bytes on each side of the piece, and dots where some were cut off. */
  function Framed(left: seq<byte>, piece: seq<byte>, right: seq<byte>): seq<byte> {
    (if |left| <= 60 then left else DOTS + left[|left| - 60..]) + piece
    + (if |right| <= 60 then right else right[..60] + DOTS)
  }

  lemma WindowIsFramed(left: seq<byte>, piece: seq<byte>, right: seq<byte>)
    ensures Window(left + (piece + right), |left|, |piece|) == Text(Framed(left, piece, right))
  {
    var bytes := left + (piece + right);
    SliceAround(left, piece, right, WindowStart(|left|), WindowEnd(bytes, |left|, |piece|));
    assert right[..|right|] == right && left[0..] == left;
  }

  /** The snippet is the first occurrence of the keyword in the trimmed text, with its surroundings. */
  lemma SnippetIsFramed(text: string, k: string, lower: char -> char) returns (i: nat)
    requires IsLowerCase(lower) && KeepsWidth(lower, text) && k != "" && Trimmed(k) && ToLower(k, lower) == k
    requires Mentions(text, k, lower)
    ensures var raw := TrimSpace(text);
            && MentionsAt(raw, k, lower, i) && (forall j: nat :: j < i ==> !MentionsAt(raw, k, lower, j))
            && BuildSnippet(text, k, lower) ==
               Text(Framed(Encode(raw[..i]), Encode(raw[i..i + |k|]), Encode(raw[i + |k|..])))
  {
    MentionsAgrees(text, k, lower);
    FoundInTrimmed(text, k, lower);
    var a, b := TrimIsStretch(text);
    WidthOfPiece(text, a, b, lower);
    BuiltWindow(text, k, lower);
    i := FirstMention(TrimSpace(text), k, lower);
    WindowAtMention(TrimSpace(text), k, lower, i);
  }

  lemma WindowAtMention(raw: string, k: string, lower: char -> char, i: nat)
    requires KeepsWidth(lower, raw) && OccursAt(ToLower(raw, lower), k, i)
    ensures i + |k| <= |raw| && Window(Encode(raw), Offset(ToLower(raw, lower), i), |Encode(k)|) ==
            Text(Framed(Encode(raw[..i]), Encode(raw[i..i + |k|]), Encode(raw[i + |k|..])))
  {
    WindowParts(raw, k, lower, i);
    WindowIsFramed(Encode(raw[..i]), Encode(raw[i..i + |k|]), Encode(raw[i + |k|..]));
  }

  /** The bytes before, in and behind an occurrence, and their widths. */
  lemma WindowParts(raw: string, k: string, lower: char -> char, i: nat)
    requires KeepsWidth(lower, raw) && OccursAt(ToLower(raw, lower), k, i)
    ensures i + |k| <= |raw| && ToLower(raw[i..i + |k|], lower) == k
    ensures Encode(raw) == Encode(raw[..i]) + (Encode(raw[i..i + |k|]) + Encode(raw[i + |k|..]))
    ensures Offset(ToLower(raw, lower), i) == |Encode(raw[..i])| && |Encode(k)| == |Encode(raw[i..i + |k|])|
  {
    OffsetKept(raw, i, lower);
    PieceLowered(raw, i, i + |k|, lower);
    BytesInThree(raw, i, i + |k|);
    assert raw[0..i] == raw[..i];
  }

  lemma OffsetKept(raw: string, i: nat, lower: char -> char)
    requires KeepsWidth(lower, raw) && i <= |raw|
    ensures Offset(ToLower(raw, lower), i) == |Encode(raw[..i])|
  {
    PieceLowered(raw, 0, i, lower);
    assert raw[0..i] == raw[..i] && ToLower(raw, lower)[0..i] == ToLower(raw, lower)[..i];
  }

  /** The first occurrence among the bytes is the first among the characters. */
  lemma FirstMention(raw: string, k: string, lower: char -> char) returns (i: nat)
    requires k != "" && Contains(Encode(ToLower(raw, lower)), Encode(k))
    ensures MentionsAt(raw, k, lower, i) && forall j: nat :: j < i ==> !MentionsAt(raw, k, lower, j)
    ensures OccursAt(ToLower(raw, lower), k, i)
    ensures Offset(ToLower(raw, lower), i) == Index(Encode(ToLower(raw, lower)), Encode(k))
  {
    var t := ToLower(raw, lower);
    i := SelfSynchronizing(t, k, Index(Encode(t), Encode(k)));
    MentionsAtAgrees(raw, k, lower, i);
    forall j: nat | j < i ensures !MentionsAt(raw, k, lower, j) {
      MentionsAtAgrees(raw, k, lower, j);
      if OccursAt(t, k, j) {
        OccurrenceEncodes(t, k, j);
        OffsetGrows(t, j, i);
      }
    }
  }

  lemma SliceAround(left: seq<byte>, piece: seq<byte>, right: seq<byte>, start: nat, end: nat)
    requires start <= |left| && |left| + |piece| <= end <= |left + (piece + right)|
    ensures (left + (piece + right))[start..end] == left[start..] + piece + right[..end - |left| - |piece|]
  {}

  lemma SnippetShowsKeyword(text: string, k: string, lower: char -> char)
    requires IsLowerCase(lower) && KeepsWidth(lower, text) && k != "" && Trimmed(k) && ToLower(k, lower) == k
    requires Contains(Encode(ToLower(text, lower)), Encode(k))
    ensures GoodSnippet(text, k, lower, BuildSnippet(text, k, lower))
  {
    FoundInTrimmed(text, k, lower);
    var a, b := TrimIsStretch(text);
    var raw := TrimSpace(text);
    WidthOfPiece(text, a, b, lower);
    var i, before, after := WindowAtHit(raw, k, lower);
    BuiltWindow(text, k, lower);
    StretchShows(BuildSnippet(text, k, lower).bytes, text, a, b, k, lower, i, before, after);
  }

  lemma BuiltWindow(text: string, k: string, lower: char -> char)
    requires k != "" && ToLower(k, lower) == k && Contains(ToLower(TrimSpace(text), lower), k)
    ensures Contains(Encode(ToLower(TrimSpace(text), lower)), Encode(k))
    ensures BuildSnippet(text, k, lower) == WindowOf(TrimSpace(text), k, lower)
  {
    ContainsAgrees(ToLower(TrimSpace(text), lower), k);
  }

  function WindowOf(raw: string, k: string, lower: char -> char): Snippet
    requires Contains(Encode(ToLower(raw, lower)), Encode(k))
  {
    Window(Encode(raw), Index(Encode(ToLower(raw, lower)), Encode(k)), |Encode(k)|)
  }

  lemma StretchShows(bytes: seq<byte>, text: string, a: nat, b: nat, k: string, lower: char -> char, i: nat,
          before: seq<byte>, after: seq<byte>)
    requires a <= b <= |text| && ShowsAt(bytes, text[a..b], k, lower, i, before, after)
    ensures ShowsAt(bytes, text, k, lower, a + i, before, after)
  {
    SliceOfSlice(text, a, b, i, i + |k|);
  }

  lemma SliceOfSlice(s: string, a: nat, b: nat, i: nat, j: nat)
    requires a <= b <= |s| && i <= j <= b - a
    ensures s[a..b][i..j] == s[a + i..a + j]
  {
    var x, y := s[a..b][i..j], s[a + i..a + j];
    assert |x| == |y|;
    assert forall k :: 0 <= k < |x| ==> x[k] == s[a..b][i + k] == s[a + (i + k)] == y[k];
  }

  lemma WindowAtHit(raw: string, k: string, lower: char -> char) returns (i: nat, before: seq<byte>, after: seq<byte>)
    requires KeepsWidth(lower, raw) && k != "" && Contains(ToLower(raw, lower), k)
    ensures Contains(Encode(ToLower(raw, lower)), Encode(k))
    ensures var s := WindowOf(raw, k, lower);
            s.Text? && |s.bytes| <= |Encode(k)| + 2 * MARGIN + 6 && ShowsAt(s.bytes, raw, k, lower, i, before, after)
  {
    var t := ToLower(raw, lower);
    ContainsAgrees(t, k);
    i := SelfSynchronizing(t, k, Index(Encode(t), Encode(k)));
    before, after := WindowAround(raw, k, lower, i);
  }

  lemma WindowAround(raw: string, k: string, lower: char -> char, i: nat) returns (before: seq<byte>, after: seq<byte>)
    requires KeepsWidth(lower, raw) && OccursAt(ToLower(raw, lower), k, i)
    ensures var s := Window(Encode(raw), Offset(ToLower(raw, lower), i), |Encode(k)|);
            s.Text? && |s.bytes| <= |Encode(k)| + 2 * MARGIN + 6 && ShowsAt(s.bytes, raw, k, lower, i, before, after)
  {
    WindowParts(raw, k, lower, i);
    before, after := WindowShows(Encode(raw[..i]), Encode(raw[i..i + |k|]), Encode(raw[i + |k|..]));
  }

  /** The event names the first field with its keyword; if lower-casing keeps the widths of that field, its snippet
      shows it. */
  ghost predicate GoodEvent(n: News, lower: char -> char, e: Event) {
    && e.keyword != "" && FoundIn(n, e.field, e.keyword, lower)
    && (e.field.Summary? ==> !FoundIn(n, Title, e.keyword, lower))
    && (e.field.Content? ==> !FoundIn(n, Title, e.keyword, lower) && !FoundIn(n, Summary, e.keyword, lower))
    && (KeepsWidth(lower, FieldOf(n, e.field)) ==> GoodSnippet(FieldOf(n, e.field), e.keyword, lower, e.snippet))
  }

  lemma HitGivesGoodEvent(n: News, r: Rule, lower: char -> char)
    requires IsLowerCase(lower) && Hits(n, r, lower)
    ensures GoodEvent(n, lower, EventFor(n, r, lower))
  {
    var k := Keyword(r, lower);
    var field := FieldOf(n, FirstField(n, k, lower));
    KeywordIsLower(r, lower);
    if KeepsWidth(lower, field) { SnippetShowsKeyword(field, k, lower); }
  }

  lemma KeywordIsLower(r: Rule, lower: char -> char)
    requires IsLowerCase(lower)
    ensures Trimmed(Keyword(r, lower)) && ToLower(Keyword(r, lower), lower) == Keyword(r, lower)
  {
    var a, b := TrimIsStretch(ToLower(r.keyword, lower));
  }

  /** End to end: every event names the first field with its keyword, and its snippet shows it unless lower-casing
      changes the width of a character of that field. */
  lemma EventsShowTheirKeyword(n: News, rules: seq<Rule>, lower: char -> char)
    requires IsLowerCase(lower)
    ensures forall e :: e in EventsOf(n, rules, lower) ==> GoodEvent(n, lower, e)
  {
    var at := EventsAreHits(n, rules, lower);
    forall e | e in EventsOf(n, rules, lower) ensures GoodEvent(n, lower, e) {
      var i :| 0 <= i < |at| && e == EventsOf(n, rules, lower)[i];
      HitGivesGoodEvent(n, rules[at[i]], lower);
    }
  }

  /** When lower-casing changes widths, the slice is in range exactly when the occurrence starts no more than the margin
      behind the end of the text. */
  lemma SliceInRangeIff(text: string, k: string, lower: char -> char)
    ensures var raw := TrimSpace(text);
            var idx := Index(Encode(ToLower(raw, lower)), Encode(ToLower(k, lower)));
            BuildSnippet(text, k, lower).Text? <==> raw == "" || idx <= |Encode(raw)| + MARGIN
  {
    var raw := TrimSpace(text);
    var idx := Index(Encode(ToLower(raw, lower)), Encode(ToLower(k, lower)));
    if raw != "" && idx >= 0 { WindowInRange(Encode(raw), idx, |Encode(k)|); }
  }

  lemma WindowInRange(bytes: seq<byte>, idx: nat, width: nat)
    ensures Window(bytes, idx, width).Text? <==> idx <= |bytes| + MARGIN
  {}

  /** A text that lower-casing makes at most the margin longer is always in range. */
  lemma SliceInRange(text: string, k: string, lower: char -> char)
    requires |Encode(ToLower(TrimSpace(text), lower))| <= |Encode(TrimSpace(text))| + MARGIN
    ensures BuildSnippet(text, k, lower).Text?
  {
    SliceInRangeIff(text, k, lower);
  }

  function Repeat(c: char, n: nat): string { seq(n, i => c) }

  lemma {:induction false} RepeatWidth(c: char, n: nat)
    ensures |Encode(Repeat(c, n))| == n * |EncodeChar(c)|
  {
    if n == 0 {
    } else {
      assert Repeat(c, n)[1..] == Repeat(c, n - 1);
      RepeatWidth(c, n - 1);
    }
  }

  const NEWS: string := "news"
  const STROKED_A: char := '\U{023A}'          // two bytes
  const SMALL_STROKED_A: char := '\U{2C65}'    // three bytes

  /** The bounds do go out of range, and the goroutine stops: 70 letters whose lower case is a byte longer, then the
      keyword. */
  lemma SnippetCanFail(n: News, r: Rule, lower: char -> char)
    requires lower(STROKED_A) == SMALL_STROKED_A && lower('n') == 'n' && lower('e') == 'e' && lower('w') == 'w'
    requires lower('s') == 's'
    requires n.content == Repeat(STROKED_A, 70) + NEWS && n.title == "" && n.summary == "" && r.keyword == NEWS
    ensures Hits(n, r, lower) && EventFor(n, r, lower).snippet == OutOfRange
  {
    AlreadyLower(NEWS, lower);
    AlreadyTrimmed(NEWS);
    NothingInEmpty(lower);
    StrokedLowered(lower);
    StrokedOutOfRange(lower);
  }

  const STROKED: string := Repeat(STROKED_A, 70) + NEWS

  lemma StrokedLowered(lower: char -> char)
    requires lower(STROKED_A) == SMALL_STROKED_A && lower('n') == 'n' && lower('e') == 'e' && lower('w') == 'w'
    requires lower('s') == 's'
    ensures ToLower(STROKED, lower) == Repeat(SMALL_STROKED_A, 70) + NEWS
    ensures Contains(Encode(ToLower(STROKED, lower)), Encode(NEWS))
    ensures Index(Encode(ToLower(STROKED, lower)), Encode(NEWS)) == 210
  {
    assert ToLower(STROKED, lower) == Repeat(SMALL_STROKED_A, 70) + NEWS;
    assert NEWS[0] !in Repeat(SMALL_STROKED_A, 70);
    FoundBehind(Repeat(SMALL_STROKED_A, 70));
    RepeatWidth(SMALL_STROKED_A, 70);
  }

  lemma StrokedOutOfRange(lower: char -> char)
    requires Index(Encode(ToLower(STROKED, lower)), Encode(NEWS)) == 210 && ToLower(NEWS, lower) == NEWS
    ensures BuildSnippet(STROKED, NEWS, lower) == OutOfRange
  {
    AlreadyTrimmed(STROKED);
    RepeatWidth(STROKED_A, 70);
    EncodeConcat(Repeat(STROKED_A, 70), NEWS);
    NewsWidth();
    WindowInRange(Encode(STROKED), 210, |Encode(NEWS)|);
  }

  lemma AlreadyTrimmed(s: string)
    requires s != "" && !IsSpace(s[0]) && !IsSpace(s[|s| - 1])
    ensures TrimSpace(s) == s
  {
    assert TrimLeft(s) == s;
  }

  lemma NewsWidth()
    ensures |Encode(NEWS)| == 4
  {
    assert NEWS[1..] == "ews" && "ews"[1..] == "ws" && "ws"[1..] == "s" && "s"[1..] == "";
    assert |Encode("s")| == 1 && |Encode("ws")| == 2 && |Encode("ews")| == 3;
  }

  lemma NothingInEmpty(lower: char -> char)
    ensures !Contains(Encode(ToLower("", lower)), Encode(NEWS))
  {
    NewsWidth();
    assert ToLower("", lower) == "";
  }

  /** The keyword is found behind what does not hold its first letter, and not before. */
  lemma FoundBehind(p: string)
    requires NEWS[0] !in p
    ensures Contains(Encode(p + NEWS), Encode(NEWS)) && Index(Encode(p + NEWS), Encode(NEWS)) == |Encode(p)|
  {
    var t := p + NEWS;
    assert OccursAt(t, NEWS, |p|);
    ContainsAgrees(t, NEWS);
    var o := Index(Encode(t), Encode(NEWS));
    var i := SelfSynchronizing(t, NEWS, o);
    assert t[i..i + |NEWS|] == NEWS && t[i] == NEWS[0];
    assert i == |p| && t[..|p|] == p;
  }

  lemma AlreadyLower(s: string, lower: char -> char)
    requires forall i :: 0 <= i < |s| ==> lower(s[i]) == s[i]
    ensures ToLower(s, lower) == s
  {}

  // ---------- Snippets that are no text ----------

  /** A snippet is valid UTF-8 exactly when neither end of its slice lies inside a character. */
  lemma SnippetIsTextIff(text: string, k: string, lower: char -> char)
    requires BuildSnippet(text, k, lower).Text?
    ensures var raw := TrimSpace(text);
            var idx := Index(Encode(ToLower(raw, lower)), Encode(ToLower(k, lower)));
            IsText(BuildSnippet(text, k, lower).bytes) <==>
              || raw == "" || idx < 0
              || (AtCharacter(Encode(raw), WindowStart(idx)) &&
                   AtCharacter(Encode(raw), WindowEnd(Encode(raw), idx, |Encode(k)|)))
  {
    var raw := TrimSpace(text);
    var idx := Index(Encode(ToLower(raw, lower)), Encode(ToLower(k, lower)));
    if raw == "" {
      assert Encode("") == [];
    } else if idx < 0 {
      assert IsText(Encode(Truncate(raw, SNIPPET_RUNES)));
    } else {
      WindowIsTextIff(raw, idx, |Encode(k)|);
    }
  }

  lemma DotsAreText()
    ensures Encode("...") == DOTS
  {
    assert "..."[1..] == ".." && ".."[1..] == "." && "."[1..] == "";
  }

  lemma WindowIsTextIff(raw: string, idx: nat, width: nat)
    requires Window(Encode(raw), idx, width).Text?
    ensures var start, end := WindowStart(idx), WindowEnd(Encode(raw), idx, width);
            IsText(Window(Encode(raw), idx, width).bytes) <==>
              AtCharacter(Encode(raw), start) && AtCharacter(Encode(raw), end)
  {
    var bytes := Encode(raw);
    var start, end := WindowStart(idx), WindowEnd(bytes, idx, width);
    DotsAreText();
    var before, after := if start > 0 then "..." else "", if end < |bytes| then "..." else "";
    assert Encode("") == [];
    assert Window(bytes, idx, width).bytes == Encode(before) + bytes[start..end] + Encode(after);
    SliceIsTextIff(raw, start, end);
    FramedIsTextIff(before, bytes[start..end], after);
  }

  const ODD: string := Repeat(TWO_BYTES, 31) + "a"

  /** The slice does cut letters: 31 letters of two bytes and one of one byte before the keyword. */
  lemma SnippetCanBreak(lower: char -> char)
    requires lower(TWO_BYTES) == TWO_BYTES && lower('a') == 'a'
    requires lower('n') == 'n' && lower('e') == 'e' && lower('w') == 'w' && lower('s') == 's'
    ensures BuildSnippet(ODD + NEWS, NEWS, lower).Text? && !IsText(BuildSnippet(ODD + NEWS, NEWS, lower).bytes)
  {
    var text := ODD + NEWS;
    AlreadyLower(text, lower);
    AlreadyLower(NEWS, lower);
    AlreadyTrimmed(text);
    FoundBehind(ODD);
    OddWidth();
    NewsWidth();
    EncodeConcat(ODD, NEWS);
    SecondByte(text, 1);
    assert text[..1] == [TWO_BYTES] && [TWO_BYTES][1..] == "";
    assert Encode([TWO_BYTES]) == EncodeChar(TWO_BYTES) + Encode("");
    WindowInRange(Encode(text), 63, 4);
    SnippetIsTextIff(text, NEWS, lower);
  }

  lemma OddWidth()
    ensures |Encode(ODD)| == 63
  {
    RepeatWidth(TWO_BYTES, 31);
    EncodeConcat(Repeat(TWO_BYTES, 31), "a");
    assert "a"[1..] == "" && Encode("a") == EncodeChar('a') + Encode("");
  }
}
