/** Keys of the stored news texts, <prefix>/yyyy/mm/dd/<id>.txt: how they are built, and how their date is read back. */
module NewsKeys {
  import opened Calendar
  import opened Options
  import opened Paths

  /** Instants are nanoseconds since the start of year 0, in UTC. */
  const DAY := 86_400_000_000_000

  function DayOf(t: int): int { t / DAY }

  function TrimLeft(s: string): string { if s != "" && s[0] == '/' then TrimLeft(s[1..]) else s }

  function TrimRight(s: string): string { if s != "" && s[|s| - 1] == '/' then TrimRight(s[..|s| - 1]) else s }

  function Trim(s: string): string { TrimRight(TrimLeft(s)) }

  function TrimPrefix(s: string, p: string): string { if p <= s then s[|p|..] else s }

  function BuildNewsTextKey(prefix: string, id: string, t: int): string {
    var trimmed := Trim(prefix);
    var datePath := FormatDate(DateOf(DayOf(t)));
    var fileName := id + ".txt";
    if trimmed == "" then PathJoin([datePath, fileName]) else PathJoin([trimmed, datePath, fileName])
  }

  function Midnight(d: Option<Date>): Option<int>
    requires d.Some? ==> d.value.Valid()
  {
    if d.None? then None else Some(DAY * DayNumber(d.value))
  }

  function ParseLeadingDate(s: string): Option<int> {
    var parts := SplitN(s, 4);
    if |parts| < 3 then None else Midnight(ParseDate(parts[0] + "/" + parts[1] + "/" + parts[2]))
  }

  /** Midnight of the day that the key names after the prefix. */
  function ParseDateFromKey(key: string, prefix: string): Option<int> {
    ParseLeadingDate(TrimPrefix(key, Trim(prefix) + "/"))
  }

  // ---------- The segments of a built key ----------

  function PrefixSegments(prefix: string): seq<string> { CleanSegments(Split(Trim(prefix)), false) }

  function DateSegments(d: Date): seq<string> { [Padded(d.year, 4), Padded(d.month, 2), Padded(d.day, 2)] }

  function KeySegments(prefix: string, id: string, t: int): seq<string> {
    PrefixSegments(prefix) + FileSegments(id, t)
  }

  function FileSegments(id: string, t: int): seq<string> { DateSegments(DateOf(DayOf(t))) + [id + ".txt"] }

  predicate Numeral(s: string) { s != "" && forall c :: c in s ==> IsDigit(c) || c == '-' }

  lemma {:induction false} DecimalIsNumeral(n: nat)
    ensures Numeral(Decimal(n))
  {
    if n < 10 {
    } else {
      DecimalIsNumeral(n / 10);
    }
  }

  lemma {:induction false} ZerosAreDigits(n: int)
    ensures forall c :: c in Zeros(n) ==> IsDigit(c)
  {
    if n <= 0 {
    } else {
      ZerosAreDigits(n - 1);
    }
  }

  lemma PaddedIsNumeral(x: int, width: nat)
    ensures Numeral(Padded(x, width))
  {
    var digits := Decimal(if x < 0 then -x else x);
    DecimalIsNumeral(if x < 0 then -x else x);
    ZerosAreDigits(width - |digits|);
    assert digits[0] in Padded(x, width);
  }

  lemma NumeralIsName(s: string)
    requires Numeral(s)
    ensures PlainName(s)
  {
    assert s[0] in s;
    assert s[0] != '.';
  }

  lemma NamesOfKey(d: Date, id: string)
    requires SlashFree(id)
    ensures forall i :: 0 <= i < 4 ==> PlainName((DateSegments(d) + [id + ".txt"])[i])
    ensures AllSlashFree(DateSegments(d) + [id + ".txt"]) && AllSlashFree(DateSegments(d))
    ensures Padded(d.year, 4)[0] != '/'
  {
    PaddedIsNumeral(d.year, 4);
    PaddedIsNumeral(d.month, 2);
    PaddedIsNumeral(d.day, 2);
    NumeralIsName(Padded(d.year, 4));
    NumeralIsName(Padded(d.month, 2));
    NumeralIsName(Padded(d.day, 2));
    assert |id + ".txt"| >= 4;
  }

  lemma {:induction false} TrimRightEnds(s: string)
    ensures TrimRight(s) <= s && (TrimRight(s) != "" ==> TrimRight(s)[0] == s[0])
    ensures forall i :: |TrimRight(s)| <= i < |s| ==> s[i] == '/'
  {
    if s != "" && s[|s| - 1] == '/' { TrimRightEnds(s[..|s| - 1]); }
  }

  lemma {:induction false} TrimLeftStarts(s: string)
    ensures TrimLeft(s) != "" ==> TrimLeft(s)[0] != '/'
  {
    if s != "" && s[0] == '/' { TrimLeftStarts(s[1..]); }
  }

  lemma TrimmedStart(s: string)
    ensures Trim(s) != "" ==> Trim(s)[0] != '/'
  {
    TrimLeftStarts(s);
    TrimRightEnds(TrimLeft(s));
  }

  lemma JoinDate(d: Date)
    ensures Join(DateSegments(d)) == FormatDate(d)
  {
    JoinThree(DateSegments(d));
  }

  lemma JoinsOfKey(trimmed: string, d: Date, f: string)
    ensures Join([FormatDate(d), f]) == FormatDate(d) + "/" + f
    ensures Join([trimmed, FormatDate(d), f]) == trimmed + "/" + (FormatDate(d) + "/" + f)
  {
    assert [FormatDate(d), f][1..] == [f];
    assert [trimmed, FormatDate(d), f][1..] == [FormatDate(d), f];
  }

  lemma SplitDate(d: Date, f: string)
    requires SlashFree(f) && AllSlashFree(DateSegments(d))
    ensures Split(FormatDate(d) + "/" + f) == DateSegments(d) + [f]
  {
    JoinDate(d);
    SplitJoin(DateSegments(d));
    SplitAppend(FormatDate(d), f);
    SplitJoin([f]);
  }

  lemma CleanKey(trimmed: string, d: Date, f: string)
    requires trimmed != "" && trimmed[0] != '/' && SlashFree(f) && AllSlashFree(DateSegments(d))
    requires forall i :: 0 <= i < 4 ==> PlainName((DateSegments(d) + [f])[i])
    ensures Clean(trimmed + "/" + (FormatDate(d) + "/" + f)) == Join(CleanSegments(Split(trimmed), false) +
        (DateSegments(d) + [f]))
  {
    var names := DateSegments(d) + [f];
    SplitDate(d, f);
    SplitAppend(trimmed, FormatDate(d) + "/" + f);
    NamesStay(Split(trimmed), names, false);
    CleanIsNormal(Split(trimmed));
    NamesExtend(CleanSegments(Split(trimmed), false), names);
    FirstOfNormal(CleanSegments(Split(trimmed), false) + names);
  }

  lemma CleanBareKey(d: Date, f: string)
    requires SlashFree(f) && AllSlashFree(DateSegments(d))
    requires forall i :: 0 <= i < 4 ==> PlainName((DateSegments(d) + [f])[i])
    ensures Clean(FormatDate(d) + "/" + f) == Join(DateSegments(d) + [f])
  {
    var names := DateSegments(d) + [f];
    KeyStart(d, f);
    SplitDate(d, f);
    NamesStay([], names, false);
    assert [] + names == names;
    NamesExtend([], names);
    FirstOfNormal(names);
  }

  lemma NoSegments()
    ensures CleanSegments(Split(""), false) == []
  {
    SplitJoin([""]);
    assert [""][..0] == [];
    assert CleanSegments([], false) == [];
  }

  lemma KeyIsCleaned(trimmed: string, d: Date, f: string)
    requires (trimmed != "" ==> trimmed[0] != '/') && SlashFree(f) && AllSlashFree(DateSegments(d))
    requires forall i :: 0 <= i < 4 ==> PlainName((DateSegments(d) + [f])[i])
    ensures (if trimmed == "" then PathJoin([FormatDate(d), f]) else PathJoin([trimmed, FormatDate(d), f]))
            == Join(CleanSegments(Split(trimmed), false) + (DateSegments(d) + [f]))
  {
    var names := DateSegments(d) + [f];
    JoinsOfKey(trimmed, d, f);
    KeyStart(d, f);
    if trimmed == "" {
      NoSegments();
      CleanBareKey(d, f);
      assert [] + names == names;
    } else {
      CleanKey(trimmed, d, f);
    }
  }

  lemma KeyNames(prefix: string, id: string, t: int)
    requires SlashFree(id)
    ensures KeySegments(prefix, id, t) == PrefixSegments(prefix) + FileSegments(id, t)
    ensures AllSlashFree(KeySegments(prefix, id, t)) && Normal(KeySegments(prefix, id, t))
  {
    NamesOfKey(DateOf(DayOf(t)), id);
    CleanIsNormal(Split(Trim(prefix)));
    NamesExtend(PrefixSegments(prefix), FileSegments(id, t));
  }

  /** A built key is the cleaned prefix, the date and the file name, joined. */
  lemma KeyIsJoined(prefix: string, id: string, t: int)
    requires SlashFree(id)
    ensures BuildNewsTextKey(prefix, id, t) == Join(KeySegments(prefix, id, t))
    ensures AllSlashFree(KeySegments(prefix, id, t)) && Normal(KeySegments(prefix, id, t))
  {
    KeyNames(prefix, id, t);
    NamesOfKey(DateOf(DayOf(t)), id);
    TrimmedStart(prefix);
    KeyIsCleaned(Trim(prefix), DateOf(DayOf(t)), id + ".txt");
  }

  lemma KeyStart(d: Date, f: string)
    ensures (FormatDate(d) + "/" + f)[0] != '/' && FormatDate(d) != ""
  {
    PaddedIsNumeral(d.year, 4);
    assert Padded(d.year, 4)[0] in Padded(d.year, 4);
  }

  lemma {:induction false} NamesExtend(segs: seq<string>, names: seq<string>)
    requires Normal(segs) && AllSlashFree(segs) && forall i :: 0 <= i < |names| ==> PlainName(names[i])
    ensures Normal(segs + names) && AllSlashFree(segs + names)
    decreases |names|
  {
    if names == [] {
      assert segs + names == segs;
    } else {
      NamesExtend(segs, names[..|names| - 1]);
      assert (segs + names)[..|segs + names| - 1] == segs + names[..|names| - 1];
      assert segs + names == (segs + names[..|names| - 1]) + [names[|names| - 1]];
    }
  }

  // ---------- Reading the date back ----------

  /** Cleaning leaves the trimmed prefix alone, or nothing of it. */
  predicate Tidy(prefix: string) {
    PrefixSegments(prefix) == Split(Trim(prefix)) || PrefixSegments(prefix) == []
  }

  lemma BehindTidy(trimmed: string, names: seq<string>)
    requires names != []
    ensures TrimPrefix(Join(Split(trimmed) + names), trimmed + "/") == Join(names)
  {
    JoinAppend(Split(trimmed), names);
    JoinSplit(trimmed);
    assert Join(Split(trimmed) + names) == (trimmed + "/") + Join(names);
  }

  /** A key that starts with the trimmed prefix shows that cleaning left the prefix alone. */
  lemma NotBehindUntidy(trimmed: string, segs: seq<string>)
    requires segs != [] && Normal(segs) && AllSlashFree(segs) && trimmed + "/" <= Join(segs)
    ensures CleanSegments(Split(trimmed), false) == Split(trimmed)
  {
    var key := Join(segs);
    assert key == trimmed + "/" + key[|trimmed| + 1..];
    SplitsLikePrefix(segs, trimmed, key[|trimmed| + 1..]);
    PrefixIsNormal(segs, |Split(trimmed)|);
    NormalIsFixed(Split(trimmed));
  }

  /** The reader looks behind the prefix when cleaning left it alone, and else at the start of the key. */
  lemma ReadsFrom(prefix: string, id: string, t: int)
    requires SlashFree(id)
    ensures ParseDateFromKey(BuildNewsTextKey(prefix, id, t), prefix)
            == ParseLeadingDate(Join(if Tidy(prefix) then FileSegments(id, t) else KeySegments(prefix, id, t)))
  {
    KeyIsJoined(prefix, id, t);
    KeyNames(prefix, id, t);
    if PrefixSegments(prefix) == Split(Trim(prefix)) {
      BehindTidy(Trim(prefix), FileSegments(id, t));
    } else {
      if Trim(prefix) + "/" <= BuildNewsTextKey(prefix, id, t) {
        NotBehindUntidy(Trim(prefix), KeySegments(prefix, id, t));
      }
      assert PrefixSegments(prefix) == [] ==> [] + FileSegments(id, t) == FileSegments(id, t);
    }
  }

  lemma ThreeParts(segs: seq<string>)
    requires |segs| >= 4 && AllSlashFree(segs)
    ensures var parts := SplitN(Join(segs), 4);
        |parts| == 4 && parts[0] + "/" + parts[1] + "/" + parts[2] == Join(segs[..3])
  {
    SplitNJoin(segs, 4);
    JoinThree(segs[..3]);
  }

  lemma ReadThree(segs: seq<string>)
    requires |segs| >= 4 && AllSlashFree(segs)
    ensures ParseLeadingDate(Join(segs)) == Midnight(ParseDate(Join(segs[..3])))
  {
    ThreeParts(segs);
  }

  lemma JoinThree(three: seq<string>)
    requires |three| == 3
    ensures Join(three) == three[0] + "/" + three[1] + "/" + three[2]
  {
    var two := three[1..];
    assert two[1..] == [three[2]];
    assert Join(two) == two[0] + "/" + Join(two[1..]);
    assert Join(three) == three[0] + "/" + Join(two);
    assert three[0] + "/" + (three[1] + "/" + three[2]) == three[0] + "/" + three[1] + "/" + three[2];
  }

  /** For a tidy prefix, the date read from a key is midnight of the instant it was built from, if the year has four
      digits. */
  lemma RoundTrip(prefix: string, id: string, t: int)
    requires SlashFree(id) && Tidy(prefix)
    ensures ParseDateFromKey(BuildNewsTextKey(prefix, id, t), prefix)
            == if 0 <= DateOf(DayOf(t)).year <= 9999 then Some(DAY * DayOf(t)) else None
  {
    var d := DateOf(DayOf(t));
    ReadsFrom(prefix, id, t);
    NamesOfKey(d, id);
    ReadThree(FileSegments(id, t));
    assert FileSegments(id, t)[..3] == DateSegments(d);
    JoinDate(d);
    ParseFormat(d);
  }

  predicate ReadsBack(prefix: string, id: string, t: int) {
    ParseDateFromKey(BuildNewsTextKey(prefix, id, t), prefix) == Some(DAY * DayOf(t))
  }

  /** With an untidy prefix, instants of different years are not both read back. */
  lemma UntidyPrefixFails(prefix: string, id: string, t: int, u: int)
    requires SlashFree(id) && !Tidy(prefix)
    requires 0 <= DateOf(DayOf(t)).year < DateOf(DayOf(u)).year <= 9999
    ensures !(ReadsBack(prefix, id, t) && ReadsBack(prefix, id, u))
  {
    if ReadsBack(prefix, id, t) && ReadsBack(prefix, id, u) {
      YearIsInPrefix(prefix, id, t);
      YearIsInPrefix(prefix, id, u);
      var d, e := Date(DateOf(DayOf(t)).year, 1, 1), Date(DateOf(DayOf(u)).year, 1, 1);
      assert FormatDate(d) == FormatDate(e);
      ParseFormat(d);
      ParseFormat(e);
    }
  }

  lemma YearIsInPrefix(prefix: string, id: string, t: int)
    requires SlashFree(id) && !Tidy(prefix) && ReadsBack(prefix, id, t)
    ensures PrefixSegments(prefix)[0] == Padded(DateOf(DayOf(t)).year, 4)
  {
    ReadsFrom(prefix, id, t);
    KeyNames(prefix, id, t);
    YearIsFirst(PrefixSegments(prefix), FileSegments(id, t), t);
  }

  lemma YearIsFirst(lead: seq<string>, names: seq<string>, t: int)
    requires lead != [] && |names| == 4 && AllSlashFree(lead + names)
    requires ParseLeadingDate(Join(lead + names)) == Some(DAY * DayOf(t))
    ensures lead[0] == Padded(DateOf(DayOf(t)).year, 4)
  {
    ReadThree(lead + names);
    var three := (lead + names)[..3];
    assert three[0] == lead[0];
    FirstOfDate(three, t);
  }

  /** Three segments that read as the day of t start with its year. */
  lemma FirstOfDate(three: seq<string>, t: int)
    requires |three| == 3 && AllSlashFree(three) && Midnight(ParseDate(Join(three))) == Some(DAY * DayOf(t))
    ensures three[0] == Padded(DateOf(DayOf(t)).year, 4)
  {
    var d := ParseDate(Join(three)).value;
    FormatParse(Join(three));
    JoinDate(d);
    NamesOfKey(d, "");
    SplitJoin(three);
    SplitJoin(DateSegments(d));
    DateOfDayNumber(d);
  }

  lemma YearOfNewYear(y: int)
    ensures DateOf(DayOf(DAY * DaysBeforeYear(y))).year == y
  {
    NewYear(y);
    DayOfMidnight(DaysBeforeYear(y));
  }

  lemma DayOfMidnight(day: int)
    ensures DayOf(DAY * day) == day
  {}

  /** The dates of all keys under a prefix are read back exactly when the prefix is tidy. */
  lemma ReadBackIff(prefix: string)
    ensures Tidy(prefix) <==>
              forall id: string, t: int :: SlashFree(id) && 0 <= DateOf(DayOf(t)).year <= 9999 ==>
                ReadsBack(prefix, id, t)
  {
    if Tidy(prefix) {
      forall id: string, t: int | SlashFree(id) && 0 <= DateOf(DayOf(t)).year <= 9999
        ensures ReadsBack(prefix, id, t)
      {
        RoundTrip(prefix, id, t);
      }
    } else {
      var t, u := DAY * DaysBeforeYear(0), DAY * DaysBeforeYear(1);
      YearOfNewYear(0);
      YearOfNewYear(1);
      UntidyPrefixFails(prefix, "", t, u);
      assert SlashFree("");
      assert !ReadsBack(prefix, "", t) || !ReadsBack(prefix, "", u);
    }
  }

  /** Cleaning leaves the trimmed prefix alone, or there is none. */
  predicate Clear(prefix: string) { Trim(prefix) == "" || PrefixSegments(prefix) == Split(Trim(prefix)) }

  /** The last segment of a trimmed prefix that cleaning changes, although the segments before it are normal. */
  lemma LastSegmentSpoils(segs: seq<string>)
    requires segs != [] && Normal(segs[..|segs| - 1]) && segs[|segs| - 1] != ""
    ensures var x, init, clean := segs[|segs| - 1], segs[..|segs| - 1], CleanSegments(segs, false);
            clean == segs || (x == "." && clean == init) || (x == ".." && init != [] && clean == init[..|init| - 1])
  {
    NormalIsFixed(segs[..|segs| - 1]);
    assert segs == segs[..|segs| - 1] + [segs[|segs| - 1]];
  }

  lemma DateAt(lead: seq<string>, d: Date, f: string)
    ensures var key := lead + (DateSegments(d) + [f]);
            |key| == |lead| + 4 && key[|lead|] == Padded(d.year, 4) && key[|lead| + 1] == Padded(d.month, 2)
            && key[|lead|] != "" && key[|lead|][0] != '.' && key[|lead| + 1] != "" && key[|lead| + 1][0] != '.'
  {
    PaddedIsNumeral(d.year, 4);
    PaddedIsNumeral(d.month, 2);
    StartsWithoutDot(Padded(d.year, 4));
    StartsWithoutDot(Padded(d.month, 2));
  }

  /** A last segment that cleaning removes would have to be the start of a number of the date, which has no dot. */
  lemma NoRoomForDots(init: seq<string>, x: string, lead: seq<string>, d: Date, f: string)
    requires |init| < |lead| + 4 && x <= (lead + (DateSegments(d) + [f]))[|init|]
    ensures !(x == "." && lead == init) && !(x == ".." && init != [] && lead == init[..|init| - 1])
  {
    DateAt(lead, d, f);
  }

  lemma StartsWithoutDot(s: string)
    requires Numeral(s)
    ensures s[0] != '.'
  {
    assert s[0] in s;
  }

  lemma UntidyNotFound(prefix: string, id: string, t: int)
    requires SlashFree(id) && Trim(prefix) != "" && Trim(prefix) <= BuildNewsTextKey(prefix, id, t)
    ensures PrefixSegments(prefix) == Split(Trim(prefix))
  {
    var segs, key, lead := Split(Trim(prefix)), KeySegments(prefix, id, t), PrefixSegments(prefix);
    KeyIsJoined(prefix, id, t);
    KeyNames(prefix, id, t);
    SplitJoin(key);
    PrefixSplits(BuildNewsTextKey(prefix, id, t), Trim(prefix));
    LastNotEmpty(prefix);
    SegmentsStay(segs, key, lead, DateOf(DayOf(t)), id + ".txt");
  }

  /** A prefix whose segments start a key, the last one possibly cut short, is left alone by cleaning. */
  lemma SegmentsStay(segs: seq<string>, key: seq<string>, lead: seq<string>, d: Date, f: string)
    requires segs != [] && |segs| <= |key| && Normal(key) && lead == CleanSegments(segs, false)
    requires key == lead + (DateSegments(d) + [f])
    requires segs[..|segs| - 1] == key[..|segs| - 1] && segs[|segs| - 1] != "" && segs[|segs| - 1] <= key[|segs| - 1]
    ensures lead == segs
  {
    PrefixIsNormal(key, |segs| - 1);
    LastSegmentSpoils(segs);
    NoRoomForDots(segs[..|segs| - 1], segs[|segs| - 1], lead, d, f);
  }

  lemma {:induction false} TrimRightStops(s: string)
    ensures TrimRight(s) != "" ==> TrimRight(s)[|TrimRight(s)| - 1] != '/'
  {
    if s != "" && s[|s| - 1] == '/' { TrimRightStops(s[..|s| - 1]); }
  }

  /** A trimmed prefix does not end in a slash, so its last segment is not empty. */
  lemma LastNotEmpty(prefix: string)
    requires Trim(prefix) != ""
    ensures var segs := Split(Trim(prefix)); segs[|segs| - 1] != ""
  {
    var segs := Split(Trim(prefix));
    TrimRightStops(TrimLeft(prefix));
    JoinSplit(Trim(prefix));
    if |segs| > 1 {
      JoinAppend(segs[..|segs| - 1], [segs[|segs| - 1]]);
      assert segs == segs[..|segs| - 1] + [segs[|segs| - 1]];
    }
  }

  predicate PlainOrSlashed(prefix: string) {
    prefix == Trim(prefix) || (Trim(prefix) != "" && prefix == Trim(prefix) + "/")
  }

  lemma FoundOnlyIf(prefix: string, id: string, t: int)
    requires SlashFree(id) && prefix <= BuildNewsTextKey(prefix, id, t)
    ensures Clear(prefix) && PlainOrSlashed(prefix)
  {
    var trimmed, key := Trim(prefix), BuildNewsTextKey(prefix, id, t);
    KeyIsJoined(prefix, id, t);
    FirstOfNormal(KeySegments(prefix, id, t));
    assert prefix != "" ==> prefix[0] == key[0];
    assert TrimLeft(prefix) == prefix;
    TrimRightEnds(prefix);
    if trimmed != "" { UntidyNotFound(prefix, id, t); }
    KeyAfterPrefix(prefix, id, t);
    assert forall i :: 0 <= i < |prefix| ==> prefix[i] == key[i];
    PlainOrOneSlash(prefix, trimmed);
  }

  lemma PlainOrOneSlash(prefix: string, trimmed: string)
    requires trimmed <= prefix && |prefix| <= |trimmed| + 1 && (|prefix| > |trimmed| ==> prefix[|trimmed|] == '/')
    ensures prefix == trimmed || prefix == trimmed + "/"
  {}

  /** A listing by the prefix as configured finds the keys built under it exactly when cleaning leaves the prefix alone,
      it does not start with a slash and does not end in two. */
  lemma ListedIff(prefix: string, id: string, t: int)
    requires SlashFree(id)
    ensures prefix <= BuildNewsTextKey(prefix, id, t) <==> Clear(prefix) && PlainOrSlashed(prefix)
  {
    if Clear(prefix) { KeyAfterPrefix(prefix, id, t); }
    if prefix <= BuildNewsTextKey(prefix, id, t) { FoundOnlyIf(prefix, id, t); }
  }

  const DOUBLED: seq<string> := ["a", "", "b"]

  lemma DoubledSegments()
    ensures Split("a//b") == DOUBLED && Trim("a//b") == "a//b"
  {
    assert DOUBLED[1..] == ["", "b"] && ["", "b"][1..] == ["b"];
    assert Join(["", "b"]) == "/b";
    assert Join(DOUBLED) == "a//b";
    SplitJoin(DOUBLED);
  }

  lemma DoubledCleaned()
    ensures CleanSegments(DOUBLED, false) == ["a", "b"]
  {
    assert ["a"][..0] == [] && ["a", ""][..1] == ["a"] && DOUBLED[..2] == ["a", ""];
    assert CleanSegments(["a"], false) == ["a"];
    assert CleanSegments(["a", ""], false) == ["a"];
  }

  lemma SlashTwice()
    ensures !Tidy("a//b") && !Clear("a//b")
  {
    DoubledSegments();
    DoubledCleaned();
  }

  /** A doubled slash in the prefix: no text under it is ever found, and of two years one is not read back. */
  lemma DoubledSlashFails(id: string, t: int, u: int)
    requires SlashFree(id) && 0 <= DateOf(DayOf(t)).year < DateOf(DayOf(u)).year <= 9999
    ensures !("a//b" <= BuildNewsTextKey("a//b", id, t))
    ensures !(ReadsBack("a//b", id, t) && ReadsBack("a//b", id, u))
  {
    SlashTwice();
    ListedIff("a//b", id, t);
    UntidyPrefixFails("a//b", id, t, u);
  }

  lemma KeyAfterPrefix(prefix: string, id: string, t: int)
    requires SlashFree(id) && Clear(prefix)
    ensures var trimmed, key := Trim(prefix), BuildNewsTextKey(prefix, id, t);
            key != "" && key[0] != '/'
            && (trimmed != "" ==> trimmed + "/" <= key && |key| > |trimmed| + 1 && key[|trimmed| + 1] != '/')
  {
    var trimmed, d, f := Trim(prefix), DateOf(DayOf(t)), id + ".txt";
    KeyIsJoined(prefix, id, t);
    FirstOfNormal(KeySegments(prefix, id, t));
    if trimmed != "" {
      var rest := DateSegments(d) + [f];
      assert KeySegments(prefix, id, t) == PrefixSegments(prefix) + rest;
      JoinAppend(PrefixSegments(prefix), rest);
      JoinSplit(trimmed);
      JoinAppend(DateSegments(d), [f]);
      JoinDate(d);
      KeyStart(d, f);
    }
  }
}
