/** The text of a normalised URL, whose hash is the key under which an article is remembered. */
module UrlPrinting {
  import opened LetterCase
  import opened Options
  import opened UrlNormalizer
  import opened UrlQuery
  import opened Utf8

  const SLASH: byte := 47
  const COLON: byte := 58
  const QUESTION: byte := 63
  const AT: byte := 64

  // ---------- The host ----------

  /** The bytes that stand for themselves in a host. */
  predicate HostByte(b: byte) {
    || IsUnreserved(b) || b == 33 || b == 34 || b == 36 || 38 <= b <= 44 || 58 <= b <= 62 || b == 91 || b == 93
  }

  function EscapeHostByte(b: byte): Bytes {
    if HostByte(b) then [b] else [PERCENT, HexDigit(b as int / 16), HexDigit(b as int % 16)]
  }

  function EscapeHost(s: Bytes): Bytes { if s == [] then [] else EscapeHostByte(s[0]) + EscapeHost(s[1..]) }

  lemma {:induction false} HostIsPlain(s: Bytes)
    ensures SLASH !in EscapeHost(s) && QUESTION !in EscapeHost(s) && AT !in EscapeHost(s)
    ensures EscapeHost(s) == [] <==> s == []
  {
    if s == [] {
    } else {
      HostIsPlain(s[1..]);
    }
  }

  lemma {:induction false} HostIsInjective(s: Bytes, t: Bytes)
    requires EscapeHost(s) == EscapeHost(t)
    ensures s == t
  {
    HostIsPlain(s);
    HostIsPlain(t);
    if s == [] {
      assert t == [];
    } else {
      var a, b := EscapeHostByte(s[0]), EscapeHostByte(t[0]);
      FirstByte(s);
      FirstByte(t);
      SameByte(s[0], t[0], EscapeHost(s[1..]), EscapeHost(t[1..]));
      HostIsInjective(s[1..], t[1..]);
      assert s == [s[0]] + s[1..] && t == [t[0]] + t[1..];
    }
  }

  lemma FirstByte(s: Bytes)
    requires s != []
    ensures EscapeHost(s)[0] == if HostByte(s[0]) then s[0] else PERCENT
  {}

  lemma SameByte(a: byte, b: byte, x: Bytes, y: Bytes)
    requires EscapeHostByte(a) + x == EscapeHostByte(b) + y
    ensures a == b && x == y
  {
    var l, r := EscapeHostByte(a) + x, EscapeHostByte(b) + y;
    assert l[0] == EscapeHostByte(a)[0] && r[0] == EscapeHostByte(b)[0];
    if HostByte(a) {
      assert l[1..] == x && r[1..] == y;
    } else {
      assert l[1] == HexDigit(a as int / 16) && r[1] == HexDigit(b as int / 16);
      assert l[2] == HexDigit(a as int % 16) && r[2] == HexDigit(b as int % 16);
      assert l[3..] == x && r[3..] == y;
    }
  }

  // ---------- The text ----------

  function SchemePart(u: Url): Bytes { if u.scheme == "" then [] else Encode(u.scheme) + [COLON] }

  /** The text has a part that starts with two slashes. */
  predicate HasAuthority(u: Url) {
    if u.scheme == "" then u.host != "" || u.user.Some?
    else !(u.omitHost && u.host == "" && u.user.None?) && (u.host != "" || u.path != [] || u.user.Some?)
  }

  function UserAndHost(u: Url): Bytes {
    (if u.user.Some? then u.user.value + [AT] else []) + EscapeHost(Encode(u.host))
  }

  function Authority(u: Url): Bytes { if HasAuthority(u) then [SLASH, SLASH] + UserAndHost(u) else [] }

  /** A relative path is kept from running into the host, or from being read as a scheme. */
  function PathPart(u: Url): Bytes {
    if u.path != [] && u.path[0] != SLASH && u.host != "" then [SLASH] + u.path
    else if u.scheme == "" && !HasAuthority(u) && COLON in Before(u.path, SLASH) then [46, SLASH] + u.path
    else u.path
  }

  function Hierarchy(u: Url): Bytes { if u.opaquePart != [] then u.opaquePart else Authority(u) + PathPart(u) }

  function QueryPart(u: Url): Bytes { if u.forceQuery || u.query != [] then [QUESTION] + u.query else [] }

  /** The text of a URL without a fragment. */
  function PrintUrl(u: Url): Bytes { (SchemePart(u) + Hierarchy(u)) + QueryPart(u) }

  /** An ordinary URL reads scheme, "://", user and "@" if there is one, host, path, and "?" before a query that is not
      empty. */
  lemma OrdinaryUrl(u: Url)
    requires u.scheme != "" && u.host != "" && u.opaquePart == [] && !u.forceQuery
    requires u.path == [] || u.path[0] == Ascii("/")[0]
    ensures PrintUrl(u) ==
            Encode(u.scheme) + Ascii("://") + (match u.user case None => [] case Some(user) => user + Ascii("@"))
            + EscapeHost(Encode(u.host)) + u.path + (if u.query == [] then [] else Ascii("?") + u.query)
  {
    AsciiMarks();
    var a, user, host := Encode(u.scheme), if u.user.Some? then u.user.value + [AT] else [], EscapeHost(Encode(u.host));
    Flattened(a, [COLON], [SLASH, SLASH], user, host, u.path, QueryPart(u));
    assert [COLON] + [SLASH, SLASH] == Ascii("://");
    assert PathPart(u) == u.path && HasAuthority(u);
  }

  lemma AsciiMarks()
    ensures Ascii("/") == [SLASH] && Ascii("@") == [AT] && Ascii("?") == [QUESTION]
    ensures Ascii("://") == [COLON, SLASH, SLASH]
  {}

  lemma Flattened(a: Bytes, c: Bytes, s: Bytes, u: Bytes, h: Bytes, p: Bytes, q: Bytes)
    ensures ((a + c) + ((s + (u + h)) + p)) + q == a + (c + s) + u + h + p + q
  {}

  // ---------- What a parsed URL looks like ----------

  predicate SchemeChar(c: char) {
    'a' <= c <= 'z' || 'A' <= c <= 'Z' || '0' <= c <= '9' || c == '+' || c == '-' || c == '.'
  }

  predicate Slashes(p: Bytes, n: nat) { n <= |p| && forall i :: 0 <= i < n ==> p[i] == SLASH }

  predicate NoUserOrHost(u: Url) { u.host == "" && u.user.None? }

  /** What parsing guarantees of the fields. */
  predicate Parsed(u: Url) {
    && (forall c :: c in u.scheme ==> SchemeChar(c))
    && (u.opaquePart != [] ==>
          u.scheme != "" && NoUserOrHost(u) && u.path == [] && !u.omitHost && u.opaquePart[0] != SLASH &&
            QUESTION !in u.opaquePart)
    && (u.user.Some? ==> SLASH !in u.user.value && QUESTION !in u.user.value && AT !in u.user.value)
    && QUESTION !in u.path
    && (u.path != [] && u.path[0] != SLASH ==> u.scheme == "" && NoUserOrHost(u) && COLON !in Before(u.path, SLASH))
    && (u.omitHost ==> u.scheme != "" && NoUserOrHost(u) && Slashes(u.path, 1) && !Slashes(u.path, 2))
    && (u.scheme == "" && NoUserOrHost(u) && Slashes(u.path, 2) ==> Slashes(u.path, 3))
    && (u.forceQuery ==> u.query == [])
  }

  // ---------- The text tells the fields ----------

  lemma FirstMark(a: Bytes, b: Bytes, m: byte)
    requires m !in a && (b == [] || b[0] == m)
    ensures Find(a + b, m) == |a|
  {
    assert forall k :: 0 <= k < |a| ==> (a + b)[k] == a[k];
    FindIs(a + b, m, |a|);
  }

  /** Two texts cut at the first mark. */
  lemma CutAtMark(a: Bytes, b: Bytes, x: Bytes, y: Bytes, m: byte)
    requires m !in a && m !in x && (b == [] || b[0] == m) && (y == [] || y[0] == m) && a + b == x + y
    ensures a == x && b == y
  {
    FirstMark(a, b, m);
    FirstMark(x, y, m);
    SameParts(a, b, x, y);
  }

  lemma {:induction false} SchemeBytes(s: string)
    requires forall c :: c in s ==> SchemeChar(c)
    ensures COLON !in Encode(s) && SLASH !in Encode(s) && QUESTION !in Encode(s)
  {
    if s == "" {
    } else {
      assert s[0] in s && forall c :: c in s[1..] ==> c in s;
      SchemeBytes(s[1..]);
    }
  }

  lemma EncodeIsInjective(s: string, t: string)
    requires Encode(s) == Encode(t)
    ensures s == t
  {
    PrefixDecodes(s, t);
    PrefixDecodes(t, s);
  }

  lemma PathIsPlain(u: Url)
    requires Parsed(u)
    ensures PathPart(u) == u.path
    ensures HasAuthority(u) || u.scheme != "" ==> u.path == [] || u.path[0] == SLASH
  {
    if u.path != [] && u.path[0] == SLASH { assert Find(u.path, SLASH) == 0; }
  }

  lemma UserAndHostIsPlain(u: Url)
    requires Parsed(u)
    ensures SLASH !in UserAndHost(u) && QUESTION !in UserAndHost(u)
    ensures UserAndHost(u) == [] <==> NoUserOrHost(u)
  {
    HostIsPlain(Encode(u.host));
  }

  /** Before the first slash there is no colon. */
  predicate NoEarlyColon(h: Bytes) { forall i :: 0 <= i < |h| && h[i] == COLON ==> SLASH in h[..i] }

  lemma ColonBehindSlash(h: Bytes)
    requires h == [] || h[0] == SLASH || COLON !in Before(h, SLASH)
    ensures NoEarlyColon(h)
  {
    var n := Find(h, SLASH);
    forall i | 0 <= i < |h| && h[i] == COLON ensures SLASH in h[..i] {
      assert n < i ==> h[..i][n] == h[n];
    }
  }

  lemma RelativeStart(u: Url)
    requires Parsed(u) && u.scheme == ""
    ensures NoEarlyColon(Hierarchy(u))
  {
    PathIsPlain(u);
    assert !HasAuthority(u) ==> Hierarchy(u) == u.path;
    assert HasAuthority(u) ==> Hierarchy(u)[0] == SLASH;
    ColonBehindSlash(Hierarchy(u));
  }

  lemma WithScheme(u: Url)
    requires Parsed(u) && u.scheme != ""
    ensures COLON !in Encode(u.scheme) && SLASH !in Encode(u.scheme)
    ensures SchemePart(u) + Hierarchy(u) == Encode(u.scheme) + ([COLON] + Hierarchy(u))
  {
    SchemeBytes(u.scheme);
    Regroup(Encode(u.scheme), [COLON], Hierarchy(u));
  }

  lemma WithoutScheme(u: Url)
    requires u.scheme == ""
    ensures SchemePart(u) + Hierarchy(u) == Hierarchy(u)
  {}

  lemma SchemesAgree(u: Url, v: Url)
    requires Parsed(u) && Parsed(v) && SchemePart(u) + Hierarchy(u) == SchemePart(v) + Hierarchy(v)
    ensures u.scheme == v.scheme && Hierarchy(u) == Hierarchy(v)
  {
    if u.scheme == "" && v.scheme == "" {
      WithoutScheme(u);
      WithoutScheme(v);
    } else if u.scheme == "" {
      NoSchemeHere(u, v);
    } else if v.scheme == "" {
      NoSchemeHere(v, u);
    } else {
      SameSchemes(u, v);
    }
  }

  lemma SameSchemes(u: Url, v: Url)
    requires Parsed(u) && Parsed(v) && u.scheme != "" && v.scheme != ""
    requires SchemePart(u) + Hierarchy(u) == SchemePart(v) + Hierarchy(v)
    ensures u.scheme == v.scheme && Hierarchy(u) == Hierarchy(v)
  {
    WithScheme(u);
    WithScheme(v);
    CutAtMark(Encode(u.scheme), [COLON] + Hierarchy(u), Encode(v.scheme), [COLON] + Hierarchy(v), COLON);
    EncodeIsInjective(u.scheme, v.scheme);
    SameParts([COLON], Hierarchy(u), [COLON], Hierarchy(v));
  }

  lemma NoSchemeHere(u: Url, v: Url)
    requires Parsed(u) && Parsed(v) && u.scheme == "" && v.scheme != ""
    ensures SchemePart(u) + Hierarchy(u) != SchemePart(v) + Hierarchy(v)
  {
    RelativeStart(u);
    WithoutScheme(u);
    WithScheme(v);
    var h, n := SchemePart(v) + Hierarchy(v), |Encode(v.scheme)|;
    assert h[n] == COLON && h[..n] == Encode(v.scheme);
  }

  lemma WithUser(u: Url)
    requires Parsed(u)
    ensures u.user.Some? <==> AT in UserAndHost(u)
    ensures u.user.Some? ==> UserAndHost(u) == u.user.value + ([AT] + EscapeHost(Encode(u.host)))
    ensures u.user.None? ==> UserAndHost(u) == EscapeHost(Encode(u.host))
  {
    HostIsPlain(Encode(u.host));
    if u.user.Some? {
      Regroup(u.user.value, [AT], EscapeHost(Encode(u.host)));
      assert UserAndHost(u)[|u.user.value|] == AT;
    }
  }

  lemma UsersAgree(u: Url, v: Url)
    requires Parsed(u) && Parsed(v) && UserAndHost(u) == UserAndHost(v)
    ensures u.user == v.user && u.host == v.host
  {
    var a, b := EscapeHost(Encode(u.host)), EscapeHost(Encode(v.host));
    WithUser(u);
    WithUser(v);
    if u.user.Some? {
      CutAtMark(u.user.value, [AT] + a, v.user.value, [AT] + b, AT);
      SameParts([AT], a, [AT], b);
    }
    HostIsInjective(Encode(u.host), Encode(v.host));
    EncodeIsInjective(u.host, v.host);
  }

  /** Two slashes start an authority, except that a relative reference needs something behind them. */
  predicate LooksAuthoritative(h: Bytes, relative: bool) { Slashes(h, 2) && (relative ==> !Slashes(h, 3)) }

  lemma AuthorityShows(u: Url)
    requires Parsed(u) && u.opaquePart == []
    ensures HasAuthority(u) <==> LooksAuthoritative(Hierarchy(u), u.scheme == "")
    ensures Hierarchy(u) == (if HasAuthority(u) then [SLASH, SLASH] + (UserAndHost(u) + u.path) else u.path)
  {
    PathIsPlain(u);
    UserAndHostIsPlain(u);
    var h := Hierarchy(u);
    if HasAuthority(u) {
      Regroup([SLASH, SLASH], UserAndHost(u), u.path);
      assert h[0] == SLASH && h[1] == SLASH;
      assert u.scheme == "" ==> h[2] == UserAndHost(u)[0] && UserAndHost(u)[0] in UserAndHost(u);
    } else {
      assert h == u.path;
    }
  }

  lemma HierarchiesAgree(u: Url, v: Url)
    requires Parsed(u) && Parsed(v) && u.scheme == v.scheme && u.opaquePart == [] == v.opaquePart
    requires Hierarchy(u) == Hierarchy(v)
    ensures u.user == v.user && u.host == v.host && u.omitHost == v.omitHost && u.path == v.path
  {
    AuthorityShows(u);
    AuthorityShows(v);
    if HasAuthority(u) { SameAuthorities(u, v); }
  }

  lemma SameAuthorities(u: Url, v: Url)
    requires Parsed(u) && Parsed(v) && HasAuthority(u) && HasAuthority(v)
    requires [SLASH, SLASH] + (UserAndHost(u) + u.path) == [SLASH, SLASH] + (UserAndHost(v) + v.path)
    ensures u.user == v.user && u.host == v.host && u.path == v.path
  {
    SameParts([SLASH, SLASH], UserAndHost(u) + u.path, [SLASH, SLASH], UserAndHost(v) + v.path);
    UserAndHostIsPlain(u);
    UserAndHostIsPlain(v);
    PathIsPlain(u);
    PathIsPlain(v);
    CutAtMark(UserAndHost(u), u.path, UserAndHost(v), v.path, SLASH);
    UsersAgree(u, v);
  }

  lemma OpaqueOrNot(u: Url, v: Url)
    requires Parsed(u) && Parsed(v) && u.scheme == v.scheme && u.opaquePart != [] && v.opaquePart == []
    ensures Hierarchy(u) != Hierarchy(v)
  {
    PathIsPlain(v);
    var h := Hierarchy(v);
    assert h != [] ==> h[0] == SLASH;
  }

  lemma NoQuestionInFront(u: Url)
    requires Parsed(u)
    ensures QUESTION !in SchemePart(u) + Hierarchy(u)
  {
    SchemeBytes(u.scheme);
    PathIsPlain(u);
    UserAndHostIsPlain(u);
  }

  /** Different parsed URLs without fragments have different texts. */
  lemma PrintUrlIsInjective(u: Url, v: Url)
    requires Parsed(u) && Parsed(v) && u.fragment == [] == v.fragment && PrintUrl(u) == PrintUrl(v)
    ensures u == v
  {
    NoQuestionInFront(u);
    NoQuestionInFront(v);
    CutAtMark(SchemePart(u) + Hierarchy(u), QueryPart(u), SchemePart(v) + Hierarchy(v), QueryPart(v), QUESTION);
    assert QueryPart(u) != [] ==> QueryPart(u)[1..] == u.query;
    assert QueryPart(v) != [] ==> QueryPart(v)[1..] == v.query;
    SchemesAgree(u, v);
    if u.opaquePart != [] && v.opaquePart == [] { OpaqueOrNot(u, v); }
    if u.opaquePart == [] && v.opaquePart != [] { OpaqueOrNot(v, u); }
    if u.opaquePart == [] && v.opaquePart == [] { HierarchiesAgree(u, v); }
  }

  // ---------- The key of an article ----------

  /** Lower-casing keeps the letters of a scheme letters of a scheme. */
  ghost predicate KeepsSchemes(lower: char -> char) { forall c: char :: SchemeChar(c) ==> SchemeChar(lower(c)) }

  ghost function Key(u: Url, lower: char -> char): Bytes { PrintUrl(Normalized(u, lower)) }

  lemma NormalizedIsParsed(u: Url, lower: char -> char)
    requires Parsed(u) && KeepsSchemes(lower)
    ensures Parsed(Normalized(u, lower))
  {
    var n := Normalized(u, lower);
    forall c | c in n.scheme ensures SchemeChar(c) {
      var i :| 0 <= i < |n.scheme| && n.scheme[i] == c;
      assert u.scheme[i] in u.scheme;
    }
    assert n.host == "" <==> u.host == "";
    if u.forceQuery { EmptyQuery(); }
  }

  lemma EmptyQuery()
    ensures Canonical([]) == []
  {
    assert Clean(Parse([])) == map[];
    var none: Values := map[];
    assert none.Keys == {};
  }

  /** Two URLs share a dedup key exactly when they differ only in case of scheme and host, fragment, order of keys,
      spelling of escapes in the query, malformed settings and tracking. */
  lemma SameKeyIff(u: Url, v: Url, lower: char -> char)
    requires Parsed(u) && Parsed(v) && KeepsSchemes(lower)
    ensures Key(u, lower) == Key(v, lower) <==>
              && ToLower(u.scheme, lower) == ToLower(v.scheme, lower) &&
                ToLower(u.host, lower) == ToLower(v.host, lower)
              && u.opaquePart == v.opaquePart && u.user == v.user && u.omitHost == v.omitHost && u.path == v.path
              && u.forceQuery == v.forceQuery && Clean(Parse(u.query)) == Clean(Parse(v.query))
  {
    NormalizedIsParsed(u, lower);
    NormalizedIsParsed(v, lower);
    SameArticleIff(u, v, lower);
    if Key(u, lower) == Key(v, lower) { PrintUrlIsInjective(Normalized(u, lower), Normalized(v, lower)); }
  }

  /** The key is stable: read back by any parser that inverts printing and normalised again, it is itself. */
  lemma KeyIsStable(parse: Bytes -> Url, u: Url, lower: char -> char)
    requires Parsed(u) && KeepsSchemes(lower) && IsLowerCase(lower)
    requires forall w :: Parsed(w) && w.fragment == [] ==> parse(PrintUrl(w)) == w
    ensures Key(parse(Key(u, lower)), lower) == Key(u, lower)
  {
    NormalizedIsParsed(u, lower);
    NormalizedTwice(u, lower);
  }
}
