/** What the name of a migration file means. */
module MigrationNames {
  import opened Migrations
  import opened Options

  // ---------- Numbers ----------

  function DigitOf(n: nat): char
    requires n < 10
  {
    ('0' as int + n) as char
  }

  /** The decimal numeral of n, without leading zeros. */
  function Numeral(n: nat): string {
    if n < 10 then [DigitOf(n)] else Numeral(n / 10) + [DigitOf(n % 10)]
  }

  function Zeros(n: nat): string { if n == 0 then "" else Zeros(n - 1) + "0" }

  /** s is the numeral of n, perhaps behind zeros. */
  ghost predicate Denotes(s: string, n: nat) { exists zeros: nat :: s == Zeros(zeros) + Numeral(n) }

  lemma DigitsSnoc(s: string, d: nat)
    requires d < 10
    ensures Digits(s + [DigitOf(d)]) == if Digits(s).None? then None else Some(Digits(s).value * 10 + d)
  {
    assert (s + [DigitOf(d)])[..|s|] == s;
  }

  lemma {:induction false} DigitsOfZeros(zeros: nat)
    ensures Digits(Zeros(zeros)) == Some(0)
  {
    if zeros == 0 {
    } else {
      DigitsOfZeros(zeros - 1);
      assert "0" == [DigitOf(0)];
      DigitsSnoc(Zeros(zeros - 1), 0);
    }
  }

  lemma {:induction false} DigitsOfNumeral(zeros: nat, n: nat)
    ensures Digits(Zeros(zeros) + Numeral(n)) == Some(n)
  {
    if n < 10 {
      DigitsOfZeros(zeros);
      DigitsSnoc(Zeros(zeros), n);
    } else {
      DigitsOfNumeral(zeros, n / 10);
      assert Zeros(zeros) + Numeral(n) == Zeros(zeros) + Numeral(n / 10) + [DigitOf(n % 10)];
      DigitsSnoc(Zeros(zeros) + Numeral(n / 10), n % 10);
    }
  }

  lemma {:induction false} DigitsDenote(s: string) returns (zeros: nat)
    requires s != "" && Digits(s).Some?
    ensures s == Zeros(zeros) + Numeral(Digits(s).value)
  {
    var init, last := s[..|s| - 1], s[|s| - 1];
    var d := last as int - '0' as int;
    assert s == init + [DigitOf(d)];
    if init == "" {
      zeros := 0;
    } else {
      var z := DigitsDenote(init);
      var m := Digits(init).value;
      if m == 0 {
        zeros := z + 1;
        assert [DigitOf(0)] == "0" && init == Zeros(z + 1);
      } else {
        zeros := z;
        assert (m * 10 + d) / 10 == m && (m * 10 + d) % 10 == d;
      }
    }
  }

  /** A text of digits is read as the number it denotes. */
  lemma DigitsIff(s: string, n: nat)
    ensures s != "" && Digits(s) == Some(n) <==> Denotes(s, n)
  {
    if s != "" && Digits(s) == Some(n) { var zeros := DigitsDenote(s); }
    if Denotes(s, n) {
      var zeros: nat :| s == Zeros(zeros) + Numeral(n);
      DigitsOfNumeral(zeros, n);
    }
  }

  predicate InRange(v: int) { -0x8000_0000_0000_0000 <= v <= 0x7FFF_FFFF_FFFF_FFFF }

  /** A numeral within 64 bits, perhaps behind a sign. */
  ghost predicate DenotesInt(s: string, v: int) {
    InRange(v) &&
    ((v >= 0 && Denotes(s, v))
     || (s != "" && s[0] == '+' && v >= 0 && Denotes(s[1..], v))
     || (s != "" && s[0] == '-' && v <= 0 && Denotes(s[1..], -v)))
  }

  lemma {:induction false} NumeralStarts(n: nat)
    ensures Numeral(n) != "" && '0' <= Numeral(n)[0] <= '9'
  {
    if n < 10 {
    } else {
      NumeralStarts(n / 10);
    }
  }

  lemma {:induction false} ZerosStart(n: nat)
    ensures Zeros(n) == "" || Zeros(n)[0] == '0'
  {
    if n > 1 { ZerosStart(n - 1); }
  }

  lemma NoSign(s: string, n: nat)
    requires Denotes(s, n)
    ensures s != "" && '0' <= s[0] <= '9'
  {
    var zeros: nat :| s == Zeros(zeros) + Numeral(n);
    NumeralStarts(n);
    ZerosStart(zeros);
  }

  lemma UnsignedIff(s: string, v: int)
    requires s == "" || (s[0] != '+' && s[0] != '-')
    ensures Atoi(s) == Some(v) <==> InRange(v) && v >= 0 && Denotes(s, v)
  {
    if v >= 0 { DigitsIff(s, v); }
  }

  lemma PlusIff(s: string, v: int)
    requires s != "" && s[0] == '+'
    ensures Atoi(s) == Some(v) <==> InRange(v) && v >= 0 && Denotes(s[1..], v)
  {
    if v >= 0 { DigitsIff(s[1..], v); }
  }

  lemma MinusIff(s: string, v: int)
    requires s != "" && s[0] == '-'
    ensures Atoi(s) == Some(v) <==> InRange(v) && v <= 0 && Denotes(s[1..], -v)
  {
    if v <= 0 { DigitsIff(s[1..], -v); }
  }

  lemma AtoiIff(s: string, v: int)
    ensures Atoi(s) == Some(v) <==> DenotesInt(s, v)
  {
    if v >= 0 && Denotes(s, v) { NoSign(s, v); }
    if s != "" && s[0] == '+' {
      PlusIff(s, v);
    } else if s != "" && s[0] == '-' {
      MinusIff(s, v);
    } else {
      UnsignedIff(s, v);
    }
  }

  // ---------- Names ----------

  /** The name begins with a version, and the first underscore follows it. */
  ghost predicate Names(name: string, version: int) {
    exists number: string, rest: string ::
      name == number + "_" + rest && '_' !in number && DenotesInt(number, version)
  }

  lemma {:induction false} UnderscoreIs(name: string, i: nat)
    requires i < |name| && name[i] == '_' && '_' !in name[..i]
    ensures Underscore(name) == i
  {
    if i == 0 {
    } else {
      assert name[..i][0] == name[0] && name[1..][..i - 1] == name[..i][1..];
      UnderscoreIs(name[1..], i - 1);
    }
  }

  lemma {:induction false} UnderscoreFinds(name: string)
    ensures Underscore(name) < |name| <==> '_' in name
    ensures '_' !in name[..Underscore(name)] && (Underscore(name) < |name| ==> name[Underscore(name)] == '_')
  {
    if name == "" || name[0] == '_' {
    } else {
      UnderscoreFinds(name[1..]);
      assert name == [name[0]] + name[1..];
      assert name[..Underscore(name)] == [name[0]] + name[1..][..Underscore(name[1..])];
    }
  }

  lemma CutName(number: string, rest: string)
    requires '_' !in number
    ensures var name := number + "_" + rest;
            Underscore(name) == |number| < |name| && name[..|number|] == number
  {
    var name := number + "_" + rest;
    assert name[..|number|] == number && name[|number|] == '_';
    UnderscoreIs(name, |number|);
  }

  lemma NameCut(name: string)
    requires Underscore(name) < |name|
    ensures name == name[..Underscore(name)] + "_" + name[Underscore(name) + 1..]
    ensures '_' !in name[..Underscore(name)]
  {
    UnderscoreFinds(name);
    AroundMark(name, Underscore(name));
  }

  lemma AroundMark(name: string, i: nat)
    requires i < |name| && name[i] == '_'
    ensures name == name[..i] + "_" + name[i + 1..]
  {}

  lemma NamesIff(name: string, version: int)
    ensures Names(name, version) <==>
              Underscore(name) < |name| && DenotesInt(name[..Underscore(name)], version)
  {
    if Underscore(name) < |name| { NameCut(name); }
    if Names(name, version) {
      var number: string, rest: string :|
        name == number + "_" + rest && '_' !in number && DenotesInt(number, version);
      CutName(number, rest);
    }
  }

  /** A file is read exactly when its name begins with a number and an underscore; the number is the version, the
      content the SQL, and the name loses a ".sql" at its end. */
  lemma ParseIff(f: File, m: Migration)
    ensures Parse(f) == Some(m) <==>
              && Names(f.name, m.version) && m.sql == f.content
              && (f.name == m.name + ".sql" || (f.name == m.name && !IsSql(f.name)))
  {
    var u := Underscore(f.name);
    NamesIff(f.name, m.version);
    if u < |f.name| { AtoiIff(f.name[..u], m.version); }
    SqlSuffix(f.name, m.name);
  }

  lemma SqlSuffix(name: string, stem: string)
    ensures name == stem + ".sql" <==> IsSql(name) && stem == name[..|name| - 4]
  {
    if IsSql(name) { assert name == name[..|name| - 4] + name[|name| - 4..]; }
    if name == stem + ".sql" { assert name[|name| - 4..] == ".sql"; }
  }

  /** The loaded migrations are what the SQL files mean. */
  lemma {:induction false} ParsedAre(files: seq<File>, m: Migration)
    ensures m in Parsed(files) <==> exists f :: f in files && IsSql(f.name) && Parse(f) == Some(m)
  {
    if files == [] {
    } else {
      var init, last := files[..|files| - 1], files[|files| - 1];
      ParsedAre(init, m);
      assert files == init + [last];
    }
  }
}
