/** The place to which a path leads, and that cleaning keeps it. */
module PathWalk {
  import opened Paths

  /** A place, seen from where the path starts: so many levels up, and then down through these names. */
  datatype Place = Place(up: nat, names: seq<string>)

  /** One segment further; there is nothing above a root. */
  function Moved(p: Place, x: string, rooted: bool): Place {
    if x == "" || x == "." then p
    else if x != ".." then p.(names := p.names + [x])
    else if p.names != [] then p.(names := p.names[..|p.names| - 1])
    else if rooted then p
    else p.(up := p.up + 1)
  }

  function Walk(segs: seq<string>, rooted: bool): Place {
    if segs == [] then Place(0, []) else Moved(Walk(segs[..|segs| - 1], rooted), segs[|segs| - 1], rooted)
  }

  function Ups(n: nat): seq<string> { if n == 0 then [] else Ups(n - 1) + [".."] }

  predicate AreNames(names: seq<string>) {
    forall i :: 0 <= i < |names| ==> names[i] != "" && names[i] != "." && names[i] != ".."
  }

  lemma MovedSegments(w: Place, x: string, rooted: bool)
    requires AreNames(w.names) && (rooted ==> w.up == 0)
    ensures var before, t := Ups(w.up) + w.names, Moved(w, x, rooted);
            && AreNames(t.names) && (rooted ==> t.up == 0)
            && Ups(t.up) + t.names ==
               if x == "" || x == "." then before
               else if x != ".." then before + [x]
               else if before != [] && before[|before| - 1] != ".." then before[..|before| - 1]
               else if rooted then before
               else before + [x]
  {
    UpsAreUps(w.up);
    var before := Ups(w.up) + w.names;
    if w.names == [] {
      assert before == Ups(w.up);
    } else {
      assert before[|before| - 1] == w.names[|w.names| - 1];
      assert before[..|before| - 1] == Ups(w.up) + w.names[..|w.names| - 1];
    }
  }

  lemma {:induction false} UpsAreUps(n: nat)
    ensures |Ups(n)| == n && forall i :: 0 <= i < n ==> Ups(n)[i] == ".."
  {
    if n == 0 {
    } else {
      UpsAreUps(n - 1);
    }
  }

  /** Cleaning spells the place to which the path leads: as many parent steps as it is above the start, then the
      names below. */
  lemma {:induction false} CleanIsWalk(segs: seq<string>, rooted: bool)
    ensures var w := Walk(segs, rooted);
            AreNames(w.names) && (rooted ==> w.up == 0) && CleanSegments(segs, rooted) == Ups(w.up) + w.names
  {
    if segs == [] {
    } else {
      CleanIsWalk(segs[..|segs| - 1], rooted);
      MovedSegments(Walk(segs[..|segs| - 1], rooted), segs[|segs| - 1], rooted);
    }
  }
}
