/** Slash-separated paths: strings.Split and strings.Trim, path.Clean and path.Join of
    the Go library, and where the kernel's walk along a path leads. */
module Paths {

  /** strings.Split(s, "/"). */
  function Split(s: string): seq<string> {
    SplitFrom(s, 0)
  }

  /** The pieces of s when the first i characters are known to hold no slash. */
  function SplitFrom(s: string, i: nat): seq<string>
    requires i <= |s|
    decreases |s| - i, |s|
  {
    if i == |s| then [s]
    else if s[i] == '/' then [s[..i]] + SplitFrom(s[i + 1..], 0)
    else SplitFrom(s, i + 1)
  }

  function Join(parts: seq<string>): string
    requires parts != []
  {
    if |parts| == 1 then parts[0] else parts[0] + "/" + Join(parts[1..])
  }

  /** strings.Trim(s, "/"). */
  function Trim(s: string): string {
    TrimRight(TrimLeft(s))
  }

  function TrimLeft(s: string): string {
    if s != "" && s[0] == '/' then TrimLeft(s[1..]) else s
  }

  function TrimRight(s: string): string {
    if s != "" && s[|s| - 1] == '/' then TrimRight(s[..|s| - 1]) else s
  }

  predicate NoSlash(parts: seq<string>) {
    forall k | 0 <= k < |parts| :: '/' !in parts[k]
  }

  /** A piece that the walk along a path skips. */
  predicate IsIdle(part: string) {
    part == "" || part == "."
  }

  predicate AllReal(parts: seq<string>) {
    forall k | 0 <= k < |parts| :: !IsIdle(parts[k])
  }

  function Real(parts: seq<string>): (r: seq<string>)
    ensures AllReal(r) && forall p | p in r :: p in parts
  {
    if parts == [] then []
    else if IsIdle(parts[0]) then Real(parts[1..])
    else [parts[0]] + Real(parts[1..])
  }

  /** The pieces of a path that count. */
  function Parts(u: string): seq<string> {
    Real(Split(u))
  }

  function Lead(u: string): string {
    if u != "" && u[0] == '/' then "/" else ""
  }

  /** A ".." on the way. */
  predicate Climbs(u: string) {
    ".." in Split(u)
  }

  /** path.Clean for a path with a real piece that does not climb. */
  function Clean(u: string): string {
    Lead(u) + if Parts(u) == [] then "" else Join(Parts(u))
  }

  /** path.Join of a path and one more name, under the same conditions. */
  function PathJoin(u: string, name: string): string {
    Clean(u + "/" + name)
  }

  // ---------- Splitting and joining ----------

  lemma {:induction false} JoinUndoesSplit(s: string, i: nat)
    requires i <= |s| && '/' !in s[..i]
    ensures SplitFrom(s, i) != [] && Join(SplitFrom(s, i)) == s && NoSlash(SplitFrom(s, i))
    decreases |s| - i, |s|
  {
    if i == |s| {
      assert s[..i] == s;
    } else if s[i] == '/' {
      var rest := s[i + 1..];
      JoinUndoesSplit(rest, 0);
      assert SplitFrom(s, i)[1..] == SplitFrom(rest, 0);
      assert s == s[..i] + "/" + rest;
    } else {
      assert s[..i + 1] == s[..i] + [s[i]];
      JoinUndoesSplit(s, i + 1);
    }
  }

  lemma {:induction false} SplitOfConcat(a: string, b: string, i: nat)
    requires i <= |a|
    ensures SplitFrom(a + "/" + b, i) == SplitFrom(a, i) + Split(b)
    decreases |a| - i, |a|
  {
    var s := a + "/" + b;
    if i == |a| {
      assert s[..i] == a && s[i + 1..] == b;
    } else if a[i] == '/' {
      SplitOfConcat(a[i + 1..], b, 0);
      assert s[..i] == a[..i] && s[i + 1..] == a[i + 1..] + "/" + b;
    } else {
      SplitOfConcat(a, b, i + 1);
    }
  }

  lemma {:induction false} SplitWhole(s: string, i: nat)
    requires i <= |s| && '/' !in s
    ensures SplitFrom(s, i) == [s]
    decreases |s| - i
  {
    if i == |s| {
    } else {
      assert s[i] in s;
      SplitWhole(s, i + 1);
    }
  }

  lemma {:induction false} SplitUndoesJoin(parts: seq<string>)
    requires parts != [] && NoSlash(parts)
    ensures Split(Join(parts)) == parts
  {
    SplitWhole(parts[0], 0);
    if |parts| == 1 {
    } else {
      SplitUndoesJoin(parts[1..]);
      SplitOfConcat(parts[0], Join(parts[1..]), 0);
    }
  }

  lemma {:induction false} JoinOfConcat(a: seq<string>, b: seq<string>)
    requires a != [] && b != []
    ensures Join(a + b) == Join(a) + "/" + Join(b)
  {
    if |a| == 1 {
      assert (a + b)[1..] == b;
    } else {
      JoinOfConcat(a[1..], b);
      assert (a + b)[1..] == a[1..] + b;
    }
  }

  lemma {:induction false} RealOfConcat(a: seq<string>, b: seq<string>)
    ensures Real(a + b) == Real(a) + Real(b)
  {
    if a == [] {
      assert a + b == b && Real(a) == [];
    } else {
      var first, rest := a[0], Real(a[1..]);
      RealOfConcat(a[1..], b);
      assert (a + b)[0] == first && (a + b)[1..] == a[1..] + b;
      if !IsIdle(first) {
        assert [first] + (rest + Real(b)) == [first] + rest + Real(b);
      }
    }
  }

  lemma {:induction false} RealOfReal(parts: seq<string>)
    requires AllReal(parts)
    ensures Real(parts) == parts
  {
    if parts == [] {
    } else {
      RealOfReal(parts[1..]);
    }
  }

  // ---------- Clean paths ----------

  lemma PartsAreSlashFree(u: string)
    ensures NoSlash(Split(u)) && NoSlash(Parts(u))
  {
    JoinUndoesSplit(u, 0);
    forall k | 0 <= k < |Parts(u)|
      ensures '/' !in Parts(u)[k]
    {
      assert Parts(u)[k] in Split(u);
    }
  }

  /** A path continued: the pieces follow each other. */
  lemma CleanOfConcat(a: string, b: string)
    ensures Parts(a + "/" + b) == Parts(a) + Parts(b)
    ensures Split(a + "/" + b) == Split(a) + Split(b)
    ensures a != "" && Parts(a) != [] && Parts(b) != [] ==> Clean(a + "/" + b) == Clean(a) + "/" + Join(Parts(b))
  {
    SplitOfConcat(a, b, 0);
    RealOfConcat(Split(a), Split(b));
    if a != "" && Parts(a) != [] && Parts(b) != [] {
      JoinOfConcat(Parts(a), Parts(b));
      assert (a + "/" + b)[0] == a[0];
    }
  }

  /** A joined path is clean, and cleaning it keeps its pieces. */
  lemma JoinedIsClean(lead: string, parts: seq<string>)
    requires (lead == "" || lead == "/") && parts != [] && NoSlash(parts) && AllReal(parts)
    ensures var u := lead + Join(parts);
      && u != "" && Clean(u) == u && Parts(u) == parts && Lead(u) == lead
      && Split(u) == (if lead == "" then [] else [""]) + parts
  {
    var j := Join(parts);
    SplitUndoesJoin(parts);
    RealOfReal(parts);
    FirstAndLast(parts);
    if lead == "/" {
      LedByRoot(j);
    } else {
      assert lead + j == j;
      assert [] + parts == parts;
    }
  }

  lemma LedByRoot(j: string)
    ensures Split("/" + j) == [""] + Split(j) && Parts("/" + j) == Parts(j)
  {
    SplitOfConcat("", j, 0);
    assert "" + "/" + j == "/" + j;
    var parts := [""] + Split(j);
    assert parts[0] == "" && parts[1..] == Split(j);
  }

  lemma {:induction false} FirstAndLast(parts: seq<string>)
    requires parts != [] && NoSlash(parts) && AllReal(parts)
    ensures var j := Join(parts); j != "" && j[0] != '/' && j[|j| - 1] != '/'
  {
    assert parts[0][0] in parts[0];
    if |parts| == 1 {
      assert parts[0][|parts[0]| - 1] in parts[0];
    } else {
      FirstAndLast(parts[1..]);
    }
  }

  lemma CleanIsClean(u: string)
    requires Parts(u) != []
    ensures Clean(Clean(u)) == Clean(u) && Parts(Clean(u)) == Parts(u) && Lead(Clean(u)) == Lead(u) && Clean(u) != ""
    ensures !Climbs(u) ==> !Climbs(Clean(u))
  {
    PartsAreSlashFree(u);
    JoinedIsClean(Lead(u), Parts(u));
  }

  /** path.Join puts a slash between a clean path and a real name. */
  lemma JoinOfName(u: string, name: string)
    requires u != "" && Parts(u) != [] && '/' !in name && !IsIdle(name)
    ensures PathJoin(u, name) == Clean(u) + "/" + name
  {
    SplitWhole(name, 0);
    RealOfReal([name]);
    CleanOfConcat(u, name);
  }

  // ---------- The kernel's walk ----------

  /** One piece further, from the place reached by walking down `place`. */
  function Move(place: seq<string>, part: string): seq<string> {
    if IsIdle(part) then place
    else if part != ".." then place + [part]
    else if place == [] then []
    else place[..|place| - 1]
  }

  /** Where the walk along these pieces leads when nothing on the way is a symbolic
      link: the names to go down from where it starts. */
  function Walk(place: seq<string>, parts: seq<string>): seq<string>
    decreases |parts|
  {
    if parts == [] then place else Walk(Move(place, parts[0]), parts[1..])
  }

  lemma {:induction false} WalkOfConcat(place: seq<string>, a: seq<string>, b: seq<string>)
    ensures Walk(place, a + b) == Walk(Walk(place, a), b)
    decreases |a|
  {
    if a == [] {
      assert a + b == b;
    } else {
      assert (a + b)[1..] == a[1..] + b;
      WalkOfConcat(Move(place, a[0]), a[1..], b);
    }
  }

  /** Without a climb it leads down the real pieces, to where the clean path says. */
  lemma {:induction false} WalkGoesDown(place: seq<string>, parts: seq<string>)
    requires ".." !in parts
    ensures Walk(place, parts) == place + Real(parts)
    decreases |parts|
  {
    if parts == [] {
    } else {
      var first, more := parts[0], Real(parts[1..]);
      WalkGoesDown(Move(place, first), parts[1..]);
      if IsIdle(first) {
        assert Real(parts) == more;
      } else {
        assert Real(parts) == [first] + more;
        assert place + [first] + more == place + ([first] + more);
      }
    }
  }
}
