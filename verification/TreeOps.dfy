/** RemoveAll and MkdirAll over an abstract filesystem in which any call may fail. */
module TreeOps {
  import opened Paths
  import UnixPath

  datatype Node = Dir | File(content: seq<int>) | Symlink(target: string)

  /** The filesystem by clean path; nothing else changes it meanwhile. */
  type Tree = map<string, Node>

  datatype Err = Nil | Refused | Errno(errno: int)

  const ENOENT := 2
  const EEXIST := 17
  const ENOTDIR := 20
  const EISDIR := 21
  const EINVAL := 22
  const ENOTEMPTY := 39

  /** q is p or lies below it. */
  predicate AtOrBelow(p: string, q: string) {
    q == p || p + "/" <= q
  }

  /** An ancestor of q: what precedes one of its slashes. */
  predicate IsAncestor(p: string, q: string) {
    0 < |p| < |q| && q[|p|] == '/' && q[..|p|] == p
  }

  function Subtree(t: Tree, p: string): set<string> {
    set q | q in t && AtOrBelow(p, q)
  }

  /** Every ancestor of a node is a directory. */
  ghost predicate WellFormed(t: Tree) {
    forall p, q | q in t && IsAncestor(p, q) :: p in t && t[p] == Dir
  }

  /** A name that a directory can contain besides "." and "..": any without a slash. */
  predicate IsEntry(n: string) {
    n != "" && n != "." && n != ".." && '/' !in n
  }

  /** One that ToUnixPath leaves alone. */
  predicate IsName(n: string) {
    IsEntry(n) && '\\' !in n
  }

  predicate IsTrivial(p: string) {
    p == "" || p == "/" || p == "."
  }

  /** Every component below the top level is a possible entry. */
  ghost predicate ProperNames(t: Tree) {
    forall q, k | q in t && 0 < k < |q| && q[k] == '/' :: IsEntry(Component(q, k + 1))
  }

  /** The component of q that starts at index k. */
  function Component(q: string, k: nat): string
    requires k <= |q|
    decreases |q| - k
  {
    if k == |q| || q[k] == '/' then "" else [q[k]] + Component(q, k + 1)
  }

  /** A clean path that does not climb, or one of the three that RemoveAll and MkdirAll
      treat by themselves. */
  predicate IsClean(u: string) {
    IsTrivial(u) || (Clean(u) == u && Parts(u) != [] && !Climbs(u))
  }

  predicate IsDirAt(t: Tree, u: string) {
    u in t && t[u] == Dir
  }

  /** The last piece of a path, which may be empty or a dot. */
  function LastPiece(u: string): string {
    JoinUndoesSplit(u, 0);
    Split(u)[|Split(u)| - 1]
  }

  /** Every node above p that exists is a directory. */
  ghost predicate ClearAbove(t: Tree, p: string) {
    forall a | IsAncestor(a, p) && a in t :: t[a] == Dir
  }

  /** The kernel's walk along u leads to Clean(u): u does not climb and no symbolic link
      has to be followed. A link at the end would be followed for a trailing slash or
      dot only. */
  ghost predicate Direct(t: Tree, u: string) {
    && !Climbs(u) && Parts(u) != []
    && (forall a | IsAncestor(a, Clean(u)) && a in t :: !t[a].Symlink?)
    && (Clean(u) in t && t[Clean(u)].Symlink? ==> !IsIdle(LastPiece(u)))
  }

  datatype Op = LstatOp | StatOp | UnlinkOp | RmdirOp | ReadDirOp | MkdirOp

  /** A system call: its path, where that leads, and its answer. */
  datatype Call = Call(op: Op, path: string, place: string, errno: int)

  class FileSystem {
    var nodes: Tree
    /** The error number, if not 0, that the environment forces on call number k. */
    const faults: nat -> int
    /** Whether directory listings leave nothing out. */
    const fullListings: bool
    var tick: nat
    /** Every call so far. */
    ghost var calls: seq<Call>

    constructor (nodes: Tree, faults: nat -> int, fullListings: bool)
      ensures this.nodes == nodes && this.faults == faults && this.fullListings == fullListings && tick == 0
      ensures calls == []
    {
      this.nodes, this.faults, this.fullListings, tick, calls := nodes, faults, fullListings, 0, [];
    }

    /** From now on no call is made to fail. */
    ghost predicate Quiet()
      reads this
    {
      forall k | k >= tick :: faults(k) == 0
    }

    /** lstat. It answers ENOENT only when there is nothing, and ENOTDIR when something
        on the way, or before a trailing slash, is no directory. */
    method Lstat(u: string) returns (e: int, isDir: bool)
      requires Direct(nodes, u)
      modifies this`tick, this`calls
      ensures calls == old(calls) + [Call(LstatOp, u, Clean(u), e)]
      ensures tick == old(tick) + 1
      ensures e == 0 ==> Clean(u) in nodes && (isDir <==> nodes[Clean(u)] == Dir)
      ensures e == ENOENT ==> Clean(u) !in nodes
      ensures faults(old(tick)) == 0 && IsDirAt(nodes, Clean(u)) ==> e == 0
      ensures faults(old(tick)) == 0 && !IsIdle(LastPiece(u)) && ClearAbove(nodes, Clean(u)) ==>
        e == if Clean(u) in nodes then 0 else ENOENT
    {
      var p, fault := Clean(u), faults(tick);
      tick := tick + 1;
      isDir := false;
      if fault != 0 && fault != ENOENT {
        e := fault;
      } else if p in nodes {
        isDir := nodes[p] == Dir;
        e := if !isDir && IsIdle(LastPiece(u)) then ENOTDIR else 0;
      } else {
        e := WayTo(nodes, p);
      }
      calls := calls + [Call(LstatOp, u, Clean(u), e)];
    }

    /** stat on a tree without symbolic links. */
    method Stat(p: string) returns (e: int, isDir: bool)
      modifies this`tick, this`calls
      ensures calls == old(calls) + [Call(StatOp, p, p, e)]
      ensures tick == old(tick) + 1
      ensures e == 0 <==> faults(old(tick)) == 0 && p in nodes
      ensures e == 0 ==> (isDir <==> nodes[p] == Dir)
    {
      e, isDir := faults(tick), false;
      tick := tick + 1;
      if e == 0 {
        if p in nodes {
          isDir := nodes[p] == Dir;
        } else {
          e := WayTo(nodes, p);
        }
      }
      calls := calls + [Call(StatOp, p, p, e)];
    }

    method Unlink(u: string) returns (e: int)
      requires Direct(nodes, u)
      modifies this`nodes, this`tick, this`calls
      ensures calls == old(calls) + [Call(UnlinkOp, u, Clean(u), e)]
      ensures tick == old(tick) + 1
      ensures e == 0 ==>
        Clean(u) in old(nodes) && old(nodes)[Clean(u)] != Dir && nodes == old(nodes) - {Clean(u)}
      ensures e != 0 ==> nodes == old(nodes)
      ensures faults(old(tick)) == 0 && !IsIdle(LastPiece(u)) &&
              Clean(u) in old(nodes) && old(nodes)[Clean(u)] != Dir ==>
        e == 0
    {
      var p := Clean(u);
      e := faults(tick);
      tick := tick + 1;
      if e == 0 {
        if p !in nodes {
          e := WayTo(nodes, p);
        } else if nodes[p] == Dir {
          e := EISDIR;
        } else if IsIdle(LastPiece(u)) {
          e := ENOTDIR;
        } else {
          nodes := nodes - {p};
        }
      }
      calls := calls + [Call(UnlinkOp, u, Clean(u), e)];
    }

    /** rmdir removes a directory only when nothing is left below it, and not by a path
        that ends in a dot. */
    method Rmdir(u: string) returns (e: int)
      requires Direct(nodes, u)
      modifies this`nodes, this`tick, this`calls
      ensures calls == old(calls) + [Call(RmdirOp, u, Clean(u), e)]
      ensures tick == old(tick) + 1
      ensures e == 0 ==>
        && Clean(u) in old(nodes) && Subtree(old(nodes), Clean(u)) == {Clean(u)}
        && nodes == old(nodes) - {Clean(u)}
      ensures e != 0 ==> nodes == old(nodes)
      ensures faults(old(tick)) == 0 && LastPiece(u) != "." && Clean(u) in old(nodes) &&
              old(nodes)[Clean(u)] == Dir && Subtree(old(nodes), Clean(u)) == {Clean(u)} ==>
        e == 0
    {
      var p := Clean(u);
      e := faults(tick);
      tick := tick + 1;
      if e == 0 {
        if p !in nodes {
          e := WayTo(nodes, p);
        } else if nodes[p] != Dir {
          e := ENOTDIR;
        } else if LastPiece(u) == "." {
          e := EINVAL;
        } else if Subtree(nodes, p) != {p} {
          e := ENOTEMPTY;
        } else {
          nodes := nodes - {p};
        }
      }
      calls := calls + [Call(RmdirOp, u, Clean(u), e)];
    }

    /** A listing may fail; unless listings are full it may leave out any entries and
        repeat others. */
    method ReadDir(u: string) returns (e: int, names: seq<string>)
      requires Direct(nodes, u)
      modifies this`tick, this`calls
      ensures calls == old(calls) + [Call(ReadDirOp, u, Clean(u), e)]
      ensures tick == old(tick) + 1 && e == faults(old(tick))
      ensures ListedIn(nodes, Clean(u), names)
      ensures fullListings ==> forall n | IsEntry(n) && Clean(u) + "/" + n in nodes :: n in names
    {
      e := faults(tick);
      tick := tick + 1;
      names := *;
      if fullListings || !ListedIn(nodes, Clean(u), names) {
        names := ListNames(nodes, Clean(u));
      }
      calls := calls + [Call(ReadDirOp, u, Clean(u), e)];
    }

    /** mkdir needs every ancestor to be a directory and p to be free, and says
        EEXIST exactly when something is at p already. */
    method Mkdir(p: string) returns (e: int)
      requires WellFormed(nodes)
      modifies this`nodes, this`tick, this`calls
      ensures calls == old(calls) + [Call(MkdirOp, p, p, e)]
      ensures WellFormed(nodes) && tick == old(tick) + 1
      ensures e == 0 ==> p !in old(nodes) && nodes == old(nodes)[p := Dir]
      ensures e != 0 ==> nodes == old(nodes)
      ensures e == MkdirErrno(old(nodes), p, faults(old(tick)))
    {
      e := MkdirErrno(nodes, p, faults(tick));
      tick := tick + 1;
      if e == 0 {
        AddedDirectory(nodes, p);
        nodes := nodes[p := Dir];
      }
      calls := calls + [Call(MkdirOp, p, p, e)];
    }
  }

  /** A forced EEXIST counts as none, since mkdir says that about existing nodes only; nor
      does mkdir(2) ever answer EISDIR. */
  predicate IsNoFaultOfMkdir(fault: int) {
    fault == 0 || fault == EEXIST || fault == EISDIR
  }

  /** Every node above p is there and a directory. */
  predicate HasWay(t: Tree, p: string) {
    forall k | 0 < k < |p| && p[k] == '/' :: p[..k] in t && t[p[..k]] == Dir
  }

  lemma HasWayIff(t: Tree, p: string)
    ensures HasWay(t, p) <==> forall a | IsAncestor(a, p) :: a in t && t[a] == Dir
  {
    forall k | 0 < k < |p| && p[k] == '/'
      ensures IsAncestor(p[..k], p)
    {
    }
  }

  /** What mkdir answers: EEXIST exactly when something is at p already. */
  function MkdirErrno(t: Tree, p: string, fault: int): int {
    if !IsNoFaultOfMkdir(fault) then fault
    else if p in t then EEXIST
    else if HasWay(t, p) then 0
    else WayTo(t, p)
  }

  /** The error for a path at which there is nothing. */
  function WayTo(t: Tree, p: string): (e: int)
    ensures e == ENOENT || e == ENOTDIR
    ensures ClearAbove(t, p) ==> e == ENOENT
  {
    if exists k | 0 < k < |p| && p[k] == '/' :: p[..k] in t && t[p[..k]] != Dir then
      assert exists k :: 0 < k < |p| && IsAncestor(p[..k], p) && p[..k] in t && t[p[..k]] != Dir;
      ENOTDIR
    else ENOENT
  }

  /** What a listing of directory p holds. */
  predicate ListedIn(t: Tree, p: string, names: seq<string>) {
    forall i | 0 <= i < |names| ::
      names[i] == "." || names[i] == ".." || (IsEntry(names[i]) && p + "/" + names[i] in t)
  }

  /** The names of the entries of a directory. */
  method ListNames(t: Tree, p: string) returns (names: seq<string>)
    ensures ListedIn(t, p, names)
    ensures forall n | IsEntry(n) && p + "/" + n in t :: n in names
  {
    names := [];
    var todo := t.Keys;
    while todo != {}
      invariant todo <= t.Keys
      invariant ListedIn(t, p, names)
      invariant forall n | IsEntry(n) && p + "/" + n in t.Keys - todo :: n in names
      decreases |todo|
    {
      var q :| q in todo;
      ghost var before := names;
      if |q| > |p| + 1 && q[..|p| + 1] == p + "/" && IsEntry(q[|p| + 1..]) {
        assert q == p + "/" + q[|p| + 1..];
        names := names + [q[|p| + 1..]];
      }
      forall n | IsEntry(n) && p + "/" + n in t.Keys - (todo - {q})
        ensures n in names
      {
        if p + "/" + n == q {
          assert q[|p| + 1..] == n;
        } else {
          assert n in before;
        }
      }
      todo := todo - {q};
    }
  }

  lemma AddedDirectory(t: Tree, p: string)
    requires WellFormed(t) && p !in t
    requires HasWay(t, p)
    ensures WellFormed(t[p := Dir])
  {
    forall a, q | q in t[p := Dir] && IsAncestor(a, q)
      ensures a in t[p := Dir] && t[p := Dir][a] == Dir
    {
      if q == p {
        assert p[..|a|] == a;
      }
    }
  }

  // ---------- Where the children of a directory are ----------

  /** Where RemoveAll goes for an entry, below the directory: ToUnixPath makes slashes of
      its backslashes. */
  function Descent(name: string): string
    requires Parts(UnixPath.Slashed(name)) != []
  {
    Join(Parts(UnixPath.Slashed(name)))
  }

  /** For this name of an entry of p, the removal goes somewhere below p without
      following a symbolic link. */
  ghost predicate TameName(t: Tree, p: string, name: string) {
    var s := UnixPath.Slashed(name);
    ".." !in Split(s) && Parts(s) != [] && Direct(t, p + "/" + s)
  }

  /** All names with a backslash in the directories at or below k are tame. */
  ghost predicate Tame(t: Tree, k: string) {
    forall p, n | AtOrBelow(k, p) && IsEntry(n) && '\\' in n && p + "/" + n in t :: TameName(t, p, n)
  }

  /** What RemoveAll is proved for: the walk along u is direct, and so is every one that
      the names below give rise to. */
  ghost predicate Removable(t: Tree, u: string) {
    Direct(t, u) && UnixPath.IsNormal(Clean(u)) && Tame(t, Clean(u))
  }

  lemma {:induction false} LastOfSplit(a: string, b: string)
    ensures LastPiece(a + "/" + b) == LastPiece(b)
  {
    SplitOfConcat(a, b, 0);
    JoinUndoesSplit(b, 0);
    JoinUndoesSplit(a + "/" + b, 0);
  }

  lemma OrdinaryName(n: string)
    requires IsName(n)
    ensures UnixPath.Slashed(n) == n && Parts(n) == [n] && Split(n) == [n] && LastPiece(n) == n
    ensures Descent(n) == n
  {
    assert UnixPath.Slashed(n) == n;
    SplitWhole(n, 0);
    RealOfReal([n]);
  }

  /** The recursive call for an entry: what it is given, where that leads. */
  lemma ChildPath(u: string, name: string)
    requires u != "" && !Climbs(u) && Parts(u) != [] && UnixPath.IsNormal(Clean(u))
    requires IsEntry(name)
    ensures var child := UnixPath.ToUnixPath(PathJoin(u, name));
      var s := UnixPath.Slashed(name);
      && child == Clean(u) + "/" + s
      && Split(child) == Split(Clean(u)) + Split(s) && LastPiece(child) == LastPiece(s)
      && Parts(child) == Parts(u) + Parts(s)
      && !Climbs(Clean(u))
      && (Parts(s) != [] ==>
            && Clean(child) == Clean(u) + "/" + Descent(name)
            && UnixPath.IsNormal(Clean(child)) && !IsTrivial(child))
  {
    var k, s := Clean(u), UnixPath.Slashed(name);
    JoinOfName(u, name);
    CleanIsClean(u);
    UnixPath.JoinedChild(k, name);
    CleanOfConcat(k, s);
    LastOfSplit(k, s);
    if Parts(s) != [] {
      NormalBelow(k, s);
    }
  }

  lemma NormalBelow(k: string, s: string)
    requires UnixPath.IsNormal(k) && k != "" && '\\' !in s && Parts(s) != []
    ensures UnixPath.IsNormal(k + "/" + Join(Parts(s)))
  {
    var r := Join(Parts(s));
    NoBackslash(s);
    UnixPath.JoinedChild(k, r);
    assert UnixPath.Slashed(r) == r;
  }

  lemma NoBackslash(s: string)
    requires '\\' !in s && Parts(s) != []
    ensures '\\' !in Join(Parts(s))
  {
    JoinUndoesSplit(s, 0);
    CharsOfJoin(Split(s));
    forall p | p in Parts(s)
      ensures '\\' !in p
    {
      assert p in Split(s);
    }
    JoinOfChars(Parts(s));
  }

  lemma {:induction false} CharsOfJoin(parts: seq<string>)
    requires parts != [] && '\\' !in Join(parts)
    ensures forall p | p in parts :: '\\' !in p
  {
    if |parts| == 1 {
    } else {
      assert forall i | 0 <= i < |parts[0]| :: parts[0][i] == Join(parts)[i];
      assert forall i | 0 <= i < |Join(parts[1..])| :: Join(parts[1..])[i] == Join(parts)[|parts[0]| + 1 + i];
      CharsOfJoin(parts[1..]);
    }
  }

  lemma {:induction false} JoinOfChars(parts: seq<string>)
    requires parts != [] && forall p | p in parts :: '\\' !in p
    ensures '\\' !in Join(parts)
  {
    if |parts| == 1 {
    } else {
      JoinOfChars(parts[1..]);
    }
  }

  /** Two names that break RemoveAll, in every directory. The entry "..\x" sends it to
      the directory's own sibling x, outside the subtree ... */
  lemma SiblingIsVisited(u: string, x: string)
    requires u != "" && !Climbs(u) && Parts(u) != [] && UnixPath.IsNormal(Clean(u)) && IsName(x)
    ensures IsEntry("..\\" + x)
    ensures var here := Walk([], Split(u));
      && here != []
      && Walk([], Split(UnixPath.ToUnixPath(PathJoin(u, "..\\" + x)))) == here[..|here| - 1] + [x]
  {
    SiblingName(x);
    ChildPath(u, "..\\" + x);
    CleanIsClean(u);
    WalkGoesDown([], Split(u));
    assert [] + Parts(u) == Parts(u);
    WalkToSibling(Clean(u), x);
  }

  lemma SiblingName(x: string)
    requires IsName(x)
    ensures IsEntry("..\\" + x) && UnixPath.Slashed("..\\" + x) == "../" + x && Split("../" + x) == ["..", x]
  {
    var name := "..\\" + x;
    assert name[2] == '\\' && forall i | 0 <= i < |x| :: name[3 + i] == x[i];
    assert name[..2] == "..";
    SplitOfConcat("..", x, 0);
    SplitWhole("..", 0);
    SplitWhole(x, 0);
    assert ".." + "/" + x == "../" + x;
    assert [".."] + [x] == ["..", x];
  }

  lemma WalkToSibling(k: string, x: string)
    requires !Climbs(k) && Parts(k) != [] && !IsIdle(x) && x != ".."
    ensures Walk([], Split(k) + ["..", x]) == Parts(k)[..|Parts(k)| - 1] + [x]
  {
    var here := Parts(k);
    WalkOfConcat([], Split(k), ["..", x]);
    WalkGoesDown([], Split(k));
    assert [] + here == here;
    var up := here[..|here| - 1];
    assert Move(here, "..") == up;
    assert ["..", x][1..] == [x] && [x][1..] == [];
    assert Walk(up, [x]) == Walk(up + [x], []);
  }

  /** ... and one whose pieces are all empty or dots, such as ".\." or "\" itself, sends
      it into the same directory again, without end. Of the names that do not climb
      these are the only ones that do not lead below the directory. */
  lemma SameDirectoryAgain(u: string, name: string)
    requires u != "" && !Climbs(u) && Parts(u) != [] && UnixPath.IsNormal(Clean(u)) && IsEntry(name)
    requires ".." !in Split(UnixPath.Slashed(name))
    ensures var child := UnixPath.ToUnixPath(PathJoin(u, name));
      && (Parts(UnixPath.Slashed(name)) == [] <==> Clean(child) == Clean(u))
      && (Parts(UnixPath.Slashed(name)) != [] ==> AtOrBelow(Clean(u), Clean(child)) && Clean(child) != Clean(u))
  {
    ChildPath(u, name);
    CleanIsClean(u);
    var k, s := Clean(u), UnixPath.Slashed(name);
    if Parts(s) == [] {
      assert Parts(u) + Parts(s) == Parts(u);
      assert (k + "/" + s)[0] == k[0];
    } else {
      assert k + "/" <= k + "/" + Descent(name);
    }
  }

  lemma NamesWithoutAPiece()
    ensures IsEntry(".\\.") && Parts(UnixPath.Slashed(".\\.")) == []
    ensures IsEntry("\\") && Parts(UnixPath.Slashed("\\")) == []
  {
    assert UnixPath.Slashed(".\\.") == "." + "/" + ".";
    CleanOfConcat(".", ".");
    SplitWhole(".", 0);
    assert UnixPath.Slashed("\\") == "" + "/" + "";
    CleanOfConcat("", "");
  }

  // ---------- RemoveAll ----------

  lemma ChildIsBelow(p: string, name: string, q: string)
    requires AtOrBelow(p + "/" + name, q)
    ensures AtOrBelow(p, q) && q != p
  {
    assert p + "/" <= p + "/" + name;
    assert p + "/" + name <= q;
    assert |q| > |p|;
  }

  lemma SmallerSubtree(t: Tree, t0: Tree, p: string, name: string)
    requires p in t0 && forall q | q in t :: q in t0
    ensures |Subtree(t, p + "/" + name)| < |Subtree(t0, p)|
  {
    var a, b := Subtree(t, p + "/" + name), Subtree(t0, p);
    forall q | q in a
      ensures q in b - {p}
    {
      ChildIsBelow(p, name, q);
    }
    assert a <= b - {p};
    Cardinality(a, b - {p});
  }

  lemma {:induction false} Cardinality(a: set<string>, b: set<string>)
    requires a <= b
    ensures |a| <= |b|
  {
    if a == {} {
    } else {
      var x :| x in a;
      Cardinality(a - {x}, b - {x});
    }
  }

  /** From t0 to t nodes have only been removed, all of them at or below p, and none
      with a backslash in its path. */
  ghost predicate OnlyRemovedAt(t0: Tree, t: Tree, p: string) {
    && (forall q | q in t :: q in t0 && t[q] == t0[q])
    && (forall q | q in t0 && (!AtOrBelow(p, q) || '\\' in q) :: q in t)
  }

  /** Nodes at or below p have no backslash in their paths. */
  ghost predicate NoBackslashBelow(t: Tree, p: string) {
    forall q | q in Subtree(t, p) :: '\\' !in q
  }

  /** Nothing about the tree, its listings or the path u stands in the way of removal. */
  ghost predicate Benign(t: Tree, fs: FileSystem, u: string) {
    fs.fullListings && ProperNames(t) && !IsIdle(LastPiece(u)) && ClearAbove(t, Clean(u))
  }

  /** An error that RemoveAll may not pass over: any but ENOENT, and but those of
      listings. */
  predicate IsTrouble(c: Call) {
    c.errno != 0 && c.errno != ENOENT && c.op != ReadDirOp
  }

  /** The calls since number `from` all went to p or below; the first that meets trouble is
      the last one, and its error is the result; and a result that is an error is that of
      the last call, which is no listing. */
  ghost predicate Answered(log: seq<Call>, from: nat, err: Err, p: string) {
    && from <= |log| && err != Refused
    && (forall i | from <= i < |log| :: AtOrBelow(p, log[i].place))
    && (forall i | from <= i < |log| && IsTrouble(log[i]) :: i == |log| - 1 && err == Errno(log[i].errno))
    && (err.Errno? ==>
          |log| > from && err.errno != 0 && log[|log| - 1].errno == err.errno && log[|log| - 1].op != ReadDirOp)
  }

  lemma AnsweredBelow(log0: seq<Call>, log: seq<Call>, from: nat, err: Err, p: string, down: string)
    requires log0 <= log && Answered(log0, from, Nil, p) && Answered(log, |log0|, err, p + "/" + down)
    ensures Answered(log, from, err, p)
    ensures err == Errno(ENOENT) ==> Answered(log, from, Nil, p)
  {
    forall i | from <= i < |log|
      ensures AtOrBelow(p, log[i].place)
      ensures IsTrouble(log[i]) ==> i == |log| - 1 && err == Errno(log[i].errno)
    {
      if i < |log0| {
        assert log[i] == log0[i];
      } else {
        ChildIsBelow(p, down, log[i].place);
      }
    }
  }

  function ErrOf(e: int): Err {
    if e == 0 then Nil else Errno(e)
  }

  /** Which calls RemoveAll makes for u, those from number k on in `log`: an Lstat, and
      nothing more if that fails; then an Unlink if it is no directory; then, for a
      directory, a listing, and if that fails a Rmdir all the same. */
  ghost predicate CallsFor(log: seq<Call>, k: nat, u: string, isDir: bool, err: Err) {
    && |log| > k && log[k].op == LstatOp && log[k].path == u
    && (log[k].errno != 0 ==> |log| == k + 1 && err == if log[k].errno == ENOENT then Nil else Errno(log[k].errno))
    && (log[k].errno == 0 && !isDir ==> |log| == k + 2 && EndsIn(log, UnlinkOp, u, err))
    && (log[k].errno == 0 && isDir ==> DirectoryCalls(log, k + 1, u, err))
  }

  /** The last call decides the result. */
  ghost predicate EndsIn(log: seq<Call>, op: Op, u: string, err: Err) {
    && |log| > 0 && log[|log| - 1].op == op && log[|log| - 1].path == u
    && err == ErrOf(log[|log| - 1].errno)
  }

  ghost predicate DirectoryCalls(log: seq<Call>, k: nat, u: string, err: Err) {
    && |log| > k + 1 && log[k].op == ReadDirOp && log[k].path == u
    && (log[k].errno != 0 ==> |log| == k + 2 && EndsIn(log, RmdirOp, u, err))
    && (err == Nil ==> EndsIn(log, RmdirOp, u, err))
  }

  lemma AnsweredByLast(log0: seq<Call>, log: seq<Call>, from: nat, p: string)
    requires log0 <= log && |log| == |log0| + 1 && Answered(log0, from, Nil, p)
    requires AtOrBelow(p, log[|log0|].place) && log[|log0|].op != ReadDirOp
    ensures Answered(log, from, ErrOf(log[|log0|].errno), p)
    ensures log[|log0|].errno == ENOENT ==> Answered(log, from, Nil, p)
  {
    assert forall i | 0 <= i < |log0| :: log[i] == log0[i];
  }

  lemma AnsweredByListing(log0: seq<Call>, log: seq<Call>, from: nat, p: string)
    requires log0 <= log && |log| == |log0| + 1 && Answered(log0, from, Nil, p)
    requires AtOrBelow(p, log[|log0|].place) && log[|log0|].op == ReadDirOp
    ensures Answered(log, from, Nil, p)
  {
    assert forall i | 0 <= i < |log0| :: log[i] == log0[i];
  }

  /** u is an empty directory that cannot be listed, as without read permission: call
      number k, the listing, fails, and the next one does not. */
  ghost predicate IsUnlistable(t: Tree, u: string, faults: nat -> int, k: nat) {
    && IsDirAt(t, Clean(u)) && Subtree(t, Clean(u)) == {Clean(u)} && LastPiece(u) != "."
    && faults(k) != 0 && faults(k + 1) == 0
  }

  /** RemoveAll. In every outcome nothing outside the subtree changes, symbolic
      links are removed and not followed, and a nil return means that nothing at or
      below the path is left, however incomplete the listings were. An error is that of
      the last call made, and no error but ENOENT and that of a listing is passed over;
      after a failed listing Rmdir is tried all the same. A node with a
      backslash in its path is never removed; so, when no call fails and the listings
      are full, there is a nil return if and only if there is no such node. The recursion
      ends because there are fewer nodes below a child. */
  method RemoveAll(fs: FileSystem, target: string) returns (err: Err)
    requires WellFormed(fs.nodes)
    requires var u := UnixPath.ToUnixPath(target); IsTrivial(u) || Removable(fs.nodes, u)
    modifies fs
    ensures WellFormed(fs.nodes) && fs.tick >= old(fs.tick)
    ensures var u := UnixPath.ToUnixPath(target);
      && (IsTrivial(u) ==> err == Refused && fs.nodes == old(fs.nodes))
      && OnlyRemovedAt(old(fs.nodes), fs.nodes, Clean(u))
      && (err == Nil ==> Subtree(fs.nodes, Clean(u)) == {})
      && (!IsTrivial(u) && old(fs.Quiet()) && Benign(old(fs.nodes), fs, u) ==>
            (err == Nil <==> NoBackslashBelow(old(fs.nodes), Clean(u))))
    ensures var u := UnixPath.ToUnixPath(target);
      && old(fs.calls) <= fs.calls
      && (!IsTrivial(u) ==>
            && Answered(fs.calls, |old(fs.calls)|, err, Clean(u))
            && CallsFor(fs.calls, |old(fs.calls)|, u, IsDirAt(old(fs.nodes), Clean(u)), err))
      && (IsTrivial(u) ==> fs.calls == old(fs.calls))
      && (!IsTrivial(u) && fs.faults(old(fs.tick)) == 0 &&
          IsUnlistable(old(fs.nodes), u, fs.faults, old(fs.tick) + 1) ==>
            err == Nil && fs.nodes == old(fs.nodes) - {Clean(u)})
    decreases |Subtree(fs.nodes, Clean(UnixPath.ToUnixPath(target)))|, 5
  {
    var uPath := UnixPath.ToUnixPath(target);
    if uPath == "" || uPath == "/" || uPath == "." {
      return Refused;
    }
    err := RemovePath(fs, uPath);
  }

  /** RemoveAll past its first check. */
  method RemovePath(fs: FileSystem, uPath: string) returns (err: Err)
    requires WellFormed(fs.nodes) && Removable(fs.nodes, uPath) && !IsTrivial(uPath)
    modifies fs
    ensures WellFormed(fs.nodes) && fs.tick >= old(fs.tick)
    ensures OnlyRemovedAt(old(fs.nodes), fs.nodes, Clean(uPath))
    ensures err == Nil ==> Subtree(fs.nodes, Clean(uPath)) == {}
    ensures old(fs.Quiet()) && Benign(old(fs.nodes), fs, uPath) ==>
      (err == Nil <==> NoBackslashBelow(old(fs.nodes), Clean(uPath)))
    ensures old(fs.calls) <= fs.calls && Answered(fs.calls, |old(fs.calls)|, err, Clean(uPath))
    ensures CallsFor(fs.calls, |old(fs.calls)|, uPath, IsDirAt(old(fs.nodes), Clean(uPath)), err)
    ensures fs.faults(old(fs.tick)) == 0 && IsUnlistable(old(fs.nodes), uPath, fs.faults, old(fs.tick) + 1) ==>
      err == Nil && fs.nodes == old(fs.nodes) - {Clean(uPath)}
    decreases |Subtree(fs.nodes, Clean(uPath))|, 4
  {
    CleanIsClean(uPath);
    OnlyDirectoriesHaveChildren(fs.nodes, Clean(uPath));
    var e, isDir := fs.Lstat(uPath);
    if e != 0 {
      AnsweredByLast(old(fs.calls), fs.calls, |old(fs.calls)|, Clean(uPath));
      return if e == ENOENT then Nil else Errno(e);
    }
    err := RemoveFound(fs, uPath, isDir);
    AnsweredOn(old(fs.calls), Call(LstatOp, uPath, Clean(uPath), 0), fs.calls, err, Clean(uPath));
  }

  /** The two ways of removing what is there. */
  method RemoveFound(fs: FileSystem, uPath: string, isDir: bool) returns (err: Err)
    requires WellFormed(fs.nodes) && Removable(fs.nodes, uPath) && !IsTrivial(uPath)
    requires Clean(uPath) in fs.nodes && (isDir <==> fs.nodes[Clean(uPath)] == Dir)
    modifies fs
    ensures WellFormed(fs.nodes) && fs.tick >= old(fs.tick)
    ensures OnlyRemovedAt(old(fs.nodes), fs.nodes, Clean(uPath))
    ensures err == Nil ==> Subtree(fs.nodes, Clean(uPath)) == {}
    ensures old(fs.Quiet()) && Benign(old(fs.nodes), fs, uPath) ==>
      (err == Nil <==> NoBackslashBelow(old(fs.nodes), Clean(uPath)))
    ensures old(fs.calls) <= fs.calls && Answered(fs.calls, |old(fs.calls)|, err, Clean(uPath))
    ensures !isDir ==> |fs.calls| == |old(fs.calls)| + 1 && EndsIn(fs.calls, UnlinkOp, uPath, err)
    ensures isDir ==> DirectoryCalls(fs.calls, |old(fs.calls)|, uPath, err)
    ensures IsUnlistable(old(fs.nodes), uPath, fs.faults, old(fs.tick)) ==>
      err == Nil && fs.nodes == old(fs.nodes) - {Clean(uPath)}
    decreases |Subtree(fs.nodes, Clean(uPath))|, 3
  {
    if !isDir {
      err := RemoveLeaf(fs, uPath);
    } else {
      err := RemoveDirectory(fs, uPath);
    }
  }

  lemma AnsweredOn(log0: seq<Call>, c: Call, log: seq<Call>, err: Err, p: string)
    requires log0 + [c] <= log && c.errno == 0 && AtOrBelow(p, c.place) && Answered(log, |log0| + 1, err, p)
    ensures Answered(log, |log0|, err, p) && log[|log0|] == c
  {
  }

  /** The part of RemoveAll for anything else. */
  method RemoveLeaf(fs: FileSystem, uPath: string) returns (err: Err)
    requires WellFormed(fs.nodes) && Removable(fs.nodes, uPath) && !IsTrivial(uPath)
    requires Clean(uPath) in fs.nodes && fs.nodes[Clean(uPath)] != Dir
    modifies fs
    ensures WellFormed(fs.nodes) && fs.tick >= old(fs.tick)
    ensures OnlyRemovedAt(old(fs.nodes), fs.nodes, Clean(uPath))
    ensures err == Nil ==> Subtree(fs.nodes, Clean(uPath)) == {}
    ensures old(fs.Quiet()) && !IsIdle(LastPiece(uPath)) ==> err == Nil
    ensures err == Nil ==> NoBackslashBelow(old(fs.nodes), Clean(uPath))
    ensures old(fs.calls) <= fs.calls && |fs.calls| == |old(fs.calls)| + 1 && EndsIn(fs.calls, UnlinkOp, uPath, err)
    ensures Answered(fs.calls, |old(fs.calls)|, err, Clean(uPath))
  {
    CleanIsClean(uPath);
    OnlyDirectoriesHaveChildren(fs.nodes, Clean(uPath));
    LeafRemoved(fs.nodes, Clean(uPath));
    var e := fs.Unlink(uPath);
    AnsweredByLast(old(fs.calls), fs.calls, |old(fs.calls)|, Clean(uPath));
    err := ErrOf(e);
  }

  /** The part of RemoveAll for a directory. */
  method RemoveDirectory(fs: FileSystem, uPath: string) returns (err: Err)
    requires WellFormed(fs.nodes) && Removable(fs.nodes, uPath) && !IsTrivial(uPath)
    requires Clean(uPath) in fs.nodes && fs.nodes[Clean(uPath)] == Dir
    modifies fs
    ensures WellFormed(fs.nodes) && fs.tick >= old(fs.tick)
    ensures OnlyRemovedAt(old(fs.nodes), fs.nodes, Clean(uPath))
    ensures err == Nil ==> Subtree(fs.nodes, Clean(uPath)) == {}
    ensures old(fs.Quiet()) && Benign(old(fs.nodes), fs, uPath) ==>
      (err == Nil <==> NoBackslashBelow(old(fs.nodes), Clean(uPath)))
    ensures old(fs.calls) <= fs.calls && Answered(fs.calls, |old(fs.calls)|, err, Clean(uPath))
    ensures DirectoryCalls(fs.calls, |old(fs.calls)|, uPath, err)
    ensures IsUnlistable(old(fs.nodes), uPath, fs.faults, old(fs.tick)) ==>
      err == Nil && fs.nodes == old(fs.nodes) - {Clean(uPath)}
    decreases |Subtree(fs.nodes, Clean(uPath))|, 2
  {
    ghost var t0, p, n := fs.nodes, Clean(uPath), |fs.calls|;
    var e, names := fs.ReadDir(uPath);
    AnsweredByListing(old(fs.calls), fs.calls, n, p);
    if e == 0 {
      err := RemoveEntries(fs, uPath, names, n);
      if err != Nil {
        return;
      }
    }
    ghost var log := fs.calls;
    err := RemoveEmptied(fs, uPath, t0);
    AnsweredByLast(log, fs.calls, n, p);
  }

  /** The Rmdir at the end. */
  method RemoveEmptied(fs: FileSystem, uPath: string, ghost t0: Tree) returns (err: Err)
    requires WellFormed(fs.nodes) && Removable(t0, uPath) && !IsTrivial(uPath)
    requires OnlyRemovedAt(t0, fs.nodes, Clean(uPath))
    modifies fs
    ensures WellFormed(fs.nodes) && fs.tick == old(fs.tick) + 1
    ensures OnlyRemovedAt(t0, fs.nodes, Clean(uPath))
    ensures err == Nil ==>
      && fs.nodes == old(fs.nodes) - {Clean(uPath)}
      && Subtree(fs.nodes, Clean(uPath)) == {} && NoBackslashBelow(t0, Clean(uPath))
    ensures fs.faults(old(fs.tick)) == 0 && LastPiece(uPath) != "." && IsDirAt(old(fs.nodes), Clean(uPath)) &&
            Subtree(old(fs.nodes), Clean(uPath)) == {Clean(uPath)} ==>
      err == Nil
    ensures |fs.calls| == |old(fs.calls)| + 1 && old(fs.calls) <= fs.calls && EndsIn(fs.calls, RmdirOp, uPath, err)
    ensures fs.calls[|old(fs.calls)|].place == Clean(uPath)
  {
    ghost var p, t1 := Clean(uPath), fs.nodes;
    CleanIsClean(uPath);
    StillDirect(t0, fs.nodes, uPath);
    LeafRemoved(fs.nodes, p);
    var e := fs.Rmdir(uPath);
    if e == 0 {
      RemovedInTwo(t0, t1, fs.nodes, p);
      EmptyHadNoBackslash(t0, fs.nodes, p);
    }
    err := ErrOf(e);
  }

  /** The loop over the entries of a directory. */
  method RemoveEntries(fs: FileSystem, uPath: string, names: seq<string>, ghost from: nat) returns (err: Err)
    requires Answered(fs.calls, from, Nil, Clean(uPath))
    requires WellFormed(fs.nodes) && Removable(fs.nodes, uPath) && !IsTrivial(uPath)
    requires Clean(uPath) in fs.nodes && fs.nodes[Clean(uPath)] == Dir && ListedIn(fs.nodes, Clean(uPath), names)
    modifies fs
    ensures WellFormed(fs.nodes) && fs.tick >= old(fs.tick)
    ensures OnlyRemovedAt(old(fs.nodes), fs.nodes, Clean(uPath)) && Clean(uPath) in fs.nodes
    ensures old(fs.Quiet()) && fs.fullListings && ProperNames(old(fs.nodes)) &&
            NoBackslashBelow(old(fs.nodes), Clean(uPath)) &&
            (forall n | IsEntry(n) && Clean(uPath) + "/" + n in old(fs.nodes) :: n in names) ==>
      err == Nil && Subtree(fs.nodes, Clean(uPath)) == {Clean(uPath)}
    ensures err != Nil && old(fs.Quiet()) && fs.fullListings && ProperNames(old(fs.nodes)) ==>
      !NoBackslashBelow(old(fs.nodes), Clean(uPath))
    ensures old(fs.calls) <= fs.calls && Answered(fs.calls, from, err, Clean(uPath))
    ensures err != Nil ==> |fs.calls| > |old(fs.calls)|
    decreases |Subtree(fs.nodes, Clean(uPath))|, 1
  {
    ghost var t0, p := fs.nodes, Clean(uPath);
    ghost var fine := fs.Quiet() && fs.fullListings && ProperNames(t0) && NoBackslashBelow(t0, p);
    for i := 0 to |names|
      invariant WellFormed(fs.nodes) && OnlyRemovedAt(t0, fs.nodes, p) && p in fs.nodes
      invariant fs.tick >= old(fs.tick) && (fine ==> Emptied(fs.nodes, p, names, i))
      invariant old(fs.calls) <= fs.calls && Answered(fs.calls, from, Nil, p)
    {
      if names[i] != "." && names[i] != ".." {
        err := RemoveEntry(fs, uPath, names, i, t0, from);
        if err != Nil {
          return;
        }
      }
    }
    if fine && forall n | IsEntry(n) && p + "/" + n in t0 :: n in names {
      AllChildrenGone(t0, fs.nodes, p, names);
    }
    err := Nil;
  }

  /** One round of that loop. */
  method RemoveEntry(fs: FileSystem, uPath: string, names: seq<string>, i: nat, ghost t0: Tree, ghost from: nat)
    returns (err: Err)
    requires Answered(fs.calls, from, Nil, Clean(uPath))
    requires WellFormed(t0) && Removable(t0, uPath) && !IsTrivial(uPath)
    requires Clean(uPath) in t0 && t0[Clean(uPath)] == Dir
    requires i < |names| && IsEntry(names[i]) && Clean(uPath) + "/" + names[i] in t0
    requires WellFormed(fs.nodes) && OnlyRemovedAt(t0, fs.nodes, Clean(uPath)) && Clean(uPath) in fs.nodes
    modifies fs
    ensures WellFormed(fs.nodes) && fs.tick >= old(fs.tick)
    ensures OnlyRemovedAt(t0, fs.nodes, Clean(uPath)) && Clean(uPath) in fs.nodes
    ensures old(fs.Quiet()) && fs.fullListings && ProperNames(t0) && NoBackslashBelow(t0, Clean(uPath)) ==>
      err == Nil && (Emptied(old(fs.nodes), Clean(uPath), names, i) ==> Emptied(fs.nodes, Clean(uPath), names, i + 1))
    ensures old(fs.calls) <= fs.calls && |fs.calls| > |old(fs.calls)| && Answered(fs.calls, from, err, Clean(uPath))
    decreases |Subtree(t0, Clean(uPath))|, 0
  {
    ghost var before, p := fs.nodes, Clean(uPath);
    var child := PathJoin(uPath, names[i]);
    ghost var down := ChildIsRemovable(t0, before, uPath, names[i]);
    SmallerSubtree(before, t0, p, down);
    err := RemoveAll(fs, child);
    RemovedBelow(t0, before, fs.nodes, p, down);
    AnsweredBelow(old(fs.calls), fs.calls, from, err, p, down);
    if err == Errno(ENOENT) {
      err := Nil;
    }
    if NoBackslashBelow(t0, p) {
      OrdinaryChild(t0, before, uPath, names[i]);
      if Emptied(before, p, names, i) && Subtree(fs.nodes, p + "/" + names[i]) == {} {
        StillEmptied(before, fs.nodes, p, names, i);
      }
    }
  }

  lemma StillDirect(t0: Tree, t: Tree, u: string)
    requires Direct(t0, u) && forall q | q in t :: q in t0 && t[q] == t0[q]
    ensures Direct(t, u)
  {
  }

  lemma StillTame(t0: Tree, t: Tree, k: string, k': string)
    requires Tame(t0, k) && AtOrBelow(k, k') && forall q | q in t :: q in t0 && t[q] == t0[q]
    ensures Tame(t, k')
  {
    forall p, n | AtOrBelow(k', p) && IsEntry(n) && '\\' in n && p + "/" + n in t
      ensures TameName(t, p, n)
    {
      assert AtOrBelow(k, p);
      assert TameName(t0, p, n);
      StillDirect(t0, t, p + "/" + UnixPath.Slashed(n));
    }
  }

  /** The recursive call for an entry is one that RemoveAll is proved for, strictly below
      the directory. */
  lemma ChildIsRemovable(t0: Tree, t: Tree, u: string, name: string) returns (down: string)
    requires WellFormed(t0) && Removable(t0, u) && !IsTrivial(u) && Clean(u) in t0 && t0[Clean(u)] == Dir
    requires IsEntry(name) && Clean(u) + "/" + name in t0 && forall q | q in t :: q in t0 && t[q] == t0[q]
    ensures var child := UnixPath.ToUnixPath(PathJoin(u, name));
      Removable(t, child) && !IsTrivial(child) && Clean(child) == Clean(u) + "/" + down
  {
    var k, s := Clean(u), UnixPath.Slashed(name);
    CleanIsClean(u);
    ChildPath(u, name);
    if '\\' in name {
      assert AtOrBelow(k, k) && TameName(t0, k, name);
    } else {
      OrdinaryName(name);
      DirectBelow(t0, k, name);
    }
    down := Descent(name);
    StillDirect(t0, t, k + "/" + s);
    assert AtOrBelow(k, k + "/" + down) by {
      assert k + "/" <= k + "/" + down;
    }
    StillTame(t0, t, k, k + "/" + down);
  }

  /** A directory that exists leads directly to its entries. */
  lemma DirectBelow(t: Tree, k: string, name: string)
    requires WellFormed(t) && k in t && t[k] == Dir && k != "" && !Climbs(k) && Parts(k) != [] && Clean(k) == k
    requires IsName(name)
    ensures Direct(t, k + "/" + name) && ClearAbove(t, k + "/" + name)
    ensures Clean(k + "/" + name) == k + "/" + name && LastPiece(k + "/" + name) == name
  {
    OrdinaryName(name);
    CleanOfConcat(k, name);
    LastOfSplit(k, name);
    forall a | IsAncestor(a, k + "/" + name) && a in t
      ensures t[a] == Dir
    {
      AboveTheChild(k, name, a);
    }
  }

  lemma AboveTheChild(k: string, name: string, a: string)
    requires IsAncestor(a, k + "/" + name) && '/' !in name
    ensures a == k || IsAncestor(a, k)
  {
    var c := k + "/" + name;
    assert forall i | 0 <= i < |name| :: c[|k| + 1 + i] == name[i];
    if |a| < |k| {
      assert c[..|a|] == k[..|a|];
    }
  }

  /** In a directory without backslashes below it, the call goes to the entry itself. */
  lemma OrdinaryChild(t0: Tree, t: Tree, u: string, name: string)
    requires WellFormed(t0) && Removable(t0, u) && !IsTrivial(u) && Clean(u) in t0 && t0[Clean(u)] == Dir
    requires NoBackslashBelow(t0, Clean(u)) && IsEntry(name) && Clean(u) + "/" + name in t0
    requires forall q | q in t :: q in t0 && t[q] == t0[q]
    ensures var child := UnixPath.ToUnixPath(PathJoin(u, name));
      && IsName(name) && Clean(child) == Clean(u) + "/" + name
      && !IsIdle(LastPiece(child)) && ClearAbove(t, Clean(child)) && NoBackslashBelow(t, Clean(child))
    ensures ProperNames(t0) ==> ProperNames(t)
  {
    var k := Clean(u);
    var c := k + "/" + name;
    assert c in Subtree(t0, k) by {
      assert k + "/" <= c;
    }
    assert forall i | 0 <= i < |name| :: c[|k| + 1 + i] == name[i];
    CleanIsClean(u);
    ChildPath(u, name);
    OrdinaryName(name);
    DirectBelow(t0, k, name);
    forall q | q in Subtree(t, c)
      ensures '\\' !in q
    {
      ChildIsBelow(k, name, q);
      assert q in Subtree(t0, k);
    }
  }

  /** The first i entries that were listed are gone with all that is below them. */
  ghost predicate Emptied(t: Tree, p: string, names: seq<string>, i: nat) {
    forall j | 0 <= j < i && j < |names| && IsEntry(names[j]) :: Subtree(t, p + "/" + names[j]) == {}
  }

  lemma StillEmptied(t1: Tree, t2: Tree, p: string, names: seq<string>, i: nat)
    requires i < |names| && Emptied(t1, p, names, i) && forall q | q in t2 :: q in t1
    requires Subtree(t2, p + "/" + names[i]) == {}
    ensures Emptied(t2, p, names, i + 1)
  {
    forall j | 0 <= j < i && IsEntry(names[j])
      ensures Subtree(t2, p + "/" + names[j]) == {}
    {
      assert Subtree(t2, p + "/" + names[j]) <= Subtree(t1, p + "/" + names[j]);
    }
  }

  lemma {:induction false} ComponentIsThere(q: string, k: nat)
    requires k <= |q|
    ensures var n := Component(q, k);
      && k + |n| <= |q| && q[k..k + |n|] == n
      && (k + |n| == |q| || q[k + |n|] == '/')
    decreases |q| - k
  {
    if k == |q| || q[k] == '/' {
    } else {
      ComponentIsThere(q, k + 1);
    }
  }

  /** Whatever is below p is at or below one of its entries. */
  lemma BelowAnEntry(t: Tree, p: string, q: string) returns (n: string)
    requires WellFormed(t) && ProperNames(t) && p != "" && q in t && p + "/" <= q
    ensures IsEntry(n) && p + "/" + n in t && AtOrBelow(p + "/" + n, q)
  {
    n := Component(q, |p| + 1);
    ComponentIsThere(q, |p| + 1);
    assert q[|p|] == (p + "/")[|p|] == '/';
    var c := p + "/" + n;
    assert q[..|c|] == c;
    if q != c {
      assert IsAncestor(c, q);
    }
  }

  lemma AllChildrenGone(t0: Tree, t: Tree, p: string, names: seq<string>)
    requires WellFormed(t0) && ProperNames(t0) && p != "" && p in t && forall q | q in t :: q in t0
    requires forall n | IsEntry(n) && p + "/" + n in t0 :: n in names
    requires Emptied(t, p, names, |names|)
    ensures Subtree(t, p) == {p}
  {
    forall q | q in Subtree(t, p)
      ensures q == p
    {
      if q != p {
        var n := BelowAnEntry(t0, p, q);
        EntryGone(t, p, names, n);
      }
    }
  }

  lemma EntryGone(t: Tree, p: string, names: seq<string>, n: string)
    requires Emptied(t, p, names, |names|) && n in names && IsEntry(n)
    ensures forall q | q in t :: !AtOrBelow(p + "/" + n, q)
  {
    var j :| 0 <= j < |names| && names[j] == n;
    forall q | q in t
      ensures !AtOrBelow(p + "/" + n, q)
    {
      assert q !in Subtree(t, p + "/" + names[j]);
    }
  }

  lemma OnlyDirectoriesHaveChildren(t: Tree, p: string)
    requires WellFormed(t) && p != ""
    ensures p !in t ==> Subtree(t, p) == {}
    ensures p in t && t[p] != Dir ==> Subtree(t, p) == {p}
  {
    forall q | q in Subtree(t, p) && q != p
      ensures p in t && t[p] == Dir
    {
      assert q[..|p|] == p && q[|p|] == (p + "/")[|p|];
      assert IsAncestor(p, q);
    }
  }

  lemma LeafRemoved(t: Tree, p: string)
    requires WellFormed(t) && p != "" && '\\' !in p
    ensures Subtree(t, p) == {p} ==>
      WellFormed(t - {p}) && Subtree(t - {p}, p) == {} && OnlyRemovedAt(t, t - {p}, p)
  {
    if Subtree(t, p) == {p} {
      forall a, q | q in t - {p} && IsAncestor(a, q)
        ensures a in t - {p} && (t - {p})[a] == Dir
      {
        assert a + "/" <= q;
        assert q in Subtree(t, a);
      }
      assert Subtree(t - {p}, p) <= Subtree(t, p) - {p};
    }
  }

  lemma RemovedInTwo(t0: Tree, t1: Tree, t2: Tree, p: string)
    requires OnlyRemovedAt(t0, t1, p) && OnlyRemovedAt(t1, t2, p)
    ensures OnlyRemovedAt(t0, t2, p)
  {
  }

  lemma EmptyHadNoBackslash(t0: Tree, t: Tree, p: string)
    requires OnlyRemovedAt(t0, t, p) && Subtree(t, p) == {}
    ensures NoBackslashBelow(t0, p)
  {
    forall q | q in Subtree(t0, p)
      ensures '\\' !in q
    {
      assert q !in Subtree(t, p);
    }
  }

  lemma RemovedBelow(t0: Tree, t1: Tree, t2: Tree, p: string, name: string)
    requires OnlyRemovedAt(t0, t1, p) && OnlyRemovedAt(t1, t2, p + "/" + name)
    ensures OnlyRemovedAt(t0, t2, p)
    ensures p in t1 ==> p in t2
  {
    assert !AtOrBelow(p + "/" + name, p);
    forall q | q in t0 && (!AtOrBelow(p, q) || '\\' in q)
      ensures q in t2
    {
      if AtOrBelow(p + "/" + name, q) {
        ChildIsBelow(p, name, q);
      }
    }
  }

  // ---------- MkdirAll ----------

  /** `current` after one more part. */
  function Extend(current: string, part: string): string {
    if part == "" then current
    else if current == "/" then current + part
    else if current == "" then part
    else current + "/" + part
  }

  /** `current` after the parts from number i on. */
  function Build(current: string, parts: seq<string>, i: nat): string
    requires i <= |parts|
    decreases |parts| - i
  {
    if i == |parts| then current else Build(Extend(current, parts[i]), parts, i + 1)
  }

  predicate Begins(current: string) {
    current == "" || current == "/"
  }

  lemma {:induction false} BuildJoins(current: string, parts: seq<string>, i: nat)
    requires i < |parts| && NoSlash(parts) && AllReal(parts)
    ensures Build(current, parts, i) == (if Begins(current) then current else current + "/") + Join(parts[i..])
    decreases |parts| - i
  {
    assert parts[i..][0] == parts[i] && parts[i..][1..] == parts[i + 1..];
    if i + 1 == |parts| {
    } else {
      BuildJoins(Extend(current, parts[i]), parts, i + 1);
      assert '/' in "/";
    }
  }

  /** What is built so far is the whole path or one of its ancestors. */
  lemma {:induction false} BuildExtends(current: string, parts: seq<string>, i: nat)
    requires i <= |parts| && NoSlash(parts) && AllReal(parts) && !Begins(current)
    ensures if i == |parts| then Build(current, parts, i) == current else IsAncestor(current, Build(current, parts, i))
    decreases |parts| - i
  {
    if i == |parts| {
    } else {
      var next := Extend(current, parts[i]);
      BuildExtends(next, parts, i + 1);
      var all := Build(current, parts, i);
      assert all[..|next|] == next;
      assert all[..|current|] == next[..|current|] == current;
      assert all[|current|] == next[|current|] == '/';
    }
  }

  /** The loop rebuilds a clean path from its pieces. */
  lemma RebuildsPath(u: string)
    requires IsClean(u) && !IsTrivial(u)
    ensures Split(Trim(u)) == Parts(u) && NoSlash(Parts(u))
    ensures Build(Lead(u), Parts(u), 0) == u
  {
    var parts, j := Parts(u), Join(Parts(u));
    PartsAreSlashFree(u);
    FirstAndLast(parts);
    SplitUndoesJoin(parts);
    BuildJoins(Lead(u), parts, 0);
    assert parts[0..] == parts;
    assert TrimLeft(j) == j == TrimRight(j);
    if Lead(u) == "/" {
      assert u[1..] == j;
      assert TrimLeft(u) == TrimLeft(j);
    } else {
      assert u == j;
    }
  }

  /** Nodes of t0 are untouched and everything new is a directory on the way to u. */
  ghost predicate OnlyAddedTowards(t0: Tree, t: Tree, u: string) {
    && (forall q | q in t0 :: q in t && t[q] == t0[q])
    && (forall q | q in t && q !in t0 :: t[q] == Dir && (q == u || IsAncestor(q, u)))
  }

  /** stat on this tree answers as lstat does. */
  ghost predicate NoLinks(t: Tree) {
    forall q | q in t :: !t[q].Symlink?
  }

  /** The last calls are a failed Mkdir of p, whose error `err` is, and the Stat after it. */
  ghost predicate EndsInMkdir(log: seq<Call>, p: string, err: Err) {
    && err.Errno? && |log| >= 2 && log[|log| - 2] == Call(MkdirOp, p, p, err.errno)
    && log[|log| - 1].op == StatOp && log[|log| - 1].path == p
  }

  /** One component of the loop: make the directory or accept that it is there. */
  method EnsureDirectory(fs: FileSystem, current: string, acceptsEexist: bool) returns (err: Err)
    requires WellFormed(fs.nodes)
    modifies fs
    ensures WellFormed(fs.nodes)
    ensures var e := MkdirErrno(old(fs.nodes), current, fs.faults(old(fs.tick)));
      && fs.nodes == (if e == 0 then old(fs.nodes)[current := Dir] else old(fs.nodes))
      && (e == 0 ==> current !in old(fs.nodes))
      && if e == 0 || (e == EEXIST && acceptsEexist) then err == Nil && fs.tick == old(fs.tick) + 1
         else
           && fs.tick == old(fs.tick) + 2
           && err == if fs.faults(old(fs.tick) + 1) == 0 && IsDirAt(old(fs.nodes), current) then Nil else Errno(e)
    ensures old(fs.calls) <= fs.calls && (err.Errno? ==> EndsInMkdir(fs.calls, current, err))
    ensures err == Nil || err.Errno?
  {
    var e := fs.Mkdir(current);
    if e != 0 {
      var accepted := e == EEXIST && acceptsEexist;
      if !accepted {
        var errStat, isDir := fs.Stat(current);
        if !(errStat == 0 && isDir) {
          return Errno(e);
        }
      }
    }
    err := Nil;
  }

  /** With all of the path there already, what its m last components make of the calls
      from number k on: a Mkdir whose EEXIST is accepted is enough for a component, any
      other needs a Stat that works and finds a directory; `last` says whether there is
      one at the path itself. */
  predicate Passes(faults: nat -> int, k: nat, m: nat, acceptsEexist: bool, last: bool)
    decreases m
  {
    if m == 0 then true
    else if acceptsEexist && IsNoFaultOfMkdir(faults(k)) then Passes(faults, k + 1, m - 1, acceptsEexist, last)
    else faults(k + 1) == 0 && (m > 1 || last) && Passes(faults, k + 2, m - 1, acceptsEexist, last)
  }

  /** MkdirAll on a tree without symbolic links; `acceptsEexist` is the answer the
      error comparison gives for errno 17. A nil return means that every ancestor
      and the path are directories, with one family of exceptions: the path already
      was something else and the very first Stat failed all the same. For a path at
      which there is something, `Passes` says exactly when the return is nil. */
  method MkdirAll(fs: FileSystem, dirpath: string, acceptsEexist: bool) returns (err: Err)
    requires WellFormed(fs.nodes) && NoLinks(fs.nodes) && IsClean(UnixPath.ToUnixPath(dirpath))
    modifies fs
    ensures WellFormed(fs.nodes)
    ensures OnlyAddedTowards(old(fs.nodes), fs.nodes, UnixPath.ToUnixPath(dirpath))
    ensures var u := UnixPath.ToUnixPath(dirpath);
      err == Nil && !IsTrivial(u) ==>
        && u in fs.nodes
        && (forall a | IsAncestor(a, u) :: a in fs.nodes && fs.nodes[a] == Dir)
        && (fs.nodes[u] == Dir ||
            (u in old(fs.nodes) && old(fs.nodes)[u] != Dir && fs.faults(old(fs.tick)) != 0 && acceptsEexist))
    ensures var u := UnixPath.ToUnixPath(dirpath);
      !IsTrivial(u) && u in old(fs.nodes) ==>
        && (fs.faults(old(fs.tick)) == 0 ==> err == if IsDirAt(old(fs.nodes), u) then Nil else Errno(ENOTDIR))
        && (fs.faults(old(fs.tick)) != 0 ==>
              (err == Nil <==>
                 Passes(fs.faults, old(fs.tick) + 1, |Parts(u)|, acceptsEexist, IsDirAt(old(fs.nodes), u))))
    ensures old(fs.Quiet()) && ClearWay(old(fs.nodes), UnixPath.ToUnixPath(dirpath)) ==> err == Nil
    ensures var u := UnixPath.ToUnixPath(dirpath);
      || err == Nil || (err == Errno(ENOTDIR) && u in old(fs.nodes) && old(fs.nodes)[u] != Dir)
      || exists q :: (q == u || IsAncestor(q, u)) && EndsInMkdir(fs.calls, q, err)
  {
    var uPath := UnixPath.ToUnixPath(dirpath);
    if uPath == "" || uPath == "/" || uPath == "." {
      return Nil;
    }
    ghost var t0 := fs.nodes;
    var e, isDir := fs.Stat(uPath);
    if e == 0 {
      return if isDir then Nil else Errno(ENOTDIR);
    }
    err := MakeParts(fs, uPath, acceptsEexist);
  }

  /** No file stands where u or one of its ancestors has to be. */
  ghost predicate ClearWay(t: Tree, u: string) {
    forall a | (a == u || IsAncestor(a, u)) && a in t :: t[a] == Dir
  }

  /** One more part adds at most one ancestor, what was built before. */
  lemma AncestorsOfExtended(current: string, part: string, a: string)
    requires part != "" && '/' !in part && IsAncestor(a, Extend(current, part))
    ensures !Begins(current) && (a == current || IsAncestor(a, current))
  {
    var next := Extend(current, part);
    var from := |next| - |part|;
    assert forall i | from <= i < |next| :: next[i] == part[i - from];
    assert |a| < from;
    if |a| < |current| {
      assert next[..|a|] == current[..|a|];
    }
  }

  /** What the loop has achieved when `current` is built; `t0` is the tree it began
      with, `quiet` that no call fails any more. */
  ghost predicate Made(t0: Tree, t: Tree, uPath: string, current: string, acceptsEexist: bool, quiet: bool) {
    && WellFormed(t) && OnlyAddedTowards(t0, t, uPath)
    && (uPath in t0 ==> t == t0)
    && (!Begins(current) ==>
          && current in t
          && (!(acceptsEexist && current in t0) ==> t[current] == Dir)
          && (quiet && ClearWay(t0, uPath) ==> t[current] == Dir))
  }

  /** One round of the loop. */
  method MakePart(fs: FileSystem, uPath: string, before: string, part: string, acceptsEexist: bool,
                  ghost t0: Tree, ghost quiet: bool, ghost m: nat)
    returns (err: Err, current: string)
    requires part != "" && '/' !in part && m > 0 && (m == 1 <==> Extend(before, part) == uPath)
    requires Extend(before, part) == uPath || IsAncestor(Extend(before, part), uPath)
    requires WellFormed(t0) && Made(t0, fs.nodes, uPath, before, acceptsEexist, quiet)
    requires quiet ==> fs.Quiet()
    modifies fs
    ensures fs.tick > old(fs.tick) && WellFormed(fs.nodes) && OnlyAddedTowards(t0, fs.nodes, uPath)
    ensures err.Errno? ==> EndsInMkdir(fs.calls, current, err)
    ensures current == Extend(before, part) && (err == Nil || err.Errno?)
    ensures err == Nil ==> Made(t0, fs.nodes, uPath, current, acceptsEexist, quiet)
    ensures quiet && ClearWay(t0, uPath) ==> err == Nil
    ensures uPath in t0 ==>
      (Passes(fs.faults, old(fs.tick), m, acceptsEexist, IsDirAt(t0, uPath)) <==>
       err == Nil && Passes(fs.faults, fs.tick, m - 1, acceptsEexist, IsDirAt(t0, uPath)))
  {
    current := Extend(before, part);
    forall a | IsAncestor(a, current)
      ensures !Begins(before) && (a == before || IsAncestor(a, before))
    {
      AncestorsOfExtended(before, part, a);
    }
    assert uPath in t0 ==> current in t0;
    assert !Begins(current) by {
      assert part[0] in part;
    }
    HasWayIff(fs.nodes, current);
    err := EnsureDirectory(fs, current, acceptsEexist);
  }

  /** What is left of the path to build, one part later. */
  lemma NextPart(uPath: string, current: string, parts: seq<string>, i: nat)
    requires i < |parts| && NoSlash(parts) && AllReal(parts) && Build(current, parts, i) == uPath
    ensures Build(Extend(current, parts[i]), parts, i + 1) == uPath
    ensures '/' !in parts[i] && parts[i] != "" && !Begins(Extend(current, parts[i]))
    ensures var next := Extend(current, parts[i]);
      if i + 1 == |parts| then next == uPath else next != uPath && IsAncestor(next, uPath)
  {
    var next := Extend(current, parts[i]);
    assert !Begins(next) by {
      assert parts[i][0] in parts[i];
    }
    BuildExtends(next, parts, i + 1);
  }

  /** The loop of MkdirAll. The source skips empty parts; a clean path has none. */
  method MakeEach(fs: FileSystem, uPath: string, start: string, parts: seq<string>, acceptsEexist: bool)
    returns (err: Err)
    requires WellFormed(fs.nodes) && parts != [] && NoSlash(parts) && AllReal(parts)
    requires Begins(start) && Build(start, parts, 0) == uPath
    modifies fs
    ensures WellFormed(fs.nodes) && OnlyAddedTowards(old(fs.nodes), fs.nodes, uPath)
    ensures err == Nil || exists q :: (q == uPath || IsAncestor(q, uPath)) && EndsInMkdir(fs.calls, q, err)
    ensures err == Nil ==> uPath in fs.nodes
    ensures err == Nil && !(acceptsEexist && uPath in old(fs.nodes)) ==> fs.nodes[uPath] == Dir
    ensures uPath in old(fs.nodes) ==>
      (err == Nil <==>
         Passes(fs.faults, old(fs.tick), |parts|, acceptsEexist, IsDirAt(old(fs.nodes), uPath)))
    ensures old(fs.Quiet()) && ClearWay(old(fs.nodes), uPath) ==> err == Nil
  {
    ghost var t0, quiet, left := fs.nodes, fs.Quiet(), |parts|;
    ghost var passes := Passes(fs.faults, fs.tick, left, acceptsEexist, IsDirAt(t0, uPath));
    var current := start;
    for i := 0 to |parts|
      invariant quiet ==> fs.Quiet()
      invariant Build(current, parts, i) == uPath && (i > 0 ==> !Begins(current))
      invariant Made(t0, fs.nodes, uPath, current, acceptsEexist, quiet)
      invariant left == |parts| - i
      invariant uPath in t0 ==> (passes <==> Passes(fs.faults, fs.tick, left, acceptsEexist, IsDirAt(t0, uPath)))
    {
      var part := parts[i];
      NextPart(uPath, current, parts, i);
      if part != "" {
        err, current := MakePart(fs, uPath, current, part, acceptsEexist, t0, quiet, left);
        left := left - 1;
        if err != Nil {
          return;
        }
      }
    }
    err := Nil;
  }

  /** Split the path and make its parts. */
  method MakeParts(fs: FileSystem, uPath: string, acceptsEexist: bool) returns (err: Err)
    requires WellFormed(fs.nodes) && IsClean(uPath) && !IsTrivial(uPath)
    modifies fs
    ensures WellFormed(fs.nodes) && OnlyAddedTowards(old(fs.nodes), fs.nodes, uPath)
    ensures err == Nil || exists q :: (q == uPath || IsAncestor(q, uPath)) && EndsInMkdir(fs.calls, q, err)
    ensures err == Nil ==> uPath in fs.nodes
    ensures err == Nil && !(acceptsEexist && uPath in old(fs.nodes)) ==> fs.nodes[uPath] == Dir
    ensures uPath in old(fs.nodes) ==>
      (err == Nil <==>
         Passes(fs.faults, old(fs.tick), |Parts(uPath)|, acceptsEexist, IsDirAt(old(fs.nodes), uPath)))
    ensures old(fs.Quiet()) && ClearWay(old(fs.nodes), uPath) ==> err == Nil
  {
    RebuildsPath(uPath);
    err := MakeEach(fs, uPath, if uPath[0] == '/' then "/" else "", Split(Trim(uPath)), acceptsEexist);
  }

  /** The exception is real: "a" is a regular file, the first Stat fails with EIO,
      and MkdirAll("a") reports success. */
  method NilOnARegularFile() returns (err: Err, node: Node)
    ensures err == Nil && node == File([])
  {
    var fs := new FileSystem(map["a" := File([])], k => if k == 0 then 5 else 0, false);
    UnixPath.IdentityIffNormal("a");
    OrdinaryName("a");
    assert Passes(fs.faults, 1, 1, true, false) by {
      assert fs.faults(1) == 0;
    }
    err := MkdirAll(fs, "a", true);
    node := fs.nodes["a"];
  }
}
