/** ToUnixPath: DOS and Wine spellings of a path become the host's. */
module UnixPath {

  predicate IsSeparator(c: char) {
    c == '\\' || c == '/'
  }

  const LONG_PREFIX: string := "\\\\?\\unix"
  const NT_PREFIX: string := "\\??\\unix"

  predicate HasUnixPrefix(path: string) {
    |path| >= 9 && (path[..8] == LONG_PREFIX || path[..8] == NT_PREFIX) && IsSeparator(path[8])
  }

  predicate HasRootDrive(path: string) {
    |path| >= 3 && (path[0] == 'Z' || path[0] == 'z') && path[1] == ':' && IsSeparator(path[2])
  }

  /** Led by a separator or by a drive letter and colon. */
  predicate IsAbsolute(path: string) {
    |path| > 0 && (IsSeparator(path[0]) || (|path| >= 2 && path[1] == ':'))
  }

  function StripPrefix(path: string): string {
    if HasUnixPrefix(path) then path[8..]
    else if HasRootDrive(path) then path[2..]
    else path
  }

  function Slashed(s: string): string {
    seq(|s|, i requires 0 <= i < |s| => if s[i] == '\\' then '/' else s[i])
  }

  function ToUnixPath(path: string): string {
    if path == "" then ""
    else
      var res := Slashed(StripPrefix(path));
      if |res| > 0 && res[0] != '/' && IsAbsolute(path) then "/" + res else res
  }

  /** The byte-by-byte rewrite of the source, in place on a buffer. */
  method Normalise(path: string) returns (res: string)
    ensures res == ToUnixPath(path)
  {
    if path == "" {
      return "";
    }
    var p := path;
    if |p| >= 9 && (p[..8] == "\\\\?\\unix" || p[..8] == "\\??\\unix") && (p[8] == '\\' || p[8] == '/') {
      p := p[8..];
    } else if |p| >= 3 && (p[0] == 'Z' || p[0] == 'z') && p[1] == ':' && (p[2] == '\\' || p[2] == '/') {
      p := p[2..];
    }
    var b := new char[|p|](i requires 0 <= i < |p| => p[i]);
    for i := 0 to b.Length
      invariant forall k | 0 <= k < b.Length :: b[k] == if k < i then Slashed(p)[k] else p[k]
    {
      if b[i] == '\\' {
        b[i] := '/';
      }
    }
    res := b[..];
    assert res == Slashed(p);
    if |res| > 0 && res[0] != '/' && (path[0] == '/' || path[0] == '\\' || (|path| >= 2 && path[1] == ':')) {
      res := "/" + res;
    }
  }

  /** A path this library hands to the kernel unchanged. */
  predicate IsNormal(path: string) {
    '\\' !in path && (IsAbsolute(path) ==> path[0] == '/')
  }

  /** The identity exactly on the normal paths. */
  lemma IdentityIffNormal(path: string)
    ensures ToUnixPath(path) == path <==> IsNormal(path)
  {
    if path != "" {
      if IsNormal(path) {
        assert Slashed(path) == path;
      } else {
        OutputIsNormal(path);
      }
    }
  }

  /** No output has a backslash, and absolute inputs give absolute outputs. */
  lemma OutputIsNormal(path: string)
    ensures IsNormal(ToUnixPath(path))
    ensures IsAbsolute(path) <==> IsAbsolute(ToUnixPath(path))
  {
    if path != "" {
      var p := StripPrefix(path);
      assert HasUnixPrefix(path) ==> path[..8][0] == '\\' && path[0] == '\\';
      assert p != path ==> IsSeparator(p[0]);
      assert |Slashed(p)| == |p| > 0;
    }
  }

  /** All spellings of one host path name the same file: the drive-led one and the two
      prefixed ones always agree, and the bare one agrees with them if and only if it
      does not start with such a prefix itself. */
  lemma SpellingsAgree(drive: char, prefix: string, rest: string)
    requires (drive == 'Z' || drive == 'z') && (prefix == LONG_PREFIX || prefix == NT_PREFIX)
    requires rest != "" && IsSeparator(rest[0])
    ensures ToUnixPath([drive, ':'] + rest) == ToUnixPath(prefix + rest) == Slashed(rest)
    ensures ToUnixPath(rest) == ToUnixPath(prefix + rest) <==> !HasUnixPrefix(rest)
  {
    var driven, prefixed := [drive, ':'] + rest, prefix + rest;
    assert driven[0] == drive && driven[2] == rest[0] && driven[2..] == rest;
    assert |driven| >= 8 ==> driven[..8][0] == drive;
    assert prefixed[..8] == prefix && prefixed[8] == rest[0] && prefixed[8..] == rest;
    assert StripPrefix(driven) == rest == StripPrefix(prefixed);
    if HasUnixPrefix(rest) {
      assert |ToUnixPath(rest)| == |rest| - 8;
    }
  }

  /** No other drive is the root: its letter stays, below "/", as does Z: without a
      separator after it. */
  lemma OtherDrivesStay(drive: char, rest: string)
    requires drive != '/' && drive != '\\'
    requires (drive == 'Z' || drive == 'z') ==> rest == "" || (rest[0] != '/' && rest[0] != '\\')
    ensures ToUnixPath([drive, ':'] + rest) == "/" + [drive, ':'] + Slashed(rest)
  {
    var path := [drive, ':'] + rest;
    assert path[0] == drive && path[1] == ':' && path[2..] == rest;
    assert |path| >= 8 ==> path[..8][0] == drive;
    assert StripPrefix(path) == path;
    assert Slashed(path) == [drive, ':'] + Slashed(rest);
  }

  /** Every path that is neither drive-led nor prefixed, absolute or not, keeps its length
      and differs at its backslashes alone. */
  lemma OtherwiseInPlace(path: string)
    requires !(|path| >= 9 && (path[..8] == "\\\\?\\unix" || path[..8] == "\\??\\unix") &&
               (path[8] == '\\' || path[8] == '/'))
    requires |path| >= 2 && path[1] == ':' ==> path[0] == '/' || path[0] == '\\'
    ensures |ToUnixPath(path)| == |path|
    ensures forall i | 0 <= i < |path| :: ToUnixPath(path)[i] == if path[i] == '\\' then '/' else path[i]
  {
    assert StripPrefix(path) == path;
  }

  lemma Idempotent(path: string)
    ensures ToUnixPath(ToUnixPath(path)) == ToUnixPath(path)
  {
    OutputIsNormal(path);
    IdentityIffNormal(ToUnixPath(path));
  }

  /** Joining any name to a normalised directory: a later application rewrites the
      backslashes of the name and nothing else. So the path goes on naming the same file
      if and only if the name has none. */
  lemma JoinedChild(dir: string, name: string)
    requires IsNormal(dir) && dir != ""
    ensures ToUnixPath(dir + "/" + name) == dir + "/" + Slashed(name)
    ensures ToUnixPath(dir + "/" + name) == dir + "/" + name <==> '\\' !in name
    ensures IsNormal(dir + "/" + Slashed(name))
  {
    var path := dir + "/" + name;
    assert path[0] == dir[0] && dir[0] in dir;
    assert |path| >= 8 ==> path[..8][0] == dir[0];
    assert StripPrefix(path) == path;
    assert Slashed(path) == dir + "/" + Slashed(name) by {
      assert forall i | 0 <= i < |dir| :: dir[i] in dir;
    }
    OutputIsNormal(path);
    if '\\' in name {
      var i :| 0 <= i < |name| && name[i] == '\\';
      assert path[|dir| + 1 + i] == '\\' && Slashed(path)[|dir| + 1 + i] == '/';
    } else {
      assert Slashed(name) == name;
    }
  }
}
