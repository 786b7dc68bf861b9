/** CopyFile: copy_file_range first, a read/write loop after a short or failed one. */
module CopyFile {

  type Bytes = seq<int>

  datatype IoErr = NoErr | Errno(errno: int) | EndOfFile | ShortWrite

  /** A finished call, or one still in its loop. */
  datatype Status = Copying | Done(err: IoErr)

  const BUFFER := 65536

  /** Overwrite from `off` on, growing the file where needed. */
  function Splice(d: Bytes, off: nat, data: Bytes): Bytes
    requires off <= |d|
  {
    d[..off] + data + if off + |data| <= |d| then d[off + |data|..] else []
  }

  /** Overwriting a prefix of s with more of s leaves a prefix of s. */
  lemma SpliceOfPrefix(s: Bytes, d: Bytes, off: nat, n: nat)
    requires d <= s && off <= |d| && off + n <= |s|
    ensures Splice(d, off, s[off..off + n]) <= s
    ensures |Splice(d, off, s[off..off + n])| == if off + n <= |d| then |d| else off + n
  {
    var r := Splice(d, off, s[off..off + n]);
    assert forall k | 0 <= k < |r| :: r[k] == s[k];
  }

  /** A prefix of s that long is s[..n]. */
  lemma PrefixOfLength(s: Bytes, d: Bytes)
    requires d <= s
    ensures d == s[..|d|]
  {
  }

  /** What the environment answers: the error number and byte count of
      copy_file_range, and for every later call, by its number, the error number forced
      on it (0: none) and the number of bytes a read or write transfers (any number out
      of range: as many as possible). */
  datatype Env = Env(
    rangeErrno: int, rangeCopied: int, faults: nat -> int, readAmounts: nat -> int, writeAmounts: nat -> int)

  /** One copy_file_range moves all of `size` bytes. */
  predicate MovesAll(env: Env, size: int, available: nat) {
    env.rangeErrno == 0 && env.rangeCopied == size && size <= available
  }

  /** After copy_file_range no call fails and no write is short. */
  ghost predicate Calm(env: Env) {
    forall k :: env.faults(k) == 0 && env.writeAmounts(k) < 0
  }

  /** `err` is what call number k was made to fail with. */
  predicate IsFaultOf(env: Env, k: nat, err: IoErr) {
    env.faults(k) != 0 && err == Errno(env.faults(k))
  }

  /** A copy that was given up met a failing call or a short write. */
  ghost predicate GivenUpFor(env: Env, r: Status) {
    && (r == Done(ShortWrite) ==> exists k :: env.faults(k) == 0 && env.writeAmounts(k) >= 0)
    && (r.Done? && r.err != NoErr && r.err != ShortWrite ==> exists k :: IsFaultOf(env, k, r.err))
  }

  /** The two open files. The source does not change and the destination is a file
      of its own. */
  class Files {
    const src: Bytes
    const env: Env
    var dst: Bytes
    var srcOff: nat
    var dstOff: nat
    var tick: nat

    ghost predicate Valid()
      reads this
    {
      srcOff <= |src| && dstOff <= |dst|
    }

    constructor (src: Bytes, env: Env)
      ensures Valid() && this.src == src && this.env == env && dst == [] && srcOff == 0 && dstOff == 0 && tick == 0
    {
      this.src, this.env, dst, srcOff, dstOff, tick := src, env, [], 0, 0, 0;
    }

    /** read(2) through Read: a short count is possible, end of file is (0, nil),
        and io.EOF is never returned. */
    method Read(n: nat) returns (data: Bytes, err: IoErr)
      requires Valid() && n > 0
      modifies this`srcOff, this`tick
      ensures tick == old(tick) + 1 && Valid()
      ensures err == if env.faults(old(tick)) == 0 then NoErr else Errno(env.faults(old(tick)))
      ensures err != NoErr ==> data == []
      ensures old(srcOff) + |data| <= |src| && |data| <= n
      ensures data == src[old(srcOff)..old(srcOff) + |data|] && srcOff == old(srcOff) + |data|
      ensures err == NoErr ==> (data == [] <==> old(srcOff) == |src|)
    {
      var fault, got := env.faults(tick), env.readAmounts(tick);
      tick := tick + 1;
      if fault != 0 {
        return [], Errno(fault);
      }
      var most := if |src| - srcOff < n then |src| - srcOff else n;
      if got < 1 || got > most {
        got := most;
      }
      data := src[srcOff..srcOff + got];
      srcOff := srcOff + got;
      err := NoErr;
    }

    /** write(2) through Write: any leading part may have been transferred. */
    method Write(data: Bytes) returns (n: nat, err: IoErr)
      requires Valid()
      modifies this`dst, this`dstOff, this`tick
      ensures tick == old(tick) + 1 && Valid() && n <= |data|
      ensures err == if env.faults(old(tick)) == 0 then NoErr else Errno(env.faults(old(tick)))
      ensures err == NoErr && env.writeAmounts(old(tick)) < 0 ==> n == |data|
      ensures err == NoErr && 0 <= env.writeAmounts(old(tick)) <= |data| ==> n == env.writeAmounts(old(tick))
      ensures err != NoErr ==> n == 0
      ensures dst == Splice(old(dst), old(dstOff), data[..n]) && dstOff == old(dstOff) + n
    {
      var fault, put := env.faults(tick), env.writeAmounts(tick);
      tick := tick + 1;
      n := if fault != 0 then 0 else if 0 <= put <= |data| then put else |data|;
      err := if fault == 0 then NoErr else Errno(fault);
      dst := Splice(dst, dstOff, data[..n]);
      dstOff := dstOff + n;
    }

    /** copy_file_range at the files' own offsets. */
    method CopyFileRange(count: nat) returns (copied: nat, err: IoErr)
      requires Valid()
      modifies this`dst, this`srcOff, this`dstOff
      ensures Valid() && copied <= count
      ensures err == if env.rangeErrno == 0 then NoErr else Errno(env.rangeErrno)
      ensures count > 0 ==> (err == NoErr && copied == count <==> MovesAll(env, count, |src| - old(srcOff)))
      ensures old(srcOff) + copied <= |src|
      ensures dst == Splice(old(dst), old(dstOff), src[old(srcOff)..old(srcOff) + copied])
      ensures srcOff == old(srcOff) + copied && dstOff == old(dstOff) + copied
    {
      var answer := env.rangeCopied;
      copied := if env.rangeErrno == 0 && 0 <= answer <= count && srcOff + answer <= |src| then answer else 0;
      err := if env.rangeErrno == 0 then NoErr else Errno(env.rangeErrno);
      dst := Splice(dst, dstOff, src[srcOff..srcOff + copied]);
      srcOff, dstOff := srcOff + copied, dstOff + copied;
    }

    method RewindSource() returns (err: IoErr)
      requires Valid()
      modifies this`srcOff, this`tick
      ensures tick == old(tick) + 1 && Valid()
      ensures err == if env.faults(old(tick)) == 0 then NoErr else Errno(env.faults(old(tick)))
      ensures srcOff == if err == NoErr then 0 else old(srcOff)
    {
      var fault := env.faults(tick);
      tick := tick + 1;
      if fault != 0 {
        return Errno(fault);
      }
      srcOff := 0;
      err := NoErr;
    }

    method RewindDestination() returns (err: IoErr)
      requires Valid()
      modifies this`dstOff, this`tick
      ensures tick == old(tick) + 1 && Valid()
      ensures err == if env.faults(old(tick)) == 0 then NoErr else Errno(env.faults(old(tick)))
      ensures dstOff == if err == NoErr then 0 else old(dstOff)
    {
      var fault := env.faults(tick);
      tick := tick + 1;
      if fault != 0 {
        return Errno(fault);
      }
      dstOff := 0;
      err := NoErr;
    }
  }

  /** What every point of a copy keeps: the destination is a prefix of the source,
      and in the loop both files are at the same offset. */
  ghost predicate InStep(f: Files)
    reads f
  {
    f.Valid() && f.dst <= f.src && f.srcOff == f.dstOff
  }

  /** One round of the loop. It never ends the copy successfully: the only
      successful exit is on io.EOF, which Read does not return. At end of file a
      round changes nothing, and without a failure or a short write there is always
      another round. */
  method FallbackRound(f: Files) returns (r: Status)
    requires InStep(f)
    modifies f`dst, f`srcOff, f`dstOff, f`tick
    ensures f.Valid() && f.dst <= f.src && |f.dst| >= |old(f.dst)|
    ensures r != Done(NoErr)
    ensures r == Copying ==> InStep(f) && (old(f.srcOff) < |f.src| ==> f.srcOff > old(f.srcOff))
    ensures old(f.srcOff) == |f.src| ==>
      f.dst == old(f.dst) && f.srcOff == old(f.srcOff) && f.dstOff == old(f.dstOff)
    ensures GivenUpFor(f.env, r) && (Calm(f.env) ==> r == Copying)
    ensures var k, read, written := old(f.tick), f.srcOff - old(f.srcOff), f.dstOff - old(f.dstOff);
      r == if f.env.faults(k) != 0 then Done(Errno(f.env.faults(k)))
           else if read == 0 then Copying
           else if f.env.faults(k + 1) != 0 then Done(Errno(f.env.faults(k + 1)))
           else if written < read then Done(ShortWrite)
           else Copying
  {
    ghost var tick := f.tick;
    var data, errRead := f.Read(BUFFER);
    if |data| > 0 {
      ghost var off := f.dstOff;
      var nw, errWrite := f.Write(data);
      assert errWrite == NoErr || IsFaultOf(f.env, tick + 1, errWrite);
      assert data[..nw] == f.src[off..off + nw];
      SpliceOfPrefix(f.src, old(f.dst), off, nw);
      if errWrite != NoErr {
        return Done(errWrite);
      }
      if nw != |data| {
        assert f.env.faults(tick + 1) == 0 && f.env.writeAmounts(tick + 1) >= 0;
        return Done(ShortWrite);
      }
    }
    if errRead != NoErr {
      assert IsFaultOf(f.env, tick, errRead);
      return Done(if errRead == EndOfFile then NoErr else errRead);
    }
    r := Copying;
  }

  /** Any number of rounds of the loop. */
  method Fallback(f: Files, rounds: nat) returns (r: Status)
    requires InStep(f)
    modifies f`dst, f`srcOff, f`dstOff, f`tick
    ensures f.Valid() && f.dst <= f.src && r != Done(NoErr)
    ensures r == Copying ==> InStep(f) && (rounds >= |f.src| - old(f.srcOff) ==> f.srcOff == |f.src|)
    ensures GivenUpFor(f.env, r) && (Calm(f.env) ==> r == Copying)
  {
    for i := 0 to rounds
      invariant InStep(f) && (f.srcOff == |f.src| || f.srcOff >= old(f.srcOff) + i)
    {
      r := FallbackRound(f);
      if r != Copying {
        return;
      }
    }
    r := Copying;
  }

  /** CopyFile, observed after any number of rounds of its loop. `size` is what
      fstat reported, which need not be the number of bytes the source yields. The
      destination is a prefix of the source at every observation; a nil return means
      that it is the first `size` bytes; and there is a nil return if and only if there
      was nothing to copy or one copy_file_range moved all of it. Otherwise, unless a
      call fails or a write is short, the loop runs on for ever, all bytes copied. */
  method Copy(src: Bytes, size: int, rounds: nat, env: Env) returns (r: Status, dst: Bytes)
    ensures dst <= src
    ensures r == Done(NoErr) ==> dst == src[..if 0 <= size <= |src| then size else 0] && size <= |src|
    ensures r == Done(NoErr) <==> size <= 0 || MovesAll(env, size, |src|)
    ensures r == Copying && rounds >= |src| ==> dst == src
    ensures GivenUpFor(env, r)
    ensures size > 0 && !MovesAll(env, size, |src|) ==>
      && (env.faults(0) != 0 ==> r == Done(Errno(env.faults(0))))
      && (env.faults(0) == 0 && env.faults(1) != 0 ==> r == Done(Errno(env.faults(1))))
    ensures Calm(env) && size > 0 && !MovesAll(env, size, |src|) ==> r == Copying
  {
    var f := new Files(src, env);
    if size > 0 {
      var copied, err := f.CopyFileRange(size);
      SpliceOfPrefix(src, [], 0, copied);
      PrefixOfLength(src, f.dst);
      if err == NoErr && copied == size {
        return Done(NoErr), f.dst;
      }
      var errSeek := f.RewindSource();
      if errSeek != NoErr {
        assert IsFaultOf(env, 0, errSeek);
        return Done(errSeek), f.dst;
      }
      errSeek := f.RewindDestination();
      if errSeek != NoErr {
        assert IsFaultOf(env, 1, errSeek);
        return Done(errSeek), f.dst;
      }
      r := Fallback(f, rounds);
      PrefixOfLength(src, f.dst);
      return r, f.dst;
    }
    return Done(NoErr), f.dst;
  }

  /** The loop that does not end: a file of one byte, copy_file_range refused with
      ENOSYS and every other call successful. However many rounds have passed, the
      byte is copied and the call has not returned. */
  method CopiedAndStillCopying(rounds: nat) returns (r: Status, dst: Bytes)
    requires rounds >= 1
    ensures r == Copying && dst == [7]
  {
    var env := Env(38, 0, _ => 0, _ => -1, _ => -1);
    assert Calm(env);
    r, dst := Copy([7], 1, rounds, env);
  }
}
