/** linux_dirent64 records, as getdents64(2) returns them, and ReadDir. */
module Dirents {
  import opened Bytes

  datatype Dirent = Dirent(ino: nat, off: int, kind: Byte, name: seq<Byte>)

  const HEADER := 19
  const HALF64: int := 0x8000_0000_0000_0000

  // The fields of the record a buffer starts with.

  function Reclen(buf: seq<Byte>): nat
    requires |buf| >= HEADER
  {
    Le(buf[16..18])
  }

  function Record(buf: seq<Byte>): Dirent
    requires |buf| >= HEADER && HEADER <= Reclen(buf) <= |buf|
  {
    Dirent(Le(buf[..8]), Signed(Le(buf[8..16]), HALF64), buf[18], UntilNul(buf[HEADER..Reclen(buf)]))
  }

  /** The buffer starts with a whole record. */
  predicate HasRecord(buf: seq<Byte>) {
    |buf| >= HEADER && HEADER <= Reclen(buf) <= |buf|
  }

  /** Deleted entries (inode 0) are dropped. */
  function Kept(d: Dirent): seq<Dirent> {
    if d.ino != 0 then [d] else []
  }

  function Parse(buf: seq<Byte>): seq<Dirent>
    decreases |buf|
  {
    if HasRecord(buf) then Kept(Record(buf)) + Parse(buf[Reclen(buf)..]) else []
  }

  /** One round of the loop: the record at `cur`, if a whole one is there. */
  method RecordAt(buf: seq<Byte>, cur: nat) returns (ok: bool, reclen: nat, d: Dirent)
    requires cur + HEADER <= |buf|
    ensures ok == HasRecord(buf[cur..])
    ensures ok ==> reclen == Reclen(buf[cur..]) && d == Record(buf[cur..])
  {
    ghost var rest := buf[cur..];
    assert rest[..8] == buf[cur..cur + 8];
    assert rest[8..16] == buf[cur + 8..cur + 16];
    assert rest[16..18] == buf[cur + 16..cur + 18];
    var ino := Le(buf[cur..cur + 8]);
    var off := Signed(Le(buf[cur + 8..cur + 16]), HALF64);
    reclen := Le(buf[cur + 16..cur + 18]);
    d := Dirent(ino, off, buf[cur + 18], []);
    ok := !(reclen < HEADER || cur + reclen > |buf|);
    if ok {
      assert rest[HEADER..reclen] == buf[cur + HEADER..cur + reclen];
      var name := CutAtNul(buf[cur + HEADER..cur + reclen]);
      d := Dirent(ino, off, buf[cur + 18], name);
    }
  }

  function Keep(entries: seq<Dirent>, d: Dirent): seq<Dirent> {
    if d.ino != 0 then entries + [d] else entries
  }

  /** The parse of what is left, appended to what has been found: what a loop that
      goes on from here returns. */
  function ParseOnto(entries: seq<Dirent>, rest: seq<Byte>): seq<Dirent>
    decreases |rest|
  {
    if HasRecord(rest) then ParseOnto(Keep(entries, Record(rest)), rest[Reclen(rest)..]) else entries
  }

  method ParseDirent64(buf: seq<Byte>) returns (entries: seq<Dirent>)
    ensures entries == Parse(buf)
  {
    entries := [];
    var cur := 0;
    assert buf[0..] == buf;
    while cur + HEADER <= |buf|
      invariant 0 <= cur <= |buf|
      invariant ParseOnto(entries, buf[cur..]) == ParseOnto([], buf)
    {
      var ok, reclen, d := RecordAt(buf, cur);
      if !ok {
        break;
      }
      assert buf[cur..][reclen..] == buf[cur + reclen..];
      if d.ino != 0 {
        entries := entries + [d];
      }
      cur := cur + reclen;
    }
    OntoIsAppend([], buf);
  }

  lemma {:induction false} OntoIsAppend(entries: seq<Dirent>, rest: seq<Byte>)
    ensures ParseOnto(entries, rest) == entries + Parse(rest)
    decreases |rest|
  {
    if !HasRecord(rest) {
    } else {
      var d, more := Record(rest), rest[Reclen(rest)..];
      OntoIsAppend(Keep(entries, d), more);
      assert Keep(entries, d) == entries + Kept(d);
      Regroup(entries, Kept(d), Parse(more));
    }
  }

  // ---------- Round trip ----------

  /** A record as the kernel may write it: a NUL-free name, then nothing or padding
      that starts with NUL, all within a 16-bit record length. */
  predicate Writable(d: Dirent, pad: seq<Byte>) {
    && d.ino < 2 * HALF64 && -HALF64 <= d.off < HALF64
    && 0 !in d.name && (pad == [] || pad[0] == 0)
    && HEADER + |d.name| + |pad| < 0x1_0000
  }

  function Encode(d: Dirent, pad: seq<Byte>): seq<Byte>
    requires Writable(d, pad)
  {
    ToLe(d.ino, 8) + ToLe(Unsigned(d.off, HALF64), 8) + ToLe(HEADER + |d.name| + |pad|, 2) + [d.kind] + d.name + pad
  }

  /** Where the fields of a record lie. */
  lemma Fields(a: seq<Byte>, b: seq<Byte>, c: seq<Byte>, k: Byte, name: seq<Byte>, pad: seq<Byte>, rest: seq<Byte>)
    requires |a| == 8 && |b| == 8 && |c| == 2
    ensures var buf := a + b + c + [k] + name + pad + rest;
      var n := HEADER + |name| + |pad|;
      && |buf| == n + |rest|
      && buf[..8] == a && buf[8..16] == b && buf[16..18] == c && buf[18] == k
      && buf[HEADER..n] == name + pad && buf[n..] == rest
  {
  }

  lemma EncodedRecord(d: Dirent, pad: seq<Byte>, rest: seq<Byte>)
    requires Writable(d, pad)
    ensures var buf := Encode(d, pad) + rest;
      HasRecord(buf) && Record(buf) == d && buf[Reclen(buf)..] == rest && Reclen(buf) == |Encode(d, pad)|
  {
    PowersOf256();
    var a, b := ToLe(d.ino, 8), ToLe(Unsigned(d.off, HALF64), 8);
    var n := HEADER + |d.name| + |pad|;
    var c := ToLe(n, 2);
    LeInvertsToLe(d.ino, 8);
    LeInvertsToLe(Unsigned(d.off, HALF64), 8);
    LeInvertsToLe(n, 2);
    Fields(a, b, c, d.kind, d.name, pad, rest);
    UntilNulOfPadded(d.name, pad);
  }

  function EncodeAll(ds: seq<Dirent>, pads: seq<seq<Byte>>): seq<Byte>
    requires |ds| == |pads| && forall i | 0 <= i < |ds| :: Writable(ds[i], pads[i])
  {
    if ds == [] then [] else Encode(ds[0], pads[0]) + EncodeAll(ds[1..], pads[1..])
  }

  function Present(ds: seq<Dirent>): seq<Dirent> {
    if ds == [] then [] else Kept(ds[0]) + Present(ds[1..])
  }

  /** Parsing undoes encoding: the result is the records with a non-zero inode, in
      order, whatever the padding. */
  lemma {:induction false} ParseInvertsEncode(ds: seq<Dirent>, pads: seq<seq<Byte>>)
    requires |ds| == |pads| && forall i | 0 <= i < |ds| :: Writable(ds[i], pads[i])
    ensures Parse(EncodeAll(ds, pads)) == Present(ds)
    ensures WholeRecords(EncodeAll(ds, pads))
  {
    if ds == [] {
    } else {
      EncodedRecord(ds[0], pads[0], EncodeAll(ds[1..], pads[1..]));
      ParseInvertsEncode(ds[1..], pads[1..]);
    }
  }

  // ---------- Chunks and truncation ----------

  /** The buffer ends where a record ends. */
  predicate WholeRecords(buf: seq<Byte>)
    decreases |buf|
  {
    buf == [] || (HasRecord(buf) && WholeRecords(buf[Reclen(buf)..]))
  }

  lemma RecordOfLonger(a: seq<Byte>, b: seq<Byte>)
    requires HasRecord(a)
    ensures HasRecord(a + b) && Record(a + b) == Record(a) && Reclen(a + b) == Reclen(a)
    ensures (a + b)[Reclen(a)..] == a[Reclen(a)..] + b
  {
    assert (a + b)[16..18] == a[16..18];
    assert (a + b)[..8] == a[..8];
    assert (a + b)[8..16] == a[8..16];
    assert (a + b)[HEADER..Reclen(a)] == a[HEADER..Reclen(a)];
  }

  lemma {:induction false} ParseOfConcat(a: seq<Byte>, b: seq<Byte>)
    requires WholeRecords(a)
    ensures Parse(a + b) == Parse(a) + Parse(b)
    decreases |a|
  {
    if a == [] {
      assert a + b == b;
    } else {
      RecordOfLonger(a, b);
      var rest := a[Reclen(a)..];
      ParseOfConcat(rest, b);
      Regroup(Kept(Record(a)), Parse(rest), Parse(b));
    }
  }

  lemma {:induction false} WholeConcat(a: seq<Byte>, b: seq<Byte>)
    requires WholeRecords(a) && WholeRecords(b)
    ensures WholeRecords(a + b)
    decreases |a|
  {
    if a == [] {
      assert a + b == b;
    } else {
      RecordOfLonger(a, b);
      WholeConcat(a[Reclen(a)..], b);
    }
  }

  /** Whatever the bytes are, parsing a truncated buffer gives a prefix of what
      parsing the whole of it gives. */
  lemma {:induction false} TruncationGivesPrefix(a: seq<Byte>, b: seq<Byte>)
    ensures Parse(a) <= Parse(a + b)
    decreases |a|
  {
    if !HasRecord(a) {
    } else {
      RecordOfLonger(a, b);
      TruncationGivesPrefix(a[Reclen(a)..], b);
    }
  }

  /** What successive getdents64 calls return: bytes, or an error. */
  datatype Chunk = Data(bytes: seq<Byte>) | Fails(errno: int)

  function Concat(chunks: seq<Chunk>): seq<Byte> {
    if chunks == [] then []
    else (if chunks[0].Data? then chunks[0].bytes else []) + Concat(chunks[1..])
  }

  /** How many chunks come before the first error or empty one. */
  function Leading(chunks: seq<Chunk>): (n: nat)
    ensures n <= |chunks|
    ensures forall i | 0 <= i < n :: chunks[i].Data? && chunks[i].bytes != []
    ensures n < |chunks| ==> chunks[n].Fails? || chunks[n] == Data([])
  {
    if chunks != [] && chunks[0].Data? && chunks[0].bytes != [] then 1 + Leading(chunks[1..]) else 0
  }

  /** ReadDir over the chunks the kernel delivers; an empty one, or having seen them
      all, is the end. If every call up to there succeeds the result is one parse of
      all the bytes, so it does not depend on where the kernel cut between records;
      if one fails first, its error is the result and no entry is. */
  method ReadDir(chunks: seq<Chunk>) returns (e: int, entries: seq<Dirent>)
    requires forall i | 0 <= i < |chunks| && chunks[i].Data? :: WholeRecords(chunks[i].bytes)
    ensures var n := Leading(chunks);
      if n < |chunks| && chunks[n].Fails? then e == chunks[n].errno && entries == []
      else e == 0 && entries == Parse(Concat(chunks[..n]))
  {
    entries := [];
    var i := 0;
    while i < |chunks| && chunks[i].Data? && chunks[i].bytes != []
      invariant 0 <= i <= Leading(chunks)
      invariant WholeRecords(Concat(chunks[..i])) && entries == Parse(Concat(chunks[..i]))
    {
      var more := ParseDirent64(chunks[i].bytes);
      OneMoreChunk(chunks, i);
      entries := entries + more;
      i := i + 1;
    }
    if i < |chunks| && chunks[i].Fails? {
      return chunks[i].errno, [];
    }
    e := 0;
  }

  lemma OneMoreChunk(chunks: seq<Chunk>, i: nat)
    requires i < |chunks| && chunks[i].Data? && WholeRecords(chunks[i].bytes) && WholeRecords(Concat(chunks[..i]))
    ensures WholeRecords(Concat(chunks[..i + 1]))
    ensures Parse(Concat(chunks[..i + 1])) == Parse(Concat(chunks[..i])) + Parse(chunks[i].bytes)
  {
    ConcatOneMore(chunks, i);
    ParseOfConcat(Concat(chunks[..i]), chunks[i].bytes);
    WholeConcat(Concat(chunks[..i]), chunks[i].bytes);
  }

  lemma {:induction false} ConcatOneMore(chunks: seq<Chunk>, i: nat)
    requires i < |chunks| && chunks[i].Data?
    ensures Concat(chunks[..i + 1]) == Concat(chunks[..i]) + chunks[i].bytes
  {
    if i == 0 {
      assert chunks[..1][1..] == [] && chunks[..0] == [];
      assert Concat(chunks[..1]) == chunks[0].bytes + Concat([]);
    } else {
      ConcatOneMore(chunks[1..], i - 1);
      assert chunks[..i + 1][1..] == chunks[1..][..i];
      assert chunks[..i][1..] == chunks[1..][..i - 1];
    }
  }
}
