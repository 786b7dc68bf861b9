/** inotify_event records, as inotify(7) describes them. */
module Inotify {
  import opened Bytes

  datatype Event = Event(wd: int, mask: nat, cookie: nat, name: seq<Byte>)

  const HEADER := 16
  const HALF32: int := 0x8000_0000

  function NameLen(buf: seq<Byte>): nat
    requires |buf| >= HEADER
  {
    Le(buf[12..16])
  }

  predicate HasEvent(buf: seq<Byte>) {
    |buf| >= HEADER && HEADER + NameLen(buf) <= |buf|
  }

  function First(buf: seq<Byte>): Event
    requires HasEvent(buf)
  {
    Event(Signed(Le(buf[..4]), HALF32), Le(buf[4..8]), Le(buf[8..12]), UntilNul(buf[HEADER..HEADER + NameLen(buf)]))
  }

  function Parse(buf: seq<Byte>): seq<Event>
    decreases |buf|
  {
    if HasEvent(buf) then [First(buf)] + Parse(buf[HEADER + NameLen(buf)..]) else []
  }

  /** One round of the loop: the event at `cur`, if a whole one is there. */
  method EventAt(buf: seq<Byte>, cur: nat) returns (ok: bool, length: nat, e: Event)
    requires cur + HEADER <= |buf|
    ensures ok == HasEvent(buf[cur..])
    ensures ok ==> length == NameLen(buf[cur..]) && e == First(buf[cur..])
  {
    ghost var rest := buf[cur..];
    assert rest[..4] == buf[cur..cur + 4];
    assert rest[4..8] == buf[cur + 4..cur + 8];
    assert rest[8..12] == buf[cur + 8..cur + 12];
    assert rest[12..16] == buf[cur + 12..cur + 16];
    var wd := Signed(Le(buf[cur..cur + 4]), HALF32);
    var mask := Le(buf[cur + 4..cur + 8]);
    var cookie := Le(buf[cur + 8..cur + 12]);
    length := Le(buf[cur + 12..cur + 16]);
    ok := cur + HEADER + length <= |buf|;
    var name := [];
    if ok {
      assert rest[HEADER..HEADER + length] == buf[cur + HEADER..cur + HEADER + length];
      if length > 0 {
        name := CutAtNul(buf[cur + HEADER..cur + HEADER + length]);
      }
    }
    e := Event(wd, mask, cookie, name);
  }

  /** The parse of what is left, appended to what has been found: what a loop that
      goes on from here returns. */
  function ParseOnto(events: seq<Event>, rest: seq<Byte>): seq<Event>
    decreases |rest|
  {
    if HasEvent(rest) then ParseOnto(events + [First(rest)], rest[HEADER + NameLen(rest)..]) else events
  }

  method ParseInotifyEvents(buf: seq<Byte>) returns (events: seq<Event>)
    ensures events == Parse(buf)
  {
    events := [];
    var cur := 0;
    assert buf[0..] == buf;
    while cur + HEADER <= |buf|
      invariant 0 <= cur <= |buf|
      invariant ParseOnto(events, buf[cur..]) == ParseOnto([], buf)
    {
      var ok, length, e := EventAt(buf, cur);
      if !ok {
        break;
      }
      assert buf[cur..][HEADER + length..] == buf[cur + HEADER + length..];
      events := events + [e];
      cur := cur + HEADER + length;
    }
    OntoIsAppend([], buf);
  }

  lemma {:induction false} OntoIsAppend(events: seq<Event>, rest: seq<Byte>)
    ensures ParseOnto(events, rest) == events + Parse(rest)
    decreases |rest|
  {
    if !HasEvent(rest) {
    } else {
      var e, more := First(rest), rest[HEADER + NameLen(rest)..];
      OntoIsAppend(events + [e], more);
      Regroup(events, [e], Parse(more));
    }
  }

  predicate Writable(e: Event, pad: seq<Byte>) {
    && -HALF32 <= e.wd < HALF32 && e.mask < 2 * HALF32 && e.cookie < 2 * HALF32
    && 0 !in e.name && (pad == [] || pad[0] == 0)
    && |e.name| + |pad| < 2 * HALF32
  }

  function Encode(e: Event, pad: seq<Byte>): seq<Byte>
    requires Writable(e, pad)
  {
    ToLe(Unsigned(e.wd, HALF32), 4) + ToLe(e.mask, 4) + ToLe(e.cookie, 4) + ToLe(|e.name| + |pad|, 4) + e.name + pad
  }

  /** Where the fields of an event lie. */
  lemma Fields(a: seq<Byte>, b: seq<Byte>, c: seq<Byte>, d: seq<Byte>, name: seq<Byte>, pad: seq<Byte>, rest: seq<Byte>)
    requires |a| == 4 && |b| == 4 && |c| == 4 && |d| == 4
    ensures var buf := a + b + c + d + name + pad + rest;
      var n := HEADER + |name| + |pad|;
      && |buf| == n + |rest|
      && buf[..4] == a && buf[4..8] == b && buf[8..12] == c && buf[12..16] == d
      && buf[HEADER..n] == name + pad && buf[n..] == rest
  {
  }

  lemma EncodedEvent(e: Event, pad: seq<Byte>, rest: seq<Byte>)
    requires Writable(e, pad)
    ensures var buf := Encode(e, pad) + rest;
      HasEvent(buf) && First(buf) == e && buf[HEADER + NameLen(buf)..] == rest
  {
    PowersOf256();
    var n := |e.name| + |pad|;
    var a, b, c, d := ToLe(Unsigned(e.wd, HALF32), 4), ToLe(e.mask, 4), ToLe(e.cookie, 4), ToLe(n, 4);
    LeInvertsToLe(Unsigned(e.wd, HALF32), 4);
    LeInvertsToLe(e.mask, 4);
    LeInvertsToLe(e.cookie, 4);
    LeInvertsToLe(n, 4);
    Fields(a, b, c, d, e.name, pad, rest);
    UntilNulOfPadded(e.name, pad);
  }

  function EncodeAll(es: seq<Event>, pads: seq<seq<Byte>>): seq<Byte>
    requires |es| == |pads| && forall i | 0 <= i < |es| :: Writable(es[i], pads[i])
  {
    if es == [] then [] else Encode(es[0], pads[0]) + EncodeAll(es[1..], pads[1..])
  }

  /** Parsing undoes encoding, whatever the padding. */
  lemma {:induction false} ParseInvertsEncode(es: seq<Event>, pads: seq<seq<Byte>>)
    requires |es| == |pads| && forall i | 0 <= i < |es| :: Writable(es[i], pads[i])
    ensures Parse(EncodeAll(es, pads)) == es
  {
    if es == [] {
    } else {
      EncodedEvent(es[0], pads[0], EncodeAll(es[1..], pads[1..]));
      ParseInvertsEncode(es[1..], pads[1..]);
    }
  }

  /** Whatever the bytes are, parsing a truncated buffer gives a prefix of what
      parsing the whole of it gives. */
  lemma {:induction false} TruncationGivesPrefix(a: seq<Byte>, b: seq<Byte>)
    ensures Parse(a) <= Parse(a + b)
    decreases |a|
  {
    if !HasEvent(a) {
    } else {
      var n := NameLen(a);
      assert (a + b)[..4] == a[..4];
      assert (a + b)[4..8] == a[4..8];
      assert (a + b)[8..12] == a[8..12];
      assert (a + b)[12..16] == a[12..16];
      assert (a + b)[HEADER..HEADER + n] == a[HEADER..HEADER + n];
      assert (a + b)[HEADER + n..] == a[HEADER + n..] + b;
      TruncationGivesPrefix(a[HEADER + n..], b);
    }
  }
}
