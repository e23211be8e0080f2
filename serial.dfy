/** The serial port as an abstract byte channel: everything the device
    will send is a fixed sequence read through a cursor, and everything
    the host does to the port (writes, flushes, reads, settling delays)
    is appended to a trace in order. */
module Serial {
  import opened Bytes

  datatype Event =
    | Wrote(data: seq<byte>)
    | Flushed
    | Got(data: seq<byte>)
    | Slept(ms: nat)

  /** All bytes written, in order. */
  function Sent(t: seq<Event>): (s: seq<byte>)
  {
    if t == [] then []
    else Sent(t[..|t| - 1]) + (if t[|t| - 1].Wrote? then t[|t| - 1].data else [])
  }

  /** `after` extends `before` by events that write nothing. */
  predicate ReadsOnly(before: seq<Event>, after: seq<Event>)
    decreases |after|
  {
    after == before ||
    (|after| > |before| && !after[|after| - 1].Wrote? && ReadsOnly(before, after[..|after| - 1]))
  }

  /** `after` extends `before` by writing `frame`, flushing it, and then
      only reading or waiting: the frame goes out before any reply is read. */
  predicate FrameThenReads(before: seq<Event>, after: seq<Event>, frame: seq<byte>) {
    ReadsOnly(before + [Wrote(frame), Flushed], after)
  }

  /** A read-only extension keeps everything that was there. */
  lemma {:induction false} ReadsOnlyExtends(before: seq<Event>, after: seq<Event>)
    requires ReadsOnly(before, after)
    ensures |before| <= |after| && after[..|before|] == before
    decreases |after|
  {
    if after != before {
      var init := after[..|after| - 1];
      ReadsOnlyExtends(before, init);
      assert after[..|before|] == init[..|before|];
    }
  }

  /** Events that write nothing add nothing to the bytes sent. */
  lemma {:induction false} SentReadsOnly(before: seq<Event>, after: seq<Event>)
    requires ReadsOnly(before, after)
    ensures Sent(after) == Sent(before)
    decreases |after|
  {
    if after != before {
      SentReadsOnly(before, after[..|after| - 1]);
    }
  }

  /** The bytes sent over a frame-then-reads stretch are the frame. */
  lemma SentFrameThenReads(before: seq<Event>, after: seq<Event>, frame: seq<byte>)
    requires FrameThenReads(before, after, frame)
    ensures Sent(after) == Sent(before) + frame
  {
    var mid := before + [Wrote(frame), Flushed];
    SentReadsOnly(mid, after);
    assert mid[..|mid| - 1] == before + [Wrote(frame)];
    assert (before + [Wrote(frame)])[..|before|] == before;
  }

  /** Extending a trace by read-only events is transitive. */
  lemma {:induction false} ReadsOnlyTrans(a: seq<Event>, b: seq<Event>, c: seq<Event>)
    requires ReadsOnly(a, b) && ReadsOnly(b, c)
    ensures ReadsOnly(a, c)
    decreases |c|
  {
    if c != b {
      ReadsOnlyExtends(a, b);
      ReadsOnlyTrans(a, b, c[..|c| - 1]);
    }
  }

  /** One more read-only event keeps the trace read-only. */
  lemma ReadsOnlySnoc(a: seq<Event>, b: seq<Event>, e: Event)
    requires ReadsOnly(a, b) && !e.Wrote?
    ensures ReadsOnly(a, b + [e])
  {
    ReadsOnlyExtends(a, b);
    assert (b + [e])[..|b|] == b;
  }

  class Port {
    /** Every byte the device sends during the session, in order. */
    const input: seq<byte>
    /** How many of them the host has read. */
    var cursor: nat
    /** What the host did to the port, in order. */
    var trace: seq<Event>

    /** The cursor stays inside the input. */
    ghost predicate Valid()
      reads this
    {
      cursor <= |input|
    }

    constructor (input: seq<byte>)
      ensures Valid() && this.input == input && cursor == 0 && trace == []
    {
      this.input := input;
      cursor := 0;
      trace := [];
    }

    /** `write(data)` */
    method Write(data: seq<byte>)
      requires Valid()
      modifies this
      ensures Valid() && cursor == old(cursor) && trace == old(trace) + [Wrote(data)]
    {
      trace := trace + [Wrote(data)];
    }

    /** `flush()` */
    method Flush()
      requires Valid()
      modifies this
      ensures Valid() && cursor == old(cursor) && trace == old(trace) + [Flushed]
    {
      trace := trace + [Flushed];
    }

    /** `time.sleep(ms / 1000)`: recorded so that its place among the
        frames is visible, with no other effect. */
    method Sleep(ms: nat)
      requires Valid()
      modifies this
      ensures Valid() && cursor == old(cursor) && trace == old(trace) + [Slept(ms)]
    {
      trace := trace + [Slept(ms)];
    }

    /** `inWaiting()`: the bytes that have arrived and are not yet read. */
    method InWaiting() returns (n: nat)
      requires Valid()
      ensures n == |input| - cursor
    {
      n := |input| - cursor;
    }

    /** `read(n)`: blocks until `n` bytes have arrived. When the input
        holds fewer, the rest is taken and None stands for the read that
        never returns. */
    method Read(n: nat) returns (r: Option<seq<byte>>)
      requires Valid()
      modifies this
      ensures Valid()
      ensures old(cursor) + n <= |input| ==>
                r == Some(input[old(cursor)..old(cursor) + n]) && cursor == old(cursor) + n
      ensures old(cursor) + n > |input| ==> r == None && cursor == |input|
      ensures trace == old(trace) + [Got(input[old(cursor)..cursor])]
    {
      var c := cursor;
      if c + n <= |input| {
        cursor := c + n;
        r := Some(input[c..cursor]);
      } else {
        cursor := |input|;
        r := None;
      }
      trace := trace + [Got(input[c..cursor])];
    }
  }
}
