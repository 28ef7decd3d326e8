/**
 The sentinel framing used between the test driver and its fish REPL
 (virtualfish/test/repl.py).

 A frame is every byte a stream carries before the next 0x00 byte. The driver's
 frame reader (`q_until_null`) takes items off a queue fed by a read pump and
 accumulates them until it sees the one-byte item `b'\0'`. Here a queue is an
 already-materialised sequence, and reading a frame returns the frame together
 with what is left of the queue.
 */
module Frames {

  /** One byte of a pipe between the driver and the child process. */
  type byte = bv8

  /** The frame terminator. */
  const Sentinel: byte := 0

  /** Reading one frame off a byte stream. */
  datatype FrameRead =
    | Frame(payload: seq<byte>, rest: seq<byte>)
      /** The stream never carries a sentinel: the blocking read waits forever. */
    | Pending

  /** The frame at the head of `q`: the bytes before the first sentinel,
      and the stream after that sentinel. */
  function ReadFrame(q: seq<byte>): (r: FrameRead)
    ensures r.Pending? <==> Sentinel !in q
    ensures r.Frame? ==> Sentinel !in r.payload && q == r.payload + [Sentinel] + r.rest
    ensures r.Frame? ==> |q| - |r.rest| == |r.payload| + 1
    decreases |q|
  {
    if |q| == 0 then Pending
    else if q[0] == Sentinel then
      assert q == [] + [Sentinel] + q[1..];
      Frame([], q[1..])
    else
      match ReadFrame(q[1..])
      case Pending => Pending
      case Frame(p, rest) =>
        assert q == [q[0]] + q[1..];
        Associative([q[0]], p + [Sentinel], rest);
        Associative([q[0]], p, [Sentinel]);
        Frame([q[0]] + p, rest)
  }

  lemma Associative<T>(a: seq<T>, b: seq<T>, c: seq<T>)
    ensures a + (b + c) == a + b + c
  {
  }

  /** In a payload, the sentinel and a rest, the first sentinel is the one after the payload. */
  lemma SentinelAfterPayload(p: seq<byte>, rest: seq<byte>)
    requires Sentinel !in p
    ensures (p + [Sentinel] + rest)[|p|] == Sentinel
    ensures forall i :: 0 <= i < |p| ==> (p + [Sentinel] + rest)[i] != Sentinel
  {
    forall i | 0 <= i < |p|
      ensures (p + [Sentinel] + rest)[i] != Sentinel
    {
      assert (p + [Sentinel] + rest)[i] == p[i];
    }
  }

  /** A stream splits at most one way into a sentinel-free frame, the sentinel and a rest. */
  lemma SplitUnique(p1: seq<byte>, rest1: seq<byte>, p2: seq<byte>, rest2: seq<byte>)
    requires Sentinel !in p1 && Sentinel !in p2
    requires p1 + [Sentinel] + rest1 == p2 + [Sentinel] + rest2
    ensures p1 == p2 && rest1 == rest2
  {
    var q := p1 + [Sentinel] + rest1;
    SentinelAfterPayload(p1, rest1);
    SentinelAfterPayload(p2, rest2);
    assert |p1| == |p2|;
    assert p1 == q[..|p1|] == p2;
    assert rest1 == q[|p1| + 1..] == rest2;
  }

  /** Round trip: a sentinel-free payload followed by the sentinel is read back
      as exactly that payload, and exactly the bytes after the sentinel remain. */
  lemma {:induction false} FrameRoundTrip(p: seq<byte>, rest: seq<byte>)
    requires Sentinel !in p
    ensures ReadFrame(p + [Sentinel] + rest) == Frame(p, rest)
  {
    var q := p + [Sentinel] + rest;
    assert q[|p|] == Sentinel;
    var r := ReadFrame(q);
    SplitUnique(r.payload, r.rest, p, rest);
  }

  /** Reading a frame is exactly splitting at the first sentinel, in both directions. */
  lemma ReadFrameCharacterised(q: seq<byte>, p: seq<byte>, rest: seq<byte>)
    ensures ReadFrame(q) == Frame(p, rest) <==> Sentinel !in p && q == p + [Sentinel] + rest
  {
    if Sentinel !in p && q == p + [Sentinel] + rest {
      FrameRoundTrip(p, rest);
    }
  }

  /** A stream that starts with the sentinel holds an empty frame, and reading it
      consumes that one byte. */
  lemma EmptyFrame(q: seq<byte>)
    requires |q| > 0 && q[0] == Sentinel
    ensures ReadFrame(q) == Frame([], q[1..])
  {
    assert q == [] + [Sentinel] + q[1..];
    FrameRoundTrip([], q[1..]);
  }

  /** Every complete frame of `q`, in order; bytes after the last sentinel are
      not yet a frame. This is how the REPL side splits what the driver writes. */
  function SplitFrames(q: seq<byte>): seq<seq<byte>>
    decreases |q|
  {
    match ReadFrame(q)
    case Pending => []
    case Frame(p, rest) => [p] + SplitFrames(rest)
  }

  /** The encoding of a sequence of payloads: each one followed by a sentinel. */
  function Terminate(ps: seq<seq<byte>>): seq<byte> {
    if |ps| == 0 then [] else ps[0] + [Sentinel] + Terminate(ps[1..])
  }

  /** Sentinel-free payloads survive encoding and splitting unchanged. */
  lemma {:induction false} SplitTerminate(ps: seq<seq<byte>>)
    requires forall i :: 0 <= i < |ps| ==> Sentinel !in ps[i]
    ensures SplitFrames(Terminate(ps)) == ps
    decreases |ps|
  {
    if |ps| > 0 {
      var w, tail := Terminate(ps), Terminate(ps[1..]);
      assert ReadFrame(w) == Frame(ps[0], tail) by {
        FrameRoundTrip(ps[0], tail);
      }
      assert SplitFrames(tail) == ps[1..] by {
        assert forall i :: 0 <= i < |ps[1..]| ==> ps[1..][i] == ps[i + 1];
        SplitTerminate(ps[1..]);
      }
      assert SplitFrames(w) == [ps[0]] + SplitFrames(tail);
      assert [ps[0]] + ps[1..] == ps;
    }
  }

  // ---------------------------------------------------------------------------
  // The queue as the read pump fills it, and the reader's loop over its items.
  // ---------------------------------------------------------------------------

  /** One queue item: the bytes returned by one `read(1)` call. */
  type Chunk = seq<byte>

  /** What `read(1)` returns once the stream has ended. */
  const EndOfStream: Chunk := []

  /** The queue a read pump fills from stream contents `s`: one one-byte chunk per byte. */
  function Pump(s: seq<byte>): (q: seq<Chunk>)
    ensures |q| == |s|
    ensures forall i :: 0 <= i < |s| ==> q[i] == [s[i]]
  {
    seq(|s|, i requires 0 <= i < |s| => [s[i]])
  }

  /** An item the reader appends to its frame: non-empty and not the sentinel chunk. */
  predicate Ordinary(c: Chunk) {
    |c| > 0 && c != [Sentinel]
  }

  /** The first byte of each chunk. */
  function Heads(cs: seq<Chunk>): (h: seq<byte>)
    requires forall i :: 0 <= i < |cs| ==> |cs[i]| > 0
    ensures |h| == |cs|
    ensures forall i :: 0 <= i < |cs| ==> h[i] == cs[i][0]
  {
    seq(|cs|, i requires 0 <= i < |cs| && |cs[i]| > 0 => cs[i][0])
  }

  /** The position of the first item the reader does not simply append. */
  function FirstStop(q: seq<Chunk>): (k: nat)
    ensures k <= |q|
    ensures forall j :: 0 <= j < k ==> Ordinary(q[j])
    ensures k < |q| ==> !Ordinary(q[k])
    decreases |q|
  {
    if |q| == 0 || !Ordinary(q[0]) then 0 else 1 + FirstStop(q[1..])
  }

  /** The position of the first non-ordinary item is the only one with that property. */
  lemma FirstStopIs(q: seq<Chunk>, k: nat)
    requires k <= |q|
    requires forall j :: 0 <= j < k ==> Ordinary(q[j])
    requires k < |q| ==> !Ordinary(q[k])
    ensures FirstStop(q) == k
  {
  }

  /** How one call of the reader ends on a queue of chunks. */
  datatype ChunkRead =
    | ChunkFrame(payload: seq<byte>, rest: seq<Chunk>)
      /** The queue runs dry before a sentinel chunk: `get()` waits forever. */
    | Starved
      /** An empty chunk was taken: indexing it with `c[0]` raises IndexError. */
    | IndexError

  /** The outcome of the reader on `q`, stated through the first item it stops at. */
  function ChunkOutcome(q: seq<Chunk>): ChunkRead {
    var k := FirstStop(q);
    if k == |q| then Starved
    else if |q[k]| == 0 then IndexError
    else ChunkFrame(Heads(q[..k]), q[k + 1..])
  }

  /** The frame reader: takes chunks until it sees the one-byte sentinel chunk,
      appending the first byte of every other chunk. */
  method QUntilNull(q: seq<Chunk>) returns (r: ChunkRead)
    ensures r == ChunkOutcome(q)
    ensures r.ChunkFrame? ==> |r.rest| < |q| && q[|q| - |r.rest| - 1] == [Sentinel]
  {
    var ba: seq<byte> := [];
    var i := 0;
    while i < |q|
      invariant 0 <= i <= |q|
      invariant forall j :: 0 <= j < i ==> Ordinary(q[j])
      invariant ba == Heads(q[..i])
    {
      var c := q[i];
      if c == [Sentinel] {
        FirstStopIs(q, i);
        return ChunkFrame(ba, q[i + 1..]);
      }
      if |c| == 0 {
        FirstStopIs(q, i);
        return IndexError;
      }
      ba := ba + [c[0]];
      i := i + 1;
    }
    FirstStopIs(q, i);
    return Starved;
  }

  /** Pumping a concatenation queues the chunks of each part in turn. */
  lemma PumpAppend(a: seq<byte>, b: seq<byte>)
    ensures Pump(a + b) == Pump(a) + Pump(b)
  {
    assert forall i :: 0 <= i < |a| ==> (a + b)[i] == a[i];
    assert forall i :: |a| <= i < |a| + |b| ==> (a + b)[i] == b[i - |a|];
  }

  /** A pumped sentinel-free payload followed by the sentinel chunk is read as that payload. */
  lemma PumpedPayload(p: seq<byte>, t: seq<Chunk>)
    requires Sentinel !in p
    ensures ChunkOutcome(Pump(p) + [[Sentinel]] + t) == ChunkFrame(p, t)
  {
    var q := Pump(p) + [[Sentinel]] + t;
    var k := |p|;
    forall j | 0 <= j < k
      ensures Ordinary(q[j])
    {
      assert q[j] == [p[j]];
    }
    assert q[k] == [Sentinel];
    FirstStopIs(q, k);
    assert q[..k] == Pump(p);
    assert q[k + 1..] == t;
  }

  /** On the read pump's queue, the reader returns exactly the byte-level frame,
      and leaves the pump's chunks for exactly the remaining bytes. */
  lemma PumpFrame(s: seq<byte>, tail: seq<Chunk>)
    requires ReadFrame(s).Frame?
    ensures ChunkOutcome(Pump(s) + tail)
         == ChunkFrame(ReadFrame(s).payload, Pump(ReadFrame(s).rest) + tail)
  {
    var p, rest := ReadFrame(s).payload, ReadFrame(s).rest;
    assert s == p + [Sentinel] + rest;
    var t := Pump(rest) + tail;
    assert Pump(s) + tail == Pump(p) + [[Sentinel]] + t by {
      PumpAppend(p, [Sentinel]);
      PumpAppend(p + [Sentinel], rest);
      assert Pump([Sentinel]) == [[Sentinel]];
      assert Pump(s) == (Pump(p) + [[Sentinel]]) + Pump(rest);
      Associative(Pump(p) + [[Sentinel]], Pump(rest), tail);
    }
    PumpedPayload(p, t);
  }

  /** When the stream ends before a sentinel, the reader hits the empty chunk that
      `read(1)` returns at end of stream and fails; with no end in sight it starves. */
  lemma PumpNoSentinel(s: seq<byte>)
    requires ReadFrame(s).Pending?
    ensures ChunkOutcome(Pump(s) + [EndOfStream]) == IndexError
    ensures ChunkOutcome(Pump(s)) == Starved
  {
    var q := Pump(s) + [EndOfStream];
    forall j | 0 <= j < |s|
      ensures Ordinary(q[j]) && Ordinary(Pump(s)[j])
    {
      assert q[j] == [s[j]];
      assert s[j] != Sentinel;
    }
    FirstStopIs(q, |s|);
    FirstStopIs(Pump(s), |s|);
  }
}
