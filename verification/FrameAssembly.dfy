/** The HTTP/2 connection's frame assembly: frames (section 4.1 of RFC 7540) cut out of a byte stream that
    arrives in arbitrary pieces, one frame to a pass, the next pass by recursion. */
module FrameAssembly {
  import opened Octets

  const HEADER_LEN: nat := 9

  /** A frame: its nine header octets and its payload. */
  datatype Frame = Frame(header: Bytes, payload: Bytes)

  /** The 24-bit length, most significant octet first. */
  function PayloadLength(header: Bytes): nat
    requires |header| >= 3
  {
    header[0] as nat * 65536 + header[1] as nat * 256 + header[2] as nat
  }

  function FrameOctets(f: Frame): Bytes {
    f.header + f.payload
  }

  // ---- Section 4.1 of RFC 7540: the frames at the front of a byte string ----

  predicate Complete(b: Bytes) {
    |b| >= HEADER_LEN && |b| >= HEADER_LEN + PayloadLength(b)
  }

  function First(b: Bytes): Frame
    requires Complete(b)
  {
    Frame(b[..HEADER_LEN], b[HEADER_LEN..HEADER_LEN + PayloadLength(b)])
  }

  function AfterFirst(b: Bytes): (r: Bytes)
    requires Complete(b)
    ensures |r| < |b|
  {
    b[HEADER_LEN + PayloadLength(b)..]
  }

  function Frames(b: Bytes): seq<Frame>
    decreases |b|
  {
    if Complete(b) then [First(b)] + Frames(AfterFirst(b)) else []
  }

  function Leftover(b: Bytes): (r: Bytes)
    ensures !Complete(r)
    decreases |b|
  {
    if Complete(b) then Leftover(AfterFirst(b)) else b
  }

  lemma FramesOnce(b: Bytes)
    ensures Complete(b) ==> Frames(b) == [First(b)] + Frames(AfterFirst(b)) && Leftover(b) == Leftover(AfterFirst(b))
    ensures !Complete(b) ==> Frames(b) == [] && Leftover(b) == b
    ensures |b| < HEADER_LEN ==> !Complete(b)
  {
    hide PayloadLength;
  }

  lemma FirstCovers(b: Bytes)
    requires Complete(b)
    ensures FrameOctets(First(b)) + AfterFirst(b) == b
  {
    hide PayloadLength;
  }

  // ---- The connection ----

  datatype Phase = HeaderPhase | PayloadPhase

  /** `hdr` is the valid part of `m_frame_hdr`, `payload` that of `m_payload`. */
  datatype Reader = Reader(phase: Phase, hdr: Bytes, payload: Bytes) {
    ghost predicate Valid() {
      match phase
      case HeaderPhase => |hdr| < HEADER_LEN
      case PayloadPhase => |hdr| == HEADER_LEN
    }

    function Buffered(): Bytes {
      hdr + payload
    }
  }

  /** The header part of a pass: move what is missing of the header out of the payload buffer. */
  function TakeHeader(r: Reader): (r': Reader)
    requires r.Valid()
    ensures r'.Valid() && r'.Buffered() == r.Buffered()
    ensures r'.phase == HeaderPhase ==> r'.payload == []
  {
    if r.phase == PayloadPhase then r
    else
      var n := Min(|r.payload|, HEADER_LEN - |r.hdr|);
      var hdr := r.hdr + r.payload[..n];
      assert hdr + r.payload[n..] == r.hdr + r.payload;
      Reader(if |hdr| >= HEADER_LEN then PayloadPhase else HeaderPhase, hdr, r.payload[n..])
  }

  /** The -1 of `ProtParse` for a frame, which depends on what the frames dispatched before it have made of the
      connection. */
  type Refusal = (seq<Frame>, Frame) -> bool

  /** What a call does: the reader afterwards, the frames dispatched, how many arrivals its passes took, and
      whether it asks to close. */
  datatype Outcome = Outcome(reader: Reader, frames: seq<Frame>, taken: nat, close: bool)

  /** One pass: what the socket held is appended, and a frame is cut off if it is complete. */
  datatype Pass = Waiting(reader: Reader) | Dispatched(frame: Frame, reader: Reader)

  function OnePass(r: Reader, now: Bytes): (p: Pass)
    requires r.Valid()
    ensures p.reader.Valid() && |p.reader.Buffered()| <= |r.Buffered()| + |now|
    ensures p.Dispatched? ==> |p.reader.Buffered()| < |r.Buffered()| + |now|
  {
    var r1 := TakeHeader(r.(payload := r.payload + now));
    if r1.phase == PayloadPhase && |r1.payload| >= PayloadLength(r1.hdr) then
      var n := PayloadLength(r1.hdr);
      Dispatched(Frame(r1.hdr, r1.payload[..n]), Reader(HeaderPhase, [], r1.payload[n..]))
    else Waiting(r1)
  }

  function Now(arrivals: seq<Bytes>): Bytes {
    if arrivals == [] then [] else arrivals[0]
  }

  function Later(arrivals: seq<Bytes>): (later: seq<Bytes>)
    ensures |Flatten(arrivals)| == |Now(arrivals)| + |Flatten(later)|
  {
    if arrivals == [] then [] else arrivals[1..]
  }

  /** One call.  Every pass first drains the socket: `arrivals` is what each pass finds there. */
  function Process(r: Reader, arrivals: seq<Bytes>, before: seq<Frame>, refuses: Refusal): (o: Outcome)
    requires r.Valid()
    ensures o.reader.Valid() && o.taken <= |arrivals|
    decreases |r.Buffered()| + |Flatten(arrivals)|
  {
    var used := if arrivals == [] then 0 else 1;
    match OnePass(r, Now(arrivals))
    case Waiting(r1) => Outcome(r1, [], used, false)
    case Dispatched(f, r2) =>
      if |r2.payload| < HEADER_LEN then Outcome(r2, [f], used, refuses(before, f))
      else
        var o := Process(r2, Later(arrivals), before + [f], refuses);
        // the recursive call's own answer is dropped
        Outcome(o.reader, [f] + o.frames, used + o.taken, refuses(before, f))
  }

  lemma ProcessOnce(r: Reader, arrivals: seq<Bytes>, before: seq<Frame>, refuses: Refusal)
    requires r.Valid()
    ensures var used := if arrivals == [] then 0 else 1;
            var p := OnePass(r, Now(arrivals));
            var o := Process(r, arrivals, before, refuses);
            if p.Waiting? then o == Outcome(p.reader, [], used, false)
            else if |p.reader.payload| < HEADER_LEN then
              o == Outcome(p.reader, [p.frame], used, refuses(before, p.frame))
            else
              var o2 := Process(p.reader, Later(arrivals), before + [p.frame], refuses);
              o == Outcome(o2.reader, [p.frame] + o2.frames, used + o2.taken, refuses(before, p.frame))
  {
  }

  class Http2Reader {
    var phase: Phase
    var hdr: Bytes
    var payload: Bytes
    var dispatched: seq<Frame>

    constructor ()
      ensures State() == Reader(HeaderPhase, [], []) && dispatched == []
    {
      phase, hdr, payload, dispatched := HeaderPhase, [], [], [];
    }

    function State(): Reader
      reads this
    {
      Reader(phase, hdr, payload)
    }

    /** The body of a pass up to the recursive call: the dispatched frame, if any. */
    method TakeFrame(now: Bytes) returns (f: Option<Frame>)
      requires State().Valid()
      modifies this
      ensures State().Valid()
      ensures var p := OnePass(old(State()), now);
              && State() == p.reader
              && f == (if p.Dispatched? then Some(p.frame) else None)
              && dispatched == old(dispatched) + if f.Some? then [f.value] else []
    {
      payload := payload + now;
      if phase == HeaderPhase {
        var n := if |payload| > HEADER_LEN - |hdr| then HEADER_LEN - |hdr| else |payload|;
        hdr := hdr + payload[..n];
        if |hdr| >= HEADER_LEN {
          phase := PayloadPhase;
        }
        payload := payload[n..];
      }
      f := None;
      if phase == PayloadPhase {
        var n := PayloadLength(hdr);
        if |payload| >= n {
          var frame := Frame(hdr, payload[..n]);
          dispatched := dispatched + [frame];
          payload := payload[n..];
          phase, hdr := HeaderPhase, [];
          f := Some(frame);
        }
      }
    }

    /** `AsyncProcessing` past the connection preface. */
    method AsyncProcessing(arrivals: seq<Bytes>, refuses: Refusal) returns (close: bool)
      requires State().Valid()
      modifies this
      ensures State().Valid()
      ensures var o := Process(old(State()), arrivals, old(dispatched), refuses);
              State() == o.reader && dispatched == old(dispatched) + o.frames && close == o.close
      decreases |State().Buffered()| + |Flatten(arrivals)|
    {
      hide Process, OnePass;
      ProcessOnce(State(), arrivals, dispatched, refuses);
      var f := TakeFrame(Now(arrivals));
      close := f.Some? && refuses(dispatched[..|dispatched| - 1], f.value);
      if f.Some? && |payload| >= HEADER_LEN {
        ghost var o := Process(State(), Later(arrivals), dispatched, refuses);
        var _ := AsyncProcessing(Later(arrivals), refuses);
        assert old(dispatched) + [f.value] + o.frames == old(dispatched) + ([f.value] + o.frames);
      }
    }
  }

  // ---- Every stream, every segmentation ----

  lemma CompletePrefix(a: Bytes, b: Bytes)
    requires Complete(a)
    ensures Complete(a + b) && First(a + b) == First(a) && AfterFirst(a + b) == AfterFirst(a) + b
  {
    var k := HEADER_LEN + PayloadLength(a);
    assert (a + b)[..HEADER_LEN] == a[..HEADER_LEN];
    assert (a + b)[HEADER_LEN..k] == a[HEADER_LEN..k];
    assert (a + b)[k..] == a[k..] + b;
  }

  /** Frames already complete stay the same frames when more octets arrive. */
  lemma {:induction false} FramesAppend(a: Bytes, b: Bytes)
    ensures Frames(a + b) == Frames(a) + Frames(Leftover(a) + b)
    ensures Leftover(a + b) == Leftover(Leftover(a) + b)
    decreases |a|
  {
    if Complete(a) {
      CompletePrefix(a, b);
      FramesAppend(AfterFirst(a), b);
      assert Frames(a + b) == [First(a)] + (Frames(AfterFirst(a)) + Frames(Leftover(a) + b));
    } else {
      assert [] + Frames(a + b) == Frames(a + b);
    }
  }

  function Joined(fs: seq<Frame>): Bytes {
    if fs == [] then [] else FrameOctets(fs[0]) + Joined(fs[1..])
  }

  /** Nothing is lost: the frames' octets and the leftover are the stream. */
  lemma {:induction false} FramesCover(b: Bytes)
    ensures Joined(Frames(b)) + Leftover(b) == b
    decreases |b|
  {
    hide Frames, Leftover, Complete, First, AfterFirst, FrameOctets;
    FramesOnce(b);
    if Complete(b) {
      var f, rest := First(b), AfterFirst(b);
      FirstCovers(b);
      FramesCover(rest);
      assert Frames(b)[0] == f && Frames(b)[1..] == Frames(rest);
      assert FrameOctets(f) + Joined(Frames(rest)) + Leftover(rest)
          == FrameOctets(f) + (Joined(Frames(rest)) + Leftover(rest));
    } else {
      assert [] + b == b;
    }
  }

  /** One pass dispatches a frame exactly when one is complete, and it is the first of what is buffered. */
  lemma PassDispatches(r: Reader, now: Bytes)
    requires r.Valid()
    ensures var p := OnePass(r, now);
            var b := r.Buffered() + now;
            && (p.Dispatched? <==> Complete(b))
            && p.reader.Buffered() == (if Complete(b) then AfterFirst(b) else b)
            && (Complete(b) ==> p.frame == First(b) && p.reader.payload == AfterFirst(b))
  {
    hide PayloadLength, TakeHeader;
    var r0 := r.(payload := r.payload + now);
    var r1 := TakeHeader(r0);
    var b := r1.hdr + r1.payload;
    assert b == r.Buffered() + now;
    if r1.phase == PayloadPhase {
      assert b[..HEADER_LEN] == r1.hdr;
      LengthInHeader(b);
      var n := PayloadLength(b);
      if Complete(b) {
        assert b[HEADER_LEN..HEADER_LEN + n] == r1.payload[..n] && b[HEADER_LEN + n..] == r1.payload[n..];
        assert [] + AfterFirst(b) == AfterFirst(b);
      }
    }
  }

  lemma LengthInHeader(b: Bytes)
    requires |b| >= HEADER_LEN
    ensures PayloadLength(b) == PayloadLength(b[..HEADER_LEN])
  {
  }

  /** The octets a call has looked at. */
  function Seen(r: Reader, arrivals: seq<Bytes>, taken: nat): Bytes
    requires taken <= |arrivals|
  {
    r.Buffered() + Flatten(arrivals[..taken])
  }

  /** A call dispatches all complete frames of what it has looked at, in order, and leaves none buffered. */
  lemma {:induction false} CallDispatches(r: Reader, arrivals: seq<Bytes>, before: seq<Frame>, refuses: Refusal)
    requires r.Valid()
    ensures var o := Process(r, arrivals, before, refuses);
            var seen := Seen(r, arrivals, o.taken);
            && o.frames == Frames(seen)
            && o.reader.Buffered() == Leftover(seen)
            && (o.close <==> o.frames != [] && refuses(before, o.frames[0]))
    decreases |r.Buffered()| + |Flatten(arrivals)|
  {
    hide Process, OnePass, Flatten, Frames, Leftover, Complete, First, AfterFirst;
    var b := r.Buffered() + Now(arrivals);
    FramesOnce(b);
    ProcessOnce(r, arrivals, before, refuses);
    PassDispatches(r, Now(arrivals));
    var o := Process(r, arrivals, before, refuses);
    SeenSplit(r, arrivals, o.taken);
    if Complete(b) {
      var r2 := OnePass(r, Now(arrivals)).reader;
      if |r2.payload| >= HEADER_LEN {
        var done := before + [OnePass(r, Now(arrivals)).frame];
        var o2 := Process(r2, Later(arrivals), done, refuses);
        CallDispatches(r2, Later(arrivals), done, refuses);
        var tail := Flatten(Later(arrivals)[..o2.taken]);
        CompletePrefix(b, tail);
        FramesOnce(b + tail);
      } else {
        FramesOnce(r2.payload);
      }
    }
  }

  /** What a call has looked at starts with what its first pass has. */
  lemma SeenSplit(r: Reader, arrivals: seq<Bytes>, taken: nat)
    requires taken <= |arrivals| && (arrivals != [] ==> taken > 0)
    ensures var rest := if arrivals == [] then 0 else taken - 1;
            Seen(r, arrivals, taken) == r.Buffered() + Now(arrivals) + Flatten(Later(arrivals)[..rest])
    ensures taken <= 1 ==> Seen(r, arrivals, taken) == r.Buffered() + Now(arrivals)
  {
    if arrivals != [] {
      var now, later := arrivals[0], arrivals[1..];
      assert arrivals[..taken][1..] == later[..taken - 1];
      assert r.Buffered() + (now + Flatten(later[..taken - 1])) == r.Buffered() + now + Flatten(later[..taken - 1]);
    }
  }

  /** A connection's calls in turn; each takes the arrivals it finds. */
  ghost function Calls(r: Reader, calls: seq<seq<Bytes>>, before: seq<Frame>, refuses: Refusal): (o: Outcome)
    requires r.Valid()
    ensures o.reader.Valid()
    decreases |calls|
  {
    if calls == [] then Outcome(r, [], 0, false)
    else
      var first := Process(r, calls[0], before, refuses);
      var rest := Calls(first.reader, calls[1..], before + first.frames, refuses);
      rest.(frames := first.frames + rest.frames)
  }

  /** All octets the calls have looked at. */
  ghost function Stream(r: Reader, calls: seq<seq<Bytes>>, before: seq<Frame>, refuses: Refusal): Bytes
    requires r.Valid()
    decreases |calls|
  {
    if calls == [] then []
    else
      var first := Process(r, calls[0], before, refuses);
      Flatten(calls[0][..first.taken]) + Stream(first.reader, calls[1..], before + first.frames, refuses)
  }

  /** Main result: whatever the pieces the stream arrives in and however they fall on calls and passes, the
      frames dispatched are those of the stream, and no complete frame stays buffered. */
  lemma {:induction false} StreamDispatched(r: Reader, calls: seq<seq<Bytes>>, before: seq<Frame>, refuses: Refusal)
    requires r.Valid() && !Complete(r.Buffered())
    ensures var o := Calls(r, calls, before, refuses);
            var all := r.Buffered() + Stream(r, calls, before, refuses);
            o.frames == Frames(all) && o.reader.Buffered() == Leftover(all)
    decreases |calls|
  {
    hide Process, Frames, Leftover, Flatten;
    var b := r.Buffered();
    if calls == [] {
      FramesOnce(b);
      assert b + [] == b;
    } else {
      var first := Process(r, calls[0], before, refuses);
      var head := Flatten(calls[0][..first.taken]);
      var tail := Stream(first.reader, calls[1..], before + first.frames, refuses);
      CallDispatches(r, calls[0], before, refuses);
      StreamDispatched(first.reader, calls[1..], before + first.frames, refuses);
      FramesAppend(b + head, tail);
      assert b + (head + tail) == b + head + tail;
    }
  }

  // ---- The header copy as written ----

  /** A copy into the header object: the octets valid in it before, and the octets copied. */
  datatype Copy = Copy(valid: nat, n: nat)

  /** The copy adds the count of valid octets to a pointer to nine-octet frames. */
  const STRIDE: nat := 9

  predicate InBounds(c: Copy) {
    c.n == 0 || c.valid * STRIDE + c.n <= HEADER_LEN
  }

  predicate AllInBounds(cs: seq<Copy>) {
    forall i | 0 <= i < |cs| :: InBounds(cs[i])
  }

  function PassCopy(r: Reader, now: Bytes): seq<Copy>
    requires r.Valid()
  {
    if r.phase == HeaderPhase then [Copy(|r.hdr|, Min(|r.payload + now|, HEADER_LEN - |r.hdr|))] else []
  }

  /** The copies of one call's passes. */
  function CallCopies(r: Reader, arrivals: seq<Bytes>): seq<Copy>
    requires r.Valid()
    decreases |r.Buffered()| + |Flatten(arrivals)|
  {
    var p := OnePass(r, Now(arrivals));
    PassCopy(r, Now(arrivals))
      + if p.Dispatched? && |p.reader.payload| >= HEADER_LEN then CallCopies(p.reader, Later(arrivals)) else []
  }

  /** The copies of a connection's calls. */
  ghost function RunCopies(r: Reader, calls: seq<seq<Bytes>>, before: seq<Frame>, refuses: Refusal): seq<Copy>
    requires r.Valid()
    decreases |calls|
  {
    if calls == [] then []
    else
      var first := Process(r, calls[0], before, refuses);
      CallCopies(r, calls[0]) + RunCopies(first.reader, calls[1..], before + first.frames, refuses)
  }

  /** Part of a header has been moved into the header object, and nothing is behind it. */
  predicate HoldsPart(r: Reader) {
    r.phase == HeaderPhase && 0 < |r.hdr| < HEADER_LEN && r.payload == []
  }

  /** Octets wait in the header object only while a header is incomplete. */
  predicate Settled(r: Reader) {
    r.phase == HeaderPhase && r.hdr != [] ==> r.payload == []
  }

  lemma PassSettles(r: Reader, now: Bytes)
    requires r.Valid()
    ensures var p := OnePass(r, now); Settled(p.reader) && (p.Dispatched? ==> p.reader.hdr == [])
  {
  }

  lemma {:induction false} CallSettles(r: Reader, arrivals: seq<Bytes>, before: seq<Frame>, refuses: Refusal)
    requires r.Valid()
    ensures Settled(Process(r, arrivals, before, refuses).reader)
    decreases |r.Buffered()| + |Flatten(arrivals)|
  {
    hide Process, OnePass;
    ProcessOnce(r, arrivals, before, refuses);
    PassSettles(r, Now(arrivals));
    var p := OnePass(r, Now(arrivals));
    if p.Dispatched? && |p.reader.payload| >= HEADER_LEN {
      CallSettles(p.reader, Later(arrivals), before + [p.frame], refuses);
    }
  }

  lemma FirstCopy(r: Reader, now: Bytes)
    requires r.Valid() && Settled(r)
    ensures AllInBounds(PassCopy(r, now)) <==> !(HoldsPart(r) && now != [])
    ensures r.hdr == [] ==> AllInBounds(PassCopy(r, now))
  {
    if r.phase == HeaderPhase {
      assert PassCopy(r, now)[0] == Copy(|r.hdr|, Min(|r.payload + now|, HEADER_LEN - |r.hdr|));
    }
  }

  lemma InBoundsAppend(a: seq<Copy>, b: seq<Copy>)
    ensures AllInBounds(a + b) <==> AllInBounds(a) && AllInBounds(b)
  {
    assert forall i | 0 <= i < |a| :: (a + b)[i] == a[i];
    assert forall i | 0 <= i < |b| :: (a + b)[|a| + i] == b[i];
  }

  /** Of a call's copies only the first can go astray: the passes behind it start a new header. */
  lemma {:induction false} CallInBounds(r: Reader, arrivals: seq<Bytes>)
    requires r.Valid() && Settled(r)
    ensures AllInBounds(CallCopies(r, arrivals)) <==> !(HoldsPart(r) && Now(arrivals) != [])
    decreases |r.Buffered()| + |Flatten(arrivals)|
  {
    hide OnePass, PassCopy, AllInBounds;
    FirstCopy(r, Now(arrivals));
    PassSettles(r, Now(arrivals));
    var p := OnePass(r, Now(arrivals));
    if p.Dispatched? && |p.reader.payload| >= HEADER_LEN {
      CallInBounds(p.reader, Later(arrivals));
      InBoundsAppend(PassCopy(r, Now(arrivals)), CallCopies(p.reader, Later(arrivals)));
    } else {
      assert PassCopy(r, Now(arrivals)) + [] == PassCopy(r, Now(arrivals));
    }
  }

  /** Some call finds part of a header in the header object and brings octets. */
  ghost predicate SplitsHeader(r: Reader, calls: seq<seq<Bytes>>, before: seq<Frame>, refuses: Refusal)
    requires r.Valid()
    decreases |calls|
  {
    calls != [] &&
    (|| (HoldsPart(r) && Now(calls[0]) != [])
     || (var first := Process(r, calls[0], before, refuses);
         SplitsHeader(first.reader, calls[1..], before + first.frames, refuses)))
  }

  /** As written, all copies of a connection stay inside the header object if and only if no call that brings
      octets finds part of a header there. */
  lemma {:induction false} HeaderCopiesAsWritten(r: Reader, calls: seq<seq<Bytes>>, before: seq<Frame>,
                                                 refuses: Refusal)
    requires r.Valid() && Settled(r)
    ensures AllInBounds(RunCopies(r, calls, before, refuses)) <==> !SplitsHeader(r, calls, before, refuses)
    decreases |calls|
  {
    hide Process, CallCopies, AllInBounds, HoldsPart, Settled;
    if calls == [] {
      NoCopies();
    } else {
      var first := Process(r, calls[0], before, refuses);
      CallSettles(r, calls[0], before, refuses);
      CallInBounds(r, calls[0]);
      HeaderCopiesAsWritten(first.reader, calls[1..], before + first.frames, refuses);
      InBoundsAppend(CallCopies(r, calls[0]), RunCopies(first.reader, calls[1..], before + first.frames, refuses));
    }
  }

  lemma NoCopies()
    ensures AllInBounds([])
  {
  }

  /** Where that falls in the stream: a reader that holds part of a header has looked at a stream that ends inside
      a frame header, with just these octets behind its last frame. */
  lemma PartEndsStream(r: Reader, calls: seq<seq<Bytes>>, before: seq<Frame>, refuses: Refusal)
    requires r.Valid() && !Complete(r.Buffered())
    requires HoldsPart(Calls(r, calls, before, refuses).reader)
    ensures var all := r.Buffered() + Stream(r, calls, before, refuses);
            && Leftover(all) == Calls(r, calls, before, refuses).reader.hdr
            && 0 < |Leftover(all)| < HEADER_LEN
  {
    hide Calls, Stream, Leftover, Frames;
    StreamDispatched(r, calls, before, refuses);
    var end := Calls(r, calls, before, refuses).reader;
    assert end.hdr + [] == end.hdr;
  }

  /** A header that comes in two calls, some octets in each, is enough. */
  lemma SplitGoesAstray(head: Bytes, tail: Bytes, refuses: Refusal)
    requires 0 < |head| < HEADER_LEN && tail != []
    ensures !AllInBounds(RunCopies(Reader(HeaderPhase, [], []), [[head], [tail]], [], refuses))
  {
    hide RunCopies, AllInBounds;
    var r := Reader(HeaderPhase, [], []);
    var calls := [[head], [tail]];
    HeaderCopiesAsWritten(r, calls, [], refuses);
    ProcessOnce(r, [head], [], refuses);
    assert [] + head == head && head[..|head|] == head && head[|head|..] == [];
    var first := Process(r, [head], [], refuses);
    assert first.reader == Reader(HeaderPhase, head, []);
    assert calls[1..] == [[tail]];
    assert SplitsHeader(first.reader, [[tail]], [] + first.frames, refuses);
  }
}
