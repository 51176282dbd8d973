/** Content cut into padded DATA frames under the peer's stream window (section 6.1 and 6.9 of RFC 7540). */
module DataFrames {
  import opened Octets
  import FrameAssembly

  const PADDING: nat := 8

  /** `limit` is the maximum frame size in force when the frame went out. */
  datatype DataFrame = DataFrame(padded: bool, payload: Bytes, limit: nat)

  /** What happens in one pass of the send loop: whether the send succeeds, how many octets go out if it does not,
      and, should the window be used up, what the frames received meanwhile grant and change. */
  datatype Turn = Turn(sendOk: bool, cut: nat, grant: nat, maxFrame: Option<nat>)

  /** Peer window and maximum frame size, both 32-bit. */
  datatype Flow = Flow(window: nat, maxFrame: nat) {
    ghost predicate Valid() {
      window < TWO_32 && maxFrame < TWO_32
    }

    /** How much of `left` octets the next frame carries. */
    function Share(left: nat): (n: nat)
      ensures n <= left && n <= window && n <= maxFrame
      ensures n == 0 <==> left == 0 || window == 0 || maxFrame == 0
    {
      Min(Min(left, if maxFrame > PADDING + 1 then maxFrame - PADDING - 1 else maxFrame), window)
    }

    /** The frame for `data`, padded when the maximum frame size has room for it. */
    function FrameFor(data: Bytes): DataFrame
    {
      if maxFrame > PADDING + 1 then
        var pad: Octet := PADDING - |data| % PADDING;
        DataFrame(true, [pad] + data + seq(pad, _ => 0), maxFrame)
      else DataFrame(false, data, maxFrame)
    }

    /** After a frame with `n` data octets went out and content remains. */
    function Next(n: nat, turn: Turn): (f: Flow)
      requires n <= window
      ensures Valid() ==> f.Valid()
      ensures n < window ==> f == Flow(window - n, maxFrame)
      ensures f.window <= window - n + if n == window then turn.grant else 0
    {
      if n == window then
        Flow(turn.grant % TWO_32, match turn.maxFrame case None => maxFrame case Some(m) => m % TWO_32)
      else Flow(window - n, maxFrame)
    }
  }

  /** A run of the loop: frames sent, content octets sent, and how it stands when the turns are used up. */
  datatype Run = Run(frames: seq<DataFrame>, sent: nat, outcome: Ending)

  /** `Broken` names the frame whose send failed. */
  datatype Ending = Complete | Broken(torn: DataFrame, cut: nat) | StillSending(flow: Flow)

  function Send(flow: Flow, content: Bytes, turns: seq<Turn>): (r: Run)
    requires flow.Valid()
    ensures r.sent <= |content|
    decreases |turns|
  {
    if turns == [] then Run([], 0, StillSending(flow))
    else
      var n := flow.Share(|content|);
      var frame := flow.FrameFor(content[..n]);
      if !turns[0].sendOk then Run([], 0, Broken(frame, turns[0].cut))
      else
        if n == |content| then Run([frame], n, Complete)
        else
          var rest := Send(flow.Next(n, turns[0]), content[n..], turns[1..]);
          Run([frame] + rest.frames, n + rest.sent, rest.outcome)
  }

  lemma SendOnce(flow: Flow, content: Bytes, turns: seq<Turn>)
    requires flow.Valid()
    ensures turns == [] ==> Send(flow, content, turns) == Run([], 0, StillSending(flow))
    ensures turns != [] && !turns[0].sendOk ==>
              var frame := flow.FrameFor(content[..flow.Share(|content|)]);
              Send(flow, content, turns) == Run([], 0, Broken(frame, turns[0].cut))
    ensures turns != [] && turns[0].sendOk ==>
              var n := flow.Share(|content|);
              var frame := flow.FrameFor(content[..n]);
              var rest := Send(flow.Next(n, turns[0]), content[n..], turns[1..]);
              Send(flow, content, turns)
                == if n == |content| then Run([frame], n, Complete)
                   else Run([frame] + rest.frames, n + rest.sent, rest.outcome)
  {
  }

  // ---- On the wire ----

  const TWO_24: nat := 0x100_0000

  /** The length as the 24-bit field holds it. */
  function LengthOctets(n: nat): Bytes {
    [n / 0x1_0000 % 256, n / 256 % 256, n % 256]
  }

  /** Length, the type DATA, the flag PADDED, the stream identifier. */
  function HeaderOf(f: DataFrame, ident: Bytes): (h: Bytes)
    ensures |h| == 5 + |ident|
  {
    LengthOctets(|f.payload|) + [0, if f.padded then 8 else 0] + ident
  }

  function WireOf(fs: seq<DataFrame>, ident: Bytes): Bytes {
    if fs == [] then [] else HeaderOf(fs[0], ident) + fs[0].payload + WireOf(fs[1..], ident)
  }

  lemma {:induction false} WireAppend(a: seq<DataFrame>, f: DataFrame, ident: Bytes)
    ensures WireOf(a + [f], ident) == WireOf(a, ident) + HeaderOf(f, ident) + f.payload
  {
    if a == [] {
      assert [] + [f] == [f] && [f][1..] == [];
      assert WireOf([f], ident) == HeaderOf(f, ident) + f.payload + [];
    } else {
      assert (a + [f])[1..] == a[1..] + [f];
      WireAppend(a[1..], f, ident);
      var head, more := HeaderOf(a[0], ident) + a[0].payload, HeaderOf(f, ident) + f.payload;
      assert head + (WireOf(a[1..], ident) + HeaderOf(f, ident) + f.payload) == head + WireOf(a[1..], ident) + more;
    }
  }

  /** What went out of a frame whose send failed. */
  function TornOctets(end: Ending, ident: Bytes): Bytes {
    match end
    case Broken(f, cut) =>
      var octets := HeaderOf(f, ident) + f.payload;
      octets[..Min(cut, |octets|)]
    case _ => []
  }

  // ---- The send loop ----

  class DataSender {
    var flow: Flow
    var wire: Bytes
    const ident: Bytes

    constructor (flow: Flow, ident: Bytes)
      ensures this.flow == flow && wire == [] && this.ident == ident
    {
      this.flow, wire, this.ident := flow, [], ident;
    }

    /** `TransHttp1SendHttp2Content`: frames until the content is out or a send fails.  The loop has no bound of
        its own, as it also sends empty frames while it waits for the window; `turns` is a run's beginning. */
    method SendContent(content: Bytes, turns: seq<Turn>) returns (sent: nat, outcome: Ending)
      requires flow.Valid()
      modifies this
      ensures flow.Valid()
      ensures var r := Send(old(flow), content, turns);
              && wire == old(wire) + WireOf(r.frames, ident) + TornOctets(outcome, ident)
              && sent == r.sent && outcome == r.outcome
    {
      hide WireOf, HeaderOf, Send, Flow.FrameFor, Flow.Next, Flow.Share;
      sent := 0;
      var t := 0;
      ghost var out: seq<DataFrame> := [];
      assert content[0..] == content && turns[0..] == turns;
      NothingOnWire(ident);
      while t < |turns|
        invariant 0 <= t <= |turns| && sent <= |content| && flow.Valid()
        invariant wire == old(wire) + WireOf(out, ident)
        invariant var r, rest := Send(old(flow), content, turns), Send(flow, content[sent..], turns[t..]);
                  r.frames == out + rest.frames && r.sent == sent + rest.sent && r.outcome == rest.outcome
      {
        SendFrom(flow, content, turns, sent, t);
        var n := flow.Share(|content| - sent);
        var frame := flow.FrameFor(content[sent..sent + n]);
        if !turns[t].sendOk {
          assert out + [] == out;
          outcome := Broken(frame, turns[t].cut);
          wire := wire + TornOctets(outcome, ident);
          return sent, outcome;
        }
        RegroupFrames(out, frame, Send(flow.Next(n, turns[t]), content[sent + n..], turns[t + 1..]).frames);
        WireAppend(out, frame, ident);
        out := out + [frame];
        wire := wire + HeaderOf(frame, ident) + frame.payload;
        sent := sent + n;
        if sent == |content| {
          return sent, Complete;
        }
        flow := flow.Next(n, turns[t]);
        t := t + 1;
      }
      SendOnce(flow, content[sent..], turns[t..]);
      assert out + [] == out;
      return sent, StillSending(flow);
    }
  }

  lemma NothingOnWire(ident: Bytes)
    ensures WireOf([], ident) == []
  {
  }

  lemma RegroupFrames(out: seq<DataFrame>, frame: DataFrame, frames: seq<DataFrame>)
    ensures out + ([frame] + frames) == out + [frame] + frames
  {
  }

  /** One turn of a run that has sent `sent` octets in `t` turns. */
  lemma SendFrom(flow: Flow, content: Bytes, turns: seq<Turn>, sent: nat, t: nat)
    requires flow.Valid() && sent <= |content| && t < |turns|
    ensures var run := Send(flow, content[sent..], turns[t..]);
            var n := flow.Share(|content| - sent);
            var frame := flow.FrameFor(content[sent..sent + n]);
            var next := flow.Next(n, turns[t]);
            && next.Valid()
            && run == (if !turns[t].sendOk then Run([], 0, Broken(frame, turns[t].cut))
                       else if sent + n == |content| then Run([frame], n, Complete)
                       else
                         var rest := Send(next, content[sent + n..], turns[t + 1..]);
                         Run([frame] + rest.frames, n + rest.sent, rest.outcome))
  {
    hide Send, Flow.FrameFor, Flow.Next, Flow.Share;
    SendOnce(flow, content[sent..], turns[t..]);
    var n := flow.Share(|content| - sent);
    assert content[sent..][..n] == content[sent..sent + n];
    assert content[sent..][n..] == content[sent + n..] && turns[t..][1..] == turns[t + 1..];
  }

  // ---- Section 6.1 of RFC 7540: what the receiver makes of it ----

  /** The data of a frame, or `None` when its padding is not smaller than its payload. */
  function Strip(f: DataFrame): Option<Bytes> {
    if !f.padded then Some(f.payload)
    else if f.payload == [] || f.payload[0] >= |f.payload| then None
    else Some(f.payload[1..|f.payload| - f.payload[0]])
  }

  function StripAll(fs: seq<DataFrame>): Option<Bytes> {
    if fs == [] then Some([])
    else if Strip(fs[0]).None? || StripAll(fs[1..]).None? then None
    else Some(Strip(fs[0]).value + StripAll(fs[1..]).value)
  }

  /** A frame carries its data, fits the maximum frame size, and ends on a multiple of eight octets of data
      and padding, which is zero. */
  lemma FrameCarries(flow: Flow, data: Bytes)
    requires |data| <= (if flow.maxFrame > PADDING + 1 then flow.maxFrame - PADDING - 1 else flow.maxFrame)
    ensures var f := flow.FrameFor(data);
            && Strip(f) == Some(data)
            && |f.payload| <= flow.maxFrame
            && (f.padded ==>
                  && (|f.payload| - 1) % PADDING == 0 && 1 <= f.payload[0] <= PADDING
                  && forall i | 1 + |data| <= i < |f.payload| :: f.payload[i] == 0)
  {
    var f := flow.FrameFor(data);
    if f.padded {
      assert f.payload[1..|f.payload| - f.payload[0]] == data;
    }
  }

  /** Everything the peer granted while the sender waited. */
  function Granted(turns: seq<Turn>): nat {
    if turns == [] then 0 else turns[0].grant + Granted(turns[1..])
  }

  /** Main result, for any content, any window, any grants and changes of the frame size while waiting, and
      any beginning of a run: stripping the frames gives back exactly the content sent so far; no payload
      exceeds the maximum frame size in force; the data never exceed the window and what was granted; and
      the loop ends well only with all content sent. */
  lemma {:induction false} ContentRecovered(flow: Flow, content: Bytes, turns: seq<Turn>)
    requires flow.Valid()
    ensures var r := Send(flow, content, turns);
            && StripAll(r.frames) == Some(content[..r.sent])
            && (forall i | 0 <= i < |r.frames| :: |r.frames[i].payload| <= r.frames[i].limit)
            && r.sent <= flow.window + Granted(turns)
            && (r.outcome.Complete? ==> r.sent == |content|)
    decreases |turns|
  {
    hide Send;
    SendOnce(flow, content, turns);
    if turns != [] && turns[0].sendOk {
      var n := flow.Share(|content|);
      var frame := flow.FrameFor(content[..n]);
      FrameCarries(flow, content[..n]);
      if n < |content| {
        var next, rest := flow.Next(n, turns[0]), content[n..];
        ContentRecovered(next, rest, turns[1..]);
        var r := Send(next, rest, turns[1..]);
        assert content[..n] + rest[..r.sent] == content[..n + r.sent];
        assert ([frame] + r.frames)[1..] == r.frames;
      } else {
        assert [frame][1..] == [];
        assert content[..n] + [] == content[..n];
      }
    }
  }

  // ---- From octets ----

  /** A frame as section 4.1 of RFC 7540 cuts it out of the octets. */
  function OnWire(f: DataFrame, ident: Bytes): FrameAssembly.Frame {
    FrameAssembly.Frame(HeaderOf(f, ident), f.payload)
  }

  function AllOnWire(fs: seq<DataFrame>, ident: Bytes): (w: seq<FrameAssembly.Frame>)
    ensures |w| == |fs|
    ensures forall i | 0 <= i < |fs| :: w[i] == OnWire(fs[i], ident)
  {
    seq(|fs|, i requires 0 <= i < |fs| => OnWire(fs[i], ident))
  }

  ghost predicate Short(fs: seq<DataFrame>) {
    forall i | 0 <= i < |fs| :: |fs[i].payload| < TWO_24
  }

  lemma LengthHeld(f: DataFrame, ident: Bytes)
    ensures FrameAssembly.PayloadLength(HeaderOf(f, ident)) == |f.payload| % TWO_24
  {
    var n := |f.payload|;
    assert n % 0x1_0000 == n / 256 % 256 * 256 + n % 256;
    assert n % TWO_24 == n / 0x1_0000 % 256 * 0x1_0000 + n % 0x1_0000;
  }

  lemma FirstOnWire(f: DataFrame, ident: Bytes, tail: Bytes)
    requires |ident| == 4 && |f.payload| < TWO_24
    ensures var b := HeaderOf(f, ident) + f.payload + tail;
            && FrameAssembly.Complete(b)
            && FrameAssembly.First(b) == OnWire(f, ident) && FrameAssembly.AfterFirst(b) == tail
  {
    hide HeaderOf, FrameAssembly.PayloadLength;
    var h, n := HeaderOf(f, ident), |f.payload|;
    var b := h + f.payload + tail;
    LengthHeld(f, ident);
    assert b[..9] == h;
    FrameAssembly.LengthInHeader(b);
    assert b[9..9 + n] == f.payload && b[9 + n..] == tail;
  }

  lemma {:induction false} ShortReadBack(fs: seq<DataFrame>, ident: Bytes)
    requires |ident| == 4 && Short(fs)
    ensures FrameAssembly.Frames(WireOf(fs, ident)) == AllOnWire(fs, ident)
    ensures FrameAssembly.Leftover(WireOf(fs, ident)) == []
  {
    hide FrameAssembly.Frames, FrameAssembly.Leftover, FrameAssembly.Complete, FrameAssembly.First;
    hide FrameAssembly.AfterFirst, HeaderOf;
    FrameAssembly.FramesOnce(WireOf(fs, ident));
    if fs != [] {
      FirstOnWire(fs[0], ident, WireOf(fs[1..], ident));
      ShortReadBack(fs[1..], ident);
      assert AllOnWire(fs, ident) == [OnWire(fs[0], ident)] + AllOnWire(fs[1..], ident);
    }
  }

  lemma {:induction false} FramesAreShort(b: Bytes)
    ensures forall i | 0 <= i < |FrameAssembly.Frames(b)| :: |FrameAssembly.Frames(b)[i].payload| < TWO_24
    decreases |b|
  {
    hide FrameAssembly.Frames;
    FrameAssembly.FramesOnce(b);
    if FrameAssembly.Complete(b) {
      FramesAreShort(FrameAssembly.AfterFirst(b));
    }
  }

  /** The octets of a run's frames are read back as these frames, with nothing left over, if and only if every
      payload is below 2^24, which is what the length field holds. */
  lemma FramesReadBack(fs: seq<DataFrame>, ident: Bytes)
    requires |ident| == 4
    ensures (FrameAssembly.Frames(WireOf(fs, ident)) == AllOnWire(fs, ident)
             && FrameAssembly.Leftover(WireOf(fs, ident)) == [])
       <==> Short(fs)
  {
    hide FrameAssembly.Frames, FrameAssembly.Leftover, WireOf, HeaderOf;
    if Short(fs) {
      ShortReadBack(fs, ident);
    } else {
      FramesAreShort(WireOf(fs, ident));
      var i :| 0 <= i < |fs| && |fs[i].payload| >= TWO_24;
      assert AllOnWire(fs, ident)[i].payload == fs[i].payload;
    }
  }

  /** Section 6.1: the data of a frame, by the flags in its header. */
  function StripFrame(f: FrameAssembly.Frame): Option<Bytes> {
    if |f.header| < 5 || f.header[3] != 0 then None
    else Strip(DataFrame(f.header[4] / 8 % 2 == 1, f.payload, 0))
  }

  function StripFrames(fs: seq<FrameAssembly.Frame>): Option<Bytes> {
    if fs == [] then Some([])
    else if StripFrame(fs[0]).None? || StripFrames(fs[1..]).None? then None
    else Some(StripFrame(fs[0]).value + StripFrames(fs[1..]).value)
  }

  lemma {:induction false} StripsAlike(fs: seq<DataFrame>, ident: Bytes)
    ensures StripFrames(AllOnWire(fs, ident)) == StripAll(fs)
  {
    hide Strip, StripFrame, OnWire;
    if fs != [] {
      StripAlike(fs[0], ident);
      assert AllOnWire(fs, ident)[1..] == AllOnWire(fs[1..], ident);
      StripsAlike(fs[1..], ident);
    }
  }

  lemma StripAlike(f: DataFrame, ident: Bytes)
    ensures StripFrame(OnWire(f, ident)) == Strip(f)
  {
  }

  /** The frame sizes in force are what section 6.5.2 allows at most. */
  ghost predicate SizesOk(flow: Flow, turns: seq<Turn>) {
    && flow.maxFrame < TWO_24
    && (forall i | 0 <= i < |turns| && turns[i].maxFrame.Some? :: turns[i].maxFrame.value < TWO_24)
  }

  lemma {:induction false} LimitsOk(flow: Flow, content: Bytes, turns: seq<Turn>)
    requires flow.Valid() && SizesOk(flow, turns)
    ensures forall i | 0 <= i < |Send(flow, content, turns).frames| ::
              Send(flow, content, turns).frames[i].limit < TWO_24
    decreases |turns|
  {
    hide Send;
    SendOnce(flow, content, turns);
    if turns != [] && turns[0].sendOk {
      var n := flow.Share(|content|);
      if n < |content| {
        LimitsOk(flow.Next(n, turns[0]), content[n..], turns[1..]);
      }
    }
  }

  /** What the header of a content frame says, besides the length: the type DATA, no flag but PADDED, and that when
      the frame size in force leaves room for padding, the stream. */
  ghost predicate SaysContent(header: Bytes, limit: nat, ident: Bytes) {
    && |header| == 9 && header[3] == 0
    && header[4] == (if limit > 9 then 8 else 0)
    && header[5..9] == ident
  }

  lemma HeaderSays(flow: Flow, data: Bytes, ident: Bytes)
    requires |ident| == 4
    ensures var f := flow.FrameFor(data); SaysContent(HeaderOf(f, ident), f.limit, ident)
  {
    var h := HeaderOf(flow.FrameFor(data), ident);
    assert h[5..9] == ident;
  }

  lemma {:induction false} HeadersSay(flow: Flow, content: Bytes, turns: seq<Turn>, ident: Bytes)
    requires flow.Valid() && |ident| == 4
    ensures var fs := Send(flow, content, turns).frames;
            forall i | 0 <= i < |fs| :: SaysContent(HeaderOf(fs[i], ident), fs[i].limit, ident)
    decreases |turns|
  {
    hide Send, SaysContent, HeaderOf, Flow.FrameFor;
    SendOnce(flow, content, turns);
    if turns != [] && turns[0].sendOk {
      var n := flow.Share(|content|);
      HeaderSays(flow, content[..n], ident);
      if n < |content| {
        HeadersSay(flow.Next(n, turns[0]), content[n..], turns[1..], ident);
      }
    }
  }

  /** Main result on the octets themselves: as long as the peer keeps the frame size within the bounds of the
      protocol, cutting the octets sent into frames and stripping these gives back the content sent so far, for any
      window updates and frame sizes; and each frame says that it is content of this stream, and none that it is the
      stream's last. */
  lemma ContentFromOctets(flow: Flow, content: Bytes, turns: seq<Turn>, ident: Bytes)
    requires flow.Valid() && SizesOk(flow, turns) && |ident| == 4
    ensures var r := Send(flow, content, turns);
            var wire := WireOf(r.frames, ident);
            var frames := FrameAssembly.Frames(wire);
            && StripFrames(frames) == Some(content[..r.sent])
            && FrameAssembly.Leftover(wire) == []
            && |frames| == |r.frames|
            && (forall i | 0 <= i < |frames| :: SaysContent(frames[i].header, r.frames[i].limit, ident))
            && (forall i | 0 <= i < |frames| :: frames[i].header[4] % 2 == 0)
  {
    hide Send, FrameAssembly.Frames, FrameAssembly.Leftover, WireOf, AllOnWire, StripFrames, StripAll, HeaderOf;
    var r := Send(flow, content, turns);
    ContentRecovered(flow, content, turns);
    LimitsOk(flow, content, turns);
    FramesReadBack(r.frames, ident);
    StripsAlike(r.frames, ident);
    HeadersSay(flow, content, turns, ident);
  }

  /** Flow control frame by frame, read off the frames: each carries as much as what is left of the content, the
      window and the frame size allow; a window that is used up is replaced by what is granted while waiting, and
      then the frame size by what the peer set, both of 32 bits. */
  ghost predicate WithinFlow(window: nat, maxFrame: nat, left: nat, fs: seq<DataFrame>, turns: seq<Turn>)
    decreases |fs|
  {
    fs == [] ||
    (turns != [] && Strip(fs[0]).Some? &&
     var n := |Strip(fs[0]).value|;
     && fs[0].limit == maxFrame && |fs[0].payload| <= maxFrame
     && n <= left && n <= window
     && (n == left || n == window || n + 9 == maxFrame || (n == maxFrame <= 9))
     && var size := if turns[0].maxFrame.Some? then turns[0].maxFrame.value % 0x1_0000_0000 else maxFrame;
        if n < window then WithinFlow(window - n, maxFrame, left - n, fs[1..], turns[1..])
        else WithinFlow(turns[0].grant % 0x1_0000_0000, size, left - n, fs[1..], turns[1..]))
  }

  lemma {:induction false} FramesFollowFlow(flow: Flow, content: Bytes, turns: seq<Turn>)
    requires flow.Valid()
    ensures WithinFlow(flow.window, flow.maxFrame, |content|, Send(flow, content, turns).frames, turns)
    decreases |turns|
  {
    hide Send, Strip, Flow.FrameFor;
    SendOnce(flow, content, turns);
    if turns != [] && turns[0].sendOk {
      var n := flow.Share(|content|);
      FrameCarries(flow, content[..n]);
      FrameLimit(flow, content[..n]);
      if n < |content| {
        FramesFollowFlow(flow.Next(n, turns[0]), content[n..], turns[1..]);
      } else {
        assert [flow.FrameFor(content[..n])][1..] == [];
      }
    }
  }

  lemma FrameLimit(flow: Flow, data: Bytes)
    ensures flow.FrameFor(data).limit == flow.maxFrame
  {
  }

  /** A run whose send failed has put out its frames and a beginning of the one that failed, of the length that the
      connection took. */
  lemma BrokenIsBeginning(flow: Flow, content: Bytes, turns: seq<Turn>, ident: Bytes)
    requires flow.Valid() && Send(flow, content, turns).outcome.Broken?
    ensures var r := Send(flow, content, turns);
            var out := WireOf(r.frames, ident) + TornOctets(r.outcome, ident);
            && out <= WireOf(r.frames + [r.outcome.torn], ident)
            && |out| == |WireOf(r.frames, ident)| + Min(r.outcome.cut, 5 + |ident| + |r.outcome.torn.payload|)
  {
    hide Send, WireOf, HeaderOf;
    var r := Send(flow, content, turns);
    WireAppend(r.frames, r.outcome.torn, ident);
    var octets := HeaderOf(r.outcome.torn, ident) + r.outcome.torn.payload;
    assert WireOf(r.frames, ident) + octets == WireOf(r.frames + [r.outcome.torn], ident);
  }

  /** Content moves on a working connection: as many passes as there are octets left send all of it, and one more if
      the window is closed at first, provided the window is wide enough or the peer opens it whenever it is closed. */
  lemma {:induction false} OpenWindowFinishes(flow: Flow, content: Bytes, turns: seq<Turn>)
    requires flow.Valid() && flow.maxFrame > 0
    requires forall i | 0 <= i < |turns| ::
               turns[i].sendOk && (turns[i].maxFrame.Some? ==> turns[i].maxFrame.value % TWO_32 > 0)
    requires |content| <= flow.window || forall i | 0 <= i < |turns| :: turns[i].grant % TWO_32 > 0
    requires |content| + (if flow.window == 0 then 1 else 0) < |turns|
    ensures Send(flow, content, turns).outcome == Complete
    decreases |turns|
  {
    hide Send;
    SendOnce(flow, content, turns);
    var n := flow.Share(|content|);
    if n < |content| {
      OpenWindowFinishes(flow.Next(n, turns[0]), content[n..], turns[1..]);
    }
  }

  // ---- Section 6.9 of RFC 7540: padding counts against the window, here only the data do ----

  function Payloads(fs: seq<DataFrame>): nat {
    if fs == [] then 0 else |fs[0].payload| + Payloads(fs[1..])
  }

  /** All frame sizes leave room for padding. */
  ghost predicate SizesPadded(flow: Flow, turns: seq<Turn>) {
    && flow.maxFrame > PADDING + 1
    && forall i | 0 <= i < |turns| && turns[i].maxFrame.Some? :: turns[i].maxFrame.value % TWO_32 > PADDING + 1
  }

  lemma PaddedPayload(flow: Flow, data: Bytes)
    requires flow.maxFrame > PADDING + 1
    ensures |flow.FrameFor(data).payload| == (|data| / PADDING + 1) * PADDING + 1
    ensures |data| + 2 <= |flow.FrameFor(data).payload| <= |data| + PADDING + 1
  {
  }

  /** Each frame takes two to nine octets more of the peer's window than are counted; so a run that has used up what
      the window and the grants allow has gone over it. */
  lemma {:induction false} PaddingUncounted(flow: Flow, content: Bytes, turns: seq<Turn>)
    requires flow.Valid() && SizesPadded(flow, turns)
    ensures var r := Send(flow, content, turns);
            && r.sent + 2 * |r.frames| <= Payloads(r.frames) <= r.sent + (PADDING + 1) * |r.frames|
            && (r.frames != [] && r.sent == flow.window + Granted(turns) ==>
                  Payloads(r.frames) > flow.window + Granted(turns))
    decreases |turns|
  {
    hide Send, Flow.FrameFor, Flow.Share;
    SendOnce(flow, content, turns);
    if turns != [] && turns[0].sendOk {
      var n := flow.Share(|content|);
      PaddedPayload(flow, content[..n]);
      assert |content[..n]| == n;
      if n < |content| {
        PaddingUncounted(flow.Next(n, turns[0]), content[n..], turns[1..]);
      } else {
        OnePayload(flow.FrameFor(content[..n]));
      }
    }
  }

  lemma OnePayload(f: DataFrame)
    ensures Payloads([f]) == |f.payload|
  {
    assert [f][1..] == [];
  }

  /** What a frame may carry, and what it takes of the window. */
  function Capacity(maxFrame: nat): nat {
    if maxFrame > PADDING + 1 then maxFrame - PADDING - 1 else maxFrame
  }

  function FrameCost(n: nat, maxFrame: nat): nat {
    if maxFrame > PADDING + 1 then (n / PADDING + 1) * PADDING + 1 else n
  }

  /** What `n` octets of content take of the window, padding included. */
  function Cost(n: nat, maxFrame: nat): nat
    requires maxFrame > 0
  {
    if n <= Capacity(maxFrame) then FrameCost(n, maxFrame)
    else FrameCost(Capacity(maxFrame), maxFrame) + Cost(n - Capacity(maxFrame), maxFrame)
  }

  /** Content that the window is wide enough for takes `Cost` of it: so it stays within the peer's window if and only
      if that is no more than the window, which can be told before anything is sent. */
  lemma {:induction false} WindowKept(flow: Flow, content: Bytes, turns: seq<Turn>)
    requires flow.Valid() && flow.maxFrame > 0 && |content| <= flow.window
    requires Send(flow, content, turns).outcome.Complete?
    ensures Payloads(Send(flow, content, turns).frames) == Cost(|content|, flow.maxFrame)
    decreases |turns|
  {
    hide Send, Flow.FrameFor;
    SendOnce(flow, content, turns);
    var n := flow.Share(|content|);
    assert |content[..n]| == n;
    CostOfFrame(flow, content[..n]);
    if n < |content| {
      WindowKept(flow.Next(n, turns[0]), content[n..], turns[1..]);
    } else {
      OnePayload(flow.FrameFor(content[..n]));
    }
  }

  lemma CostOfFrame(flow: Flow, data: Bytes)
    ensures |flow.FrameFor(data).payload| == FrameCost(|data|, flow.maxFrame)
  {
  }
}
