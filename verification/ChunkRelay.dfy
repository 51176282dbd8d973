/** The relay of a chunked response body (`http_chunk`): the octets go to the client as they came, and
    the relay must notice the end of the body in whatever pieces the back end delivers it. */
module ChunkRelay {
  import opened Octets
  import opened HexText

  datatype Phase = Header | Content | Footer

  datatype ChunkState = ChunkState(phase: Phase, chunkLen: nat, sentChunk: nat) {
    predicate Valid() {
      sentChunk <= chunkLen < TWO_32 && (phase != Content ==> sentChunk == 0)
    }
  }

  const START := ChunkState(Header, 0, 0)

  /** What one call leaves behind: new state, octets sent to the client, octets still buffered, and
      whether the relay asks for more (`false` ends the response). */
  datatype Relay = Relay(state: ChunkState, out: Bytes, left: Bytes, more: bool) {
    function After(earlier: Bytes): Relay {
      this.(out := earlier + out)
    }
  }

  const END: Bytes := CRLF + CRLF

  function ContentStep(st: ChunkState, n: nat): ChunkState {
    if st.sentChunk + n == st.chunkLen then START else st.(sentChunk := st.sentChunk + n)
  }

  /** One pass through the relay's loop: it returns, or sends `n` octets and goes on. */
  datatype Move = Stop(relay: Relay) | Go(next: ChunkState, n: nat)

  /** The state after a size line.  A data chunk is its data and the CRLF behind it. */
  function SizeState(size: nat): ChunkState {
    if size > 0 then ChunkState(Content, (size + 2) % TWO_32, 0) else ChunkState(Footer, 0, 0)
  }

  function Step(st: ChunkState, buf: Bytes): (m: Move)
    requires st.Valid() && buf != []
    ensures m.Stop? ==> m.relay.state == st
    ensures m.Go? ==> m.next.Valid() && m.n <= |buf|
    ensures m.Go? ==> m.n > 0 || (st.phase == Content && m.next.phase != Content) || m.next.phase == Footer
    ensures m.Go? ==> st.phase != Footer
  {
    match st.phase
    case Header => HeaderStep(st, buf)
    case Content =>
      var n := Min(|buf|, st.chunkLen - st.sentChunk);
      Go(ContentStep(st, n), n)
    case Footer => Stop(Finish(st, buf))
  }

  function HeaderStep(st: ChunkState, buf: Bytes): (m: Move)
    requires st.Valid() && st.phase == Header
    ensures m.Stop? ==> m.relay.state == st
    ensures m.Go? ==> m.next.Valid() && m.n <= |buf| && m.next.phase != Header
    ensures m.Go? && m.next.phase == Content ==> m.n > 0
    ensures m.Go? && m.next.phase == Footer ==> m.n < |buf|
  {
    match Find(buf, CRLF)
    case None => Stop(Relay(st, [], buf, true))
    case Some(k) =>
      match ScanHex(buf[..Min(k, 31)])
      case None => Stop(Relay(st, [], buf, false))
      case Some(size) => Go(SizeState(size), if size > 0 then k + 2 else k)
  }

  /** What is expected behind a size line: nothing for the last chunk, else the data and CRLF, in 32 bits; so the two
      largest sizes pass for chunks of no octet and of one. */
  lemma Expected(size: nat)
    requires 0 < size < 0x1_0000_0000
    ensures SizeState(size).phase == Content && SizeState(size).sentChunk == 0
    ensures SizeState(size).chunkLen == if size < 0xFFFF_FFFE then size + 2 else size - 0xFFFF_FFFE
  {
  }

  /** The search for the blank line that closes the trailer. */
  function Finish(st: ChunkState, buf: Bytes): (r: Relay)
    ensures r.state == st
  {
    match Find(buf, END)
    case None => Relay(st, [], buf, true)
    case Some(k) => Relay(st, buf[..k + 4], buf[k + 4..], false)
  }

  function Rank(phase: Phase): nat {
    match phase case Content => 2 case Header => 1 case Footer => 0
  }

  /** One call of the relay on everything buffered, as a function. */
  function Run(st: ChunkState, buf: Bytes): (r: Relay)
    requires st.Valid()
    ensures r.state.Valid()
    decreases |buf|, Rank(st.phase)
  {
    if buf == [] then Relay(st, [], [], true)
    else
      match Step(st, buf)
      case Stop(r) => r
      case Go(next, n) => Run(next, buf[n..]).After(buf[..n])
  }

  /** One unfolding of `Run`, for proofs that hide its definition. */
  lemma RunOnce(st: ChunkState, buf: Bytes)
    requires st.Valid()
    ensures buf == [] ==> Run(st, buf) == Relay(st, [], [], true)
    ensures buf != [] ==>
              var m := Step(st, buf);
              Run(st, buf) == if m.Stop? then m.relay else Run(m.next, buf[m.n..]).After(buf[..m.n])
  {
  }

  /** What the relay does with what is buffered while it waits for a size line. */
  lemma RunHeader(st: ChunkState, buf: Bytes)
    requires st.Valid() && st.phase == Header && buf != []
    ensures var found := Find(buf, CRLF);
            if found.None? then Run(st, buf) == Relay(st, [], buf, true)
            else
              var size := ScanHex(buf[..Min(found.value, 31)]);
              if size.None? then Run(st, buf) == Relay(st, [], buf, false)
              else
                var n := if size.value > 0 then found.value + 2 else found.value;
                && SizeState(size.value).Valid()
                && Run(st, buf) == Run(SizeState(size.value), buf[n..]).After(buf[..n])
  {
    hide Run, ScanHex;
    RunOnce(st, buf);
  }

  lemma RunFooter(st: ChunkState, buf: Bytes)
    requires st.Valid() && st.phase == Footer && buf != []
    ensures Run(st, buf) == Finish(st, buf)
  {
  }

  lemma AfterTwice(r: Relay, a: Bytes, b: Bytes)
    ensures r.After(b).After(a) == r.After(a + b)
  {
    assert a + (b + r.out) == a + b + r.out;
  }

  lemma SentSoFar(sent: Bytes, out: Bytes, rest: Bytes)
    requires out <= rest
    ensures sent <= sent + out <= sent + rest
  {
    assert sent + rest == sent + out + rest[|out|..];
  }

  // ---- The object that works in place on the shared buffer ----

  /** The client side of the tunnel: sends succeed until the connection breaks, which may be in the middle of
      one.  `credit` is how many octets it takes until then. */
  class Tunnel {
    var sent: Bytes
    var broken: bool
    var credit: nat

    method ClientSend(data: Bytes) returns (ok: bool, ghost out: Bytes)
      modifies this
      ensures ok == (|data| <= old(credit))
      ensures sent == old(sent) + out
      ensures ok ==> out == data && broken == old(broken)
      ensures !ok ==> out <= data && broken
    {
      ok := |data| <= credit;
      if ok {
        credit := credit - |data|;
        sent, out := sent + data, data;
      } else {
        sent, out := sent + data[..credit], data[..credit];
        broken, credit := true, 0;
      }
    }
  }

  class HttpChunk {
    var chunkLen: nat
    var sentChunk: nat
    var phase: Phase
    const tunnel: Tunnel

    constructor (tunnel: Tunnel)
      ensures State() == START && this.tunnel == tunnel
    {
      chunkLen, sentChunk, phase := 0, 0, Header;
      this.tunnel := tunnel;
    }

    function State(): ChunkState
      reads this
    {
      ChunkState(phase, chunkLen, sentChunk)
    }

    /** Sends as much of the current chunk as is buffered. */
    method SendContent(buf: array<Octet>, used: nat) returns (left: nat, ok: bool, ghost out: Bytes)
      requires State().Valid() && phase == Content && used <= buf.Length
      modifies this, buf, tunnel
      ensures State().Valid() && left <= used && tunnel.sent == old(tunnel.sent) + out
      ensures var n := Min(used, old(chunkLen) - old(sentChunk));
              if ok then
                && left == used - n
                && State() == ContentStep(old(State()), n)
                && buf[..left] == old(buf[n..used])
                && out == old(buf[..n])
                && tunnel.broken == old(tunnel.broken)
              else
                State() == old(State()) && out <= old(buf[..n]) && tunnel.broken
    {
      var n := if used > chunkLen - sentChunk then chunkLen - sentChunk else used;
      ok, out := tunnel.ClientSend(buf[..n]);
      left := used;
      if !ok {
        return;
      }
      MoveDown(buf, used, n);
      sentChunk := sentChunk + n;
      left := used - n;
      if sentChunk == chunkLen {
        phase, chunkLen, sentChunk := Header, 0, 0;
      }
    }

    /** The last piece: the trailer, once the blank line is there. */
    method SendFooter(buf: array<Octet>, used: nat) returns (left: nat, more: bool, ghost out: Bytes)
      requires State().Valid() && phase == Footer && used <= buf.Length && !tunnel.broken
      modifies buf, tunnel
      ensures left <= used && tunnel.sent == old(tunnel.sent) + out
      ensures tunnel.broken ==> !more && out <= Finish(State(), old(buf[..used])).out
      ensures !tunnel.broken ==> Finish(State(), old(buf[..used])) == Relay(State(), out, buf[..left], more)
    {
      left, more, out := used, true, [];
      var found := Scan(buf, used, END);
      if found.None? {
        return;
      }
      var n := found.value + 4;
      assert buf[..used][..n] == buf[..n];
      assert buf[..used][n..] == buf[n..used];
      var ok;
      ok, out := tunnel.ClientSend(buf[..n]);
      more := false;
      if !ok {
        return;
      }
      MoveDown(buf, used, n);
      left := used - n;
    }

    /** Sends a size line: whole, CRLF included, for a data chunk; without its CRLF for the last chunk. */
    method SendSizeLine(buf: array<Octet>, used: nat, k: nat, size: nat)
      returns (left: nat, ok: bool, ghost out: Bytes)
      requires State().Valid() && phase == Header && k + 2 <= used <= buf.Length && size < TWO_32
      modifies this, buf, tunnel
      ensures State().Valid() && left <= used && tunnel.sent == old(tunnel.sent) + out
      ensures var n := if size > 0 then k + 2 else k;
              if ok then
                && left == used - n
                && phase == (if size > 0 then Content else Footer)
                && State() == SizeState(size)
                && buf[..left] == old(buf[n..used])
                && out == old(buf[..n])
                && tunnel.broken == old(tunnel.broken)
              else
                out <= old(buf[..n]) && tunnel.broken
    {
      chunkLen := if size > 0 then (size + 2) % TWO_32 else 0;
      var n := if size > 0 then k + 2 else k;
      left := used;
      ok, out := tunnel.ClientSend(buf[..n]);
      if !ok {
        return;
      }
      MoveDown(buf, used, n);
      left := used - n;
      phase := if size > 0 then Content else Footer;
    }

    /** The relay's loop body while it waits for a size line; `stop` when the source returns from inside it. */
    method HeaderTurn(buf: array<Octet>, used: nat) returns (left: nat, more: bool, stop: bool, ghost out: Bytes)
      requires State().Valid() && phase == Header && 0 < used <= buf.Length && !tunnel.broken
      modifies this, buf, tunnel
      ensures State().Valid() && left <= used
      ensures tunnel.sent == old(tunnel.sent) + out
      ensures !stop ==> more && !tunnel.broken
      ensures tunnel.broken ==> !more && out <= Run(old(State()), old(buf[..used])).out
      ensures !tunnel.broken && !stop ==>
                Run(old(State()), old(buf[..used])) == Run(State(), buf[..left]).After(out)
      ensures !tunnel.broken && stop ==>
                Run(old(State()), old(buf[..used])) == Relay(State(), out, buf[..left], more)
      ensures !stop ==> left < used
    {
      hide Run, Finish, SizeState, ScanHex, Find, Step, HeaderStep;
      ghost var now := buf[..used];
      RunHeader(State(), now);
      left, more, stop, out := used, true, true, [];
      var found := Scan(buf, used, CRLF);
      if found.None? {
        return;
      }
      var k := found.value;
      assert now[..Min(k, 31)] == buf[..Min(k, 31)];
      var size := ScanHex(buf[..Min(k, 31)]);
      if size.None? {
        more := false;
        return;
      }
      ghost var n := if size.value > 0 then k + 2 else k;
      assert now[..n] == buf[..n] && now[n..] == buf[n..used];
      var ok;
      left, ok, out := SendSizeLine(buf, used, k, size.value);
      if !ok {
        more := false;
        return;
      }
      if size.value > 0 {
        stop := false;
      } else {
        RunFooter(State(), buf[..left]);
        ghost var tail;
        left, more, tail := SendFooter(buf, left);
        assert old(tunnel.sent) + out + tail == old(tunnel.sent) + (out + tail);
        out := out + tail;
      }
    }

    /** The loop body while a chunk is under way. */
    method ContentTurn(buf: array<Octet>, used: nat) returns (left: nat, more: bool, stop: bool, ghost out: Bytes)
      requires State().Valid() && phase == Content && 0 < used <= buf.Length && !tunnel.broken
      modifies this, buf, tunnel
      ensures State().Valid() && left <= used
      ensures tunnel.sent == old(tunnel.sent) + out
      ensures !stop ==> more && !tunnel.broken
      ensures tunnel.broken ==> !more && out <= Run(old(State()), old(buf[..used])).out
      ensures !tunnel.broken && !stop ==>
                Run(old(State()), old(buf[..used])) == Run(State(), buf[..left]).After(out)
      ensures !tunnel.broken && stop ==>
                Run(old(State()), old(buf[..used])) == Relay(State(), out, buf[..left], more)
      ensures !stop ==> left < used || phase != Content
    {
      hide Run;
      ghost var now := buf[..used];
      RunOnce(State(), now);
      ghost var n := Min(used, chunkLen - sentChunk);
      assert Step(State(), now) == Go(ContentStep(State(), n), n);
      assert now[..n] == buf[..n] && now[n..] == buf[n..used];
      var ok;
      left, ok, out := SendContent(buf, used);
      more, stop := ok, !ok;
    }

    /** One pass through the relay's loop. */
    method Turn(buf: array<Octet>, used: nat) returns (left: nat, more: bool, stop: bool, ghost out: Bytes)
      requires State().Valid() && 0 < used <= buf.Length && !tunnel.broken
      modifies this, buf, tunnel
      ensures State().Valid() && left <= used
      ensures tunnel.sent == old(tunnel.sent) + out
      ensures !stop ==> more && !tunnel.broken
      ensures tunnel.broken ==> !more && out <= Run(old(State()), old(buf[..used])).out
      ensures !tunnel.broken && !stop ==>
                Run(old(State()), old(buf[..used])) == Run(State(), buf[..left]).After(out)
      ensures !tunnel.broken && stop ==>
                Run(old(State()), old(buf[..used])) == Relay(State(), out, buf[..left], more)
      ensures !stop ==> left < used || (left == used && old(phase) == Content && phase != Content)
    {
      hide Run, Finish;
      if phase == Header {
        left, more, stop, out := HeaderTurn(buf, used);
      } else if phase == Content {
        left, more, stop, out := ContentTurn(buf, used);
      } else {
        RunOnce(State(), buf[..used]);
        left, more, out := SendFooter(buf, used);
        stop := true;
      }
    }

    /** `http_chunk::processing`: consumes the first `used` octets of `buf` in place. */
    method Processing(buf: array<Octet>, used: nat) returns (left: nat, more: bool)
      requires State().Valid() && used <= buf.Length && !tunnel.broken
      modifies this, buf, tunnel
      ensures State().Valid() && left <= used
      ensures var whole := Run(old(State()), old(buf[..used])).After(old(tunnel.sent));
              if tunnel.broken then !more && old(tunnel.sent) <= tunnel.sent <= whole.out
              else Relay(State(), tunnel.sent, buf[..left], more) == whole
    {
      hide Run;
      left, more := used, true;
      ghost var total := Run(State(), buf[..used]).After(tunnel.sent);
      while left > 0
        invariant State().Valid() && left <= used && !tunnel.broken && more
        invariant old(tunnel.sent) <= tunnel.sent
        invariant total == Run(State(), buf[..left]).After(tunnel.sent)
        decreases left, if phase == Content then 1 else 0
      {
        ghost var sent := tunnel.sent;
        ghost var rest := Run(State(), buf[..left]);
        var stop;
        ghost var out;
        left, more, stop, out := Turn(buf, left);
        if stop {
          SentSoFar(sent, out, rest.out);
          return;
        }
        AfterTwice(Run(State(), buf[..left]), sent, out);
      }
      RunOnce(State(), buf[..left]);
    }
  }
}
