/** The state of one client-opened HTTP/2 stream (section 5.1 of RFC 7540), as the frames received and the
    answers the server gives while it handles them move it. */
module StreamState {
  import opened Octets

  datatype State =
    | Idle | Open | ReservedLocal | ReservedRemote
    | HalfClosedRemote | HalfClosedLocal | Closed

  /** The elementary acts that set the state, and the delivery of body octets, which does not. */
  datatype Act =
    | GotHeaders            // HEADERS accepted
    | GotBody(octets: Bytes)
    | GotEnd                // END_STREAM received
    | SentHeader            // response header sent
    | SentEnd               // END_STREAM sent
    | Reset                 // RST_STREAM received

  function After(s: State, a: Act): State {
    match a
    case GotHeaders => Open
    case SentHeader => Open
    case GotBody(_) => s
    case GotEnd => if s != HalfClosedLocal then HalfClosedRemote else Closed
    case SentEnd => if s != HalfClosedRemote then HalfClosedLocal else Closed
    case Reset => Closed
  }

  function AfterAll(s: State, acts: seq<Act>): State
    decreases |acts|
  {
    if acts == [] then s else AfterAll(After(s, acts[0]), acts[1..])
  }

  // ---- Frames ----

  /** What the server sends when it answers a request. */
  datatype Reply = ReplyHeader | ReplyEnd

  function Sent(r: Reply): Act {
    match r case ReplyHeader => SentHeader case ReplyEnd => SentEnd
  }

  function SentAll(rs: seq<Reply>): seq<Act> {
    seq(|rs|, i requires 0 <= i < |rs| => Sent(rs[i]))
  }

  /** A frame on the stream.  `compressed` is false when the header block cannot be parsed; `answer` is what
      `Response()` sends if handling the frame calls it, and that may be nothing. */
  datatype Frame =
    | Headers(compressed: bool, endHeaders: bool, endStream: bool, answer: seq<Reply>)
    | Continuation(compressed: bool, endHeaders: bool, answer: seq<Reply>)
    | Data(octets: Bytes, endStream: bool, answer: seq<Reply>)
    | RstStream
    | WindowUpdate
    | Priority
  {
    /** A header block is only looked at when it is complete. */
    function Answer(): seq<Reply> {
      match this
      case Headers(_, endHeaders, _, answer) => if endHeaders then answer else []
      case Continuation(_, endHeaders, answer) => if endHeaders then answer else []
      case Data(_, _, answer) => answer
      case _ => []
    }

    predicate Ends() {
      (Headers? && endStream) || (Data? && endStream)
    }
  }

  /** The frames a state admits at all. */
  predicate Admits(s: State, f: Frame) {
    match s
    case Idle => f.Headers? || f.Priority?
    case ReservedLocal => f.RstStream? || f.Priority? || f.WindowUpdate?
    case HalfClosedRemote => f.RstStream? || f.Priority? || f.WindowUpdate?
    case Closed => f.RstStream? || f.Priority? || f.WindowUpdate?
    case _ => true
  }

  function EndOf(f: Frame): seq<Act> {
    if f.Ends() then [GotEnd] else []
  }

  /** The acts a frame causes, and whether the connection goes on. */
  datatype Handled = Handled(acts: seq<Act>, ok: bool)

  function Handle(s: State, f: Frame): Handled {
    if !Admits(s, f) then Handled([], false)
    else
      match f
      case Headers(compressed, _, _, _) =>
        if !compressed then Handled([GotHeaders], false)
        else Handled([GotHeaders] + SentAll(f.Answer()) + EndOf(f), true)
      case Continuation(compressed, _, _) =>
        if !compressed then Handled([], false) else Handled(SentAll(f.Answer()), true)
      case Data(octets, _, _) =>
        if s != Open then Handled([], false)
        else Handled([GotBody(octets)] + SentAll(f.Answer()) + EndOf(f), true)
      case RstStream => Handled([Reset], true)
      case _ => Handled([], true)
  }

  class Http2Stream {
    var state: State
    var body: Bytes
    var erased: bool          // taken out of `m_stream_list`
    ghost var history: seq<Act>

    ghost predicate Valid()
      reads this
    {
      state == AfterAll(Idle, history) && body == BodyOf(history)
    }

    constructor ()
      ensures Valid() && state == Idle && history == [] && !erased
    {
      state, body, erased, history := Idle, [], false, [];
    }

    method Note(a: Act)
      requires Valid()
      modifies this`state, this`body, this`history
      ensures Valid() && history == old(history) + [a] && state == After(old(state), a)
    {
      AfterAppend(Idle, history, [a]);
      BodyAppend(history, [a]);
      state := After(state, a);
      if a.GotBody? {
        body := body + a.octets;
      }
      assert BodyOf([a]) == if a.GotBody? then a.octets else [];
      history := history + [a];
    }

    /** Sends part of an answer: its header opens the stream, its end closes the local side. */
    method Send(r: Reply)
      requires Valid()
      modifies this`state, this`body, this`history
      ensures Valid() && history == old(history) + [Sent(r)] && state == After(old(state), Sent(r))
    {
      match r
      case ReplyHeader => Note(SentHeader);
      case ReplyEnd => Note(SentEnd);
    }

    method SendAll(rs: seq<Reply>)
      requires Valid()
      modifies this`state, this`body, this`history
      ensures Valid() && history == old(history) + SentAll(rs)
    {
      var i := 0;
      while i < |rs|
        invariant 0 <= i <= |rs| && Valid()
        invariant history == old(history) + SentAll(rs[..i])
      {
        Send(rs[i]);
        assert SentAll(rs[..i + 1]) == SentAll(rs[..i]) + [Sent(rs[i])];
        i := i + 1;
      }
      assert rs[..i] == rs;
    }

    /** The stream's part of `ProtParse`.  A reset stream is erased: what follows on its identifier belongs to
        a new one. */
    method ProtParse(f: Frame) returns (ok: bool)
      requires Valid() && !erased
      modifies this
      ensures Valid() && (erased <==> ok && f.RstStream?)
      ensures var h := Handle(old(state), f); history == old(history) + h.acts && ok == h.ok
    {
      hide AfterAll, BodyOf, SentAll;
      if !Admits(state, f) {
        return false;
      }
      match f {
      case Headers(compressed, endHeaders, endStream, answer) =>
        Note(GotHeaders);
        if !compressed {
          return false;
        }
        if endHeaders {
          SendAll(answer);
        } else {
          SentNothing();
        }
        if endStream {
          Note(GotEnd);
        }
      case Continuation(compressed, endHeaders, answer) =>
        if !compressed {
          return false;
        }
        if endHeaders {
          SendAll(answer);
        } else {
          SentNothing();
        }
      case Data(octets, endStream, answer) =>
        if state != Open {
          return false;
        }
        Note(GotBody(octets));
        SendAll(answer);
        if endStream {
          Note(GotEnd);
        }
      case RstStream =>
        Note(Reset);
        erased := true;
      case _ =>
      }
      return true;
    }
  }

  lemma SentNothing()
    ensures SentAll([]) == []
  {
  }

  function BodyOf(acts: seq<Act>): Bytes {
    if acts == [] then []
    else (match acts[0] case GotBody(octets) => octets case _ => []) + BodyOf(acts[1..])
  }

  lemma {:induction false} AfterAppend(s: State, a: seq<Act>, b: seq<Act>)
    ensures AfterAll(s, a + b) == AfterAll(AfterAll(s, a), b)
    decreases |a|
  {
    if a == [] {
      assert a + b == b;
    } else {
      assert (a + b)[1..] == a[1..] + b;
      AfterAppend(After(s, a[0]), a[1..], b);
    }
  }

  lemma AfterOne(s: State, a: Act)
    ensures AfterAll(s, [a]) == After(s, a) && AfterAll(s, []) == s
  {
    assert [a][1..] == [];
  }

  lemma {:induction false} BodyAppend(a: seq<Act>, b: seq<Act>)
    ensures BodyOf(a + b) == BodyOf(a) + BodyOf(b)
  {
    if a == [] {
      assert a + b == b;
    } else {
      assert (a + b)[1..] == a[1..] + b;
      BodyAppend(a[1..], b);
    }
  }

  // ---- Runs ----

  /** The acts of a stream's life: it ends with the first frame that is refused, or with a reset. */
  function RunActs(s: State, fs: seq<Frame>): seq<Act>
    decreases |fs|
  {
    if fs == [] then []
    else
      var h := Handle(s, fs[0]);
      if h.ok && !fs[0].RstStream? then h.acts + RunActs(AfterAll(s, h.acts), fs[1..]) else h.acts
  }

  /** The frames of a run that are accepted, the reset included. */
  function Accepted(s: State, fs: seq<Frame>): seq<Frame>
    decreases |fs|
  {
    if fs == [] || !Handle(s, fs[0]).ok then []
    else if fs[0].RstStream? then [fs[0]]
    else [fs[0]] + Accepted(AfterAll(s, Handle(s, fs[0]).acts), fs[1..])
  }

  lemma RunOnce(s: State, fs: seq<Frame>)
    requires fs != []
    ensures var h := Handle(s, fs[0]);
            if h.ok && !fs[0].RstStream? then
              && RunActs(s, fs) == h.acts + RunActs(AfterAll(s, h.acts), fs[1..])
              && Accepted(s, fs) == [fs[0]] + Accepted(AfterAll(s, h.acts), fs[1..])
            else
              && RunActs(s, fs) == h.acts
              && Accepted(s, fs) == (if h.ok then [fs[0]] else [])
  {
    hide Handle, AfterAll;
  }

  // ---- Section 5.1 of RFC 7540, read off the frames alone ----

  ghost predicate Opened(fs: seq<Frame>) {
    exists f :: f in fs && f.Headers?
  }

  ghost predicate ClientEnded(fs: seq<Frame>) {
    exists f :: f in fs && f.Ends()
  }

  ghost predicate ServerEnded(fs: seq<Frame>) {
    exists f :: f in fs && ReplyEnd in f.Answer()
  }

  ghost predicate WasReset(fs: seq<Frame>) {
    exists f :: f in fs && f.RstStream?
  }

  ghost function Section51(fs: seq<Frame>): State {
    if WasReset(fs) then Closed
    else if !Opened(fs) then Idle
    else if ClientEnded(fs) then if ServerEnded(fs) then Closed else HalfClosedRemote
    else if ServerEnded(fs) then HalfClosedLocal
    else Open
  }

  lemma OneMore(fs: seq<Frame>, f: Frame)
    ensures Opened(fs + [f]) <==> Opened(fs) || f.Headers?
    ensures ClientEnded(fs + [f]) <==> ClientEnded(fs) || f.Ends()
    ensures ServerEnded(fs + [f]) <==> ServerEnded(fs) || ReplyEnd in f.Answer()
    ensures WasReset(fs + [f]) <==> WasReset(fs) || f.RstStream?
  {
    assert f in fs + [f];
    assert forall g | g in fs :: g in fs + [f];
    assert forall g | g in fs + [f] :: g in fs || g == f;
  }

  /** Answers end with their end: nothing is sent behind it. */
  predicate Proper(f: Frame) {
    var a := f.Answer();
    forall i | 0 <= i < |a| - 1 :: a[i] == ReplyHeader
  }

  /** Where a run is in its header block. */
  datatype Block = NotYet | Within | Past

  function NextBlock(b: Block, f: Frame): Option<Block> {
    match f
    case Headers(_, endHeaders, _, _) =>
      if b == NotYet then Some(if endHeaders then Past else Within) else None
    case Continuation(_, endHeaders, _) =>
      if b == Within then Some(if endHeaders then Past else Within) else None
    case _ => if b == Within then None else Some(b)
  }

  /** The frames are those of one request: one header block, its frames next to each other. */
  predicate Request(b: Block, fs: seq<Frame>)
    decreases |fs|
  {
    fs == [] ||
    (Proper(fs[0]) && NextBlock(b, fs[0]).Some? && Request(NextBlock(b, fs[0]).value, fs[1..]))
  }

  /** A header block may come in any number of parts. */
  lemma {:induction false} AnyNumberOfParts(n: nat, last: Frame, rest: seq<Frame>)
    requires last.Continuation? && last.endHeaders && Proper(last)
    ensures var parts := seq(n, _ => Continuation(true, false, []));
            Request(Within, parts + [last] + rest) <==> Request(Past, rest)
  {
    hide Proper;
    var parts := seq(n, _ => Continuation(true, false, []));
    var all := parts + [last] + rest;
    if n == 0 {
      assert all == [last] + rest && all[1..] == rest;
    } else {
      AnyNumberOfParts(n - 1, last, rest);
      assert all[1..] == seq(n - 1, _ => Continuation(true, false, [])) + [last] + rest;
      EmptyAnswerProper(all[0]);
    }
  }

  /** What ties the position in the block, the frames so far and the code's state together. */
  ghost predicate InStep(done: seq<Frame>, b: Block, s: State) {
    && s == Section51(done) && !WasReset(done)
    && (b == NotYet <==> !Opened(done))
    && (ServerEnded(done) ==> b == Past)
    && (!Opened(done) ==> !ClientEnded(done) && !ServerEnded(done))
    && (s == Closed ==> AnsweredAtEnd(done))
  }

  /** Some frame that ended the client's side was answered in full while it was handled. */
  ghost predicate AnsweredAtEnd(fs: seq<Frame>) {
    exists f :: f in fs && f.Ends() && ReplyEnd in f.Answer()
  }

  /** An answer leaves the stream open, or half-closed when it is complete. */
  lemma {:induction false} AfterAnswer(rs: seq<Reply>)
    requires forall i | 0 <= i < |rs| - 1 :: rs[i] == ReplyHeader
    ensures AfterAll(Open, SentAll(rs)) == if ReplyEnd in rs then HalfClosedLocal else Open
  {
    if rs != [] {
      assert SentAll(rs)[1..] == SentAll(rs[1..]);
      if rs[0] == ReplyEnd {
        assert rs[1..] == [];
      } else {
        AfterAnswer(rs[1..]);
      }
    }
  }

  lemma AfterFrame(s: State, first: Act, f: Frame)
    requires Proper(f) && After(s, first) == Open
    ensures var sent, acts := ReplyEnd in f.Answer(), [first] + SentAll(f.Answer()) + EndOf(f);
            AfterAll(s, acts) == (if f.Ends() then if sent then Closed else HalfClosedRemote
                                  else if sent then HalfClosedLocal else Open)
  {
    hide AfterAll, SentAll;
    AfterOne(s, first);
    AfterAppend(s, [first], SentAll(f.Answer()));
    AfterAnswer(f.Answer());
    AfterAppend(s, [first] + SentAll(f.Answer()), EndOf(f));
    AfterOne(AfterAll(s, [first] + SentAll(f.Answer())), GotEnd);
  }

  /** One accepted frame of a request: the code's state stays that of section 5.1. */
  lemma FrameInStep(done: seq<Frame>, b: Block, s: State, f: Frame)
    requires InStep(done, b, s) && Proper(f) && NextBlock(b, f).Some? && Handle(s, f).ok && !f.RstStream?
    ensures InStep(done + [f], NextBlock(b, f).value, AfterAll(s, Handle(s, f).acts))
  {
    hide AfterAll, SentAll, Proper, Opened, ClientEnded, ServerEnded, WasReset, AnsweredAtEnd;
    OneMore(done, f);
    EndMore(done, f);
    if f.Headers? {
      AfterFrame(s, GotHeaders, f);
    } else if f.Data? {
      AfterFrame(s, GotBody(f.octets), f);
    } else if f.Continuation? {
      AnswerOnly(s, f);
    } else {
      AfterOne(s, GotEnd);
    }
  }

  lemma AnswerOnly(s: State, f: Frame)
    requires Proper(f) && s == Open
    ensures AfterAll(s, SentAll(f.Answer())) == if ReplyEnd in f.Answer() then HalfClosedLocal else Open
  {
    AfterAnswer(f.Answer());
  }

  lemma EndMore(done: seq<Frame>, f: Frame)
    ensures AnsweredAtEnd(done) ==> AnsweredAtEnd(done + [f])
    ensures f.Ends() && ReplyEnd in f.Answer() ==> AnsweredAtEnd(done + [f])
  {
    assert f in done + [f];
    assert forall g | g in done :: g in done + [f];
  }

  /** What a run of one request makes of the stream, from any point of it on. */
  ghost predicate RunsRight(done: seq<Frame>, s: State, fs: seq<Frame>) {
    var all := done + Accepted(s, fs);
    var state := AfterAll(s, RunActs(s, fs));
    && (state == Closed <==> Section51(all) == Closed)
    && (state == Closed ==> WasReset(all) || AnsweredAtEnd(all))
    && (state == Section51(all) || (Section51(all) == Idle && state == Open))
    && (!Opened(all) ==> !ClientEnded(all) && !ServerEnded(all))
  }

  lemma {:induction false} RequestRuns(done: seq<Frame>, b: Block, s: State, fs: seq<Frame>)
    requires InStep(done, b, s) && Request(b, fs)
    ensures RunsRight(done, s, fs)
    decreases |fs|
  {
    hide AfterAll, RunActs, Accepted, Handle, Opened, ClientEnded, ServerEnded, WasReset, AnsweredAtEnd;
    if fs == [] {
      RunNothing(s);
      assert done + [] == done;
    } else {
      var f, h := fs[0], Handle(s, fs[0]);
      RunOnce(s, fs);
      if h.ok && !f.RstStream? {
        var s', rest := AfterAll(s, h.acts), fs[1..];
        FrameInStep(done, b, s, f);
        RequestRuns(done + [f], NextBlock(b, f).value, s', rest);
        AfterAppend(s, h.acts, RunActs(s', rest));
        assert done + [f] + Accepted(s', rest) == done + ([f] + Accepted(s', rest));
      } else if h.ok {
        OneMore(done, f);
        ResetActs(s, f);
      } else {
        assert done + [] == done;
        RefusedActs(s, f);
      }
    }
  }

  lemma RunNothing(s: State)
    ensures RunActs(s, []) == [] && Accepted(s, []) == [] && AfterAll(s, []) == s
  {
  }

  lemma ResetActs(s: State, f: Frame)
    requires f.RstStream? && Handle(s, f).ok
    ensures AfterAll(s, Handle(s, f).acts) == Closed
  {
    AfterOne(s, Reset);
  }

  /** A refused frame changes nothing, except that a broken header block has opened an idle stream. */
  lemma RefusedActs(s: State, f: Frame)
    requires !Handle(s, f).ok
    ensures var t := AfterAll(s, Handle(s, f).acts); t == s || (f.Headers? && t == Open)
  {
    AfterOne(s, GotHeaders);
  }

  /** Main result: over every run of one request's frames the code's state is the one that section 5.1 reads off
      the frames accepted, so the stream is closed exactly when it was reset or both sides have ended.  (A header
      block that cannot be parsed leaves the stream open and ends the connection.) */
  lemma FollowsSection51(fs: seq<Frame>)
    requires Request(NotYet, fs)
    ensures var accepted := Accepted(Idle, fs);
            var state := AfterAll(Idle, RunActs(Idle, fs));
            && (state == Section51(accepted) || (Section51(accepted) == Idle && state == Open))
            && (state == Closed <==> WasReset(accepted) || (ClientEnded(accepted) && ServerEnded(accepted)))
  {
    hide AfterAll, RunActs, Accepted, Opened, ClientEnded, ServerEnded, WasReset, AnsweredAtEnd;
    NothingSeen();
    RequestRuns([], NotYet, Idle, fs);
    assert [] + Accepted(Idle, fs) == Accepted(Idle, fs);
  }

  lemma NothingSeen()
    ensures InStep([], NotYet, Idle)
  {
  }

  /** When that is, said of one frame: a request's stream is closed exactly when it was reset, or some frame that
      carries END_STREAM was answered in full while it was handled.  An answer in full to any other frame leaves
      it half-closed for good. */
  lemma ClosedExactly(fs: seq<Frame>)
    requires Request(NotYet, fs)
    ensures var accepted := Accepted(Idle, fs);
            AfterAll(Idle, RunActs(Idle, fs)) == Closed <==> WasReset(accepted) || AnsweredAtEnd(accepted)
  {
    hide AfterAll, RunActs, Accepted, Opened, WasReset;
    NothingSeen();
    RequestRuns([], NotYet, Idle, fs);
    assert [] + Accepted(Idle, fs) == Accepted(Idle, fs);
  }

  /** A request whose body is complete before its END_STREAM comes is answered, and the END_STREAM, in an empty
      DATA frame, is then refused and ends the connection: section 5.1 admits it on a stream half-closed by the
      server. */
  lemma LateEndRefused(octets: Bytes)
    ensures var post := Headers(true, true, false, []);
            var body := Data(octets, false, [ReplyHeader, ReplyEnd]);
            var fs := [post, body, Data([], true, [])];
            && Request(NotYet, fs) && Accepted(Idle, fs) == [post, body]
            && Section51([post, body]) == HalfClosedLocal == AfterAll(Idle, RunActs(Idle, fs))
  {
    hide AfterAll, SentAll;
    var post := Headers(true, true, false, []);
    var body := Data(octets, false, [ReplyHeader, ReplyEnd]);
    var last := Data([], true, []);
    var fs := [post, body, last];
    assert fs[1..] == [body, last] && [body, last][1..] == [last] && [last][1..] == [];
    assert NextBlock(NotYet, post) == Some(Past) && NextBlock(Past, body) == Some(Past);
    assert Request(Past, []) && Request(Past, [last]) && Request(Past, [body, last]);
    RunOnce(Idle, fs);
    AfterFrame(Idle, GotHeaders, post);
    RunOnce(Open, [body, last]);
    AfterFrame(Open, GotBody(octets), body);
    RunOnce(HalfClosedLocal, [last]);
    var done := [post, body];
    assert post in done && body in done && ReplyEnd in body.Answer();
    assert [post] + ([body] + []) == done;
    FollowsSection51(fs);
  }

  /** So is the second part of a header block whose first part carries END_STREAM, which section 6.10 asks for:
      such a request is never answered. */
  lemma SplitHeaderRefused(answer: seq<Reply>)
    requires Proper(Continuation(true, true, answer))
    ensures var first := Headers(true, false, true, []);
            var fs := [first, Continuation(true, true, answer)];
            Request(NotYet, fs) && Accepted(Idle, fs) == [first] && !ServerEnded([first])
  {
    hide AfterAll, SentAll, Proper;
    var first, second := Headers(true, false, true, []), Continuation(true, true, answer);
    assert [first, second][1..] == [second] && [second][1..] == [];
    EmptyAnswerProper(first);
    assert NextBlock(NotYet, first) == Some(Within) && NextBlock(Within, second) == Some(Past);
    assert Request(Past, []) && Request(Within, [second]) && Request(NotYet, [first, second]);
    RunOnce(Idle, [first, second]);
    AfterFrame(Idle, GotHeaders, first);
    RunOnce(HalfClosedRemote, [second]);
  }

  lemma EmptyAnswerProper(f: Frame)
    requires f.Answer() == []
    ensures Proper(f)
  {
  }

  // ---- Any frames ----

  /** The server's end stands: nothing opened the stream behind it. */
  ghost predicate EndStands(acts: seq<Act>) {
    exists i :: 0 <= i < |acts| && acts[i] == SentEnd && forall j | i < j < |acts| :: !Opens(acts[j])
  }

  predicate Opens(a: Act) {
    a.GotHeaders? || a.SentHeader?
  }

  lemma StandsOneMore(front: seq<Act>, last: Act)
    ensures EndStands(front + [last]) <==> last == SentEnd || (EndStands(front) && !Opens(last))
  {
    var acts, n := front + [last], |front|;
    if last == SentEnd {
      assert acts[n] == SentEnd;
    } else if EndStands(front) && !Opens(last) {
      var i :| 0 <= i < n && front[i] == SentEnd && forall j | i < j < n :: !Opens(front[j]);
      assert acts[i] == SentEnd && forall j | i < j < |acts| :: !Opens(acts[j]);
    }
    if EndStands(acts) && last != SentEnd {
      var i :| 0 <= i < |acts| && acts[i] == SentEnd && forall j | i < j < |acts| :: !Opens(acts[j]);
      assert i < n && front[i] == SentEnd;
      assert forall j | i < j < n :: front[j] == acts[j];
      assert !Opens(acts[n]);
    }
  }

  lemma {:induction false} LocalState(acts: seq<Act>)
    requires GotEnd !in acts && Reset !in acts
    ensures var s := AfterAll(Idle, acts);
            (s == Idle || s == Open || s == HalfClosedLocal) && (s == HalfClosedLocal <==> EndStands(acts))
  {
    hide EndStands, AfterAll;
    if acts == [] {
      NoActs();
    } else {
      var n := |acts| - 1;
      var front, last := acts[..n], acts[n];
      LocalState(front);
      assert acts == front + [last];
      AfterAppend(Idle, front, [last]);
      AfterOne(AfterAll(Idle, front), last);
      StandsOneMore(front, last);
    }
  }

  lemma NoActs()
    ensures AfterAll(Idle, []) == Idle && !EndStands([])
  {
  }

  /** Behind END_STREAM a stream accepts nothing that acts on it, except a reset. */
  lemma {:induction false} NothingBehindEnd(s: State, fs: seq<Frame>)
    requires s == HalfClosedRemote || s == Closed
    requires forall f | f in fs :: !f.RstStream?
    ensures RunActs(s, fs) == []
    decreases |fs|
  {
    hide AfterAll, RunActs, Accepted;
    if fs == [] {
      RunNothing(s);
    } else {
      RunOnce(s, fs);
      AfterOne(s, GotEnd);
      if Handle(s, fs[0]).ok {
        NothingBehindEnd(s, fs[1..]);
      }
    }
  }

  /** END_STREAM is the last act, if it is one at all, and there is no reset. */
  ghost predicate EndLast(acts: seq<Act>) {
    Reset !in acts && (GotEnd in acts ==> acts[|acts| - 1] == GotEnd && GotEnd !in acts[..|acts| - 1])
  }

  lemma EndLastBehind(a: seq<Act>, b: seq<Act>)
    requires GotEnd !in a && Reset !in a && EndLast(b)
    ensures EndLast(a + b)
  {
    if GotEnd in b {
      assert (a + b)[..|a + b| - 1] == a + b[..|b| - 1];
    }
  }

  lemma FrameEndLast(s: State, f: Frame)
    requires !f.RstStream?
    ensures EndLast(Handle(s, f).acts)
  {
    hide Handle;
    NoResetActs(s, f);
    if GotEnd in Handle(s, f).acts {
      EndShape(s, f);
    }
  }

  lemma {:induction false} EndIsLast(s: State, fs: seq<Frame>)
    requires forall f | f in fs :: !f.RstStream?
    ensures EndLast(RunActs(s, fs))
    decreases |fs|
  {
    hide AfterAll, RunActs, Accepted, Handle, EndLast;
    if fs == [] {
      RunNothing(s);
      EndLastNone();
    } else {
      var f, h := fs[0], Handle(s, fs[0]);
      assert f in fs;
      RunOnce(s, fs);
      FrameEndLast(s, f);
      if h.ok {
        var t, rest := AfterAll(s, h.acts), fs[1..];
        if GotEnd in h.acts {
          EndLeaves(s, f);
          NothingBehindEnd(t, rest);
          assert h.acts + [] == h.acts;
        } else {
          EndIsLast(t, rest);
          NoResetActs(s, f);
          EndLastBehind(h.acts, RunActs(t, rest));
        }
      }
    }
  }

  lemma EndLastNone()
    ensures EndLast([])
  {
  }

  lemma NoResetActs(s: State, f: Frame)
    requires !f.RstStream?
    ensures Reset !in Handle(s, f).acts
  {
    hide SentAll;
    NoEndSent(f.Answer());
  }

  lemma NoEndSent(rs: seq<Reply>)
    ensures GotEnd !in SentAll(rs) && Reset !in SentAll(rs)
  {
  }

  /** END_STREAM is handled behind everything else a frame causes. */
  lemma EndShape(s: State, f: Frame)
    requires GotEnd in Handle(s, f).acts
    ensures var acts := Handle(s, f).acts;
            acts[|acts| - 1] == GotEnd && GotEnd !in acts[..|acts| - 1]
  {
    hide AfterAll, SentAll, Frame.Answer;
    var acts := Handle(s, f).acts;
    NoEndSent(f.Answer());
    var first := if f.Data? then GotBody(f.octets) else GotHeaders;
    var front := [first] + SentAll(f.Answer());
    assert f.Headers? || f.Data?;
    assert f.Ends();
    assert acts == front + [GotEnd] && acts[..|acts| - 1] == front;
  }

  lemma EndLeaves(s: State, f: Frame)
    requires GotEnd in Handle(s, f).acts
    ensures var t := AfterAll(s, Handle(s, f).acts); t == HalfClosedRemote || t == Closed
  {
    hide AfterAll, Handle;
    EndShape(s, f);
    var acts := Handle(s, f).acts;
    var front := acts[..|acts| - 1];
    assert acts == front + [GotEnd];
    AfterAppend(s, front, [GotEnd]);
    AfterOne(AfterAll(s, front), GotEnd);
  }

  /** Main result, for any frames and any answers, more than one header block and headers sent behind an end
      included: without a reset the stream is closed exactly when END_STREAM was accepted and the server's end
      stands. */
  lemma ClosedByAnyFrames(fs: seq<Frame>)
    requires forall f | f in fs :: !f.RstStream?
    ensures var acts := RunActs(Idle, fs);
            AfterAll(Idle, acts) == Closed <==> GotEnd in acts && EndStands(acts)
  {
    hide AfterAll, RunActs, EndStands;
    var acts := RunActs(Idle, fs);
    EndIsLast(Idle, fs);
    if GotEnd in acts {
      var front := acts[..|acts| - 1];
      assert acts == front + [GotEnd];
      LocalState(front);
      AfterAppend(Idle, front, [GotEnd]);
      AfterOne(AfterAll(Idle, front), GotEnd);
      StandsOneMore(front, GotEnd);
    } else {
      LocalState(acts);
    }
  }

  // ---- Bodies ----

  function DataOctets(fs: seq<Frame>): Bytes {
    if fs == [] then [] else (if fs[0].Data? then fs[0].octets else []) + DataOctets(fs[1..])
  }

  lemma {:induction false} NoBody(acts: seq<Act>)
    requires forall i | 0 <= i < |acts| :: !acts[i].GotBody?
    ensures BodyOf(acts) == []
  {
    if acts != [] {
      NoBody(acts[1..]);
    }
  }

  /** An accepted frame delivers its DATA octets, a refused one nothing. */
  lemma FrameBody(s: State, f: Frame)
    ensures var h := Handle(s, f);
            BodyOf(h.acts) == (if h.ok && f.Data? then f.octets else [])
  {
    hide BodyOf;
    var h := Handle(s, f);
    if h.ok && f.Data? {
      var rest := SentAll(f.Answer()) + EndOf(f);
      BodyAppend([GotBody(f.octets)], rest);
      NoBody(rest);
      BodyOfOne(f.octets);
      assert h.acts == [GotBody(f.octets)] + rest;
    } else {
      NoBody(h.acts);
    }
  }

  lemma BodyOfOne(octets: Bytes)
    ensures BodyOf([GotBody(octets)]) == octets
  {
    assert [GotBody(octets)][1..] == [];
  }

  lemma {:induction false} RunBody(s: State, fs: seq<Frame>)
    ensures BodyOf(RunActs(s, fs)) == DataOctets(Accepted(s, fs)) && Accepted(s, fs) <= fs
    decreases |fs|
  {
    hide Handle, AfterAll, RunActs, Accepted, BodyOf;
    if fs == [] {
      RunNothing(s);
      NoBody([]);
    } else {
      var f, h := fs[0], Handle(s, fs[0]);
      RunOnce(s, fs);
      FrameBody(s, f);
      if h.ok && !f.RstStream? {
        var t, rest := AfterAll(s, h.acts), fs[1..];
        RunBody(t, rest);
        BodyAppend(h.acts, RunActs(t, rest));
        assert ([f] + Accepted(t, rest))[1..] == Accepted(t, rest);
        assert fs == [f] + rest;
      } else if h.ok {
        assert [f][1..] == [];
      }
    }
  }

  // ---- What an accepted frame does, read off its fields ----

  /** HEADERS opens the stream; the frame that completes the header block sends its answer, in order; DATA hands its
      octets on and sends its answer; END_STREAM comes last. */
  function ActsRead(f: Frame): seq<Act> {
    match f
    case Headers(_, endHeaders, endStream, answer) =>
      [GotHeaders] + (if endHeaders then ActsSent(answer) else []) + (if endStream then [GotEnd] else [])
    case Continuation(_, endHeaders, answer) => if endHeaders then ActsSent(answer) else []
    case Data(octets, endStream, answer) =>
      [GotBody(octets)] + ActsSent(answer) + (if endStream then [GotEnd] else [])
    case RstStream => [Reset]
    case _ => []
  }

  function ActsSent(answer: seq<Reply>): seq<Act> {
    if answer == [] then []
    else [if answer[0] == ReplyHeader then SentHeader else SentEnd] + ActsSent(answer[1..])
  }

  function AllActsRead(fs: seq<Frame>): seq<Act> {
    if fs == [] then [] else ActsRead(fs[0]) + AllActsRead(fs[1..])
  }

  lemma {:induction false} SentAllRead(answer: seq<Reply>)
    ensures SentAll(answer) == ActsSent(answer)
  {
    if answer != [] {
      SentAllRead(answer[1..]);
      assert SentAll(answer) == [Sent(answer[0])] + SentAll(answer[1..]);
    }
  }

  lemma FrameRead(s: State, f: Frame)
    ensures var h := Handle(s, f);
            if h.ok then h.acts == ActsRead(f)
            else h.acts == [] || (h.acts == [GotHeaders] && f.Headers? && !f.compressed)
  {
    hide SentAll, ActsSent;
    SentNothing();
    match f
    case Headers(_, _, _, answer) => SentAllRead(answer);
    case Continuation(_, _, answer) => SentAllRead(answer);
    case Data(_, _, answer) => SentAllRead(answer);
    case _ =>
  }

  /** Where section 5.1 has nothing more to come from the client, or nothing yet, no header, body or answer is taken or
      sent; before the opening there is only that. */
  lemma QuietStates(s: State, f: Frame)
    ensures s == ReservedLocal || s == HalfClosedRemote || s == Closed ==>
              && (Handle(s, f).ok <==> !f.Headers? && !f.Continuation? && !f.Data?)
              && Handle(s, f).acts == (if f.RstStream? then [Reset] else [])
    ensures s == Idle && !f.Headers? ==> (Handle(s, f).ok <==> f.Priority?) && Handle(s, f).acts == []
  {
  }

  /** Main result: over any run the stream's acts are those of the frames accepted, in order.  (A header block that
      cannot be parsed still opens the stream before the connection ends.) */
  lemma {:induction false} RunRead(s: State, fs: seq<Frame>)
    ensures var accepted, acts := Accepted(s, fs), RunActs(s, fs);
            acts == AllActsRead(accepted)
            || (|accepted| < |fs| && fs[|accepted|].Headers? && !fs[|accepted|].compressed
                && acts == AllActsRead(accepted) + [GotHeaders])
    decreases |fs|
  {
    hide AfterAll, RunActs, Accepted, Handle, ActsRead;
    if fs == [] {
      RunNothing(s);
    } else {
      var f, h := fs[0], Handle(s, fs[0]);
      RunOnce(s, fs);
      FrameRead(s, f);
      if h.ok && !f.RstStream? {
        var t, rest := AfterAll(s, h.acts), fs[1..];
        RunRead(t, rest);
        var accepted := Accepted(t, rest);
        assert ([f] + accepted)[1..] == accepted;
        assert h.acts + (AllActsRead(accepted) + [GotHeaders]) == h.acts + AllActsRead(accepted) + [GotHeaders];
      } else if h.ok {
        assert [f][1..] == [] && h.acts + [] == h.acts;
      }
    }
  }

  /** A request that is one HEADERS frame is answered in it, and closed by it when the answer is complete. */
  lemma OneFrameRequest(answer: seq<Reply>)
    requires forall i | 0 <= i < |answer| - 1 :: answer[i] == ReplyHeader
    ensures var acts := RunActs(Idle, [Headers(true, true, true, answer)]);
            && acts == [GotHeaders] + ActsSent(answer) + [GotEnd]
            && (AfterAll(Idle, acts) == Closed <==> ReplyEnd in answer)
  {
    hide AfterAll, SentAll, ActsSent;
    var f := Headers(true, true, true, answer);
    RunOnce(Idle, [f]);
    RunNothing(AfterAll(Idle, Handle(Idle, f).acts));
    assert [f][1..] == [];
    var acts := Handle(Idle, f).acts;
    assert acts + [] == acts;
    SentAllRead(answer);
    AfterFrame(Idle, GotHeaders, f);
  }

  // ---- Which frames are accepted ----

  /** Whether a frame of a request is accepted, read off the frames before it. */
  ghost predicate Takes(done: seq<Frame>, f: Frame) {
    match f
    case Headers(compressed, _, _, _) => compressed
    case Continuation(compressed, _, _) => compressed && !ClientEnded(done)
    case Data(_, _, _) => Section51(done) == Open
    case Priority => true
    case _ => Opened(done)
  }

  lemma TakesExactly(done: seq<Frame>, b: Block, s: State, f: Frame)
    requires InStep(done, b, s) && NextBlock(b, f).Some?
    ensures Handle(s, f).ok <==> Takes(done, f)
  {
    hide SentAll, Opened, ClientEnded, ServerEnded, WasReset, AnsweredAtEnd;
  }

  /** The frames accepted are those up to the first that is not taken, or up to a reset. */
  ghost predicate TakenWhole(done: seq<Frame>, accepted: seq<Frame>, fs: seq<Frame>) {
    && accepted <= fs
    && (forall i | 0 <= i < |accepted| :: Takes(done + accepted[..i], accepted[i]))
    && (forall i | 0 <= i < |accepted| - 1 :: !accepted[i].RstStream?)
    && (|accepted| < |fs| ==>
          !Takes(done + accepted, fs[|accepted|]) || (accepted != [] && accepted[|accepted| - 1].RstStream?))
  }

  lemma {:induction false} RequestTakes(done: seq<Frame>, b: Block, s: State, fs: seq<Frame>)
    requires InStep(done, b, s) && Request(b, fs)
    ensures TakenWhole(done, Accepted(s, fs), fs)
    decreases |fs|
  {
    hide AfterAll, RunActs, Accepted, Handle, Takes, InStep;
    if fs == [] {
      RunNothing(s);
    } else {
      var f, h := fs[0], Handle(s, fs[0]);
      RunOnce(s, fs);
      TakesExactly(done, b, s, f);
      assert done + [] == done;
      if h.ok && !f.RstStream? {
        var t, rest := AfterAll(s, h.acts), fs[1..];
        FrameInStep(done, b, s, f);
        RequestTakes(done + [f], NextBlock(b, f).value, t, rest);
        TakenShift(done, f, Accepted(t, rest), rest, fs);
      } else if h.ok {
        assert [f][..0] == [];
      }
    }
  }

  lemma TakenShift(done: seq<Frame>, f: Frame, accepted: seq<Frame>, rest: seq<Frame>, fs: seq<Frame>)
    requires fs == [f] + rest && TakenWhole(done + [f], accepted, rest)
    requires Takes(done, f) && !f.RstStream?
    ensures TakenWhole(done, [f] + accepted, fs)
  {
    hide Takes;
    var all := [f] + accepted;
    assert done + [f] + accepted == done + all;
    forall i | 0 <= i < |all|
      ensures Takes(done + all[..i], all[i])
    {
      if i == 0 {
        assert done + all[..0] == done;
      } else {
        assert done + [f] + accepted[..i - 1] == done + all[..i];
      }
    }
  }

  /** Main result: over every run of a request's frames, those accepted are the longest beginning of which `Takes`
      holds frame by frame, ended by a reset.  In particular a CONTINUATION that parses is refused exactly behind
      END_STREAM, and DATA exactly when section 5.1 does not call the stream open. */
  lemma AcceptedExactly(fs: seq<Frame>)
    requires Request(NotYet, fs)
    ensures var accepted := Accepted(Idle, fs);
            && accepted <= fs
            && (forall i | 0 <= i < |accepted| :: Takes(accepted[..i], accepted[i]))
            && (forall i | 0 <= i < |accepted| - 1 :: !accepted[i].RstStream?)
            && (|accepted| < |fs| ==>
                  !Takes(accepted, fs[|accepted|]) || (accepted != [] && accepted[|accepted| - 1].RstStream?))
  {
    hide Accepted, Takes;
    NothingSeen();
    RequestTakes([], NotYet, Idle, fs);
    var accepted := Accepted(Idle, fs);
    assert [] + accepted == accepted;
    assert forall i | 0 <= i < |accepted| :: [] + accepted[..i] == accepted[..i];
  }

  /** What sections 5.1 and 6 let a client send of one request: nothing but PRIORITY in front of HEADERS, no DATA
      behind its own END_STREAM, nothing behind a reset. */
  ghost predicate MaySend(fs: seq<Frame>) {
    forall i | 0 <= i < |fs| ::
      && (fs[i].Data? ==> Opened(fs[..i]) && !ClientEnded(fs[..i]))
      && (fs[i].WindowUpdate? || fs[i].RstStream? ==> Opened(fs[..i]))
      && (fs[i].RstStream? ==> i == |fs| - 1)
  }

  predicate AllParse(fs: seq<Frame>) {
    forall f | f in fs :: (f.Headers? || f.Continuation?) ==> f.compressed
  }

  /** No part of the header block comes behind END_STREAM. */
  predicate BlockInTime(fs: seq<Frame>) {
    forall i, j | 0 <= i < j < |fs| && fs[j].Continuation? :: !fs[i].Ends()
  }

  /** No DATA comes behind the end of the answer. */
  predicate DataInTime(fs: seq<Frame>) {
    forall i, j | 0 <= i < j < |fs| && fs[j].Data? :: ReplyEnd !in fs[i].Answer()
  }

  lemma AllTaken(fs: seq<Frame>)
    requires Request(NotYet, fs)
    ensures Accepted(Idle, fs) == fs
       <==> (forall i | 0 <= i < |fs| :: Takes(fs[..i], fs[i]) && (i < |fs| - 1 ==> !fs[i].RstStream?))
  {
    hide Accepted, Takes;
    AcceptedExactly(fs);
    var accepted := Accepted(Idle, fs);
    var n := |accepted|;
    assert accepted == fs[..n];
    if n == |fs| {
      assert forall i | 0 <= i < |fs| :: accepted[..i] == fs[..i];
    } else if accepted != [] && accepted[n - 1].RstStream? {
      assert fs[n - 1].RstStream?;
    }
  }

  lemma EndsBefore(fs: seq<Frame>, n: nat)
    requires n <= |fs|
    ensures ClientEnded(fs[..n]) <==> exists i :: 0 <= i < n && fs[i].Ends()
    ensures ServerEnded(fs[..n]) <==> exists i :: 0 <= i < n && ReplyEnd in fs[i].Answer()
    ensures WasReset(fs[..n]) <==> exists i :: 0 <= i < n && fs[i].RstStream?
  {
    assert forall i | 0 <= i < n :: fs[i] == fs[..n][i] && fs[i] in fs[..n];
  }

  /** Main result: of the frames a client may send, all are accepted if and only if every part of the header block
      can be parsed, no part of it comes behind END_STREAM, and no DATA comes behind the end of the answer.
      Sections 6.2 and 5.1 ask for the first of these only. */
  lemma RequestTaken(fs: seq<Frame>)
    requires Request(NotYet, fs) && MaySend(fs)
    ensures Accepted(Idle, fs) == fs <==> AllParse(fs) && BlockInTime(fs) && DataInTime(fs)
  {
    hide Accepted, Opened, ClientEnded, ServerEnded, WasReset, Frame.Ends, Frame.Answer, Request;
    AllTaken(fs);
    forall i | 0 <= i < |fs|
      ensures Takes(fs[..i], fs[i]) <==> TakenAt(fs, i)
    {
      EndsBefore(fs, i);
    }
    assert AllParse(fs) && BlockInTime(fs) && DataInTime(fs) <==> forall i | 0 <= i < |fs| :: TakenAt(fs, i) by {
      TakenAtAll(fs);
    }
  }

  /** What the three conditions ask of one frame. */
  ghost predicate TakenAt(fs: seq<Frame>, j: nat)
    requires j < |fs|
  {
    match fs[j]
    case Headers(compressed, _, _, _) => compressed
    case Continuation(compressed, _, _) => compressed && forall i | 0 <= i < j :: !fs[i].Ends()
    case Data(_, _, _) => forall i | 0 <= i < j :: ReplyEnd !in fs[i].Answer()
    case _ => true
  }

  lemma TakenAtAll(fs: seq<Frame>)
    ensures AllParse(fs) && BlockInTime(fs) && DataInTime(fs) <==> forall i | 0 <= i < |fs| :: TakenAt(fs, i)
  {
    hide Frame.Ends, Frame.Answer;
    if AllParse(fs) {
      assert forall i | 0 <= i < |fs| :: fs[i] in fs;
    }
    if forall i | 0 <= i < |fs| :: TakenAt(fs, i) {
      forall f | f in fs
        ensures (f.Headers? || f.Continuation?) ==> f.compressed
      {
        var i :| 0 <= i < |fs| && fs[i] == f;
        assert TakenAt(fs, i);
      }
      forall i, j | 0 <= i < j < |fs|
        ensures fs[j].Continuation? ==> !fs[i].Ends()
        ensures fs[j].Data? ==> ReplyEnd !in fs[i].Answer()
      {
        assert TakenAt(fs, j);
      }
    }
  }

  /** Where the header block stands behind the frames. */
  function BlockAfter(b: Block, fs: seq<Frame>): Block
    requires Request(b, fs)
    decreases |fs|
  {
    if fs == [] then b else BlockAfter(NextBlock(b, fs[0]).value, fs[1..])
  }

  /** Once the block is complete, that no part comes behind END_STREAM is to say that a HEADERS frame with END_STREAM
      also has END_HEADERS. */
  lemma BlockInTimeExactly(fs: seq<Frame>)
    requires Request(NotYet, fs) && BlockAfter(NotYet, fs) == Past && MaySend(fs)
    ensures BlockInTime(fs) <==> forall f | f in fs && f.Headers? && f.endStream :: f.endHeaders
  {
    hide Request, MaySend, BlockAfter;
    if forall f | f in fs && f.Headers? && f.endStream :: f.endHeaders {
      forall i, j | 0 <= i < j < |fs| && fs[j].Continuation?
        ensures !fs[i].Ends()
      {
        assert fs[i] in fs;
        OnlyHeadersInFront(fs, i, j);
      }
    } else {
      var f :| f in fs && f.Headers? && f.endStream && !f.endHeaders;
      var i :| 0 <= i < |fs| && fs[i] == f;
      NextContinues(fs, i);
      assert fs[i].Ends();
    }
  }

  lemma OnlyHeadersInFront(fs: seq<Frame>, i: nat, j: nat)
    requires Request(NotYet, fs) && BlockAfter(NotYet, fs) == Past && MaySend(fs)
    requires i < j < |fs| && fs[j].Continuation?
    ensures !fs[i].Data? && (fs[i].Headers? ==> !fs[i].endHeaders)
  {
    hide Request, BlockAfter;
    BlockShape(NotYet, fs);
    if fs[i].Data? {
      assert false;
    }
  }

  lemma NextContinues(fs: seq<Frame>, i: nat)
    requires Request(NotYet, fs) && BlockAfter(NotYet, fs) == Past
    requires i < |fs| && fs[i].Headers? && !fs[i].endHeaders
    ensures i + 1 < |fs| && fs[i + 1].Continuation?
  {
    hide Request, BlockAfter;
    BlockShape(NotYet, fs);
  }

  /** Behind HEADERS come CONTINUATION frames and nothing else while the block is incomplete. */
  lemma {:induction false} BlockShape(b: Block, fs: seq<Frame>)
    requires Request(b, fs) && BlockAfter(b, fs) == Past
    ensures b == Within ==> fs != [] && fs[0].Continuation?
    ensures b == Past ==> forall i | 0 <= i < |fs| :: !fs[i].Continuation? && !fs[i].Headers?
    ensures b == Within ==> forall i | 0 <= i < |fs| :: !fs[i].Headers?
    ensures forall i | 0 <= i < |fs| - 1 && fs[i].Headers? && !fs[i].endHeaders :: fs[i + 1].Continuation?
    ensures forall i | 0 <= i < |fs| && fs[i].Headers? && !fs[i].endHeaders :: i + 1 < |fs|
    ensures forall i, j | 0 <= i < j < |fs| && fs[i].Headers? && fs[i].endHeaders :: !fs[j].Continuation?
    ensures forall i, j | 0 <= i < j < |fs| && fs[i].Data? && fs[j].Continuation? ::
              b == NotYet && forall k | 0 <= k < i :: !fs[k].Headers?
    decreases |fs|
  {
    if fs != [] {
      var rest := fs[1..];
      BlockShape(NextBlock(b, fs[0]).value, rest);
      assert forall i | 1 <= i < |fs| :: fs[i] == rest[i - 1];
    }
  }

  /** Main result: the body given to HTTP/1 is the DATA octets of the frames accepted, in order; they are accepted
      exactly while HEADERS has come, neither side has ended and no reset came, and the first DATA frame outside
      that span ends the run. */
  lemma BodyIsDataWhileOpen(fs: seq<Frame>)
    requires Request(NotYet, fs)
    ensures var accepted := Accepted(Idle, fs);
            && accepted <= fs
            && BodyOf(RunActs(Idle, fs)) == DataOctets(accepted)
            && (forall i | 0 <= i < |accepted| && accepted[i].Data? :: Section51(accepted[..i]) == Open)
            && (|accepted| < |fs| && fs[|accepted|].Data? ==> Section51(accepted) != Open)
  {
    hide RunActs, Accepted, Opened, ClientEnded, ServerEnded, WasReset, BodyOf, DataOctets;
    RunBody(Idle, fs);
    AcceptedExactly(fs);
    var accepted := Accepted(Idle, fs);
    if accepted != [] && accepted[|accepted| - 1].RstStream? {
      ResetSeen(accepted[..|accepted| - 1], accepted[|accepted| - 1]);
      assert accepted == accepted[..|accepted| - 1] + [accepted[|accepted| - 1]];
    }
  }

  lemma ResetSeen(done: seq<Frame>, f: Frame)
    requires f.RstStream?
    ensures Section51(done + [f]) == Closed
  {
    OneMore(done, f);
  }

  // ---- Whatever acts ----

  /** What a state proves about the acts so far. */
  ghost predicate Justified(s: State, acts: seq<Act>) {
    && (s == HalfClosedRemote ==> GotEnd in acts)
    && (s == HalfClosedLocal ==> SentEnd in acts)
    && (s == Closed ==> Reset in acts || (GotEnd in acts && SentEnd in acts))
  }

  lemma {:induction false} StateJustified(acts: seq<Act>)
    ensures Justified(AfterAll(Idle, acts), acts)
  {
    if acts != [] {
      var n := |acts| - 1;
      var front := acts[..n];
      StateJustified(front);
      assert acts == front + [acts[n]];
      AfterAppend(Idle, front, [acts[n]]);
      AfterOne(AfterAll(Idle, front), acts[n]);
    }
  }

  lemma {:induction false} StaysUntilEnd(s: State, acts: seq<Act>)
    requires forall i | 0 <= i < |acts| :: acts[i].GotBody?
    ensures AfterAll(s, acts) == s
  {
    if acts != [] {
      StaysUntilEnd(s, acts[1..]);
    }
  }

  /** The two ends close a stream in either order, whatever was before, as long as nothing but body octets comes behind
      the first of them. */
  lemma EndsInAnyOrder(before: seq<Act>, between: seq<Act>, clientFirst: bool)
    requires GotEnd !in before && SentEnd !in before && Reset !in before && before != []
    requires exists i :: 0 <= i < |before| && Opens(before[i])
    requires forall i | 0 <= i < |between| :: between[i].GotBody?
    ensures var first, second := if clientFirst then GotEnd else SentEnd,
                                 if clientFirst then SentEnd else GotEnd;
            AfterAll(Idle, before + [first] + between) == (if clientFirst then HalfClosedRemote else HalfClosedLocal)
            && AfterAll(Idle, before + [first] + between + [second]) == Closed
  {
    hide AfterAll;
    var first, second := if clientFirst then GotEnd else SentEnd, if clientFirst then SentEnd else GotEnd;
    OpenBeforeEnds(before);
    AfterAppend(Idle, before, [first]);
    AfterOne(Open, first);
    AfterAppend(Idle, before + [first], between);
    StaysUntilEnd(After(Open, first), between);
    AfterAppend(Idle, before + [first] + between, [second]);
    AfterOne(After(Open, first), second);
  }

  lemma {:induction false} OpenBeforeEnds(acts: seq<Act>)
    requires GotEnd !in acts && SentEnd !in acts && Reset !in acts
    ensures AfterAll(Idle, acts) == if exists i :: 0 <= i < |acts| && Opens(acts[i]) then Open else Idle
  {
    hide AfterAll;
    if acts == [] {
      NoActs();
    } else {
      var n := |acts| - 1;
      OpenBeforeEnds(acts[..n]);
      assert acts == acts[..n] + [acts[n]];
      AfterAppend(Idle, acts[..n], [acts[n]]);
      AfterOne(AfterAll(Idle, acts[..n]), acts[n]);
      assert forall i | 0 <= i < n :: acts[i] == acts[..n][i];
      assert Opens(acts[n]) ==> exists i :: 0 <= i < |acts| && Opens(acts[i]);
    }
  }

  /** Whatever acts on it, and in whatever order: a stream is closed only if it was reset or END_STREAM went both
      ways. */
  lemma ClosedOnlyIf(acts: seq<Act>)
    requires AfterAll(Idle, acts) == Closed
    ensures Reset in acts || (GotEnd in acts && SentEnd in acts)
  {
    StateJustified(acts);
  }
}
