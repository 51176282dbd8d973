/** HTTP/1 request intake: header lines and body octets taken out of a receive buffer that fills in arbitrary
    pieces. */
module RequestIntake {
  import opened CStrings
  import opened Octets

  /** The most one read of the header takes, and `MAX_APPLICATION_X_WWW_FORM_URLENCODED_LEN`. */
  const PIECE: nat := 4095
  const MAX_FORM: nat := 4 * 1024 * 1024

  datatype Phase = HeaderPhase | DataPhase | Received

  /** What the header lines say about the body; without a Content-Length the length is 0. */
  datatype Declared = Declared(length: int, multipart: bool)

  type Declaring = seq<Bytes> -> Declared

  /** `recv` is the valid part of the receive buffer; `lines` are the raw lines given to the header parser;
      `body` is `m_postdata` or `m_postdata_ex`. */
  datatype Intake = Intake(recv: Bytes, phase: Phase, text: Bytes, lines: seq<Bytes>, body: Bytes)

  const FRESH := Intake([], HeaderPhase, [], [], [])

  /** `memchr(s, '\n', n)`. */
  function Memchr(s: Bytes): (r: Option<nat>)
    ensures r.Some? ==> r.value < |s| && s[r.value] == LF && LF !in s[..r.value]
    ensures r.None? ==> LF !in s
  {
    if s == [] then None
    else if s[0] == LF then Some(0)
    else
      var r := Memchr(s[1..]);
      if r.None? then None else Some(r.value + 1)
  }

  lemma MemchrAtMost(s: Bytes, k: nat)
    requires k < |s| && s[k] == LF
    ensures Memchr(s).Some? && Memchr(s).value <= k
  {
  }

  lemma MemchrIs(s: Bytes, k: nat)
    requires k < |s| && s[k] == LF && forall i | 0 <= i < k :: s[i] != LF
    ensures Memchr(s) == Some(k)
  {
    MemchrAtMost(s, k);
  }

  /** Nothing is left of the line when `strtrim` is done with it. */
  predicate Blank(line: Bytes) {
    forall i | 0 <= i < |line| :: line[i] == ' ' as int || line[i] == CR || line[i] == LF || line[i] == 9
  }

  // ---- Reading ----

  /** How many octets `AsyncProtRecv` returns: through the first line feed, or what there is, `len` at most. */
  function ProtLength(recv: Bytes, len: nat): (n: nat)
    ensures n <= |recv|
    ensures recv != [] && len > 0 ==> n > 0
  {
    var p := Memchr(recv);
    if p.Some? then Min(len, p.value + 1) else Min(len, |recv|)
  }

  /** The loop of `LineParse`: complete lines are taken off `text` up to a blank one. */
  datatype Lines = Lines(blank: bool, text: Bytes, lines: seq<Bytes>)

  function ParseLines(text: Bytes, lines: seq<Bytes>): Lines
    decreases |text|
  {
    var p := Memchr(text);
    if p.None? then Lines(false, text, lines)
    else
      var line, rest := text[..p.value + 1], text[p.value + 1..];
      if Blank(line) then Lines(true, rest, lines + [line]) else ParseLines(rest, lines + [line])
  }

  /** One turn of the header loop. */
  function LineTurn(s: Intake): Intake {
    var n := ProtLength(s.recv, PIECE);
    var m := ParseLines(s.text + CText(s.recv[..n]), s.lines);
    s.(recv := s.recv[n..], text := m.text, lines := m.lines, phase := if m.blank then DataPhase else s.phase)
  }

  function HeaderLoop(s: Intake): Intake
    decreases |s.recv|
  {
    if s.phase != HeaderPhase || s.recv == [] then s else HeaderLoop(LineTurn(s))
  }

  /** A body of this kind is read at all. */
  predicate Readable(d: Declared) {
    d.multipart || d.length < MAX_FORM
  }

  /** No more has been taken than was declared. */
  predicate Fits(s: Intake, declare: Declaring) {
    s.phase == DataPhase ==> s.body == [] || |s.body| <= declare(s.lines).length
  }

  function BodyStep(s: Intake, declare: Declaring): (r: Intake)
    requires Fits(s, declare)
    ensures Fits(r, declare)
  {
    var d := declare(s.lines);
    if s.phase != DataPhase then s
    else if d.length <= 0 then s.(phase := Received)
    else if !Readable(d) then s
    else
      var n := Min(d.length - |s.body|, |s.recv|);
      var body := s.body + if d.multipart then s.recv[..n] else CText(s.recv[..n]);
      CTextShorter(s.recv[..n]);
      s.(recv := s.recv[n..], body := body, phase := if |body| == d.length then Received else DataPhase)
  }

  lemma {:induction false} CTextShorter(s: Bytes)
    ensures |CText(s)| <= |s|
  {
    if s != [] {
      CTextShorter(s[1..]);
    }
  }

  /** `AsyncProcessing`, up to where the response begins. */
  function Process(s: Intake, declare: Declaring): (r: Intake)
    requires Fits(s, declare) && (s.phase == HeaderPhase ==> s.body == [])
    ensures Fits(r, declare) && (r.phase == HeaderPhase ==> r.body == [])
  {
    HeaderLoopBody(s);
    BodyStep(HeaderLoop(s), declare)
  }

  lemma {:induction false} HeaderLoopBody(s: Intake)
    ensures HeaderLoop(s).body == s.body
    ensures s.phase != HeaderPhase ==> HeaderLoop(s) == s
    decreases |s.recv|
  {
    if s.phase == HeaderPhase && s.recv != [] {
      HeaderLoopBody(LineTurn(s));
    }
  }

  class RequestReader {
    var recv: Bytes
    var phase: Phase
    var text: Bytes
    var lines: seq<Bytes>
    var body: Bytes
    const declare: Declaring

    constructor (declare: Declaring)
      ensures State() == FRESH && this.declare == declare && Valid()
    {
      this.declare := declare;
      recv, phase, text, lines, body := [], HeaderPhase, [], [], [];
    }

    function State(): Intake
      reads this
    {
      Intake(recv, phase, text, lines, body)
    }

    ghost predicate Valid()
      reads this
    {
      Fits(State(), declare) && (phase == HeaderPhase ==> body == [])
    }

    /** What the socket holds is put behind the buffered octets. */
    method AsyncRecv(data: Bytes)
      requires Valid()
      modifies this`recv
      ensures Valid() && State() == old(State()).(recv := old(recv) + data)
    {
      recv := recv + data;
    }

    method AsyncProtRecv(len: nat) returns (buf: Bytes)
      modifies this`recv
      ensures var n := ProtLength(old(recv), len); buf == old(recv)[..n] && recv == old(recv)[n..]
    {
      var p := if |recv| > 0 then Memchr(recv) else None;
      if p.Some? {
        var left := p.value + 1;
        if len >= left {
          buf := recv[..left];
          recv := recv[left..];
        } else {
          buf := recv[..len];
          recv := recv[len..];
        }
      } else if len >= |recv| {
        buf := recv;
        recv := [];
      } else {
        buf := recv[..len];
        recv := recv[len..];
      }
    }

    method AsyncHttpRecv(len: nat) returns (buf: Bytes)
      modifies this`recv
      ensures var n := Min(len, |old(recv)|); buf == old(recv)[..n] && recv == old(recv)[n..]
    {
      var n := if len < |recv| then len else |recv|;
      buf := recv[..n];
      recv := recv[n..];
    }

    method LineParse(piece: Text)
      modifies this`text, this`lines, this`phase
      ensures var m := ParseLines(old(text) + piece, old(lines));
              && text == m.text && lines == m.lines
              && phase == if m.blank then DataPhase else old(phase)
    {
      hide ParseLines, Blank;
      text := text + piece;
      var p := Memchr(text);
      ParseLinesOnce(text, lines);
      while p.Some?
        invariant p == Memchr(text) && phase == old(phase)
        invariant ParseLines(text, lines) == ParseLines(old(text) + piece, old(lines))
        invariant p.None? ==> ParseLines(text, lines) == Lines(false, text, lines)
        decreases |text|
      {
        ParseLinesOnce(text, lines);
        var line := text[..p.value + 1];
        text := text[p.value + 1..];
        lines := lines + [line];
        if Blank(line) {
          phase := DataPhase;
          return;
        }
        p := Memchr(text);
        ParseLinesOnce(text, lines);
      }
    }

    /** The loop for a multipart body: pieces of at most 4095 octets until nothing comes. */
    method RecvPieces(length: nat)
      requires |body| <= length
      modifies this`recv, this`body
      ensures var n := Min(length - |old(body)|, |old(recv)|);
              body == old(body) + old(recv)[..n] && recv == old(recv)[n..]
    {
      ghost var before, first, taken := recv, body, 0;
      var more := true;
      while more
        invariant 0 <= taken <= |before| && |body| <= length
        invariant body == first + before[..taken] && recv == before[taken..]
        invariant !more ==> |body| == length || recv == []
        decreases more, |recv|
      {
        var piece := AsyncHttpRecv(if length - |body| > 4095 then 4095 else length - |body|);
        if |piece| > 0 {
          assert before[..taken] + piece == before[..taken + |piece|];
          assert first + before[..taken] + piece == first + (before[..taken] + piece);
          body := body + piece;
          taken := taken + |piece|;
        } else {
          more := false;
        }
      }
    }

    method AsyncRecvPostData()
      requires Valid() && phase == DataPhase && declare(lines).length > 0
      modifies this`recv, this`body, this`phase
      ensures State() == BodyStep(old(State()), declare)
    {
      hide CText;
      var d := declare(lines);
      if !d.multipart {
        if d.length < MAX_FORM {
          var post := AsyncHttpRecv(d.length - |body|);
          CTextShorter(post);
          if |post| > 0 {
            body := body + CText(post);
          } else {
            assert CText(post) == [] && body + [] == body;
          }
          if |body| == d.length {
            phase := Received;
          }
        }
      } else {
        RecvPieces(d.length);
        if |body| == d.length {
          phase := Received;
        }
      }
    }

    /** The header loop of `AsyncProcessing`. */
    method ReceiveHeader()
      requires Valid() && phase == HeaderPhase
      modifies this
      ensures Valid() && State() == HeaderLoop(old(State())) && body == old(body)
    {
      hide HeaderLoop, ParseLines;
      ghost var start := State();
      while phase == HeaderPhase
        invariant HeaderLoop(State()) == HeaderLoop(start) && body == start.body
        decreases phase == HeaderPhase, |recv|
      {
        HeaderLoopOnce(State());
        var piece := AsyncProtRecv(PIECE);
        if |piece| == 0 {
          break;
        }
        LineParse(CText(piece));
      }
      HeaderLoopOnce(State());
    }

    method AsyncProcessing()
      requires Valid()
      modifies this
      ensures Valid() && State() == Process(old(State()), declare)
    {
      hide HeaderLoop, ParseLines;
      HeaderLoopBody(State());
      if phase == HeaderPhase {
        ReceiveHeader();
      }
      if phase == DataPhase {
        if declare(lines).length > 0 {
          AsyncRecvPostData();
        } else {
          phase := Received;
        }
      }
    }
  }

  lemma ParseLinesOnce(text: Bytes, lines: seq<Bytes>)
    ensures var p := Memchr(text);
            ParseLines(text, lines)
              == if p.None? then Lines(false, text, lines)
                 else
                   var line, rest := text[..p.value + 1], text[p.value + 1..];
                   if Blank(line) then Lines(true, rest, lines + [line]) else ParseLines(rest, lines + [line])
  {
  }

  lemma HeaderLoopOnce(s: Intake)
    ensures HeaderLoop(s) == if s.phase != HeaderPhase || s.recv == [] then s else HeaderLoop(LineTurn(s))
    ensures s.recv != [] ==> |LineTurn(s).recv| < |s.recv|
  {
  }

  // ---- Reference: the whole byte stream at once ----

  /** The lines of `s` through its first blank line, and the octets behind them. */
  datatype Split = Split(lines: seq<Bytes>, rest: Bytes, done: bool)

  function SplitHeader(s: Bytes): Split
    decreases |s|
  {
    var p := Memchr(s);
    if p.None? then Split([], s, false)
    else
      var line, rest := s[..p.value + 1], s[p.value + 1..];
      if Blank(line) then Split([line], rest, true)
      else
        var h := SplitHeader(rest);
        Split([line] + h.lines, h.rest, h.done)
  }

  lemma {:induction false} SplitCovers(s: Bytes)
    ensures var h := SplitHeader(s);
            Flatten(h.lines) + h.rest == s && (!h.done ==> LF !in h.rest)
    decreases |s|
  {
    hide SplitHeader, Blank;
    SplitOnce(s);
    var p := Memchr(s);
    if p.None? {
      assert [] + s == s;
    } else {
      var n := p.value + 1;
      var line, h := s[..n], SplitHeader(s[n..]);
      SplitCovers(s[n..]);
      FlattenOne(line);
      FlattenCons(line, h.lines);
      assert line + Flatten(h.lines) + h.rest == line + (Flatten(h.lines) + h.rest);
      assert line + s[n..] == s;
    }
  }

  lemma FlattenCons(line: Bytes, lines: seq<Bytes>)
    ensures Flatten([line] + lines) == line + Flatten(lines)
  {
    assert ([line] + lines)[1..] == lines;
  }

  lemma FlattenOne(line: Bytes)
    ensures Flatten([line]) == line
  {
    assert [line][1..] == [];
    assert line + [] == line;
  }

  /** What should have become of the octets behind a complete header. */
  function BodySeen(rest: Bytes, lines: seq<Bytes>, declare: Declaring): (r: Intake)
    ensures r.phase != HeaderPhase
  {
    var d := declare(lines);
    if d.length <= 0 then Intake(rest, Received, [], lines, [])
    else if !Readable(d) then Intake(rest, DataPhase, [], lines, [])
    else
      var n := Min(d.length, |rest|);
      Intake(rest[n..], if n == d.length then Received else DataPhase, [], lines, rest[..n])
  }

  /** What a reader that has been given `all` should hold. */
  function Seen(all: Bytes, declare: Declaring): Intake {
    var h := SplitHeader(all);
    if h.done then BodySeen(h.rest, h.lines, declare) else Intake([], HeaderPhase, h.rest, h.lines, [])
  }

  /** The octets of the header, as far as they are there. */
  function HeaderOctets(all: Bytes): Bytes {
    var h := SplitHeader(all);
    if h.done then Flatten(h.lines) else all
  }

  /** The octets of a URL-encoded body, as far as they are there. */
  function FormPart(rest: Bytes, d: Declared): Bytes {
    if d.length <= 0 || d.multipart || !Readable(d) then [] else rest[..Min(d.length, |rest|)]
  }

  function FormOctets(all: Bytes, declare: Declaring): Bytes {
    var h := SplitHeader(all);
    if h.done then FormPart(h.rest, declare(h.lines)) else []
  }

  /** The reader after some arrivals, each followed by a call of `AsyncProcessing`. */
  function After(segments: seq<Bytes>, declare: Declaring): (s: Intake)
    ensures Fits(s, declare) && (s.phase == HeaderPhase ==> s.body == [])
    decreases |segments|
  {
    if segments == [] then FRESH
    else
      var s := After(segments[..|segments| - 1], declare);
      Process(s.(recv := s.recv + segments[|segments| - 1]), declare)
  }

  // ---- The header ----

  lemma CleanText(s: Bytes)
    requires NUL !in s
    ensures CText(s) == s
  {
    assert s + [] == s;
    PaddingUnseen(s, []);
  }

  /** The first line of `text + recv`, when `text` has no line feed. */
  lemma FirstLine(text: Bytes, recv: Bytes)
    requires LF !in text
    ensures Memchr(recv).None? ==> Memchr(text + recv).None?
    ensures Memchr(recv).Some? ==> Memchr(text + recv) == Some(|text| + Memchr(recv).value)
  {
    hide Memchr;
    var p, all := Memchr(recv), text + recv;
    if p.Some? {
      forall i | 0 <= i < |text| + p.value
        ensures all[i] != LF
      {
        assert i >= |text| ==> all[i] == recv[..p.value][i - |text|];
      }
      MemchrIs(all, |text| + p.value);
    }
  }

  lemma SplitOnce(s: Bytes)
    ensures Memchr(s).None? ==> SplitHeader(s) == Split([], s, false)
    ensures Memchr(s).Some? ==>
              var n := Memchr(s).value + 1;
              SplitHeader(s)
                == if Blank(s[..n]) then Split([s[..n]], s[n..], true)
                   else
                     var h := SplitHeader(s[n..]);
                     Split([s[..n]] + h.lines, h.rest, h.done)
  {
  }

  lemma HeaderOctetsOnce(s: Bytes)
    ensures Memchr(s).None? ==> HeaderOctets(s) == s
    ensures Memchr(s).Some? ==>
              var n := Memchr(s).value + 1;
              HeaderOctets(s) == s[..n] + if Blank(s[..n]) then [] else HeaderOctets(s[n..])
  {
    hide SplitHeader, Blank;
    SplitOnce(s);
    var p := Memchr(s);
    if p.Some? {
      var n := p.value + 1;
      var h := SplitHeader(s[n..]);
      FlattenOne(s[..n]);
      assert ([s[..n]] + h.lines)[1..] == h.lines;
      assert s == s[..n] + s[n..];
      assert s[..n] + [] == s[..n];
    }
  }

  /** What the header loop should make of `recv`, with `text` pending. */
  function Due(text: Bytes, recv: Bytes, lines: seq<Bytes>): Intake {
    var h := SplitHeader(text + recv);
    if h.done then Intake(h.rest, DataPhase, [], lines + h.lines, [])
    else Intake([], HeaderPhase, h.rest, lines + h.lines, [])
  }

  lemma DueAfterLine(text: Bytes, recv: Bytes, lines: seq<Bytes>, n: nat)
    requires n <= |recv| && Memchr(text + recv) == Some(|text| + n - 1)
    requires NUL !in HeaderOctets(text + recv)
    ensures var line, rest := text + recv[..n], recv[n..];
            && Due(text, recv, lines)
                 == (if Blank(line) then Intake(rest, DataPhase, [], lines + [line], [])
                     else Due([], rest, lines + [line]))
            && (!Blank(line) ==> NUL !in HeaderOctets([] + rest))
  {
    hide SplitHeader, HeaderOctets, Blank, Memchr;
    var all, line, rest := text + recv, text + recv[..n], recv[n..];
    assert all[..|text| + n] == line && all[|text| + n..] == rest && [] + rest == rest;
    DueStep(all, lines, |text| + n);
    RestClean(all, |text| + n);
    assert [] + all == all;
  }

  lemma DueStep(all: Bytes, lines: seq<Bytes>, m: nat)
    requires m > 0 && Memchr(all) == Some(m - 1)
    ensures Due([], all, lines)
         == (if Blank(all[..m]) then Intake(all[m..], DataPhase, [], lines + [all[..m]], [])
             else Due([], all[m..], lines + [all[..m]]))
  {
    hide SplitHeader, Blank, Memchr;
    assert [] + all == all && [] + all[m..] == all[m..];
    SplitOnce(all);
    LinesRegroup(lines, all[..m], SplitHeader(all[m..]).lines);
  }

  lemma LinesRegroup(lines: seq<Bytes>, line: Bytes, more: seq<Bytes>)
    ensures lines + [line] + more == lines + ([line] + more)
  {
  }

  lemma RestClean(all: Bytes, n: nat)
    requires Memchr(all).Some? && n == Memchr(all).value + 1 && NUL !in HeaderOctets(all)
    ensures !Blank(all[..n]) ==> NUL !in HeaderOctets(all[n..])
  {
    hide HeaderOctets, Blank, Memchr;
    HeaderOctetsOnce(all);
  }

  lemma DueAtEnd(text: Bytes, lines: seq<Bytes>)
    requires LF !in text
    ensures Due(text, [], lines) == Intake([], HeaderPhase, text, lines, [])
  {
    assert text + [] == text && lines + [] == lines;
    SplitOnce(text);
  }

  /** The header loop over `recv`, with `text` pending, finds what is in `text + recv` as a whole. */
  lemma {:induction false} HeaderLoopSplits(text: Bytes, recv: Bytes, lines: seq<Bytes>)
    requires LF !in text && NUL !in HeaderOctets(text + recv)
    ensures HeaderLoop(Intake(recv, HeaderPhase, text, lines, [])) == Due(text, recv, lines)
    decreases |recv|
  {
    hide HeaderLoop, HeaderOctets, LineTurn, Blank, Memchr, Due;
    var s := Intake(recv, HeaderPhase, text, lines, []);
    HeaderLoopOnce(s);
    if recv == [] {
      DueAtEnd(text, lines);
    } else {
      var n := ProtLength(recv, PIECE);
      FirstLine(text, recv);
      PieceIsClean(text, recv, n);
      if Memchr(recv) == Some(n - 1) {
        LineTaken(text, recv, lines);
        DueAfterLine(text, recv, lines, n);
        HeaderLoopOnce(LineTurn(s));
        if !Blank(text + recv[..n]) {
          HeaderLoopSplits([], recv[n..], lines + [text + recv[..n]]);
        }
      } else {
        NoLineTaken(text, recv, lines);
        SameDue(text, recv, lines, n);
        HeaderLoopSplits(text + recv[..n], recv[n..], lines);
      }
    }
  }

  lemma SameDue(text: Bytes, recv: Bytes, lines: seq<Bytes>, n: nat)
    requires n <= |recv|
    ensures text + recv[..n] + recv[n..] == text + recv
    ensures Due(text + recv[..n], recv[n..], lines) == Due(text, recv, lines)
  {
    hide SplitHeader;
    assert text + recv[..n] + recv[n..] == text + recv;
  }

  /** A piece read in the header phase belongs to the header. */
  lemma PieceIsClean(text: Bytes, recv: Bytes, n: nat)
    requires LF !in text && NUL !in HeaderOctets(text + recv) && n == ProtLength(recv, PIECE)
    ensures NUL !in recv[..n]
  {
    hide HeaderOctets, Blank;
    FirstLine(text, recv);
    HeaderOctetsOnce(text + recv);
    var all, p := text + recv, Memchr(text + recv);
    var end := if p.Some? then p.value + 1 else |all|;
    assert |text| + n <= end;
    assert forall i | 0 <= i < n :: recv[i] == all[..end][|text| + i];
    assert forall c | c in all[..end] :: c in HeaderOctets(all);
  }

  lemma LineTaken(text: Bytes, recv: Bytes, lines: seq<Bytes>)
    requires LF !in text && recv != []
    requires var n := ProtLength(recv, PIECE); Memchr(recv) == Some(n - 1) && NUL !in recv[..n]
    ensures var n := ProtLength(recv, PIECE);
            LineTurn(Intake(recv, HeaderPhase, text, lines, []))
              == Intake(recv[n..], if Blank(text + recv[..n]) then DataPhase else HeaderPhase, [],
                        lines + [text + recv[..n]], [])
  {
    hide Blank, Memchr, ParseLines, CText;
    var n := ProtLength(recv, PIECE);
    CleanText(recv[..n]);
    assert recv[..n][..n - 1] == recv[..n - 1];
    MemchrIs(recv[..n], n - 1);
    FirstLine(text, recv[..n]);
    ParseOneLine(text + recv[..n], lines);
  }

  lemma ParseOneLine(line: Bytes, lines: seq<Bytes>)
    requires line != [] && Memchr(line) == Some(|line| - 1)
    ensures ParseLines(line, lines) == Lines(Blank(line), [], lines + [line])
  {
    hide Blank;
    assert line[..|line|] == line && line[|line|..] == [];
    assert Memchr([]).None?;
  }

  lemma NoLineTaken(text: Bytes, recv: Bytes, lines: seq<Bytes>)
    requires LF !in text && recv != []
    requires var n := ProtLength(recv, PIECE); Memchr(recv) != Some(n - 1) && NUL !in recv[..n]
    ensures var n := ProtLength(recv, PIECE);
            && LF !in text + recv[..n]
            && LineTurn(Intake(recv, HeaderPhase, text, lines, []))
                 == Intake(recv[n..], HeaderPhase, text + recv[..n], lines, [])
  {
    var n, p := ProtLength(recv, PIECE), Memchr(recv);
    CleanText(recv[..n]);
    if p.Some? {
      assert forall i | 0 <= i < n :: recv[i] == recv[..p.value][i];
    }
    assert Memchr(text + recv[..n]).None?;
  }

  // ---- More arrivals ----

  /** A header that is complete stays what it is; one that is not is continued from its unfinished line. */
  lemma {:induction false} SplitMore(a: Bytes, b: Bytes)
    ensures var h := SplitHeader(a);
            SplitHeader(a + b)
              == if h.done then Split(h.lines, h.rest + b, true)
                 else
                   var g := SplitHeader(h.rest + b);
                   Split(h.lines + g.lines, g.rest, g.done)
    decreases |a|
  {
    hide SplitHeader, Blank, Memchr;
    SplitOnce(a);
    SplitOnce(a + b);
    var p := Memchr(a);
    if p.None? {
      var g := SplitHeader(a + b);
      assert [] + g.lines == g.lines;
    } else {
      var n := p.value + 1;
      LineKept(a, b);
      SplitMore(a[n..], b);
      var h := SplitHeader(a[n..]);
      var g := SplitHeader(h.rest + b);
      assert [a[..n]] + (h.lines + g.lines) == [a[..n]] + h.lines + g.lines;
    }
  }

  lemma LineKept(a: Bytes, b: Bytes)
    requires Memchr(a).Some?
    ensures Memchr(a + b) == Memchr(a)
    ensures var n := Memchr(a).value + 1; (a + b)[..n] == a[..n] && (a + b)[n..] == a[n..] + b
  {
    var k := Memchr(a).value;
    assert forall i | 0 <= i < k :: (a + b)[i] == a[..k][i];
    MemchrIs(a + b, k);
  }

  /** The header octets of a beginning are a beginning of the header octets. */
  lemma {:induction false} HeaderOctetsMore(a: Bytes, b: Bytes)
    ensures HeaderOctets(a) <= HeaderOctets(a + b)
    decreases |a|
  {
    hide HeaderOctets, Blank, Memchr;
    HeaderOctetsOnce(a);
    HeaderOctetsOnce(a + b);
    if Memchr(a).Some? {
      var n := Memchr(a).value + 1;
      LineKept(a, b);
      HeaderOctetsMore(a[n..], b);
    } else if Memchr(a + b).Some? {
      FirstBehind(a, b);
    } else {
      assert a <= a + b;
    }
  }

  lemma FirstBehind(a: Bytes, b: Bytes)
    requires LF !in a && Memchr(a + b).Some?
    ensures a <= (a + b)[..Memchr(a + b).value + 1]
  {
    hide Memchr;
    var k := Memchr(a + b).value;
    assert forall i | 0 <= i < |a| :: (a + b)[i] == a[i];
    assert (a + b)[..|a|] == a;
  }

  lemma StillHeader(s: Intake, declare: Declaring)
    requires s.phase == HeaderPhase
    ensures BodyStep(s, declare) == s
  {
  }

  /** The octets that arrive together with the end of the header. */
  lemma BodyStarts(rest: Bytes, lines: seq<Bytes>, declare: Declaring)
    requires NUL !in FormPart(rest, declare(lines))
    ensures BodyStep(Intake(rest, DataPhase, [], lines, []), declare) == BodySeen(rest, lines, declare)
  {
    hide CText;
    var d := declare(lines);
    if d.length > 0 && Readable(d) {
      var n := Min(d.length, |rest|);
      if !d.multipart {
        CleanText(rest[..n]);
      }
      assert [] + rest[..n] == rest[..n];
    }
  }

  lemma BodyArrival(rest: Bytes, b: Bytes, lines: seq<Bytes>, declare: Declaring)
    requires NUL !in FormPart(rest + b, declare(lines))
    ensures var s := BodySeen(rest, lines, declare);
            Fits(s, declare) && BodyStep(s.(recv := s.recv + b), declare) == BodySeen(rest + b, lines, declare)
  {
    hide CText;
    var d := declare(lines);
    if d.length > 0 && Readable(d) {
      if |rest| >= d.length {
        var n := d.length;
        assert rest[n..] + b == (rest + b)[n..] && rest[..n] == (rest + b)[..n];
      } else {
        BodyContinues(rest, b, lines, declare);
      }
    }
  }

  lemma BodyContinues(rest: Bytes, b: Bytes, lines: seq<Bytes>, declare: Declaring)
    requires var d := declare(lines); Readable(d) && |rest| < d.length && NUL !in FormPart(rest + b, d)
    ensures var s := BodySeen(rest, lines, declare);
            Fits(s, declare) && BodyStep(s.(recv := s.recv + b), declare) == BodySeen(rest + b, lines, declare)
  {
    hide CText, FormPart;
    var d := declare(lines);
    MoreBody(rest, b, d);
    assert BodySeen(rest, lines, declare) == Intake(rest[|rest|..], DataPhase, [], lines, rest);
  }

  /** What is taken of `b` completes what was taken before. */
  lemma MoreBody(rest: Bytes, b: Bytes, d: Declared)
    requires |rest| < d.length && Readable(d) && NUL !in FormPart(rest + b, d)
    ensures var n, m := Min(d.length - |rest|, |b|), Min(d.length, |rest + b|);
            && m == |rest| + n
            && rest[..|rest|] == rest && rest[|rest|..] + b == b
            && (rest + b)[..m] == rest + b[..n] && (rest + b)[m..] == b[n..]
            && (!d.multipart ==> CText(b[..n]) == b[..n])
  {
    hide CText;
    var n, m := Min(d.length - |rest|, |b|), Min(d.length, |rest + b|);
    if !d.multipart {
      assert forall i | 0 <= i < n :: b[..n][i] == (rest + b)[..m][|rest| + i];
      CleanText(b[..n]);
    }
  }

  /** One arrival: the reader goes from what it should hold to what it should hold. */
  lemma Arrival(a: Bytes, b: Bytes, declare: Declaring)
    requires NUL !in HeaderOctets(a + b) && NUL !in FormOctets(a + b, declare)
    ensures var s := Seen(a, declare);
            && Fits(s, declare) && (s.phase == HeaderPhase ==> s.body == [])
            && Process(s.(recv := s.recv + b), declare) == Seen(a + b, declare)
  {
    hide HeaderLoop, SplitHeader, HeaderOctets, CText, BodyStep, BodySeen, FormPart;
    var h := SplitHeader(a);
    var s := Seen(a, declare);
    var s1 := s.(recv := s.recv + b);
    SplitMore(a, b);
    HeaderLoopBody(s1);
    if h.done {
      BodyArrival(h.rest, b, h.lines, declare);
    } else {
      PendingClean(a, b);
      assert [] + b == b;
      HeaderLoopSplits(h.rest, b, h.lines);
      var g := SplitHeader(h.rest + b);
      if !g.done {
        StillHeader(HeaderLoop(s1), declare);
      } else {
        BodyStarts(g.rest, h.lines + g.lines, declare);
      }
    }
  }

  /** The unfinished line and what comes next have a clean header when the whole has. */
  lemma PendingClean(a: Bytes, b: Bytes)
    requires !SplitHeader(a).done && NUL !in HeaderOctets(a + b)
    ensures LF !in SplitHeader(a).rest
    ensures NUL !in HeaderOctets(SplitHeader(a).rest + b)
  {
    hide SplitHeader, HeaderOctets;
    SplitCovers(a);
    PendingOctets(a, b);
  }

  lemma HeaderOctetsAre(all: Bytes)
    ensures HeaderOctets(all) == if SplitHeader(all).done then Flatten(SplitHeader(all).lines) else all
  {
  }

  lemma PendingOctets(a: Bytes, b: Bytes)
    requires !SplitHeader(a).done
    ensures var h := SplitHeader(a); HeaderOctets(a + b) == Flatten(h.lines) + HeaderOctets(h.rest + b)
  {
    hide SplitHeader, Flatten, HeaderOctets;
    var h := SplitHeader(a);
    SplitMore(a, b);
    SplitCovers(a);
    HeaderOctetsAre(a + b);
    HeaderOctetsAre(h.rest + b);
    FlattenAppend(h.lines, SplitHeader(h.rest + b).lines);
    Regrouped(Flatten(h.lines), h.rest, b);
  }

  lemma Regrouped(a: Bytes, b: Bytes, c: Bytes)
    ensures a + b + c == a + (b + c)
  {
  }

  // ---- Runs ----

  predicate HeaderClean(all: Bytes) {
    NUL !in HeaderOctets(all)
  }

  predicate FormClean(all: Bytes, declare: Declaring) {
    NUL !in FormOctets(all, declare)
  }

  /** A beginning of a clean stream is clean. */
  lemma CleanBefore(a: Bytes, b: Bytes, declare: Declaring)
    ensures HeaderClean(a + b) ==> HeaderClean(a)
    ensures FormClean(a + b, declare) ==> FormClean(a, declare)
  {
    hide SplitHeader, HeaderOctets;
    HeaderOctetsMore(a, b);
    assert HeaderOctets(a) == HeaderOctets(a + b)[..|HeaderOctets(a)|];
    SplitMore(a, b);
    var h := SplitHeader(a);
    if h.done {
      var d := declare(h.lines);
      if d.length > 0 {
        var n := Min(d.length, |h.rest|);
        assert h.rest[..n] == (h.rest + b)[..Min(d.length, |h.rest + b|)][..n];
      }
    }
  }

  /** A clean stream leaves the reader, however it arrives, with what it should hold. */
  lemma {:induction false} CleanRun(segments: seq<Bytes>, declare: Declaring)
    requires HeaderClean(Flatten(segments)) && FormClean(Flatten(segments), declare)
    ensures After(segments, declare) == Seen(Flatten(segments), declare)
    decreases |segments|
  {
    hide Process, Seen, HeaderOctets, FormOctets;
    if segments == [] {
      NothingSeen(declare);
    } else {
      var before, last := segments[..|segments| - 1], segments[|segments| - 1];
      assert segments == before + [last];
      FlattenAppend(before, [last]);
      FlattenOne(last);
      CleanBefore(Flatten(before), last, declare);
      CleanRun(before, declare);
      Arrival(Flatten(before), last, declare);
    }
  }

  lemma NothingSeen(declare: Declaring)
    ensures Seen([], declare) == FRESH
  {
  }

  /** The body taken for a form never holds a NUL octet, whatever arrives. */
  predicate NoNulInForm(s: Intake, declare: Declaring) {
    && (s.phase == HeaderPhase ==> s.body == [])
    && (!declare(s.lines).multipart ==> NUL !in s.body)
  }

  lemma {:induction false} FormNeverHoldsNul(segments: seq<Bytes>, declare: Declaring)
    ensures NoNulInForm(After(segments, declare), declare)
    decreases |segments|
  {
    hide HeaderLoop, CText;
    if segments != [] {
      FormNeverHoldsNul(segments[..|segments| - 1], declare);
      var s := After(segments[..|segments| - 1], declare);
      HeaderLoopBody(s.(recv := s.recv + segments[|segments| - 1]));
    }
  }

  /** Lines and residue never hold a NUL octet, whatever arrives. */
  ghost predicate NoNulInHeader(text: Bytes, lines: seq<Bytes>) {
    NUL !in text && forall i | 0 <= i < |lines| :: NUL !in lines[i]
  }

  lemma {:induction false} ParsedHoldsNoNul(text: Bytes, lines: seq<Bytes>)
    requires NoNulInHeader(text, lines)
    ensures var m := ParseLines(text, lines); NoNulInHeader(m.text, m.lines)
    decreases |text|
  {
    hide Blank;
    var p := Memchr(text);
    if p.Some? {
      var line, rest := text[..p.value + 1], text[p.value + 1..];
      assert NoNulInHeader(rest, lines + [line]);
      if !Blank(line) {
        ParsedHoldsNoNul(rest, lines + [line]);
      }
    }
  }

  lemma {:induction false} LoopHoldsNoNul(s: Intake)
    requires NoNulInHeader(s.text, s.lines)
    ensures NoNulInHeader(HeaderLoop(s).text, HeaderLoop(s).lines)
    decreases |s.recv|
  {
    hide ParseLines;
    HeaderLoopOnce(s);
    if s.phase == HeaderPhase && s.recv != [] {
      ParsedHoldsNoNul(s.text + CText(s.recv[..ProtLength(s.recv, PIECE)]), s.lines);
      LoopHoldsNoNul(LineTurn(s));
    }
  }

  lemma {:induction false} HeaderNeverHoldsNul(segments: seq<Bytes>, declare: Declaring)
    ensures var s := After(segments, declare); NoNulInHeader(s.text, s.lines)
    decreases |segments|
  {
    hide HeaderLoop, NoNulInHeader;
    if segments == [] {
      NothingHeld();
    } else {
      HeaderNeverHoldsNul(segments[..|segments| - 1], declare);
      var s := After(segments[..|segments| - 1], declare);
      LoopHoldsNoNul(s.(recv := s.recv + segments[|segments| - 1]));
    }
  }

  lemma NothingHeld()
    ensures NoNulInHeader([], [])
  {
  }

  lemma {:induction false} LinesHoldNoNul(lines: seq<Bytes>)
    requires forall i | 0 <= i < |lines| :: NUL !in lines[i]
    ensures NUL !in Flatten(lines)
  {
    if lines != [] {
      LinesHoldNoNul(lines[1..]);
    }
  }

  lemma SeenHoldsHeader(all: Bytes, declare: Declaring)
    requires var s := Seen(all, declare); NoNulInHeader(s.text, s.lines)
    ensures HeaderClean(all)
  {
    hide SplitHeader;
    var h := SplitHeader(all);
    LinesHoldNoNul(h.lines);
    SplitCovers(all);
  }

  /** Main result.  For every way any octets arrive: the reader holds exactly the lines through the first blank one, no
      residue behind it, and the next Content-Length octets as the body - if and only if what there is of the header
      and of a URL-encoded body is NUL-free. */
  lemma RequestReceived(segments: seq<Bytes>, declare: Declaring)
    ensures After(segments, declare) == Seen(Flatten(segments), declare)
       <==> HeaderClean(Flatten(segments)) && FormClean(Flatten(segments), declare)
  {
    hide HeaderOctets, SplitHeader, After, Seen;
    if HeaderClean(Flatten(segments)) && FormClean(Flatten(segments), declare) {
      CleanRun(segments, declare);
    } else if After(segments, declare) == Seen(Flatten(segments), declare) {
      HeaderNeverHoldsNul(segments, declare);
      SeenHoldsHeader(Flatten(segments), declare);
      FormNeverHoldsNul(segments, declare);
      SeenHoldsForm(Flatten(segments), declare);
    }
  }

  lemma SeenHoldsForm(all: Bytes, declare: Declaring)
    requires NoNulInForm(Seen(all, declare), declare)
    ensures FormClean(all, declare)
  {
    hide SplitHeader;
  }

  /** The arrivals do not matter, only the octets. */
  lemma SplitInsensitive(a: seq<Bytes>, b: seq<Bytes>, declare: Declaring)
    requires Flatten(a) == Flatten(b) && HeaderClean(Flatten(a)) && FormClean(Flatten(a), declare)
    ensures After(a, declare) == After(b, declare)
  {
    CleanRun(a, declare);
    CleanRun(b, declare);
  }

  /** When the reader is done with a request: its header is complete and either it has no body, or its body is of
      a kind that is read and all of it is there.  A URL-encoded body of 4 MB or more is never read. */
  lemma DoneExactly(segments: seq<Bytes>, declare: Declaring)
    requires HeaderClean(Flatten(segments)) && FormClean(Flatten(segments), declare)
    ensures var h := SplitHeader(Flatten(segments));
            var d := declare(h.lines);
            (After(segments, declare).phase == Received)
              <==> (h.done && (d.length <= 0 || ((d.multipart || d.length < 0x40_0000) && |h.rest| >= d.length)))
  {
    CleanRun(segments, declare);
  }

  /** What the split into lines means: the lines and what is behind them are the stream; every line ends with its
      only line feed; the blank line is the last, and there is one exactly when the header is complete. */
  lemma {:induction false} LinesAreRight(all: Bytes)
    ensures var h := SplitHeader(all);
            && Flatten(h.lines) + h.rest == all
            && (!h.done ==> LF !in h.rest)
            && (forall i | 0 <= i < |h.lines| :: |h.lines[i]| > 0 && Memchr(h.lines[i]) == Some(|h.lines[i]| - 1))
            && (forall i | 0 <= i < |h.lines| :: Blank(h.lines[i]) <==> h.done && i == |h.lines| - 1)
            && (h.done ==> h.lines != [])
    decreases |all|
  {
    hide SplitHeader, Blank, Memchr;
    SplitCovers(all);
    SplitOnce(all);
    var p := Memchr(all);
    if p.Some? {
      var n := p.value + 1;
      assert forall i | 0 <= i < n - 1 :: all[i] == all[..n - 1][i];
      MemchrIs(all[..n], n - 1);
      LinesAreRight(all[n..]);
    }
  }

  // ---- Requests as they are written ----

  /** A header line without its line break: one line, and not blank. */
  predicate LineOk(line: Bytes) {
    && LF !in line
    && exists i :: 0 <= i < |line| && line[i] != 32 && line[i] != 9 && line[i] != 13
  }

  predicate LinesOk(lines: seq<Bytes>) {
    forall i | 0 <= i < |lines| :: LineOk(lines[i])
  }

  /** Each line with CRLF behind it, and CRLF behind the last. */
  function HeaderText(lines: seq<Bytes>): Bytes {
    if lines == [] then [13, 10] else lines[0] + [13, 10] + HeaderText(lines[1..])
  }

  function RawLines(lines: seq<Bytes>): seq<Bytes> {
    if lines == [] then [[13, 10]] else [lines[0] + [13, 10]] + RawLines(lines[1..])
  }

  lemma LineFirst(line: Bytes, tail: Bytes)
    requires LF !in line
    ensures var s := line + [13, 10] + tail;
            && Memchr(s) == Some(|line| + 1)
            && s[..|line| + 2] == line + [13, 10] && s[|line| + 2..] == tail
  {
    MemchrIs(line + [13, 10] + tail, |line| + 1);
  }

  lemma NotBlank(line: Bytes)
    requires LineOk(line)
    ensures !Blank(line + [13, 10]) && Blank([13, 10])
  {
    var i :| 0 <= i < |line| && line[i] != 32 && line[i] != 9 && line[i] != 13;
    assert (line + [13, 10])[i] == line[i] && line[i] in line;
  }

  /** A line is blank exactly when nothing but blanks stands in front of its line break. */
  lemma BlankExactly(line: Bytes)
    requires LF !in line
    ensures Blank(line + [13, 10]) <==> !LineOk(line)
    ensures Blank(line + [10]) <==> !LineOk(line)
  {
    if LineOk(line) {
      NotBlank(line);
      var i :| 0 <= i < |line| && line[i] != 32 && line[i] != 9 && line[i] != 13;
      assert (line + [10])[i] == line[i] && line[i] in line;
    }
  }

  /** The header is split into the lines written, and the body is what is behind it. */
  lemma {:induction false} HeaderSplits(lines: seq<Bytes>, body: Bytes)
    requires LinesOk(lines)
    ensures SplitHeader(HeaderText(lines) + body) == Split(RawLines(lines), body, true)
    decreases |lines|
  {
    hide SplitHeader, Blank, LineOk, Memchr;
    var s := HeaderText(lines) + body;
    SplitOnce(s);
    if lines == [] {
      LineFirst([], body);
      assert [] + [13, 10] + body == s && [] + [13, 10] == [13, 10];
      EmptyIsBlank();
    } else {
      var line, tail := lines[0], HeaderText(lines[1..]) + body;
      OneLine(line);
      LineFirst(line, tail);
      NotBlank(line);
      HeaderSplits(lines[1..], body);
      assert s == line + [13, 10] + tail;
    }
  }

  lemma EmptyIsBlank()
    ensures Blank([13, 10])
  {
  }

  lemma OneLine(line: Bytes)
    requires LineOk(line)
    ensures LF !in line
  {
  }

  /** Main result for requests as they are written: header lines, an empty line, and a body of the length that the
      lines declare, in any pieces.  The reader ends with the lines and the body, and nothing left over. */
  lemma WrittenRequest(lines: seq<Bytes>, body: Bytes, segments: seq<Bytes>, declare: Declaring)
    requires LinesOk(lines) && Flatten(segments) == HeaderText(lines) + body && NUL !in HeaderText(lines)
    requires var d := declare(RawLines(lines));
             d.length == |body| && Readable(d) && (d.multipart || NUL !in body)
    ensures After(segments, declare) == Intake([], Received, [], RawLines(lines), body)
  {
    hide SplitHeader, After, Flatten;
    HeaderSplits(lines, body);
    SplitCovers(HeaderText(lines) + body);
    var all := HeaderText(lines) + body;
    var head := Flatten(RawLines(lines));
    assert head + body == all;
    assert head == all[..|all| - |body|] == HeaderText(lines);
    assert body[..|body|] == body && body[|body|..] == [];
    CleanRun(segments, declare);
  }
}
