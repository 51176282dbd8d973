/** What the chunk relay does over whole responses: it does not matter how a response is cut into reads,
    nothing is lost, and a body in the format of section 4.1 of RFC 7230 ends exactly at its last octet. */
module ChunkedBody {
  import opened Octets
  import opened HexText
  import opened ChunkRelay

  // ---- Any input, cut anywhere ----

  /** Octets leave in order: what was sent followed by what is buffered is what came in. */
  lemma {:induction false} NothingLost(st: ChunkState, buf: Bytes)
    requires st.Valid()
    ensures var r := Run(st, buf); r.out + r.left == buf
    decreases |buf|, Rank(st.phase)
  {
    if buf != [] && Step(st, buf).Go? {
      var Go(next, n) := Step(st, buf);
      NothingLost(next, buf[n..]);
    }
  }

  /** The second call continues from what the first left over; if the first ended the response, the
      later octets stay unread behind its leftover. */
  ghost function Continue(first: Relay, more: Bytes): Relay
    requires first.state.Valid()
  {
    if first.more then Run(first.state, first.left + more).After(first.out)
    else first.(left := first.left + more)
  }

  lemma ContinueAfter(r: Relay, earlier: Bytes, y: Bytes)
    requires r.state.Valid()
    ensures Continue(r, y).After(earlier) == Continue(r.After(earlier), y)
  {
    hide Run;
    if r.more {
      AfterTwice(Run(r.state, r.left + y), earlier, r.out);
    }
  }

  /** A size line or a trailer that is complete is read the same when more octets are behind it. */
  lemma StepSplit(st: ChunkState, x: Bytes, y: Bytes)
    requires st.Valid() && st.phase != Content && x != []
    ensures var m := Step(st, x);
            if m.Go? then Step(st, x + y) == m
            else if m.relay.more then m.relay == Relay(st, [], x, true)
            else Step(st, x + y) == Stop(m.relay.(left := m.relay.left + y))
  {
    hide Find, ScanHex, SizeState;
    var p := if st.phase == Header then CRLF else END;
    if Find(x, p).Some? {
      var k := Find(x, p).value;
      FindAppend(x, y, p);
      if st.phase == Header {
        assert (x + y)[..Min(k, 31)] == x[..Min(k, 31)];
      } else {
        assert (x + y)[..k + 4] == x[..k + 4] && (x + y)[k + 4..] == x[k + 4..] + y;
      }
    }
  }

  /** Two reads do exactly what one read of both would do. */
  lemma {:induction false} SplitInsensitive(st: ChunkState, x: Bytes, y: Bytes)
    requires st.Valid()
    ensures Run(st, x + y) == Continue(Run(st, x), y)
    decreases |x|, Rank(st.phase), 2
  {
    hide Run, Step;
    RunOnce(st, x);
    if x == [] {
      assert x + y == y;
    } else if st.phase == Content {
      ContentSplit(st, x, y);
    } else {
      StepSplit(st, x, y);
      RunOnce(st, x + y);
      var m := Step(st, x);
      if m.Go? {
        GoSplit(st, m, x, y);
      }
    }
  }

  lemma {:induction false} GoSplit(st: ChunkState, m: Move, x: Bytes, y: Bytes)
    requires st.Valid() && x != [] && m.Go? && Step(st, x) == m == Step(st, x + y)
    ensures Run(st, x + y) == Continue(Run(st, x), y)
    decreases |x|, Rank(st.phase), 0
  {
    hide Run, Step;
    RunOnce(st, x);
    RunOnce(st, x + y);
    assert (x + y)[..m.n] == x[..m.n] && (x + y)[m.n..] == x[m.n..] + y;
    SplitInsensitive(m.next, x[m.n..], y);
    ContinueAfter(Run(m.next, x[m.n..]), x[..m.n], y);
  }

  lemma {:induction false} ContentSplit(st: ChunkState, x: Bytes, y: Bytes)
    requires st.Valid() && st.phase == Content && x != []
    ensures Run(st, x + y) == Continue(Run(st, x), y)
    decreases |x|, Rank(st.phase), 1
  {
    hide Run;
    if st.chunkLen - st.sentChunk <= |x| {
      GoSplit(st, Step(st, x), x, y);
    } else {
      PartialContent(st, x);
      assert [] + y == y;
      if y == [] {
        assert x + y == x;
        RunOnce(ContentStep(st, |x|), y);
      } else {
        JoinContent(st, x, y);
      }
    }
  }

  lemma PartialContent(st: ChunkState, x: Bytes)
    requires st.Valid() && st.phase == Content && 0 < |x| < st.chunkLen - st.sentChunk
    ensures Run(st, x) == Relay(ContentStep(st, |x|), x, [], true)
  {
    hide Run;
    RunOnce(st, x);
    RunOnce(ContentStep(st, |x|), x[|x|..]);
    assert x[..|x|] == x && x[|x|..] == [] && x + [] == x;
  }

  lemma JoinContent(st: ChunkState, x: Bytes, y: Bytes)
    requires st.Valid() && st.phase == Content && 0 < |x| < st.chunkLen - st.sentChunk && y != []
    ensures Run(st, x + y) == Run(ContentStep(st, |x|), y).After(x)
  {
    hide Run, Step, ContentStep, Relay.After;
    JoinStep(st, x, y);
    var next := ContentStep(st, |x|);
    var m := Min(|y|, next.chunkLen - next.sentChunk);
    RunOnce(next, y);
    RunOnce(st, x + y);
    AfterTwice(Run(ContentStep(next, m), y[m..]), x, y[..m]);
  }

  lemma JoinStep(st: ChunkState, x: Bytes, y: Bytes)
    requires st.Valid() && st.phase == Content && 0 < |x| < st.chunkLen - st.sentChunk && y != []
    ensures var n, next := |x|, ContentStep(st, |x|);
            var m := Min(|y|, next.chunkLen - next.sentChunk);
            && next.Valid()
            && Step(next, y) == Go(ContentStep(next, m), m)
            && Step(st, x + y) == Go(ContentStep(next, m), n + m)
            && (x + y)[..n + m] == x + y[..m] && (x + y)[n + m..] == y[m..]
  {
  }

  /** `http_client::processing` called with each read in turn, until the relay asks for no more. */
  ghost function Feed(r: Relay, pieces: seq<Bytes>): (f: Relay)
    requires r.state.Valid()
    ensures f.state.Valid()
    decreases |pieces|
  {
    if pieces == [] then r else Feed(Continue(r, pieces[0]), pieces[1..])
  }

  lemma {:induction false} FeedFrom(st: ChunkState, seen: Bytes, r: Relay, pieces: seq<Bytes>)
    requires st.Valid() && r == Run(st, seen)
    ensures Feed(r, pieces) == Run(st, seen + Flatten(pieces))
    decreases |pieces|
  {
    hide Run;
    if pieces == [] {
      assert seen + Flatten(pieces) == seen;
    } else {
      SplitInsensitive(st, seen, pieces[0]);
      FeedFrom(st, seen + pieces[0], Continue(r, pieces[0]), pieces[1..]);
      assert seen + pieces[0] + Flatten(pieces[1..]) == seen + Flatten(pieces);
    }
  }

  /** Every way of cutting the input into reads gives what one read of everything gives. */
  lemma AnySegmentation(st: ChunkState, pieces: seq<Bytes>)
    requires st.Valid()
    ensures Feed(Run(st, []), pieces) == Run(st, Flatten(pieces))
  {
    hide Run;
    FeedFrom(st, [], Run(st, []), pieces);
    assert [] + Flatten(pieces) == Flatten(pieces);
  }

  // ---- Section 4.1 of RFC 7230 ----

  /** chunk-size, chunk-ext and chunk-data of one chunk. */
  datatype Chunk = Chunk(size: Bytes, ext: Bytes, data: Bytes)

  datatype Message = Message(chunks: seq<Chunk>, zeros: Bytes, lastExt: Bytes, trailer: seq<Bytes>)

  ghost predicate NoCrlf(s: Bytes) {
    forall i: nat :: !MatchAt(s, CRLF, i)
  }

  ghost predicate ExtOk(ext: Bytes) {
    (ext == [] || ext[0] == ';' as int) && NoCrlf(ext)
  }

  ghost predicate SizeOk(size: Bytes, n: nat) {
    size != [] && AllHex(size) && HexValue(size) == n
  }

  /** A data chunk of the grammar whose size fits the relay's counter. */
  ghost predicate ChunkOk(c: Chunk) {
    SizeOk(c.size, |c.data|) && ExtOk(c.ext) && 0 < |c.data| < TWO_32 - 2
  }

  ghost predicate TrailerOk(lines: seq<Bytes>) {
    forall i | 0 <= i < |lines| :: lines[i] != [] && NoCrlf(lines[i])
  }

  ghost predicate BodyOk(b: Message) {
    && (forall i | 0 <= i < |b.chunks| :: ChunkOk(b.chunks[i]))
    && SizeOk(b.zeros, 0) && ExtOk(b.lastExt) && TrailerOk(b.trailer)
  }

  /** Size texts of at most 31 characters: what fits the relay's scratch buffer. */
  ghost predicate Short(b: Message) {
    forall i | 0 <= i < |b.chunks| :: |b.chunks[i].size| <= 31
  }

  ghost function EncodeChunk(c: Chunk): Bytes {
    c.size + c.ext + CRLF + c.data + CRLF
  }

  /** The CRLF of the last size line, the trailer lines, and the closing CRLF. */
  ghost function EncodeTrailer(lines: seq<Bytes>): (r: Bytes)
    ensures MatchAt(r, CRLF, 0)
  {
    if lines == [] then END else CRLF + lines[0] + EncodeTrailer(lines[1..])
  }

  ghost function Encode(b: Message): Bytes
    decreases |b.chunks|
  {
    if b.chunks == [] then b.zeros + b.lastExt + EncodeTrailer(b.trailer)
    else EncodeChunk(b.chunks[0]) + Encode(b.(chunks := b.chunks[1..]))
  }

  /** Before the CRLF that ends a size line there is none. */
  lemma SizeLineEnd(size: Bytes, ext: Bytes, tail: Bytes)
    requires AllHex(size) && ExtOk(ext)
    ensures Find(size + ext + CRLF + tail, CRLF) == Some(|size| + |ext|)
  {
    var all := size + ext + CRLF + tail;
    var k := |size| + |ext|;
    assert all[k..k + 2] == CRLF;
    forall j: nat | j < k
      ensures !MatchAt(all, CRLF, j)
    {
      assert all[j..j + 2] == [all[j], all[j + 1]];
      if j < |size| {
        assert all[j] == size[j];
      } else if j + 1 < k {
        assert all[j] == ext[j - |size|] && all[j + 1] == ext[j + 1 - |size|];
        assert !MatchAt(ext, CRLF, j - |size|);
        assert ext[j - |size|..j - |size| + 2] == [all[j], all[j + 1]];
      } else {
        assert all[j + 1] == CR;
      }
    }
    FindIs(all, CRLF, k);
  }

  /** The first blank line after the last chunk is the one that closes the trailer. */
  lemma {:induction false} TrailerEnd(lines: seq<Bytes>, j: nat)
    requires TrailerOk(lines)
    ensures |EncodeTrailer(lines)| >= 4
    ensures MatchAt(EncodeTrailer(lines), END, j) == (j == |EncodeTrailer(lines)| - 4)
    decreases |lines|
  {
    hide MatchAt, NoCrlf;
    if lines == [] {
      CloseOnly(j);
    } else {
      var line, rest := lines[0], EncodeTrailer(lines[1..]);
      var n := 2 + |line|;
      assert TrailerOk(lines[1..]);
      TrailerEnd(lines[1..], if j < n then 0 else j - n);
      if j >= n {
        MatchBehind(CRLF + line, rest, END, j);
      } else {
        FirstIsCr(rest);
        TrailerLineNoBlank(line, rest, j);
      }
    }
  }

  lemma CloseOnly(j: nat)
    ensures EncodeTrailer([]) == END
    ensures MatchAt(END, END, j) == (j == 0)
  {
  }

  lemma FirstIsCr(rest: Bytes)
    requires MatchAt(rest, CRLF, 0)
    ensures |rest| >= 2 && rest[0] == CR
  {
    assert rest[0..2][0] == CRLF[0];
  }

  lemma MatchBehind(s: Bytes, t: Bytes, p: Bytes, i: nat)
    requires |s| <= i
    ensures MatchAt(s + t, p, i) == MatchAt(t, p, i - |s|)
  {
    if i + |p| <= |s + t| {
      assert (s + t)[i..i + |p|] == t[i - |s|..i - |s| + |p|];
    }
  }

  lemma TrailerLineNoBlank(line: Bytes, rest: Bytes, j: nat)
    requires line != [] && NoCrlf(line)
    requires |rest| >= 2 && rest[0] == CR
    requires j < 2 + |line|
    ensures !MatchAt(CRLF + line + rest, END, j)
  {
    var t := CRLF + line + rest;
    if MatchAt(t, END, j) {
      assert t[j..j + 4] == END;
      assert t[j] == END[0] && t[j + 1] == END[1] && t[j + 2] == END[2] && t[j + 3] == END[3];
      if j >= 2 {
        InLine(line, rest, j - 2);
      } else if j == 0 {
        InLine(line, rest, 0);
      }
    }
  }

  /** No CRLF starts inside a trailer line. */
  lemma InLine(line: Bytes, rest: Bytes, i: nat)
    requires NoCrlf(line) && i < |line| && |rest| >= 2 && rest[0] == CR
    ensures var t := CRLF + line + rest; !(t[2 + i] == CR && t[3 + i] == LF)
  {
    var t := CRLF + line + rest;
    assert t[2 + i] == line[i];
    if i + 1 < |line| {
      assert t[3 + i] == line[i + 1];
      assert !MatchAt(line, CRLF, i);
      assert line[i..i + 2] == [line[i], line[i + 1]];
    }
  }

  /** The relay reads a chunk's size right exactly when the size text fits its scratch buffer. */
  lemma SizeReadRight(c: Chunk)
    requires ChunkOk(c)
    ensures var line := c.size + c.ext;
            ScanHex(line[..Min(|line|, 31)]) == Some(|c.data|) <==> |c.size| <= 31
  {
    var line := c.size + c.ext;
    if |c.size| <= 31 {
      assert line[..Min(|line|, 31)] == c.size + c.ext[..Min(|line|, 31) - |c.size|];
      ScanDigits(c.size, c.ext[..Min(|line|, 31) - |c.size|]);
    } else {
      assert line[..31] == c.size[..31] + [];
      HexPrefixBound(c.size, 31);
      ScanDigits(c.size[..31], []);
    }
  }

  lemma ChunkSizeLine(c: Chunk, tail: Bytes)
    requires ChunkOk(c) && |c.size| <= 31
    ensures var line := c.size + c.ext + CRLF;
            Step(START, line + tail) == Go(SizeState(|c.data|), |line|)
  {
    hide ScanHex;
    var line := c.size + c.ext;
    var all, k := line + CRLF + tail, |line|;
    SizeLineEnd(c.size, c.ext, tail);
    assert all[..Min(k, 31)] == line[..Min(k, 31)];
    SizeReadRight(c);
  }

  lemma OneChunk(c: Chunk, tail: Bytes)
    requires ChunkOk(c) && |c.size| <= 31
    ensures Run(START, EncodeChunk(c) + tail) == Run(START, tail).After(EncodeChunk(c))
  {
    hide Run, HeaderStep, SizeOk, ExtOk;
    var line, data := c.size + c.ext + CRLF, c.data + CRLF;
    var all := EncodeChunk(c) + tail;
    assert all == line + (data + tail) && EncodeChunk(c) == line + data;
    ChunkSizeLine(c, data + tail);
    assert all[..|line|] == line && all[|line|..] == data + tail;
    RunOnce(START, all);
    var st := SizeState(|c.data|);
    assert Step(st, data + tail) == Go(START, |data|);
    assert (data + tail)[..|data|] == data && (data + tail)[|data|..] == tail;
    RunOnce(st, data + tail);
    AfterTwice(Run(START, tail), line, data);
  }

  lemma ZerosAreZero(zeros: Bytes, n: nat)
    requires SizeOk(zeros, 0) && n <= |zeros|
    ensures HexValue(zeros[..n]) == 0
  {
    if n < |zeros| {
      HexPrefixBound(zeros, n);
    } else {
      assert zeros[..n] == zeros;
    }
  }

  /** The size line of the last chunk is read as 0 and sent without its CRLF. */
  lemma LastSizeLine(b: Message, tail: Bytes)
    requires BodyOk(b) && MatchAt(tail, CRLF, 0)
    ensures var line := b.zeros + b.lastExt;
            line + tail != [] && Step(START, line + tail) == Go(ChunkState(Footer, 0, 0), |line|)
  {
    hide HexValue, AllHex, LeadingHex;
    var line := b.zeros + b.lastExt;
    var all, k := line + tail, |line|;
    assert tail == CRLF + tail[2..] by {
      assert tail[0..2] == CRLF;
    }
    assert all == line + CRLF + tail[2..];
    SizeLineEnd(b.zeros, b.lastExt, tail[2..]);
    var m, digits := Min(k, 31), Min(|b.zeros|, 31);
    assert all[..m] == b.zeros[..digits] + b.lastExt[..m - digits];
    LastSizeScanned(b, digits, m - digits);
  }

  lemma LastSizeScanned(b: Message, digits: nat, more: nat)
    requires BodyOk(b) && digits == Min(|b.zeros|, 31) && more <= |b.lastExt|
    ensures ScanHex(b.zeros[..digits] + b.lastExt[..more]) == Some(0)
  {
    hide HexValue, LeadingHex, ScanHex;
    ZerosAreZero(b.zeros, digits);
    ScanDigits(b.zeros[..digits], b.lastExt[..more]);
  }

  /** The trailer goes out through the blank line that closes it, whatever follows. */
  lemma TrailerFinished(st: ChunkState, lines: seq<Bytes>, tail: Bytes)
    requires TrailerOk(lines)
    ensures var t := EncodeTrailer(lines); Finish(st, t + tail) == Relay(st, t, tail, false)
  {
    hide EncodeTrailer, MatchAt, Find;
    var t := EncodeTrailer(lines);
    TrailerEnd(lines, 0);
    var e := |t| - 4;
    TrailerEnd(lines, e);
    forall j: nat | j < e
      ensures !MatchAt(t, END, j)
    {
      TrailerEnd(lines, j);
    }
    FindIs(t, END, e);
    FindAppend(t, tail, END);
    assert (t + tail)[..e + 4] == t && (t + tail)[e + 4..] == tail;
  }

  lemma LastChunk(b: Message, tail: Bytes)
    requires BodyOk(b) && b.chunks == []
    ensures Run(START, Encode(b) + tail) == Relay(ChunkState(Footer, 0, 0), Encode(b), tail, false)
  {
    hide Run, EncodeTrailer, TrailerOk, MatchAt, HeaderStep, Finish, SizeOk, ExtOk;
    var line := b.zeros + b.lastExt;
    var t := EncodeTrailer(b.trailer);
    var all, k := Encode(b) + tail, |line|;
    assert all == line + (t + tail);
    assert MatchAt(t + tail, CRLF, 0) by {
      StartsWith(t, tail);
    }
    LastSizeLine(b, t + tail);
    RunOnce(START, all);
    assert all[k..] == t + tail && all[..k] == line;
    TrailerEnd(b.trailer, 0);
    TrailerFinished(ChunkState(Footer, 0, 0), b.trailer, tail);
    RunOnce(ChunkState(Footer, 0, 0), t + tail);
  }

  lemma StartsWith(t: Bytes, tail: Bytes)
    requires MatchAt(t, CRLF, 0)
    ensures MatchAt(t + tail, CRLF, 0)
  {
    MatchAtAppend(t, tail, CRLF, 0);
  }

  /** A whole body, whatever follows it: everything is sent and the end is reported at its last octet. */
  lemma {:induction false} WholeBody(b: Message, tail: Bytes)
    requires BodyOk(b) && Short(b)
    ensures Run(START, Encode(b) + tail) == Relay(ChunkState(Footer, 0, 0), Encode(b), tail, false)
    decreases |b.chunks|
  {
    hide Run;
    if b.chunks == [] {
      LastChunk(b, tail);
    } else {
      var c, rest := b.chunks[0], b.(chunks := b.chunks[1..]);
      assert BodyOk(rest) && Short(rest);
      WholeBody(rest, tail);
      OneChunk(c, Encode(rest) + tail);
      assert Encode(b) + tail == EncodeChunk(c) + (Encode(rest) + tail);
    }
  }

  /** No earlier: as long as an octet of the body is missing the relay asks for more. */
  lemma NoEarlyEnd(b: Message, n: nat)
    requires BodyOk(b) && Short(b) && n < |Encode(b)|
    ensures Run(START, Encode(b)[..n]).more
  {
    hide Run, Encode;
    var x, y := Encode(b)[..n], Encode(b)[n..];
    assert x + y == Encode(b) && Encode(b) + [] == Encode(b);
    WholeBody(b, []);
    SplitInsensitive(START, x, y);
  }

  /** Main result: a response delivered in any pieces ends exactly when its body is complete, with the
      body sent octet for octet and only octets past it left over. */
  lemma BodyInAnyReads(b: Message, tail: Bytes, pieces: seq<Bytes>)
    requires BodyOk(b) && Short(b)
    requires Flatten(pieces) <= Encode(b) + tail
    ensures var r := Feed(Run(START, []), pieces);
            && r.out + r.left == Flatten(pieces)
            && (r.more <==> |Flatten(pieces)| < |Encode(b)|)
            && (!r.more ==> r.out == Encode(b))
  {
    hide Run, Encode, Feed;
    var input := Flatten(pieces);
    AnySegmentation(START, pieces);
    NothingLost(START, input);
    if |input| < |Encode(b)| {
      assert input == Encode(b)[..|input|];
      NoEarlyEnd(b, |input|);
    } else {
      var extra := input[|Encode(b)|..];
      assert input == Encode(b) + extra;
      WholeBody(b, extra);
    }
  }

  // ---- Longer size texts ----

  /** 16 NUL octets, announced with 32 characters of which the relay reads 31. */
  ghost function LongChunk(): Chunk {
    Chunk(LongHead() + ['0' as int], [], seq(16, _ => 0))
  }

  ghost function LongHead(): (head: Bytes)
    ensures |head| == 31
  {
    seq(30, _ => '0' as int as Octet) + ['1' as int]
  }

  lemma LongSizes()
    ensures AllHex(LongHead()) && HexValue(LongHead()) == 1 && ChunkOk(LongChunk())
  {
    var head, size := LongHead(), LongChunk().size;
    assert head[..30] == seq(30, _ => '0' as int as Octet);
    AllZeros(head[..30]);
    assert head[30] == '1' as int && size[..31] == head && size[31] == '0' as int;
  }

  /** The size line: a chunk of one octet and its CRLF is expected. */
  lemma LongSizeLine(tail: Bytes)
    ensures var line := LongChunk().size + CRLF;
            Step(START, line + tail) == Go(ChunkState(Content, 3, 0), |line|)
  {
    hide AllHex, HexValue, ScanHex;
    LongSizes();
    var size, line := LongChunk().size, LongChunk().size + CRLF;
    assert size + [] + CRLF + tail == line + tail;
    SizeLineEnd(size, [], tail);
    assert (line + tail)[..31] == LongHead() + [];
    ScanDigits(LongHead(), []);
  }

  /** Behind three of the octets the rest of the data stands where a size is expected, and is none. */
  lemma NulsAreNoSize(tail: Bytes)
    ensures var rest := seq(13, _ => 0) + CRLF + tail;
            Step(START, rest) == Stop(Relay(START, [], rest, false))
  {
    var nuls: Bytes := seq(13, _ => 0);
    var rest := nuls + CRLF + tail;
    assert rest[13..15] == CRLF;
    forall j: nat | j < 13
      ensures !MatchAt(rest, CRLF, j)
    {
      assert rest[j..j + 2][0] == nuls[j];
    }
    FindIs(rest, CRLF, 13);
    assert rest[..13] == nuls;
    assert ScanHex(nuls) == None;
  }

  lemma ThreeOfLong(tail: Bytes)
    ensures var data: Bytes := LongChunk().data + CRLF + tail;
            var rest: Bytes := seq(13, _ => 0) + CRLF + tail;
            && Step(ChunkState(Content, 3, 0), data) == Go(START, 3)
            && data[..3] == [0, 0, 0] && data[3..] == rest
  {
  }

  /** The scratch buffer matters: the body of this legal message is broken off behind its first three octets, and
      the relay reports the end of the response. */
  lemma LongSizeMisread()
    ensures var b := Message([LongChunk()], ['0' as int], [], []);
            var out := LongChunk().size + CRLF + [0, 0, 0];
            && BodyOk(b) && !Short(b)
            && Run(START, Encode(b)).out == out && !Run(START, Encode(b)).more
            && out < Encode(b)
  {
    hide Run, Step, AllHex, HexValue, LongChunk, LongHead, ChunkOk;
    var b := Message([LongChunk()], ['0' as int], [], []);
    LongSizes();
    AllZeros(b.zeros);
    LongIsLong();
    var last := Encode(b.(chunks := []));
    var line := LongChunk().size + CRLF;
    var data := LongChunk().data + CRLF + last;
    var rest: Bytes := seq(13, _ => 0) + CRLF + last;
    assert b.chunks[1..] == [];
    assert Encode(b) == line + data;
    LongSizeLine(data);
    RunOnce(START, line + data);
    assert (line + data)[|line|..] == data && (line + data)[..|line|] == line;
    ThreeOfLong(last);
    RunOnce(ChunkState(Content, 3, 0), data);
    NulsAreNoSize(last);
    RunOnce(START, rest);
    assert line + ([0, 0, 0] + []) == line + [0, 0, 0];
    assert line + data == line + [0, 0, 0] + rest;
  }

  lemma LongIsLong()
    ensures |LongChunk().size| == 32 && LongChunk().ext == []
  {
  }

  /** Nor is the limit exact for whole bodies.  A chunk whose first 31 size characters are zeros is taken for the last
      one, and the relay then waits for a blank line: if the first one is the body's last four octets, the body
      goes out whole and the end is reported at its last octet all the same. */
  lemma LongSizeUnnoticed(b: Message)
    requires BodyOk(b) && b.chunks != [] && |b.chunks[0].size| > 31 && HexValue(b.chunks[0].size[..31]) == 0
    requires var line := b.chunks[0].size + b.chunks[0].ext;
             var rest := Encode(b)[|line|..];
             |rest| >= 4 && Find(rest, END) == Some(|rest| - 4)
    ensures !Short(b) && Run(START, Encode(b)) == Relay(ChunkState(Footer, 0, 0), Encode(b), [], false)
  {
    hide Run, HexValue, Find;
    var c := b.chunks[0];
    var line := c.size + c.ext;
    var all := Encode(b);
    var behind := c.data + CRLF + Encode(b.(chunks := b.chunks[1..]));
    assert all == line + CRLF + behind;
    SizeLineEnd(c.size, c.ext, behind);
    assert all[..31] == c.size[..31] + [];
    ScanDigits(c.size[..31], []);
    assert Step(START, all) == Go(ChunkState(Footer, 0, 0), |line|);
    RunOnce(START, all);
    var rest := all[|line|..];
    RunFooter(ChunkState(Footer, 0, 0), rest);
    assert rest[..|rest|] == rest && rest[|rest|..] == [];
    assert all[..|line|] + rest == all;
  }

  lemma {:induction false} AllZeros(s: Bytes)
    requires forall i | 0 <= i < |s| :: s[i] == '0' as int
    ensures AllHex(s) && HexValue(s) == 0
  {
    if s != [] {
      AllZeros(s[..|s| - 1]);
    }
  }
}
