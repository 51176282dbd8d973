/** The relay over whole responses: header and body delivered in any reads. */
module RelayedResponse {
  import opened Octets
  import opened ChunkRelay
  import opened ChunkedBody
  import opened ContentRelay

  /** The reads in turn, until the relay asks for no more. */
  ghost function FeedClient(f: Facts, d: Delivery, pieces: seq<Bytes>): (r: Delivery)
    requires d.client.chunk.Valid()
    ensures r.client.chunk.Valid()
    decreases |pieces|
  {
    if pieces == [] || !d.more then d
    else
      var next := Deliver(f, d.client, pieces[0]);
      FeedClient(f, next.(out := d.out + next.out), pieces[1..])
  }

  const IDLE := Delivery(NEW_CLIENT, [], true)

  /** A header: its first blank line is its end. */
  ghost predicate IsHeader(h: Bytes) {
    |h| >= 4 && Find(h, END) == Some(|h| - 4)
  }

  lemma HeaderNotYet(h: Bytes, n: nat)
    requires IsHeader(h) && n < |h|
    ensures Find(h[..n], END).None?
  {
    if Find(h[..n], END).Some? {
      assert h[..n] + h[n..] == h;
      FindAppend(h[..n], h[n..], END);
    }
  }

  /** The relay has seen `input` and it is all header so far. */
  ghost predicate InHeader(d: Delivery, input: Bytes) {
    d == IDLE.(client := NEW_CLIENT.(buf := input))
  }

  /** One read while the header is incomplete: still incomplete, or the body starts inside the read. */
  lemma HeaderRead(f: Facts, h: Bytes, d: Delivery, input: Bytes, data: Bytes)
    requires IsHeader(h) && f.parseOk && InHeader(d, input) && |input| < |h|
    requires input + data <= h || h <= input + data
    ensures var next := Deliver(f, d.client, data);
            if |input + data| < |h| then InHeader(next, input + data)
            else
              var c := NEW_CLIENT.(part := ContentPart, buf := (input + data)[|h|..]);
              if !f.chunked && f.contentLength == 0 then next == Delivery(c, f.header, false)
              else next == Body(f, c).(out := f.header + Body(f, c).out)
  {
    var all := input + data;
    if |all| < |h| {
      assert all == h[..|all|];
      HeaderNotYet(h, |all|);
    } else {
      FindAppend(h, all[|h|..], END);
      assert h + all[|h|..] == all;
    }
  }

  // ---- Chunked responses ----

  /** The relay after `input`, of which `|h|` octets were header. */
  ghost predicate InChunks(f: Facts, h: Bytes, d: Delivery, input: Bytes) {
    if |input| < |h| then InHeader(d, input)
    else
      var r := Run(START, input[|h|..]);
      && d.client == NEW_CLIENT.(part := ContentPart, buf := r.left, chunk := r.state)
      && d.out == f.header + r.out
      && d.more == r.more
  }

  lemma ChunkedRead(f: Facts, h: Bytes, d: Delivery, input: Bytes, data: Bytes)
    requires IsHeader(h) && f.parseOk && f.chunked && d.more && InChunks(f, h, d, input)
    requires d.client.chunk.Valid()
    requires input + data <= h || h <= input + data
    ensures var next := Deliver(f, d.client, data);
            InChunks(f, h, next.(out := d.out + next.out), input + data)
  {
    hide Run;
    if |input| < |h| {
      HeaderRead(f, h, d, input, data);
      var next := Deliver(f, d.client, data);
      assert [] + next.out == next.out;
    } else {
      SplitInsensitive(START, input[|h|..], data);
      assert (input + data)[|h|..] == input[|h|..] + data;
      var r := Run(START, input[|h|..]);
      var r2 := Run(r.state, r.left + data);
      assert f.header + r.out + r2.out == f.header + (r.out + r2.out);
    }
  }

  lemma {:induction false} ChunkedFeed(f: Facts, h: Bytes, b: Message, d: Delivery, input: Bytes, pieces: seq<Bytes>)
    requires IsHeader(h) && f.parseOk && f.chunked && BodyOk(b) && Short(b)
    requires InChunks(f, h, d, input) && d.client.chunk.Valid()
    requires d.more <==> |input| < |h + Encode(b)|
    requires input + Flatten(pieces) <= h + Encode(b)
    ensures var r := FeedClient(f, d, pieces);
            && InChunks(f, h, r, input + Flatten(pieces))
            && (r.more <==> |input + Flatten(pieces)| < |h + Encode(b)|)
    decreases |pieces|
  {
    hide Run, Encode, Deliver;
    if pieces == [] {
      assert input + Flatten(pieces) == input;
    } else if d.more {
      var data, rest := pieces[0], Flatten(pieces[1..]);
      assert input + Flatten(pieces) == input + data + rest;
      assert input + data <= h + Encode(b);
      ChunkedRead(f, h, d, input, data);
      var next := Deliver(f, d.client, data);
      ChunkedMore(f, h, b, next.(out := d.out + next.out), input + data);
      ChunkedFeed(f, h, b, next.(out := d.out + next.out), input + data, pieces[1..]);
    } else {
      assert input + Flatten(pieces) == input;
    }
  }

  lemma ChunkedMore(f: Facts, h: Bytes, b: Message, d: Delivery, input: Bytes)
    requires BodyOk(b) && Short(b) && InChunks(f, h, d, input)
    requires input <= h + Encode(b)
    ensures d.more <==> |input| < |h + Encode(b)|
  {
    hide Run, Encode, BodyOk, Short;
    if |input| >= |h| {
      var body := input[|h|..];
      assert body == Encode(b)[..|body|];
      if |body| < |Encode(b)| {
        NoEarlyEnd(b, |body|);
      } else {
        WholeBody(b, []);
        assert body == Encode(b) + [];
      }
    }
  }

  /** Main result for chunked responses: in any reads, the relay ends with the last octet of the body and
      the client has then received the rewritten header and the body, octet for octet.  At any time before, it has
      the rewritten header and all of the body but what is still buffered. */
  lemma ChunkedResponse(f: Facts, h: Bytes, b: Message, pieces: seq<Bytes>)
    requires IsHeader(h) && f.parseOk && f.chunked && BodyOk(b) && Short(b)
    requires Flatten(pieces) <= h + Encode(b)
    ensures var r := FeedClient(f, IDLE, pieces);
            && (r.more <==> |Flatten(pieces)| < |h + Encode(b)|)
            && (!r.more ==> r.out == f.header + Encode(b))
            && (|Flatten(pieces)| < |h| ==> r.out == [])
            && (|Flatten(pieces)| >= |h| ==> r.out + r.client.buf == f.header + Flatten(pieces)[|h|..])
            && Pushed(f, r.client).None?
  {
    hide Run, Encode, FeedClient, Flatten, IsHeader, BodyOk, Short;
    HeaderNotEmpty(h);
    assert [] + Flatten(pieces) == Flatten(pieces);
    ChunkedFeed(f, h, b, IDLE, [], pieces);
    var r := FeedClient(f, IDLE, pieces);
    if |Flatten(pieces)| >= |h| {
      var body := Flatten(pieces)[|h|..];
      NothingLost(START, body);
      assert f.header + Run(START, body).out + Run(START, body).left == f.header + body;
    }
    if !r.more {
      var body := Flatten(pieces)[|h|..];
      assert body == Encode(b) + [];
      WholeBody(b, []);
    }
  }

  lemma HeaderNotEmpty(h: Bytes)
    requires IsHeader(h)
    ensures |h| >= 4
  {
  }

  // ---- More body than announced ----

  /** Some read boundary falls exactly on the announced length. */
  ghost predicate BoundaryAt(f: Facts, sent: int, pieces: seq<Bytes>) {
    exists i: nat | i <= |pieces| :: sent + |Flatten(pieces[..i])| == f.contentLength
  }

  /** Behind the header, for any octets whatever. */
  lemma {:induction false} BodyEndsAtBoundary(f: Facts, d: Delivery, pieces: seq<Bytes>)
    requires !f.chunked && d.more && d.client.chunk.Valid()
    requires d.client.part == ContentPart && d.client.buf == [] && d.client.sentLen != f.contentLength
    ensures !FeedClient(f, d, pieces).more <==> BoundaryAt(f, d.client.sentLen, pieces)
    decreases |pieces|
  {
    var n := d.client.sentLen;
    assert pieces[..0] == [];
    if pieces != [] {
      var data := pieces[0];
      assert [] + data == data;
      var next := Deliver(f, d.client, data);
      forall i: nat | 1 <= i <= |pieces|
        ensures Flatten(pieces[..i]) == data + Flatten(pieces[1..][..i - 1])
      {
        assert pieces[..i][1..] == pieces[1..][..i - 1];
      }
      assert Flatten(pieces[1..][..0]) == [];
      if next.more {
        BodyEndsAtBoundary(f, next.(out := d.out + next.out), pieces[1..]);
        BoundaryShift(f, n, pieces);
      } else {
        assert n + |Flatten(pieces[..1])| == f.contentLength;
      }
    }
  }

  lemma BoundaryShift(f: Facts, sent: int, pieces: seq<Bytes>)
    requires pieces != [] && sent != f.contentLength
    ensures BoundaryAt(f, sent, pieces) <==> BoundaryAt(f, sent + |pieces[0]|, pieces[1..])
  {
    var rest := pieces[1..];
    forall i: nat | i <= |rest|
      ensures Flatten(pieces[..i + 1]) == pieces[0] + Flatten(rest[..i])
    {
      assert pieces[..i + 1][1..] == rest[..i];
    }
    if BoundaryAt(f, sent, pieces) {
      var i: nat :| i <= |pieces| && sent + |Flatten(pieces[..i])| == f.contentLength;
      assert i > 0 by {
        assert pieces[..0] == [];
      }
      assert sent + |pieces[0]| + |Flatten(rest[..i - 1])| == f.contentLength by {
        assert pieces[..i - 1 + 1] == pieces[..i];
      }
    }
    if BoundaryAt(f, sent + |pieces[0]|, rest) {
      var i: nat :| i <= |rest| && sent + |pieces[0]| + |Flatten(rest[..i])| == f.contentLength;
      assert sent + |Flatten(pieces[..i + 1])| == f.contentLength;
    }
  }

  // ---- The cache copy ----

  /** The copy is of the octets sent, and the relay stops only with the announced length. */
  lemma {:induction false} CopyLength(f: Facts, d: Delivery, pieces: seq<Bytes>)
    requires !f.chunked && f.cached && d.more && d.client.chunk.Valid()
    requires d.client.part == ContentPart && d.client.buf == [] && d.client.sentLen == |d.client.copy|
    ensures var r := FeedClient(f, d, pieces);
            |r.client.copy| == if r.more then |d.client.copy| + |Flatten(pieces)| else f.contentLength
    decreases |pieces|
  {
    if pieces != [] {
      var data := pieces[0];
      assert [] + data == data;
      var next := Deliver(f, d.client, data);
      if next.more {
        CopyLength(f, next.(out := d.out + next.out), pieces[1..]);
      }
    }
  }

  /** Behind the header. */
  lemma BodyCopyInside(f: Facts, d: Delivery, pieces: seq<Bytes>)
    requires !f.chunked && f.cached && d.more && d.client.chunk.Valid()
    requires d.client.part == ContentPart && d.client.buf == [] && d.client.sentLen == |d.client.copy|
    requires d.client.sentLen != f.contentLength
    ensures |FeedClient(f, d, pieces).client.copy| <= f.contentLength + 1
       <==> BoundaryAt(f, d.client.sentLen, pieces) || d.client.sentLen + |Flatten(pieces)| <= f.contentLength + 1
  {
    hide FeedClient, BoundaryAt, Flatten;
    CopyLength(f, d, pieces);
    BodyEndsAtBoundary(f, d, pieces);
  }

  // ---- From the first octet on ----

  /** Where a relay that has seen `n` octets ends, header included: with the header if no body is announced, else at
      a read boundary that falls on the announced length. */
  ghost predicate Met(f: Facts, h: Bytes, n: nat, pieces: seq<Bytes>) {
    if f.contentLength == 0 then n + |Flatten(pieces)| >= |h|
    else f.contentLength > 0 && BoundaryAt(f, n - |h|, pieces)
  }

  /** Header first, as far as it comes. */
  ghost predicate HeaderFirst(h: Bytes, all: Bytes) {
    all <= h || h <= all
  }

  /** The relay behind the read that completes the header, `k` octets of body with it. */
  lemma HeaderCompleted(f: Facts, h: Bytes, d: Delivery, input: Bytes, data: Bytes)
    requires IsHeader(h) && f.parseOk && !f.chunked && InHeader(d, input) && |input| < |h| && h <= input + data
    requires f.contentLength != 0
    ensures var next := Deliver(f, d.client, data);
            var k := |input + data| - |h|;
            && next.more == (k == 0 || k != f.contentLength)
            && next.client.part == ContentPart && next.client.buf == [] && next.client.sentLen == k
            && next.client.chunk.Valid()
            && |next.client.copy| == if f.cached then k else 0
  {
    hide Run;
    HeaderRead(f, h, d, input, data);
    var body := (input + data)[|h|..];
    assert [] + body == body;
  }

  lemma MetShift(f: Facts, h: Bytes, n: nat, pieces: seq<Bytes>)
    requires pieces != [] && n < |h|
    ensures Met(f, h, n, pieces) <==> Met(f, h, n + |pieces[0]|, pieces[1..])
  {
    hide BoundaryAt;
    if f.contentLength > 0 {
      BoundaryShift(f, n - |h|, pieces);
    }
  }

  lemma NothingMore(f: Facts, sent: int)
    ensures BoundaryAt(f, sent, []) <==> sent == f.contentLength
    ensures Flatten([]) == []
  {
    var none: seq<Bytes> := [];
    assert none[..0] == none;
    assert sent + |Flatten(none[..0])| == sent;
  }

  lemma Behind(a: Bytes, data: Bytes, pieces: seq<Bytes>)
    requires pieces != [] && pieces[0] == data
    ensures a + Flatten(pieces) == a + data + Flatten(pieces[1..])
  {
  }

  lemma NeverBefore(f: Facts, sent: nat, pieces: seq<Bytes>)
    requires f.contentLength < 0
    ensures !BoundaryAt(f, sent, pieces)
  {
  }

  lemma BoundaryHere(f: Facts, pieces: seq<Bytes>)
    requires f.contentLength >= 0
    ensures BoundaryAt(f, f.contentLength, pieces)
  {
    assert pieces[..0] == [];
    assert f.contentLength + |Flatten(pieces[..0])| == f.contentLength;
  }

  lemma Stopped(f: Facts, d: Delivery, pieces: seq<Bytes>)
    requires !d.more && d.client.chunk.Valid()
    ensures FeedClient(f, d, pieces) == d
  {
  }

  lemma FeedOnce(f: Facts, d: Delivery, pieces: seq<Bytes>)
    requires d.more && d.client.chunk.Valid()
    ensures pieces == [] ==> FeedClient(f, d, pieces) == d
    ensures pieces != [] ==>
              var next := Deliver(f, d.client, pieces[0]);
              FeedClient(f, d, pieces) == FeedClient(f, next.(out := d.out + next.out), pieces[1..])
  {
    hide Deliver;
  }

  lemma {:induction false} EndsFrom(f: Facts, h: Bytes, d: Delivery, input: Bytes, pieces: seq<Bytes>)
    requires IsHeader(h) && f.parseOk && !f.chunked && InHeader(d, input) && |input| < |h|
    requires d.client.chunk.Valid() && HeaderFirst(h, input + Flatten(pieces))
    ensures !FeedClient(f, d, pieces).more <==> Met(f, h, |input|, pieces)
    decreases |pieces|
  {
    hide Run, Deliver, FeedClient, BoundaryAt, Flatten, IsHeader;
    FeedOnce(f, d, pieces);
    if pieces == [] {
      NothingMore(f, |input| - |h|);
    } else {
      var data, rest := pieces[0], pieces[1..];
      var next := Deliver(f, d.client, data);
      var d' := next.(out := d.out + next.out);
      Behind(input, data, pieces);
      MetShift(f, h, |input|, pieces);
      HeaderRead(f, h, d, input, data);
      if |input + data| < |h| {
        assert [] + next.out == next.out;
        EndsFrom(f, h, d', input + data, rest);
      } else if f.contentLength == 0 {
        Stopped(f, d', rest);
      } else {
        HeaderCompleted(f, h, d, input, data);
        var k := |input + data| - |h|;
        if d'.more {
          BodyEndsAtBoundary(f, d', rest);
          if f.contentLength < 0 {
            NeverBefore(f, k, rest);
          }
        } else {
          Stopped(f, d', rest);
          BoundaryHere(f, rest);
        }
      }
    }
  }

  /** Main result: exactly when the relay of a response ends whose body is not chunked, for a header and any octets
      behind it, in any reads, the one that completes the header included.  The length is only compared at the end
      of each read, so a read that runs past it is never noticed. */
  lemma EndsOnlyAtBoundary(f: Facts, h: Bytes, pieces: seq<Bytes>)
    requires IsHeader(h) && f.parseOk && !f.chunked && HeaderFirst(h, Flatten(pieces))
    ensures !FeedClient(f, IDLE, pieces).more <==> Met(f, h, 0, pieces)
  {
    hide FeedClient, Met, Flatten, IsHeader;
    HeaderNotEmpty(h);
    assert [] + Flatten(pieces) == Flatten(pieces);
    EndsFrom(f, h, IDLE, [], pieces);
  }

  lemma {:induction false} CopyFrom(f: Facts, h: Bytes, d: Delivery, input: Bytes, pieces: seq<Bytes>)
    requires IsHeader(h) && f.parseOk && !f.chunked && f.cached && f.contentLength > 0
    requires InHeader(d, input) && |input| < |h|
    requires d.client.chunk.Valid() && HeaderFirst(h, input + Flatten(pieces))
    ensures |FeedClient(f, d, pieces).client.copy| <= f.contentLength + 1
       <==> Met(f, h, |input|, pieces) || |input + Flatten(pieces)| <= |h| + f.contentLength + 1
    decreases |pieces|
  {
    hide Run, Deliver, FeedClient, BoundaryAt, Flatten, IsHeader;
    FeedOnce(f, d, pieces);
    if pieces == [] {
      NothingMore(f, |input| - |h|);
    } else {
      var data, rest := pieces[0], pieces[1..];
      var next := Deliver(f, d.client, data);
      var d' := next.(out := d.out + next.out);
      Behind(input, data, pieces);
      MetShift(f, h, |input|, pieces);
      HeaderRead(f, h, d, input, data);
      if |input + data| < |h| {
        assert [] + next.out == next.out;
        CopyFrom(f, h, d', input + data, rest);
      } else {
        HeaderCompleted(f, h, d, input, data);
        if d'.more {
          BodyCopyInside(f, d', rest);
        } else {
          Stopped(f, d', rest);
          BoundaryHere(f, rest);
        }
      }
    }
  }

  /** Main result: when the cache copy stays inside its buffer, which has one octet more than the announced length:
      exactly when a read boundary meets that length, or no more octets than the buffer holds ever come. */
  lemma CopyStaysInside(f: Facts, h: Bytes, pieces: seq<Bytes>)
    requires IsHeader(h) && f.parseOk && !f.chunked && HeaderFirst(h, Flatten(pieces))
    requires f.cached && f.contentLength > 0
    ensures |FeedClient(f, IDLE, pieces).client.copy| <= f.contentLength + 1
       <==> Met(f, h, 0, pieces) || |Flatten(pieces)| <= |h| + f.contentLength + 1
  {
    hide FeedClient, Met, Flatten, IsHeader;
    HeaderNotEmpty(h);
    assert [] + Flatten(pieces) == Flatten(pieces);
    CopyFrom(f, h, IDLE, [], pieces);
  }

  // ---- What the client has got, whatever comes ----

  /** The relay behind the header, with all of `body` sent; it has not stopped before. */
  ghost predicate Relayed(f: Facts, d: Delivery, body: Bytes) {
    var done := body != [] && |body| == f.contentLength;
    && d.client == NEW_CLIENT.(part := ContentPart, sentLen := |body|,
                               copy := if f.cached then body else [], completed := done)
    && d.out == f.header + body
    && d.more == !done
  }

  lemma RelayedRead(f: Facts, d: Delivery, body: Bytes, data: Bytes)
    requires !f.chunked && d.more && Relayed(f, d, body) && d.client.chunk.Valid()
    ensures var next := Deliver(f, d.client, data);
            Relayed(f, next.(out := d.out + next.out), body + data)
  {
    assert [] + data == data && body + [] == body && f.header + body + [] == f.header + body;
    assert f.header + body + data == f.header + (body + data);
  }

  lemma HeaderThenRelayed(f: Facts, h: Bytes, d: Delivery, input: Bytes, data: Bytes)
    requires IsHeader(h) && f.parseOk && !f.chunked && f.contentLength != 0
    requires InHeader(d, input) && |input| < |h| && h <= input + data
    ensures var next := Deliver(f, d.client, data);
            Relayed(f, next.(out := d.out + next.out), (input + data)[|h|..])
  {
    hide Run;
    HeaderRead(f, h, d, input, data);
    var next := Deliver(f, d.client, data);
    var body := (input + data)[|h|..];
    assert [] + next.out == next.out && [] + body == body && f.header + [] == f.header;
  }

  /** What a run has relayed of `all`, of which `n` octets are header: everything, or as much as was announced. */
  ghost predicate RelayedOf(f: Facts, d: Delivery, n: nat, all: Bytes)
    requires n <= |all|
  {
    if d.more then Relayed(f, d, all[n..])
    else 0 < f.contentLength <= |all| - n && Relayed(f, d, all[n..n + f.contentLength])
  }

  lemma {:induction false} BodyRelayed(f: Facts, d: Delivery, body: Bytes, pieces: seq<Bytes>)
    requires !f.chunked && Relayed(f, d, body) && d.client.chunk.Valid()
    ensures RelayedOf(f, FeedClient(f, d, pieces), 0, body + Flatten(pieces))
    decreases |pieces|
  {
    hide Deliver, FeedClient, Relayed;
    var all := body + Flatten(pieces);
    if !d.more {
      Stopped(f, d, pieces);
      RelayedStop(f, d, body);
      assert all[0..0 + |body|] == body;
    } else {
      FeedOnce(f, d, pieces);
      if pieces == [] {
        assert all[0..] == body;
      } else {
        RelayedRead(f, d, body, pieces[0]);
        var next := Deliver(f, d.client, pieces[0]);
        Behind(body, pieces[0], pieces);
        BodyRelayed(f, next.(out := d.out + next.out), body + pieces[0], pieces[1..]);
      }
    }
  }

  lemma RelayedStop(f: Facts, d: Delivery, body: Bytes)
    requires Relayed(f, d, body) && !d.more
    ensures 0 < |body| == f.contentLength
  {
  }

  lemma {:induction false} AllRelayed(f: Facts, h: Bytes, d: Delivery, input: Bytes, pieces: seq<Bytes>)
    requires IsHeader(h) && f.parseOk && !f.chunked && f.contentLength != 0
    requires InHeader(d, input) && |input| < |h| && d.client.chunk.Valid()
    requires HeaderFirst(h, input + Flatten(pieces))
    ensures var r, all := FeedClient(f, d, pieces), input + Flatten(pieces);
            if |all| < |h| then InHeader(r, all) else RelayedOf(f, r, |h|, all)
    decreases |pieces|
  {
    hide Run, Deliver, FeedClient, Relayed, Flatten, IsHeader;
    FeedOnce(f, d, pieces);
    if pieces == [] {
      NothingMore(f, 0);
      assert input + [] == input;
    } else {
      var data, rest := pieces[0], pieces[1..];
      var next := Deliver(f, d.client, data);
      var d' := next.(out := d.out + next.out);
      Behind(input, data, pieces);
      if |input + data| < |h| {
        HeaderRead(f, h, d, input, data);
        assert [] + next.out == next.out;
        AllRelayed(f, h, d', input + data, rest);
      } else {
        HeaderThenRelayed(f, h, d, input, data);
        BodyRelayed(f, d', (input + data)[|h|..], rest);
        BehindHeader(f, FeedClient(f, d', rest), h, input + data, Flatten(rest));
      }
    }
  }

  lemma BehindHeader(f: Facts, r: Delivery, h: Bytes, seen: Bytes, more: Bytes)
    requires |h| <= |seen| && RelayedOf(f, r, 0, seen[|h|..] + more)
    ensures RelayedOf(f, r, |h|, seen + more)
  {
    hide Relayed;
    var body, all := seen[|h|..] + more, seen + more;
    assert all[|h|..] == body && body[0..] == body;
    if !r.more {
      assert all[|h|..|h| + f.contentLength] == body[0..0 + f.contentLength];
    }
  }

  /** Main result: for a header and any octets behind it, in any reads, when the body is not chunked.  Before the
      header is complete nothing is sent.  From then on, as long as the relay asks for more, the client has the
      rewritten header and every octet behind the header; where it stops, those up to the announced length.  Only
      then does the cache get anything, and that is the body sent; without a length it never stops or caches. */
  lemma EverythingRelayed(f: Facts, h: Bytes, pieces: seq<Bytes>)
    requires IsHeader(h) && f.parseOk && !f.chunked && HeaderFirst(h, Flatten(pieces))
    ensures var r, all := FeedClient(f, IDLE, pieces), Flatten(pieces);
            && (|all| < |h| ==> r.more && r.out == [] && Pushed(f, r.client).None?)
            && (|all| >= |h| && f.contentLength == 0 ==> !r.more && r.out == f.header && Pushed(f, r.client).None?)
            && (|all| >= |h| && f.contentLength != 0 ==>
                  if r.more then r.out == f.header + all[|h|..] && Pushed(f, r.client).None?
                  else
                    && 0 < f.contentLength <= |all| - |h|
                    && var body := all[|h|..|h| + f.contentLength];
                       r.out == f.header + body && Pushed(f, r.client) == if f.cached then Some(body) else None)
  {
    hide Run, FeedClient, IsHeader, Flatten;
    HeaderNotEmpty(h);
    assert [] + Flatten(pieces) == Flatten(pieces);
    if f.contentLength != 0 {
      AllRelayed(f, h, IDLE, [], pieces);
    } else {
      EmptyRelayed(f, h, IDLE, [], pieces);
    }
  }

  lemma {:induction false} EmptyRelayed(f: Facts, h: Bytes, d: Delivery, input: Bytes, pieces: seq<Bytes>)
    requires IsHeader(h) && f.parseOk && !f.chunked && f.contentLength == 0
    requires InHeader(d, input) && |input| < |h| && d.client.chunk.Valid()
    requires HeaderFirst(h, input + Flatten(pieces))
    ensures var r, all := FeedClient(f, d, pieces), input + Flatten(pieces);
            if |all| < |h| then InHeader(r, all)
            else !r.more && r.out == f.header && Pushed(f, r.client).None?
    decreases |pieces|
  {
    hide Run, Deliver, FeedClient, Flatten, IsHeader;
    FeedOnce(f, d, pieces);
    if pieces == [] {
      NothingMore(f, 0);
      assert input + [] == input;
    } else {
      var data, rest := pieces[0], pieces[1..];
      var next := Deliver(f, d.client, data);
      var d' := next.(out := d.out + next.out);
      Behind(input, data, pieces);
      HeaderRead(f, h, d, input, data);
      assert [] + next.out == next.out;
      if |input + data| < |h| {
        EmptyRelayed(f, h, d', input + data, rest);
      } else {
        Stopped(f, d', rest);
      }
    }
  }

  /** A header that `parse` refuses ends the relay with nothing sent, chunked or not. */
  lemma {:induction false} RefusedHeader(f: Facts, h: Bytes, d: Delivery, input: Bytes, pieces: seq<Bytes>)
    requires IsHeader(h) && !f.parseOk && InHeader(d, input) && |input| < |h| && d.client.chunk.Valid()
    requires HeaderFirst(h, input + Flatten(pieces))
    ensures var r := FeedClient(f, d, pieces);
            && r.out == [] && Pushed(f, r.client).None?
            && (r.more <==> |input + Flatten(pieces)| < |h|)
    decreases |pieces|
  {
    hide Run, FeedClient, Flatten, IsHeader, Body;
    FeedOnce(f, d, pieces);
    if pieces == [] {
      NothingMore(f, 0);
      assert input + [] == input;
    } else {
      var data, rest := pieces[0], pieces[1..];
      var next := Deliver(f, d.client, data);
      var d' := next.(out := d.out + next.out);
      Behind(input, data, pieces);
      var all := input + data;
      if |all| < |h| {
        assert all == h[..|all|];
        HeaderNotYet(h, |all|);
        RefusedHeader(f, h, d', all, rest);
      } else {
        HeaderFound(h, all);
        Stopped(f, d', rest);
      }
    }
  }

  lemma HeaderFound(h: Bytes, all: Bytes)
    requires IsHeader(h) && h <= all
    ensures Find(all, END) == Some(|h| - 4)
  {
    FindAppend(h, all[|h|..], END);
    assert h + all[|h|..] == all;
  }

  // ---- Content-Length responses ----

  lemma {:induction false} NoLonger(pieces: seq<Bytes>, i: nat)
    requires i <= |pieces|
    ensures |Flatten(pieces[..i])| <= |Flatten(pieces)|
  {
    if i > 0 {
      NoLonger(pieces[1..], i - 1);
      assert pieces[..i][1..] == pieces[1..][..i - 1];
    }
  }

  lemma MetAtEnd(f: Facts, h: Bytes, pieces: seq<Bytes>)
    requires f.contentLength > 0 && |Flatten(pieces)| <= |h| + f.contentLength
    ensures BoundaryAt(f, -(|h| as int), pieces) <==> |Flatten(pieces)| == |h| + f.contentLength
  {
    hide Flatten;
    assert pieces[..|pieces|] == pieces;
    if BoundaryAt(f, -(|h| as int), pieces) {
      var i: nat :| i <= |pieces| && -(|h| as int) + |Flatten(pieces[..i])| == f.contentLength;
      NoLonger(pieces, i);
    } else {
      assert -(|h| as int) + |Flatten(pieces[..|pieces|])| != f.contentLength;
    }
  }

  /** Main result for Content-Length responses: in any reads, the relay ends with the last octet of the body;
      what the tunneling cache then gets is the body that went to the client, and before that nothing. */
  lemma ContentResponse(f: Facts, h: Bytes, body: Bytes, pieces: seq<Bytes>)
    requires IsHeader(h) && f.parseOk && !f.chunked && f.contentLength == |body|
    requires Flatten(pieces) <= h + body
    ensures var r := FeedClient(f, IDLE, pieces);
            var complete := |Flatten(pieces)| == |h + body|;
            && (r.more <==> !complete)
            && (complete ==> r.out == f.header + body)
            && Pushed(f, r.client) == if complete && f.cached && body != [] then Some(body) else None
  {
    hide FeedClient, Flatten, IsHeader, Pushed;
    var all := Flatten(pieces);
    assert all == (h + body)[..|all|];
    if |all| >= |h| {
      assert h <= all;
    }
    EverythingRelayed(f, h, pieces);
    EndsOnlyAtBoundary(f, h, pieces);
    HeaderNotEmpty(h);
    if body != [] {
      MetAtEnd(f, h, pieces);
    }
    if |all| == |h + body| {
      assert all[|h|..|h| + |body|] == body;
    }
  }
}
