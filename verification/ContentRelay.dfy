/** The proxy's response relay (`http_client`): header, then a chunked or a Content-Length body, with a copy
    of the latter for the tunneling cache. */
module ContentRelay {
  import opened Octets
  import opened ChunkRelay

  /** What `parse` makes of a response header: its result, the fields the relay uses, and the rewritten
      header it sends.  `cached` says that the response may be cached and a copy buffer was allocated. */
  datatype Facts = Facts(parseOk: bool, contentLength: int, chunked: bool, cached: bool, header: Bytes)

  datatype Part = HeaderPart | ContentPart

  datatype Client = Client(part: Part, buf: Bytes, chunk: ChunkState, sentLen: nat, copy: Bytes, completed: bool)

  const NEW_CLIENT := Client(HeaderPart, [], START, 0, [], false)

  datatype Delivery = Delivery(client: Client, out: Bytes, more: bool)

  /** Everything buffered is body: it is copied, sent, counted. */
  function Body(f: Facts, c: Client): (d: Delivery)
    requires c.chunk.Valid()
    ensures d.client.chunk.Valid()
  {
    if f.chunked then
      var r := Run(c.chunk, c.buf);
      Delivery(c.(buf := r.left, chunk := r.state), r.out, r.more)
    else if c.buf == [] then Delivery(c, [], true)
    else
      var sent := c.sentLen + |c.buf|;
      var done := sent == f.contentLength;
      Delivery(c.(buf := [], sentLen := sent,
                  copy := if f.cached then c.copy + c.buf else c.copy,
                  completed := c.completed || done),
               c.buf, !done)
  }

  /** The relay once everything buffered is known. */
  function Advance(f: Facts, c: Client): (d: Delivery)
    requires c.chunk.Valid()
    ensures d.client.chunk.Valid()
  {
    if c.part == ContentPart then Body(f, c)
    else
      match Find(c.buf, END)
      case None => Delivery(c, [], true)
      case Some(k) =>
        if !f.parseOk then Delivery(c, [], false)
        else
          var c1 := c.(part := ContentPart, buf := c.buf[k + 4..], sentLen := 0);
          if !f.chunked && f.contentLength == 0 then Delivery(c1, f.header, false)
          else
            var d := Body(f, c1);
            d.(out := f.header + d.out)
  }

  /** One read handed to the relay. */
  function Deliver(f: Facts, c: Client, data: Bytes): (d: Delivery)
    requires c.chunk.Valid()
    ensures d.client.chunk.Valid()
  {
    Advance(f, c.(buf := c.buf + data))
  }

  /** What the destructor puts into the tunneling cache. */
  function Pushed(f: Facts, c: Client): Option<Bytes> {
    if f.cached && c.completed && c.copy != [] then Some(c.copy) else None
  }

  class HttpClient {
    var part: Part
    var buf: array<Octet>
    var used: nat
    var sentLen: nat
    var copy: Bytes
    var completed: bool
    const facts: Facts
    const tunnel: Tunnel
    const chunk: HttpChunk

    ghost predicate Valid()
      reads this, chunk
    {
      chunk.tunnel == tunnel && chunk.State().Valid() && used <= buf.Length
    }

    ghost function Abstract(): Client
      reads this, chunk, buf
      requires Valid()
    {
      Client(part, buf[..used], chunk.State(), sentLen, copy, completed)
    }

    constructor (facts: Facts, tunnel: Tunnel)
      ensures Valid() && Abstract() == NEW_CLIENT && fresh(buf) && fresh(chunk)
      ensures this.facts == facts && this.tunnel == tunnel
    {
      this.facts, this.tunnel := facts, tunnel;
      part, used, sentLen, copy, completed := HeaderPart, 0, 0, [], false;
      buf := new Octet[4096](_ => 0);
      chunk := new HttpChunk(tunnel);
    }

    /** Appends one read to the buffer, growing it when it is too small. */
    method Append(data: Bytes)
      requires Valid()
      modifies this`buf, this`used, buf
      ensures Valid() && (buf == old(buf) || fresh(buf))
      ensures Abstract() == old(Abstract()).(buf := old(Abstract()).buf + data)
    {
      ghost var was := buf[..used];
      if buf.Length - used < |data| {
        var bigger := new Octet[used + |data|](_ => 0);
        forall i | 0 <= i < used {
          bigger[i] := buf[i];
        }
        assert forall i | 0 <= i < used :: bigger[i] == was[i];
        buf := bigger;
      }
      assert forall i | 0 <= i < used :: buf[i] == was[i];
      forall i | 0 <= i < |data| {
        buf[used + i] := data[i];
      }
      used := used + |data|;
      assert forall i | 0 <= i < used :: buf[i] == (was + data)[i];
    }

    /** The buffered octets are content: relay them. */
    method SendBody() returns (more: bool)
      requires Valid() && part == ContentPart && !tunnel.broken
      modifies this, buf, chunk, tunnel
      ensures Valid() && buf == old(buf)
      ensures var d := Body(facts, old(Abstract()));
              if tunnel.broken then !more && old(tunnel.sent) <= tunnel.sent <= old(tunnel.sent) + d.out
              else Abstract() == d.client && more == d.more && tunnel.sent == old(tunnel.sent) + d.out
    {
      hide Run;
      if facts.chunked {
        used, more := chunk.Processing(buf, used);
      } else if used > 0 {
        if facts.cached {
          copy := copy + buf[..used];
        }
        var ok, out := tunnel.ClientSend(buf[..used]);
        if !ok {
          SentSoFar(old(tunnel.sent), out, buf[..used]);
          return false;
        }
        sentLen := sentLen + used;
        used := 0;
        more := sentLen != facts.contentLength;
        completed := completed || !more;
      } else {
        more := true;
      }
    }

    /** The header ends at octet `k`: send what `parse` made of it and go on with the body. */
    method StartBody(k: nat) returns (more: bool)
      requires Valid() && part == HeaderPart && !tunnel.broken
      requires Find(buf[..used], END) == Some(k)
      modifies this, buf, chunk, tunnel
      ensures Valid() && buf == old(buf)
      ensures var d := Advance(facts, old(Abstract()));
              if tunnel.broken then !more && old(tunnel.sent) <= tunnel.sent <= old(tunnel.sent) + d.out
              else Abstract() == d.client && more == d.more && tunnel.sent == old(tunnel.sent) + d.out
    {
      hide Run, Body, Find;
      if !facts.parseOk {
        return false;
      }
      ghost var before := Advance(facts, Abstract());
      var ok, out := tunnel.ClientSend(facts.header);
      if !ok {
        assert facts.header <= before.out;
        SentSoFar(old(tunnel.sent), out, before.out);
        return false;
      }
      var n := k + 4;
      assert buf[..used][n..] == buf[n..used];
      MoveDown(buf, used, n);
      used := used - n;
      part := ContentPart;
      sentLen := 0;
      if !facts.chunked && facts.contentLength == 0 {
        return false;
      }
      ghost var d := Body(facts, Abstract());
      more := SendBody();
      assert old(tunnel.sent) + facts.header + d.out == old(tunnel.sent) + (facts.header + d.out);
    }

    /** `http_client::processing`. */
    method Processing(data: Bytes) returns (more: bool)
      requires Valid() && !tunnel.broken
      modifies this, buf, chunk, tunnel
      ensures Valid() && (buf == old(buf) || fresh(buf))
      ensures var d := Deliver(facts, old(Abstract()), data);
              if tunnel.broken then !more && old(tunnel.sent) <= tunnel.sent <= old(tunnel.sent) + d.out
              else Abstract() == d.client && more == d.more && tunnel.sent == old(tunnel.sent) + d.out
    {
      hide Run, Body;
      Append(data);
      if part == ContentPart {
        more := SendBody();
        return;
      }
      var found := Scan(buf, used, END);
      if found.None? {
        return true;
      }
      more := StartBody(found.value);
    }

    /** The destructor's cache push. */
    method Close() returns (pushed: Option<Bytes>)
      requires Valid()
      ensures pushed == Pushed(facts, Abstract())
    {
      pushed := if facts.cached && completed && copy != [] then Some(copy) else None;
    }
  }
}
