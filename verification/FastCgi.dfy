/** FastCGI request records, and how the other side reads them (FastCGI Specification, sections 3.3 and 3.4). */
module FastCgi {
  import opened Octets

  const BEGIN_REQUEST: Octet := 1
  const PARAMS: Octet := 4
  const STDIN: Octet := 5

  /** A `std::string` whose length fits `unsigned int`. */
  type Str = s: Bytes | |s| < TWO_32

  // ---- The connection ----

  /** What went out, how many octets the connection still takes before it breaks, and whether it broke. */
  datatype Wire = Wire(sent: Bytes, room: nat, broken: bool)

  /** `_Send_`: all of `b`, or what still fits and then an error. */
  function Put(w: Wire, b: Bytes): Wire {
    if |b| <= w.room then Wire(w.sent + b, w.room - |b|, w.broken)
    else Wire(w.sent + b[..w.room], 0, true)
  }

  lemma PutPut(w: Wire, a: Bytes, b: Bytes)
    ensures Put(Put(w, a), b) == Put(w, a + b)
  {
    if |a| <= w.room {
      assert w.sent + a + b == w.sent + (a + b);
      if |a| + |b| > w.room {
        assert (a + b)[..w.room] == a + b[..w.room - |a|];
        assert w.sent + a + b[..w.room - |a|] == w.sent + (a + b[..w.room - |a|]);
      }
    } else {
      assert (a + b)[..w.room] == a[..w.room];
      assert w.sent + a[..w.room] + b[..0] == w.sent + a[..w.room];
    }
  }

  lemma PutNothing(w: Wire)
    ensures Put(w, []) == w
  {
    assert w.sent + [] == w.sent;
  }

  // ---- Records ----

  /** The content length a header can carry. */
  function Claimed(n: nat): (c: nat)
    ensures c <= 0xFFFF
  {
    if n > 0xFFFF then 0xFFFF else n
  }

  function PaddingFor(claimed: nat): (p: nat)
    ensures p < 8 && (claimed + p) % 8 == 0
  {
    (8 - claimed % 8) % 8
  }

  function Header(kind: Octet, id: nat, claimed: nat): (h: Bytes)
    requires id <= 0xFFFF && claimed <= 0xFFFF
    ensures |h| == 8
  {
    [1, kind, id / 256, id % 256, claimed / 256, claimed % 256, PaddingFor(claimed), 0]
  }

  function Zeros(n: nat): (z: Bytes)
    ensures |z| == n
  {
    seq(n, i => 0)
  }

  /** A record for `content`: the header counts no more than 65535 octets, the content is sent whole. */
  function RecordText(kind: Octet, id: nat, content: Bytes): Bytes
    requires id <= 0xFFFF
  {
    Header(kind, id, Claimed(|content|)) + content + Zeros(PaddingFor(Claimed(|content|)))
  }

  // ---- Name-value pairs ----

  /** Four octets, the highest bit set. */
  function Four(n: nat): (b: Bytes)
    requires n < TWO_32
    ensures |b| == 4
  {
    var b3 := n / 0x100_0000;
    [if b3 < 0x80 then b3 + 0x80 else b3, n / 0x1_0000 % 256, n / 256 % 256, n % 256]
  }

  function LengthText(n: nat): Bytes
    requires n < TWO_32
  {
    if n < 0x80 then [n] else Four(n)
  }

  /** Entries that are sent: not those with an empty string, nor those with one of exactly 128 octets. */
  predicate Carried(name: Str, value: Str) {
    |name| > 0 && |value| > 0 && |name| != 0x80 && |value| != 0x80
  }

  function PairText(name: Str, value: Str): Bytes {
    LengthText(|name|) + LengthText(|value|) + name + value
  }

  /** The content for the entries in iteration order. */
  function Body(order: seq<Str>, params: map<Str, Str>): Bytes
    requires forall k | k in order :: k in params
  {
    if order == [] then []
    else
      (if Carried(order[0], params[order[0]]) then PairText(order[0], params[order[0]]) else [])
        + Body(order[1..], params)
  }

  predicate Enumerates(order: seq<Str>, params: map<Str, Str>) {
    (forall k | k in order :: k in params) && (forall k | k in params :: k in order)
  }

  // ---- The client ----

  class FastCgiClient {
    var requestIdB0: Octet
    var requestIdB1: Octet
    var wire: Wire

    function Id(): (id: nat)
      reads this
      ensures id <= 0xFFFF
    {
      requestIdB1 * 256 + requestIdB0
    }

    method Send(b: Bytes) returns (ok: bool)
      modifies this`wire
      ensures wire == Put(old(wire), b)
      ensures ok == (|b| <= old(wire.room))
    {
      ok := |b| <= wire.room;
      wire := Put(wire, b);
    }

    /** First pass: the number of octets the second will write. */
    method ContentLength(order: seq<Str>, params: map<Str, Str>) returns (total: nat)
      requires Enumerates(order, params)
      ensures total == |Body(order, params)|
    {
      total := 0;
      for i := 0 to |order|
        invariant total + |Body(order[i..], params)| == |Body(order, params)|
      {
        assert order[i..][1..] == order[i + 1..];
        var nameLen, valueLen := |order[i]|, |params[order[i]]|;
        if nameLen > 0 && valueLen > 0 {
          if nameLen < 0x80 && valueLen < 0x80 {
            total := total + 2;
          } else if nameLen < 0x80 && valueLen > 0x80 {
            total := total + 5;
          } else if nameLen > 0x80 && valueLen < 0x80 {
            total := total + 5;
          } else if nameLen > 0x80 && valueLen > 0x80 {
            total := total + 8;
          } else {
            continue;
          }
          total := total + nameLen;
          total := total + valueLen;
        }
      }
    }

    /** One turn of the second pass. */
    method SendPair(name: Str, value: Str)
      modifies this`wire
      ensures wire == Put(old(wire), if Carried(name, value) then PairText(name, value) else [])
    {
      PutNothing(wire);
      var lengths: Bytes;
      if |name| > 0 && |value| > 0 {
        if |name| < 0x80 && |value| < 0x80 {
          lengths := [|name|, |value|];
        } else if |name| < 0x80 && |value| > 0x80 {
          lengths := [|name|] + Four(|value|);
        } else if |name| > 0x80 && |value| < 0x80 {
          lengths := Four(|name|) + [|value|];
        } else if |name| > 0x80 && |value| > 0x80 {
          lengths := Four(|name|) + Four(|value|);
        } else {
          return;
        }
        assert lengths == LengthText(|name|) + LengthText(|value|);
        PutPut(wire, lengths, name);
        PutPut(wire, lengths + name, value);
        var _ := Send(lengths);
        var _ := Send(name);
        var _ := Send(value);
      }
    }

    method SendParams(order: seq<Str>, params: map<Str, Str>) returns (r: int)
      requires Enumerates(order, params)
      modifies this`wire
      ensures wire == Put(old(wire), RecordText(PARAMS, Id(), Body(order, params)))
      ensures r == if 8 <= old(wire.room) then 0 else -1
    {
      hide Put, Header, PairText;
      var total := ContentLength(order, params);
      var claimed := Claimed(total);
      var padding := PaddingFor(claimed);
      ghost var body, pad, start := Body(order, params), Zeros(padding), wire;
      var ok := Send(Header(PARAMS, Id(), claimed));
      PutPut(start, Header(PARAMS, Id(), claimed), body);
      PutPut(start, Header(PARAMS, Id(), claimed) + body, pad);
      if !ok {
        PutRoom(start, Header(PARAMS, Id(), claimed));
        Stuck(wire, body);
        Stuck(wire, pad);
        return -1;
      }
      for i := 0 to |order|
        invariant Put(wire, Body(order[i..], params)) == Put(Put(start, Header(PARAMS, Id(), claimed)), body)
      {
        assert order[i..][1..] == order[i + 1..];
        ghost var before := wire;
        SendPair(order[i], params[order[i]]);
        PutPut(before, if Carried(order[i], params[order[i]]) then PairText(order[i], params[order[i]]) else [],
               Body(order[i + 1..], params));
      }
      PutNothing(wire);
      if padding > 0 {
        var _ := Send(Zeros(padding));
      } else {
        assert pad == [];
      }
      return 0;
    }

    method SendRequestData(data: Bytes) returns (r: int)
      modifies this`wire
      ensures wire == Put(old(wire), RecordText(STDIN, Id(), data))
      ensures r == if 8 <= old(wire.room) then 0 else -1
    {
      hide Put, Header;
      var claimed := Claimed(|data|);
      var padding := PaddingFor(claimed);
      ghost var start := wire;
      var header := Header(STDIN, Id(), claimed);
      PutPut(start, header, data);
      PutPut(start, header + data, Zeros(padding));
      var ok := Send(header);
      if !ok {
        PutRoom(start, header);
        Stuck(wire, data);
        Stuck(wire, Zeros(padding));
        return -1;
      }
      var _ := Send(data);
      PutNothing(wire);
      if padding > 0 {
        var _ := Send(Zeros(padding));
      } else {
        assert Zeros(padding) == [];
      }
      return 0;
    }

    /** `SendEmptyParams` and `SendEmptyRequestData`. */
    method SendEmpty(kind: Octet) returns (r: int)
      modifies this`wire
      ensures wire == Put(old(wire), RecordText(kind, Id(), []))
      ensures r == if 8 <= old(wire.room) then 0 else -1
    {
      var ok := Send(Header(kind, Id(), 0));
      assert Header(kind, Id(), 0) == RecordText(kind, Id(), []);
      return if ok then 0 else -1;
    }

    method BeginRequest(requestId: nat) returns (r: int)
      requires requestId <= 0xFFFF
      modifies this
      ensures Id() == requestId
      ensures wire == Put(old(wire), RecordText(BEGIN_REQUEST, requestId, RESPONDER))
      ensures r == if 16 <= old(wire.room) then 0 else -1
    {
      requestIdB0 := requestId % 256;
      requestIdB1 := requestId / 256;
      var header := Header(BEGIN_REQUEST, requestId, 8);
      PutPut(wire, header, RESPONDER);
      assert header + RESPONDER == RecordText(BEGIN_REQUEST, requestId, RESPONDER);
      ghost var start := wire;
      var ok := Send(header);
      if !ok {
        PutRoom(start, header);
        Stuck(wire, RESPONDER);
        return -1;
      }
      ok := Send(RESPONDER);
      return if ok then 0 else -1;
    }

    /** A whole request.  However the connection breaks, what went out is a beginning of the right stream, and
        success is reported exactly when all of it went out. */
    method SendParamsAndData(requestId: nat, order: seq<Str>, params: map<Str, Str>, data: Bytes) returns (r: int)
      requires requestId <= 0xFFFF && Enumerates(order, params)
      modifies this
      ensures wire == Put(old(wire), Request(requestId, order, params, data))
      ensures r == 0 <==> |Request(requestId, order, params, data)| <= old(wire.room)
    {
      hide Put, RecordText, Body;
      ghost var start := wire;
      ghost var begin := RecordText(BEGIN_REQUEST, requestId, RESPONDER);
      ghost var first := if |params| > 0 then RecordText(PARAMS, requestId, Body(order, params)) else [];
      ghost var second := RecordText(PARAMS, requestId, []);
      ghost var third := if |data| > 0 then RecordText(STDIN, requestId, data) else [];
      ghost var last := RecordText(STDIN, requestId, []);
      BeginLength(requestId);
      EmptyRecord(PARAMS, requestId);
      EmptyRecord(STDIN, requestId);
      PutPut(start, begin, first);
      PutPut(start, begin + first, second);
      PutPut(start, begin + first + second, third);
      PutPut(start, begin + first + second + third, last);
      PutRoom(start, begin);
      PutRoom(start, begin + first);
      PutRoom(start, begin + first + second);
      PutRoom(start, begin + first + second + third);
      assert Request(requestId, order, params, data) == begin + first + second + third + last;
      r := BeginRequest(requestId);
      if r != 0 {
        Stuck(wire, first);
        Stuck(wire, second);
        Stuck(wire, third);
        Stuck(wire, last);
        return -1;
      }
      PutNothing(wire);
      assert begin + [] == begin;
      if |params| > 0 {
        r := SendParams(order, params);
        if r < 0 {
          FirstDoesNotFit(PARAMS, requestId, Body(order, params));
          Stuck(wire, second);
          Stuck(wire, third);
          Stuck(wire, last);
          return -1;
        }
      }
      assert wire == Put(start, begin + first);
      r := SendEmpty(PARAMS);
      if r < 0 {
        Stuck(wire, third);
        Stuck(wire, last);
        return -1;
      }
      PutNothing(wire);
      assert begin + first + second + [] == begin + first + second;
      if |data| > 0 {
        r := SendRequestData(data);
        if r < 0 {
          FirstDoesNotFit(STDIN, requestId, data);
          Stuck(wire, last);
          return -1;
        }
      }
      assert wire == Put(start, begin + first + second + third);
      r := SendEmpty(STDIN);
    }
  }

  /** The body of the record that opens a request: the responder role. */
  const RESPONDER: Bytes := [0, 1, 0, 0, 0, 0, 0, 0]

  function Request(id: nat, order: seq<Str>, params: map<Str, Str>, data: Bytes): Bytes
    requires id <= 0xFFFF && Enumerates(order, params)
  {
    RecordText(BEGIN_REQUEST, id, RESPONDER)
    + (if |params| > 0 then RecordText(PARAMS, id, Body(order, params)) else [])
    + RecordText(PARAMS, id, [])
    + (if |data| > 0 then RecordText(STDIN, id, data) else [])
    + RecordText(STDIN, id, [])
  }

  lemma PutRoom(w: Wire, b: Bytes)
    ensures |b| <= w.room ==> Put(w, b).room == w.room - |b|
    ensures |b| > w.room ==> Put(w, b).room == 0 && Put(w, b).broken
  {
  }

  lemma Stuck(w: Wire, b: Bytes)
    requires w.room == 0 && w.broken
    ensures Put(w, b) == w
  {
    assert w.sent + b[..0] == w.sent;
    assert |b| == 0 ==> w.sent + b == w.sent;
  }

  lemma EmptyRecord(kind: Octet, id: nat)
    requires id <= 0xFFFF
    ensures |RecordText(kind, id, [])| == 8
  {
  }

  lemma BeginLength(id: nat)
    requires id <= 0xFFFF
    ensures |RecordText(BEGIN_REQUEST, id, RESPONDER)| == 16
  {
  }

  lemma FirstDoesNotFit(kind: Octet, id: nat, content: Bytes)
    requires id <= 0xFFFF
    ensures |RecordText(kind, id, content)| >= 8
  {
  }

  /** A record is a multiple of eight octets unless its content is too long for the header. */
  lemma RecordAligned(kind: Octet, id: nat, content: Bytes)
    requires id <= 0xFFFF
    ensures |RecordText(kind, id, content)| % 8 == 0 <==> |content| <= 0xFFFF || |content| % 8 == 7
  {
  }

  // ---- The other side ----

  datatype Record = Record(kind: Octet, id: nat, content: Bytes)

  /** Section 3.3: a version 1 header, the content, the padding. */
  function ReadRecord(s: Bytes): (r: Option<(Record, Bytes)>)
    ensures r.Some? ==> |r.value.1| < |s| && |r.value.0.content| <= 0xFFFF
  {
    if |s| < 8 || s[0] != 1 then None
    else
      var id: nat := (s[2] as int) * 256 + s[3] as int;
      var length: nat := (s[4] as int) * 256 + s[5] as int;
      var end: nat := 8 + length + s[6] as int;
      if |s| < end then None else Some((Record(s[1], id, s[8..8 + length]), s[end..]))
  }

  function ReadAll(s: Bytes): (r: Option<seq<Record>>)
    ensures r.Some? ==> forall i | 0 <= i < |r.value| :: |r.value[i].content| <= 0xFFFF
    decreases |s|
  {
    if s == [] then Some([])
    else
      var first := ReadRecord(s);
      if first.None? then None
      else
        var rest := ReadAll(first.value.1);
        if rest.None? then None else Some([first.value.0] + rest.value)
  }

  /** A record is read back, and what follows it is found, exactly when its content is no longer than 65535. */
  lemma RecordRead(kind: Octet, id: nat, content: Bytes, tail: Bytes)
    requires id <= 0xFFFF
    ensures ReadRecord(RecordText(kind, id, content) + tail) == Some((Record(kind, id, content), tail))
       <==> |content| <= 0xFFFF
  {
    if |content| <= 0xFFFF {
      var n := |content|;
      var s := RecordText(kind, id, content) + tail;
      var h := Header(kind, id, n);
      assert forall i | 0 <= i < 8 :: s[i] == h[i];
      assert s[8..8 + n] == content;
      assert s[8 + n + PaddingFor(n)..] == tail;
    }
  }

  /** What no reader has to look at is zero: the reserved octet and the padding, fewer than eight octets. */
  lemma RestIsZero(kind: Octet, id: nat, content: Bytes)
    requires id <= 0xFFFF
    ensures var s := RecordText(kind, id, content);
            && 8 + |content| <= |s| < 16 + |content| && s[..8] + content <= s
            && s[7] == 0 && forall i | 8 + |content| <= i < |s| :: s[i] == 0
  {
    var s := RecordText(kind, id, content);
    assert s[..8] + content == s[..8 + |content|];
  }

  lemma ReadAllOnce(kind: Octet, id: nat, content: Bytes, tail: Bytes)
    requires id <= 0xFFFF && |content| <= 0xFFFF
    ensures ReadAll(RecordText(kind, id, content) + tail)
         == if ReadAll(tail).None? then None else Some([Record(kind, id, content)] + ReadAll(tail).value)
  {
    hide RecordText, ReadRecord;
    RecordRead(kind, id, content, tail);
    FirstDoesNotFit(kind, id, content);
  }

  datatype Pair = Pair(name: Bytes, value: Bytes)

  /** Section 3.4: one octet below 128, or four with the highest bit set. */
  function ReadLength(s: Bytes): (r: Option<(nat, Bytes)>)
    ensures r.Some? ==> |r.value.1| < |s|
  {
    if s == [] then None
    else if s[0] < 0x80 then Some((s[0], s[1..]))
    else if |s| < 4 then None
    else
      var n: nat := (s[0] as int - 0x80) * 0x100_0000 + (s[1] as int) * 0x1_0000 + (s[2] as int) * 256 + s[3] as int;
      Some((n, s[4..]))
  }

  function ReadPairs(s: Bytes): Option<seq<Pair>>
    decreases |s|
  {
    if s == [] then Some([])
    else
      var n := ReadLength(s);
      if n.None? then None
      else
        var v := ReadLength(n.value.1);
        if v.None? || |v.value.1| < n.value.0 + v.value.0 then None
        else
          var name := v.value.1[..n.value.0];
          var value := v.value.1[n.value.0..n.value.0 + v.value.0];
          var rest := ReadPairs(v.value.1[n.value.0 + v.value.0..]);
          if rest.None? then None else Some([Pair(name, value)] + rest.value)
  }

  lemma LengthRead(n: nat, tail: Bytes)
    requires n < TWO_32
    ensures ReadLength(LengthText(n) + tail) == Some((n, tail)) <==> n < 0x8000_0000
  {
    var s := LengthText(n) + tail;
    if n < 0x80 {
      assert s[1..] == tail;
    } else {
      assert s[0] == Four(n)[0] && s[1] == Four(n)[1] && s[2] == Four(n)[2] && s[3] == Four(n)[3];
      assert s[4..] == tail;
      FourDigits(n);
    }
  }

  lemma FourDigits(n: nat)
    requires n < TWO_32
    ensures n == n / 0x100_0000 * 0x100_0000 + n / 0x1_0000 % 256 * 0x1_0000 + n / 256 % 256 * 256 + n % 256
  {
    assert n == n / 256 * 256 + n % 256;
    assert n / 256 == n / 256 / 256 * 256 + n / 256 % 256 && n / 256 / 256 == n / 0x1_0000;
    assert n / 0x1_0000 == n / 0x1_0000 / 256 * 256 + n / 0x1_0000 % 256 && n / 0x1_0000 / 256 == n / 0x100_0000;
  }

  lemma PairRead(name: Str, value: Str, tail: Bytes)
    requires |name| < 0x8000_0000 && |value| < 0x8000_0000
    ensures ReadPairs(PairText(name, value) + tail)
         == if ReadPairs(tail).None? then None else Some([Pair(name, value)] + ReadPairs(tail).value)
  {
    hide ReadLength, LengthText;
    var s := PairText(name, value) + tail;
    var afterName := LengthText(|value|) + (name + value + tail);
    assert s == LengthText(|name|) + afterName;
    LengthRead(|name|, afterName);
    LengthRead(|value|, name + value + tail);
    assert (name + value + tail)[..|name|] == name;
    assert (name + value + tail)[|name|..|name| + |value|] == value;
    assert (name + value + tail)[|name| + |value|..] == tail;
    assert s != [];
  }

  function PairsOf(order: seq<Str>, params: map<Str, Str>): seq<Pair>
    requires forall k | k in order :: k in params
  {
    if order == [] then []
    else
      (if Carried(order[0], params[order[0]]) then [Pair(order[0], params[order[0]])] else [])
        + PairsOf(order[1..], params)
  }

  lemma {:induction false} BodyRead(order: seq<Str>, params: map<Str, Str>)
    requires forall k | k in order :: k in params
    requires |Body(order, params)| <= 0xFFFF
    ensures ReadPairs(Body(order, params)) == Some(PairsOf(order, params))
  {
    hide ReadPairs, PairText;
    if order == [] {
      ReadPairsNone();
    } else {
      var name, value := order[0], params[order[0]];
      var rest := Body(order[1..], params);
      BodyRead(order[1..], params);
      if Carried(name, value) {
        PairLength(name, value);
        PairRead(name, value, rest);
      } else {
        assert [] + rest == rest && [] + PairsOf(order[1..], params) == PairsOf(order[1..], params);
      }
    }
  }

  lemma ReadPairsNone()
    ensures ReadPairs([]) == Some([])
  {
  }

  lemma PairLength(name: Str, value: Str)
    ensures |PairText(name, value)| >= |name| + |value|
  {
  }

  /** The map a list of pairs stands for. */
  function MapOf(pairs: seq<Pair>): map<Bytes, Bytes> {
    if pairs == [] then map[] else MapOf(pairs[1..])[pairs[0].name := pairs[0].value]
  }

  /** The entries a request carries. */
  function CarriedPart(params: map<Str, Str>): map<Bytes, Bytes> {
    map k: Str | k in params && k != [] && params[k] != [] && |k| != 128 && |params[k]| != 128 :: params[k]
  }

  lemma {:induction false} PairsMap(order: seq<Str>, params: map<Str, Str>)
    requires forall k | k in order :: k in params
    ensures forall k: Str :: k in MapOf(PairsOf(order, params)) <==> k in order && Carried(k, params[k])
    ensures forall k | k in MapOf(PairsOf(order, params)) ::
              k in order && MapOf(PairsOf(order, params))[k] == params[k]
  {
    if order != [] {
      PairsMap(order[1..], params);
      var head := order[0];
      var rest := PairsOf(order[1..], params);
      if Carried(head, params[head]) {
        assert ([Pair(head, params[head])] + rest)[1..] == rest;
      } else {
        assert [] + rest == rest;
      }
    }
  }

  /** What the responder should find in a request. */
  function Expected(id: nat, order: seq<Str>, params: map<Str, Str>, data: Bytes): seq<Record>
    requires Enumerates(order, params)
  {
    [Record(BEGIN_REQUEST, id, RESPONDER)]
    + (if |params| > 0 then [Record(PARAMS, id, Body(order, params))] else [])
    + [Record(PARAMS, id, [])]
    + (if |data| > 0 then [Record(STDIN, id, data)] else [])
    + [Record(STDIN, id, [])]
  }

  /** A record in front of a stream that is read as `list`. */
  lemma RecordInFront(present: bool, kind: Octet, id: nat, content: Bytes, tail: Bytes, list: seq<Record>)
    requires id <= 0xFFFF && |content| <= 0xFFFF && ReadAll(tail) == Some(list)
    ensures ReadAll((if present then RecordText(kind, id, content) else []) + tail)
         == Some((if present then [Record(kind, id, content)] else []) + list)
  {
    hide ReadAll, RecordText;
    if present {
      ReadAllOnce(kind, id, content, tail);
    } else {
      assert [] + tail == tail && [] + list == list;
    }
  }

  lemma RequestReadShort(id: nat, order: seq<Str>, params: map<Str, Str>, data: Bytes)
    requires id <= 0xFFFF && Enumerates(order, params)
    requires |Body(order, params)| <= 0xFFFF && |data| <= 0xFFFF
    ensures ReadAll(Request(id, order, params, data)) == Some(Expected(id, order, params, data))
  {
    hide ReadAll, RecordText, Body;
    var body := Body(order, params);
    var begin, second := RecordText(BEGIN_REQUEST, id, RESPONDER), RecordText(PARAMS, id, []);
    var last := RecordText(STDIN, id, []);
    var first := if |params| > 0 then RecordText(PARAMS, id, body) else [];
    var third := if |data| > 0 then RecordText(STDIN, id, data) else [];
    var r1 := if |params| > 0 then [Record(PARAMS, id, body)] else [];
    var r3 := if |data| > 0 then [Record(STDIN, id, data)] else [];
    var r2, r4 := [Record(PARAMS, id, [])], [Record(STDIN, id, [])];
    ReadAllNone();
    RecordInFront(true, STDIN, id, [], [], []);
    assert last + [] == last && r4 + [] == r4;
    RecordInFront(|data| > 0, STDIN, id, data, last, r4);
    RecordInFront(true, PARAMS, id, [], third + last, r3 + r4);
    RecordInFront(|params| > 0, PARAMS, id, body, second + (third + last), r2 + (r3 + r4));
    RecordInFront(true, BEGIN_REQUEST, id, RESPONDER, first + (second + (third + last)), r1 + (r2 + (r3 + r4)));
    Reassociate(begin, first, second, third, last);
    Reassociate([Record(BEGIN_REQUEST, id, RESPONDER)], r1, r2, r3, r4);
  }

  lemma Reassociate<T>(a: seq<T>, b: seq<T>, c: seq<T>, d: seq<T>, e: seq<T>)
    ensures a + (b + (c + (d + e))) == a + b + c + d + e
  {
  }

  /** Main result, records: the stream of a request is read back as its records exactly when neither the
      parameters nor the data are longer than 65535 octets. */
  lemma RequestRead(id: nat, order: seq<Str>, params: map<Str, Str>, data: Bytes)
    requires id <= 0xFFFF && Enumerates(order, params)
    ensures ReadAll(Request(id, order, params, data)) == Some(Expected(id, order, params, data))
       <==> |Body(order, params)| <= 0xFFFF && |data| <= 0xFFFF
  {
    hide ReadAll, RecordText, Request, Body;
    var body := Body(order, params);
    if |body| <= 0xFFFF && |data| <= 0xFFFF {
      RequestReadShort(id, order, params, data);
    } else {
      BodyNeedsParams(order, params);
      var long := if |body| > 0xFFFF then Record(PARAMS, id, body) else Record(STDIN, id, data);
      assert long in Expected(id, order, params, data);
    }
  }

  lemma ReadAllNone()
    ensures ReadAll([]) == Some([])
  {
  }

  lemma BodyNeedsParams(order: seq<Str>, params: map<Str, Str>)
    requires Enumerates(order, params)
    ensures Body(order, params) != [] ==> |params| > 0
  {
    if order != [] {
      assert order[0] in params;
    }
  }

  /** Main result, parameters: the content of the parameter record gives back the map without its empty entries
      and those with a string of exactly 128 octets; so the whole map exactly when there are none. */
  lemma ParamsRead(order: seq<Str>, params: map<Str, Str>)
    requires Enumerates(order, params) && |Body(order, params)| <= 0xFFFF
    ensures var pairs := ReadPairs(Body(order, params));
            && pairs.Some?
            && MapOf(pairs.value) == CarriedPart(params)
            && (MapOf(pairs.value) == params <==>
                  forall k | k in params :: k != [] && params[k] != [] && |k| != 128 && |params[k]| != 128)
  {
    hide ReadPairs, Body, MapOf, PairsOf;
    BodyRead(order, params);
    PairsMap(order, params);
    var m := MapOf(PairsOf(order, params));
    assert forall k: Str | k in params :: k in m <==> Carried(k, params[k]);
  }

  // ---- FastCGI Specification, sections 5.1 and 6: what a responder makes of the records ----

  /** The contents of the records of one kind, put together. */
  function StreamOf(rs: seq<Record>, kind: nat): Bytes {
    if rs == [] then []
    else (if rs[0].kind == kind then rs[0].content else []) + StreamOf(rs[1..], kind)
  }

  lemma {:induction false} StreamAppend(a: seq<Record>, b: seq<Record>, kind: nat)
    ensures StreamOf(a + b, kind) == StreamOf(a, kind) + StreamOf(b, kind)
  {
    if a == [] {
      assert a + b == b;
    } else {
      assert (a + b)[1..] == a[1..] + b;
      StreamAppend(a[1..], b, kind);
    }
  }

  lemma StreamOne(r: Record, kind: nat)
    ensures StreamOf([r], kind) == if r.kind == kind then r.content else []
    ensures StreamOf([], kind) == []
  {
    assert [r][1..] == [];
  }

  /** Main result, meaning: a request that is read back opens, with a record of type 1, a request of that id in the
      role 1, a responder, and asks for the connection to be closed behind it.  The parameter stream, type 4, is the
      parameters' content and the input stream, type 5, the data; both are closed by an empty record, the parameters'
      in front of all input. */
  lemma RequestMeans(id: nat, order: seq<Str>, params: map<Str, Str>, data: Bytes) returns (closing: nat)
    requires id <= 0xFFFF && Enumerates(order, params)
    requires |Body(order, params)| <= 0xFFFF && |data| <= 0xFFFF
    ensures ReadAll(Request(id, order, params, data)).Some?
    ensures var rs := ReadAll(Request(id, order, params, data)).value;
            && 0 < closing < |rs| - 1 && rs[closing] == Record(4, id, []) && rs[|rs| - 1] == Record(5, id, [])
            && (forall i | 0 <= i < |rs| :: rs[i].id == id)
            && (forall i | 0 < i < |rs| :: rs[i].kind == if i <= closing then 4 else 5)
            && rs[0].kind == 1 && |rs[0].content| == 8
            && (rs[0].content[0] as int) * 256 + rs[0].content[1] as int == 1 && rs[0].content[2] == 0
            && StreamOf(rs, 4) == Body(order, params) && StreamOf(rs, 5) == data
  {
    hide ReadAll, Request, Body, StreamOf, Expected;
    RequestReadShort(id, order, params, data);
    closing := ExpectedShape(id, order, params, data);
    BodyNeedsParams(order, params);
    ExpectedStreams(id, order, params, data);
  }

  lemma ExpectedShape(id: nat, order: seq<Str>, params: map<Str, Str>, data: Bytes) returns (closing: nat)
    requires Enumerates(order, params)
    ensures var rs := Expected(id, order, params, data);
            && 0 < closing < |rs| - 1 && rs[closing] == Record(4, id, []) && rs[|rs| - 1] == Record(5, id, [])
            && (forall i | 0 <= i < |rs| :: rs[i].id == id)
            && (forall i | 0 < i < |rs| :: rs[i].kind == if i <= closing then 4 else 5)
            && rs[0].kind == 1 && |rs[0].content| == 8
            && (rs[0].content[0] as int) * 256 + rs[0].content[1] as int == 1 && rs[0].content[2] == 0
  {
    hide Body;
    closing := if |params| > 0 then 2 else 1;
  }

  lemma ExpectedStreams(id: nat, order: seq<Str>, params: map<Str, Str>, data: Bytes)
    requires Enumerates(order, params) && (Body(order, params) != [] ==> |params| > 0)
    ensures StreamOf(Expected(id, order, params, data), 4) == Body(order, params)
    ensures StreamOf(Expected(id, order, params, data), 5) == data
  {
    hide Body, StreamOf;
    var body := Body(order, params);
    var begin, second, last := Record(1, id, RESPONDER), Record(4, id, []), Record(5, id, []);
    var first := if |params| > 0 then [Record(4, id, body)] else [];
    var third := if |data| > 0 then [Record(5, id, data)] else [];
    assert Expected(id, order, params, data) == [begin] + first + [second] + third + [last];
    forall kind | kind == 4 || kind == 5
      ensures StreamOf([begin] + first + [second] + third + [last], kind)
           == StreamOf(first, kind) + StreamOf(third, kind)
    {
      StreamsPart([begin], first, [second], third, [last], kind);
      StreamOne(begin, kind);
      StreamOne(second, kind);
      StreamOne(last, kind);
    }
    Streamed(id, 4, body, |params| > 0);
    Streamed(id, 5, data, |data| > 0);
    OtherStream(first, 5);
    OtherStream(third, 4);
  }

  lemma Streamed(id: nat, kind: Octet, content: Bytes, present: bool)
    requires content != [] ==> present
    ensures StreamOf(if present then [Record(kind, id, content)] else [], kind as nat) == content
  {
    StreamOne(Record(kind, id, content), kind as nat);
  }

  lemma OtherStream(rs: seq<Record>, kind: nat)
    requires |rs| <= 1 && forall i | 0 <= i < |rs| :: rs[i].kind != kind
    ensures StreamOf(rs, kind) == []
  {
  }

  lemma StreamsPart(a: seq<Record>, b: seq<Record>, c: seq<Record>, d: seq<Record>, e: seq<Record>, kind: nat)
    ensures StreamOf(a + b + c + d + e, kind)
         == StreamOf(a, kind) + StreamOf(b, kind) + StreamOf(c, kind) + StreamOf(d, kind) + StreamOf(e, kind)
  {
    StreamAppend(a + b + c + d, e, kind);
    StreamAppend(a + b + c, d, kind);
    StreamAppend(a + b, c, kind);
    StreamAppend(a, b, kind);
  }
}
