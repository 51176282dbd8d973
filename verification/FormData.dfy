/** The one-pass scanner of `multipart/form-data` bodies, against the grammar of section 5.1.1 of RFC 2046. */
module FormData {
  import opened Octets

  const END: Bytes := CRLF + CRLF
  const DASHES: Bytes := ['-' as int, '-' as int]

  /** The delimiter line that opens a part. */
  function Opening(boundary: Bytes): (d: Bytes)
    ensures d != []
  {
    DASHES + boundary + CRLF
  }

  /** The delimiter line that ends the body. */
  function Closing(boundary: Bytes): (d: Bytes)
    ensures d != []
  {
    DASHES + boundary + DASHES + CRLF
  }

  /** First and last octets of a segment, its header and its data; all bounds are inclusive. */
  datatype Param = Param(segBeg: int, segEnd: int, headerBeg: int, headerEnd: int, dataBeg: int, dataEnd: int) {
    function Opened(x: int): Param {
      this.(segBeg := x, headerBeg := x)
    }

    /** The segment ends before the delimiter at `x`; its data end before the line break in front of it. */
    function Closed(x: int): Param {
      this.(segEnd := x - 1, dataEnd := x - 1 - 2)
    }

    /** The blank line behind the header is at `x`. */
    function HeaderDone(x: int): Param {
      this.(headerEnd := x - 1, dataBeg := x + 4)
    }
  }

  const BLANK := Param(0, 0, 0, 0, 0, 0)

  /** The scanner from octet `x` on. */
  function ScanParts(buf: Bytes, boundary: Bytes, x: nat, param: Param, inHeader: bool): seq<Param>
    decreases |buf| - x
  {
    if x >= |buf| then []
    else if MatchAt(buf, Opening(boundary), x) && !MatchAt(buf, Closing(boundary), x) then
      var next := x + |Opening(boundary)|;
      (if x == 0 then [] else [param.Closed(x)])
        + ScanParts(buf, boundary, next, (if x == 0 then param else param.Closed(x)).Opened(next), true)
    else if MatchAt(buf, Closing(boundary), x) then [param.Closed(x)]
    else if inHeader && MatchAt(buf, END, x) then ScanParts(buf, boundary, x + 4, param.HeaderDone(x), false)
    else ScanParts(buf, boundary, x + 1, param, inHeader)
  }

  class FormBody {
    var params: seq<Param>

    /** The scan, in the constructor as in the source. */
    constructor (buf: Bytes, boundary: Bytes)
      ensures params == ScanParts(buf, boundary, 0, BLANK, false)
    {
      params := [];
      new;
      hide ScanParts, Opening, Closing, MatchAt;
      var opening, closing := Opening(boundary), Closing(boundary);
      var param, inHeader := BLANK, false;
      var x := 0;
      while x < |buf|
        invariant params + ScanParts(buf, boundary, x, param, inHeader) == ScanParts(buf, boundary, 0, BLANK, false)
        decreases |buf| - x
      {
        ScanPartsOnce(buf, boundary, x, param, inHeader);
        ghost var before := params;
        if MatchAt(buf, opening, x) && !MatchAt(buf, closing, x) {
          if x != 0 {
            param := param.Closed(x);
            params := params + [param];
          }
          x := x + |opening|;
          param := param.Opened(x);
          inHeader := true;
          Regroup(before, params[|before|..], ScanParts(buf, boundary, x, param, inHeader));
        } else if MatchAt(buf, closing, x) {
          params := params + [param.Closed(x)];
          return;
        } else if inHeader && MatchAt(buf, END, x) {
          param := param.HeaderDone(x);
          inHeader := false;
          x := x + 4;
        } else {
          x := x + 1;
        }
      }
      ScanPartsOnce(buf, boundary, x, param, inHeader);
      assert params + [] == params;
    }
  }

  lemma Regroup(a: seq<Param>, b: seq<Param>, c: seq<Param>)
    ensures a + (b + c) == (a + b) + c
  {
  }

  lemma ScanPartsOnce(buf: Bytes, boundary: Bytes, x: nat, param: Param, inHeader: bool)
    ensures x >= |buf| ==> ScanParts(buf, boundary, x, param, inHeader) == []
    ensures x < |buf| ==>
              ScanParts(buf, boundary, x, param, inHeader)
                == if MatchAt(buf, Opening(boundary), x) && !MatchAt(buf, Closing(boundary), x) then
                     var next := x + |Opening(boundary)|;
                     (if x == 0 then [] else [param.Closed(x)])
                       + ScanParts(buf, boundary, next, (if x == 0 then param else param.Closed(x)).Opened(next), true)
                   else if MatchAt(buf, Closing(boundary), x) then [param.Closed(x)]
                   else if inHeader && MatchAt(buf, END, x) then
                     ScanParts(buf, boundary, x + 4, param.HeaderDone(x), false)
                   else ScanParts(buf, boundary, x + 1, param, inHeader)
  {
  }

  // ---- Composition ----

  /** A body part: the blanks behind the boundary in its delimiter line, its header fields, without the line break
      that ends the last of them, and its data.  An empty `header` is a part without header fields, which section 5.1
      of RFC 2046 allows. */
  datatype Part = Part(padding: Bytes, header: Bytes, data: Bytes)

  /** What stands between a part's delimiter line and the next. */
  function Inside(p: Part): Bytes {
    (if p.header == [] then CRLF else p.header + END) + p.data + CRLF
  }

  /** A delimiter line: composers leave the padding out, receivers have to take it. */
  function Line(boundary: Bytes, padding: Bytes): Bytes {
    DASHES + boundary + padding + CRLF
  }

  function PartOctets(boundary: Bytes, p: Part): Bytes {
    Line(boundary, p.padding) + Inside(p)
  }

  /** The delimiter behind the last part; what follows it is up to the composer. */
  function Ending(boundary: Bytes): Bytes {
    DASHES + boundary + DASHES
  }

  function Compose(boundary: Bytes, parts: seq<Part>): Bytes {
    if parts == [] then Ending(boundary) else PartOctets(boundary, parts[0]) + Compose(boundary, parts[1..])
  }

  predicate Unpadded(parts: seq<Part>) {
    forall i | 0 <= i < |parts| :: parts[i].padding == []
  }

  lemma LineIsOpening(boundary: Bytes)
    ensures Line(boundary, []) == Opening(boundary)
  {
    assert DASHES + boundary + [] == DASHES + boundary;
  }

  predicate Delimiter(buf: Bytes, boundary: Bytes, x: nat) {
    MatchAt(buf, Opening(boundary), x) || MatchAt(buf, Closing(boundary), x)
  }

  /** No delimiter line starts inside a part, wherever in the body the part begins. */
  ghost predicate Placed(buf: Bytes, boundary: Bytes, at: nat, parts: seq<Part>)
    decreases |parts|
  {
    parts == [] ||
    (var next := at + |PartOctets(boundary, parts[0])|;
     && (forall x: nat | at < x < next :: !Delimiter(buf, boundary, x))
     && Placed(buf, boundary, next, parts[1..]))
  }

  /** Header fields end at their first blank line. */
  ghost predicate HeaderOk(p: Part) {
    p.header != [] ==> Find(p.header + END, END) == Some(|p.header|)
  }

  ghost predicate HeadersOk(parts: seq<Part>) {
    forall i | 0 <= i < |parts| :: HeaderOk(parts[i])
  }

  /** What the scanner's record holds when a part that begins at `at` has been passed; `prev` is what it held when
      the part before was closed, and of that it keeps what nothing replaced. */
  function BoundsOf(boundary: Bytes, at: nat, p: Part, prev: Param): Param {
    var beg := at + |Opening(boundary)|;
    var started := prev.Opened(beg);
    var blank := Find(Inside(p), END);
    (if blank.Some? then started.HeaderDone(beg + blank.value) else started).Closed(beg + |Inside(p)|)
  }

  function AllBounds(boundary: Bytes, at: nat, parts: seq<Part>, prev: Param): seq<Param>
    decreases |parts|
  {
    if parts == [] then []
    else
      var b := BoundsOf(boundary, at, parts[0], prev);
      [b] + AllBounds(boundary, at + |PartOctets(boundary, parts[0])|, parts[1..], b)
  }

  // ---- The scan over a composed body ----

  /** Octets that start neither a delimiter nor, in a header, the blank line are passed over. */
  lemma {:induction false} Skip(buf: Bytes, boundary: Bytes, x: nat, y: nat, param: Param, inHeader: bool)
    requires x <= y <= |buf|
    requires forall z: nat | x <= z < y :: !Delimiter(buf, boundary, z) && (inHeader ==> !MatchAt(buf, END, z))
    ensures ScanParts(buf, boundary, x, param, inHeader) == ScanParts(buf, boundary, y, param, inHeader)
    decreases y - x
  {
    if x < y {
      assert !Delimiter(buf, boundary, x);
      Skip(buf, boundary, x + 1, y, param, inHeader);
    }
  }

  lemma OpeningHere(buf: Bytes, boundary: Bytes, at: nat, tail: Bytes)
    requires at <= |buf| && buf[at..] == Opening(boundary) + tail
    ensures MatchAt(buf, Opening(boundary), at) && !MatchAt(buf, Closing(boundary), at)
  {
    var o, c := Opening(boundary), Closing(boundary);
    var n := 2 + |boundary|;
    assert buf[at..at + |o|] == buf[at..][..|o|];
    assert buf[at + n] == buf[at..][n] == o[n] == CR;
    if MatchAt(buf, c, at) {
      MatchIndex(buf, c, at, n);
      assert false;
    }
  }

  lemma MatchIndex(s: Bytes, p: Bytes, i: nat, n: nat)
    requires MatchAt(s, p, i) && n < |p|
    ensures s[i + n] == p[n]
  {
    assert s[i..i + |p|][n] == p[n];
  }

  lemma ClosingHere(buf: Bytes, boundary: Bytes, at: nat, tail: Bytes)
    requires at <= |buf| && buf[at..] == Ending(boundary) + tail && CRLF <= tail
    ensures MatchAt(buf, Closing(boundary), at)
  {
    assert Ending(boundary) + tail == Closing(boundary) + tail[2..];
    assert buf[at..at + |Closing(boundary)|] == buf[at..][..|Closing(boundary)|];
  }

  lemma SliceOfSlice(s: Bytes, lo: nat, hi: nat, i: nat, j: nat)
    requires i <= j && lo + j <= hi <= |s|
    ensures s[lo..hi][i..j] == s[lo + i..lo + j]
  {
    var t, u := s[lo..hi][i..j], s[lo + i..lo + j];
    forall m | 0 <= m < j - i
      ensures t[m] == u[m]
    {
      assert s[lo..hi][i + m] == s[lo + i + m];
    }
    assert |t| == |u|;
  }

  lemma DashesBehind(boundary: Bytes, parts: seq<Part>, tail: Bytes)
    ensures var t := Compose(boundary, parts) + tail; t != [] && t[0] == DASHES[0]
  {
    if parts != [] {
      assert PartOctets(boundary, parts[0])[0] == Line(boundary, parts[0].padding)[0];
    }
  }

  /** A blank line starts inside a part exactly where it starts in the part alone: none runs into the delimiter
      behind. */
  lemma BlankWithin(buf: Bytes, beg: nat, inside: Bytes, z: nat)
    requires beg + |inside| < |buf| && buf[beg..beg + |inside|] == inside
    requires buf[beg + |inside|] == DASHES[0] && beg <= z < beg + |inside|
    ensures MatchAt(buf, END, z) <==> MatchAt(inside, END, z - beg)
  {
    var next := beg + |inside|;
    if z + 4 <= next {
      SliceOfSlice(buf, beg, next, z - beg, z - beg + 4);
    } else if MatchAt(buf, END, z) {
      MatchIndex(buf, END, z, next - z);
      assert false;
    }
  }

  lemma InsideOf(buf: Bytes, boundary: Bytes, at: nat, p: Part, tail: Bytes)
    requires p.padding == []
    requires at <= |buf| && buf[at..] == PartOctets(boundary, p) + tail
    ensures var beg, next := at + |Opening(boundary)|, at + |PartOctets(boundary, p)|;
            && next == beg + |Inside(p)| && |buf| == next + |tail|
            && buf[beg..next] == Inside(p) && buf[next..] == tail
            && (tail != [] ==> buf[next] == tail[0])
  {
    hide Opening, Inside, Line;
    LineIsOpening(boundary);
    var o, n := |Opening(boundary)|, |PartOctets(boundary, p)|;
    assert buf[at..] == buf[at..|buf|];
    SliceOfSlice(buf, at, |buf|, o, n);
    SliceOfSlice(buf, at, |buf|, n, |buf| - at);
    assert (PartOctets(boundary, p) + tail)[o..n] == Inside(p);
    assert (PartOctets(boundary, p) + tail)[n..] == tail;
    if tail != [] {
      assert buf[at + n..][0] == tail[0];
    }
  }

  /** From behind a part's delimiter the scanner comes to the next one; it has found the first blank line between
      them, if there is one. */
  lemma OnePart(buf: Bytes, boundary: Bytes, at: nat, p: Part, tail: Bytes, prev: Param)
    requires p.padding == []
    requires at <= |buf| && buf[at..] == PartOctets(boundary, p) + tail
    requires tail != [] && tail[0] == DASHES[0]
    requires forall x: nat | at < x < at + |PartOctets(boundary, p)| :: !Delimiter(buf, boundary, x)
    ensures var beg := at + |Opening(boundary)|;
            var next := at + |PartOctets(boundary, p)|;
            && next < |buf| && buf[next..] == tail
            && exists done: Param, inHeader: bool ::
                 && done.Closed(next) == BoundsOf(boundary, at, p, prev)
                 && ScanParts(buf, boundary, beg, prev.Opened(beg), true)
                      == ScanParts(buf, boundary, next, done, inHeader)
  {
    hide ScanParts, Delimiter, Opening, Inside, MatchAt, Find;
    InsideOf(buf, boundary, at, p, tail);
    var beg := at + |Opening(boundary)|;
    var next := at + |PartOctets(boundary, p)|;
    var started := prev.Opened(beg);
    var inside := Inside(p);
    var blank := Find(inside, END);
    forall z: nat | beg <= z < next
      ensures MatchAt(buf, END, z) <==> MatchAt(inside, END, z - beg)
    {
      BlankWithin(buf, beg, inside, z);
    }
    assert started.Closed(next) == started.Closed(beg + |inside|);
    if blank.None? {
      Skip(buf, boundary, beg, next, started, true);
      assert started.Closed(next) == BoundsOf(boundary, at, p, prev);
    } else {
      var x := beg + blank.value;
      MatchFits(inside, END, blank.value);
      Skip(buf, boundary, beg, x, started, true);
      BlankLine(buf, boundary, x, started);
      Skip(buf, boundary, x + 4, next, started.HeaderDone(x), false);
      assert started.HeaderDone(x).Closed(next) == BoundsOf(boundary, at, p, prev);
    }
  }

  lemma MatchFits(s: Bytes, p: Bytes, i: nat)
    requires MatchAt(s, p, i)
    ensures i + |p| <= |s|
  {
  }

  lemma BlankLine(buf: Bytes, boundary: Bytes, x: nat, param: Param)
    requires MatchAt(buf, END, x) && !Delimiter(buf, boundary, x)
    ensures ScanParts(buf, boundary, x, param, true) == ScanParts(buf, boundary, x + 4, param.HeaderDone(x), false)
  {
  }

  lemma OpeningStep(buf: Bytes, boundary: Bytes, x: nat, param: Param, inHeader: bool)
    requires x < |buf| && MatchAt(buf, Opening(boundary), x) && !MatchAt(buf, Closing(boundary), x)
    ensures var next := x + |Opening(boundary)|;
            ScanParts(buf, boundary, x, param, inHeader)
              == (if x == 0 then [] else [param.Closed(x)])
                 + ScanParts(buf, boundary, next, (if x == 0 then param else param.Closed(x)).Opened(next), true)
  {
    hide MatchAt, Opening, Closing;
  }

  /** One part from a delimiter that is not the first: the scan also closes the part before. */
  lemma PartStep(buf: Bytes, boundary: Bytes, at: nat, p: Part, tail: Bytes, param: Param, inHeader: bool)
    requires p.padding == []
    requires 0 < at <= |buf| && buf[at..] == PartOctets(boundary, p) + tail
    requires tail != [] && tail[0] == DASHES[0]
    requires forall x: nat | at < x < at + |PartOctets(boundary, p)| :: !Delimiter(buf, boundary, x)
    ensures var next := at + |PartOctets(boundary, p)|;
            && next < |buf| && buf[next..] == tail
            && exists done: Param, inHeader': bool ::
                 && done.Closed(next) == BoundsOf(boundary, at, p, param.Closed(at))
                 && ScanParts(buf, boundary, at, param, inHeader)
                      == [param.Closed(at)] + ScanParts(buf, boundary, next, done, inHeader')
  {
    hide ScanParts, Opening, Closing, PartOctets, Delimiter, MatchAt, BoundsOf;
    PartOpens(buf, boundary, at, p, tail);
    OpeningStep(buf, boundary, at, param, inHeader);
    OnePart(buf, boundary, at, p, tail, param.Closed(at));
  }

  lemma PartOpens(buf: Bytes, boundary: Bytes, at: nat, p: Part, tail: Bytes)
    requires p.padding == []
    requires at <= |buf| && buf[at..] == PartOctets(boundary, p) + tail
    ensures at < |buf| && MatchAt(buf, Opening(boundary), at) && !MatchAt(buf, Closing(boundary), at)
  {
    var more := Inside(p) + tail;
    LineIsOpening(boundary);
    assert PartOctets(boundary, p) + tail == Opening(boundary) + more;
    OpeningHere(buf, boundary, at, more);
  }

  lemma EndNotOpening(buf: Bytes, boundary: Bytes, at: nat)
    requires MatchAt(buf, Closing(boundary), at)
    ensures at < |buf|
  {
  }

  /** From a delimiter that is not the first. */
  lemma {:induction false} FromDelimiter(buf: Bytes, boundary: Bytes, at: nat, parts: seq<Part>, tail: Bytes,
                                         param: Param, inHeader: bool)
    requires 0 < at <= |buf| && buf[at..] == Compose(boundary, parts) + tail
    requires Placed(buf, boundary, at, parts) && Unpadded(parts) && CRLF <= tail
    ensures ScanParts(buf, boundary, at, param, inHeader)
         == [param.Closed(at)] + AllBounds(boundary, at, parts, param.Closed(at))
    decreases |parts|
  {
    hide ScanParts, Opening, Closing, Ending, PartOctets, BoundsOf, Delimiter;
    if parts == [] {
      ScanPartsOnce(buf, boundary, at, param, inHeader);
      ClosingHere(buf, boundary, at, tail);
      EndNotOpening(buf, boundary, at);
    } else {
      var p, rest := parts[0], Compose(boundary, parts[1..]) + tail;
      var next := at + |PartOctets(boundary, p)|;
      assert buf[at..] == PartOctets(boundary, p) + rest;
      DashesBehind(boundary, parts[1..], tail);
      PartStep(buf, boundary, at, p, rest, param, inHeader);
      var done: Param, inHeader': bool :|
        && done.Closed(next) == BoundsOf(boundary, at, p, param.Closed(at))
        && ScanParts(buf, boundary, at, param, inHeader)
             == [param.Closed(at)] + ScanParts(buf, boundary, next, done, inHeader');
      FromDelimiter(buf, boundary, next, parts[1..], tail, done, inHeader');
    }
  }

  /** From the beginning of a body, where nothing precedes the first delimiter: one segment for each part. */
  lemma FromStart(boundary: Bytes, parts: seq<Part>, tail: Bytes)
    requires parts != [] && Placed(Compose(boundary, parts) + tail, boundary, 0, parts)
    requires Unpadded(parts) && CRLF <= tail
    ensures ScanParts(Compose(boundary, parts) + tail, boundary, 0, BLANK, false)
         == AllBounds(boundary, 0, parts, BLANK)
  {
    hide ScanParts, Opening, Closing, PartOctets, Delimiter, MatchAt, BoundsOf;
    var buf := Compose(boundary, parts) + tail;
    var p, rest := parts[0], Compose(boundary, parts[1..]) + tail;
    var next := |PartOctets(boundary, p)|;
    var beg := |Opening(boundary)|;
    assert buf[0..] == buf == PartOctets(boundary, p) + rest;
    DashesBehind(boundary, parts[1..], tail);
    PartOpens(buf, boundary, 0, p, rest);
    OpeningStep(buf, boundary, 0, BLANK, false);
    OnePart(buf, boundary, 0, p, rest, BLANK);
    var done: Param, inHeader: bool :|
      && done.Closed(next) == BoundsOf(boundary, 0, p, BLANK)
      && ScanParts(buf, boundary, beg, BLANK.Opened(beg), true) == ScanParts(buf, boundary, next, done, inHeader);
    PartNotEmpty(boundary, p);
    FromDelimiter(buf, boundary, next, parts[1..], tail, done, inHeader);
    assert [] + ScanParts(buf, boundary, beg, BLANK.Opened(beg), true) == AllBounds(boundary, 0, parts, BLANK);
  }

  lemma PartNotEmpty(boundary: Bytes, p: Part)
    requires p.padding == []
    ensures |PartOctets(boundary, p)| > |Opening(boundary)| >= 4
  {
    LineIsOpening(boundary);
  }

  // ---- What the bounds cut out ----

  /** A part's data as `parse_multipart_formdata` hands it out: empty when the end is before the beginning. */
  function DataLength(param: Param): int {
    if param.dataEnd >= param.dataBeg then param.dataEnd - param.dataBeg + 1 else 0
  }

  /** The record gives a part back: its header and its data, octet for octet, empty ones included. */
  ghost predicate HandsOut(buf: Bytes, param: Param, p: Part) {
    && 0 <= param.headerBeg <= param.headerEnd + 1 <= |buf|
    && buf[param.headerBeg..param.headerEnd + 1] == p.header
    && DataLength(param) == |p.data|
    && (p.data != [] ==>
          0 <= param.dataBeg <= param.dataEnd < |buf| && buf[param.dataBeg..param.dataEnd + 1] == p.data)
  }

  /** The blank line of a part with header fields is the one that ends them. */
  lemma BlankOfHeader(p: Part)
    requires p.header != [] && HeaderOk(p)
    ensures Find(Inside(p), END) == Some(|p.header|)
  {
    FindAppend(p.header + END, p.data + CRLF, END);
    assert Inside(p) == p.header + END + (p.data + CRLF);
  }

  /** A part with header fields is given back. */
  lemma HeaderPart(buf: Bytes, boundary: Bytes, at: nat, p: Part, tail: Bytes, prev: Param)
    requires p.padding == []
    requires at <= |buf| && buf[at..] == PartOctets(boundary, p) + tail && p.header != [] && HeaderOk(p)
    ensures HandsOut(buf, BoundsOf(boundary, at, p, prev), p)
  {
    hide Opening, Find;
    InsideOf(buf, boundary, at, p, tail);
    BlankOfHeader(p);
    var beg := at + |Opening(boundary)|;
    var next := beg + |Inside(p)|;
    var h, d := |p.header|, |p.header| + 4;
    SliceOfSlice(buf, beg, next, 0, h);
    SliceOfSlice(buf, beg, next, d, d + |p.data|);
    assert Inside(p)[0..h] == p.header && Inside(p)[d..d + |p.data|] == p.data;
  }

  /** A part without header fields is given back exactly when it has no data: only then is the line break in front
      of its data part of a blank line that ends an empty header, with all the data behind it. */
  lemma HeaderlessPart(buf: Bytes, boundary: Bytes, at: nat, p: Part, tail: Bytes, prev: Param)
    requires p.padding == []
    requires at <= |buf| && buf[at..] == PartOctets(boundary, p) + tail && p.header == []
    requires prev.headerEnd <= at
    ensures HandsOut(buf, BoundsOf(boundary, at, p, prev), p) <==> p.data == []
  {
    hide Opening, Find;
    InsideOf(buf, boundary, at, p, tail);
    PartNotEmpty(boundary, p);
    var blank := Find(Inside(p), END);
    if p.data == [] {
      assert Inside(p) == END;
      FindIs(END, END, 0);
    } else if blank.Some? {
      MatchFits(Inside(p), END, blank.value);
    }
  }

  /** How far the record reaches when a part has been passed. */
  lemma BoundsBehind(boundary: Bytes, at: nat, p: Part, prev: Param)
    requires prev.headerEnd <= at && p.padding == []
    ensures BoundsOf(boundary, at, p, prev).headerEnd <= at + |PartOctets(boundary, p)|
  {
    hide Opening, Find;
    LineIsOpening(boundary);
    var blank := Find(Inside(p), END);
    if blank.Some? {
      MatchFits(Inside(p), END, blank.value);
    }
  }

  lemma {:induction false} BoundsHandOut(buf: Bytes, boundary: Bytes, at: nat, parts: seq<Part>, tail: Bytes,
                                         prev: Param, i: nat)
    requires at <= |buf| && buf[at..] == Compose(boundary, parts) + tail && i < |parts|
    requires HeadersOk(parts) && Unpadded(parts) && prev.headerEnd <= at
    ensures |AllBounds(boundary, at, parts, prev)| == |parts|
    ensures HandsOut(buf, AllBounds(boundary, at, parts, prev)[i], parts[i])
       <==> parts[i].header != [] || parts[i].data == []
    decreases |parts|
  {
    hide Opening, Closing, BoundsOf, PartOctets, HandsOut, Find;
    var p, rest := parts[0], Compose(boundary, parts[1..]) + tail;
    var next := at + |PartOctets(boundary, p)|;
    assert buf[at..] == PartOctets(boundary, p) + rest;
    InsideOf(buf, boundary, at, p, rest);
    BoundsBehind(boundary, at, p, prev);
    if |parts| > 1 {
      BoundsHandOut(buf, boundary, next, parts[1..], tail, BoundsOf(boundary, at, p, prev),
                    if i == 0 then 0 else i - 1);
    }
    if i == 0 {
      if p.header != [] {
        HeaderPart(buf, boundary, at, p, rest, prev);
      } else {
        HeaderlessPart(buf, boundary, at, p, rest, prev);
      }
    }
  }

  /** The records are those of the parts, one for each, in order: each segment reaches from behind the part's
      delimiter line to the next delimiter. */
  ghost predicate Segments(params: seq<Param>, boundary: Bytes, at: nat, parts: seq<Part>)
    decreases |parts|
  {
    && |params| == |parts|
    && (parts != [] ==>
          var next := at + |PartOctets(boundary, parts[0])|;
          && params[0].segBeg == next - |Inside(parts[0])| && params[0].segEnd == next - 1
          && Segments(params[1..], boundary, next, parts[1..]))
  }

  lemma {:induction false} BoundsAreSegments(boundary: Bytes, at: nat, parts: seq<Part>, prev: Param)
    requires Unpadded(parts)
    ensures Segments(AllBounds(boundary, at, parts, prev), boundary, at, parts)
    decreases |parts|
  {
    hide Opening, Inside, Find;
    if parts != [] {
      var b := BoundsOf(boundary, at, parts[0], prev);
      LineIsOpening(boundary);
      var next := at + |PartOctets(boundary, parts[0])|;
      BoundsAreSegments(boundary, next, parts[1..], b);
      assert AllBounds(boundary, at, parts, prev)[1..] == AllBounds(boundary, next, parts[1..], b);
    }
  }

  // ---- What the scanner takes for a delimiter ----

  /** The first record of a scan that is already inside a segment: the segment ends in front of a delimiter. */
  lemma {:induction false} FirstRecord(buf: Bytes, boundary: Bytes, x: nat, param: Param, inHeader: bool)
    requires x > 0 || !MatchAt(buf, Opening(boundary), 0)
    ensures var params := ScanParts(buf, boundary, x, param, inHeader);
            params != [] ==>
              && params[0].segBeg == param.segBeg && params[0].segEnd >= x - 1
              && Delimiter(buf, boundary, params[0].segEnd + 1)
    decreases |buf| - x
  {
    hide MatchAt, Opening, Closing, ScanParts;
    ScanPartsOnce(buf, boundary, x, param, inHeader);
    if x < |buf| && !Delimiter(buf, boundary, x) {
      if inHeader && MatchAt(buf, END, x) {
        FirstRecord(buf, boundary, x + 4, param.HeaderDone(x), false);
      } else {
        FirstRecord(buf, boundary, x + 1, param, inHeader);
      }
    }
  }

  /** Blanks, as padding is. */
  predicate Blanks(s: Bytes) {
    forall i | 0 <= i < |s| :: s[i] == ' ' as int || s[i] == 9
  }

  ghost predicate PaddingsOk(parts: seq<Part>) {
    forall i | 0 <= i < |parts| :: Blanks(parts[i].padding)
  }

  /** A delimiter line is seen only without padding. */
  lemma LineSeen(buf: Bytes, boundary: Bytes, at: nat, padding: Bytes, tail: Bytes)
    requires at <= |buf| && buf[at..] == Line(boundary, padding) + tail && Blanks(padding)
    requires Delimiter(buf, boundary, at)
    ensures padding == []
  {
    var n := 2 + |boundary|;
    assert buf[at + n] == buf[at..][n] == Line(boundary, padding)[n];
    assert padding != [] ==> Line(boundary, padding)[n] == padding[0];
    if MatchAt(buf, Opening(boundary), at) {
      MatchIndex(buf, Opening(boundary), at, n);
    } else {
      MatchIndex(buf, Closing(boundary), at, n);
    }
  }

  /** The delimiter at the end is seen only with a line break right behind it. */
  lemma EndingSeen(buf: Bytes, boundary: Bytes, at: nat, tail: Bytes)
    requires at <= |buf| && buf[at..] == Ending(boundary) + tail
    requires Delimiter(buf, boundary, at)
    ensures CRLF <= tail
  {
    var n := 2 + |boundary|;
    assert buf[at + n] == buf[at..][n] == Ending(boundary)[n] == DASHES[0];
    if MatchAt(buf, Opening(boundary), at) {
      MatchIndex(buf, Opening(boundary), at, n);
      assert false;
    } else {
      var c := Closing(boundary);
      MatchIndex(buf, c, at, n + 2);
      MatchIndex(buf, c, at, n + 3);
      assert |buf| - at >= n + 4;
      assert buf[at + n + 2] == buf[at..][n + 2] == tail[0];
      assert buf[at + n + 3] == buf[at..][n + 3] == tail[1];
    }
  }

  lemma SegmentsOnce(params: seq<Param>, boundary: Bytes, at: nat, parts: seq<Part>)
    requires parts != [] && Segments(params, boundary, at, parts)
    ensures var next := at + |PartOctets(boundary, parts[0])|;
            && params != []
            && params[0].segBeg == at + |Line(boundary, parts[0].padding)| && params[0].segEnd == next - 1
            && Segments(params[1..], boundary, next, parts[1..])
  {
    hide Line, Inside;
  }

  /** From inside a part to inside the one behind it. */
  lemma NextPart(buf: Bytes, boundary: Bytes, at: nat, parts: seq<Part>, tail: Bytes, prev: Param) returns (d: Param)
    requires at <= |buf| && buf[at..] == Compose(boundary, parts) + tail && |parts| > 1
    requires Placed(buf, boundary, at, parts) && parts[0].padding == [] && parts[1].padding == []
    ensures var beg, next := at + |Opening(boundary)|, at + |PartOctets(boundary, parts[0])|;
            var behind := next + |Opening(boundary)|;
            && next <= |buf| && buf[next..] == Compose(boundary, parts[1..]) + tail
            && ScanParts(buf, boundary, beg, prev.Opened(beg), true)
                 == [d] + ScanParts(buf, boundary, behind, d.Opened(behind), true)
  {
    hide ScanParts, Opening, Closing, Ending, Line, PartOctets, BoundsOf, Delimiter, MatchAt;
    var p, q, rest := parts[0], parts[1], Compose(boundary, parts[1..]) + tail;
    var beg, next := at + |Opening(boundary)|, at + |PartOctets(boundary, p)|;
    ComposeOnce(boundary, parts, tail);
    DashesBehind(boundary, parts[1..], tail);
    OnePart(buf, boundary, at, p, rest, prev);
    var done: Param, inHeader: bool :|
      && done.Closed(next) == BoundsOf(boundary, at, p, prev)
      && ScanParts(buf, boundary, beg, prev.Opened(beg), true) == ScanParts(buf, boundary, next, done, inHeader);
    ComposeOnce(boundary, parts[1..], tail);
    PartOpens(buf, boundary, next, q, Compose(boundary, parts[1..][1..]) + tail);
    PartNotEmpty(boundary, p);
    OpeningStep(buf, boundary, next, done, inHeader);
    d := done.Closed(next);
  }

  /** A part's record is right only if a delimiter is seen behind the part. */
  lemma PartClosed(buf: Bytes, boundary: Bytes, at: nat, parts: seq<Part>, param: Param)
    requires parts != [] && |Opening(boundary)| > 0
    ensures var params := ScanParts(buf, boundary, at + |Opening(boundary)|, param, true);
            var next := at + |PartOctets(boundary, parts[0])|;
            Segments(params, boundary, at, parts) ==>
              && Delimiter(buf, boundary, next) && params != []
              && Segments(params[1..], boundary, next, parts[1..])
  {
    hide ScanParts, Opening, Line, PartOctets, Delimiter, MatchAt, Segments;
    var beg := at + |Opening(boundary)|;
    var params := ScanParts(buf, boundary, beg, param, true);
    if Segments(params, boundary, at, parts) {
      SegmentsOnce(params, boundary, at, parts);
      FirstRecord(buf, boundary, beg, param, true);
    }
  }

  /** From inside a part whose record is right: the delimiters behind it have all been seen. */
  lemma {:induction false} SegmentsSeen(buf: Bytes, boundary: Bytes, at: nat, parts: seq<Part>, tail: Bytes,
                                        prev: Param)
    requires at <= |buf| && buf[at..] == Compose(boundary, parts) + tail
    requires parts != [] && Placed(buf, boundary, at, parts) && PaddingsOk(parts) && parts[0].padding == []
    ensures var beg := at + |Opening(boundary)|;
            Segments(ScanParts(buf, boundary, beg, prev.Opened(beg), true), boundary, at, parts) ==>
              Unpadded(parts) && CRLF <= tail
    decreases |parts|
  {
    hide ScanParts, Opening, Closing, Ending, Line, PartOctets, Inside, Delimiter, MatchAt, Blanks, Segments, Compose;
    var p, rest := parts[0], Compose(boundary, parts[1..]) + tail;
    var beg, next := at + |Opening(boundary)|, at + |PartOctets(boundary, p)|;
    var params := ScanParts(buf, boundary, beg, prev.Opened(beg), true);
    ComposeOnce(boundary, parts, tail);
    InsideOf(buf, boundary, at, p, rest);
    if Segments(params, boundary, at, parts) {
      PartClosed(buf, boundary, at, parts, prev.Opened(beg));
      if |parts| == 1 {
        NothingComposed(boundary, parts[1..]);
        EndingSeen(buf, boundary, next, tail);
      } else {
        NextSeen(buf, boundary, next, parts[1..], tail);
        var d := NextPart(buf, boundary, at, parts, tail, prev);
        var behind := next + |Opening(boundary)|;
        assert params == [d] + ScanParts(buf, boundary, behind, d.Opened(behind), true);
        assert params[1..] == ScanParts(buf, boundary, behind, d.Opened(behind), true);
        SegmentsSeen(buf, boundary, next, parts[1..], tail, d);
        assert forall i | 1 <= i < |parts| :: parts[i] == parts[1..][i - 1];
      }
    }
  }

  lemma NothingComposed(boundary: Bytes, parts: seq<Part>)
    requires parts == []
    ensures Compose(boundary, parts) == Ending(boundary)
  {
  }

  lemma NextSeen(buf: Bytes, boundary: Bytes, at: nat, parts: seq<Part>, tail: Bytes)
    requires at <= |buf| && buf[at..] == Compose(boundary, parts) + tail
    requires parts != [] && PaddingsOk(parts) && Delimiter(buf, boundary, at)
    ensures parts[0].padding == []
  {
    hide Line, Delimiter, Inside;
    var p, rest := parts[0], Compose(boundary, parts[1..]) + tail;
    assert PartOctets(boundary, p) + rest == Line(boundary, p.padding) + (Inside(p) + rest);
    LineSeen(buf, boundary, at, p.padding, Inside(p) + rest);
  }

  /** The segments are right only if the body begins with a delimiter that is seen. */
  lemma OpeningSeen(buf: Bytes, boundary: Bytes, at: nat, parts: seq<Part>)
    requires parts != [] && Segments(ScanParts(buf, boundary, 0, BLANK, false), boundary, at, parts)
    ensures MatchAt(buf, Opening(boundary), 0)
  {
    hide ScanParts, Opening, MatchAt, Segments, PartOctets;
    SegmentsOnce(ScanParts(buf, boundary, 0, BLANK, false), boundary, at, parts);
    if !MatchAt(buf, Opening(boundary), 0) {
      FirstRecord(buf, boundary, 0, BLANK, false);
      assert false;
    }
  }

  lemma FirstSeen(buf: Bytes, boundary: Bytes, preamble: Bytes, parts: seq<Part>, tail: Bytes)
    requires buf == preamble + Compose(boundary, parts) + tail && parts != [] && PaddingsOk(parts)
    requires forall x: nat | x < |preamble| :: !Delimiter(buf, boundary, x)
    requires Segments(ScanParts(buf, boundary, 0, BLANK, false), boundary, |preamble|, parts)
    ensures preamble == [] && parts[0].padding == []
  {
    hide ScanParts, Opening, Closing, MatchAt, Compose, Segments, PaddingsOk;
    OpeningSeen(buf, boundary, |preamble|, parts);
    assert Delimiter(buf, boundary, 0);
    assert preamble == [];
    assert buf == buf[0..] == Compose(boundary, parts) + tail;
    NextSeen(buf, boundary, 0, parts, tail);
  }

  /** Main result: for any multipart body of section 5.1.1 of RFC 2046, that is any preamble, any parts, with header
      fields or without, and whatever follows the last delimiter, with delimiter lines only where they were placed:
      the scanner's segments are those of the parts if and only if there is no preamble, no padding, and a line break
      right behind the last delimiter.  The header and the data then handed out are the part's if and only if the
      part has header fields or no data. */
  lemma ScanUndoesCompose(boundary: Bytes, preamble: Bytes, parts: seq<Part>, tail: Bytes)
    requires parts != [] && HeadersOk(parts) && PaddingsOk(parts)
    requires var buf := preamble + Compose(boundary, parts) + tail;
             && (forall x: nat | x < |preamble| :: !Delimiter(buf, boundary, x))
             && Placed(buf, boundary, |preamble|, parts)
    ensures var buf := preamble + Compose(boundary, parts) + tail;
            var params := ScanParts(buf, boundary, 0, BLANK, false);
            && (Segments(params, boundary, |preamble|, parts)
                <==> preamble == [] && Unpadded(parts) && CRLF <= tail)
            && (Segments(params, boundary, |preamble|, parts) ==>
                  |params| == |parts| && forall i | 0 <= i < |parts| ::
                    HandsOut(buf, params[i], parts[i]) <==> parts[i].header != [] || parts[i].data == [])
  {
    hide ScanParts, Compose, Placed, HandsOut, AllBounds, HeadersOk, PaddingsOk, Segments, Unpadded, Delimiter;
    var buf := preamble + Compose(boundary, parts) + tail;
    var params := ScanParts(buf, boundary, 0, BLANK, false);
    if preamble == [] && Unpadded(parts) && CRLF <= tail {
      assert buf == Compose(boundary, parts) + tail;
      FromStart(boundary, parts, tail);
      BoundsAreSegments(boundary, 0, parts, BLANK);
      AllHandedOut(boundary, parts, tail);
    } else if Segments(params, boundary, |preamble|, parts) {
      SegmentsOnlyIf(buf, boundary, preamble, parts, tail);
    }
  }

  lemma AllHandedOut(boundary: Bytes, parts: seq<Part>, tail: Bytes)
    requires parts != [] && HeadersOk(parts) && Unpadded(parts)
    ensures var buf, params := Compose(boundary, parts) + tail, AllBounds(boundary, 0, parts, BLANK);
            && |params| == |parts|
            && forall i | 0 <= i < |parts| ::
                 HandsOut(buf, params[i], parts[i]) <==> parts[i].header != [] || parts[i].data == []
  {
    hide Compose, HandsOut, AllBounds, HeadersOk, Unpadded;
    var buf := Compose(boundary, parts) + tail;
    assert buf[0..] == buf;
    BoundsHandOut(buf, boundary, 0, parts, tail, BLANK, 0);
    forall i | 0 <= i < |parts|
      ensures HandsOut(buf, AllBounds(boundary, 0, parts, BLANK)[i], parts[i])
         <==> parts[i].header != [] || parts[i].data == []
    {
      BoundsHandOut(buf, boundary, 0, parts, tail, BLANK, i);
    }
  }

  lemma SegmentsOnlyIf(buf: Bytes, boundary: Bytes, preamble: Bytes, parts: seq<Part>, tail: Bytes)
    requires buf == preamble + Compose(boundary, parts) + tail && parts != [] && PaddingsOk(parts)
    requires forall x: nat | x < |preamble| :: !Delimiter(buf, boundary, x)
    requires Placed(buf, boundary, |preamble|, parts)
    requires Segments(ScanParts(buf, boundary, 0, BLANK, false), boundary, |preamble|, parts)
    ensures preamble == [] && Unpadded(parts) && CRLF <= tail
  {
    hide ScanParts, Compose, Placed, PaddingsOk, Segments, Unpadded, Delimiter, Opening;
    FirstSeen(buf, boundary, preamble, parts, tail);
    assert buf[0..] == buf == Compose(boundary, parts) + tail;
    FirstInside(buf, boundary, parts, tail);
    SegmentsSeen(buf, boundary, 0, parts, tail, BLANK);
  }

  lemma FirstInside(buf: Bytes, boundary: Bytes, parts: seq<Part>, tail: Bytes)
    requires buf == Compose(boundary, parts) + tail && parts != [] && parts[0].padding == []
    ensures var beg := |Opening(boundary)|;
            ScanParts(buf, boundary, 0, BLANK, false) == ScanParts(buf, boundary, beg, BLANK.Opened(beg), true)
  {
    hide ScanParts, Compose, Delimiter, MatchAt, Opening, Closing;
    var p, rest := parts[0], Compose(boundary, parts[1..]) + tail;
    var beg := |Opening(boundary)|;
    assert buf[0..] == buf;
    ComposeOnce(boundary, parts, tail);
    PartOpens(buf, boundary, 0, p, rest);
    OpeningStep(buf, boundary, 0, BLANK, false);
    assert [] + ScanParts(buf, boundary, beg, BLANK.Opened(beg), true)
        == ScanParts(buf, boundary, beg, BLANK.Opened(beg), true);
  }

  lemma ComposeOnce(boundary: Bytes, parts: seq<Part>, tail: Bytes)
    requires parts != []
    ensures Compose(boundary, parts) + tail
         == PartOctets(boundary, parts[0]) + (Compose(boundary, parts[1..]) + tail)
  {
  }
}
