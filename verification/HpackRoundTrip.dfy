/** What the builder writes, the parser reads back: whole header lists through the static table. */
module HpackRoundTrip {
  import opened Octets
  import opened PrefixInteger
  import opened HeaderText
  import opened Hpack

  /** A decoded header resolved through the static table alone. */
  function Resolve(table: Table, h: Header): Field {
    if 0 < h.index <= |table| then
      Field(table[h.index - 1].name, if h.indexType == Indexed then table[h.index - 1].value else h.value)
    else Field(h.name, h.value)
  }

  /** What the builder needs of the table: one-octet indices, names in lower case, a `:status` entry. */
  ghost predicate TableOk(table: Table) {
    && |table| < 63
    && (forall i | 0 <= i < |table| :: Lower(table[i].name) == table[i].name)
    && (exists i: nat :: NameAt(table, i, ":status"))
  }

  /** Strings whose codes have lengths of 32 bits, as all that fit in memory here do. */
  ghost predicate Encodable(code: Huffman, f: Field) {
    && NoNul(f.name) && NoNul(f.value)
    && |code.encode(LowerWithNul(f.name))| < TWO_32 && |code.encode(f.value)| < TWO_32
  }

  /** The header the parser makes of a field the builder wrote. */
  function Emitted(table: Table, f: Field): Header {
    match FieldFor(table, f)
    case Full(i) => Header(Indexed, i + 1, [], [])
    case NameOnly(i) => Header(WithIndexingIndexedName, i + 1, [], f.value)
    case NewName => Header(NeverIndexedNewName, 0, Lower(f.name), f.value)
  }

  lemma WholeIsC(s: string)
    requires NoNul(s)
    ensures CString(s) == s
  {
    CStringCut(s, []);
    assert s + [] == s;
  }

  lemma TagReads(value: nat, tail: Bytes)
    requires 0 < value < 63
    ensures ReadTag(Flagged(value, 7, 128) + tail) == Piece(Header(Indexed, value, [], []), 1)
    ensures ReadTag(Flagged(value, 6, 64) + tail) == Piece(Header(WithIndexingIndexedName, value, [], []), 1)
  {
    RoundTrip(value, 7, 128, tail);
    RoundTrip(value, 6, 64, tail);
  }

  lemma NewNameTagReads(tail: Bytes)
    ensures ReadTag([16] + tail) == Piece(Header(NeverIndexedNewName, 0, [], []), 1)
  {
    RoundTrip(0, 4, 16, tail);
    assert Flagged(0, 4, 16) == [16];
  }

  lemma NameOnlyReads(code: Huffman, value: nat, s: string, tail: Bytes)
    requires code.Inverse() && 0 < value < 63 && NoNul(s) && |code.encode(s)| < TWO_32
    ensures var b := Flagged(value, 6, 64) + StringLiteral(code, s);
            ReadField(code, b + tail) == Piece(Header(WithIndexingIndexedName, value, [], s), |b|)
  {
    hide ReadTag, ReadString, StringLiteral, Flagged;
    var tag, lit := Flagged(value, 6, 64), StringLiteral(code, s);
    TagReads(value, lit + tail);
    ReadStringLiteral(code, s, tail);
    WholeIsC(s);
    assert |tag| == 1 by {
      FlaggedShort(value);
    }
    assert tag + lit + tail == tag + (lit + tail);
    assert (tag + lit + tail)[1..] == lit + tail;
  }

  lemma FlaggedShort(value: nat)
    requires value < 63
    ensures |Flagged(value, 6, 64)| == |Flagged(value, 7, 128)| == 1
  {
  }

  lemma NewNameReads(code: Huffman, f: Field, tail: Bytes)
    requires code.Inverse() && Encodable(code, f)
    ensures var b := [16] + StringLiteral(code, LowerWithNul(f.name)) + StringLiteral(code, f.value);
            ReadField(code, b + tail) == Piece(Header(NeverIndexedNewName, 0, Lower(f.name), f.value), |b|)
  {
    hide ReadTag, ReadString, StringLiteral, CString;
    var n, v := StringLiteral(code, LowerWithNul(f.name)), StringLiteral(code, f.value);
    var b: Bytes := [16] + n + v + tail;
    NewNameTagReads(n + v + tail);
    assert b == [16] + (n + v + tail);
    assert b[1..] == n + (v + tail);
    assert b[1 + |n|..] == v + tail;
    ReadStringLiteral(code, LowerWithNul(f.name), v + tail);
    ReadStringLiteral(code, f.value, tail);
    WholeIsC(f.value);
    CStringCut(Lower(f.name), "\0");
  }

  /** One field, whatever follows it in the block. */
  lemma FieldReads(table: Table, code: Huffman, f: Field, tail: Bytes)
    requires |table| < 63 && code.Inverse() && Encodable(code, f)
    ensures var b := Representation(table, code, f);
            b != [] && ReadField(code, b + tail) == Piece(Emitted(table, f), |b|)
  {
    hide Choose, ReadTag, StringLiteral;
    ChoiceInTable(table, f.name, f.value, 0, NewName);
    match FieldFor(table, f)
    case Full(i) =>
      TagReads(i + 1, tail);
      FlaggedShort(i + 1);
    case NameOnly(i) => NameOnlyReads(code, i + 1, f.value, tail);
    case NewName => NewNameReads(code, f, tail);
  }

  /** Also, a status code fits the 15 characters the builder has room for. */
  ghost predicate AllEncodable(code: Huffman, lines: seq<string>) {
    forall i | 0 <= i < |lines| ::
      Encodable(code, LineField(lines[i])) && (IsStatusLine(lines[i]) ==> |StatusCode(lines[i])| <= 15)
  }

  function EmittedAll(table: Table, lines: seq<string>): (hs: seq<Header>)
    ensures |hs| == |lines|
    ensures forall i | 0 <= i < |lines| :: hs[i] == Emitted(table, LineField(lines[i]))
  {
    seq(|lines|, i requires 0 <= i < |lines| => Emitted(table, LineField(lines[i])))
  }

  lemma EmittedAllOnce(table: Table, lines: seq<string>)
    ensures lines == [] ==> EmittedAll(table, lines) == []
    ensures lines != [] ==>
              EmittedAll(table, lines) == [Emitted(table, LineField(lines[0]))] + EmittedAll(table, lines[1..])
  {
    hide Emitted, LineField;
  }

  /** A built block followed by anything: its headers, then those of what follows. */
  lemma {:induction false} BlockReads(table: Table, code: Huffman, lines: seq<string>, tail: Bytes)
    requires |table| < 63 && code.Inverse() && AllEncodable(code, lines)
    ensures var rest := ReadBlock(code, tail);
            ReadBlock(code, BuildLines(table, code, lines) + tail)
              == Block(EmittedAll(table, lines) + rest.headers, rest.ok)
  {
    hide ReadBlock, ReadField, Representation, Emitted, LineField, EmittedAll;
    var rest := ReadBlock(code, tail);
    EmittedAllOnce(table, lines);
    if lines == [] {
      assert BuildLines(table, code, lines) + tail == tail;
    } else {
      var f := LineField(lines[0]);
      var b, more := Representation(table, code, f), BuildLines(table, code, lines[1..]) + tail;
      FieldReads(table, code, f, more);
      BlockReads(table, code, lines[1..], tail);
      assert BuildLines(table, code, lines) + tail == b + more;
      assert (b + more)[|b|..] == more;
      ReadBlockOnce(code, b + more);
      assert EmittedAll(table, lines) + rest.headers
          == [Emitted(table, f)] + (EmittedAll(table, lines[1..]) + rest.headers);
    }
  }

  /** A header stands for a field: its name in lower case, and its value up to letter case, which changes
      only when the static table holds the whole field. */
  ghost predicate StandsFor(table: Table, h: Header, f: Field) {
    var g := Resolve(table, h);
    && g.name == Lower(f.name)
    && SameText(g.value, f.value)
    && (g.value != f.value ==> exists i: nat :: FullAt(table, i, f.name, f.value) && g == table[i])
  }

  lemma EmittedStandsFor(table: Table, f: Field)
    requires TableOk(table)
    ensures StandsFor(table, Emitted(table, f), f)
  {
    hide Choose, Lower;
    ChoiceInTable(table, f.name, f.value, 0, NewName);
    var c := FieldFor(table, f);
    if c.Full? {
      assert FullAt(table, c.at, f.name, f.value);
    }
  }

  /** Main result: for any header text, parsing what `build` made of it yields one header for each line, and
      each stands for its line's field; the status line's field is `:status` with the status code. */
  lemma BuildThenParse(table: Table, code: Huffman, text: string)
    requires TableOk(table) && code.Inverse() && AllEncodable(code, Lines(text))
    ensures var r := ReadBlock(code, BuildText(table, code, text));
            var lines := Lines(text);
            && r.ok && |r.headers| == |lines|
            && forall i | 0 <= i < |lines| :: StandsFor(table, r.headers[i], LineField(lines[i]))
  {
    hide ReadField, Representation, Emitted, LineField, Lines, StandsFor;
    var lines := Lines(text);
    BlockReads(table, code, lines, []);
    var b := BuildText(table, code, text);
    assert b + [] == b;
    assert EmittedAll(table, lines) + [] == EmittedAll(table, lines);
    forall i | 0 <= i < |lines|
      ensures StandsFor(table, EmittedAll(table, lines)[i], LineField(lines[i]))
    {
      EmittedStandsFor(table, LineField(lines[i]));
    }
  }

  /** Fragments that end at a field boundary accumulate to the headers of the whole block, as when a block
      is continued by CONTINUATION frames. */
  lemma {:induction false} FragmentsAccumulate(code: Huffman, a: Bytes, b: Bytes)
    requires ReadBlock(code, a).ok
    ensures var x, y := ReadBlock(code, a), ReadBlock(code, b);
            ReadBlock(code, a + b) == Block(x.headers + y.headers, y.ok)
    decreases |a|
  {
    hide ReadBlock, ReadField;
    ReadBlockOnce(code, a);
    if a == [] {
      assert a + b == b;
      assert [] + ReadBlock(code, b).headers == ReadBlock(code, b).headers;
    } else {
      var k := ReadField(code, a).length;
      FieldPrefix(code, a, b);
      ReadBlockOnce(code, a + b);
      FragmentsAccumulate(code, a[k..], b);
      assert (a + b)[k..] == a[k..] + b;
      var h, x, y := ReadField(code, a).item, ReadBlock(code, a[k..]).headers, ReadBlock(code, b).headers;
      assert [h] + (x + y) == [h] + x + y;
    }
  }

  lemma {:induction false} RestPrefix(a: Bytes, b: Bytes, i: nat, shift: nat, value: nat)
    requires value < TWO_32 && DecodeRest(a, i, shift, value).Value?
    ensures DecodeRest(a + b, i, shift, value) == DecodeRest(a, i, shift, value)
    decreases |a| - i
  {
    hide Pow2;
    assert (a + b)[i] == a[i];
    if a[i] >= 128 {
      RestPrefix(a, b, i + 1, shift + 7, (value + a[i] % 128 * Pow2(shift)) % TWO_32);
    }
  }

  lemma NumberPrefix(a: Bytes, b: Bytes, n: Prefix)
    requires ReadNumber(a, n).Piece?
    ensures ReadNumber(a + b, n) == ReadNumber(a, n)
  {
    hide DecodeRest, Low, Pow2;
    assert (a + b)[0] == a[0];
    if Low(a[0], n) == Mask(n) {
      RestPrefix(a, b, 1, 0, Mask(n));
    }
  }

  lemma StringPrefix(code: Huffman, a: Bytes, b: Bytes)
    requires ReadString(code, a).Piece?
    ensures ReadString(code, a + b) == ReadString(code, a)
  {
    hide ReadNumber, CString;
    NumberPrefix(a, b, 7);
    var Piece(n, k) := ReadNumber(a, 7);
    assert (a + b)[k..k + n] == a[k..k + n];
  }

  lemma TagPrefix(a: Bytes, b: Bytes)
    requires a != [] && ReadTag(a).Piece?
    ensures ReadTag(a + b) == ReadTag(a)
  {
    hide ReadNumber;
    assert (a + b)[0] == a[0];
    NumberPrefix(a, b, if a[0] >= 128 then 7 else if a[0] >= 64 then 6 else 4);
  }

  lemma FieldPrefix(code: Huffman, a: Bytes, b: Bytes)
    requires a != [] && ReadField(code, a).Piece?
    ensures ReadField(code, a + b) == ReadField(code, a)
  {
    hide ReadTag, ReadString;
    TagPrefix(a, b);
    var Piece(h, k) := ReadTag(a);
    if h.indexType != Indexed {
      StringPrefix(code, a[k..], b);
      assert (a + b)[k..] == a[k..] + b;
      var Piece(first, m) := ReadString(code, a[k..]);
      if h.index == 0 {
        StringPrefix(code, a[k + m..], b);
        assert (a + b)[k + m..] == a[k + m..] + b;
      }
    }
  }

  /** A dynamic table size update (section 6.3 of RFC 7541), wherever it comes at a field boundary, ends the parsing
      with an error behind the headers in front of it. */
  lemma SizeUpdateRefused(code: Huffman, before: Bytes, update: Octet, tail: Bytes)
    requires ReadBlock(code, before).ok && 32 <= update < 64
    ensures ReadBlock(code, before + ([update] + tail)) == Block(ReadBlock(code, before).headers, false)
  {
    hide ReadBlock, ReadNumber;
    var rest := [update] + tail;
    assert rest[0] == update;
    ReadBlockOnce(code, rest);
    FragmentsAccumulate(code, before, rest);
    assert ReadBlock(code, before).headers + [] == ReadBlock(code, before).headers;
  }

  // ---- Fragments cut anywhere ----

  /** The first `n` octets of a block are whole fields. */
  predicate FieldEndsAt(code: Huffman, block: Bytes, n: nat)
    decreases |block|
  {
    n == 0 ||
    (block != [] &&
     var piece := ReadField(code, block);
     piece.Piece? && piece.length <= n && FieldEndsAt(code, block[piece.length..], n - piece.length))
  }

  lemma {:induction false} RestCut(a: Bytes, b: Bytes, i: nat, shift: nat, value: nat)
    requires value < TWO_32 && DecodeRest(a + b, i, shift, value).Value?
    requires DecodeRest(a + b, i, shift, value).length <= |a|
    ensures DecodeRest(a, i, shift, value) == DecodeRest(a + b, i, shift, value)
    decreases |a| - i
  {
    hide Pow2;
    assert i < |a| && (a + b)[i] == a[i];
    if a[i] >= 128 {
      RestCut(a, b, i + 1, shift + 7, (value + a[i] % 128 * Pow2(shift)) % TWO_32);
    }
  }

  lemma NumberCut(a: Bytes, b: Bytes, n: Prefix)
    requires ReadNumber(a + b, n).Piece? && ReadNumber(a + b, n).length <= |a|
    ensures ReadNumber(a, n) == ReadNumber(a + b, n)
  {
    hide DecodeRest, Low, Pow2;
    assert (a + b)[0] == a[0];
    if Low(a[0], n) == Mask(n) {
      RestCut(a, b, 1, 0, Mask(n));
    }
  }

  lemma StringCut(code: Huffman, a: Bytes, b: Bytes)
    requires ReadString(code, a + b).Piece? && ReadString(code, a + b).length <= |a|
    ensures ReadString(code, a) == ReadString(code, a + b)
  {
    hide ReadNumber, CString;
    NumberCut(a, b, 7);
    var Piece(n, k) := ReadNumber(a, 7);
    assert (a + b)[k..k + n] == a[k..k + n];
  }

  lemma TagCut(a: Bytes, b: Bytes)
    requires a != [] && ReadTag(a + b).Piece? && ReadTag(a + b).length <= |a|
    ensures ReadTag(a) == ReadTag(a + b)
  {
    hide ReadNumber;
    assert (a + b)[0] == a[0];
    NumberCut(a, b, if a[0] >= 128 then 7 else if a[0] >= 64 then 6 else 4);
  }

  lemma FieldCut(code: Huffman, a: Bytes, b: Bytes)
    requires a != [] && ReadField(code, a + b).Piece? && ReadField(code, a + b).length <= |a|
    ensures ReadField(code, a) == ReadField(code, a + b)
  {
    hide ReadTag, ReadString;
    TagCut(a, b);
    var Piece(h, k) := ReadTag(a);
    if h.indexType != Indexed {
      assert (a + b)[k..] == a[k..] + b;
      StringCut(code, a[k..], b);
      var Piece(first, m) := ReadString(code, a[k..]);
      if h.index == 0 {
        assert (a + b)[k + m..] == a[k + m..] + b;
        StringCut(code, a[k + m..], b);
      }
    }
  }

  /** Section 4.3 of RFC 7540 lets a block be cut anywhere; the code parses each fragment by itself.  A fragment is
      read to its end exactly when it is cut behind a whole field, whatever comes in the next. */
  lemma {:induction false} FragmentRead(code: Huffman, a: Bytes, b: Bytes)
    ensures ReadBlock(code, a).ok <==> FieldEndsAt(code, a + b, |a|)
    decreases |a|
  {
    hide ReadBlock, ReadField;
    ReadBlockOnce(code, a);
    if a != [] {
      var piece := ReadField(code, a + b);
      if ReadField(code, a).Piece? {
        FieldPrefix(code, a, b);
      } else if piece.Piece? && piece.length <= |a| {
        FieldCut(code, a, b);
      }
      if ReadField(code, a).Piece? {
        assert (a + b)[piece.length..] == a[piece.length..] + b;
        FragmentRead(code, a[piece.length..], b);
      }
    }
  }

  /** So two fragments accumulate to a block that can be read if and only if the cut is behind a whole field. */
  lemma AccumulatesExactly(code: Huffman, a: Bytes, b: Bytes)
    requires ReadBlock(code, a + b).ok
    ensures var x, y := ReadBlock(code, a), ReadBlock(code, b);
            (x.ok && y.ok && x.headers + y.headers == ReadBlock(code, a + b).headers)
              <==> FieldEndsAt(code, a + b, |a|)
  {
    hide ReadBlock, FieldEndsAt;
    FragmentRead(code, a, b);
    if ReadBlock(code, a).ok {
      FragmentsAccumulate(code, a, b);
    }
  }
}
