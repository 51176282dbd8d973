/** What a peer makes of a built header block: a decoder that keeps every octet of a string literal and resolves
    indices as RFC 7541 says, beside the server's own parser, which keeps C strings. */
module HpackPeer {
  import opened Octets
  import opened PrefixInteger
  import opened HeaderText
  import opened Hpack
  import opened HpackRoundTrip
  import opened HeaderTable
  import opened HeaderDecode

  // ---- Section 6 of RFC 7541: from octets to representations ----

  /** Section 5.2: a string literal, with all its octets. */
  function PeerReadString(code: Huffman, b: Bytes): (r: Piece<string>)
    ensures r.Piece? ==> 0 < r.length <= |b|
  {
    var (n, k) :- ReadNumber(b, 7);
    if k + n > |b| then OverRead
    else
      var text := b[k..k + n];
      if b[0] >= 128 then
        match code.decode(text)
        case None => Failed
        case Some(s) => Piece(s, k + n)
      else Piece(seq(n, i requires 0 <= i < n => text[i] as char), k + n)
  }

  /** One representation; a size update is none. */
  function PeerReadRep(code: Huffman, b: Bytes): (r: Piece<Rep>)
    requires b != []
    ensures r.Piece? ==> 0 < r.length <= |b|
  {
    if b[0] >= 128 then
      var (index, k) :- ReadNumber(b, 7);
      Piece(Entry(index), k)
    else if 32 <= b[0] < 64 then Failed
    else
      var (index, k) :- ReadNumber(b, if b[0] >= 64 then 6 else 4);
      var mode := if b[0] >= 64 then Incremental else if b[0] >= 16 then Never else Without;
      var (first, m) :- PeerReadString(code, b[k..]);
      if index > 0 then Piece(Literal(mode, index, [], first), k + m)
      else
        var (second, l) :- PeerReadString(code, b[k + m..]);
        Piece(Literal(mode, 0, first, second), k + m + l)
  }

  function PeerReadBlock(code: Huffman, b: Bytes): Option<seq<Rep>>
    decreases |b|
  {
    if b == [] then Some([])
    else
      match PeerReadRep(code, b)
      case Piece(rep, k) =>
        var rest := PeerReadBlock(code, b[k..]);
        if rest.None? then None else Some([rep] + rest.value)
      case _ => None
  }

  /** The fields a block means to a peer whose dynamic table is `t`. */
  function PeerFields(static_: Table, t: seq<Field>, code: Huffman, b: Bytes): Option<seq<Field>> {
    var reps := PeerReadBlock(code, b);
    if reps.None? then None
    else
      var r := PeerDecode(static_, t, reps.value);
      if r.None? then None else Some(r.value.0)
  }

  // ---- The two parsers ----

  /** A representation with its strings as the server keeps them. */
  function AsC(rep: Rep): Rep {
    match rep
    case Entry(_) => rep
    case Literal(mode, index, name, value) => Literal(mode, index, CString(name), CString(value))
  }

  lemma StringsAgree(code: Huffman, b: Bytes)
    ensures var p, q := PeerReadString(code, b), ReadString(code, b);
            && (p.Piece? <==> q.Piece?)
            && (p.Piece? ==> q == Piece(CString(p.item), p.length))
  {
    hide CString, ReadNumber;
  }

  /** An index that its prefix has no room for is not below what the prefix holds, as it would be had it passed 2^32. */
  predicate Unwrapped(b: Bytes, n: Prefix)
    requires b != []
  {
    var number := ReadNumber(b, n);
    number.Piece? && b[0] as int % Pow2(n) == Pow2(n) - 1 ==> number.item >= Pow2(n) - 1
  }

  lemma {:induction false} IndexBits(b: Bytes, n: Prefix)
    requires b != [] && ReadNumber(b, n).Piece? && Unwrapped(b, n)
    ensures Min(ReadNumber(b, n).item, Pow2(n) - 1) == b[0] as int % Pow2(n)
  {
    hide DecodeRest;
  }

  lemma PowersAre()
    ensures Pow2(4) == 16 && Pow2(6) == 64
  {
    assert Pow2(4) == 2 * Pow2(3) && Pow2(3) == 2 * Pow2(2) && Pow2(2) == 2 * Pow2(1) && Pow2(1) == 2 * Pow2(0);
    assert Pow2(6) == 2 * Pow2(5) && Pow2(5) == 2 * Pow2(4);
  }

  /** Main result on any octets, unless an index passes 2^32: the server's parser reads a field exactly when RFC 7541
      has one there, as long, and keeps its representation, strings cut at a NUL and a name index without indexing cut
      to four bits. */
  lemma ParsersAgree(code: Huffman, b: Bytes)
    requires b != [] && Unwrapped(b, if b[0] >= 64 then 6 else 4)
    ensures var p, q := PeerReadRep(code, b), ReadField(code, b);
            && (p.Piece? <==> q.Piece?)
            && (p.Piece? ==> q == Piece(Kept(AsC(p.item)), p.length))
  {
    hide CString, ReadNumber, PeerReadString, ReadString, Pow2;
    if b[0] < 128 && !(32 <= b[0] < 64) {
      var n := if b[0] >= 64 then 6 else 4;
      if ReadNumber(b, n).Piece? {
        IndexBits(b, n);
        PowersAre();
        var (index, k) := ReadNumber(b, n).Extract();
        StringsAgree(code, b[k..]);
        if PeerReadString(code, b[k..]).Piece? {
          StringsAgree(code, b[k + PeerReadString(code, b[k..]).length..]);
        }
      }
    }
  }

  // ---- What the builder writes ----

  function RepFor(table: Table, f: Field): Rep {
    match FieldFor(table, f)
    case Full(i) => Entry(i + 1)
    case NameOnly(i) => Literal(Incremental, i + 1, [], f.value)
    case NewName => Literal(Never, 0, LowerWithNul(f.name), f.value)
  }

  function RepsFor(table: Table, lines: seq<string>): seq<Rep> {
    if lines == [] then [] else [RepFor(table, LineField(lines[0]))] + RepsFor(table, lines[1..])
  }

  lemma PeerReadsLiteral(code: Huffman, s: string, tail: Bytes)
    requires code.Inverse() && |code.encode(s)| < TWO_32
    ensures PeerReadString(code, StringLiteral(code, s) + tail) == Piece(s, |StringLiteral(code, s)|)
  {
    var e := code.encode(s);
    var b := StringLiteral(code, s) + tail;
    var k := |Encode(|e|, 7)|;
    RoundTrip(|e|, 7, 128, e + tail);
    assert b == Flagged(|e|, 7, 128) + (e + tail);
    assert b[k..k + |e|] == e;
  }

  lemma TagNumber(value: nat, tail: Bytes)
    requires 0 < value < 63
    ensures |Flagged(value, 6, 64)| == |Flagged(value, 7, 128)| == 1
    ensures 64 <= Flagged(value, 6, 64)[0] < 128 <= Flagged(value, 7, 128)[0]
    ensures ReadNumber(Flagged(value, 7, 128) + tail, 7) == Piece(value, 1)
    ensures ReadNumber(Flagged(value, 6, 64) + tail, 6) == Piece(value, 1)
  {
    RoundTrip(value, 7, 128, tail);
    RoundTrip(value, 6, 64, tail);
  }

  lemma NewNameTag(tail: Bytes)
    ensures ReadNumber([16] + tail, 4) == Piece(0, 1)
  {
    RoundTrip(0, 4, 16, tail);
    assert Flagged(0, 4, 16) == [16];
  }

  lemma NameOnlyRep(code: Huffman, value: nat, s: string, tail: Bytes)
    requires code.Inverse() && 0 < value < 63 && |code.encode(s)| < TWO_32
    ensures var b := Flagged(value, 6, 64) + StringLiteral(code, s);
            PeerReadRep(code, b + tail) == Piece(Literal(Incremental, value, [], s), |b|)
  {
    hide ReadNumber, PeerReadString, StringLiteral, Flagged;
    var tag, lit := Flagged(value, 6, 64), StringLiteral(code, s);
    TagNumber(value, lit + tail);
    PeerReadsLiteral(code, s, tail);
    assert tag + lit + tail == tag + (lit + tail);
    assert (tag + lit + tail)[1..] == lit + tail;
  }

  lemma NewNameRep(code: Huffman, name: string, value: string, tail: Bytes)
    requires code.Inverse() && |code.encode(name)| < TWO_32 && |code.encode(value)| < TWO_32
    ensures var b := [16] + StringLiteral(code, name) + StringLiteral(code, value);
            PeerReadRep(code, b + tail) == Piece(Literal(Never, 0, name, value), |b|)
  {
    hide ReadNumber, PeerReadString, StringLiteral;
    var n, v := StringLiteral(code, name), StringLiteral(code, value);
    var b: Bytes := [16] + n + v + tail;
    NewNameTag(n + v + tail);
    assert b == [16] + (n + v + tail);
    assert b[1..] == n + (v + tail);
    assert b[1 + |n|..] == v + tail;
    PeerReadsLiteral(code, name, v + tail);
    PeerReadsLiteral(code, value, tail);
  }

  lemma RepReads(table: Table, code: Huffman, f: Field, tail: Bytes)
    requires |table| < 63 && code.Inverse() && Encodable(code, f)
    ensures var b := Representation(table, code, f);
            b != [] && PeerReadRep(code, b + tail) == Piece(RepFor(table, f), |b|)
  {
    hide Choose, ReadNumber, StringLiteral;
    ChoiceInTable(table, f.name, f.value, 0, NewName);
    match FieldFor(table, f)
    case Full(i) => TagNumber(i + 1, tail);
    case NameOnly(i) => NameOnlyRep(code, i + 1, f.value, tail);
    case NewName => NewNameRep(code, LowerWithNul(f.name), f.value, tail);
  }

  lemma PeerReadBlockOnce(code: Huffman, b: Bytes)
    requires b != []
    ensures var piece := PeerReadRep(code, b);
            PeerReadBlock(code, b)
              == if piece.IsFailure() then None
                 else
                   var rest := PeerReadBlock(code, b[piece.length..]);
                   if rest.None? then None else Some([piece.item] + rest.value)
  {
  }

  lemma {:induction false} RepsRead(table: Table, code: Huffman, lines: seq<string>)
    requires |table| < 63 && code.Inverse() && AllEncodable(code, lines)
    ensures PeerReadBlock(code, BuildLines(table, code, lines)) == Some(RepsFor(table, lines))
  {
    hide PeerReadBlock, PeerReadRep, Representation, RepFor, LineField;
    if lines == [] {
      EmptyBlock(code);
    } else {
      var f := LineField(lines[0]);
      var b, more := Representation(table, code, f), BuildLines(table, code, lines[1..]);
      RepReads(table, code, f, more);
      RepsRead(table, code, lines[1..]);
      assert (b + more)[|b|..] == more;
      PeerReadBlockOnce(code, b + more);
    }
  }

  lemma EmptyBlock(code: Huffman)
    ensures PeerReadBlock(code, []) == Some([])
  {
  }

  // ---- What it means ----

  /** The field a peer resolves; the dynamic table plays no part, as only static entries are named. */
  function PeerField(table: Table, f: Field): Field {
    ChoiceInTable(table, f.name, f.value, 0, NewName);
    match FieldFor(table, f)
    case Full(i) => table[i]
    case NameOnly(i) => Field(table[i].name, f.value)
    case NewName => Field(LowerWithNul(f.name), f.value)
  }

  lemma {:induction false} RepsMean(table: Table, t: seq<Field>, lines: seq<string>)
    ensures var r := PeerDecode(table, t, RepsFor(table, lines));
            && r.Some? && |r.value.0| == |lines|
            && forall i | 0 <= i < |lines| :: r.value.0[i] == PeerField(table, LineField(lines[i]))
    decreases |lines|
  {
    hide Choose, LineField, Added;
    if lines != [] {
      var f, rep := LineField(lines[0]), RepFor(table, LineField(lines[0]));
      ChoiceInTable(table, f.name, f.value, 0, NewName);
      var g := Meaning(table, t, rep);
      assert g == Some(PeerField(table, f));
      RepsMean(table, PeerNext(t, rep, g.value), lines[1..]);
      assert RepsFor(table, lines)[1..] == RepsFor(table, lines[1..]);
    }
  }

  /** A field as a line means it, up to the letter case of its value. */
  predicate Meant(g: Field, f: Field) {
    g.name == Lower(f.name) && SameText(g.value, f.value)
  }

  /** The name has an entry in the static table. */
  ghost predicate Known(table: Table, name: string) {
    exists j: nat :: NameAt(table, j, name)
  }

  lemma MeantIfKnown(table: Table, f: Field)
    requires TableOk(table)
    ensures Meant(PeerField(table, f), f) <==> Known(table, f.name)
  {
    hide Choose, Lower;
    ChoiceInTable(table, f.name, f.value, 0, NewName);
    var c := FieldFor(table, f);
    if c.NewName? {
      LowerWithNulDiffers(f.name);
    } else {
      assert NameAt(table, c.at, f.name);
    }
  }

  lemma LowerWithNulDiffers(s: string)
    ensures LowerWithNul(s) != Lower(s)
  {
    assert |LowerWithNul(s)| == |Lower(s)| + 1;
  }

  /** Main result: for any header text and whatever the peer's dynamic table holds, a peer decodes what `build`
      made of the text to one field for each line; and these are the fields the lines mean if and only if every
      line's name is in the static table.  A name that is not goes out with a NUL behind it. */
  lemma BuildThenPeerDecodes(table: Table, code: Huffman, t: seq<Field>, text: string)
    requires TableOk(table) && code.Inverse() && AllEncodable(code, Lines(text))
    ensures var fs := PeerFields(table, t, code, BuildText(table, code, text));
            var lines := Lines(text);
            && fs.Some? && |fs.value| == |lines|
            && ((forall i | 0 <= i < |lines| :: Meant(fs.value[i], LineField(lines[i])))
                <==> (forall i | 0 <= i < |lines| :: Known(table, LineField(lines[i]).name)))
            && (forall i | 0 <= i < |lines| && !Known(table, LineField(lines[i]).name) ::
                  fs.value[i].name == Lower(LineField(lines[i]).name) + "\0")
  {
    hide PeerReadBlock, PeerDecode, RepsFor, BuildLines, LineField, Lines, PeerField, Known, Meant, Lower;
    var lines := Lines(text);
    RepsRead(table, code, lines);
    RepsMean(table, t, lines);
    forall i | 0 <= i < |lines|
      ensures Meant(PeerField(table, LineField(lines[i])), LineField(lines[i]))
         <==> Known(table, LineField(lines[i]).name)
      ensures !Known(table, LineField(lines[i]).name) ==>
                PeerField(table, LineField(lines[i])).name == Lower(LineField(lines[i]).name) + "\0"
    {
      MeantIfKnown(table, LineField(lines[i]));
      UnknownName(table, LineField(lines[i]));
    }
  }

  lemma UnknownName(table: Table, f: Field)
    ensures !Known(table, f.name) ==> PeerField(table, f).name == Lower(f.name) + "\0"
  {
    hide Choose, Lower;
    ChoiceInTable(table, f.name, f.value, 0, NewName);
  }

  /** Which representation a field gets, said of the table alone: an index when the table has the field up to letter
      case, else the index of its name when it has the name, else both as strings. */
  lemma ChosenExactly(table: Table, f: Field)
    requires TableOk(table)
    ensures var c := FieldFor(table, f);
            && (c.Full? <==> exists i: nat :: i < |table| && table[i].name == Lower(f.name)
                                               && Lower(table[i].value) == Lower(f.value))
            && (c.NewName? <==> forall i: nat | i < |table| :: table[i].name != Lower(f.name))
            && (c.NewName? <==> !Known(table, f.name))
            && (!c.NewName? ==> c.at < |table| && table[c.at].name == Lower(f.name))
            && (c.Full? ==> Lower(table[c.at].value) == Lower(f.value))
  {
    hide Choose, Lower;
    ChoiceInTable(table, f.name, f.value, 0, NewName);
    var c := FieldFor(table, f);
    forall i: nat | i < |table|
      ensures NameAt(table, i, f.name) <==> table[i].name == Lower(f.name)
      ensures FullAt(table, i, f.name, f.value)
         <==> table[i].name == Lower(f.name) && Lower(table[i].value) == Lower(f.value)
    {
      assert Lower(table[i].name) == table[i].name;
    }
    assert c.Full? ==> FullAt(table, c.at, f.name, f.value);
    assert c.NameOnly? ==> NameAt(table, c.at, f.name);
    assert Known(table, f.name) <==> !c.NewName?;
  }

  // ---- The lines the builder takes ----

  /** All non-blank lines, trimmed. */
  function AllLines(text: string): seq<string>
    decreases |text|
  {
    var n := LineLength(text);
    var line := Trim(text[..n]);
    var rest := if n < |text| then AllLines(text[n + 1..]) else [];
    if line == [] then rest else [line] + rest
  }

  /** The text behind the first empty line. */
  function BehindEmpty(text: string): string
    decreases |text|
  {
    var n := LineLength(text);
    if n == |text| then [] else if n == 0 then text[1..] else BehindEmpty(text[n + 1..])
  }

  function Front(line: string): seq<string> {
    if line == [] then [] else [line]
  }

  lemma AllLinesOnce(text: string)
    ensures var n := LineLength(text);
            AllLines(text) == Front(Trim(text[..n])) + if n < |text| then AllLines(text[n + 1..]) else []
  {
    hide Trim, LineLength;
    var n := LineLength(text);
    var rest := if n < |text| then AllLines(text[n + 1..]) else [];
    assert [] + rest == rest;
  }

  lemma LinesOnce(text: string)
    requires LineLength(text) > 0
    ensures var n := LineLength(text);
            Lines(text) == Front(Trim(text[..n])) + if n < |text| then Lines(text[n + 1..]) else []
  {
    hide Trim, LineLength;
    var n := LineLength(text);
    var rest := if n < |text| then Lines(text[n + 1..]) else [];
    assert [] + rest == rest;
  }

  lemma NoLines(text: string)
    requires LineLength(text) == 0
    ensures Lines(text) == [] && Front(Trim(text[..0])) == []
  {
    assert text[..0] == [];
    TrimNothing();
  }

  lemma Reassoc(a: seq<string>, b: seq<string>, c: seq<string>)
    ensures a + (b + c) == a + b + c && a + [] == a && [] + a == a
  {
  }

  lemma {:induction false} LinesSplit(text: string)
    ensures AllLines(text) == Lines(text) + AllLines(BehindEmpty(text))
    decreases |text|
  {
    hide Trim, LineLength, Lines, AllLines, Front;
    var n := LineLength(text);
    var front := Front(Trim(text[..n]));
    AllLinesOnce(text);
    if n == 0 {
      NoLines(text);
      var rest := AllLines(BehindEmpty(text));
      Reassoc(rest, [], []);
      if text == [] {
        assert BehindEmpty(text) == text;
      }
    } else {
      LinesOnce(text);
      if n == |text| {
        EmptyText();
        Reassoc(front, [], []);
      } else {
        var rest := text[n + 1..];
        LinesSplit(rest);
        Reassoc(front, Lines(rest), AllLines(BehindEmpty(rest)));
      }
    }
  }

  lemma EmptyText()
    ensures AllLines([]) == []
  {
    TrimNothing();
  }

  lemma TrimNothing()
    ensures Trim([]) == []
  {
  }

  predicate AllBlank(s: string) {
    forall i | 0 <= i < |s| :: IsBlank(s[i])
  }

  lemma {:induction false} TrimLeftBlank(s: string)
    ensures TrimLeft(s) == [] <==> AllBlank(s)
  {
    if s != [] && IsBlank(s[0]) {
      TrimLeftBlank(s[1..]);
      assert forall i | 0 < i < |s| :: s[i] == s[1..][i - 1];
    }
  }

  lemma {:induction false} TrimRightKeeps(s: string)
    requires s != [] && !IsBlank(s[0])
    ensures TrimRight(s) != []
  {
    if IsBlank(s[|s| - 1]) {
      TrimRightKeeps(s[..|s| - 1]);
    }
  }

  lemma TrimBlank(s: string)
    ensures Trim(s) == [] <==> AllBlank(s)
  {
    TrimLeftBlank(s);
    var t := TrimLeft(s);
    if t != [] {
      TrimRightKeeps(t);
    }
  }

  /** Nothing but blanks, line breaks and NULs. */
  predicate Void(s: string) {
    forall i | 0 <= i < |s| :: IsBlank(s[i]) || s[i] == '\0'
  }

  lemma {:induction false} NoLinesIfVoid(text: string)
    ensures AllLines(text) == [] <==> Void(text)
    decreases |text|
  {
    hide Trim, LineLength;
    var n := LineLength(text);
    TrimBlank(text[..n]);
    assert forall i | 0 <= i < n :: text[i] == text[..n][i];
    if n < |text| {
      NoLinesIfVoid(text[n + 1..]);
      assert forall i | n < i < |text| :: text[i] == text[n + 1..][i - n - 1];
    }
  }

  /** The builder takes all lines if and only if nothing but blanks stands behind the first empty line. */
  lemma BuildTakesAll(text: string)
    ensures Lines(text) == AllLines(text) <==> Void(BehindEmpty(text))
  {
    hide Lines, AllLines, BehindEmpty;
    LinesSplit(text);
    NoLinesIfVoid(BehindEmpty(text));
  }
}
