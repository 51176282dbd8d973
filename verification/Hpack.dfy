/** The HPACK header block as `hpack` writes and reads it (RFC 7541), against the static table. */
module Hpack {
  import opened Octets
  import opened PrefixInteger
  import opened HeaderText

  // ---- Strings on the wire ----

  /** The Huffman code of `util/huffman`, of which only this is used: decoding undoes encoding. */
  datatype Huffman = Huffman(encode: string -> Bytes, decode: Bytes -> Option<string>) {
    ghost predicate Inverse() {
      forall s :: decode(encode(s)) == Some(s)
    }
  }

  /** A string literal as the builder writes it: always Huffman coded. */
  function StringLiteral(code: Huffman, s: string): (b: Bytes)
    ensures b != [] && b[0] >= 128
  {
    var e := code.encode(s);
    Flagged(|e|, 7, 128) + e
  }

  /** What reading a piece gives: the item and its length, a decoding error, or a read past the block. */
  datatype Piece<T> = Piece(item: T, length: nat) | Failed | OverRead {
    predicate IsFailure() {
      !Piece?
    }

    function PropagateFailure<U>(): Piece<U>
      requires IsFailure()
    {
      if Failed? then Failed else OverRead
    }

    function Extract(): (T, nat)
      requires !IsFailure()
    {
      (item, length)
    }
  }

  function ReadNumber(b: Bytes, n: Prefix): (r: Piece<nat>)
    ensures r.Piece? ==> 0 < r.length <= |b|
  {
    match Decode(b, n)
    case Value(v, length) => Piece(v, length)
    case Refused => Failed
    case _ => OverRead
  }

  /** A string literal: plain octets or Huffman coded, kept as a C string. */
  function ReadString(code: Huffman, b: Bytes): (r: Piece<string>)
    ensures r.Piece? ==> 0 < r.length <= |b|
  {
    var (n, k) :- ReadNumber(b, 7);
    if k + n > |b| then OverRead
    else
      var text := b[k..k + n];
      if b[0] >= 128 then
        match code.decode(text)
        case None => Failed
        case Some(s) => Piece(CString(s), k + n)
      else Piece(CString(seq(n, i requires 0 <= i < n => text[i] as char)), k + n)
  }

  lemma ReadStringLiteral(code: Huffman, s: string, tail: Bytes)
    requires code.Inverse() && |code.encode(s)| < TWO_32
    ensures ReadString(code, StringLiteral(code, s) + tail) == Piece(CString(s), |StringLiteral(code, s)|)
  {
    hide CString;
    var e := code.encode(s);
    var b := StringLiteral(code, s) + tail;
    var k := |Encode(|e|, 7)|;
    RoundTrip(|e|, 7, 128, e + tail);
    assert b == Flagged(|e|, 7, 128) + (e + tail);
    assert b[k..k + |e|] == e;
  }

  // ---- Header fields ----

  datatype IndexType =
    | Indexed
    | WithIndexingIndexedName | WithIndexingNewName
    | WithoutIndexingIndexedName | WithoutIndexingNewName
    | NeverIndexedIndexedName | NeverIndexedNewName

  datatype Header = Header(indexType: IndexType, index: nat, name: string, value: string)

  /** The representation and the index of a field, from its first octets. */
  function ReadTag(b: Bytes): (r: Piece<Header>)
    requires b != []
    ensures r.Piece? ==> 0 < r.length <= |b|
  {
    if b[0] >= 128 then
      var (index, k) :- ReadNumber(b, 7);
      Piece(Header(Indexed, index, [], []), k)
    else if b[0] >= 64 then
      var (index, k) :- ReadNumber(b, 6);
      Piece(Header(if b[0] % 64 > 0 then WithIndexingIndexedName else WithIndexingNewName, index, [], []), k)
    else
      var (index, k) :- ReadNumber(b, 4);
      var raw := b[0] % 16;
      if b[0] < 16 then
        // the raw four bits, not the decoded index
        Piece(Header(if raw > 0 then WithoutIndexingIndexedName else WithoutIndexingNewName, raw, [], []), k)
      else if b[0] < 32 then
        Piece(Header(if raw > 0 then NeverIndexedIndexedName else NeverIndexedNewName, index, [], []), k)
      else Failed
  }

  /** One field: its tag, then nothing, a value, or a name and a value. */
  function ReadField(code: Huffman, b: Bytes): (r: Piece<Header>)
    requires b != []
    ensures r.Piece? ==> 0 < r.length <= |b|
  {
    var (h, k) :- ReadTag(b);
    if h.indexType == Indexed then Piece(h, k)
    else
      var (first, m) :- ReadString(code, b[k..]);
      if h.index > 0 then Piece(h.(value := first), k + m)
      else
        var (second, l) :- ReadString(code, b[k + m..]);
        Piece(h.(name := first, value := second), k + m + l)
  }

  /** A whole block: all its headers, or those before the field that could not be read. */
  datatype Block = Block(headers: seq<Header>, ok: bool)

  function ReadBlock(code: Huffman, b: Bytes): Block
    decreases |b|
  {
    if b == [] then Block([], true)
    else
      match ReadField(code, b)
      case Piece(h, k) =>
        var rest := ReadBlock(code, b[k..]);
        Block([h] + rest.headers, rest.ok)
      case _ => Block([], false)
  }

  lemma ReadBlockOnce(code: Huffman, b: Bytes)
    ensures b == [] ==> ReadBlock(code, b) == Block([], true)
    ensures b != [] ==>
              var piece := ReadField(code, b);
              if piece.IsFailure() then ReadBlock(code, b) == Block([], false)
              else
                var rest := ReadBlock(code, b[piece.length..]);
                ReadBlock(code, b) == Block([piece.item] + rest.headers, rest.ok)
  {
  }

  // ---- The builder ----

  /** The static table: entry `i` has index `i + 1`. */
  type Table = seq<Field>

  /** What the search of the static table settles on. */
  datatype Choice = Full(at: nat) | NameOnly(at: nat) | NewName

  predicate NameAt(table: Table, i: nat, name: string) {
    i < |table| && SameText(table[i].name, name)
  }

  predicate FullAt(table: Table, i: nat, name: string, value: string) {
    NameAt(table, i, name) && SameText(table[i].value, value)
  }

  /** The first full match, else the last match of the name. */
  function Choose(table: Table, name: string, value: string, i: nat, sofar: Choice): (c: Choice)
    requires i <= |table|
    decreases |table| - i
  {
    if i == |table| then sofar
    else if FullAt(table, i, name, value) then Full(i)
    else Choose(table, name, value, i + 1, if NameAt(table, i, name) then NameOnly(i) else sofar)
  }

  function FieldFor(table: Table, f: Field): Choice {
    Choose(table, f.name, f.value, 0, NewName)
  }

  /** `lowercase` ends what it returns with a NUL that counts in its length. */
  function LowerWithNul(s: string): string {
    Lower(s) + "\0"
  }

  function Representation(table: Table, code: Huffman, f: Field): Bytes
    requires |table| < 63
  {
    ChoiceInTable(table, f.name, f.value, 0, NewName);
    match FieldFor(table, f)
    case Full(i) => Flagged(i + 1, 7, 128)
    case NameOnly(i) => Flagged(i + 1, 6, 64) + StringLiteral(code, f.value)
    case NewName => [16] + StringLiteral(code, LowerWithNul(f.name)) + StringLiteral(code, f.value)
  }

  lemma {:induction false} ChoiceInTable(table: Table, name: string, value: string, i: nat, sofar: Choice)
    requires i <= |table| && !sofar.Full? && (sofar.NameOnly? ==> sofar.at < i && NameAt(table, sofar.at, name))
    ensures var c := Choose(table, name, value, i, sofar);
            && (c.Full? ==> FullAt(table, c.at, name, value))
            && (c.NameOnly? ==> NameAt(table, c.at, name))
            && (c.NewName? ==> sofar.NewName? && forall j | i <= j < |table| :: !NameAt(table, j, name))
            && (!c.Full? ==> forall j | i <= j < |table| :: !FullAt(table, j, name, value))
    decreases |table| - i
  {
    if i < |table| && !FullAt(table, i, name, value) {
      ChoiceInTable(table, name, value, i + 1, if NameAt(table, i, name) then NameOnly(i) else sofar);
    }
  }

  // ---- Lines ----

  predicate IsStatusLine(line: string) {
    |line| >= 8 && Lower(line[..8]) == "http/1.1"
  }

  predicate IsDigit(c: char) {
    '0' <= c <= '9'
  }

  function SkipNonDigits(s: string): string {
    if s == [] || IsDigit(s[0]) then s else SkipNonDigits(s[1..])
  }

  function LeadingDigits(s: string): (d: string)
    ensures forall i | 0 <= i < |d| :: IsDigit(d[i])
  {
    if s == [] || !IsDigit(s[0]) then [] else [s[0]] + LeadingDigits(s[1..])
  }

  /** `sscanf(line, "http/1.1%*[^0-9]%[0-9]", code)`: at least one other character, then digits. */
  function StatusCode(line: string): string
    requires |line| >= 8
  {
    var rest := line[8..];
    if rest == [] || IsDigit(rest[0]) then [] else LeadingDigits(SkipNonDigits(rest))
  }

  /** The header field a line stands for. */
  function LineField(line: string): Field {
    if IsStatusLine(line) then Field(":status", StatusCode(line)) else Cut(line)
  }

  predicate IsSeparator(c: char) {
    c == '\n' || c == '\0'
  }

  function LineLength(text: string): (n: nat)
    ensures n <= |text|
    ensures n < |text| ==> IsSeparator(text[n])
    ensures forall i | 0 <= i < n :: !IsSeparator(text[i])
  {
    if text == [] || IsSeparator(text[0]) then 0 else 1 + LineLength(text[1..])
  }

  /** The trimmed, non-blank lines the builder handles: it gets no further than the first empty line. */
  function Lines(text: string): (ls: seq<string>)
    ensures forall i | 0 <= i < |ls| :: ls[i] != [] && NoNul(ls[i])
    decreases |text|
  {
    var n := LineLength(text);
    if n == 0 then []
    else
      var line := Trim(text[..n]);
      var rest := if n < |text| then Lines(text[n + 1..]) else [];
      if line == [] then rest else [line] + rest
  }

  function BuildLines(table: Table, code: Huffman, lines: seq<string>): Bytes
    requires |table| < 63
  {
    if lines == [] then [] else Representation(table, code, LineField(lines[0])) + BuildLines(table, code, lines[1..])
  }

  function BuildText(table: Table, code: Huffman, text: string): Bytes
    requires |table| < 63
  {
    BuildLines(table, code, Lines(text))
  }

  // ---- The object ----

  class HpackObject {
    var decoded: seq<Header>
    var field: Bytes

    constructor ()
      ensures decoded == [] && field == []
    {
      decoded, field := [], [];
    }

    /** The pass over the static table: every name match replaces the last, a full match ends it. */
    method Search(table: Table, name: string, value: string) returns (c: Choice)
      ensures c == Choose(table, name, value, 0, NewName)
    {
      c := NewName;
      var i := 0;
      while i < |table|
        invariant i <= |table|
        invariant Choose(table, name, value, i, c) == Choose(table, name, value, 0, NewName)
      {
        if SameText(table[i].name, name) {
          c := NameOnly(i);
          if SameText(table[i].value, value) {
            return Full(i);
          }
        }
        i := i + 1;
      }
    }

    /** What the builder appends for one trimmed line. */
    method BuildLine(table: Table, code: Huffman, line: string) returns (out: Bytes)
      requires |table| < 63
      ensures out == Representation(table, code, LineField(line))
    {
      hide Choose, LineField, StringLiteral, Pow2, EncodeRest;
      var f := LineField(line);
      var c := Search(table, f.name, f.value);
      ChoiceInTable(table, f.name, f.value, 0, NewName);
      match c
      case Full(i) => out := Flagged(i + 1, 7, 128);
      case NameOnly(i) => out := Flagged(i + 1, 6, 64) + StringLiteral(code, f.value);
      case NewName =>
        out := [16] + StringLiteral(code, LowerWithNul(f.name)) + StringLiteral(code, f.value);
    }

    /** `hpack::build`: one pass over the text, a line at each separator.  The start of the next line moves on
        only when the line before it was not empty. */
    method Build(table: Table, code: Huffman, text: string)
      requires |table| < 63
      modifies this
      ensures field == BuildText(table, code, text) && decoded == old(decoded)
    {
      hide BuildText, Trim, Representation, LineField;
      var out: Bytes := [];
      var start, x := 0, 0;
      assert Rest(text, 0) == text && out + BuildText(table, code, text) == BuildText(table, code, text);
      while x <= |text|
        invariant 0 <= start <= |text| + 1 && 0 <= x <= |text| + 1
        invariant decoded == old(decoded)
        invariant Pending(text, start, x)
        invariant x == |text| + 1 && start < |text| ==> IsSeparator(text[start])
        invariant BuildText(table, code, text) == out + BuildText(table, code, Rest(text, start))
        decreases |text| + 1 - x
      {
        if x == |text| || IsSeparator(text[x]) {
          if start < |text| && !IsSeparator(text[start]) {
            BuildAt(table, code, text, start, x);
            ghost var tail := BuildText(table, code, Rest(text, x + 1));
            var line := Trim(text[start..x]);
            start := x + 1;
            if line != [] {
              var bytes := BuildLine(table, code, line);
              assert out + (bytes + tail) == out + bytes + tail;
              out := out + bytes;
            }
          }
        }
        x := x + 1;
      }
      EmptyRest(table, code, text, start);
      assert out + [] == out;
      field := out;
    }

    /** `hpack::parse`: appends the block's headers to those decoded so far. */
    method Parse(code: Huffman, block: Bytes) returns (ok: bool)
      modifies this
      ensures field == block
      ensures var r := ReadBlock(code, block); decoded == old(decoded) + r.headers && ok == r.ok
    {
      hide ReadBlock, ReadField;
      field := block;
      var parsed := 0;
      assert block[0..] == block;
      ghost var done: seq<Header> := [];
      while parsed < |block|
        invariant 0 <= parsed <= |block| && field == block
        invariant decoded == old(decoded) + done
        invariant var rest := ReadBlock(code, block[parsed..]);
                  ReadBlock(code, block) == Block(done + rest.headers, rest.ok)
      {
        ReadBlockOnce(code, block[parsed..]);
        var piece := ReadField(code, block[parsed..]);
        if piece.IsFailure() {
          return false;
        }
        ghost var rest := ReadBlock(code, block[parsed..]);
        assert block[parsed..][piece.length..] == block[parsed + piece.length..];
        assert done + rest.headers == done + [piece.item] + rest.headers[1..];
        decoded := decoded + [piece.item];
        done := done + [piece.item];
        parsed := parsed + piece.length;
      }
      ReadBlockOnce(code, block[parsed..]);
      return true;
    }
  }

  function Rest(text: string, start: nat): string {
    if start <= |text| then text[start..] else []
  }

  /** Between the start of the line and the scan there is no separator, unless the line is empty. */
  ghost predicate Pending(text: string, start: nat, x: nat) {
    || (start < |text| && IsSeparator(text[start]))
    || (start <= x && forall i | start <= i < x && i < |text| :: !IsSeparator(text[i]))
  }

  lemma {:induction false} LineLengthIs(text: string, n: nat)
    requires n <= |text| && (n < |text| ==> IsSeparator(text[n]))
    requires forall i | 0 <= i < n :: !IsSeparator(text[i])
    ensures LineLength(text) == n
  {
    if n > 0 {
      LineLengthIs(text[1..], n - 1);
    }
  }

  lemma LineAt(text: string, start: nat, x: nat)
    requires start < x <= |text| && (x < |text| ==> IsSeparator(text[x]))
    requires forall i | start <= i < x :: !IsSeparator(text[i])
    ensures var line := Trim(text[start..x]);
            var rest := Lines(Rest(text, x + 1));
            Lines(text[start..]) == if line == [] then rest else [line] + rest
  {
    var t := text[start..];
    LineLengthIs(t, x - start);
    assert t[..x - start] == text[start..x];
    if x < |text| {
      assert t[x - start + 1..] == text[x + 1..];
    }
  }

  lemma BuildAt(table: Table, code: Huffman, text: string, start: nat, x: nat)
    requires |table| < 63
    requires start < x <= |text| && (x < |text| ==> IsSeparator(text[x]))
    requires forall i | start <= i < x :: !IsSeparator(text[i])
    ensures var line := Trim(text[start..x]);
            var rest := BuildText(table, code, Rest(text, x + 1));
            BuildText(table, code, Rest(text, start))
              == if line == [] then rest else Representation(table, code, LineField(line)) + rest
  {
    hide Representation, LineField, Trim, Lines;
    LineAt(text, start, x);
    var line, rest := Trim(text[start..x]), Lines(Rest(text, x + 1));
    if line != [] {
      assert ([line] + rest)[1..] == rest;
    }
  }

  lemma EmptyRest(table: Table, code: Huffman, text: string, start: nat)
    requires |table| < 63
    requires Pending(text, start, |text| + 1) && (start < |text| ==> IsSeparator(text[start]))
    ensures BuildText(table, code, Rest(text, start)) == []
  {
    var rest := Rest(text, start);
    if rest != [] {
      assert IsSeparator(rest[0]);
    }
  }
}
