/** Header blocks from a peer's encoder, from octets to header fields: what the server decodes over a whole
    connection against what RFC 7541 says the blocks mean. */
module HeaderDecode {
  import opened Octets
  import opened PrefixInteger
  import opened HeaderText
  import opened Hpack
  import opened HpackRoundTrip
  import opened HeaderTable

  // ---- Section 6 of RFC 7541: representations and their meaning ----

  datatype Mode = Incremental | Without | Never

  /** `index` names a table entry; index 0 of a literal means that the name is spelled out. */
  datatype Rep = Entry(index: nat) | Literal(mode: Mode, index: nat, name: string, value: string)

  /** Section 2.3.3: one index space, static entries first. */
  function Lookup(static_: Table, t: seq<Field>, index: nat): Option<Field> {
    if index == 0 then None
    else if index <= |static_| then Some(static_[index - 1])
    else if index <= |static_| + |t| then Some(t[index - 1 - |static_|])
    else None
  }

  /** The field a representation stands for, or `None` when its index is a decoding error. */
  function Meaning(static_: Table, t: seq<Field>, rep: Rep): Option<Field> {
    match rep
    case Entry(index) => Lookup(static_, t, index)
    case Literal(_, index, name, value) =>
      if index == 0 then Some(Field(name, value))
      else
        match Lookup(static_, t, index)
        case None => None
        case Some(f) => Some(Field(f.name, value))
  }

  function PeerNext(t: seq<Field>, rep: Rep, f: Field): seq<Field> {
    if rep.Literal? && rep.mode.Incremental? then Added(t, f) else t
  }

  /** A list of representations: the fields it means and the encoder's table afterwards. */
  function PeerDecode(static_: Table, t: seq<Field>, reps: seq<Rep>): Option<(seq<Field>, seq<Field>)>
    decreases |reps|
  {
    if reps == [] then Some(([], t))
    else
      match Meaning(static_, t, reps[0])
      case None => None
      case Some(f) =>
        match PeerDecode(static_, PeerNext(t, reps[0], f), reps[1..])
        case None => None
        case Some((fs, end)) => Some(([f] + fs, end))
  }

  /** Every entry has its index, the static ones from 1 on and the dynamic ones, newest first, behind them; no other
      index has an entry. */
  lemma EntriesIndexed(static_: Table, t: seq<Field>)
    ensures forall i: nat | i < |static_| :: Lookup(static_, t, i + 1) == Some(static_[i])
    ensures forall i: nat | i < |t| :: Lookup(static_, t, |static_| + 1 + i) == Some(t[i])
    ensures forall index: nat :: Lookup(static_, t, index).Some? <==> 0 < index <= |static_| + |t|
  {
  }

  /** A field sent with incremental indexing can be sent by index from then on, if the table has room for it at all. */
  lemma SentAgainByIndex(static_: Table, t: seq<Field>, name: string, value: string)
    requires |static_| == 61 && |name| + |value| + 32 <= 4096
    ensures var r := PeerDecode(static_, t, [Literal(Incremental, 0, name, value), Entry(62)]);
            r.Some? && r.value.0 == [Field(name, value), Field(name, value)]
  {
    var f := Field(name, value);
    var first, second := Literal(Incremental, 0, name, value), Entry(62);
    var reps := [first, second];
    assert reps[1..] == [second] && [second][1..] == [];
    var t' := Added(t, f);
    NewestFirst(t, f);
    assert Meaning(static_, t', second) == Some(f);
    assert PeerDecode(static_, t', []) == Some(([], t'));
    assert PeerDecode(static_, t', [second]) == Some(([f] + [], t'));
  }

  lemma NewestFirst(t: seq<Field>, f: Field)
    requires |f.name| + |f.value| + 32 <= 4096
    ensures Added(t, f) != [] && Added(t, f)[0] == f
  {
  }

  // ---- The server ----

  /** A decoded header resolved through both tables; an index found in neither leaves the name empty. */
  function ResolveWith(static_: Table, entries: seq<Field>, h: Header): Field {
    match Lookup(static_, entries, h.index)
    case None => Field(h.name, h.value)
    case Some(f) => Field(f.name, if h.indexType == Indexed then f.value else h.value)
  }

  predicate Indexes(h: Header) {
    h.indexType == WithIndexingIndexedName || h.indexType == WithIndexingNewName
  }

  function ServerNext(entries: seq<Field>, h: Header, f: Field): seq<Field> {
    if Indexes(h) then Inserted(entries, f) else entries
  }

  function ServerDecode(static_: Table, entries: seq<Field>, headers: seq<Header>): (seq<Field>, seq<Field>)
    decreases |headers|
  {
    if headers == [] then ([], entries)
    else
      var f := ResolveWith(static_, entries, headers[0]);
      var (fs, end) := ServerDecode(static_, ServerNext(entries, headers[0], f), headers[1..]);
      ([f] + fs, end)
  }

  lemma ServerDecodeOnce(static_: Table, entries: seq<Field>, headers: seq<Header>)
    ensures headers == [] ==> ServerDecode(static_, entries, headers) == ([], entries)
    ensures headers != [] ==>
              var f := ResolveWith(static_, entries, headers[0]);
              var rest := ServerDecode(static_, ServerNext(entries, headers[0], f), headers[1..]);
              ServerDecode(static_, entries, headers) == ([f] + rest.0, rest.1)
  {
  }

  /** A field sent with incremental indexing is found at index 62 next, when it has a name. */
  lemma InsertedFoundAgain(static_: Table, entries: seq<Field>, name: string, value: string)
    requires |static_| == 61 && name != []
    ensures ServerDecode(static_, entries, [Header(WithIndexingNewName, 0, name, value), Header(Indexed, 62, [], [])]).0
         == [Field(name, value), Field(name, value)]
  {
    var f := Field(name, value);
    var first, second := Header(WithIndexingNewName, 0, name, value), Header(Indexed, 62, [], []);
    var hs := [first, second];
    assert hs[1..] == [second] && [second][1..] == [];
    var entries' := Inserted(entries, f);
    ServerDecodeOnce(static_, entries, hs);
    ServerDecodeOnce(static_, entries', [second]);
    ServerDecodeOnce(static_, entries', []);
    assert entries'[0] == f;
  }

  /** Section 2.3.3 makes an index in neither table an error.  To the server it is none: the field goes on without a
      name, and an indexed one without a value. */
  lemma OutOfTables(static_: Table, entries: seq<Field>, h: Header)
    requires h.index > |static_| + |entries|
    ensures ResolveWith(static_, entries, h) == Field(h.name, h.value)
    ensures ServerDecode(static_, entries, [h]).0 == [Field(h.name, h.value)]
  {
    ServerDecodeOnce(static_, entries, [h]);
    assert [h][1..] == [];
    ServerDecodeOnce(static_, ServerNext(entries, h, Field(h.name, h.value)), []);
  }

  class HeaderTranslator {
    const static_: Table
    const dynamic: DynamicTable

    ghost predicate Valid()
      reads dynamic
    {
      dynamic.Valid() && |static_| == STATIC_SIZE
    }

    constructor (static_: Table)
      requires |static_| == STATIC_SIZE
      ensures Valid() && fresh(dynamic) && dynamic.entries == [] && this.static_ == static_
    {
      this.static_ := static_;
      dynamic := new DynamicTable();
    }

    /** The lookup of one header's index in the static or in the dynamic table. */
    method Resolve(h: Header) returns (f: Field)
      requires Valid()
      ensures f == ResolveWith(static_, dynamic.entries, h)
    {
      f := Field(h.name, h.value);
      if h.index > 0 {
        var found;
        if h.index > |static_| {
          found := dynamic.Find(h.index);
        } else {
          found := Some(static_[h.index - 1]);
        }
        if found.Some? {
          f := Field(found.value.name, if h.indexType == Indexed then found.value.value else h.value);
        }
      }
    }

    /** The loop over the decoded headers of a block. */
    method Translate(headers: seq<Header>) returns (fields: seq<Field>)
      requires Valid()
      modifies dynamic
      ensures Valid()
      ensures (fields, dynamic.entries) == ServerDecode(static_, old(dynamic.entries), headers)
    {
      hide ServerDecode, ResolveWith, Inserted;
      fields := [];
      var x := 0;
      assert headers[0..] == headers;
      while x < |headers|
        invariant 0 <= x <= |headers| && Valid()
        invariant var all := ServerDecode(static_, old(dynamic.entries), headers);
                  var rest := ServerDecode(static_, dynamic.entries, headers[x..]);
                  all.0 == fields + rest.0 && all.1 == rest.1
      {
        ServerDecodeOnce(static_, dynamic.entries, headers[x..]);
        var f := Resolve(headers[x]);
        ghost var rest := ServerDecode(static_, dynamic.entries, headers[x..]);
        assert headers[x..][1..] == headers[x + 1..];
        assert fields + rest.0 == fields + [f] + rest.0[1..];
        if Indexes(headers[x]) {
          dynamic.Insert(f);
        }
        fields := fields + [f];
        x := x + 1;
      }
      ServerDecodeOnce(static_, dynamic.entries, headers[x..]);
      assert headers[x..] == [] && fields + [] == fields;
    }
  }

  // ---- From octets to headers ----

  /** A string literal of a peer, Huffman coded or plain. */
  function PeerString(code: Huffman, s: string, huffman: bool): Bytes
    requires forall i | 0 <= i < |s| :: s[i] as int < 256
  {
    if huffman then StringLiteral(code, s)
    else Flagged(|s|, 7, 0) + seq(|s|, i requires 0 <= i < |s| => s[i] as int as Octet)
  }

  predicate IsText(s: string) {
    NoNul(s) && forall i | 0 <= i < |s| :: s[i] as int < 256
  }

  predicate Spelled(rep: Rep) {
    rep.Literal? ==> IsText(rep.name) && IsText(rep.value)
  }

  ghost predicate Sendable(code: Huffman, rep: Rep) {
    && rep.index < TWO_32
    && Spelled(rep)
    && (rep.Literal? ==>
          && |rep.name| < TWO_32 && |rep.value| < TWO_32
          && |code.encode(rep.name)| < TWO_32 && |code.encode(rep.value)| < TWO_32)
  }

  function Tag(mode: Mode, index: nat): (b: Bytes)
    ensures b != []
  {
    match mode
    case Incremental => Flagged(index, 6, 64)
    case Without => Flagged(index, 4, 0)
    case Never => Flagged(index, 4, 16)
  }

  /** One representation on the wire. */
  function Wire(code: Huffman, rep: Rep, h1: bool, h2: bool): Bytes
    requires Spelled(rep)
  {
    match rep
    case Entry(index) => Flagged(index, 7, 128)
    case Literal(mode, index, name, value) =>
      Tag(mode, index) + (if index == 0 then PeerString(code, name, h1) else []) + PeerString(code, value, h2)
  }

  /** What the server's parser keeps of a representation: of an index without indexing, four bits. */
  function Kept(rep: Rep): Header {
    match rep
    case Entry(index) => Header(Indexed, index, [], [])
    case Literal(mode, index, name, value) =>
      var n := if index == 0 then name else [];
      match mode
      case Incremental => Header(if index > 0 then WithIndexingIndexedName else WithIndexingNewName, index, n, value)
      case Without =>
        Header(if index > 0 then WithoutIndexingIndexedName else WithoutIndexingNewName, Min(index, 15), n, value)
      case Never => Header(if index > 0 then NeverIndexedIndexedName else NeverIndexedNewName, index, n, value)
  }

  lemma PeerStringReads(code: Huffman, s: string, huffman: bool, tail: Bytes)
    requires code.Inverse() && IsText(s) && |s| < TWO_32 && |code.encode(s)| < TWO_32
    ensures var b := PeerString(code, s, huffman); b != [] && ReadString(code, b + tail) == Piece(s, |b|)
  {
    hide CString;
    WholeIsC(s);
    if huffman {
      ReadStringLiteral(code, s, tail);
    } else {
      var text: Bytes := seq(|s|, i requires 0 <= i < |s| => s[i] as int as Octet);
      var b := PeerString(code, s, false) + tail;
      var k := |Encode(|s|, 7)|;
      RoundTrip(|s|, 7, 0, text + tail);
      assert b == Flagged(|s|, 7, 0) + (text + tail);
      assert b[k..k + |s|] == text;
      assert seq(|s|, i requires 0 <= i < |s| => text[i] as char) == s;
    }
  }

  lemma TagReads(index: nat, mode: Mode, tail: Bytes)
    requires index < TWO_32
    ensures ReadTag(Tag(mode, index) + tail) == Piece(Kept(Literal(mode, index, [], [])), |Tag(mode, index)|)
  {
    hide EncodeRest, DecodeRest, Pow2;
    match mode
    case Incremental => RoundTrip(index, 6, 64, tail);
    case Without => RoundTrip(index, 4, 0, tail);
    case Never => RoundTrip(index, 4, 16, tail);
  }

  lemma IndexedNameReads(code: Huffman, rep: Rep, huffman: bool, tail: Bytes)
    requires rep.Literal? && rep.index > 0 && code.Inverse() && Sendable(code, rep)
    ensures var b := Tag(rep.mode, rep.index) + PeerString(code, rep.value, huffman);
            ReadField(code, b + tail) == Piece(Kept(rep), |b|)
  {
    hide ReadString, PeerString, ReadTag, Tag;
    var tag, v := Tag(rep.mode, rep.index), PeerString(code, rep.value, huffman);
    var b := tag + v + tail;
    assert b == tag + (v + tail);
    TagReads(rep.index, rep.mode, v + tail);
    PeerStringReads(code, rep.value, huffman, tail);
    assert b[|tag|..] == v + tail;
  }

  lemma SpelledNameReads(code: Huffman, rep: Rep, h1: bool, h2: bool, tail: Bytes)
    requires rep.Literal? && rep.index == 0 && code.Inverse() && Sendable(code, rep)
    ensures var b := Tag(rep.mode, 0) + PeerString(code, rep.name, h1) + PeerString(code, rep.value, h2);
            ReadField(code, b + tail) == Piece(Kept(rep), |b|)
  {
    hide ReadString, PeerString, ReadTag, Tag;
    var tag, n, v := Tag(rep.mode, 0), PeerString(code, rep.name, h1), PeerString(code, rep.value, h2);
    var b := tag + n + v + tail;
    assert b == tag + (n + v + tail);
    TagReads(0, rep.mode, n + v + tail);
    PeerStringReads(code, rep.name, h1, v + tail);
    PeerStringReads(code, rep.value, h2, tail);
    assert b[|tag|..] == n + (v + tail);
    assert b[|tag| + |n|..] == v + tail;
  }

  /** Every representation a peer may send is read to its end, and kept as above. */
  lemma WireReads(code: Huffman, rep: Rep, h1: bool, h2: bool, tail: Bytes)
    requires code.Inverse() && Sendable(code, rep)
    ensures var b := Wire(code, rep, h1, h2);
            b != [] && ReadField(code, b + tail) == Piece(Kept(rep), |b|)
  {
    hide ReadString, PeerString, ReadTag, Tag, Flagged;
    if rep.Entry? {
      EntryReads(rep.index, tail);
    } else if rep.index > 0 {
      IndexedNameReads(code, rep, h2, tail);
      var tag := Tag(rep.mode, rep.index);
      assert tag + [] + PeerString(code, rep.value, h2) == tag + PeerString(code, rep.value, h2);
    } else {
      SpelledNameReads(code, rep, h1, h2, tail);
    }
  }

  lemma EntryReads(index: nat, tail: Bytes)
    requires index < TWO_32
    ensures var b := Flagged(index, 7, 128);
            b != [] && ReadTag(b + tail) == Piece(Header(Indexed, index, [], []), |b|)
  {
    hide EncodeRest, DecodeRest, Pow2;
    RoundTrip(index, 7, 128, tail);
  }

  predicate AllSpelled(reps: seq<Rep>) {
    forall i | 0 <= i < |reps| :: Spelled(reps[i])
  }

  ghost predicate AllSendable(code: Huffman, reps: seq<Rep>) {
    AllSpelled(reps) && forall i | 0 <= i < |reps| :: Sendable(code, reps[i])
  }

  /** A block on the wire, with the encoder's choice of string coding for each representation. */
  function WireBlock(code: Huffman, reps: seq<Rep>, plain: seq<(bool, bool)>): Bytes
    requires |plain| == |reps|
    requires AllSpelled(reps)
  {
    if reps == [] then []
    else Wire(code, reps[0], plain[0].0, plain[0].1) + WireBlock(code, reps[1..], plain[1..])
  }

  function KeptAll(reps: seq<Rep>): (hs: seq<Header>)
    ensures |hs| == |reps|
  {
    seq(|reps|, i requires 0 <= i < |reps| => Kept(reps[i]))
  }

  lemma {:induction false} WireBlockReads(code: Huffman, reps: seq<Rep>, plain: seq<(bool, bool)>)
    requires code.Inverse() && |plain| == |reps|
    requires AllSendable(code, reps)
    ensures ReadBlock(code, WireBlock(code, reps, plain)) == Block(KeptAll(reps), true)
  {
    hide ReadBlock, ReadField, Wire, Kept;
    var b := WireBlock(code, reps, plain);
    ReadBlockOnce(code, b);
    if reps != [] {
      var w, rest := Wire(code, reps[0], plain[0].0, plain[0].1), WireBlock(code, reps[1..], plain[1..]);
      WireReads(code, reps[0], plain[0].0, plain[0].1, rest);
      WireBlockReads(code, reps[1..], plain[1..]);
      assert (w + rest)[|w|..] == rest;
      assert KeptAll(reps) == [Kept(reps[0])] + KeptAll(reps[1..]);
    }
  }

  // ---- Agreement ----

  /** The server resolves one representation as the peer means it exactly when a name index without indexing
      fits four bits, or happens to have the name of static entry 15. */
  lemma ResolvesExactly(static_: Table, t: seq<Field>, entries: seq<Field>, rep: Rep)
    requires |static_| == STATIC_SIZE && t <= entries && Meaning(static_, t, rep).Some?
    ensures var f := Meaning(static_, t, rep).value;
            var cut := rep.Literal? && rep.mode.Without? && rep.index > 15;
            ResolveWith(static_, entries, Kept(rep)) == f <==> !cut || f.name == static_[14].name
  {
  }

  /** What the connection's blocks keep to: no entry without a name is indexed, and name indices without
      indexing stay within four bits. */
  ghost predicate Plain(static_: Table, t: seq<Field>, reps: seq<Rep>)
    decreases |reps|
  {
    reps == [] ||
    match Meaning(static_, t, reps[0])
    case None => false
    case Some(f) =>
      && (reps[0].Literal? && reps[0].mode.Without? ==> reps[0].index <= 15)
      && (reps[0].Literal? && reps[0].mode.Incremental? ==> f.name != [])
      && Plain(static_, PeerNext(t, reps[0], f), reps[1..])
  }

  lemma TablesStep(t: seq<Field>, entries: seq<Field>, f: Field)
    requires t <= entries && f.name != [] && |entries| <= MAX_ENTRIES
    ensures Added(t, f) <= Inserted(entries, f)
  {
    if EntrySize(f) <= MAX_OCTETS {
      var kept := Keep(t, MAX_OCTETS - EntrySize(f));
      KeptSize(t, MAX_OCTETS - EntrySize(f));
      AtMost128(kept);
      assert kept <= entries[..Min(|entries|, MAX_ENTRIES - 1)];
    }
  }

  lemma {:induction false} ListsAgree(static_: Table, t: seq<Field>, entries: seq<Field>, reps: seq<Rep>)
    requires |static_| == STATIC_SIZE && t <= entries && |entries| <= MAX_ENTRIES
    requires Plain(static_, t, reps)
    ensures PeerDecode(static_, t, reps).Some?
    ensures var (fs, t') := PeerDecode(static_, t, reps).value;
            var (gs, e') := ServerDecode(static_, entries, KeptAll(reps));
            gs == fs && t' <= e' && |e'| <= MAX_ENTRIES
    decreases |reps|
  {
    hide Added, Inserted, Lookup;
    if reps != [] {
      var rep := reps[0];
      ResolvesExactly(static_, t, entries, rep);
      var f := Meaning(static_, t, rep).value;
      var h := Kept(rep);
      assert KeptAll(reps)[0] == h && KeptAll(reps)[1..] == KeptAll(reps[1..]);
      if rep.Literal? && rep.mode.Incremental? {
        TablesStep(t, entries, f);
      }
      ListsAgree(static_, PeerNext(t, rep, f), ServerNext(entries, h, f), reps[1..]);
    }
  }

  // ---- A connection's blocks ----

  /** What the server decodes of a connection's blocks, one after the other; `None` when one cannot be read. */
  function ServerBlocks(static_: Table, entries: seq<Field>, code: Huffman, wire: seq<Bytes>): Option<seq<seq<Field>>>
    decreases |wire|
  {
    if wire == [] then Some([])
    else
      var r := ReadBlock(code, wire[0]);
      if !r.ok then None
      else
        var (fs, entries') := ServerDecode(static_, entries, r.headers);
        var rest := ServerBlocks(static_, entries', code, wire[1..]);
        if rest.None? then None else Some([fs] + rest.value)
  }

  /** A connection ends in an error exactly when some block cannot be read. */
  lemma {:induction false} BlockRefused(static_: Table, entries: seq<Field>, code: Huffman, wire: seq<Bytes>)
    ensures ServerBlocks(static_, entries, code, wire).None?
       <==> exists i :: 0 <= i < |wire| && !ReadBlock(code, wire[i]).ok
    decreases |wire|
  {
    hide ReadBlock, ServerDecode;
    if wire != [] {
      var r := ReadBlock(code, wire[0]);
      BlockRefused(static_, ServerDecode(static_, entries, r.headers).1, code, wire[1..]);
      assert forall i | 1 <= i < |wire| :: wire[i] == wire[1..][i - 1];
      if r.ok && ServerBlocks(static_, entries, code, wire).None? {
        var i :| 0 <= i < |wire[1..]| && !ReadBlock(code, wire[1..][i]).ok;
        assert !ReadBlock(code, wire[i + 1]).ok;
      }
    }
  }

  /** What they mean. */
  function PeerBlocks(static_: Table, t: seq<Field>, blocks: seq<seq<Rep>>): Option<seq<seq<Field>>>
    decreases |blocks|
  {
    if blocks == [] then Some([])
    else
      var r := PeerDecode(static_, t, blocks[0]);
      if r.None? then None
      else
        var rest := PeerBlocks(static_, r.value.1, blocks[1..]);
        if rest.None? then None else Some([r.value.0] + rest.value)
  }

  ghost predicate PlainBlocks(static_: Table, t: seq<Field>, blocks: seq<seq<Rep>>)
    decreases |blocks|
  {
    blocks == [] ||
    (&& Plain(static_, t, blocks[0])
     && var r := PeerDecode(static_, t, blocks[0]);
        r.Some? && PlainBlocks(static_, r.value.1, blocks[1..]))
  }

  ghost predicate BlocksSendable(code: Huffman, blocks: seq<seq<Rep>>, plain: seq<seq<(bool, bool)>>) {
    |plain| == |blocks| &&
    forall i | 0 <= i < |blocks| :: AllSendable(code, blocks[i]) && |plain[i]| == |blocks[i]|
  }

  ghost function WireBlocks(code: Huffman, blocks: seq<seq<Rep>>, plain: seq<seq<(bool, bool)>>): (w: seq<Bytes>)
    requires BlocksSendable(code, blocks, plain)
    ensures |w| == |blocks|
  {
    seq(|blocks|, i requires 0 <= i < |blocks| => WireBlock(code, blocks[i], plain[i]))
  }

  lemma {:induction false} BlocksDecode(static_: Table, t: seq<Field>, entries: seq<Field>, code: Huffman,
                                        blocks: seq<seq<Rep>>, plain: seq<seq<(bool, bool)>>)
    requires |static_| == STATIC_SIZE && code.Inverse() && BlocksSendable(code, blocks, plain)
    requires t <= entries && |entries| <= MAX_ENTRIES && PlainBlocks(static_, t, blocks)
    ensures PeerBlocks(static_, t, blocks).Some?
    ensures ServerBlocks(static_, entries, code, WireBlocks(code, blocks, plain)) == PeerBlocks(static_, t, blocks)
    decreases |blocks|
  {
    hide ReadBlock, WireBlock, PeerDecode, ServerDecode, Plain, Sendable, AllSpelled;
    if blocks != [] {
      var wire := WireBlocks(code, blocks, plain);
      WireBlockReads(code, blocks[0], plain[0]);
      ListsAgree(static_, t, entries, blocks[0]);
      var t' := PeerDecode(static_, t, blocks[0]).value.1;
      var e' := ServerDecode(static_, entries, KeptAll(blocks[0])).1;
      BlocksDecode(static_, t', e', code, blocks[1..], plain[1..]);
      assert wire[0] == WireBlock(code, blocks[0], plain[0]);
      assert wire[1..] == WireBlocks(code, blocks[1..], plain[1..]);
    }
  }

  /** Main result: over a whole connection, block after block, whatever the peer's choices of indexing and of
      string coding, the octets of its blocks are decoded to the fields they mean. */
  lemma ConnectionDecodes(static_: Table, code: Huffman, blocks: seq<seq<Rep>>, plain: seq<seq<(bool, bool)>>)
    requires |static_| == STATIC_SIZE && code.Inverse() && BlocksSendable(code, blocks, plain)
    requires PlainBlocks(static_, [], blocks)
    ensures PeerBlocks(static_, [], blocks).Some?
    ensures ServerBlocks(static_, [], code, WireBlocks(code, blocks, plain)) == PeerBlocks(static_, [], blocks)
  {
    BlocksDecode(static_, [], [], code, blocks, plain);
  }
}
