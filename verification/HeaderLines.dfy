/** HTTP/1 header texts as they are written, and the header fields that `hpack` makes of them: a status line and
    `name: value` lines (sections 3.1.2 and 3.2 of RFC 7230), each ended by CRLF, and an empty line behind them. */
module HeaderLines {
  import opened Octets
  import opened HeaderText
  import opened Hpack
  import opened HpackRoundTrip
  import opened HpackPeer

  datatype Written =
    | Status(code: string, reason: string)
    | Line(name: string, blanks: string, value: string)

  function LineText(w: Written): string {
    match w
    case Status(code, reason) => "HTTP/1.1 " + code + " " + reason
    case Line(name, blanks, value) => name + ":" + blanks + value
  }

  function TextOf(ws: seq<Written>): string {
    if ws == [] then "\r\n" else LineText(ws[0]) + "\r\n" + TextOf(ws[1..])
  }

  /** The field a line is written for. */
  function FieldOf(w: Written): Field {
    match w
    case Status(code, _) => Field(":status", code)
    case Line(name, _, value) => Field(name, value)
  }

  predicate Visible(c: char) {
    c != ' ' && c != '\t' && c != '\r' && c != '\n'
  }

  /** Neither begins nor ends with a blank. */
  predicate Tight(s: string) {
    s != [] && Visible(s[0]) && Visible(s[|s| - 1])
  }

  predicate OneLine(s: string) {
    '\n' !in s && '\0' !in s
  }

  /** A name may begin with the colon of a pseudo-header. */
  predicate Ok(w: Written) {
    match w
    case Status(code, reason) =>
      code != [] && (forall i | 0 <= i < |code| :: '0' <= code[i] <= '9') && OneLine(reason)
    case Line(name, blanks, value) =>
      && Tight(name) && OneLine(name) && '/' !in name && (forall i | 1 <= i < |name| :: name[i] != ':')
      && (forall i | 0 <= i < |blanks| :: blanks[i] == ' ' || blanks[i] == '\t')
      && OneLine(value) && (value == [] || Tight(value))
  }

  // ---- Letter case ----

  /** The letters, and nothing else, change. */
  lemma LettersLowered()
    ensures Lower("ABCDEFGHIJKLMNOPQRSTUVWXYZ") == "abcdefghijklmnopqrstuvwxyz"
    ensures forall s: string | (forall i | 0 <= i < |s| :: s[i] < 'A' || 'Z' < s[i]) :: Lower(s) == s
  {
    var upper, lower := "ABCDEFGHIJKLMNOPQRSTUVWXYZ", "abcdefghijklmnopqrstuvwxyz";
    assert |upper| == |lower| == 26;
    assert forall i | 0 <= i < 26 :: upper[i] == (65 + i) as char && lower[i] == (97 + i) as char;
    assert Lower(upper) == lower;
  }

  // ---- Trimming ----

  predicate AllBlanks(s: string) {
    forall i | 0 <= i < |s| :: !Visible(s[i])
  }

  lemma {:induction false} LeftTrimmed(a: string, s: string)
    requires AllBlanks(a) && (s == [] || Visible(s[0]))
    ensures TrimLeft(a + s) == s
  {
    if a == [] {
      assert a + s == s;
    } else {
      assert (a + s)[1..] == a[1..] + s;
      LeftTrimmed(a[1..], s);
    }
  }

  lemma LastOff(s: string, b: string)
    requires b != []
    ensures var t := s + b; t[..|t| - 1] == s + b[..|b| - 1] && t[|t| - 1] == b[|b| - 1]
  {
  }

  /** What is behind a visible character is trimmed by itself. */
  lemma {:induction false} RightTrimmed(s: string, b: string)
    requires s == [] || Visible(s[|s| - 1])
    ensures TrimRight(s + b) == s + TrimRight(b)
    ensures AllBlanks(b) ==> TrimRight(b) == []
    decreases |b|
  {
    if b == [] {
      assert s + b == s && s + [] == s;
    } else {
      var n := |b| - 1;
      RightTrimmed(s, b[..n]);
      LastOff(s, b);
    }
  }

  lemma Trimmed(a: string, s: string, b: string)
    requires AllBlanks(a) && AllBlanks(b) && (s == [] || Tight(s))
    ensures Trim(a + s + b) == s
  {
    hide TrimLeft, TrimRight;
    if s == [] {
      assert a + s + b == (a + b) + [];
      LeftTrimmed(a + b, []);
      RightTrimmed([], []);
      assert [] + TrimRight([]) == TrimRight([]);
    } else {
      assert a + s + b == a + (s + b);
      LeftTrimmed(a, s + b);
      RightTrimmed(s, b);
      assert s + [] == s;
    }
  }

  // ---- A line as the builder gets it ----

  /** The line without the blanks at its end. */
  function Core(w: Written): string {
    match w
    case Status(code, reason) => "HTTP/1.1 " + code + TrimRight(" " + reason + "\r")
    case Line(name, blanks, value) => if value == [] then name + ":" else LineText(w)
  }

  lemma LineTrimmed(w: Written)
    requires Ok(w)
    ensures Trim(LineText(w) + "\r") == Core(w) != []
  {
    match w
    case Status(code, reason) => StatusTrimmed(code, reason);
    case Line(name, blanks, value) =>
      if value == [] {
        assert LineText(w) + "\r" == [] + (name + ":") + (blanks + "\r");
        Trimmed([], name + ":", blanks + "\r");
      } else {
        var line := LineText(w);
        assert line[0] == name[0] && line[|line| - 1] == value[|value| - 1];
        assert line + "\r" == [] + line + "\r";
        Trimmed([], line, "\r");
      }
  }

  lemma StatusTrimmed(code: string, reason: string)
    requires Ok(Status(code, reason))
    ensures Trim(LineText(Status(code, reason)) + "\r") == Core(Status(code, reason)) != []
  {
    hide TrimLeft, TrimRight;
    var head, tail := "HTTP/1.1 " + code, " " + reason + "\r";
    var line := LineText(Status(code, reason)) + "\r";
    assert line == [] + (head + tail);
    assert head[0] == 'H' && head[|head| - 1] == code[|code| - 1];
    LeftTrimmed([], head + tail);
    RightTrimmed(head, tail);
  }

  lemma {:induction false} ColonIs(s: string, k: nat)
    requires k < |s| && s[k] == ':' && forall i | 0 <= i < k :: s[i] != ':'
    ensures ColonAt(s) == k
  {
    if k > 0 {
      ColonIs(s[1..], k - 1);
    }
  }

  /** A name that holds no slash does not make a status line. */
  lemma NotStatus(name: string, rest: string)
    requires '/' !in name && (forall i | 1 <= i < |name| :: name[i] != ':') && name != []
    ensures !IsStatusLine(name + ":" + rest)
  {
    var line := name + ":" + rest;
    if IsStatusLine(line) {
      var low := Lower(line[..8]);
      assert low == "http/1.1";
      if |name| > 4 {
        assert line[4] == name[4] && low[4] == LowerChar(line[4]) == '/';
        SlashOnly(line[4]);
        assert false;
      } else {
        ColonStays(name, rest);
        assert false;
      }
    }
  }

  lemma ColonStays(name: string, rest: string)
    requires |name| <= 4 && |name + ":" + rest| >= 8
    ensures Lower((name + ":" + rest)[..8])[|name|] == ':'
  {
  }

  lemma SlashOnly(c: char)
    requires LowerChar(c) == '/'
    ensures c == '/'
  {
  }

  lemma AtColon(name: string, rest: string)
    requires ':' !in name
    ensures var text := name + (":" + rest);
            && ColonAt(text) == |name| < |text|
            && Slice(text, 0, |name|) == name && Slice(text, |name| + 1, |text|) == rest
  {
    ColonIs(name + (":" + rest), |name|);
  }

  lemma PlainCut(name: string, rest: string)
    requires name != [] && ':' !in name
    ensures Cut(name + (":" + rest)) == Field(Trim(name), Trim(rest))
  {
    hide Trim, ColonAt, Slice;
    AtColon(name, rest);
  }

  lemma PseudoCut(name: string, rest: string)
    requires ':' !in name
    ensures Cut(":" + (name + (":" + rest))) == Field(Trim(":" + name), Trim(rest))
  {
    hide Trim, ColonAt, Slice;
    AtColon(name, rest);
    BehindFirst(name + (":" + rest));
  }

  lemma BehindFirst(text: string)
    ensures var line := ":" + text; line != [] && line[0] == ':' && Slice(line, 1, |line|) == text
  {
  }

  lemma Regrouped(a: string, b: string, c: string, d: string)
    ensures a + b + c + d == a + (b + (c + d))
  {
  }

  lemma HeadAndTail(s: string)
    requires s != [] && s[0] == ':'
    ensures s == ":" + s[1..] && forall rest: string :: s + rest == ":" + (s[1..] + rest)
  {
    forall rest: string
      ensures s + rest == ":" + (s[1..] + rest)
    {
      assert s == ":" + s[1..];
    }
  }

  lemma PartsTrimmed(name: string, blanks: string, value: string)
    requires Ok(Line(name, blanks, value))
    ensures Trim(name) == name && Trim(blanks + value) == value
    ensures name != [] && ':' !in name[1..]
  {
    hide Trim;
    Trimmed([], name, []);
    assert [] + name + [] == name;
    Trimmed(blanks, value, []);
    assert blanks + value + [] == blanks + value;
    assert forall i | 0 <= i < |name| - 1 :: name[1..][i] == name[i + 1];
  }

  lemma CutAtColon(name: string, blanks: string, value: string)
    requires Ok(Line(name, blanks, value))
    ensures Cut(name + ":" + blanks + value) == Field(name, value)
  {
    hide Trim, Cut, Ok;
    PartsTrimmed(name, blanks, value);
    Regrouped(name, ":", blanks, value);
    if name[0] == ':' {
      HeadAndTail(name);
      PseudoCut(name[1..], blanks + value);
    } else {
      NoColon(name);
      PlainCut(name, blanks + value);
    }
  }

  lemma NoColon(name: string)
    requires name != [] && name[0] != ':' && ':' !in name[1..]
    ensures ':' !in name
  {
    assert name == [name[0]] + name[1..];
  }

  lemma {:induction false} DigitsTaken(code: string, tail: string)
    requires (forall i | 0 <= i < |code| :: '0' <= code[i] <= '9') && (tail == [] || tail[0] < '0' || '9' < tail[0])
    ensures LeadingDigits(code + tail) == code
  {
    if code == [] {
      assert code + tail == tail;
    } else {
      assert (code + tail)[1..] == code[1..] + tail;
      DigitsTaken(code[1..], tail);
    }
  }

  lemma StatusRead(code: string, reason: string)
    requires Ok(Status(code, reason))
    ensures var core := Core(Status(code, reason)); IsStatusLine(core) && StatusCode(core) == code
  {
    hide TrimRight, LeadingDigits;
    var core, tail := Core(Status(code, reason)), TrimRight(" " + reason + "\r");
    assert core[..8] == "HTTP/1.1";
    assert Lower("HTTP/1.1") == "http/1.1";
    var rest := core[8..];
    assert rest == [' '] + (code + tail);
    assert rest[1..] == code + tail;
    assert SkipNonDigits(rest) == SkipNonDigits(rest[1..]) == rest[1..];
    DigitsTaken(code, tail);
  }

  /** Any line as written, with its line break: the builder takes it for the field it was written for. */
  lemma LineRead(w: Written)
    requires Ok(w)
    ensures var core := Trim(LineText(w) + "\r");
            && core != [] && LineField(core) == FieldOf(w)
            && (IsStatusLine(core) ==> w.Status? && StatusCode(core) == w.code)
  {
    hide Trim, Cut, StatusCode, IsStatusLine;
    LineTrimmed(w);
    match w
    case Status(code, reason) => StatusRead(code, reason);
    case Line(name, blanks, value) =>
      if value == [] {
        assert name + ":" == name + ":" + [] && name + ":" == name + ":" + [] + [];
        NotStatus(name, []);
        CutAtColon(name, [], []);
      } else {
        assert LineText(w) == name + ":" + (blanks + value);
        NotStatus(name, blanks + value);
        CutAtColon(name, blanks, value);
      }
  }

  lemma {:induction false} GapSkipped(gap: string, rest: string)
    requires (forall i | 0 <= i < |gap| :: gap[i] < '0' || '9' < gap[i]) && (rest == [] || '0' <= rest[0] <= '9')
    ensures SkipNonDigits(gap + rest) == rest
  {
    if gap == [] {
      assert gap + rest == rest;
    } else {
      assert (gap + rest)[1..] == gap[1..] + rest;
      GapSkipped(gap[1..], rest);
    }
  }

  /** Any line that begins with the version, in any letter case, is a status line; its code is the first digits behind
      at least one other character, and empty if there are none. */
  lemma AnyStatus(version: string, gap: string, code: string, tail: string)
    requires |version| == 8 && Lower(version) == "http/1.1"
    requires forall i | 0 <= i < |gap| :: gap[i] < '0' || '9' < gap[i]
    requires forall i | 0 <= i < |code| :: '0' <= code[i] <= '9'
    requires tail == [] || (code != [] && (tail[0] < '0' || '9' < tail[0]))
    ensures LineField(version + (gap + (code + tail))) == Field(":status", if gap == [] then [] else code)
  {
    hide SkipNonDigits, LeadingDigits;
    var line := version + (gap + (code + tail));
    assert line[..8] == version && line[8..] == gap + (code + tail);
    if gap == [] {
      assert gap + (code + tail) == code + tail;
    } else {
      GapSkipped(gap, code + tail);
      DigitsTaken(code, tail);
    }
  }

  // ---- Whole texts ----

  lemma NoSeparator(w: Written)
    requires Ok(w)
    ensures OneLine(LineText(w) + "\r")
  {
    var line := LineText(w);
    match w
    case Status(code, reason) =>
      assert forall c | c in line :: c in "HTTP/1.1 " || c in code || c in reason;
    case Line(name, blanks, value) =>
      assert forall c | c in line :: c in name || c == ':' || c in blanks || c in value;
  }

  predicate AllOk(ws: seq<Written>) {
    forall i | 0 <= i < |ws| :: Ok(ws[i])
  }

  lemma FirstLine(line: string, rest: string)
    requires OneLine(line) && line != []
    ensures Lines(line + "\n" + rest)
         == (if Trim(line) == [] then Lines(rest) else [Trim(line)] + Lines(rest))
  {
    hide Trim;
    var text := line + "\n" + rest;
    LineLengthIs(text, |line|);
    assert text[..|line|] == line && text[|line| + 1..] == rest;
  }

  lemma EmptyLine()
    ensures Lines("\r\n") == []
  {
    assert "\r\n" == "\r" + "\n" + [];
    FirstLine("\r", []);
    Trimmed("\r", [], []);
    assert "\r" + [] + [] == "\r";
  }

  /** The builder's lines are those written, each standing for its field. */
  lemma {:induction false} LinesRead(ws: seq<Written>)
    requires AllOk(ws)
    ensures var lines := Lines(TextOf(ws));
            && |lines| == |ws|
            && forall i | 0 <= i < |ws| :: LineField(lines[i]) == FieldOf(ws[i])
  {
    hide Trim, LineField, Lines, LineText, FieldOf, Ok;
    if ws == [] {
      EmptyLine();
    } else {
      var line := LineText(ws[0]) + "\r";
      NoSeparator(ws[0]);
      LineRead(ws[0]);
      LinesRead(ws[1..]);
      assert TextOf(ws) == line + "\n" + TextOf(ws[1..]);
      FirstLine(line, TextOf(ws[1..]));
    }
  }

  /** Lengths of 32 bits, and room for the status code. */
  ghost predicate AllShort(code: Huffman, ws: seq<Written>) {
    forall i | 0 <= i < |ws| ::
      Encodable(code, FieldOf(ws[i])) && (ws[i].Status? ==> |ws[i].code| <= 15)
  }

  /** Only a status line has a digit string behind its version. */
  lemma {:induction false} LinesShort(code: Huffman, ws: seq<Written>)
    requires AllOk(ws) && AllShort(code, ws)
    ensures AllEncodable(code, Lines(TextOf(ws)))
  {
    hide Trim, LineField, Lines, LineText, FieldOf, Ok, Encodable, StatusCode, IsStatusLine;
    if ws == [] {
      EmptyLine();
    } else {
      var w := ws[0];
      var line := LineText(w) + "\r";
      NoSeparator(w);
      LineRead(w);
      LinesShort(code, ws[1..]);
      assert TextOf(ws) == line + "\n" + TextOf(ws[1..]);
      FirstLine(line, TextOf(ws[1..]));
    }
  }

  /** Main result: for any status lines and header fields written into a header text, parsing what `build` made of
      it yields one header for each, in order, and each stands for its field: the name in lower case, and the value,
      the letter case of which changes only when the static table holds the whole field; a status line stands for
      `:status` and its code. */
  lemma WrittenThenParsed(table: Table, code: Huffman, ws: seq<Written>)
    requires TableOk(table) && code.Inverse() && AllOk(ws) && AllShort(code, ws)
    ensures var r := ReadBlock(code, BuildText(table, code, TextOf(ws)));
            && r.ok && |r.headers| == |ws|
            && forall i | 0 <= i < |ws| :: StandsFor(table, r.headers[i], FieldOf(ws[i]))
  {
    hide ReadBlock, BuildText, StandsFor, LineField, Lines, AllEncodable;
    LinesRead(ws);
    LinesShort(code, ws);
    BuildThenParse(table, code, TextOf(ws));
  }

  /** And a peer decodes it to the fields written if and only if every name is in the static table. */
  lemma WrittenThenDecoded(table: Table, code: Huffman, t: seq<Field>, ws: seq<Written>)
    requires TableOk(table) && code.Inverse() && AllOk(ws) && AllShort(code, ws)
    ensures var fs := PeerFields(table, t, code, BuildText(table, code, TextOf(ws)));
            && fs.Some? && |fs.value| == |ws|
            && ((forall i | 0 <= i < |ws| :: Meant(fs.value[i], FieldOf(ws[i])))
                <==> (forall i | 0 <= i < |ws| :: Known(table, FieldOf(ws[i]).name)))
  {
    hide PeerFields, BuildText, Meant, Known, LineField, Lines, AllEncodable;
    LinesRead(ws);
    LinesShort(code, ws);
    BuildThenPeerDecodes(table, code, t, TextOf(ws));
  }
}
