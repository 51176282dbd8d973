/** URL encoding and decoding of cookie and session values, on C strings. */
module UrlFormat {
  import opened CStrings
  import opened Octets

  const PERCENT: Octet := '%' as int
  const PLUS: Octet := '+' as int
  const SPACE: Octet := ' ' as int
  const U: Octet := 'u' as int

  predicate Literal(c: Octet): (r: bool)
    ensures r ==> SPACE < c < 0x7F
  {
    || 'A' as int <= c <= 'Z' as int || 'a' as int <= c <= 'z' as int || '0' as int <= c <= '9' as int
    || c == '-' as int || c == '_' as int || c == '.' as int || c == '!' as int || c == '~' as int
    || c == '*' as int || c == '\\' as int || c == '(' as int || c == ')' as int
  }

  predicate High(c: Octet) {
    c >= 0x80
  }

  // ---- The two tables ----

  function HexChar(n: nat): (c: Octet)
    requires n < 16
    ensures HexVal(c) == n && Literal(c)
  {
    if n < 10 then '0' as int + n else 'A' as int + (n - 10)
  }

  /** The entry of `hex` for an octet. */
  function Hex(c: Octet): (h: Bytes)
    ensures |h| == 2
    ensures forall d | d in h :: Literal(d)
  {
    [HexChar(c / 16), HexChar(c % 16)]
  }

  /** The entry of `val`: 0x3F for what is no hexadecimal digit. */
  function HexVal(c: Octet): (v: Octet) {
    if '0' as int <= c <= '9' as int then c - '0' as int
    else if 'A' as int <= c <= 'F' as int then c - 'A' as int + 10
    else if 'a' as int <= c <= 'f' as int then c - 'a' as int + 10
    else 0x3F
  }

  /** `cint = (cint << 4) | val[c]` in an `unsigned char`. */
  function ShiftIn(cint: Octet, c: Octet): Octet {
    var v := HexVal(c);
    if v < 16 then cint % 16 * 16 + v else (cint % 16 / 4 * 4 + 3) * 16 + 15
  }

  /** Two digits push out whatever the accumulator held. */
  lemma TwoDigits(cint: Octet, c: Octet)
    ensures ShiftIn(ShiftIn(cint, Hex(c)[0]), Hex(c)[1]) == c
  {
  }

  // ---- Encoding ----

  /** `src[x]`, the terminator included. */
  function At(s: Text, x: nat): Octet
    requires x <= |s|
  {
    if x < |s| then s[x] else NUL
  }

  function Unit(s: Text, x: nat, little: bool): Bytes
    requires x < |s|
  {
    var c := s[x];
    if c == SPACE then [PLUS]
    else if Literal(c) then [c]
    else if !High(c) then [PERCENT] + Hex(c)
    else [PERCENT, U] + (if little then Hex(At(s, x + 1)) + Hex(c) else Hex(c) + Hex(At(s, x + 1)))
  }

  /** Octets of the source one turn takes. */
  function Taken(c: Octet): nat {
    if High(c) then 2 else 1
  }

  function EncodeFrom(s: Text, x: nat, little: bool): Bytes
    decreases |s| - x
  {
    if x >= |s| then [] else Unit(s, x, little) + EncodeFrom(s, x + Taken(s[x]), little)
  }

  method UrlEncode(src: Text, little: bool) returns (dst: Bytes)
    ensures dst == EncodeFrom(src, 0, little)
  {
    hide Literal, Hex, EncodeFrom;
    dst := [];
    var x := 0;
    while x < |src|
      invariant dst + EncodeFrom(src, x, little) == EncodeFrom(src, 0, little)
      decreases |src| - x
    {
      ghost var before, x0 := dst, x;
      EncodeOnce(src, x, little);
      if src[x] == SPACE {
        dst := dst + [PLUS];
      } else if Literal(src[x]) {
        dst := dst + [src[x]];
      } else if src[x] <= 0x7F {
        dst := dst + [PERCENT] + Hex(src[x]);
      } else {
        dst := dst + [PERCENT, U];
        if little {
          dst := dst + Hex(At(src, x + 1)) + Hex(src[x]);
        } else {
          dst := dst + Hex(src[x]) + Hex(At(src, x + 1));
        }
        x := x + 1;
      }
      x := x + 1;
      assert dst == before + Unit(src, x0, little) && x == x0 + Taken(src[x0]);
      Regroup(before, Unit(src, x0, little), EncodeFrom(src, x, little));
    }
    EncodeOnce(src, x, little);
    assert dst + [] == dst;
  }

  lemma EncodeOnce(s: Text, x: nat, little: bool)
    ensures EncodeFrom(s, x, little)
         == if x >= |s| then [] else Unit(s, x, little) + EncodeFrom(s, x + Taken(s[x]), little)
  {
  }

  lemma Regroup(a: Bytes, b: Bytes, c: Bytes)
    ensures a + (b + c) == a + b + c
  {
  }

  // ---- Decoding ----

  /** What one turn at octet `x` writes and how many octets it takes; `None` when it would read behind the
      terminator. */
  function Turn(e: Text, x: nat, little: bool): (t: Option<(Bytes, nat)>)
    requires x < |e|
    ensures t.Some? ==> t.value.1 > 0
  {
    if e[x] == PLUS then Some(([SPACE], 1))
    else if e[x] != PERCENT then Some(([e[x]], 1))
    else if At(e, x + 1) != U then
      if x + 2 > |e| then None else Some(([ShiftIn(ShiftIn(0, At(e, x + 1)), At(e, x + 2))], 3))
    else if x + 5 > |e| then None
    else
      var a := if little then x + 4 else x + 2;
      var b := if little then x + 2 else x + 4;
      var first := ShiftIn(ShiftIn(0, At(e, a)), At(e, a + 1));
      var second := ShiftIn(ShiftIn(first, At(e, b)), At(e, b + 1));
      Some(([first, second], 6))
  }

  function DecodeFrom(e: Text, x: nat, little: bool): Option<Bytes>
    decreases |e| - x
  {
    if x >= |e| then Some([])
    else
      var turn := Turn(e, x, little);
      if turn.None? then None
      else Then(turn.value.0, DecodeFrom(e, x + turn.value.1, little))
  }

  function Then(out: Bytes, rest: Option<Bytes>): Option<Bytes> {
    if rest.Some? then Some(out + rest.value) else None
  }

  method UrlDecode(src: Text, little: bool) returns (dst: Option<Bytes>)
    ensures dst == DecodeFrom(src, 0, little)
  {
    hide ShiftIn, DecodeFrom;
    var out: Bytes := [];
    var x := 0;
    DecodeOnce(src, x, little);
    assert Then([], DecodeFrom(src, x, little)) == DecodeFrom(src, x, little) by {
      NothingBefore(DecodeFrom(src, x, little));
    }
    while x < |src|
      invariant Then(out, DecodeFrom(src, x, little)) == DecodeFrom(src, 0, little)
      decreases |src| - x
    {
      DecodeOnce(src, x, little);
      ghost var before, x0 := out, x;
      ghost var unit: Bytes := [];
      if src[x] == PLUS {
        unit := [SPACE];
        out := out + [SPACE];
      } else if src[x] == PERCENT {
        var cint: Octet := 0;
        if At(src, x + 1) != U {
          if x + 2 > |src| {
            return None;
          }
          cint := ShiftIn(cint, At(src, x + 1));
          cint := ShiftIn(cint, At(src, x + 2));
          out := out + [cint];
          unit := [cint];
          x := x + 2;
        } else {
          if x + 5 > |src| {
            return None;
          }
          var a, b := x + 2, x + 4;
          if little {
            a, b := b, a;
          }
          cint := ShiftIn(cint, At(src, a));
          cint := ShiftIn(cint, At(src, a + 1));
          out := out + [cint];
          unit := [cint];
          cint := ShiftIn(cint, At(src, b));
          cint := ShiftIn(cint, At(src, b + 1));
          out := out + [cint];
          unit := [unit[0], cint];
          x := x + 5;
        }
      } else {
        unit := [src[x]];
        out := out + [src[x]];
      }
      x := x + 1;
      assert out == before + unit;
      assert Turn(src, x0, little) == Some((unit, x - x0));
      ThenThen(before, unit, DecodeFrom(src, x, little));
    }
    DecodeOnce(src, x, little);
    assert out + [] == out;
    return Some(out);
  }

  lemma DecodeOnce(e: Text, x: nat, little: bool)
    ensures x >= |e| ==> DecodeFrom(e, x, little) == Some([])
    ensures x < |e| ==>
              var turn := Turn(e, x, little);
              DecodeFrom(e, x, little)
                == if turn.None? then None else Then(turn.value.0, DecodeFrom(e, x + turn.value.1, little))
  {
  }

  lemma NothingBefore(rest: Option<Bytes>)
    ensures Then([], rest) == rest
  {
    if rest.Some? {
      assert [] + rest.value == rest.value;
    }
  }

  lemma ThenThen(a: Bytes, b: Bytes, rest: Option<Bytes>)
    ensures Then(a, Then(b, rest)) == Then(a + b, rest)
  {
    if rest.Some? {
      assert a + (b + rest.value) == a + b + rest.value;
    }
  }

  /** A percent sign is read as far as the terminator, which is a digit of no value; only what would be read behind that
      has no meaning. */
  lemma PercentAtEnd(e: Text, x: nat, little: bool)
    requires x < |e| && e[x] == PERCENT
    ensures Turn(e, x, little).None? <==> |e| - x < (if x + 1 < |e| && e[x + 1] == 'u' as int then 5 else 2)
  {
  }

  // ---- The encoded text ----

  /** What may stand in an encoded text. */
  predicate UrlSafe(c: Octet) {
    Literal(c) || c == PLUS || c == PERCENT
  }

  /** A separator of cookies or of form fields, a blank, a control character or an octet outside ASCII. */
  predicate Separator(c: Octet) {
    c == ';' as int || c == '=' as int || c == '&' as int || c <= SPACE || c >= 0x7F
  }

  lemma {:induction false} EncodedIsSafe(s: Text, x: nat, little: bool)
    ensures forall c | c in EncodeFrom(s, x, little) :: UrlSafe(c) && !Separator(c)
    decreases |s| - x
  {
    if x < |s| {
      EncodedIsSafe(s, x + Taken(s[x]), little);
      assert forall c | c in Unit(s, x, little) :: UrlSafe(c);
    }
  }

  // ---- The round trip ----

  /** Length of the run of high octets at the end. */
  function HighRun(s: Bytes): nat {
    if s == [] || !High(s[|s| - 1]) then 0 else 1 + HighRun(s[..|s| - 1])
  }

  /** The high octets at the end cannot be paired off: the last one is taken together with the terminator. */
  predicate Ragged(s: Bytes) {
    HighRun(s) % 2 == 1
  }

  predicate AllHigh(s: Bytes) {
    forall i | 0 <= i < |s| :: High(s[i])
  }

  lemma {:induction false} HighRunAppend(a: Bytes, t: Bytes)
    ensures HighRun(a + t) == if AllHigh(t) then |t| + HighRun(a) else HighRun(t)
  {
    if t == [] {
      assert a + t == a;
    } else if High(t[|t| - 1]) {
      assert (a + t)[..|a + t| - 1] == a + t[..|t| - 1];
      HighRunAppend(a, t[..|t| - 1]);
      assert AllHigh(t) == AllHigh(t[..|t| - 1]);
    }
  }

  lemma HighRunOne(c: Octet)
    ensures HighRun([c]) == if High(c) then 1 else 0
  {
    assert [c][..0] == [];
  }

  /** One turn of the encoder leaves the parity of the run at the end as it was. */
  lemma RaggedStep(s: Bytes)
    requires s != [] && Taken(s[0]) <= |s|
    ensures Ragged(s) == Ragged(s[Taken(s[0])..])
  {
    hide HighRun;
    var n := Taken(s[0]);
    var t := s[n..];
    HighRunOne(s[0]);
    assert s == s[..n] + t;
    HighRunAppend(s[..n], t);
    HighRunAppend([], t);
    assert [] + t == t;
    HighRunNil();
    if n == 1 {
      assert s[..1] == [s[0]];
    } else {
      HighRunOne(s[1]);
      assert s[..2] == [s[0]] + [s[1]];
      HighRunAppend([s[0]], [s[1]]);
      assert AllHigh([s[1]]) == High([s[1]][0]);
    }
  }

  lemma HighRunNil()
    ensures HighRun([]) == 0 && Padded([]) == []
  {
  }

  function Padded(s: Bytes): Bytes {
    if Ragged(s) then s + [NUL] else s
  }

  /** The octets one turn of the encoder stands for. */
  function Group(s: Text, x: nat): Bytes
    requires x < |s|
  {
    if High(s[x]) then [s[x], At(s, x + 1)] else [s[x]]
  }

  /** The decoder undoes one turn of the encoder, wherever the unit stands. */
  lemma UnitDecodes(s: Text, x: nat, little: bool, e: Text, at: nat)
    requires x < |s| && at + |Unit(s, x, little)| <= |e|
    requires forall i | 0 <= i < |Unit(s, x, little)| :: e[at + i] == Unit(s, x, little)[i]
    ensures Unit(s, x, little) != []
    ensures Turn(e, at, little) == Some((Group(s, x), |Unit(s, x, little)|))
  {
    hide ShiftIn, HexChar;
    var unit := Unit(s, x, little);
    if s[x] != SPACE && !Literal(s[x]) {
      TwoDigits(0, s[x]);
      assert e[at] == unit[0] && e[at + 1] == unit[1] && e[at + 2] == unit[2];
      if High(s[x]) {
        TwoDigits(0, At(s, x + 1));
        TwoDigits(s[x], At(s, x + 1));
        TwoDigits(At(s, x + 1), s[x]);
        assert e[at + 3] == unit[3] && e[at + 4] == unit[4] && e[at + 5] == unit[5];
      }
    }
  }

  lemma {:induction false} DecodesFrom(s: Text, x: nat, little: bool, e: Text, at: nat)
    requires x <= |s| && at <= |e| && e[at..] == EncodeFrom(s, x, little)
    ensures DecodeFrom(e, at, little) == Some(Padded(s[x..]))
    decreases |s| - x
  {
    hide DecodeFrom, Unit, EncodeFrom, Turn, Padded, Group;
    EncodeOnce(s, x, little);
    DecodeOnce(e, at, little);
    if x < |s| {
      var unit := Unit(s, x, little);
      var next := x + Taken(s[x]);
      assert forall i | 0 <= i < |unit| :: e[at + i] == unit[i] by {
        assert forall i | 0 <= i < |unit| :: e[at..][i] == unit[i];
      }
      UnitDecodes(s, x, little, e, at);
      assert e[at + |unit|..] == e[at..][|unit|..] == EncodeFrom(s, next, little);
      if next <= |s| {
        DecodesFrom(s, next, little, e, at + |unit|);
        PaddedStep(s, x);
      } else {
        EncodeOnce(s, next, little);
        DecodeOnce(e, at + |unit|, little);
        LoneHigh(s, x);
      }
    } else {
      assert s[x..] == [];
      HighRunNil();
    }
  }

  lemma LoneHigh(s: Text, x: nat)
    requires x + 1 == |s| && High(s[x])
    ensures Padded(s[x..]) == Group(s, x) + []
  {
    assert s[x..] == [s[x]];
    HighRunOne(s[x]);
    assert Group(s, x) == [s[x]] + [NUL];
  }

  lemma PaddedStep(s: Text, x: nat)
    requires x < |s| && x + Taken(s[x]) <= |s|
    ensures Padded(s[x..]) == Group(s, x) + Padded(s[x + Taken(s[x])..])
  {
    hide Ragged;
    var next := x + Taken(s[x]);
    RaggedStep(s[x..]);
    assert s[x..][Taken(s[x])..] == s[next..];
    assert s[x..] == Group(s, x) + s[next..];
    Regroup(Group(s, x), s[next..], [NUL]);
  }

  /** Main result: decoding an encoded C string gives the same C string.  As a `std::string` it is equal exactly
      when the run of octets above 0x7F at its end has even length; otherwise the terminator is added to it. */
  lemma DecodeUndoesEncode(s: Text, little: bool)
    ensures NUL !in EncodeFrom(s, 0, little)
    ensures DecodeFrom(EncodeFrom(s, 0, little), 0, little) == Some(Padded(s))
    ensures DecodeFrom(EncodeFrom(s, 0, little), 0, little) == Some(s) <==> HighRun(s) % 2 == 0
  {
    EncodedIsSafe(s, 0, little);
    var e := EncodeFrom(s, 0, little);
    assert e[0..] == e && s[0..] == s;
    DecodesFrom(s, 0, little, e, 0);
  }

  /** Two C strings with the same encoding are the same. */
  lemma EncodingIsInjective(s: Text, t: Text, little: bool)
    requires EncodeFrom(s, 0, little) == EncodeFrom(t, 0, little)
    ensures s == t
  {
    DecodeUndoesEncode(s, little);
    DecodeUndoesEncode(t, little);
    PaddingUnseen(s, if Ragged(s) then [NUL] else []);
    PaddingUnseen(t, if Ragged(t) then [NUL] else []);
    assert s + [] == s && t + [] == t;
  }

  // ---- Whatever encoder wrote it ----

  /** A hexadecimal digit, in either letter case, and its value. */
  predicate DigitOf(d: Octet, v: nat) {
    v < 16 && (d == "0123456789ABCDEF"[v] as int || d == "0123456789abcdef"[v] as int)
  }

  predicate OneOf(c: Octet, s: string) {
    exists i :: 0 <= i < |s| && c == s[i] as int
  }

  /** Which octets stand for themselves, spelled out. */
  lemma LiteralsAre(c: Octet)
    ensures Literal(c) <==>
              OneOf(c, "ABCDEFGHIJKLMNOPQRSTUVWXYZ") || OneOf(c, "abcdefghijklmnopqrstuvwxyz")
              || OneOf(c, "0123456789") || OneOf(c, "-_.!~*\\()")
  {
    var upper, lower := "ABCDEFGHIJKLMNOPQRSTUVWXYZ", "abcdefghijklmnopqrstuvwxyz";
    var digits, marks := "0123456789", "-_.!~*\\()";
    assert |upper| == |lower| == 26 && |digits| == 10 && |marks| == 9;
    assert forall i | 0 <= i < 26 :: upper[i] as int == 65 + i;
    assert forall i | 0 <= i < 26 :: lower[i] as int == 97 + i;
    assert forall i | 0 <= i < 10 :: digits[i] as int == 48 + i;
    if 65 <= c <= 90 {
      assert c == upper[c - 65] as int;
    } else if 97 <= c <= 122 {
      assert c == lower[c - 97] as int;
    } else if 48 <= c <= 57 {
      assert c == digits[c - 48] as int;
    } else {
      MarksAre(c);
    }
  }

  lemma MarksAre(c: Octet)
    ensures OneOf(c, "-_.!~*\\()")
       <==> c == 45 || c == 95 || c == 46 || c == 33 || c == 126 || c == 42 || c == 92 || c == 40 || c == 41
  {
    var marks := "-_.!~*\\()";
    assert marks[0] as int == 45 && marks[1] as int == 95 && marks[2] as int == 46 && marks[3] as int == 33;
    assert marks[4] as int == 126 && marks[5] as int == 42 && marks[6] as int == 92 && marks[7] as int == 40;
    assert marks[8] as int == 41;
  }

  /** What the encoder writes for an octet: a plus sign for a blank, itself, or digits in capitals behind a percent
      sign; an octet above 0x7F takes the next one with it. */
  lemma UnitSpelled(s: Text, x: nat, little: bool)
    requires x < |s|
    ensures var u, c := Unit(s, x, little), s[x];
            && (c == 32 ==> u == ['+' as int])
            && (Literal(c) ==> u == [c])
            && (c != 32 && !Literal(c) ==>
                  && u[0] == '%' as int && |u| == (if c < 128 then 3 else 6) && (c >= 128 ==> u[1] == 'u' as int)
                  && forall i | (if c < 128 then 1 else 2) <= i < |u| ::
                       '0' as int <= u[i] <= '9' as int || 'A' as int <= u[i] <= 'F' as int)
  {
    assert forall n: nat | n < 16 ::
        '0' as int <= HexChar(n) <= '9' as int || 'A' as int <= HexChar(n) <= 'F' as int;
  }

  /** One octet of a text as some encoder may write it: as itself, a blank as a plus sign, with a percent sign and
      two digits; or two octets with `%u` and four digits. */
  datatype Written =
    | Plain(c: Octet)
    | Plus
    | Percent(d1: Octet, d2: Octet, v1: nat, v2: nat)
    | Pair(d1: Octet, d2: Octet, d3: Octet, d4: Octet, v1: nat, v2: nat, v3: nat, v4: nat)

  predicate WrittenOk(w: Written) {
    match w
    case Plain(c) => c != NUL && c != '%' as int && c != '+' as int
    case Plus => true
    case Percent(d1, d2, v1, v2) => DigitOf(d1, v1) && DigitOf(d2, v2)
    case Pair(d1, d2, d3, d4, v1, v2, v3, v4) =>
      DigitOf(d1, v1) && DigitOf(d2, v2) && DigitOf(d3, v3) && DigitOf(d4, v4)
  }

  function WrittenText(w: Written): Bytes {
    match w
    case Plain(c) => [c]
    case Plus => ['+' as int]
    case Percent(d1, d2, _, _) => ['%' as int, d1, d2]
    case Pair(d1, d2, d3, d4, _, _, _, _) => ['%' as int, 'u' as int, d1, d2, d3, d4]
  }

  /** The octets written; a pair is a 16-bit number, kept in the order of the machine. */
  function Meant(w: Written, little: bool): seq<nat> {
    match w
    case Plain(c) => [c as nat]
    case Plus => [32]
    case Percent(_, _, v1, v2) => [16 * v1 + v2]
    case Pair(_, _, _, _, v1, v2, v3, v4) =>
      if little then [16 * v3 + v4, 16 * v1 + v2] else [16 * v1 + v2, 16 * v3 + v4]
  }

  function AllText(ws: seq<Written>): Bytes {
    if ws == [] then [] else WrittenText(ws[0]) + AllText(ws[1..])
  }

  function AllMeant(ws: seq<Written>, little: bool): seq<nat> {
    if ws == [] then [] else Meant(ws[0], little) + AllMeant(ws[1..], little)
  }

  /** As numbers. */
  function Numbers(s: Bytes): (n: seq<nat>)
    ensures |n| == |s|
    ensures forall i | 0 <= i < |s| :: n[i] == s[i] as int
  {
    seq(|s|, i requires 0 <= i < |s| => s[i] as nat)
  }

  lemma DigitRead(d: Octet, v: nat)
    requires DigitOf(d, v)
    ensures HexVal(d) == v && d != U && d != NUL
  {
    var upper, lower := "0123456789ABCDEF", "0123456789abcdef";
    assert forall i | 0 <= i < 10 :: upper[i] as int == lower[i] as int == 48 + i;
    assert forall i | 10 <= i < 16 :: upper[i] as int == 55 + i && lower[i] as int == 87 + i;
  }

  /** No other octet has a value. */
  lemma NoOtherDigit(c: Octet)
    ensures HexVal(c) == 0x3F <==> forall v :: !DigitOf(c, v)
  {
    if c < 58 {
      assert 48 <= c ==> DigitOf(c, c - 48);
    } else if c < 71 {
      assert 65 <= c ==> DigitOf(c, c - 55);
    } else {
      assert 97 <= c <= 102 ==> DigitOf(c, c - 87);
    }
    forall v | DigitOf(c, v)
      ensures HexVal(c) == v
    {
      DigitRead(c, v);
    }
  }

  /** A character that is no digit leaves of the accumulator two bits, at the top, and sets the other six. */
  lemma NoDigitShifts(cint: Octet, c: Octet)
    requires forall v :: !DigitOf(c, v)
    ensures ShiftIn(cint, c) / 64 == cint / 4 % 4 && ShiftIn(cint, c) % 64 == 63
  {
    NoOtherDigit(c);
    var x: nat := cint as int % 16;
    var q: nat := x / 4;
    assert (x / 4 * 4 + 3) * 16 + 15 == 64 * q + 63;
    TopBits(q);
    assert cint as int / 4 % 4 == q;
  }

  lemma TopBits(q: nat)
    ensures (64 * q + 63) / 64 == q && (64 * q + 63) % 64 == 63
  {
  }

  lemma TwoRead(cint: Octet, d1: Octet, d2: Octet, v1: nat, v2: nat)
    requires DigitOf(d1, v1) && DigitOf(d2, v2)
    ensures ShiftIn(ShiftIn(cint, d1), d2) as int == 16 * v1 + v2
  {
    DigitRead(d1, v1);
    DigitRead(d2, v2);
    LowNibble(cint as int % 16, v1);
  }

  lemma LowNibble(k: nat, v: nat)
    requires v < 16
    ensures (k * 16 + v) % 16 == v
  {
  }

  lemma WrittenIsText(w: Written)
    requires WrittenOk(w)
    ensures NUL !in WrittenText(w)
  {
    hide DigitOf;
    match w
    case Percent(d1, d2, v1, v2) =>
      DigitRead(d1, v1);
      DigitRead(d2, v2);
    case Pair(d1, d2, d3, d4, v1, v2, v3, v4) =>
      DigitRead(d1, v1);
      DigitRead(d2, v2);
      DigitRead(d3, v3);
      DigitRead(d4, v4);
    case _ =>
  }

  lemma WrittenTurn(w: Written, e: Text, at: nat, little: bool)
    requires WrittenOk(w) && at + |WrittenText(w)| <= |e|
    requires forall i | 0 <= i < |WrittenText(w)| :: e[at + i] == WrittenText(w)[i]
    ensures var turn := Turn(e, at, little);
            turn.Some? && turn.value.1 == |WrittenText(w)| && Numbers(turn.value.0) == Meant(w, little)
  {
    hide DigitOf, ShiftIn;
    var t := WrittenText(w);
    assert e[at] == t[0];
    match w
    case Percent(d1, d2, v1, v2) =>
      assert e[at + 1] == t[1] && e[at + 2] == t[2];
      DigitRead(d1, v1);
      TwoRead(0, d1, d2, v1, v2);
    case Pair(d1, d2, d3, d4, v1, v2, v3, v4) =>
      assert e[at + 1] == t[1] && e[at + 2] == t[2] && e[at + 3] == t[3] && e[at + 4] == t[4] && e[at + 5] == t[5];
      TwoRead(0, d1, d2, v1, v2);
      TwoRead(0, d3, d4, v3, v4);
      TwoRead(ShiftIn(ShiftIn(0, d1), d2), d3, d4, v3, v4);
      TwoRead(ShiftIn(ShiftIn(0, d3), d4), d1, d2, v1, v2);
    case _ =>
  }

  lemma NumbersAppend(a: Bytes, b: Bytes)
    ensures Numbers(a + b) == Numbers(a) + Numbers(b)
  {
  }

  predicate AllWrittenOk(ws: seq<Written>) {
    forall i | 0 <= i < |ws| :: WrittenOk(ws[i])
  }

  lemma {:induction false} WrittenDecodes(ws: seq<Written>, e: Text, at: nat, little: bool)
    requires AllWrittenOk(ws) && at <= |e| && e[at..] == AllText(ws)
    ensures var d := DecodeFrom(e, at, little); d.Some? && Numbers(d.value) == AllMeant(ws, little)
    decreases |ws|
  {
    hide DecodeFrom, Turn, WrittenText, Meant, WrittenOk;
    DecodeOnce(e, at, little);
    if ws != [] {
      var t := WrittenText(ws[0]);
      forall i | 0 <= i < |t|
        ensures at + i < |e| && e[at + i] == t[i]
      {
        assert e[at..][i] == t[i];
      }
      assert |e[at..]| >= |t|;
      WrittenTurn(ws[0], e, at, little);
      assert e[at + |t|..] == e[at..][|t|..] == AllText(ws[1..]);
      WrittenDecodes(ws[1..], e, at + |t|, little);
      NumbersAppend(Turn(e, at, little).value.0, DecodeFrom(e, at + |t|, little).value);
    }
  }

  lemma {:induction false} AllIsText(ws: seq<Written>)
    requires AllWrittenOk(ws)
    ensures NUL !in AllText(ws)
  {
    hide WrittenText, WrittenOk;
    if ws != [] {
      WrittenIsText(ws[0]);
      AllIsText(ws[1..]);
    }
  }

  /** Main result for other encoders, browsers' among them: whichever octets they write as themselves, with a plus
      sign or with digits in either letter case, decoding gives the octets meant. */
  lemma AnyEncodingDecodes(ws: seq<Written>, little: bool)
    requires AllWrittenOk(ws)
    ensures NUL !in AllText(ws)
    ensures var d := DecodeFrom(AllText(ws), 0, little); d.Some? && Numbers(d.value) == AllMeant(ws, little)
  {
    AllIsText(ws);
    assert AllText(ws)[0..] == AllText(ws);
    WrittenDecodes(ws, AllText(ws), 0, little);
  }
}
