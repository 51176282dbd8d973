/** `sscanf(text, "%x", &n)`: the contract the chunk relay relies on, and what it reads of a chunk-size text. */
module HexText {
  import opened Octets

  predicate IsSpace(c: Octet) {
    c == 32 || 9 <= c <= 13
  }

  predicate IsHexDigit(c: Octet) {
    '0' as int <= c <= '9' as int || 'a' as int <= c <= 'f' as int || 'A' as int <= c <= 'F' as int
  }

  function DigitValue(c: Octet): (v: nat)
    requires IsHexDigit(c)
    ensures v < 16
  {
    if c <= '9' as int then c - '0' as int
    else if c <= 'F' as int then c - 'A' as int + 10
    else c - 'a' as int + 10
  }

  predicate AllHex(s: Bytes) {
    forall i | 0 <= i < |s| :: IsHexDigit(s[i])
  }

  /** The number a string of hexadecimal digits stands for. */
  function HexValue(s: Bytes): nat
    requires AllHex(s)
  {
    if s == [] then 0 else 16 * HexValue(s[..|s| - 1]) + DigitValue(s[|s| - 1])
  }

  function SkipSpace(s: Bytes): Bytes {
    if s != [] && IsSpace(s[0]) then SkipSpace(s[1..]) else s
  }

  /** The longest prefix of `s` made of hexadecimal digits. */
  function LeadingHex(s: Bytes): (d: Bytes)
    ensures AllHex(d)
  {
    if s == [] || !IsHexDigit(s[0]) then [] else [s[0]] + LeadingHex(s[1..])
  }

  predicate HasHexPrefix(s: Bytes) {
    |s| >= 2 && s[0] == '0' as int && (s[1] == 'x' as int || s[1] == 'X' as int)
  }

  /** Leading blanks, an optional sign, an optional `0x`, then digits read as by `strtoul`
      (saturating at 64 bits) and stored in 32 bits.  `None` when no digit is there. */
  function ScanHex(text: Bytes): (r: Option<nat>)
    ensures r.Some? ==> r.value < TWO_32
  {
    var t := SkipSpace(text);
    var negative := t != [] && t[0] == '-' as int;
    var u := if t != [] && (t[0] == '-' as int || t[0] == '+' as int) then t[1..] else t;
    var digits := LeadingHex(if HasHexPrefix(u) then u[2..] else u);
    if digits == [] then None
    else
      var v := Min(HexValue(digits), TWO_64 - 1);
      Some((if negative then TWO_64 - v else v) % TWO_32)
  }

  lemma {:induction false} LeadingHexOf(digits: Bytes, tail: Bytes)
    requires AllHex(digits)
    requires tail == [] || !IsHexDigit(tail[0])
    ensures LeadingHex(digits + tail) == digits
  {
    if digits == [] {
      assert digits + tail == tail;
    } else {
      assert (digits + tail)[1..] == digits[1..] + tail;
      LeadingHexOf(digits[1..], tail);
    }
  }

  /** What `%x` reads of a chunk-size line cut after its digits or in its extension. */
  lemma ScanDigits(digits: Bytes, tail: Bytes)
    requires digits != [] && AllHex(digits) && HexValue(digits) < TWO_32
    requires tail == [] || tail[0] == ';' as int
    ensures ScanHex(digits + tail) == Some(HexValue(digits))
  {
    hide HexValue;
    var text := digits + tail;
    LeadingHexOf(digits, tail);
    assert text[0] == digits[0];
    assert SkipSpace(text) == text;
    assert !HasHexPrefix(text) by {
      if |text| > 1 {
        assert text[1] == if |digits| > 1 then digits[1] else tail[0];
      }
    }
  }

  /** Cutting digits off the end of a text divides its value by at least 16 for every digit cut. */
  lemma {:induction false} HexPrefixBound(s: Bytes, n: nat)
    requires AllHex(s) && n < |s|
    ensures 16 * HexValue(s[..n]) <= HexValue(s)
  {
    var front := s[..|s| - 1];
    if n < |s| - 1 {
      HexPrefixBound(front, n);
      assert front[..n] == s[..n];
    }
  }

  // ---- The contract against its letter ----

  const DIGITS: string := "0123456789abcdef"
  const CAPITALS: string := "0123456789ABCDEF"

  /** The digits and their values, in either letter case, and no others. */
  lemma DigitsAre(c: Octet)
    ensures |DIGITS| == |CAPITALS| == 16
    ensures IsHexDigit(c) <==> exists v :: 0 <= v < 16 && (c == DIGITS[v] as int || c == CAPITALS[v] as int)
    ensures forall v | 0 <= v < 16 && (c == DIGITS[v] as int || c == CAPITALS[v] as int) :: DigitValue(c) == v
  {
    assert forall v | 0 <= v < 10 :: DIGITS[v] as int == CAPITALS[v] as int == 48 + v;
    assert forall v | 10 <= v < 16 :: DIGITS[v] as int == 87 + v && CAPITALS[v] as int == 55 + v;
    if IsHexDigit(c) {
      var v := DigitValue(c);
      assert c == DIGITS[v] as int || c == CAPITALS[v] as int;
    }
  }

  /** Any text: blanks, a sign, `0x` in either case, digits, and what is none.  A minus sign negates in 64 bits. */
  lemma ScanForms(blanks: Bytes, sign: Bytes, prefix: Bytes, digits: Bytes, tail: Bytes)
    requires forall i | 0 <= i < |blanks| :: blanks[i] == 32 || blanks[i] == 9 || blanks[i] == 10 || blanks[i] == 13
    requires sign == [] || sign == ['+' as int] || sign == ['-' as int]
    requires prefix == [] || prefix == ['0' as int, 'x' as int] || prefix == ['0' as int, 'X' as int]
    requires digits != [] && AllHex(digits) && HexValue(digits) < TWO_64
    requires tail == [] || !IsHexDigit(tail[0])
    requires prefix == [] && digits == ['0' as int] ==> tail == [] || (tail[0] != 'x' as int && tail[0] != 'X' as int)
    ensures ScanHex(blanks + (sign + (prefix + (digits + tail))))
         == Some(if sign == ['-' as int] then (TWO_64 - HexValue(digits)) % TWO_32 else HexValue(digits) % TWO_32)
  {
    hide HexValue, SkipSpace, LeadingHex;
    var body := prefix + (digits + tail);
    var signed := sign + body;
    assert body[0] == (if prefix == [] then digits[0] else '0' as int);
    assert signed[0] == (if sign == [] then body[0] else sign[0]);
    BlanksSkipped(blanks, signed);
    assert sign != [] ==> signed[1..] == body;
    assert sign == [] ==> signed == body;
    PrefixTaken(prefix, digits, tail);
    LeadingHexOf(digits, tail);
  }

  lemma {:induction false} BlanksSkipped(blanks: Bytes, t: Bytes)
    requires forall i | 0 <= i < |blanks| :: blanks[i] == 32 || blanks[i] == 9 || blanks[i] == 10 || blanks[i] == 13
    requires t != [] && !IsSpace(t[0])
    ensures SkipSpace(blanks + t) == t
  {
    if blanks == [] {
      assert blanks + t == t;
    } else {
      assert (blanks + t)[1..] == blanks[1..] + t;
      BlanksSkipped(blanks[1..], t);
    }
  }

  lemma PrefixTaken(prefix: Bytes, digits: Bytes, tail: Bytes)
    requires prefix == [] || prefix == ['0' as int, 'x' as int] || prefix == ['0' as int, 'X' as int]
    requires digits != [] && AllHex(digits)
    requires prefix == [] && digits == ['0' as int] ==> tail == [] || (tail[0] != 'x' as int && tail[0] != 'X' as int)
    ensures var body := prefix + (digits + tail);
            (if HasHexPrefix(body) then body[2..] else body) == digits + tail
  {
    var body := prefix + (digits + tail);
    if prefix == [] {
      assert body == digits + tail;
      if |body| > 1 {
        assert body[1] == if |digits| > 1 then digits[1] else tail[0];
        if |digits| == 1 {
          assert digits == [digits[0]];
        }
      }
    } else {
      assert body[0] == prefix[0] && body[1] == prefix[1] && body[2..] == digits + tail;
    }
  }

  /** A text that begins with anything else has no number. */
  lemma NotANumber(c: Octet, tail: Bytes)
    requires c != 32 && (c < 9 || 13 < c) && c != '+' as int && c != '-' as int
    requires forall v | 0 <= v < 16 :: c != "0123456789abcdef"[v] as int && c != "0123456789ABCDEF"[v] as int
    ensures ScanHex([c] + tail).None?
  {
    DigitsAre(c);
    assert ([c] + tail)[0] == c;
    assert !IsHexDigit(c);
  }
}
