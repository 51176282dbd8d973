/** Header text as the HTTP/2 side handles it: letter case, trimming, the cut at the first colon. */
module HeaderText {
  import opened Octets

  function LowerChar(c: char): char {
    if 'A' <= c <= 'Z' then (c as int + 32) as char else c
  }

  function Lower(s: string): (r: string)
    ensures |r| == |s|
    ensures forall i | 0 <= i < |s| :: r[i] == LowerChar(s[i])
  {
    seq(|s|, i requires 0 <= i < |s| => LowerChar(s[i]))
  }

  /** `strcasecmp(a, b) == 0`. */
  predicate SameText(a: string, b: string) {
    Lower(a) == Lower(b)
  }

  predicate NoNul(s: string) {
    forall i | 0 <= i < |s| :: s[i] != '\0'
  }

  /** The C string that starts at `s`. */
  function CString(s: string): (r: string)
    ensures NoNul(r)
    ensures r <= s
  {
    if s == [] || s[0] == '\0' then [] else [s[0]] + CString(s[1..])
  }

  lemma {:induction false} CStringCut(s: string, tail: string)
    requires NoNul(s) && (tail == [] || tail[0] == '\0')
    ensures CString(s + tail) == s
  {
    if s == [] {
      assert s + tail == tail;
    } else {
      assert (s + tail)[1..] == s[1..] + tail;
      CStringCut(s[1..], tail);
    }
  }

  predicate IsBlank(c: char) {
    c == ' ' || c == '\r' || c == '\n' || c == '\t'
  }

  function TrimLeft(s: string): (r: string)
    ensures NoNul(s) ==> NoNul(r)
    ensures r == [] || !IsBlank(r[0])
  {
    if s != [] && IsBlank(s[0]) then TrimLeft(s[1..]) else s
  }

  function TrimRight(s: string): (r: string)
    ensures r <= s
    ensures r == [] || !IsBlank(r[|r| - 1])
  {
    if s != [] && IsBlank(s[|s| - 1]) then TrimRight(s[..|s| - 1]) else s
  }

  /** `strtrim`. */
  function Trim(s: string): (r: string)
    ensures NoNul(s) ==> NoNul(r)
    ensures r == [] || (!IsBlank(r[0]) && !IsBlank(r[|r| - 1]))
  {
    TrimRight(TrimLeft(s))
  }

  /** Position of the first colon, or the length. */
  function ColonAt(s: string): (k: nat)
    ensures k <= |s|
    ensures forall i | 0 <= i < k :: s[i] != ':'
    ensures k < |s| ==> s[k] == ':'
  {
    if s == [] || s[0] == ':' then 0 else 1 + ColonAt(s[1..])
  }

  datatype Field = Field(name: string, value: string)

  function Slice(s: string, from: nat, to: nat): (r: string)
    requires from <= to <= |s|
    ensures NoNul(s) ==> NoNul(r)
  {
    s[from..to]
  }

  /** The cut of a header line at its first colon; the colon a pseudo-header starts with is not that one. */
  function Cut(line: string): (f: Field)
    ensures NoNul(line) ==> NoNul(f.name) && NoNul(f.value)
  {
    var pseudo := line != [] && line[0] == ':';
    var text := if pseudo then Slice(line, 1, |line|) else line;
    var k := ColonAt(text);
    var name := if pseudo then ":" + Slice(text, 0, k) else Slice(text, 0, k);
    Field(Trim(name), Trim(if k < |text| then Slice(text, k + 1, |text|) else []))
  }
}
