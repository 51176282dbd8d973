/** Octets, and the byte searches (`memcmp` scans, `memchr`) that the stream components share. */
module Octets {

  type Octet = x: int | 0 <= x < 256

  type Bytes = seq<Octet>

  datatype Option<+T> = None | Some(value: T)

  const CR: Octet := 13
  const LF: Octet := 10
  const CRLF: Bytes := [CR, LF]

  const TWO_32: nat := 0x1_0000_0000
  const TWO_64: nat := 0x1_0000_0000_0000_0000

  function Min(x: nat, y: nat): nat {
    if x < y then x else y
  }

  /** `memcmp(s + i, p, |p|) == 0`, with the whole pattern inside `s`. */
  predicate MatchAt(s: Bytes, p: Bytes, i: nat) {
    i + |p| <= |s| && s[i..i + |p|] == p
  }

  /** Position of the first occurrence of `p` in `s` at or after `i`. */
  function FindFrom(s: Bytes, p: Bytes, i: nat): (r: Option<nat>)
    ensures r.Some? ==> i <= r.value && MatchAt(s, p, r.value)
    ensures r.Some? ==> forall j: nat | i <= j < r.value :: !MatchAt(s, p, j)
    ensures r.None? ==> forall j: nat | i <= j :: !MatchAt(s, p, j)
    decreases |s| - i
  {
    if i + |p| > |s| then None
    else if MatchAt(s, p, i) then Some(i)
    else FindFrom(s, p, i + 1)
  }

  function Find(s: Bytes, p: Bytes): (r: Option<nat>)
    ensures r.Some? ==> MatchAt(s, p, r.value)
    ensures r.Some? ==> forall j: nat | j < r.value :: !MatchAt(s, p, j)
    ensures r.None? ==> forall j: nat :: !MatchAt(s, p, j)
  {
    FindFrom(s, p, 0)
  }

  lemma MatchAtAppend(s: Bytes, t: Bytes, p: Bytes, i: nat)
    requires i + |p| <= |s|
    ensures MatchAt(s + t, p, i) == MatchAt(s, p, i)
  {
    assert (s + t)[i..i + |p|] == s[i..i + |p|];
  }

  lemma FindIs(s: Bytes, p: Bytes, k: nat)
    requires MatchAt(s, p, k)
    requires forall j: nat | j < k :: !MatchAt(s, p, j)
    ensures Find(s, p) == Some(k)
  {
    var r := Find(s, p);
    assert r.Some? ==> r.value <= k;
  }

  /** A match found in the bytes received so far stays the first match when more bytes arrive. */
  lemma FindAppend(s: Bytes, t: Bytes, p: Bytes)
    requires Find(s, p).Some?
    ensures Find(s + t, p) == Find(s, p)
  {
    var k := Find(s, p).value;
    MatchAtAppend(s, t, p, k);
    forall j: nat | j < k
      ensures !MatchAt(s + t, p, j)
    {
      MatchAtAppend(s, t, p, j);
    }
    FindIs(s + t, p, k);
  }

  /** The concatenation of a sequence of reads. */
  function Flatten(segments: seq<Bytes>): Bytes {
    if segments == [] then [] else segments[0] + Flatten(segments[1..])
  }

  lemma FlattenAppend(a: seq<Bytes>, b: seq<Bytes>)
    ensures Flatten(a + b) == Flatten(a) + Flatten(b)
  {
    if a == [] {
      assert a + b == b;
    } else {
      assert (a + b)[1..] == a[1..] + b;
      FlattenAppend(a[1..], b);
    }
  }

  /** `for (pos = 0; pos <= used - |p|; pos++) if (memcmp(buf + pos, p, |p|) == 0) ...` */
  method Scan(buf: array<Octet>, used: nat, p: Bytes) returns (r: Option<nat>)
    requires used <= buf.Length
    ensures r == Find(buf[..used], p)
  {
    var pos := 0;
    while pos + |p| <= used
      invariant Find(buf[..used], p) == FindFrom(buf[..used], p, pos)
    {
      assert buf[..used][pos..pos + |p|] == buf[pos..pos + |p|];
      if buf[pos..pos + |p|] == p {
        return Some(pos);
      }
      pos := pos + 1;
    }
    return None;
  }

  /** `memmove(buf, buf + n, used - n)`: drops the first `n` of the `used` octets. */
  method MoveDown(buf: array<Octet>, used: nat, n: nat)
    requires n <= used <= buf.Length
    modifies buf
    ensures buf[..used - n] == old(buf[n..used])
  {
    var i := 0;
    while i < used - n
      invariant 0 <= i <= used - n
      invariant forall k | 0 <= k < i :: buf[k] == old(buf[k + n])
      invariant forall k | i <= k < used :: buf[k] == old(buf[k])
    {
      buf[i] := buf[i + n];
      i := i + 1;
    }
  }
}
