/** The prefix-integer codec of HPACK (section 5.1 of RFC 7541) in 32-bit arithmetic. */
module PrefixInteger {
  import opened Octets

  function Pow2(k: nat): (p: nat)
    ensures p >= 1
  {
    if k == 0 then 1 else 2 * Pow2(k - 1)
  }

  type Prefix = n: nat | 1 <= n <= 8 witness 1

  /** All prefix bits set: `(1 << n) - 1`. */
  function Mask(n: Prefix): (m: Octet)
    ensures m == Pow2(n) - 1
  {
    assert Pow2(1) == 2 && Pow2(2) == 4 && Pow2(3) == 8 && Pow2(4) == 16;
    assert Pow2(5) == 32 && Pow2(6) == 64 && Pow2(7) == 128 && Pow2(8) == 256;
    if n == 1 then 1 else if n == 2 then 3 else if n == 3 then 7 else if n == 4 then 15
    else if n == 5 then 31 else if n == 6 then 63 else if n == 7 then 127 else 255
  }

  /** The prefix bits of an octet: `b & ((1 << n) - 1)`. */
  function Low(b: Octet, n: Prefix): (low: Octet)
    ensures low <= Mask(n) && low <= b
  {
    if n == 1 then b % 2 else if n == 2 then b % 4 else if n == 3 then b % 8 else if n == 4 then b % 16
    else if n == 5 then b % 32 else if n == 6 then b % 64 else if n == 7 then b % 128 else b
  }

  /** `Truncated` (no octet left) and `Refused` (too large) are the -1 of the source.  `Undefined` is a shift
      by 32 or more, which C++ leaves open. */
  datatype Decoded = Value(value: nat, length: nat) | Truncated | Refused | Undefined

  /** The continuation loop at octet `i`, with `value` accumulated and `shift` the weight of the next group. */
  function DecodeRest(b: Bytes, i: nat, shift: nat, value: nat): (r: Decoded)
    requires value < TWO_32
    ensures r.Value? ==> r.value < TWO_32 && i < r.length <= |b|
    decreases |b| - i
  {
    if i >= |b| then Truncated
    else if shift >= 32 then Undefined
    else
      var added := b[i] % 128;
      if (TWO_32 - 1) / Pow2(shift) < added then Refused
      else
        var sum := (value + added * Pow2(shift)) % TWO_32;
        if b[i] >= 128 then DecodeRest(b, i + 1, shift + 7, sum) else Value(sum, i + 1)
  }

  function Decode(b: Bytes, n: Prefix): (r: Decoded)
    ensures r.Value? ==> r.value < TWO_32 && 0 < r.length <= |b|
  {
    if b == [] then Truncated
    else
      var first := Low(b[0], n);
      if first == Mask(n) then DecodeRest(b, 1, 0, first) else Value(first, 1)
  }

  function EncodeRest(value: nat): (b: Bytes)
    ensures b != []
  {
    if value >= 128 then [value % 128 + 128] + EncodeRest(value / 128) else [value]
  }

  function Encode(value: nat, n: Prefix): (b: Bytes)
    ensures b != []
  {
    if value < Mask(n) then [value] else [Mask(n)] + EncodeRest(value - Mask(n))
  }

  // ---- The source's pointer loops ----

  /** `decode_integer` on the octets from `start` up to `end`. */
  method DecodeInteger(buf: array<Octet>, start: nat, end: nat, n: Prefix) returns (r: Decoded)
    requires start <= end <= buf.Length
    ensures r == Decode(buf[start..end], n)
  {
    if start >= end {
      return Truncated;
    }
    ghost var b := buf[start..end];
    var p := start;
    var dst: nat := Low(buf[p], n);
    if dst == Mask(n) {
      var m := 0;
      while true
        invariant start <= p < end && dst < TWO_32
        invariant Decode(b, n) == DecodeRest(b, p + 1 - start, m, dst)
        decreases end - p
      {
        p := p + 1;
        if p >= end {
          return Truncated;
        }
        if m >= 32 {
          return Undefined;
        }
        assert b[p - start] == buf[p];
        var added := buf[p] % 128;
        if (TWO_32 - 1) / Pow2(m) < added {
          return Refused;
        }
        dst := (dst + added * Pow2(m)) % TWO_32;
        m := m + 7;
        if buf[p] < 128 {
          break;
        }
      }
    }
    return Value(dst, p - start + 1);
  }

  /** The continuation loop of the encoder, writing from `p` on. */
  method EncodeContinuation(buf: array<Octet>, p: nat, end: nat, value: nat) returns (q: int)
    requires p <= end <= buf.Length
    modifies buf
    ensures q == if p + |EncodeRest(value)| < end then p + |EncodeRest(value)| else -1
    ensures q >= 0 ==> q <= end && buf[p..q] == EncodeRest(value)
    ensures forall i | 0 <= i < p :: buf[i] == old(buf[i])
  {
    var v, r := value, p;
    ghost var done: Bytes := [];
    while v >= 128
      invariant p <= r <= end && buf[p..r] == done
      invariant EncodeRest(value) == done + EncodeRest(v)
      invariant forall i | 0 <= i < p :: buf[i] == old(buf[i])
    {
      if r >= end {
        return -1;
      }
      buf[r] := v % 128 + 128;
      assert buf[p..r] == done;
      assert done + EncodeRest(v) == done + [v % 128 + 128] + EncodeRest(v / 128);
      done := done + [v % 128 + 128];
      r := r + 1;
      v := v / 128;
    }
    if r + 1 >= end {
      return -1;
    }
    buf[r] := v;
    assert buf[p..r] == done;
    return r + 1;
  }

  /** `encode_integer` into the octets from `start` up to `end`: the length written, or -1. */
  method EncodeInteger(buf: array<Octet>, start: nat, end: nat, value: nat, n: Prefix) returns (length: int)
    requires start <= end <= buf.Length
    modifies buf
    ensures length == if Fits(value, n, end - start) then |Encode(value, n)| else -1
    ensures length >= 0 ==> start + length <= end && buf[start..start + length] == Encode(value, n)
    ensures forall i | 0 <= i < start :: buf[i] == old(buf[i])
  {
    hide EncodeRest, Pow2;
    if start >= end {
      return -1;
    }
    if value < Mask(n) {
      buf[start] := value;
      return 1;
    }
    buf[start] := Mask(n);
    var q := EncodeContinuation(buf, start + 1, end, value - Mask(n));
    if q < 0 {
      return -1;
    }
    assert buf[start] == Mask(n);
    assert buf[start..q] == [Mask(n)] + buf[start + 1..q];
    return q - start;
  }

  /** The encoder wants one spare octet behind a number that needs continuation octets. */
  predicate Fits(value: nat, n: Prefix, room: nat) {
    if value < Mask(n) then room >= 1 else room > |Encode(value, n)|
  }

  // ---- The number an encoding stands for ----

  /** A continuation that ends inside `b`, with at most `most` octets. */
  predicate Ends(b: Bytes, i: nat, most: nat)
    decreases most
  {
    i < |b| && most > 0 && (b[i] >= 128 ==> Ends(b, i + 1, most - 1))
  }

  /** Section 5.1 of RFC 7541: groups of seven bits, least significant first. */
  function RestValue(b: Bytes, i: nat): nat
    decreases |b| - i
  {
    if i >= |b| then 0
    else b[i] % 128 + (if b[i] >= 128 then 128 * RestValue(b, i + 1) else 0)
  }

  function NumberValue(b: Bytes, n: Prefix): nat
    requires b != []
  {
    var first := Low(b[0], n);
    if first < Mask(n) then first else first + RestValue(b, 1)
  }

  lemma Pow2Shift(k: nat)
    ensures Pow2(k + 7) == 128 * Pow2(k)
  {
    assert Pow2(k + 7) == 2 * Pow2(k + 6) && Pow2(k + 6) == 2 * Pow2(k + 5) && Pow2(k + 5) == 2 * Pow2(k + 4);
    assert Pow2(k + 4) == 2 * Pow2(k + 3) && Pow2(k + 3) == 2 * Pow2(k + 2) && Pow2(k + 2) == 2 * Pow2(k + 1);
  }

  lemma Weights()
    ensures Pow2(0) == 1 && Pow2(7) == 128 && Pow2(14) == 16384 && Pow2(21) == 2097152 && Pow2(28) == 268435456
  {
    Pow2Shift(0);
    Pow2Shift(7);
    Pow2Shift(14);
    Pow2Shift(21);
  }

  lemma ModStep(value: nat, x: nat, rest: nat)
    ensures ((value + x) % TWO_32 + rest) % TWO_32 == (value + (x + rest)) % TWO_32
  {
  }

  lemma GroupWeight(a: nat, rest: nat, shift: nat)
    ensures (a + 128 * rest) * Pow2(shift) == a * Pow2(shift) + rest * Pow2(shift + 7)
  {
    Pow2Shift(shift);
    assert 128 * rest * Pow2(shift) == rest * (128 * Pow2(shift));
  }

  lemma DecodeRestOnce(b: Bytes, i: nat, shift: nat, value: nat)
    requires value < TWO_32 && i < |b| && shift < 32
    ensures var a := b[i] % 128;
            var sum := (value + a * Pow2(shift)) % TWO_32;
            DecodeRest(b, i, shift, value)
              == if (TWO_32 - 1) / Pow2(shift) < a then Refused
                 else if b[i] >= 128 then DecodeRest(b, i + 1, shift + 7, sum) else Value(sum, i + 1)
  {
    hide Pow2;
  }

  lemma DecodeRestStarts(b: Bytes, i: nat, shift: nat, value: nat)
    requires value < TWO_32 && DecodeRest(b, i, shift, value).Value?
    ensures i < |b| && shift < 32
  {
  }

  lemma {:induction false} RestDecodes(b: Bytes, i: nat, shift: nat, value: nat)
    requires value < TWO_32 && DecodeRest(b, i, shift, value).Value?
    ensures DecodeRest(b, i, shift, value).value == (value + RestValue(b, i) * Pow2(shift)) % TWO_32
    decreases |b| - i
  {
    hide Pow2, DecodeRest, RestValue;
    DecodeRestStarts(b, i, shift, value);
    DecodeRestOnce(b, i, shift, value);
    RestWeight(b, i, shift);
    if b[i] >= 128 {
      var x, y := b[i] % 128 * Pow2(shift), RestValue(b, i + 1) * Pow2(shift + 7);
      RestDecodes(b, i + 1, shift + 7, (value + x) % TWO_32);
      ModStep(value, x, y);
    }
  }

  lemma RestWeight(b: Bytes, i: nat, shift: nat)
    requires i < |b|
    ensures b[i] >= 128 ==>
              RestValue(b, i) * Pow2(shift)
                == b[i] % 128 * Pow2(shift) + RestValue(b, i + 1) * Pow2(shift + 7)
    ensures b[i] < 128 ==> RestValue(b, i) == b[i] % 128
  {
    hide Pow2;
    if b[i] >= 128 {
      GroupWeight(b[i] % 128, RestValue(b, i + 1), shift);
    }
  }

  /** On any input, a number the decoder accepts is the encoded number modulo 2^32; so it is the encoded
      number exactly when that fits 32 bits. */
  lemma DecodesModulo(b: Bytes, n: Prefix)
    requires Decode(b, n).Value?
    ensures Decode(b, n).value == NumberValue(b, n) % TWO_32
    ensures Decode(b, n).value == NumberValue(b, n) <==> NumberValue(b, n) < TWO_32
  {
    hide Pow2, RestValue, DecodeRest;
    Weights();
    var first := Low(b[0], n);
    if first == Mask(n) {
      RestDecodes(b, 1, 0, first);
      assert RestValue(b, 1) * Pow2(0) == RestValue(b, 1);
    }
  }

  /** A continuation octet with weight at most 2^21 is never refused; with weight 2^28 exactly when its
      group exceeds 15. */
  lemma GroupAccepted(a: nat, shift: nat)
    requires a < 128 && (shift == 0 || shift == 7 || shift == 14 || shift == 21 || shift == 28)
    ensures (TWO_32 - 1) / Pow2(shift) < a <==> shift == 28 && a > 15
  {
    Weights();
  }

  lemma {:induction false} RestAccepted(b: Bytes, i: nat, k: nat, value: nat)
    requires value < TWO_32 && k < 5 && Ends(b, i, 5 - k)
    ensures DecodeRest(b, i, 7 * k, value).Value? <==> RestFits(b, i, 5 - k)
    decreases 5 - k
  {
    hide Pow2, DecodeRest;
    GroupAccepted(b[i] % 128, 7 * k);
    DecodeRestOnce(b, i, 7 * k, value);
    if b[i] >= 128 {
      assert 7 * k + 7 == 7 * (k + 1);
      RestAccepted(b, i + 1, k + 1, (value + b[i] % 128 * Pow2(7 * k)) % TWO_32);
    }
  }

  /** The fifth continuation octet, if there is one, carries at most four bits. */
  predicate RestFits(b: Bytes, i: nat, left: nat)
    requires left > 0 && Ends(b, i, left)
    decreases left
  {
    if left == 1 then b[i] % 128 <= 15 else b[i] >= 128 ==> RestFits(b, i + 1, left - 1)
  }

  /** Which encodings of at most five continuation octets the decoder accepts: all but those whose fifth
      one is above 15. */
  lemma AcceptsExactly(b: Bytes, n: Prefix)
    requires b != [] && Low(b[0], n) == Mask(n) && Ends(b, 1, 5)
    ensures Decode(b, n).Value? <==> RestFits(b, 1, 5)
  {
    RestAccepted(b, 1, 0, Mask(n));
  }

  // ---- Round trip ----

  /** What fits in `left` more groups when the fifth group holds four bits. */
  function Cap(left: nat): nat {
    if left == 1 then 16 else if left == 2 then 2048 else if left == 3 then 262144
    else if left == 4 then 33554432 else TWO_32
  }

  /** How many octets the continuation at `i` takes. */
  function RestLength(b: Bytes, i: nat): nat
    decreases |b| - i
  {
    if i >= |b| then 0 else 1 + if b[i] >= 128 then RestLength(b, i + 1) else 0
  }

  lemma {:induction false} DecodedLength(b: Bytes, i: nat, shift: nat, value: nat)
    requires value < TWO_32 && DecodeRest(b, i, shift, value).Value?
    ensures DecodeRest(b, i, shift, value).length == i + RestLength(b, i)
    decreases |b| - i
  {
    hide Pow2;
    if b[i] >= 128 {
      DecodedLength(b, i + 1, shift + 7, (value + b[i] % 128 * Pow2(shift)) % TWO_32);
    }
  }

  /** Where the encoder's continuation lies in `b`, it stands for the number and the decoder accepts it. */
  lemma {:induction false} EncodedRest(b: Bytes, i: nat, v: nat, left: nat)
    requires 1 <= left <= 5 && v < Cap(left)
    requires i <= |b| && EncodeRest(v) <= b[i..]
    ensures RestValue(b, i) == v && RestLength(b, i) == |EncodeRest(v)|
    ensures Ends(b, i, left) && RestFits(b, i, left)
    decreases left
  {
    assert b[i] == EncodeRest(v)[0];
    if v >= 128 {
      assert EncodeRest(v / 128) == EncodeRest(v)[1..];
      assert EncodeRest(v / 128) <= b[i + 1..];
      EncodedRest(b, i + 1, v / 128, left - 1);
    }
  }

  /** An encoded number with `bits` set beside its prefix, as the header representations carry it. */
  function Flagged(value: nat, n: Prefix, bits: nat): (b: Bytes)
    requires bits + Mask(n) < 256
    ensures |b| == |Encode(value, n)|
  {
    var e := Encode(value, n);
    [bits + e[0]] + e[1..]
  }

  lemma LowAdd(x: nat, p: nat, low: nat)
    requires p > 0 && x % p == 0 && low < p
    ensures (x + low) % p == low
  {
    var d := (x + low) / p - x / p;
    assert d * p == (x + low) / p * p - x / p * p;
    assert x == x / p * p;
    assert d >= 1 ==> d * p >= p;
    assert d <= -1 ==> d * p <= -1 * p;
  }

  lemma LowOfFlagged(bits: Octet, n: Prefix, low: Octet)
    requires bits + Mask(n) < 256 && Low(bits, n) == 0 && low <= Mask(n)
    ensures Low(bits + low, n) == low
  {
    hide Pow2;
    if n == 1 { LowAdd(bits, 2, low); }
    else if n == 2 { LowAdd(bits, 4, low); }
    else if n == 3 { LowAdd(bits, 8, low); }
    else if n == 4 { LowAdd(bits, 16, low); }
    else if n == 5 { LowAdd(bits, 32, low); }
    else if n == 6 { LowAdd(bits, 64, low); }
    else if n == 7 { LowAdd(bits, 128, low); }
  }

  /** Decoding what was encoded gives the number and the length written, whatever bits were set beside the
      prefix and whatever octets follow. */
  lemma RoundTrip(value: nat, n: Prefix, bits: nat, tail: Bytes)
    requires value < TWO_32 && bits + Mask(n) < 256 && Low(bits, n) == 0
    ensures Decode(Flagged(value, n, bits) + tail, n) == Value(value, |Encode(value, n)|)
  {
    hide Pow2, EncodeRest, DecodeRest, RestValue, RestLength, Ends, RestFits, Low, Mask;
    var e := Encode(value, n);
    var wire := Flagged(value, n, bits) + tail;
    LowOfFlagged(bits, n, e[0]);
    assert wire[0] == bits + e[0];
    if value >= Mask(n) {
      var rest := value - Mask(n);
      assert e[1..] == EncodeRest(rest);
      assert wire[1..] == EncodeRest(rest) + tail;
      EncodedRest(wire, 1, rest, 5);
      AcceptsExactly(wire, n);
      DecodesModulo(wire, n);
      DecodedLength(wire, 1, 0, Mask(n));
    }
  }

  // ---- The room an encoder wants ----

  function Pow128(k: nat): (p: nat)
    ensures p >= 1
  {
    if k == 0 then 1 else 128 * Pow128(k - 1)
  }

  lemma {:induction false} GroupsAre(value: nat, k: nat)
    requires k >= 1
    ensures |EncodeRest(value)| <= k <==> value < Pow128(k)
    decreases k
  {
    if k == 1 {
      assert Pow128(1) == 128 * Pow128(0);
      if value >= 128 {
        assert EncodeRest(value / 128) != [];
      }
    } else if value >= 128 {
      GroupsAre(value / 128, k - 1);
      DivisionBound(value, Pow128(k - 1));
    } else {
      assert Pow128(k - 1) >= 1;
    }
  }

  lemma DivisionBound(value: nat, p: nat)
    ensures value / 128 < p <==> value < 128 * p
  {
  }

  /** What the encoder asks of its buffer: one octet for a value that the prefix holds; for any other one octet, one for
      each seven bits of the rest, and one more that it leaves unused. */
  lemma FitsExactly(value: nat, n: Prefix, room: nat)
    ensures Fits(value, n, room) <==>
              room >= 1 && (value < Mask(n) as nat || (room >= 3 && value - Mask(n) as nat < Pow128(room - 2)))
  {
    hide EncodeRest;
    if value >= Mask(n) as nat {
      if room >= 3 {
        GroupsAre(value - Mask(n) as nat, room - 2);
      }
    }
  }
}
