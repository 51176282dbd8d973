/** C strings over octets. */
module CStrings {
  import opened Octets

  const NUL: Octet := 0

  /** The octets in front of a terminator. */
  type Text = s: Bytes | NUL !in s

  /** The C string at the start of `s`. */
  function CText(s: Bytes): Text {
    if s == [] || s[0] == NUL then [] else [s[0]] + CText(s[1..])
  }

  lemma {:induction false} PaddingUnseen(s: Text, tail: Bytes)
    requires tail == [] || tail[0] == NUL
    ensures CText(s + tail) == s
  {
    if s == [] {
      assert s + tail == tail;
    } else {
      assert (s + tail)[1..] == s[1..] + tail;
      PaddingUnseen(s[1..], tail);
    }
  }
}
