/** The UTF-8 encoding of RFC 3629, to which the binary encoder's length bound applies. */
module Utf8 {
  import opened Prelude
  import opened BinaryWire

  function Tail(code: nat): (b: byte) {
    (0x80 + code % 0x40) as byte
  }

  function EncodedChar(c: char): (b: Bytes) {
    var code := c as int;
    if code < 0x80 then [code as byte]
    else if code < 0x800 then [(0xC0 + code / 0x40) as byte, Tail(code)]
    else if code < 0x1_0000 then [(0xE0 + code / 0x1000) as byte, Tail(code / 0x40), Tail(code)]
    else [(0xF0 + code / 0x4_0000) as byte, Tail(code / 0x1000), Tail(code / 0x40), Tail(code)]
  }

  function Encoded(s: string): (b: Bytes) {
    if s == "" then [] else EncodedChar(s[0]) + Encoded(s[1..])
  }

  /** A character of one unit takes at most three bytes, one of two units four. */
  lemma {:induction false} EncodedBound(s: string)
    ensures |Encoded(s)| <= 3 * Units(s)
  {
    if s != "" {
      EncodedBound(s[1..]);
    }
  }

  /** The encoder's demand on its text encoding is met by UTF-8. */
  lemma Utf8IsBounded(env: Env)
    requires forall s :: env.utf8(s) == Encoded(s)
    ensures Utf8Bounded(env)
  {
    forall s ensures |env.utf8(s)| <= 3 * Units(s) {
      EncodedBound(s);
    }
  }
}
