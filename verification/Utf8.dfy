/** Texts as the bytes of their UTF-8 encoding (section 3 of RFC 3629). */
module Utf8 {

  /** `str::len`. */
  function ByteLength(text: string): nat {
    if text == "" then 0 else CharLength(text[0]) + ByteLength(text[1..])
  }

  function CharLength(c: char): nat {
    var code := c as int;
    if code < 0x80 then 1 else if code < 0x800 then 2 else if code < 0x1_0000 then 3 else 4
  }

  /** The bytes of a character: what is left of the first byte behind its length, and six bits in each other one. */
  function Bytes(c: char): seq<nat> {
    var code := c as int;
    if code <= 127 then [code]
    else if code <= 2047 then [192 + code / 64, 128 + code % 64]
    else if code <= 65535 then [224 + code / 4096, 128 + code / 64 % 64, 128 + code % 64]
    else [240 + code / 262144, 128 + code / 4096 % 64, 128 + code / 64 % 64, 128 + code % 64]
  }

  function Encoded(text: string): seq<nat> {
    if text == "" then [] else Bytes(text[0]) + Encoded(text[1..])
  }

  lemma {:induction false} ByteLengthIs(text: string)
    ensures ByteLength(text) == |Encoded(text)|
  {
    if text != "" {
      ByteLengthIs(text[1..]);
    }
  }

  /** The first byte tells the length, and the bytes tell the character. */
  lemma BytesTell(c: char)
    ensures var bytes := Bytes(c);
      && (|bytes| == 1 <==> bytes[0] < 0x80) && (|bytes| == 2 <==> 0xC2 <= bytes[0] <= 0xDF)
      && (|bytes| == 3 <==> 0xE0 <= bytes[0] <= 0xEF) && (|bytes| == 4 <==> 0xF0 <= bytes[0] <= 0xF4)
      && (|bytes| == 2 ==> (bytes[0] - 0xC0) * 64 + (bytes[1] - 0x80) == c as int)
      && (|bytes| == 3 ==> ((bytes[0] - 0xE0) * 64 + (bytes[1] - 0x80)) * 64 + (bytes[2] - 0x80) == c as int)
      && (|bytes| == 4 ==>
            (((bytes[0] - 0xF0) * 64 + (bytes[1] - 0x80)) * 64 + (bytes[2] - 0x80)) * 64 + (bytes[3] - 0x80) == c as int)
  {
    var code := c as int;
    assert code / 4096 == code / 64 / 64 && code / 262144 == code / 4096 / 64;
  }
}
