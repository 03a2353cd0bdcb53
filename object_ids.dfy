/** Document identifiers and their 24-digit hexadecimal spelling. */
module ObjectIds {
  import opened Outcomes

  newtype byte = x: int | 0 <= x < 256

  /** The twelve raw bytes of a document identifier. */
  type ObjectId = b: seq<byte> | |b| == 12 witness [0, 0, 0, 0, 0, 0, 0, 0, 0, 0, 0, 0]

  /** Hexadecimal digits are accepted in either case. */
  predicate IsHexDigit(c: char) {
    ('0' <= c <= '9') || ('a' <= c <= 'f') || ('A' <= c <= 'F')
  }

  function HexDigitValue(c: char): (v: nat)
    requires IsHexDigit(c)
    ensures v < 16
  {
    if '0' <= c <= '9' then c as int - '0' as int
    else if 'a' <= c <= 'f' then c as int - 'a' as int + 10
    else c as int - 'A' as int + 10
  }

  /** The lower-case digit for a value below 16. */
  function HexDigit(d: nat): (c: char)
    requires d < 16
    ensures IsHexDigit(c) && HexDigitValue(c) == d
  {
    if d < 10 then ('0' as int + d) as char else ('a' as int + d - 10) as char
  }

  /** The strings the store's id parser accepts: exactly 24 hexadecimal digits. */
  predicate ValidObjectIdHex(s: string) {
    |s| == 24 && forall i :: 0 <= i < |s| ==> IsHexDigit(s[i])
  }

  /** Decodes pairs of digits into bytes, the high nibble first. */
  function DecodeHex(s: string): (b: seq<byte>)
    requires |s| % 2 == 0
    requires forall i :: 0 <= i < |s| ==> IsHexDigit(s[i])
    ensures |b| == |s| / 2
    ensures forall k :: 0 <= k < |b| ==>
      b[k] as int == 16 * HexDigitValue(s[2 * k]) + HexDigitValue(s[2 * k + 1])
    decreases |s|
  {
    if s == [] then []
    else [(16 * HexDigitValue(s[0]) + HexDigitValue(s[1])) as byte] + DecodeHex(s[2..])
  }

  /** Encodes bytes as lower-case digit pairs; decoding gives the bytes back. */
  function EncodeHex(b: seq<byte>): (s: string)
    ensures |s| == 2 * |b|
    ensures forall i :: 0 <= i < |s| ==> IsHexDigit(s[i])
    ensures DecodeHex(s) == b
  {
    if b == [] then []
    else
      var rest := EncodeHex(b[1..]);
      var hi, lo := b[0] as int / 16, b[0] as int % 16;
      var s := [HexDigit(hi), HexDigit(lo)] + rest;
      assert s[2..] == rest;
      assert DecodeHex(s) == [(16 * hi + lo) as byte] + DecodeHex(rest);
      assert 16 * hi + lo == b[0] as int;
      assert b == [b[0]] + b[1..];
      s
  }

  /**
   * Parsing an id string: fails exactly on the strings that are not 24
   * hexadecimal digits, and otherwise reads byte k from digits 2k and 2k+1.
   */
  function ParseObjectId(s: string): (r: Option<ObjectId>)
    ensures r.Some? <==> ValidObjectIdHex(s)
    ensures ValidObjectIdHex(s) ==> r.Some? && forall k :: 0 <= k < 12 ==>
      r.value[k] as int == 16 * HexDigitValue(s[2 * k]) + HexDigitValue(s[2 * k + 1])
  {
    if ValidObjectIdHex(s) then Some(DecodeHex(s)) else None
  }

  /** The canonical spelling of an id, which parses back to the same id. */
  function ObjectIdHex(id: ObjectId): (s: string)
    ensures ValidObjectIdHex(s)
    ensures ParseObjectId(s) == Some(id)
  {
    EncodeHex(id)
  }
}
