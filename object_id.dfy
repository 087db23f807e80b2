/** BSON ObjectIds as backend/main.py uses them: a course id arrives as a
    path string, `ObjectId.is_valid` decides whether it is 24 hexadecimal
    characters, `ObjectId(course_id)` decodes it into twelve bytes, and `str`
    of an ObjectId renders it back as lower-case hexadecimal. */
module ObjectIds {
  import opened Wrappers

  newtype Byte = x: int | 0 <= x < 256

  /** A BSON ObjectId; a well-formed one has twelve bytes. */
  datatype ObjectId = ObjectId(bytes: seq<Byte>)

  predicate WellFormed(oid: ObjectId)
  {
    |oid.bytes| == 12
  }

  predicate IsHexDigit(c: char)
  {
    '0' <= c <= '9' || 'a' <= c <= 'f' || 'A' <= c <= 'F'
  }

  function HexValue(c: char): (v: nat)
    requires IsHexDigit(c)
    ensures v < 16
  {
    if c <= '9' then c as int - '0' as int
    else if c <= 'F' then c as int - 'A' as int + 10
    else c as int - 'a' as int + 10
  }

  /** The lower-case hexadecimal digit for `v`. */
  function HexChar(v: nat): (c: char)
    requires v < 16
    ensures IsHexDigit(c) && HexValue(c) == v
    ensures !('A' <= c <= 'F')
  {
    if v < 10 then ('0' as int + v) as char else ('a' as int + v - 10) as char
  }

  /** ASCII lower-casing of one hexadecimal digit. */
  function LowerHex(c: char): char
  {
    if 'A' <= c <= 'F' then (c as int - 'A' as int + 'a' as int) as char else c
  }

  /** `ObjectId.is_valid(s)` for a string: exactly 24 hexadecimal characters. */
  predicate IsValid(s: string)
  {
    |s| == 24 && forall i :: 0 <= i < |s| ==> IsHexDigit(s[i])
  }

  /** `ObjectId(s)`: byte `i` is the value of the hexadecimal pair at `2i`. */
  function Parse(s: string): (r: Option<ObjectId>)
    ensures r.Some? <==> IsValid(s)
    ensures r.Some? ==> WellFormed(r.value)
  {
    if IsValid(s) then
      Some(ObjectId(seq(12, i requires 0 <= i < 12 => (HexValue(s[2 * i]) * 16 + HexValue(s[2 * i + 1])) as Byte)))
    else None
  }

  /** `str(oid)`: two lower-case hexadecimal digits per byte. */
  function ToHex(oid: ObjectId): (s: string)
    ensures |s| == 2 * |oid.bytes|
    ensures forall i :: 0 <= i < |s| ==> IsHexDigit(s[i]) && !('A' <= s[i] <= 'F')
  {
    seq(2 * |oid.bytes|, i requires 0 <= i < 2 * |oid.bytes| =>
      var b := oid.bytes[i / 2] as int;
      HexChar(if i % 2 == 0 then b / 16 else b % 16))
  }

  /** The two characters that render byte `k`. */
  lemma ToHexPair(oid: ObjectId, k: nat)
    requires k < |oid.bytes|
    ensures var b := oid.bytes[k] as int;
      && ToHex(oid)[2 * k] == HexChar(b / 16)
      && ToHex(oid)[2 * k + 1] == HexChar(b % 16)
  {
    assert (2 * k) / 2 == k && (2 * k) % 2 == 0;
    assert (2 * k + 1) / 2 == k && (2 * k + 1) % 2 == 1;
  }

  lemma HighLow(b: int)
    requires 0 <= b < 256
    ensures b / 16 < 16 && (b / 16) * 16 + b % 16 == b
  {
  }

  /** Rendering a well-formed ObjectId gives a valid id string, and parsing
      that string gives the ObjectId back. */
  lemma ParseToHex(oid: ObjectId)
    requires WellFormed(oid)
    ensures IsValid(ToHex(oid))
    ensures Parse(ToHex(oid)) == Some(oid)
  {
    var s := ToHex(oid);
    var parsed := Parse(s).value.bytes;
    forall k | 0 <= k < 12
      ensures parsed[k] == oid.bytes[k]
    {
      var b := oid.bytes[k] as int;
      ToHexPair(oid, k);
      HighLow(b);
      assert parsed[k] as int == HexValue(s[2 * k]) * 16 + HexValue(s[2 * k + 1]);
    }
    assert parsed == oid.bytes;
  }

  /** The lower-case digit for the value of a digit is that digit in lower case. */
  lemma HexCharOfValue(c: char)
    requires IsHexDigit(c)
    ensures HexChar(HexValue(c)) == LowerHex(c)
  {
  }

  /** The byte decoded from a pair of digits renders as that pair in lower case. */
  lemma PairRendering(hi: char, lo: char)
    requires IsHexDigit(hi) && IsHexDigit(lo)
    ensures var b := HexValue(hi) * 16 + HexValue(lo);
      HexChar(b / 16) == LowerHex(hi) && HexChar(b % 16) == LowerHex(lo)
  {
    var b := HexValue(hi) * 16 + HexValue(lo);
    assert b / 16 == HexValue(hi) && b % 16 == HexValue(lo);
    HexCharOfValue(hi);
    HexCharOfValue(lo);
  }

  /** Parsing a valid id string and rendering the result gives the string
      back up to the case of its letters: ids that differ only in case name
      the same ObjectId. */
  lemma ToHexParse(s: string)
    requires IsValid(s)
    ensures ToHex(Parse(s).value) == seq(|s|, i requires 0 <= i < |s| => LowerHex(s[i]))
  {
    var t := ToHex(Parse(s).value);
    var u := seq(|s|, i requires 0 <= i < |s| => LowerHex(s[i]));
    assert |t| == 24 == |u|;
    forall i | 0 <= i < 24
      ensures t[i] == u[i]
    {
      var k := i / 2;
      PairAt(s, k);
      assert i == 2 * k || i == 2 * k + 1;
    }
  }

  /** The two characters rendering byte `k` of a parsed id. */
  lemma PairAt(s: string, k: nat)
    requires IsValid(s) && k < 12
    ensures var t := ToHex(Parse(s).value);
      t[2 * k] == LowerHex(s[2 * k]) && t[2 * k + 1] == LowerHex(s[2 * k + 1])
  {
    var oid := Parse(s).value;
    var hi, lo := s[2 * k], s[2 * k + 1];
    var b := oid.bytes[k] as int;
    var v := HexValue(hi) * 16 + HexValue(lo);
    ByteOfPair(s, k);
    ToHexPair(oid, k);
    PairRendering(hi, lo);
    assert b == v;
    assert HexChar(b / 16) == HexChar(v / 16) && HexChar(b % 16) == HexChar(v % 16);
  }

  /** Byte `k` of a parsed id is the value of the pair at `2k`. */
  lemma ByteOfPair(s: string, k: nat)
    requires IsValid(s) && k < 12
    ensures Parse(s).value.bytes[k] as int == HexValue(s[2 * k]) * 16 + HexValue(s[2 * k + 1])
  {
  }
}
