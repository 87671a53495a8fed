/** Account identifiers: sixteen bytes and their canonical text, section 3 of RFC 4122; fresh ones are version 4,
    section 4.4. Text is a sequence of characters, each one byte. */
module AccountId {
  import opened Options
  import Utf8

  type Byte = Utf8.Byte

  const ID_LENGTH := 16

  type Id = s: seq<Byte> | |s| == 16 witness seq(16, i => 0)

  function Zero(): Id {
    seq(16, i => 0)
  }

  // ----- hexadecimal -----

  function HexDigit(n: nat): char
    requires n < 16
  {
    if n < 10 then '0' + n as char else 'a' + (n - 10) as char
  }

  function HexValue(c: char): Option<nat> {
    if '0' <= c <= '9' then Some(c as int - '0' as int)
    else if 'a' <= c <= 'f' then Some(c as int - 'a' as int + 10)
    else if 'A' <= c <= 'F' then Some(c as int - 'A' as int + 10)
    else None
  }

  function EncodeHex(bytes: seq<Byte>): (r: string)
    ensures |r| == 2 * |bytes|
  {
    if bytes == [] then ""
    else [HexDigit(bytes[0] / 16), HexDigit(bytes[0] % 16)] + EncodeHex(bytes[1..])
  }

  /** hex.DecodeString: both cases are accepted, an odd length or another character is an error. */
  function DecodeHex(s: string): Option<seq<Byte>> {
    if s == "" then Some([])
    else if |s| == 1 then None
    else
      var high, low, rest := HexValue(s[0]), HexValue(s[1]), DecodeHex(s[2..]);
      if high.None? || low.None? || rest.None? || high.value >= 16 || low.value >= 16 then None
      else Some([16 * high.value + low.value] + rest.value)
  }

  predicate IsUpper(c: char) {
    'A' <= c <= 'Z'
  }

  /** The text equals its lower-cased form; text with other characters is rejected by the decoder. */
  predicate IsLower(s: string) {
    forall i :: 0 <= i < |s| ==> !IsUpper(s[i])
  }

  lemma HexRoundTrip(n: nat)
    requires n < 16
    ensures HexValue(HexDigit(n)) == Some(n) && !IsUpper(HexDigit(n)) && HexDigit(n) != '-'
  {
    if n < 10 {
      assert HexDigit(n) as int == '0' as int + n;
    } else {
      assert HexDigit(n) as int == 'a' as int + (n - 10);
    }
  }

  lemma DigitRoundTrip(c: char)
    requires HexValue(c).Some? && !IsUpper(c)
    ensures HexValue(c).value < 16 && HexDigit(HexValue(c).value) == c
  {
    var n := HexValue(c).value;
    if c <= '9' {
      assert HexDigit(n) as int == '0' as int + n;
    } else {
      assert HexDigit(n) as int == 'a' as int + (n - 10);
    }
  }

  lemma PairRoundTrip(high: char, low: char, b: Byte)
    requires HexValue(high).Some? && !IsUpper(high) && HexValue(low).Some? && !IsUpper(low)
    requires b == 16 * HexValue(high).value + HexValue(low).value
    ensures [HexDigit(b / 16), HexDigit(b % 16)] == [high, low]
  {
    DigitRoundTrip(high);
    DigitRoundTrip(low);
    assert b / 16 == HexValue(high).value && b % 16 == HexValue(low).value;
  }

  lemma {:induction false} DecodeEncoded(bytes: seq<Byte>)
    ensures DecodeHex(EncodeHex(bytes)) == Some(bytes) && IsLower(EncodeHex(bytes))
  {
    if bytes != [] {
      DecodeEncoded(bytes[1..]);
      HexRoundTrip(bytes[0] / 16);
      HexRoundTrip(bytes[0] % 16);
      var head, rest := [HexDigit(bytes[0] / 16), HexDigit(bytes[0] % 16)], EncodeHex(bytes[1..]);
      assert (head + rest)[2..] == rest;
      assert bytes == [bytes[0]] + bytes[1..];
    }
  }

  lemma {:induction false} EncodeDecoded(s: string)
    requires DecodeHex(s).Some? && IsLower(s)
    ensures EncodeHex(DecodeHex(s).value) == s
  {
    if s != "" {
      forall i | 0 <= i < |s[2..]| ensures !IsUpper(s[2..][i]) { assert s[2..][i] == s[i + 2]; }
      EncodeDecoded(s[2..]);
      var bytes := DecodeHex(s).value;
      PairRoundTrip(s[0], s[1], bytes[0]);
      assert bytes[1..] == DecodeHex(s[2..]).value;
      assert s == [s[0], s[1]] + s[2..];
    }
  }

  // ----- identifiers -----

  function Compact(raw: string): string
    requires |raw| == 36
  {
    raw[0..8] + raw[9..13] + raw[14..18] + raw[19..23] + raw[24..36]
  }

  function Hyphenated(encoded: string): string
    requires |encoded| == 32
  {
    encoded[0..8] + "-" + encoded[8..12] + "-" + encoded[12..16] + "-" + encoded[16..20] + "-" + encoded[20..32]
  }

  function ParseID(raw: string): Option<Id> {
    if |raw| != 36 || raw[8] != '-' || raw[13] != '-' || raw[18] != '-' || raw[23] != '-' || !IsLower(raw) then None
    else
      var decoded := DecodeHex(Compact(raw));
      if decoded.None? || |decoded.value| != ID_LENGTH || decoded.value == Zero() then None
      else Some(decoded.value)
  }

  function String(id: Id): string {
    Hyphenated(EncodeHex(id))
  }

  lemma CompactOfHyphenated(encoded: string)
    requires |encoded| == 32
    ensures |Hyphenated(encoded)| == 36 && Compact(Hyphenated(encoded)) == encoded
    ensures IsLower(encoded) ==> IsLower(Hyphenated(encoded))
  {
    var h := Hyphenated(encoded);
    assert h[0..8] == encoded[0..8] && h[9..13] == encoded[8..12] && h[14..18] == encoded[12..16];
    assert h[19..23] == encoded[16..20] && h[24..36] == encoded[20..32];
  }

  lemma HyphenatedOfCompact(raw: string)
    requires |raw| == 36 && raw[8] == '-' && raw[13] == '-' && raw[18] == '-' && raw[23] == '-'
    ensures Hyphenated(Compact(raw)) == raw
    ensures IsLower(raw) ==> IsLower(Compact(raw))
  {
    var c := Compact(raw);
    assert c[0..8] == raw[0..8] && c[8..12] == raw[9..13] && c[12..16] == raw[14..18];
    assert c[16..20] == raw[19..23] && c[20..32] == raw[24..36];
  }

  /** Printing and parsing: every non-zero id is read back. */
  lemma ParseOfString(id: Id)
    requires id != Zero()
    ensures ParseID(String(id)) == Some(id)
  {
    DecodeEncoded(id);
    CompactOfHyphenated(EncodeHex(id));
  }

  /** Parsing and printing: what is accepted is already canonical. */
  lemma StringOfParse(raw: string)
    requires ParseID(raw).Some?
    ensures String(ParseID(raw).value) == raw && ParseID(raw).value != Zero()
  {
    HyphenatedOfCompact(raw);
    EncodeDecoded(Compact(raw));
  }

  /** Accepted strings and non-zero ids correspond one to one. */
  lemma AcceptedIffPrinted(raw: string)
    ensures ParseID(raw).Some? <==> exists id: Id :: id != Zero() && String(id) == raw
  {
    if ParseID(raw).Some? {
      StringOfParse(raw);
      assert String(ParseID(raw).value) == raw;
    }
    if id: Id :| id != Zero() && String(id) == raw { ParseOfString(id); }
  }

  /** newID over sixteen random bytes: clearing and setting bits of bytes 6 and 8. */
  method NewID(random: seq<Byte>) returns (r: Option<Id>)
    ensures r.None? <==> |random| < ID_LENGTH
    ensures r.Some? ==>
      && r.value[6] / 16 == 4 && r.value[6] % 16 == random[6] % 16
      && r.value[8] / 64 == 2 && r.value[8] % 64 == random[8] % 64
      && (forall i :: 0 <= i < ID_LENGTH && i != 6 && i != 8 ==> r.value[i] == random[i])
    ensures r.Some? ==> ParseID(String(r.value)) == r
  {
    if |random| < ID_LENGTH { return None; }
    var id := new Byte[ID_LENGTH](i requires 0 <= i < ID_LENGTH => random[i]);
    id[6] := id[6] % 16 + 0x40;
    id[8] := id[8] % 64 + 0x80;
    var identifier: Id := id[..];
    assert identifier[6] != Zero()[6];
    ParseOfString(identifier);
    return Some(identifier);
  }
}
