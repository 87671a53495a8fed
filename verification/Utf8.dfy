/** UTF-8 as sections 3 and 4 of RFC 3629 define it, and the decoding functions of Go's unicode/utf8. */
module Utf8 {
  import opened SelfSynchronising

  type Byte = b: int | 0 <= b < 256

  /** A Unicode scalar value: a code point that is not a surrogate. */
  type Rune = r: int | 0 <= r < 0xD800 || 0xE000 <= r < 0x110000

  const RUNE_ERROR: Rune := 0xFFFD

  // ----- encoding: RFC 3629, section 3 -----

  function Encode(r: Rune): (bytes: seq<Byte>)
    ensures 1 <= |bytes| <= 4
  {
    if r < 0x80 then [r]
    else
      var six := r / 64;
      if r < 0x800 then [0xC0 + six, 0x80 + r % 64]
      else
        var twelve := six / 64;
        if r < 0x10000 then [0xE0 + twelve, 0x80 + six % 64, 0x80 + r % 64]
        else [0xF0 + twelve / 64, 0x80 + twelve % 64, 0x80 + six % 64, 0x80 + r % 64]
  }

  function EncodeAll(rs: seq<Rune>): seq<Byte> {
    FlatMap(Encode, rs)
  }

  // ----- decoding: the syntax of RFC 3629, section 4 -----

  predicate Tail(b: Byte) {
    0x80 <= b < 0xC0
  }

  /** How many bytes a sequence takes that starts with this byte, 0 for a byte that starts none. */
  function LeadWidth(b: Byte): nat {
    if b < 0x80 then 1 else if 0xC2 <= b < 0xE0 then 2 else if 0xE0 <= b < 0xF0 then 3 else if 0xF0 <= b < 0xF5 then 4
    else 0
  }

  /** The second byte is narrowed after E0, ED, F0 and F4: no overlong form, no surrogate, nothing past 10FFFF. */
  predicate Second(lead: Byte, b: Byte) {
    && Tail(b)
    && (lead == 0xE0 ==> b >= 0xA0) && (lead == 0xED ==> b < 0xA0)
    && (lead == 0xF0 ==> b >= 0x90) && (lead == 0xF4 ==> b < 0x90)
  }

  /** The width of the well-formed sequence at the front, 0 when there is none. */
  function Width(s: seq<Byte>): (w: nat)
    ensures w <= |s| && w <= 4
  {
    if s == [] then 0
    else
      var w := LeadWidth(s[0]);
      if |s| < w || (w >= 2 && !Second(s[0], s[1])) || (w >= 3 && !Tail(s[2])) || (w == 4 && !Tail(s[3])) then 0 else w
  }

  function Two(a: int, b: int): int {
    (a - 0xC0) * 64 + (b - 0x80)
  }

  function Three(a: int, b: int, c: int): int {
    (a - 0xE0) * 4096 + (b - 0x80) * 64 + (c - 0x80)
  }

  function Four(a: int, b: int, c: int, d: int): int {
    (a - 0xF0) * 262144 + (b - 0x80) * 4096 + (c - 0x80) * 64 + (d - 0x80)
  }

  function Value(s: seq<Byte>): (r: Rune)
    requires Width(s) > 0
  {
    match Width(s)
    case 1 => s[0]
    case 2 => Two(s[0], s[1])
    case 3 => Three(s[0], s[1], s[2])
    case _ => Four(s[0], s[1], s[2], s[3])
  }

  datatype Decoded = Decoded(rune: Rune, width: nat)

  /** utf8.DecodeRuneInString. */
  function DecodeFirst(s: seq<Byte>): Decoded {
    if s == [] then Decoded(RUNE_ERROR, 0)
    else if Width(s) == 0 then Decoded(RUNE_ERROR, 1)
    else Decoded(Value(s), Width(s))
  }

  /** The scan for a start byte in utf8.DecodeLastRuneInString. */
  function BackToStart(s: seq<Byte>, start: int, limit: nat): (r: int)
    requires start < |s|
    ensures r <= start
    decreases start
  {
    if start < limit || !Tail(s[start]) then start else BackToStart(s, start - 1, limit)
  }

  /** utf8.DecodeLastRuneInString. */
  function DecodeLast(s: seq<Byte>): Decoded {
    if s == [] then Decoded(RUNE_ERROR, 0)
    else if s[|s| - 1] < 0x80 then Decoded(s[|s| - 1], 1)
    else
      var found := BackToStart(s, |s| - 2, if |s| < 4 then 0 else |s| - 4);
      var start := if found < 0 then 0 else found;
      var d := DecodeFirst(s[start..]);
      if start + d.width != |s| then Decoded(RUNE_ERROR, 1) else d
  }

  /** utf8.ValidString. */
  predicate Valid(s: seq<Byte>) {
    s == [] || (Width(s) > 0 && Valid(s[Width(s)..]))
  }

  function Runes(s: seq<Byte>): seq<Rune>
    requires Valid(s)
  {
    if s == [] then [] else [Value(s)] + Runes(s[Width(s)..])
  }

  // ----- encoding and decoding undo each other -----

  lemma DecodeEncoded(r: Rune, rest: seq<Byte>)
    ensures Width(Encode(r) + rest) == |Encode(r)|
    ensures Value(Encode(r) + rest) == r
  {
    var e := Encode(r);
    var s := e + rest;
    assert s[0] == e[0];
    if r < 0x80 {
    } else if r < 0x800 {
      assert s[1] == e[1];
      assert Width(s) == 2;
    } else if r < 0x10000 {
      assert s[1] == e[1] && s[2] == e[2];
      assert Width(s) == 3;
    } else {
      assert s[1] == e[1] && s[2] == e[2] && s[3] == e[3];
      assert Width(s) == 4;
    }
  }

  lemma TwoBytes(a: Byte, b: Byte)
    requires 0xC2 <= a < 0xE0 && Tail(b)
    ensures 0x80 <= Two(a, b) < 0x800 && Encode(Two(a, b)) == [a, b]
  {
  }

  lemma ThreeBytes(a: Byte, b: Byte, c: Byte)
    requires 0xE0 <= a < 0xF0 && Second(a, b) && Tail(c)
    ensures 0x800 <= Three(a, b, c) < 0x10000 && !(0xD800 <= Three(a, b, c) < 0xE000)
    ensures Encode(Three(a, b, c)) == [a, b, c]
  {
    var r := Three(a, b, c);
    assert r == 64 * ((a - 0xE0) * 64 + (b - 0x80)) + (c - 0x80);
    assert r / 64 == (a - 0xE0) * 64 + (b - 0x80);
  }

  lemma FourBytes(a: Byte, b: Byte, c: Byte, d: Byte)
    requires 0xF0 <= a < 0xF5 && Second(a, b) && Tail(c) && Tail(d)
    ensures 0x10000 <= Four(a, b, c, d) < 0x110000
    ensures Encode(Four(a, b, c, d)) == [a, b, c, d]
  {
    var r := Four(a, b, c, d);
    var twelve := (a - 0xF0) * 64 + (b - 0x80);
    var six := 64 * twelve + (c - 0x80);
    assert r == 64 * six + (d - 0x80);
    assert r / 64 == six && six / 64 == twelve;
  }

  lemma EncodeDecoded(s: seq<Byte>)
    requires Width(s) > 0
    ensures Encode(Value(s)) == s[..Width(s)]
  {
    match Width(s)
    case 1 => assert Encode(s[0]) == [s[0]];
    case 2 => TwoBytes(s[0], s[1]);
    case 3 => ThreeBytes(s[0], s[1], s[2]);
    case _ => FourBytes(s[0], s[1], s[2], s[3]);
  }

  lemma {:induction false} RunesEncode(rs: seq<Rune>)
    ensures Valid(EncodeAll(rs)) && Runes(EncodeAll(rs)) == rs
  {
    if rs != [] {
      RunesEncode(rs[1..]);
      DecodeEncoded(rs[0], EncodeAll(rs[1..]));
      assert EncodeAll(rs)[|Encode(rs[0])|..] == EncodeAll(rs[1..]);
    }
  }

  lemma EncodeCons(r: Rune, rest: seq<Rune>)
    ensures EncodeAll([r] + rest) == Encode(r) + EncodeAll(rest)
  {
    assert ([r] + rest)[1..] == rest;
  }

  lemma {:induction false} EncodeRunes(s: seq<Byte>)
    requires Valid(s)
    ensures EncodeAll(Runes(s)) == s
  {
    if s != [] {
      var rest := s[Width(s)..];
      EncodeRunes(rest);
      EncodeDecoded(s);
      EncodeCons(Value(s), Runes(rest));
    }
  }

  /** Valid strings are exactly the encodings of rune sequences, and decoding is the inverse of encoding. */
  lemma ValidIffEncoded(s: seq<Byte>)
    ensures Valid(s) <==> exists rs :: EncodeAll(rs) == s
    ensures forall rs :: EncodeAll(rs) == s ==> Valid(s) && Runes(s) == rs
  {
    if Valid(s) { EncodeRunes(s); }
    forall rs | EncodeAll(rs) == s ensures Valid(s) && Runes(s) == rs { RunesEncode(rs); }
  }

  // ----- cutting and joining -----

  lemma WidthOfPrefix(a: seq<Byte>, b: seq<Byte>)
    requires Width(a) > 0
    ensures Width(a + b) == Width(a) && Value(a + b) == Value(a)
    ensures (a + b)[Width(a)..] == a[Width(a)..] + b
  {
    assert forall i :: 0 <= i < Width(a) ==> (a + b)[i] == a[i];
  }

  lemma {:induction false} Joined(a: seq<Byte>, b: seq<Byte>)
    requires Valid(a)
    ensures Valid(a + b) <==> Valid(b)
    ensures Valid(b) ==> Runes(a + b) == Runes(a) + Runes(b)
  {
    if a == [] {
      assert a + b == b;
    } else {
      WidthOfPrefix(a, b);
      Joined(a[Width(a)..], b);
    }
  }

  lemma TailsFollow(s: seq<Byte>)
    requires Width(s) > 0
    ensures !Tail(s[0]) && forall j :: 1 <= j < Width(s) ==> Tail(s[j])
  {
  }

  lemma FirstRune(s: seq<Byte>)
    requires Width(s) > 0
    ensures Width(s[..Width(s)]) == Width(s) && Valid(s[..Width(s)]) && Runes(s[..Width(s)]) == [Value(s)]
  {
    var a := s[..Width(s)];
    assert a[Width(s)..] == [];
    assert Value(a) == Value(s);
  }

  lemma LongerPrefixValid(s: seq<Byte>, j: nat)
    requires Width(s) > 0 && j <= |s| - Width(s) && Valid(s[Width(s)..][..j])
    ensures Valid(s[..Width(s) + j])
  {
    var w := Width(s);
    PrefixValid(s, s[w..][..j]);
    assert s[..w + j] == s[..w] + s[w..][..j];
  }

  lemma CutBehindFirst(s: seq<Byte>, i: nat)
    requires 0 < Width(s) <= i <= |s|
    requires Valid(s[Width(s)..][..i - Width(s)]) && Valid(s[Width(s)..][i - Width(s)..])
    ensures Valid(s[..i]) && Valid(s[i..])
  {
    LongerPrefixValid(s, i - Width(s));
    assert s[i..] == s[Width(s)..][i - Width(s)..];
  }

  /** Self-synchronisation: in valid text every byte that is not a tail starts a rune. */
  lemma {:induction false} Synchronised(s: seq<Byte>, i: nat)
    requires Valid(s) && i <= |s| && (i == |s| || !Tail(s[i]))
    ensures Valid(s[..i]) && Valid(s[i..])
  {
    if i == 0 {
      assert s[i..] == s;
    } else {
      var w := Width(s);
      assert i >= w by { TailsFollow(s); }
      Synchronised(s[w..], i - w);
      CutBehindFirst(s, i);
    }
  }

  lemma PrefixValid(s: seq<Byte>, more: seq<Byte>)
    requires Width(s) > 0 && Valid(more)
    ensures Valid(s[..Width(s)] + more)
  {
    FirstRune(s);
    Joined(s[..Width(s)], more);
  }

  /** The byte offset of a rune. */
  lemma {:induction false} CutAtRune(s: seq<Byte>, k: nat) returns (i: nat)
    requires Valid(s) && k <= |Runes(s)|
    ensures i <= |s| && Valid(s[..i]) && Valid(s[i..])
    ensures Runes(s[..i]) == Runes(s)[..k] && Runes(s[i..]) == Runes(s)[k..]
  {
    var rs := Runes(s);
    EncodeRunes(s);
    RunesEncode(rs[..k]);
    RunesEncode(rs[k..]);
    EncodeConcat(rs[..k], rs[k..]);
    assert rs[..k] + rs[k..] == rs;
    i := |EncodeAll(rs[..k])|;
    assert s[..i] == EncodeAll(rs[..k]) && s[i..] == EncodeAll(rs[k..]);
  }

  lemma EncodeConcat(a: seq<Rune>, b: seq<Rune>)
    ensures EncodeAll(a + b) == EncodeAll(a) + EncodeAll(b)
  {
    FlatMapConcat(Encode, a, b);
  }

  lemma OneRuneIsWhole(s: seq<Byte>)
    requires Valid(s) && |Runes(s)| == 1
    ensures Width(s) == |s| && Runes(s) == [Value(s)]
  {
    assert Runes(s[Width(s)..]) == [];
  }

  /** The last rune of a valid string starts at most four bytes from the end, with tails after it. */
  lemma {:induction false} LastRuneStart(s: seq<Byte>) returns (i: nat)
    requires Valid(s) && s != []
    ensures i < |s| <= i + 4 && Width(s[i..]) == |s| - i && Valid(s[..i])
    ensures !Tail(s[i]) && forall j :: i < j < |s| ==> Tail(s[j])
    ensures Runes(s) == Runes(s[..i]) + [Value(s[i..])]
  {
    i := CutAtRune(s, |Runes(s)| - 1);
    var last := s[i..];
    OneRuneIsWhole(last);
    TailsFollow(last);
    assert Runes(s) == Runes(s)[..|Runes(s)| - 1] + Runes(s)[|Runes(s)| - 1..];
    assert forall j :: i < j < |s| ==> s[j] == last[j - i];
  }

  /** On a valid string the decoders return the first and the last rune. */
  lemma DecodersAgree(s: seq<Byte>)
    requires Valid(s) && s != []
    ensures Runes(s) != []
    ensures DecodeFirst(s).rune == Runes(s)[0]
    ensures DecodeLast(s).rune == Runes(s)[|Runes(s)| - 1]
  {
    var i := LastRuneStart(s);
    if s[|s| - 1] < 0x80 {
      assert i == |s| - 1;
    } else {
      var limit := if |s| < 4 then 0 else |s| - 4;
      StartFound(s, |s| - 2, limit, i);
    }
  }

  lemma {:induction false} StartFound(s: seq<Byte>, start: int, limit: nat, i: nat)
    requires limit <= i <= start < |s| && !Tail(s[i]) && forall j :: i < j <= start ==> Tail(s[j])
    ensures BackToStart(s, start, limit) == i
    decreases start
  {
    if i < start { StartFound(s, start - 1, limit, i); }
  }

  /** Below any offset of a valid string there is a rune boundary at most three bytes away. */
  lemma BoundaryNear(s: seq<Byte>, n: nat)
    requires Valid(s) && n <= |s|
    ensures exists m: nat :: n <= m + 3 && m <= n && Valid(s[..m])
    decreases |s|
  {
    if n == 0 || n == |s| {
      assert s[..n] == if n == 0 then [] else s;
    } else if Width(s) > n {
      assert s[..0] == [];
    } else {
      var w := Width(s);
      BoundaryNear(s[w..], n - w);
      var m: nat :| n - w <= m + 3 && m <= n - w && Valid(s[w..][..m]);
      LongerPrefixValid(s, m);
    }
  }

  // ----- UTF-8 as an encoding -----

  /** The decoded runes; nothing for a malformed string. */
  function Decode(s: seq<Byte>): seq<Rune> {
    if Valid(s) then Runes(s) else []
  }

  function Encoded(): Encoding<Byte, Rune> {
    Encoding(s => Valid(s), s => Decode(s), s => DecodeFirst(s).rune, s => DecodeLast(s).rune, b => Tail(b))
  }

  lemma JoinsEverywhere(a: seq<Byte>, b: seq<Byte>)
    ensures JoinsAt(Encoded(), a, b)
  {
    if Valid(a) { Joined(a, b); }
  }

  lemma EndsEverywhere(s: seq<Byte>)
    ensures EndsAt(Encoded(), s)
  {
    if Valid(s) && s != [] {
      DecodersAgree(s);
      TailsFollow(s);
    }
  }

  lemma SynchronisesEverywhere(s: seq<Byte>, i: nat)
    ensures SynchronisesAt(Encoded(), s, i)
  {
    if Valid(s) && i <= |s| && (i == |s| || !Tail(s[i])) { Synchronised(s, i); }
  }

  lemma CutsEverywhere(s: seq<Byte>, k: nat)
    ensures CutsAt(Encoded(), s, k)
  {
    if Valid(s) && k <= |Runes(s)| {
      var i := CutAtRune(s, k);
      assert CutAt(Encoded(), s, i, k);
    }
  }

  lemma InjectiveEverywhere(a: seq<Byte>, b: seq<Byte>)
    ensures InjectiveAt(Encoded(), a, b)
  {
    if Valid(a) && Valid(b) && Runes(a) == Runes(b) {
      EncodeRunes(a);
      EncodeRunes(b);
    }
  }

  /** UTF-8 synchronises itself: an occurrence of valid text in valid text is an occurrence of its runes. */
  lemma EncodedIsSound()
    ensures Sound(Encoded())
  {
    forall a, b ensures JoinsAt(Encoded(), a, b) { JoinsEverywhere(a, b); }
    forall s ensures EndsAt(Encoded(), s) { EndsEverywhere(s); }
    forall s, i: nat ensures SynchronisesAt(Encoded(), s, i) { SynchronisesEverywhere(s, i); }
    forall s, k: nat ensures CutsAt(Encoded(), s, k) { CutsEverywhere(s, k); }
    forall a, b ensures InjectiveAt(Encoded(), a, b) { InjectiveEverywhere(a, b); }
  }
}
