/** The text evidence of the rule engine: cutting text to a byte budget and finding terms in it. */
module AnalysisText {
  import opened SelfSynchronising
  import opened Utf8

  type Text = seq<Byte>

  /** What the standard library knows about characters and the model does not: letters, digits and the underscore
      count as term characters; lower-casing rewrites malformed bytes; trimming removes white space. */
  datatype Characters = Characters(isTermCharacter: Rune -> bool, lower: Text -> Text, trim: Text -> Text) {
    ghost predicate Sound() {
      && (forall s :: Valid(lower(s)))
      && (forall s :: Valid(s) ==> Valid(trim(s)))
    }
  }

  // ----- searching -----

  /** strings.Index. */
  method Index(text: Text, term: Text) returns (index: int)
    ensures index >= 0 ==> OccursAt(text, term, index) && forall j :: 0 <= j < index ==> !OccursAt(text, term, j)
    ensures index < 0 ==> forall j :: !OccursAt(text, term, j)
  {
    index := 0;
    while index + |term| <= |text|
      invariant 0 <= index
      invariant forall j :: 0 <= j < index ==> !OccursAt(text, term, j)
      decreases |text| - index
    {
      if text[index..index + |term|] == term { return; }
      index := index + 1;
    }
    index := -1;
  }

  ghost predicate NonAscii(value: Text) {
    exists i :: 0 <= i < |value| && value[i] >= 0x80
  }

  method ContainsNonAscii(value: Text) returns (r: bool)
    ensures r <==> NonAscii(value)
  {
    var offset := 0;
    while offset < |value|
      invariant 0 <= offset <= |value|
      invariant forall i :: 0 <= i < offset ==> value[i] < 0x80
    {
      var character := DecodeFirst(value[offset..]);
      if character.rune > 0x7F { return true; }
      offset := offset + character.width;
    }
    return false;
  }

  function DecodeRuneBefore(value: Text, index: nat): Rune
    requires index <= |value|
  {
    DecodeLast(value[..index]).rune
  }

  function DecodeRuneAt(value: Text, index: nat): Rune
    requires index <= |value|
  {
    DecodeFirst(value[index..]).rune
  }

  /** The term occurs at this byte and no term character touches it. */
  predicate MatchesAt(isTermCharacter: Rune -> bool, text: Text, term: Text, i: int) {
    && OccursAt(text, term, i)
    && (i == 0 || !isTermCharacter(DecodeRuneBefore(text, i)))
    && (i + |term| == |text| || !isTermCharacter(DecodeRuneAt(text, i + |term|)))
  }

  /** What the byte search looks for. */
  ghost predicate Mentions(isTermCharacter: Rune -> bool, text: Text, term: Text) {
    && text != [] && term != []
    && if NonAscii(term) then (exists i :: OccursAt(text, term, i))
       else (exists i :: MatchesAt(isTermCharacter, text, term, i))
  }

  /** The byte search, which on valid text answers the question about runes. */
  method ContainsNormalizedTerm(c: Characters, text: Text, rawTerm: Text) returns (found: bool)
    requires c.Sound()
    ensures found <==> Mentions(c.isTermCharacter, text, c.lower(c.trim(rawTerm)))
    ensures Valid(text) ==> (found <==> RunesMention(c.isTermCharacter, Runes(text), Runes(c.lower(c.trim(rawTerm)))))
  {
    var term := c.lower(c.trim(rawTerm));
    if Valid(text) { MentionIsRuneMatch(c.isTermCharacter, text, term); }
    if text == [] || term == [] { return false; }
    var nonAscii := ContainsNonAscii(term);
    if nonAscii {
      var at := Index(text, term);
      return at >= 0;
    }
    var offset := 0;
    while offset < |text|
      invariant 0 <= offset <= |text|
      invariant forall j :: 0 <= j < offset ==> !MatchesAt(c.isTermCharacter, text, term, j)
      decreases |text| - offset
    {
      var index := Index(text[offset..], term);
      NothingBefore(text, term, offset, index);
      if index < 0 { return false; }
      index := index + offset;
      var beforeOk := index == 0 || !c.isTermCharacter(DecodeRuneBefore(text, index));
      var afterIndex := index + |term|;
      var afterOk := afterIndex == |text| || !c.isTermCharacter(DecodeRuneAt(text, afterIndex));
      if beforeOk && afterOk {
        assert MatchesAt(c.isTermCharacter, text, term, index);
        return true;
      }
      offset := index + 1;
    }
    return false;
  }

  /** Searching a suffix says where the whole text has no occurrence. */
  lemma NothingBefore(text: Text, term: Text, offset: nat, index: int)
    requires offset <= |text| && term != []
    requires index >= 0 ==> OccursAt(text[offset..], term, index)
    requires forall j :: 0 <= j && (index < 0 || j < index) ==> !OccursAt(text[offset..], term, j)
    ensures index >= 0 ==> OccursAt(text, term, index + offset)
    ensures forall j :: offset <= j && (index < 0 || j < index + offset) ==> !OccursAt(text, term, j)
  {
    if index >= 0 { OccursInSuffix(text, term, offset, index + offset); }
    forall j | offset <= j && (index < 0 || j < index + offset) ensures !OccursAt(text, term, j) {
      OccursInSuffix(text, term, offset, j);
      assert !OccursAt(text[offset..], term, j - offset);
    }
  }

  lemma OccursInSuffix(text: Text, term: Text, offset: nat, j: int)
    requires offset <= |text| && offset <= j
    ensures OccursAt(text, term, j) <==> OccursAt(text[offset..], term, j - offset)
  {
    if j + |term| <= |text| {
      assert text[offset..][j - offset..j - offset + |term|] == text[j..j + |term|];
    }
  }

  // ----- the same question about runes -----

  ghost predicate HasNonAscii(runes: seq<Rune>) {
    exists r :: r in runes && r > 0x7F
  }

  lemma HasNonAsciiCons(rs: seq<Rune>)
    requires rs != []
    ensures HasNonAscii(rs) <==> rs[0] > 0x7F || HasNonAscii(rs[1..])
  {
    if rs[0] > 0x7F { assert rs[0] in rs; }
    if r :| r in rs[1..] && r > 0x7F { assert r in rs; }
    if r :| r in rs && r > 0x7F && r != rs[0] { assert r in rs[1..]; }
  }

  lemma {:induction false} NonAsciiRunes(rs: seq<Rune>)
    ensures NonAscii(EncodeAll(rs)) <==> HasNonAscii(rs)
  {
    if rs != [] {
      var head, rest := Encode(rs[0]), EncodeAll(rs[1..]);
      NonAsciiRunes(rs[1..]);
      NonAsciiConcat(head, rest);
      assert head[0] >= 0x80 <==> rs[0] > 0x7F;
      HasNonAsciiCons(rs);
    }
  }

  lemma NonAsciiConcat(a: Text, b: Text)
    ensures NonAscii(a + b) <==> NonAscii(a) || NonAscii(b)
  {
    if i :| 0 <= i < |a| && a[i] >= 0x80 { assert (a + b)[i] == a[i]; }
    if i :| 0 <= i < |b| && b[i] >= 0x80 { assert (a + b)[|a| + i] == b[i]; }
    if i :| 0 <= i < |a + b| && (a + b)[i] >= 0x80 {
      if i < |a| { assert a[i] >= 0x80; } else { assert b[i - |a|] >= 0x80; }
    }
  }

  /** The term stands at rune k of the text; an ASCII term also stands alone. */
  ghost predicate RunesMatchAt(isTermCharacter: Rune -> bool, text: seq<Rune>, term: seq<Rune>, k: nat) {
    && OccursAt(text, term, k)
    && (HasNonAscii(term) || AloneInRunes(isTermCharacter, text, k, k + |term|))
  }

  ghost predicate RunesMention(isTermCharacter: Rune -> bool, text: seq<Rune>, term: seq<Rune>) {
    term != [] && exists k: nat :: RunesMatchAt(isTermCharacter, text, term, k)
  }

  /** Main result: on valid text the byte search answers the question about runes. */
  lemma MentionIsRuneMatch(isTermCharacter: Rune -> bool, text: Text, term: Text)
    requires Valid(text) && Valid(term)
    ensures Mentions(isTermCharacter, text, term) <==> RunesMention(isTermCharacter, Runes(text), Runes(term))
  {
    EncodedIsSound();
    EncodeRunes(term);
    NonAsciiRunes(Runes(term));
    if term != [] {
      if Mentions(isTermCharacter, text, term) { MentionDecoded(isTermCharacter, text, term); }
      if k: nat :| RunesMatchAt(isTermCharacter, Runes(text), Runes(term), k) {
        MentionEncoded(isTermCharacter, text, term, k);
      }
    }
  }

  lemma MatchStandsAlone(isTermCharacter: Rune -> bool, text: Text, term: Text, i: int)
    requires OccursAt(text, term, i)
    ensures MatchesAt(isTermCharacter, text, term, i)
      <==> StandsAlone(Encoded(), isTermCharacter, text, i, i + |term|)
  {
  }

  /** A byte occurrence is a rune occurrence, and stands alone where that one does. */
  lemma MatchDecoded(c: Encoding<Byte, Rune>, isTermCharacter: Rune -> bool, text: Text, term: Text, i: int)
    returns (k: nat)
    requires Sound(c) && c.valid(text) && c.valid(term) && term != [] && OccursAt(text, term, i)
    requires HasNonAscii(c.runes(term)) || StandsAlone(c, isTermCharacter, text, i, i + |term|)
    ensures RunesMatchAt(isTermCharacter, c.runes(text), c.runes(term), k)
  {
    k := OccurrenceDecoded(c, isTermCharacter, text, term, i);
  }

  lemma MentionDecoded(isTermCharacter: Rune -> bool, text: Text, term: Text)
    requires Valid(text) && Valid(term) && Sound(Encoded()) && (NonAscii(term) <==> HasNonAscii(Runes(term)))
    requires Mentions(isTermCharacter, text, term)
    ensures exists k: nat :: RunesMatchAt(isTermCharacter, Runes(text), Runes(term), k)
  {
    var i :| OccursAt(text, term, i) && (NonAscii(term) || MatchesAt(isTermCharacter, text, term, i));
    MatchStandsAlone(isTermCharacter, text, term, i);
    var k := MatchDecoded(Encoded(), isTermCharacter, text, term, i);
  }

  lemma MentionEncoded(isTermCharacter: Rune -> bool, text: Text, term: Text, k: nat)
    requires Valid(text) && Valid(term) && Sound(Encoded()) && (NonAscii(term) <==> HasNonAscii(Runes(term)))
    requires term != [] && RunesMatchAt(isTermCharacter, Runes(text), Runes(term), k)
    ensures Mentions(isTermCharacter, text, term)
  {
    var i := OccurrenceEncoded(Encoded(), isTermCharacter, text, term, k);
    if !NonAscii(term) { assert MatchesAt(isTermCharacter, text, term, i); }
  }

  // ----- cutting -----

  /** The longest prefix of whole runes within a byte limit. */
  ghost predicate LongestWholePrefix(full: Text, limit: nat, p: Text) {
    && p <= full && |p| <= limit && Valid(p)
    && forall n :: |p| < n <= limit && n <= |full| ==> !Valid(full[..n])
  }

  method NormalizeAnalysisText(c: Characters, raw: Text, byteLimit: nat) returns (value: Text, truncated: bool)
    requires c.Sound()
    ensures Valid(value)
    ensures truncated <==> |c.trim(c.lower(raw))| > byteLimit
    ensures !truncated ==> value == c.trim(c.lower(raw))
    ensures truncated ==> exists p :: LongestWholePrefix(c.trim(c.lower(raw)), byteLimit, p) && value == c.trim(p)
  {
    value := c.trim(c.lower(raw));
    if |value| <= byteLimit { return value, false; }
    ghost var full := value;
    value := value[..byteLimit];
    while !Valid(value)
      invariant value <= full && |value| <= byteLimit
      invariant forall n :: |value| < n <= byteLimit ==> !Valid(full[..n])
      decreases |value|
    {
      assert value == full[..|value|];
      value := value[..|value| - 1];
    }
    assert LongestWholePrefix(full, byteLimit, value);
    return c.trim(value), true;
  }

  /** The first k runes, where one more would not fit. */
  ghost predicate KeepsRunes(full: seq<Rune>, limit: nat, p: Text, k: nat) {
    k < |full| && p == EncodeAll(full[..k]) && |p| <= limit < |EncodeAll(full[..k + 1])|
  }

  /** A cut loses at most three bytes of the budget. */
  lemma CutLosesAtMostThreeBytes(full: Text, limit: nat, p: Text)
    requires Valid(full) && |full| > limit && LongestWholePrefix(full, limit, p)
    ensures limit - |p| <= 3
  {
    BoundaryNear(full, limit);
    var m: nat :| limit <= m + 3 && m <= limit && Valid(full[..m]);
  }

  /** A cut splits no rune and drops none that fits. */
  lemma CutKeepsWholeRunes(full: Text, limit: nat, p: Text)
    requires Valid(full) && |full| > limit && LongestWholePrefix(full, limit, p)
    ensures KeepsRunes(Runes(full), limit, p, |Runes(p)|)
  {
    var rest, k := full[|p|..], |Runes(p)|;
    assert full == p + rest;
    Joined(p, rest);
    EncodeRunes(p);
    assert Runes(full)[..k] == Runes(p) && Runes(full)[..k + 1] == Runes(p) + [Value(rest)];
    OneMoreRune(p, rest);
    assert full[..|p| + Width(rest)] == p + rest[..Width(rest)];
  }

  lemma OneMoreRune(p: Text, rest: Text)
    requires Valid(p) && Width(rest) > 0
    ensures Valid(p + rest[..Width(rest)])
    ensures EncodeAll(Runes(p) + [Value(rest)]) == p + rest[..Width(rest)]
  {
    FirstRune(rest);
    Joined(p, rest[..Width(rest)]);
    EncodeRunes(p + rest[..Width(rest)]);
  }

  datatype AnalysisTexts = AnalysisTexts(title: Text, body: Text, combined: Text, truncated: bool)

  const MAXIMUM_ANALYSIS_TEXT_BYTES := 65536

  const NEWLINE: Text := [10]

  lemma CombinedIsValid(title: Text, body: Text)
    requires Valid(title) && Valid(body)
    ensures Valid(title + NEWLINE + body)
  {
    assert Width(NEWLINE) == 1 && NEWLINE[1..] == [];
    Joined(title, NEWLINE);
    Joined(title + NEWLINE, body);
  }

  /** A text within its budget is kept; a longer one is cut to the longest prefix of whole runes that fits, and trimmed
      again. */
  ghost predicate Budgeted(c: Characters, full: Text, limit: nat, value: Text) {
    if |full| <= limit then value == full
    else exists p :: LongestWholePrefix(full, limit, p) && value == c.trim(p)
  }

  /** The text fields of normalizeAnalysisInput: everything the rules read is valid UTF-8 and within its budget. */
  method NormalizeTexts(c: Characters, rawTitle: Text, rawBody: Text) returns (r: AnalysisTexts)
    requires c.Sound()
    ensures Valid(r.title) && Valid(r.body) && Valid(r.combined)
    ensures r.truncated <==>
      || |c.trim(c.lower(rawTitle))| > MAXIMUM_ANALYSIS_TEXT_BYTES / 4
      || |c.trim(c.lower(rawBody))| > MAXIMUM_ANALYSIS_TEXT_BYTES
    ensures Budgeted(c, c.trim(c.lower(rawTitle)), MAXIMUM_ANALYSIS_TEXT_BYTES / 4, r.title)
    ensures Budgeted(c, c.trim(c.lower(rawBody)), MAXIMUM_ANALYSIS_TEXT_BYTES, r.body)
    ensures r.combined == c.trim(r.title + NEWLINE + r.body)
    ensures !r.truncated ==> r.combined == c.trim(c.trim(c.lower(rawTitle)) + NEWLINE + c.trim(c.lower(rawBody)))
  {
    var title, titleTruncated := NormalizeAnalysisText(c, rawTitle, MAXIMUM_ANALYSIS_TEXT_BYTES / 4);
    var body, bodyTruncated := NormalizeAnalysisText(c, rawBody, MAXIMUM_ANALYSIS_TEXT_BYTES);
    CombinedIsValid(title, body);
    r := AnalysisTexts(title, body, c.trim(title + NEWLINE + body), titleTruncated || bodyTruncated);
  }
}
