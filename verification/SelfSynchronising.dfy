/** Finding a term in a text, over any encoding whose valid texts can be joined, cut at every unit that is not a tail,
    and decoded into runes. UTF-8 is the encoding this is used for. */
module SelfSynchronising {
  /** first and last are what the decoders return at either end of a text. */
  datatype Encoding<!B, R> = Encoding(
    valid: seq<B> -> bool, runes: seq<B> -> seq<R>, first: seq<B> -> R, last: seq<B> -> R, tail: B -> bool)

  function FlatMap<A, B>(f: A -> seq<B>, s: seq<A>): seq<B> {
    if s == [] then [] else f(s[0]) + FlatMap(f, s[1..])
  }

  lemma {:induction false} FlatMapConcat<A, B>(f: A -> seq<B>, a: seq<A>, b: seq<A>)
    ensures FlatMap(f, a + b) == FlatMap(f, a) + FlatMap(f, b)
  {
    if a == [] {
      assert a + b == b;
    } else {
      FlatMapConcat(f, a[1..], b);
      assert (a + b)[1..] == a[1..] + b;
    }
  }

  // ----- what an encoding has to satisfy -----

  ghost predicate JoinsAt<B, R>(c: Encoding<B, R>, a: seq<B>, b: seq<B>) {
    c.valid(a) ==> (c.valid(a + b) <==> c.valid(b)) && (c.valid(b) ==> c.runes(a + b) == c.runes(a) + c.runes(b))
  }

  ghost predicate EndsAt<B, R>(c: Encoding<B, R>, s: seq<B>) {
    c.valid(s) ==>
      if s == [] then c.runes(s) == []
      else
        && !c.tail(s[0]) && c.runes(s) != []
        && c.first(s) == c.runes(s)[0] && c.last(s) == c.runes(s)[|c.runes(s)| - 1]
  }

  ghost predicate SynchronisesAt<B, R>(c: Encoding<B, R>, s: seq<B>, i: nat) {
    c.valid(s) && i <= |s| && (i == |s| || !c.tail(s[i])) ==> c.valid(s[..i]) && c.valid(s[i..])
  }

  /** Position i of the units is position k of the runes. */
  ghost predicate CutAt<B, R>(c: Encoding<B, R>, s: seq<B>, i: nat, k: nat) {
    && i <= |s| && k <= |c.runes(s)| && c.valid(s[..i]) && c.valid(s[i..])
    && c.runes(s[..i]) == c.runes(s)[..k] && c.runes(s[i..]) == c.runes(s)[k..]
  }

  ghost predicate CutsAt<B, R>(c: Encoding<B, R>, s: seq<B>, k: nat) {
    c.valid(s) && k <= |c.runes(s)| ==> exists i: nat :: CutAt(c, s, i, k)
  }

  ghost predicate InjectiveAt<B, R>(c: Encoding<B, R>, a: seq<B>, b: seq<B>) {
    c.valid(a) && c.valid(b) && c.runes(a) == c.runes(b) ==> a == b
  }

  ghost predicate Sound<B(!new), R>(c: Encoding<B, R>) {
    && (forall a, b :: JoinsAt(c, a, b))
    && (forall s :: EndsAt(c, s))
    && (forall s, i: nat :: SynchronisesAt(c, s, i))
    && (forall s, k: nat :: CutsAt(c, s, k))
    && (forall a, b :: InjectiveAt(c, a, b))
  }

  // ----- occurrences -----

  predicate OccursAt<T(==)>(text: seq<T>, term: seq<T>, i: int) {
    0 <= i <= |text| - |term| && text[i..i + |term|] == term
  }

  /** No word character touches the units from i to j. */
  predicate StandsAlone<B, R>(c: Encoding<B, R>, wordy: R -> bool, text: seq<B>, i: nat, j: nat)
    requires i <= j <= |text|
  {
    && (i == 0 || !wordy(c.last(text[..i])))
    && (j == |text| || !wordy(c.first(text[j..])))
  }

  predicate AloneInRunes<R>(wordy: R -> bool, runes: seq<R>, k: nat, m: nat)
    requires k <= m <= |runes|
  {
    && (k == 0 || !wordy(runes[k - 1]))
    && (m == |runes| || !wordy(runes[m]))
  }

  /** Where a valid term occurs in a valid text, all three pieces are whole. */
  lemma OccurrenceIsAligned<B(!new), R>(c: Encoding<B, R>, text: seq<B>, term: seq<B>, i: int)
    requires Sound(c) && c.valid(text) && c.valid(term) && term != [] && OccursAt(text, term, i)
    ensures c.valid(text[..i]) && c.valid(text[i..]) && c.valid(text[..i + |term|]) && c.valid(text[i + |term|..])
    ensures c.runes(text[i..]) == c.runes(term) + c.runes(text[i + |term|..])
    ensures c.runes(text[..i + |term|]) == c.runes(text[..i]) + c.runes(term)
  {
    var j := i + |term|;
    assert text[i] == term[0];
    assert EndsAt(c, term);
    assert SynchronisesAt(c, text, i);
    assert text[i..] == term + text[j..] && text[..j] == text[..i] + term;
    assert JoinsAt(c, term, text[j..]);
    assert JoinsAt(c, text[..i], term);
  }

  lemma CutIsCut<B(!new), R>(c: Encoding<B, R>, text: seq<B>, i: nat)
    requires Sound(c) && i <= |text| && c.valid(text[..i]) && c.valid(text[i..])
    ensures CutAt(c, text, i, |c.runes(text[..i])|)
    ensures c.runes(text) == c.runes(text[..i]) + c.runes(text[i..])
  {
    assert JoinsAt(c, text[..i], text[i..]);
    assert text == text[..i] + text[i..];
  }

  /** At a cut the decoders see the neighbouring runes. */
  lemma NeighboursAgree<B(!new), R>(c: Encoding<B, R>, text: seq<B>, i: nat, k: nat)
    requires Sound(c) && CutAt(c, text, i, k)
    ensures i == 0 <==> k == 0
    ensures i == |text| <==> k == |c.runes(text)|
    ensures i > 0 ==> c.last(text[..i]) == c.runes(text)[k - 1]
    ensures i < |text| ==> c.first(text[i..]) == c.runes(text)[k]
  {
    assert EndsAt(c, text[..i]);
    assert EndsAt(c, text[i..]);
  }

  /** From units to runes. */
  lemma OccurrenceDecoded<B(!new), R>(c: Encoding<B, R>, wordy: R -> bool, text: seq<B>, term: seq<B>, i: int)
    returns (k: nat)
    requires Sound(c) && c.valid(text) && c.valid(term) && term != [] && OccursAt(text, term, i)
    ensures OccursAt(c.runes(text), c.runes(term), k)
    ensures StandsAlone(c, wordy, text, i, i + |term|)
      <==> AloneInRunes(wordy, c.runes(text), k, k + |c.runes(term)|)
  {
    OccurrenceIsAligned(c, text, term, i);
    var j, m := i + |term|, |c.runes(term)|;
    k := |c.runes(text[..i])|;
    CutIsCut(c, text, i);
    CutIsCut(c, text, j);
    assert c.runes(text)[k..k + m] == c.runes(term);
    NeighboursAgree(c, text, i, k);
    NeighboursAgree(c, text, j, k + m);
  }

  /** From runes to units. */
  lemma OccurrenceCut<B(!new), R>(c: Encoding<B, R>, text: seq<B>, term: seq<B>, k: nat) returns (i: nat)
    requires Sound(c) && c.valid(text) && c.valid(term) && OccursAt(c.runes(text), c.runes(term), k)
    ensures OccursAt(text, term, i)
    ensures CutAt(c, text, i, k) && CutAt(c, text, i + |term|, k + |c.runes(term)|)
  {
    var m := |c.runes(term)|;
    assert CutsAt(c, text, k);
    i :| CutAt(c, text, i, k);
    var rest := text[i..];
    assert CutsAt(c, rest, m);
    var n: nat :| CutAt(c, rest, n, m);
    assert c.runes(rest)[..m] == c.runes(text)[k..k + m];
    assert InjectiveAt(c, rest[..n], term);
    var j := i + n;
    assert text[i..j] == rest[..n] && text[j..] == rest[n..];
    assert JoinsAt(c, text[..i], term);
    assert text[..j] == text[..i] + term;
    CutIsCut(c, text, j);
  }

  lemma OccurrenceEncoded<B(!new), R>(c: Encoding<B, R>, wordy: R -> bool, text: seq<B>, term: seq<B>, k: nat)
    returns (i: nat)
    requires Sound(c) && c.valid(text) && c.valid(term) && OccursAt(c.runes(text), c.runes(term), k)
    ensures OccursAt(text, term, i)
    ensures StandsAlone(c, wordy, text, i, i + |term|)
      <==> AloneInRunes(wordy, c.runes(text), k, k + |c.runes(term)|)
  {
    i := OccurrenceCut(c, text, term, k);
    NeighboursAgree(c, text, i, k);
    NeighboursAgree(c, text, i + |term|, k + |c.runes(term)|);
  }
}
