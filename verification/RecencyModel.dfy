/** What a bounded TTL cache with least-recently-used eviction means: a list of entries, most recently used first. */
module RecencyModel {
  import opened Options
  import opened Sets

  datatype Entry<K, V> = Entry(key: K, value: V, expiresAt: int)

  type Recency<K, V> = seq<Entry<K, V>>

  function Lookup<K(==), V>(s: Recency<K, V>, key: K): Option<Entry<K, V>> {
    if s == [] then None else if s[0].key == key then Some(s[0]) else Lookup(s[1..], key)
  }

  /** No key occurs twice. */
  predicate DistinctKeys<K(==), V>(s: Recency<K, V>) {
    s == [] || (Lookup(s[1..], s[0].key).None? && DistinctKeys(s[1..]))
  }

  function Without<K(==), V>(s: Recency<K, V>, key: K): Recency<K, V> {
    if s == [] then [] else if s[0].key == key then Without(s[1..], key) else [s[0]] + Without(s[1..], key)
  }

  datatype Answer<V> = Hit(value: V) | Miss

  /** A read: an expired entry is dropped, a live one becomes the most recent. */
  function AfterGet<K(==), V>(s: Recency<K, V>, key: K, now: int): Recency<K, V> {
    match Lookup(s, key)
    case None => s
    case Some(entry) => if now < entry.expiresAt then [entry] + Without(s, key) else Without(s, key)
  }

  function AnswerOf<K(==), V>(s: Recency<K, V>, key: K, now: int): Answer<V> {
    match Lookup(s, key)
    case None => Miss
    case Some(entry) => if now < entry.expiresAt then Hit(entry.value) else Miss
  }

  /** A write: the entry becomes the most recent and the least recent one makes room when needed. */
  function AfterSet<K(==), V>(s: Recency<K, V>, capacity: nat, entry: Entry<K, V>): Recency<K, V> {
    var longer := [entry] + Without(s, entry.key);
    if |longer| > capacity then longer[..|longer| - 1] else longer
  }

  // ----- runs -----

  datatype Call<K, V> = Get(key: K, now: int) | Set(key: K, value: V, now: int)

  datatype Policy = Policy(capacity: nat, ttl: int) {
    ghost predicate Valid() {
      capacity > 0 && ttl > 0
    }
  }

  function Step<K(==), V>(p: Policy, s: Recency<K, V>, call: Call<K, V>): Recency<K, V> {
    match call
    case Get(key, now) => AfterGet(s, key, now)
    case Set(key, value, now) => AfterSet(s, p.capacity, Entry(key, value, now + p.ttl))
  }

  function Run<K(==), V>(p: Policy, s: Recency<K, V>, calls: seq<Call<K, V>>): Recency<K, V> {
    if calls == [] then s else Step(p, Run(p, s, calls[..|calls| - 1]), calls[|calls| - 1])
  }

  /** Calls that make their key the most recent: every write, and a read that hits. */
  predicate Touches<K(==), V>(s: Recency<K, V>, call: Call<K, V>) {
    call.Set? || AnswerOf(s, call.key, call.now).Hit?
  }

  /** The keys other than one that a run touches. */
  function TouchedOthers<K(==), V>(p: Policy, s: Recency<K, V>, calls: seq<Call<K, V>>, key: K): set<K> {
    if calls == [] then {}
    else
      var rest, last := calls[..|calls| - 1], calls[|calls| - 1];
      TouchedOthers(p, s, rest, key)
      + if last.key != key && Touches(Run(p, s, rest), last) then {last.key} else {}
  }

  // ----- lists -----

  lemma {:induction false} DistinctMeansDifferent<K, V>(s: Recency<K, V>, i: nat, j: nat)
    requires DistinctKeys(s) && i < j < |s|
    ensures s[i].key != s[j].key
  {
    if i == 0 {
      LookupMember(s[1..], s[0].key);
      assert s[1..][j - 1] == s[j];
    } else {
      DistinctMeansDifferent(s[1..], i - 1, j - 1);
    }
  }

  lemma LookupCons<K, V>(e: Entry<K, V>, t: Recency<K, V>, key: K)
    ensures Lookup([e] + t, key) == if e.key == key then Some(e) else Lookup(t, key)
    ensures Ahead([e] + t, key) == if e.key == key then {} else {e.key} + Ahead(t, key)
  {
    assert ([e] + t)[1..] == t;
  }

  lemma {:induction false} LookupMember<K, V>(s: Recency<K, V>, key: K)
    ensures Lookup(s, key).Some? ==> Lookup(s, key).value in s && Lookup(s, key).value.key == key
    ensures Lookup(s, key).None? ==> forall e :: e in s ==> e.key != key
  {
    if s != [] {
      LookupMember(s[1..], key);
    }
  }

  lemma {:induction false} WithoutLookup<K, V>(s: Recency<K, V>, key: K, other: K)
    ensures Lookup(Without(s, key), other) == if other == key then None else Lookup(s, other)
  {
    if s != [] {
      WithoutLookup(s[1..], key, other);
      LookupCons(s[0], Without(s[1..], key), other);
    }
  }

  lemma {:induction false} WithoutAbsent<K, V>(s: Recency<K, V>, key: K)
    requires Lookup(s, key).None?
    ensures Without(s, key) == s
  {
    if s != [] {
      WithoutAbsent(s[1..], key);
    }
  }

  lemma {:induction false} WithoutDistinct<K, V>(s: Recency<K, V>, key: K)
    requires DistinctKeys(s)
    ensures DistinctKeys(Without(s, key))
    ensures |Without(s, key)| == |s| - if Lookup(s, key).Some? then 1 else 0
  {
    if s != [] {
      WithoutDistinct(s[1..], key);
      if s[0].key != key {
        WithoutLookup(s[1..], key, s[0].key);
        var rest := Without(s[1..], key);
        assert ([s[0]] + rest)[1..] == rest;
      }
    }
  }

  /** Moving a key to the front, or putting one there, keeps keys distinct. */
  lemma FrontDistinct<K, V>(s: Recency<K, V>, e: Entry<K, V>)
    requires DistinctKeys(s)
    ensures DistinctKeys([e] + Without(s, e.key))
  {
    WithoutDistinct(s, e.key);
    WithoutLookup(s, e.key, e.key);
    var rest := Without(s, e.key);
    assert ([e] + rest)[1..] == rest;
  }

  /** Where a key sits is all that a lookup and a removal need. */
  lemma {:induction false} AtPosition<K, V>(s: Recency<K, V>, i: nat)
    requires DistinctKeys(s) && i < |s|
    ensures Lookup(s, s[i].key) == Some(s[i])
    ensures Without(s, s[i].key) == s[..i] + s[i + 1..]
  {
    if i == 0 {
      WithoutAbsent(s[1..], s[0].key);
    } else {
      DistinctMeansDifferent(s, 0, i);
      AtPosition(s[1..], i - 1);
      assert s[1..][..i - 1] == s[1..i] && s[1..][i..] == s[i + 1..];
      assert s[..i] == [s[0]] + s[1..i];
    }
  }

  lemma {:induction false} ReplacedLookup<K, V>(s: Recency<K, V>, i: nat, e: Entry<K, V>, k: K)
    requires DistinctKeys(s) && i < |s| && s[i].key == e.key
    ensures Lookup(s[i := e], k) == if k == e.key then Some(e) else Lookup(s, k)
  {
    if i == 0 {
      assert s[i := e][1..] == s[1..];
    } else {
      DistinctMeansDifferent(s, 0, i);
      ReplacedLookup(s[1..], i - 1, e, k);
      assert s[i := e][1..] == s[1..][i - 1 := e];
    }
  }

  /** Replacing the entry of a key. */
  lemma {:induction false} ReplaceAt<K, V>(s: Recency<K, V>, i: nat, e: Entry<K, V>)
    requires DistinctKeys(s) && i < |s| && s[i].key == e.key
    ensures DistinctKeys(s[i := e])
    ensures Without(s[i := e], e.key) == Without(s, e.key)
  {
    if i == 0 {
      assert s[i := e][1..] == s[1..];
    } else {
      DistinctMeansDifferent(s, 0, i);
      ReplaceAt(s[1..], i - 1, e);
      assert s[i := e][1..] == s[1..][i - 1 := e];
      ReplacedLookup(s[1..], i - 1, e, s[0].key);
    }
  }

  lemma {:induction false} LookupPrefix<K, V>(s: Recency<K, V>, n: nat, key: K)
    requires n <= |s|
    ensures Lookup(s[..n], key).Some? ==> Lookup(s, key) == Lookup(s[..n], key)
  {
    if n > 0 {
      LookupPrefix(s[1..], n - 1, key);
      assert s[..n][1..] == s[1..][..n - 1];
    }
  }

  lemma {:induction false} DistinctPrefix<K, V>(s: Recency<K, V>, n: nat)
    requires DistinctKeys(s) && n <= |s|
    ensures DistinctKeys(s[..n])
  {
    if n > 0 {
      DistinctPrefix(s[1..], n - 1);
      assert s[..n][1..] == s[1..][..n - 1];
      LookupPrefix(s[1..], n - 1, s[0].key);
    }
  }

  /** The keys more recent than one. */
  function Ahead<K(==), V>(s: Recency<K, V>, key: K): set<K> {
    if s == [] || s[0].key == key then {} else {s[0].key} + Ahead(s[1..], key)
  }

  lemma {:induction false} AheadWithout<K, V>(s: Recency<K, V>, key: K, other: K)
    requires key != other
    ensures Ahead(Without(s, other), key) <= Ahead(s, key)
  {
    if s != [] {
      AheadWithout(s[1..], key, other);
    }
  }

  /** An entry with fewer than n keys ahead of it is among the first n. */
  lemma {:induction false} AheadBoundsPosition<K, V>(s: Recency<K, V>, key: K, n: nat)
    requires DistinctKeys(s) && Lookup(s, key).Some? && |Ahead(s, key)| < n <= |s|
    ensures Lookup(s[..n], key) == Lookup(s, key)
    ensures Ahead(s[..n], key) == Ahead(s, key)
  {
    assert s[..n][0] == s[0];
    if s[0].key != key {
      assert s[..n][1..] == s[1..][..n - 1];
      AheadOfTail(s, key);
      AheadBoundsPosition(s[1..], key, n - 1);
    }
  }

  lemma {:induction false} AheadArePresent<K, V>(s: Recency<K, V>, key: K, other: K)
    ensures other in Ahead(s, key) ==> Lookup(s, other).Some?
  {
    if s != [] && s[0].key != key {
      AheadArePresent(s[1..], key, other);
    }
  }

  lemma AheadOfTail<K, V>(s: Recency<K, V>, key: K)
    requires s != [] && DistinctKeys(s) && s[0].key != key
    ensures |Ahead(s, key)| == |Ahead(s[1..], key)| + 1
  {
    AheadArePresent(s[1..], key, s[0].key);
    assert Ahead(s, key) == {s[0].key} + Ahead(s[1..], key);
  }

  // ----- one call, in places -----

  /** Where a key is cached; a key that is cached nowhere has no place. */
  predicate IsAt<K(==), V>(s: Recency<K, V>, key: K, i: nat) {
    i < |s| && s[i].key == key
  }

  lemma NowhereIsAbsent<K, V>(s: Recency<K, V>, key: K)
    requires forall i: nat :: !IsAt(s, key, i)
    ensures Lookup(s, key) == None && Without(s, key) == s
  {
    LookupMember(s, key);
    if Lookup(s, key).Some? {
      var i :| 0 <= i < |s| && s[i] == Lookup(s, key).value;
      assert IsAt(s, key, i);
    }
    WithoutAbsent(s, key);
  }

  /** A read answers from the place of its key while the entry lives, which then moves to the front; an expired entry
      gives up its slot, and a read of an uncached key changes nothing. */
  lemma GetInPlaces<K, V>(s: Recency<K, V>, key: K, now: int)
    requires DistinctKeys(s)
    ensures forall i: nat :: IsAt(s, key, i) && now < s[i].expiresAt ==>
      AnswerOf(s, key, now) == Hit(s[i].value) && AfterGet(s, key, now) == [s[i]] + s[..i] + s[i + 1..]
    ensures forall i: nat :: IsAt(s, key, i) && now >= s[i].expiresAt ==>
      AnswerOf(s, key, now) == Miss && AfterGet(s, key, now) == s[..i] + s[i + 1..]
    ensures (forall i: nat :: !IsAt(s, key, i)) ==> AnswerOf(s, key, now) == Miss && AfterGet(s, key, now) == s
  {
    if i: nat :| IsAt(s, key, i) {
      AtPosition(s, i);
      assert [s[i]] + (s[..i] + s[i + 1..]) == [s[i]] + s[..i] + s[i + 1..];
      forall k: nat | IsAt(s, key, k) ensures k == i {
        if k < i { DistinctMeansDifferent(s, k, i); } else if i < k { DistinctMeansDifferent(s, i, k); }
      }
    } else {
      NowhereIsAbsent(s, key);
    }
  }

  /** A write puts its entry first, takes the old one of the key out, and otherwise drops the last entry when there are
      too many. */
  lemma SetInPlaces<K, V>(s: Recency<K, V>, capacity: nat, entry: Entry<K, V>)
    requires DistinctKeys(s) && |s| <= capacity && capacity > 0
    ensures forall i: nat :: IsAt(s, entry.key, i) ==>
      AfterSet(s, capacity, entry) == [entry] + s[..i] + s[i + 1..]
    ensures (forall i: nat :: !IsAt(s, entry.key, i)) ==>
      AfterSet(s, capacity, entry) == if |s| < capacity then [entry] + s else [entry] + s[..|s| - 1]
  {
    if i: nat :| IsAt(s, entry.key, i) {
      AtPosition(s, i);
      forall k: nat | IsAt(s, entry.key, k) ensures k == i {
        if k < i { DistinctMeansDifferent(s, k, i); } else if i < k { DistinctMeansDifferent(s, i, k); }
      }
      assert [entry] + (s[..i] + s[i + 1..]) == [entry] + s[..i] + s[i + 1..];
    } else {
      NowhereIsAbsent(s, entry.key);
    }
  }

  // ----- what every call keeps -----

  ghost predicate Bounded<K, V>(p: Policy, s: Recency<K, V>) {
    DistinctKeys(s) && |s| <= p.capacity
  }

  lemma StepKeepsBound<K, V>(p: Policy, s: Recency<K, V>, call: Call<K, V>)
    requires p.Valid() && Bounded(p, s)
    ensures Bounded(p, Step(p, s, call))
  {
    WithoutDistinct(s, call.key);
    LookupMember(s, call.key);
    match call
    case Get(key, now) =>
      if Lookup(s, key).Some? { FrontDistinct(s, Lookup(s, key).value); }
    case Set(key, value, now) =>
      var longer := [Entry(key, value, now + p.ttl)] + Without(s, key);
      FrontDistinct(s, Entry(key, value, now + p.ttl));
      DistinctPrefix(longer, |longer| - 1);
  }

  lemma {:induction false} RunKeepsBound<K, V>(p: Policy, s: Recency<K, V>, calls: seq<Call<K, V>>)
    requires p.Valid() && Bounded(p, s)
    ensures Bounded(p, Run(p, s, calls))
  {
    if calls != [] {
      RunKeepsBound(p, s, calls[..|calls| - 1]);
      StepKeepsBound(p, Run(p, s, calls[..|calls| - 1]), calls[|calls| - 1]);
    }
  }

  /** Dropping the least recent entry never changes the entries that stay. */
  lemma EvictionKeepsLookup<K, V>(s: Recency<K, V>, capacity: nat, entry: Entry<K, V>, key: K)
    requires capacity > 0
    ensures var after := Lookup(AfterSet(s, capacity, entry), key);
            after.Some? ==> after == if key == entry.key then Some(entry) else Lookup(s, key)
  {
    var longer := [entry] + Without(s, entry.key);
    WithoutLookup(s, entry.key, key);
    LookupCons(entry, Without(s, entry.key), key);
    LookupPrefix(longer, |longer| - 1, key);
  }

  lemma GetKeepsLookup<K, V>(s: Recency<K, V>, key: K, now: int, other: K)
    ensures var after := Lookup(AfterGet(s, key, now), other); after.Some? ==> after == Lookup(s, other)
    ensures other != key ==> Lookup(AfterGet(s, key, now), other) == Lookup(s, other)
  {
    WithoutLookup(s, key, other);
    LookupMember(s, key);
    if Lookup(s, key).Some? {
      LookupCons(Lookup(s, key).value, Without(s, key), other);
    }
  }

  // ----- main results -----

  /** The last write of a key in a run. */
  ghost predicate LastSet<K(!new), V(!new)>(calls: seq<Call<K, V>>, j: nat, key: K) {
    j < |calls| && calls[j].Set? && calls[j].key == key
    && forall k :: j < k < |calls| && calls[k].key == key ==> calls[k].Get?
  }

  ghost predicate WrittenLast<K(!new), V(!new)>(p: Policy, calls: seq<Call<K, V>>, key: K, entry: Entry<K, V>) {
    exists j: nat :: LastSet(calls, j, key) && entry == Entry(key, calls[j].value, calls[j].now + p.ttl)
  }

  /** Whatever is cached for a key was put there by the last write of that key. */
  lemma {:induction false} CachedIsLastWritten<K(!new), V(!new)>(p: Policy, calls: seq<Call<K, V>>, key: K)
    requires p.Valid()
    ensures var cached := Lookup(Run(p, [], calls), key);
            cached.Some? ==> WrittenLast(p, calls, key, cached.value)
  {
    if calls != [] {
      var rest, last := calls[..|calls| - 1], calls[|calls| - 1];
      CachedIsLastWritten(p, rest, key);
      var before, cached := Run(p, [], rest), Lookup(Run(p, [], calls), key);
      RunKeepsBound(p, [], rest);
      if cached.Some? {
        if last.Set? && last.key == key {
          EvictionKeepsLookup(before, p.capacity, Entry(key, last.value, last.now + p.ttl), key);
          assert LastSet(calls, |calls| - 1, key);
        } else {
          if last.Set? {
            EvictionKeepsLookup(before, p.capacity, Entry(last.key, last.value, last.now + p.ttl), key);
          } else {
            GetKeepsLookup(before, last.key, last.now, key);
          }
          var j: nat :| LastSet(rest, j, key) && cached.value == Entry(key, rest[j].value, rest[j].now + p.ttl);
          assert LastSet(calls, j, key);
        }
      }
    }
  }

  /** A hit returns the value of the last write of that key, and that write is younger than the TTL. */
  lemma HitIsLastWrite<K(!new), V(!new)>(p: Policy, calls: seq<Call<K, V>>, key: K, now: int)
    requires p.Valid() && AnswerOf(Run(p, [], calls), key, now).Hit?
    ensures exists j: nat ::
      && LastSet(calls, j, key)
      && AnswerOf(Run(p, [], calls), key, now) == Hit(calls[j].value)
      && now - calls[j].now < p.ttl
  {
    CachedIsLastWritten(p, calls, key);
  }

  /** One call that is not a write of key cannot push key out while fewer than capacity other keys are ahead of it. */
  lemma StepRetains<K, V>(p: Policy, s: Recency<K, V>, call: Call<K, V>, key: K, others: set<K>)
    requires p.Valid() && Bounded(p, s)
    requires Lookup(s, key).Some? && Ahead(s, key) <= others && |others| < p.capacity
    requires call.key == key ==> call.Get? && call.now < Lookup(s, key).value.expiresAt
    requires call.key != key && Touches(s, call) ==> call.key in others
    ensures Lookup(Step(p, s, call), key) == Lookup(s, key)
    ensures Ahead(Step(p, s, call), key) <= others
  {
    var rest := Without(s, call.key);
    LookupMember(s, call.key);
    WithoutLookup(s, call.key, key);
    if call.key == key {
      LookupCons(Lookup(s, key).value, rest, key);
    } else {
      AheadWithout(s, key, call.key);
      match call
      case Get(_, now) =>
        if Lookup(s, call.key).Some? { LookupCons(Lookup(s, call.key).value, rest, key); }
      case Set(_, value, now) =>
        var entry := Entry(call.key, value, now + p.ttl);
        LookupCons(entry, rest, key);
        FrontDistinct(s, entry);
        if |[entry] + rest| > p.capacity { EvictionRetains(p, [entry] + rest, key, others); }
    }
  }

  lemma EvictionRetains<K, V>(p: Policy, longer: Recency<K, V>, key: K, others: set<K>)
    requires DistinctKeys(longer) && Lookup(longer, key).Some? && Ahead(longer, key) <= others && |others| < p.capacity
    requires |longer| > p.capacity
    ensures Lookup(longer[..|longer| - 1], key) == Lookup(longer, key)
    ensures Ahead(longer[..|longer| - 1], key) == Ahead(longer, key)
  {
    SubsetSize(Ahead(longer, key), others);
    AheadBoundsPosition(longer, key, |longer| - 1);
  }

  lemma {:induction false} RunRetains<K, V>(p: Policy, s: Recency<K, V>, calls: seq<Call<K, V>>, key: K, others: set<K>)
    requires p.Valid() && Bounded(p, s) && Lookup(s, key).Some? && Ahead(s, key) == {}
    requires forall k :: 0 <= k < |calls| && calls[k].key == key ==>
      calls[k].Get? && calls[k].now < Lookup(s, key).value.expiresAt
    requires TouchedOthers(p, s, calls, key) <= others && |others| < p.capacity
    ensures Lookup(Run(p, s, calls), key) == Lookup(s, key)
    ensures Ahead(Run(p, s, calls), key) <= others
  {
    if calls != [] {
      var rest, last := calls[..|calls| - 1], calls[|calls| - 1];
      RunRetains(p, s, rest, key, others);
      RunKeepsBound(p, s, rest);
      StepRetains(p, Run(p, s, rest), last, key, others);
    }
  }

  ghost predicate Monotone<K, V>(calls: seq<Call<K, V>>, now: int) {
    (forall i, j :: 0 <= i < j < |calls| ==> calls[i].now <= calls[j].now)
    && (forall i :: 0 <= i < |calls| ==> calls[i].now <= now)
  }

  /** Retention: with a clock that never goes back, a key that was touched is still there as long as it has not
      expired and fewer than capacity other keys were touched since. */
  lemma {:induction false} RetainedUntilExpiry<K, V>(
    p: Policy, before: seq<Call<K, V>>, touch: Call<K, V>, since: seq<Call<K, V>>, now: int)
    requires p.Valid() && Touches(Run(p, [], before), touch)
    requires forall k :: 0 <= k < |since| && since[k].key == touch.key ==> since[k].Get?
    requires Monotone(since, now)
    requires var s := Step(p, Run(p, [], before), touch);
             && |TouchedOthers(p, s, since, touch.key)| < p.capacity
             && Lookup(s, touch.key).Some? && now < Lookup(s, touch.key).value.expiresAt
    ensures AnswerOf(Run(p, Step(p, Run(p, [], before), touch), since), touch.key, now).Hit?
  {
    var s := Step(p, Run(p, [], before), touch);
    RunKeepsBound(p, [], before);
    StepKeepsBound(p, Run(p, [], before), touch);
    TouchedIsFirst(p, Run(p, [], before), touch);
    RunRetains(p, s, since, touch.key, TouchedOthers(p, s, since, touch.key));
  }

  /** A touch puts its key first, with the expiry it had or a full TTL. */
  lemma TouchedIsFirst<K, V>(p: Policy, s: Recency<K, V>, touch: Call<K, V>)
    requires p.Valid() && Bounded(p, s) && Touches(s, touch)
    ensures var after := Step(p, s, touch);
            && after != [] && after[0].key == touch.key && Ahead(after, touch.key) == {}
            && Lookup(after, touch.key)
               == if touch.Set? then Some(Entry(touch.key, touch.value, touch.now + p.ttl)) else Lookup(s, touch.key)
  {
    LookupMember(s, touch.key);
    if Lookup(s, touch.key).Some? { LookupCons(Lookup(s, touch.key).value, Without(s, touch.key), touch.key); }
    if touch.Set? {
      var entry := Entry(touch.key, touch.value, touch.now + p.ttl);
      var longer := [entry] + Without(s, touch.key);
      assert longer[..|longer| - 1] == if |longer| == 1 then [] else [entry] + longer[1..|longer| - 1];
      LookupCons(entry, Without(s, touch.key), touch.key);
    }
  }
}
