/**
 * Key-order independence of the canonical encoder: because members are
 * emitted sorted by key, two JSON trees that hold the same keys and values
 * at every level encode to the same text, whatever order the members were
 * inserted in.
 */
module CanonicalOrder {

  import opened JsonValue
  import opened CanonicalJson
  import Utf8

  /**
   * `a` and `b` hold the same content: arrays agree item by item, objects
   * have distinct keys, the same key set, and agree key by key; scalars are equal.
   */
  predicate SameContent(a: Json, b: Json)
    decreases a
  {
    match a
    case Arr(xs) =>
      b.Arr? && |xs| == |b.items| &&
      forall i :: 0 <= i < |xs| ==> SameContent(xs[i], b.items[i])
    case Obj(ms) =>
      b.Obj? && DistinctKeys(ms) && DistinctKeys(b.members) && Keys(ms) == Keys(b.members) &&
      forall i, j :: 0 <= i < |ms| && 0 <= j < |b.members| && ms[i].key == b.members[j].key ==>
                       SameContent(ms[i].value, b.members[j].value)
    case _ => a == b
  }

  /** The keys that `key` reads off the elements are pairwise different. */
  predicate DistinctBy<T>(xs: seq<T>, key: T -> string) {
    forall i, j :: 0 <= i < j < |xs| ==> key(xs[i]) != key(xs[j])
  }

  function PairKey<T>(p: (string, T)): string {
    p.0
  }

  function MemberKey(m: Member): string {
    m.key
  }

  predicate PairKeysDistinct<T>(ps: seq<(string, T)>) {
    DistinctBy(ps, PairKey)
  }

  predicate StrictlySortedByKey<T>(ps: seq<(string, T)>) {
    forall i, j :: 0 <= i < j < |ps| ==> CodePointLess(ps[i].0, ps[j].0)
  }

  lemma {:induction false} DistinctCountsAtMostOne<T>(xs: seq<T>, key: T -> string, x: T)
    requires DistinctBy(xs, key)
    ensures multiset(xs)[x] <= 1
  {
    if xs != [] {
      assert xs == [xs[0]] + xs[1..];
      DistinctCountsAtMostOne(xs[1..], key, x);
      if x == xs[0] {
        assert x !in xs[1..];
      }
    }
  }

  /** A permutation of a sequence whose keys are distinct has distinct keys. */
  lemma PermutationKeepsDistinct<T>(xs: seq<T>, r: seq<T>, key: T -> string)
    requires multiset(r) == multiset(xs) && DistinctBy(xs, key)
    ensures DistinctBy(r, key)
  {
    forall i, j | 0 <= i < j < |r| ensures key(r[i]) != key(r[j]) {
      if key(r[i]) == key(r[j]) {
        assert r[i] in multiset(xs) && r[j] in multiset(xs);
        assert r[i] == r[j];
        assert r == r[..j] + [r[j]] + r[j + 1..];
        assert r[i] in r[..j];
        assert multiset(r)[r[j]] >= 2;
        DistinctCountsAtMostOne(xs, key, r[j]);
      }
    }
  }

  lemma SortedDistinctIsStrict<T>(ps: seq<(string, T)>)
    requires SortedByKey(ps) && PairKeysDistinct(ps)
    ensures StrictlySortedByKey(ps)
  {
    forall i, j | 0 <= i < j < |ps| ensures CodePointLess(ps[i].0, ps[j].0) {
      LessTotal(ps[i].0, ps[j].0);
    }
  }

  /** Two strictly sorted sequences holding the same elements are equal. */
  lemma {:induction false} StrictlySortedUnique<T>(xs: seq<(string, T)>, ys: seq<(string, T)>)
    requires StrictlySortedByKey(xs) && StrictlySortedByKey(ys)
    requires multiset(xs) == multiset(ys)
    ensures xs == ys
  {
    if xs != [] {
      SortedHeadsAgree(xs, ys);
      TailsSameMultiset(xs, ys);
      StrictlySortedUnique(xs[1..], ys[1..]);
    }
  }

  /** The least element of two strictly sorted sequences holding the same elements is the same. */
  lemma SortedHeadsAgree<T>(xs: seq<(string, T)>, ys: seq<(string, T)>)
    requires StrictlySortedByKey(xs) && StrictlySortedByKey(ys)
    requires multiset(xs) == multiset(ys) && xs != []
    ensures ys != [] && xs[0] == ys[0]
  {
    assert xs[0] in multiset(ys) && |ys| == |multiset(ys)| > 0;
    assert ys[0] in multiset(xs);
    var i :| 0 <= i < |xs| && xs[i] == ys[0];
    var j :| 0 <= j < |ys| && ys[j] == xs[0];
    LessIrreflexive(xs[0].0);
    LessNotBoth(xs[0].0, xs[i].0);
  }

  lemma TailsSameMultiset<T>(xs: seq<T>, ys: seq<T>)
    requires xs != [] && ys != [] && xs[0] == ys[0] && multiset(xs) == multiset(ys)
    ensures multiset(xs[1..]) == multiset(ys[1..])
  {
    assert xs == [xs[0]] + xs[1..] && ys == [ys[0]] + ys[1..];
    assert multiset(xs) == multiset{xs[0]} + multiset(xs[1..]);
    assert multiset(ys) == multiset{xs[0]} + multiset(ys[1..]);
    assert multiset(xs[1..]) == multiset(xs) - multiset{xs[0]};
    assert multiset(ys[1..]) == multiset(ys) - multiset{xs[0]};
  }

  /** A sequence whose keys are distinct holds each element at most once, so equal element sets mean equal multisets. */
  lemma SameElementsSameMultiset<T>(ps: seq<(string, T)>, qs: seq<(string, T)>)
    requires PairKeysDistinct(ps) && PairKeysDistinct(qs)
    requires forall p :: p in ps <==> p in qs
    ensures multiset(ps) == multiset(qs)
  {
    forall x ensures multiset(ps)[x] == multiset(qs)[x] {
      DistinctCountsAtMostOne(ps, PairKey, x);
      DistinctCountsAtMostOne(qs, PairKey, x);
      assert x in ps <==> x in multiset(ps);
      assert x in qs <==> x in multiset(qs);
    }
  }

  /** Sorting by key gives the same result for any two orders of one set of members. */
  lemma SortByKeySameElements<T>(ps: seq<(string, T)>, qs: seq<(string, T)>)
    requires PairKeysDistinct(ps) && PairKeysDistinct(qs)
    requires forall p :: p in ps <==> p in qs
    ensures SortByKey(ps) == SortByKey(qs)
  {
    var sp, sq := SortByKey(ps), SortByKey(qs);
    PermutationKeepsDistinct(ps, sp, PairKey);
    PermutationKeepsDistinct(qs, sq, PairKey);
    SortedDistinctIsStrict(sp);
    SortedDistinctIsStrict(sq);
    SameElementsSameMultiset(ps, qs);
    StrictlySortedUnique(sp, sq);
  }

  /**
   * Two objects whose keys are distinct, equal as sets, and whose values at
   * each key encode alike, give the same sorted (key, text) pairs.
   */
  lemma SortedTextsAgree(ms: seq<Member>, ns: seq<Member>)
    requires DistinctKeys(ms) && DistinctKeys(ns) && Keys(ms) == Keys(ns)
    requires forall i, j :: 0 <= i < |ms| && 0 <= j < |ns| && ms[i].key == ns[j].key ==>
                              Encode(ms[i].value) == Encode(ns[j].value)
    ensures SortByKey(ValueTexts(ms)) == SortByKey(ValueTexts(ns))
  {
    var pa, pb := ValueTexts(ms), ValueTexts(ns);
    forall p ensures p in pa <==> p in pb {
      TextPairShared(ms, ns, p);
      TextPairShared(ns, ms, p);
    }
    assert PairKeysDistinct(pa) && PairKeysDistinct(pb);
    SortByKeySameElements(pa, pb);
  }

  /** A (key, text) pair of one object is a pair of the other when their keys agree and values encode alike. */
  lemma TextPairShared(ms: seq<Member>, ns: seq<Member>, p: (string, string))
    requires Keys(ms) == Keys(ns)
    requires forall i, j :: 0 <= i < |ms| && 0 <= j < |ns| && ms[i].key == ns[j].key ==>
                              Encode(ms[i].value) == Encode(ns[j].value)
    ensures p in ValueTexts(ms) ==> p in ValueTexts(ns)
  {
    var pa, pb := ValueTexts(ms), ValueTexts(ns);
    if p in pa {
      var i :| 0 <= i < |pa| && pa[i] == p;
      var j := FirstIndex(ns, ms[i].key);
      assert pb[j] == p;
    }
  }

  /** Key-order independence: trees with the same content encode identically. */
  lemma {:induction false} EncodeRespectsSameContent(a: Json, b: Json)
    requires SameContent(a, b)
    ensures Encode(a) == Encode(b)
    decreases a
  {
    match a
    case Arr(xs) =>
      var ys := b.items;
      forall i | 0 <= i < |xs| ensures Encode(xs[i]) == Encode(ys[i]) {
        EncodeRespectsSameContent(xs[i], ys[i]);
      }
      assert ItemTexts(xs) == ItemTexts(ys);
    case Obj(ms) =>
      var ns := b.members;
      forall i, j | 0 <= i < |ms| && 0 <= j < |ns| && ms[i].key == ns[j].key
        ensures Encode(ms[i].value) == Encode(ns[j].value)
      {
        EncodeRespectsSameContent(ms[i].value, ns[j].value);
      }
      SortedTextsAgree(ms, ns);
    case _ =>
  }

  /** So do their canonical bytes. */
  lemma CanonicalBytesRespectSameContent(a: Json, b: Json)
    requires SameContent(a, b)
    ensures CanonicalJsonBytes(a) == CanonicalJsonBytes(b)
  {
    EncodeRespectsSameContent(a, b);
  }

  lemma {:induction false} SameContentReflexive(v: Json)
    requires WellFormed(v)
    ensures SameContent(v, v)
    decreases v
  {
    match v
    case Arr(xs) =>
      forall i | 0 <= i < |xs| ensures SameContent(xs[i], xs[i]) {
        SameContentReflexive(xs[i]);
      }
    case Obj(ms) =>
      forall i, j | 0 <= i < |ms| && 0 <= j < |ms| && ms[i].key == ms[j].key
        ensures SameContent(ms[i].value, ms[j].value)
      {
        SameContentReflexive(ms[i].value);
      }
    case _ =>
  }

  /**
   * Insertion order does not matter: an object whose members are a
   * permutation of another's encodes to the same text.
   */
  lemma EncodeIgnoresInsertionOrder(ms: seq<Member>, ns: seq<Member>)
    requires DistinctKeys(ms)
    requires multiset(ns) == multiset(ms)
    ensures Encode(Obj(ns)) == Encode(Obj(ms))
  {
    assert DistinctBy(ms, MemberKey);
    PermutationKeepsDistinct(ms, ns, MemberKey);
    assert DistinctKeys(ns);
    var pa, pb := ValueTexts(ms), ValueTexts(ns);
    forall p ensures p in pb <==> p in pa {
      if p in pb {
        PermutedTextPair(ns, ms, p);
      }
      if p in pa {
        PermutedTextPair(ms, ns, p);
      }
    }
    SortByKeySameElements(pb, pa);
  }

  /** A (key, text) pair of one dict is a pair of any permutation of it. */
  lemma PermutedTextPair(ms: seq<Member>, ns: seq<Member>, p: (string, string))
    requires multiset(ns) == multiset(ms)
    requires p in ValueTexts(ms)
    ensures p in ValueTexts(ns)
  {
    var pa := ValueTexts(ms);
    var i :| 0 <= i < |pa| && pa[i] == p;
    assert ms[i] in multiset(ns);
    var j :| 0 <= j < |ns| && ns[j] == ms[i];
    assert ValueTexts(ns)[j] == p;
  }
}
