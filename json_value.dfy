/**
 * JSON values as the integrity core sees them once `json.loads` has produced
 * them: null, booleans, integers, strings, arrays and objects.  A Python dict
 * is modelled as an association list of members in insertion order; the dict
 * operations the core uses (`get`, `setdefault`, item assignment, `pop`) are
 * the functions Get, SetDefault, Set and Remove below.
 */
module JsonValue {

  import opened Wrappers

  datatype Json =
    | Null
    | Bool(b: bool)
    | Int(n: int)
    | Str(s: string)
    | Arr(items: seq<Json>)
    | Obj(members: seq<Member>)

  datatype Member = Member(key: string, value: Json)

  /** The keys of an association list. */
  function Keys(ms: seq<Member>): (ks: set<string>)
    ensures forall i :: 0 <= i < |ms| ==> ms[i].key in ks
  {
    if ms == [] then {}
    else
      var rest := Keys(ms[1..]);
      assert forall i :: 1 <= i < |ms| ==> ms[i] == ms[1..][i - 1];
      {ms[0].key} + rest
  }

  lemma {:induction false} KeysAppend(a: seq<Member>, b: seq<Member>)
    ensures Keys(a + b) == Keys(a) + Keys(b)
  {
    if a != [] {
      assert (a + b)[0] == a[0] && (a + b)[1..] == a[1..] + b;
      KeysAppend(a[1..], b);
    } else {
      assert a + b == b;
    }
  }

  /** A Python dict never holds a key twice. */
  predicate DistinctKeys(ms: seq<Member>) {
    forall i, j :: 0 <= i < j < |ms| ==> ms[i].key != ms[j].key
  }

  /** Every object in the tree is a proper dict (no repeated key). */
  predicate WellFormed(v: Json) {
    match v
    case Arr(items) => forall i :: 0 <= i < |items| ==> WellFormed(items[i])
    case Obj(ms) => DistinctKeys(ms) && forall i :: 0 <= i < |ms| ==> WellFormed(ms[i].value)
    case _ => true
  }

  /** The position of the first member with key `k`, or `|ms|` when no member has it. */
  function FirstIndex(ms: seq<Member>, k: string): (i: nat)
    ensures i <= |ms|
    ensures i < |ms| <==> k in Keys(ms)
    ensures i < |ms| ==> ms[i].key == k
    ensures forall j :: 0 <= j < i ==> ms[j].key != k
  {
    if ms == [] then 0
    else if ms[0].key == k then 0
    else
      var i := FirstIndex(ms[1..], k);
      assert forall j :: 1 <= j < |ms| ==> ms[j] == ms[1..][j - 1];
      i + 1
  }

  /** `d.get(k)`: the value of the first member with key `k`, if any. */
  function Get(ms: seq<Member>, k: string): (r: Option<Json>)
    ensures r.None? <==> k !in Keys(ms)
    ensures r.Some? ==> ms[FirstIndex(ms, k)] == Member(k, r.value)
  {
    if ms == [] then None
    else if ms[0].key == k then Some(ms[0].value)
    else Get(ms[1..], k)
  }

  /** `d[k] = v`: overwrite the first member with key `k` in place, or append one. */
  function Set(ms: seq<Member>, k: string, v: Json): (r: seq<Member>)
    ensures Keys(r) == Keys(ms) + {k}
    ensures k in Keys(ms) ==> |r| == |ms| && forall i :: 0 <= i < |ms| ==> r[i].key == ms[i].key
    ensures k !in Keys(ms) ==> r == ms + [Member(k, v)]
  {
    if ms == [] then [Member(k, v)]
    else if ms[0].key == k then [Member(k, v)] + ms[1..]
    else
      var rest := Set(ms[1..], k, v);
      SetCons(ms, k, v, rest);
      [ms[0]] + rest
  }

  /** The step of `Set` past a member with another key. */
  lemma SetCons(ms: seq<Member>, k: string, v: Json, rest: seq<Member>)
    requires ms != [] && ms[0].key != k
    requires Keys(rest) == Keys(ms[1..]) + {k}
    requires k in Keys(ms[1..]) ==> |rest| == |ms[1..]| && forall i :: 0 <= i < |ms[1..]| ==> rest[i].key == ms[1..][i].key
    requires k !in Keys(ms[1..]) ==> rest == ms[1..] + [Member(k, v)]
    ensures var r := [ms[0]] + rest;
      Keys(r) == Keys(ms) + {k} &&
      (k in Keys(ms) ==> |r| == |ms| && forall i :: 0 <= i < |ms| ==> r[i].key == ms[i].key) &&
      (k !in Keys(ms) ==> r == ms + [Member(k, v)])
  {
    var r := [ms[0]] + rest;
    assert r[1..] == rest;
    assert ms == [ms[0]] + ms[1..];
    if k !in Keys(ms) {
      assert r == [ms[0]] + (ms[1..] + [Member(k, v)]);
    }
  }

  /** Assignment keeps a dict's keys distinct. */
  lemma SetKeepsDistinct(ms: seq<Member>, k: string, v: Json)
    requires DistinctKeys(ms)
    ensures DistinctKeys(Set(ms, k, v))
  {
    var r := Set(ms, k, v);
    if k !in Keys(ms) {
      forall i, j | 0 <= i < j < |r| ensures r[i].key != r[j].key {
        if j == |ms| {
        }
      }
    }
  }

  /** `d.pop(k, None)`: drop the members with key `k` (a dict holds at most one). */
  function Remove(ms: seq<Member>, k: string): (r: seq<Member>)
    ensures Keys(r) == Keys(ms) - {k}
    ensures |r| <= |ms|
    ensures k !in Keys(ms) ==> r == ms
  {
    if ms == [] then []
    else
      var rest := Remove(ms[1..], k);
      if ms[0].key == k then rest
      else
        RemoveCons(ms, k, rest);
        [ms[0]] + rest
  }

  /** The step of `Remove` past a member with another key. */
  lemma RemoveCons(ms: seq<Member>, k: string, rest: seq<Member>)
    requires ms != [] && ms[0].key != k
    requires Keys(rest) == Keys(ms[1..]) - {k} && |rest| <= |ms[1..]|
    requires k !in Keys(ms[1..]) ==> rest == ms[1..]
    ensures var r := [ms[0]] + rest;
      Keys(r) == Keys(ms) - {k} && |r| <= |ms| &&
      (k !in Keys(ms) ==> r == ms)
  {
    var r := [ms[0]] + rest;
    assert r[1..] == rest;
    if k !in Keys(ms) {
      assert ms == [ms[0]] + ms[1..];
    }
  }

  /** Removing a key keeps a dict's keys distinct. */
  lemma {:induction false} RemoveKeepsDistinct(ms: seq<Member>, k: string)
    requires DistinctKeys(ms)
    ensures DistinctKeys(Remove(ms, k))
  {
    if ms != [] {
      assert DistinctKeys(ms[1..]);
      RemoveKeepsDistinct(ms[1..], k);
      if ms[0].key != k {
        ConsDistinct(ms, Remove(ms[1..], k));
      }
    }
  }

  /** Every member left by `Remove` was a member before. */
  lemma {:induction false} RemoveMembersFrom(ms: seq<Member>, k: string)
    ensures forall i :: 0 <= i < |Remove(ms, k)| ==> Remove(ms, k)[i] in ms
  {
    if ms != [] {
      RemoveMembersFrom(ms[1..], k);
      var rest := Remove(ms[1..], k);
      assert forall i :: 0 <= i < |rest| ==> rest[i] in ms;
    }
  }

  /** Every member after `Set` was a member before, or is the one assigned. */
  lemma {:induction false} SetMembersFrom(ms: seq<Member>, k: string, v: Json)
    ensures forall i :: 0 <= i < |Set(ms, k, v)| ==> Set(ms, k, v)[i] in ms || Set(ms, k, v)[i] == Member(k, v)
  {
    if ms != [] && ms[0].key != k {
      SetMembersFrom(ms[1..], k, v);
      var rest := Set(ms[1..], k, v);
      assert forall i :: 0 <= i < |rest| ==> rest[i] in ms || rest[i] == Member(k, v);
    }
  }

  /** Removing a key keeps a proper dict proper. */
  lemma RemoveKeepsWellFormed(ms: seq<Member>, k: string)
    requires WellFormed(Obj(ms))
    ensures WellFormed(Obj(Remove(ms, k)))
  {
    RemoveKeepsDistinct(ms, k);
    RemoveMembersFrom(ms, k);
  }

  /** Assigning a proper value keeps a proper dict proper. */
  lemma SetKeepsWellFormed(ms: seq<Member>, k: string, v: Json)
    requires WellFormed(Obj(ms)) && WellFormed(v)
    ensures WellFormed(Obj(Set(ms, k, v)))
  {
    SetKeepsDistinct(ms, k, v);
    SetMembersFrom(ms, k, v);
  }

  /** Putting the head of a dict before members drawn from its tail keeps keys distinct. */
  lemma ConsDistinct(ms: seq<Member>, rest: seq<Member>)
    requires ms != [] && DistinctKeys(ms) && DistinctKeys(rest)
    requires Keys(rest) <= Keys(ms[1..])
    ensures DistinctKeys([ms[0]] + rest)
  {
    var r := [ms[0]] + rest;
    HeadKeyNotInTail(ms);
    forall i, j | 0 <= i < j < |r| ensures r[i].key != r[j].key {
      assert r[j] == rest[j - 1];
      if i > 0 {
        assert r[i] == rest[i - 1];
      } else {
      }
    }
  }

  lemma HeadKeyNotInTail(ms: seq<Member>)
    requires ms != [] && DistinctKeys(ms)
    ensures ms[0].key !in Keys(ms[1..])
  {
    assert forall i :: 0 <= i < |ms[1..]| ==> ms[1..][i] == ms[i + 1];
    assert FirstIndex(ms[1..], ms[0].key) == |ms[1..]|;
  }

  /** `d.setdefault(k, default)`, with the value it returns dropped. */
  function SetDefault(ms: seq<Member>, k: string, default: Json): (r: seq<Member>)
    ensures Get(r, k) == if k in Keys(ms) then Get(ms, k) else Some(default)
    ensures forall k' :: k' != k ==> Get(r, k') == Get(ms, k')
    ensures DistinctKeys(ms) ==> DistinctKeys(r)
  {
    if k in Keys(ms) then ms
    else
      GetAppend(ms, Member(k, default), k);
      forall k' | k' != k ensures Get(ms + [Member(k, default)], k') == Get(ms, k') {
        GetAppend(ms, Member(k, default), k');
      }
      if DistinctKeys(ms) then SetKeepsDistinct(ms, k, default); Set(ms, k, default)
      else Set(ms, k, default)
  }

  lemma {:induction false} GetAppend(ms: seq<Member>, m: Member, k: string)
    ensures Get(ms + [m], k) == if k in Keys(ms) then Get(ms, k) else if m.key == k then Some(m.value) else None
  {
    if ms != [] {
      assert (ms + [m])[1..] == ms[1..] + [m];
      assert Keys(ms) == {ms[0].key} + Keys(ms[1..]);
      GetAppend(ms[1..], m, k);
    }
  }

  /** After `d[k] = v`, `d.get(k)` is `v` and every other key reads as before. */
  lemma {:induction false} GetSet(ms: seq<Member>, k: string, v: Json, k': string)
    ensures Get(Set(ms, k, v), k') == if k' == k then Some(v) else Get(ms, k')
  {
    if ms != [] && ms[0].key != k {
      GetSet(ms[1..], k, v, k');
    }
  }

  /** After `d.pop(k)`, `d.get(k)` is None and every other key reads as before. */
  lemma {:induction false} GetRemove(ms: seq<Member>, k: string, k': string)
    ensures Get(Remove(ms, k), k') == if k' == k then None else Get(ms, k')
  {
    if ms != [] {
      GetRemove(ms[1..], k, k');
    }
  }

  /** Writing a key and then popping it is the same as popping it. */
  lemma {:induction false} RemoveSet(ms: seq<Member>, k: string, v: Json)
    ensures Remove(Set(ms, k, v), k) == Remove(ms, k)
  {
    if ms != [] && ms[0].key != k {
      RemoveSet(ms[1..], k, v);
    }
  }

  /** The second of two writes to one key wins. */
  lemma {:induction false} SetSet(ms: seq<Member>, k: string, v: Json, w: Json)
    ensures Set(Set(ms, k, v), k, w) == Set(ms, k, w)
  {
    if ms != [] && ms[0].key != k {
      SetSet(ms[1..], k, v, w);
    }
  }

  /** Writing one key commutes with popping another. */
  lemma {:induction false} RemoveSetOther(ms: seq<Member>, k: string, v: Json, k': string)
    requires k != k'
    ensures Remove(Set(ms, k, v), k') == Set(Remove(ms, k'), k, v)
  {
    if ms == [] {
    } else if ms[0].key == k {
    } else {
      var s := Set(ms, k, v);
      RemoveSetOther(ms[1..], k, v, k');
      if ms[0].key == k' {
      } else {
      }
    }
  }

  /** Writing back the value a key already has changes nothing. */
  lemma {:induction false} SetGet(ms: seq<Member>, k: string)
    requires Get(ms, k).Some?
    ensures Set(ms, k, Get(ms, k).value) == ms
  {
    if ms[0].key != k {
      SetGet(ms[1..], k);
    }
  }

  /** `setdefault` followed by an assignment to the same key is just the assignment. */
  lemma SetDefaultThenSet(ms: seq<Member>, k: string, default: Json, v: Json)
    ensures Set(SetDefault(ms, k, default), k, v) == Set(ms, k, v)
  {
    if k !in Keys(ms) {
      SetSet(ms, k, default, v);
    }
  }

  /** `setdefault` leaves the dict as an assignment of the value the key ends up holding would. */
  lemma SetDefaultAsSet(ms: seq<Member>, k: string, default: Json)
    ensures SetDefault(ms, k, default) == Set(ms, k, Get(SetDefault(ms, k, default), k).value)
  {
    if k in Keys(ms) {
      SetGet(ms, k);
    } else {
      GetSet(ms, k, default, k);
    }
  }
}
