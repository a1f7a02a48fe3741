/**
 * The canonical text can be read back: it determines the content of the
 * value it was made from.  With `CanonicalOrder` this gives an iff: two
 * well-formed values have the same canonical text exactly when they hold
 * the same content.  The proof is a unique-reading argument: a value's text
 * followed by what may follow it inside a larger text (nothing, a comma or
 * a closing bracket) can be split in only one way.
 */
module CanonicalInjective {

  import opened JsonValue
  import opened CanonicalJson
  import opened CanonicalOrder
  import Utf8

  /** What may follow a value inside a canonical text: nothing, a separator or a closing bracket. */
  predicate Delimited(r: string) {
    r == [] || r[0] == ',' || r[0] == ']' || r[0] == '}'
  }

  // ---------------------------------------------------------------------
  // Scalars
  // ---------------------------------------------------------------------

  /** The first character of a value's text names its kind, and is never a delimiter. */
  lemma EncodeLead(v: Json)
    ensures Encode(v) != []
    ensures Encode(v)[0] == 'n' <==> v.Null?
    ensures Encode(v)[0] == 't' <==> v == Bool(true)
    ensures Encode(v)[0] == 'f' <==> v == Bool(false)
    ensures Encode(v)[0] == '"' <==> v.Str?
    ensures Encode(v)[0] == '[' <==> v.Arr?
    ensures Encode(v)[0] == '{' <==> v.Obj?
    ensures !Delimited(Encode(v))
  {
    if v.Int? {
      var t := IntText(v.n);
      assert t[0] == '-' || t[0] in Digits;
    }
  }

  /** The number of decimal digits at the front of `t`. */
  function DigitRun(t: string): (n: nat)
    ensures n <= |t|
  {
    if t == [] || t[0] !in Digits then 0 else 1 + DigitRun(t[1..])
  }

  lemma {:induction false} DigitRunAppend(d: string, r: string)
    requires forall i :: 0 <= i < |d| ==> d[i] in Digits
    requires Delimited(r)
    ensures DigitRun(d + r) == |d|
  {
    if d == [] {
      assert d + r == r;
    } else {
      assert (d + r)[1..] == d[1..] + r;
      DigitRunAppend(d[1..], r);
    }
  }

  /** The digits of an integer's text, after its sign. */
  function Magnitude(t: string): string {
    if t != [] && t[0] == '-' then t[1..] else t
  }

  lemma IntTextDigitRun(m: int, r: string)
    requires Delimited(r)
    ensures |IntText(m)| - |Magnitude(IntText(m))| == (if m < 0 then 1 else 0)
    ensures DigitRun(Magnitude(IntText(m)) + r) == |Magnitude(IntText(m))|
  {
    var t := IntText(m);
    var d := Magnitude(t);
    var o := if m < 0 then 1 else 0;
    assert forall i :: 0 <= i < |d| ==> d[i] == t[o + i];
    DigitRunAppend(d, r);
  }

  lemma MagnitudeAppend(t: string, r: string)
    requires t != []
    ensures Magnitude(t) + r == Magnitude(t + r)
  {
    if t[0] == '-' {
      assert (t + r)[1..] == t[1..] + r;
    }
  }

  /** Two splittings of one text at the same length agree. */
  lemma SplitAtLength(t: string, u: string, r: string, s: string)
    requires t + r == u + s && |t| == |u|
    ensures t == u && r == s
  {
    assert r == (t + r)[|t|..] && s == (u + s)[|u|..];
  }

  /** Two splittings of one text with the same rest agree. */
  lemma SplitAtRest(t: string, u: string, r: string)
    requires t + r == u + r
    ensures t == u
  {
    SplitAtLength(t, u, r, r);
  }

  lemma NoRest(t: string)
    ensures t + "" == t
  {
  }

  lemma Assoc(a: string, b: string, c: string)
    ensures a + b + c == a + (b + c)
  {
  }

  /** An integer's text ends where its digits end. */
  lemma IntTextDelimited(m: int, n: int, r: string, s: string)
    requires Delimited(r) && Delimited(s)
    requires IntText(m) + r == IntText(n) + s
    ensures m == n && r == s
  {
    var t, u := IntText(m), IntText(n);
    IntTextDigitRun(m, r);
    IntTextDigitRun(n, s);
    MagnitudeAppend(t, r);
    MagnitudeAppend(u, s);
    SplitAtLength(t, u, r, s);
    IntTextInjective(m, n);
  }

  /** A closing quote never starts the escaped text of a character. */
  lemma EscapedLead(x: string, t: string)
    requires t != [] && t[0] == '"'
    ensures (Escape(x) + t)[0] == '"' <==> x == []
  {
    if x != [] {
      var e := EscapeChar(x[0]);
      assert e[0] != '"';
    }
  }

  lemma EscapeCons(x: string, t: string)
    requires x != []
    ensures Escape(x) + t == EscapeChar(x[0]) + (Escape(x[1..]) + t)
  {
    assert Escape(x) == EscapeChar(x[0]) + Escape(x[1..]);
    Assoc(EscapeChar(x[0]), Escape(x[1..]), t);
  }

  /** An escaped string body ends at the first unescaped quote. */
  lemma {:induction false} EscapedPrefix(x: string, y: string, t: string, u: string)
    requires t != [] && t[0] == '"' && u != [] && u[0] == '"'
    requires Escape(x) + t == Escape(y) + u
    ensures x == y && t == u
  {
    EscapedLead(x, t);
    EscapedLead(y, u);
    if x == [] {
      assert Escape(x) + t == t && Escape(y) + u == u;
    } else {
      var tx, ty := Escape(x[1..]) + t, Escape(y[1..]) + u;
      EscapeCons(x, t);
      EscapeCons(y, u);
      EscapeCharPrefixFree(x[0], y[0], tx, ty);
      SplitAtLength(EscapeChar(x[0]), EscapeChar(y[0]), tx, ty);
      EscapedPrefix(x[1..], y[1..], t, u);
    }
  }

  /** A string literal is prefix-free: whatever follows it, it is read back whole. */
  lemma QuotePrefix(x: string, y: string, r: string, s: string)
    requires Quote(x) + r == Quote(y) + s
    ensures x == y && r == s
  {
    var t, u := "\"" + r, "\"" + s;
    Assoc("\"" + Escape(x), "\"", r);
    Assoc("\"", Escape(x), t);
    Assoc("\"" + Escape(y), "\"", s);
    Assoc("\"", Escape(y), u);
    SplitAtLength("\"", "\"", Escape(x) + t, Escape(y) + u);
    EscapedPrefix(x, y, t, u);
    SplitAtLength("\"", "\"", r, s);
  }

  // ---------------------------------------------------------------------
  // Lists of texts joined by commas
  // ---------------------------------------------------------------------

  /** No text in `ts` is empty or starts with a delimiter. */
  predicate Led(ts: seq<string>) {
    forall i :: 0 <= i < |ts| ==> !Delimited(ts[i])
  }

  /** Any text of `ts` and any of `us`, each followed by a delimited rest, agree only with equal rests. */
  ghost predicate Separable(ts: seq<string>, us: seq<string>) {
    forall i, j, r, s ::
      0 <= i < |ts| && 0 <= j < |us| && Delimited(r) && Delimited(s) && ts[i] + r == us[j] + s ==> r == s
  }

  lemma SeparableTail(ts: seq<string>, us: seq<string>)
    requires ts != [] && us != [] && Separable(ts, us)
    ensures Separable(ts[1..], us[1..])
  {
    forall i, j, r, s | 0 <= i < |ts[1..]| && 0 <= j < |us[1..]| && Delimited(r) && Delimited(s) &&
      ts[1..][i] + r == us[1..][j] + s
      ensures r == s
    {
      assert ts[i + 1] + r == us[j + 1] + s;
    }
  }

  /** A joined list is empty exactly when a closing bracket after it comes first. */
  lemma JoinedLead(ts: seq<string>, t: string)
    requires Led(ts)
    requires t != [] && (t[0] == ']' || t[0] == '}')
    ensures (Joined(ts) + t)[0] == t[0] <==> ts == []
  {
    if |ts| > 1 {
    }
  }

  /** The first text of a joined list, and what follows it. */
  lemma JoinedCons(ts: seq<string>, t: string)
    requires ts != []
    ensures Joined(ts) + t == ts[0] + (if |ts| == 1 then t else "," + (Joined(ts[1..]) + t))
  {
    if |ts| > 1 {
    }
  }

  /** A comma-joined list of separable texts before a closing bracket is read back uniquely. */
  lemma {:induction false} JoinedSeparable(ts: seq<string>, us: seq<string>, t: string, u: string)
    requires Led(ts) && Led(us) && Separable(ts, us)
    requires t != [] && u != [] && t[0] == u[0] && (t[0] == ']' || t[0] == '}')
    requires Joined(ts) + t == Joined(us) + u
    ensures ts == us && t == u
    decreases |ts|
  {
    JoinedLead(ts, t);
    JoinedLead(us, u);
    if ts == [] {
      assert t == Joined(us) + u;
    } else {
      JoinedCons(ts, t);
      JoinedCons(us, u);
      var rt := if |ts| == 1 then t else "," + (Joined(ts[1..]) + t);
      var ru := if |us| == 1 then u else "," + (Joined(us[1..]) + u);
      assert Delimited(rt) && Delimited(ru);
      assert rt == ru;
      SplitAtRest(ts[0], us[0], rt);
      if |ts| == 1 {
        assert |us| == 1;
        assert us == [us[0]];
      } else {
        assert |us| != 1;
        SplitAtLength(",", ",", Joined(ts[1..]) + t, Joined(us[1..]) + u);
        SeparableTail(ts, us);
        JoinedSeparable(ts[1..], us[1..], t, u);
      }
    }
  }

  // ---------------------------------------------------------------------
  // Values
  // ---------------------------------------------------------------------

  /** Text between an opening and a closing bracket, then a rest. */
  lemma Bracketed(o: string, j: string, c: string, r: string)
    ensures o + j + c + r == o + (j + (c + r))
  {
  }

  /** An object member's text splits into its key and what follows the colon. */
  lemma MemberTextSplit(k: string, t: string, k': string, t': string, r: string, s: string)
    requires Quote(k) + ":" + t + r == Quote(k') + ":" + t' + s
    ensures k == k' && t + r == t' + s
  {
    assert Quote(k) + ":" + t + r == Quote(k) + (":" + (t + r));
    assert Quote(k') + ":" + t' + s == Quote(k') + (":" + (t' + s));
    QuotePrefix(k, k', ":" + (t + r), ":" + (t' + s));
    SplitAtLength(":", ":", t + r, t' + s);
  }

  /** Every sorted (key, text) pair of an object comes from one of its members. */
  lemma PairSource(ms: seq<Member>, p: (string, string)) returns (k: nat)
    requires p in SortByKey(ValueTexts(ms))
    ensures k < |ms| && p == (ms[k].key, Encode(ms[k].value))
  {
    var ps := ValueTexts(ms);
    assert p in multiset(SortByKey(ps));
    assert p in ps;
    k :| 0 <= k < |ps| && ps[k] == p;
  }

  /**
   * A value's text followed by a delimited rest determines the rest: no
   * canonical text is a proper prefix of another up to a delimiter.
   */
  lemma {:induction false} EncodeDelimited(a: Json, b: Json, r: string, s: string)
    requires Delimited(r) && Delimited(s)
    requires Encode(a) + r == Encode(b) + s
    ensures Encode(a) == Encode(b) && r == s
    decreases a, 2
  {
    EncodeLead(a);
    EncodeLead(b);
    assert (Encode(a) + r)[0] == Encode(a)[0] && (Encode(b) + s)[0] == Encode(b)[0];
    match a
    case Int(m) => IntTextDelimited(m, b.n, r, s);
    case Str(x) => QuotePrefix(x, b.s, r, s);
    case Arr(xs) => ArrDelimited(xs, b.items, r, s);
    case Obj(ms) => ObjDelimited(ms, b.members, r, s);
    case _ => SplitAtLength(Encode(a), Encode(b), r, s);
  }

  lemma ArrDelimited(xs: seq<Json>, ys: seq<Json>, r: string, s: string)
    requires Delimited(r) && Delimited(s)
    requires Encode(Arr(xs)) + r == Encode(Arr(ys)) + s
    ensures ItemTexts(xs) == ItemTexts(ys) && r == s
    decreases Arr(xs), 1
  {
    var ta, tb := ItemTexts(xs), ItemTexts(ys);
    Bracketed("[", Joined(ta), "]", r);
    Bracketed("[", Joined(tb), "]", s);
    SplitAtLength("[", "[", Joined(ta) + ("]" + r), Joined(tb) + ("]" + s));
    ItemsSeparable(xs, ys);
    JoinedSeparable(ta, tb, "]" + r, "]" + s);
    SplitAtLength("]", "]", r, s);
  }

  lemma ItemsSeparable(xs: seq<Json>, ys: seq<Json>)
    ensures Led(ItemTexts(xs)) && Led(ItemTexts(ys))
    ensures Separable(ItemTexts(xs), ItemTexts(ys))
    decreases Arr(xs), 0
  {
    var ta, tb := ItemTexts(xs), ItemTexts(ys);
    forall i | 0 <= i < |ta| ensures !Delimited(ta[i]) {
      EncodeLead(xs[i]);
    }
    forall j | 0 <= j < |tb| ensures !Delimited(tb[j]) {
      EncodeLead(ys[j]);
    }
    forall i, j, r, s | 0 <= i < |ta| && 0 <= j < |tb| && Delimited(r) && Delimited(s) && ta[i] + r == tb[j] + s
      ensures r == s
    {
      EncodeDelimited(xs[i], ys[j], r, s);
    }
  }

  lemma ObjDelimited(ms: seq<Member>, ns: seq<Member>, r: string, s: string)
    requires Delimited(r) && Delimited(s)
    requires Encode(Obj(ms)) + r == Encode(Obj(ns)) + s
    ensures MemberTexts(SortByKey(ValueTexts(ms))) == MemberTexts(SortByKey(ValueTexts(ns))) && r == s
    decreases Obj(ms), 1
  {
    var ta, tb := MemberTexts(SortByKey(ValueTexts(ms))), MemberTexts(SortByKey(ValueTexts(ns)));
    Bracketed("{", Joined(ta), "}", r);
    Bracketed("{", Joined(tb), "}", s);
    SplitAtLength("{", "{", Joined(ta) + ("}" + r), Joined(tb) + ("}" + s));
    MembersSeparable(ms, ns);
    JoinedSeparable(ta, tb, "}" + r, "}" + s);
    SplitAtLength("}", "}", r, s);
  }

  lemma QuoteLead(x: string, t: string)
    ensures (Quote(x) + t)[0] == '"'
  {
  }

  lemma MemberTextsLed(ps: seq<(string, string)>)
    ensures Led(MemberTexts(ps))
  {
    var ts := MemberTexts(ps);
    forall i | 0 <= i < |ts| ensures ts[i][0] == '"' {
      QuoteLead(ps[i].0, ":" + ps[i].1);
      Assoc(Quote(ps[i].0), ":", ps[i].1);
    }
  }

  lemma MembersSeparable(ms: seq<Member>, ns: seq<Member>)
    ensures Led(MemberTexts(SortByKey(ValueTexts(ms)))) && Led(MemberTexts(SortByKey(ValueTexts(ns))))
    ensures Separable(MemberTexts(SortByKey(ValueTexts(ms))), MemberTexts(SortByKey(ValueTexts(ns))))
    decreases Obj(ms), 0
  {
    var ps, qs := SortByKey(ValueTexts(ms)), SortByKey(ValueTexts(ns));
    var ta, tb := MemberTexts(ps), MemberTexts(qs);
    MemberTextsLed(ps);
    MemberTextsLed(qs);
    forall i, j, r, s | 0 <= i < |ta| && 0 <= j < |tb| && Delimited(r) && Delimited(s) && ta[i] + r == tb[j] + s
      ensures r == s
    {
      var k := PairSource(ms, ps[i]);
      var l := PairSource(ns, qs[j]);
      MemberTextSplit(ps[i].0, ps[i].1, qs[j].0, qs[j].1, r, s);
      EncodeDelimited(ms[k].value, ns[l].value, r, s);
    }
  }

  // ---------------------------------------------------------------------
  // Content
  // ---------------------------------------------------------------------

  /** Member texts are read back into their (key, text) pairs. */
  lemma MemberTextsInjective(ps: seq<(string, string)>, qs: seq<(string, string)>)
    requires MemberTexts(ps) == MemberTexts(qs)
    ensures ps == qs
  {
    var ts := MemberTexts(ps);
    forall i | 0 <= i < |ps| ensures ps[i] == qs[i] {
      assert ts[i] + "" == ts[i];
      MemberTextSplit(ps[i].0, ps[i].1, qs[i].0, qs[i].1, "", "");
      assert ps[i].1 + "" == ps[i].1 && qs[i].1 + "" == qs[i].1;
    }
  }

  /** A member of one object whose sorted pairs equal another's has a counterpart with the same key and text. */
  lemma Counterpart(ms: seq<Member>, ns: seq<Member>, i: nat) returns (j: nat)
    requires SortByKey(ValueTexts(ms)) == SortByKey(ValueTexts(ns))
    requires i < |ms|
    ensures j < |ns| && ns[j].key == ms[i].key && Encode(ns[j].value) == Encode(ms[i].value)
  {
    var p := ValueTexts(ms)[i];
    assert p in multiset(ValueTexts(ms));
    var l := PairSource(ns, p);
    j := l;
  }

  /** Objects with equal sorted pairs have the same keys. */
  lemma SortedPairsSameKeys(ms: seq<Member>, ns: seq<Member>)
    requires SortByKey(ValueTexts(ms)) == SortByKey(ValueTexts(ns))
    ensures Keys(ms) <= Keys(ns)
  {
    forall k | k in Keys(ms) ensures k in Keys(ns) {
      var j := Counterpart(ms, ns, FirstIndex(ms, k));
    }
  }

  /** Members with one key, in objects with equal sorted pairs, encode alike. */
  lemma SameKeySameText(ms: seq<Member>, ns: seq<Member>, i: nat, j: nat)
    requires DistinctKeys(ns)
    requires SortByKey(ValueTexts(ms)) == SortByKey(ValueTexts(ns))
    requires i < |ms| && j < |ns| && ms[i].key == ns[j].key
    ensures Encode(ms[i].value) == Encode(ns[j].value)
  {
    var j' := Counterpart(ms, ns, i);
    DistinctKeyIndex(ns, j', j);
  }

  lemma DistinctKeyIndex(ns: seq<Member>, a: nat, b: nat)
    requires DistinctKeys(ns) && a < |ns| && b < |ns| && ns[a].key == ns[b].key
    ensures a == b
  {
  }

  /** The canonical text determines the content: equal texts of well-formed values mean the same content. */
  lemma {:induction false} EncodeDeterminesContent(a: Json, b: Json)
    requires WellFormed(a) && WellFormed(b)
    requires Encode(a) == Encode(b)
    ensures SameContent(a, b)
    decreases a, 2
  {
    EncodeLead(a);
    EncodeLead(b);
    match a
    case Int(m) => IntTextInjective(m, b.n);
    case Str(x) => QuoteInjective(x, b.s);
    case Arr(xs) => ArrContent(xs, b.items);
    case Obj(ms) => ObjContent(ms, b.members);
    case _ =>
  }

  lemma ArrContent(xs: seq<Json>, ys: seq<Json>)
    requires WellFormed(Arr(xs)) && WellFormed(Arr(ys))
    requires Encode(Arr(xs)) == Encode(Arr(ys))
    ensures SameContent(Arr(xs), Arr(ys))
    decreases Arr(xs), 1
  {
    NoRest(Encode(Arr(xs)));
    NoRest(Encode(Arr(ys)));
    ArrDelimited(xs, ys, "", "");
    forall i | 0 <= i < |xs| ensures SameContent(xs[i], ys[i]) {
      EncodeDeterminesContent(xs[i], ys[i]);
    }
  }

  /** Objects with the same text have the same sorted (key, text) pairs. */
  lemma SamePairs(ms: seq<Member>, ns: seq<Member>)
    requires Encode(Obj(ms)) == Encode(Obj(ns))
    ensures SortByKey(ValueTexts(ms)) == SortByKey(ValueTexts(ns))
  {
    NoRest(Encode(Obj(ms)));
    NoRest(Encode(Obj(ns)));
    ObjDelimited(ms, ns, "", "");
    MemberTextsInjective(SortByKey(ValueTexts(ms)), SortByKey(ValueTexts(ns)));
  }

  /** Objects with the same text have the same keys. */
  lemma SameKeys(ms: seq<Member>, ns: seq<Member>)
    requires Encode(Obj(ms)) == Encode(Obj(ns))
    ensures Keys(ms) == Keys(ns)
  {
    SamePairs(ms, ns);
    SortedPairsSameKeys(ms, ns);
    SortedPairsSameKeys(ns, ms);
  }

  lemma ObjContent(ms: seq<Member>, ns: seq<Member>)
    requires WellFormed(Obj(ms)) && WellFormed(Obj(ns))
    requires Encode(Obj(ms)) == Encode(Obj(ns))
    ensures SameContent(Obj(ms), Obj(ns))
    decreases Obj(ms), 1
  {
    SameKeys(ms, ns);
    forall i, j | 0 <= i < |ms| && 0 <= j < |ns| && ms[i].key == ns[j].key
      ensures SameContent(ms[i].value, ns[j].value)
    {
      MemberContent(ms, ns, i, j);
    }
  }

  lemma MemberContent(ms: seq<Member>, ns: seq<Member>, i: nat, j: nat)
    requires WellFormed(Obj(ms)) && WellFormed(Obj(ns))
    requires Encode(Obj(ms)) == Encode(Obj(ns))
    requires i < |ms| && j < |ns| && ms[i].key == ns[j].key
    ensures SameContent(ms[i].value, ns[j].value)
    decreases Obj(ms), 0
  {
    SamePairs(ms, ns);
    SameKeySameText(ms, ns, i, j);
    EncodeDeterminesContent(ms[i].value, ns[j].value);
  }

  /** Two well-formed values have the same canonical text exactly when they hold the same content. */
  lemma EncodeSameContentIff(a: Json, b: Json)
    requires WellFormed(a) && WellFormed(b)
    ensures Encode(a) == Encode(b) <==> SameContent(a, b)
  {
    if Encode(a) == Encode(b) {
      EncodeDeterminesContent(a, b);
    }
    if SameContent(a, b) {
      EncodeRespectsSameContent(a, b);
    }
  }

  /** The same holds of the canonical bytes. */
  lemma CanonicalBytesSameContentIff(a: Json, b: Json)
    requires WellFormed(a) && WellFormed(b)
    ensures CanonicalJsonBytes(a) == CanonicalJsonBytes(b) <==> SameContent(a, b)
  {
    if CanonicalJsonBytes(a) == CanonicalJsonBytes(b) {
      Utf8.EncodeInjective(Encode(a), Encode(b));
    }
    EncodeSameContentIff(a, b);
  }
}
