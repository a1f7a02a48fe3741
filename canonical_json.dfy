/**
 * The canonical JSON encoder of `_canonical_json_bytes`: `json.dumps` with
 * `sort_keys=True`, `separators=(",", ":")` and `ensure_ascii=False`, then
 * UTF-8.  Keys are ordered by code point, there is no whitespace between
 * tokens, strings are escaped the way Python's encoder escapes them (only
 * quote, backslash and the C0 controls), and non-ASCII text is left as is.
 */
module CanonicalJson {

  import opened Wrappers
  import opened JsonValue
  import Utf8

  // ---------------------------------------------------------------------
  // Key order: Python compares `str` values code point by code point.
  // ---------------------------------------------------------------------

  predicate CodePointLess(a: string, b: string)
    decreases |a|
  {
    if |a| == 0 then |b| > 0
    else if |b| == 0 then false
    else if a[0] != b[0] then a[0] < b[0]
    else CodePointLess(a[1..], b[1..])
  }

  lemma {:induction false} LessIrreflexive(a: string)
    ensures !CodePointLess(a, a)
  {
    if |a| > 0 {
      LessIrreflexive(a[1..]);
    }
  }

  lemma {:induction false} LessTransitive(a: string, b: string, c: string)
    requires CodePointLess(a, b) && CodePointLess(b, c)
    ensures CodePointLess(a, c)
  {
    if |a| > 0 && a[0] == b[0] && b[0] == c[0] {
      LessTransitive(a[1..], b[1..], c[1..]);
    }
  }

  lemma {:induction false} LessTotal(a: string, b: string)
    ensures a == b || CodePointLess(a, b) || CodePointLess(b, a)
  {
    if |a| > 0 && |b| > 0 && a[0] == b[0] {
      LessTotal(a[1..], b[1..]);
      if a[1..] == b[1..] {
      }
    }
  }

  lemma LessAsymmetric(a: string, b: string)
    requires CodePointLess(a, b)
    ensures !CodePointLess(b, a)
  {
    if CodePointLess(b, a) {
      LessTransitive(a, b, a);
      LessIrreflexive(a);
    }
  }

  /** At most one of two keys precedes the other. */
  lemma LessNotBoth(a: string, b: string)
    ensures !(CodePointLess(a, b) && CodePointLess(b, a))
  {
    if CodePointLess(a, b) {
      LessAsymmetric(a, b);
    }
  }

  /** "Not after" is transitive, because the order is total. */
  lemma NotLessTransitive(a: string, b: string, c: string)
    requires !CodePointLess(b, a) && !CodePointLess(c, b)
    ensures !CodePointLess(c, a)
  {
    LessTotal(a, b);
    if a != b && CodePointLess(c, a) {
      LessTransitive(c, a, b);
    }
  }

  // ---------------------------------------------------------------------
  // Sorting the (key, text) pairs of an object: `sorted(d.items())`.
  // ---------------------------------------------------------------------

  predicate SortedByKey<T>(ps: seq<(string, T)>) {
    forall i, j :: 0 <= i < j < |ps| ==> !CodePointLess(ps[j].0, ps[i].0)
  }

  function InsertByKey<T>(p: (string, T), ps: seq<(string, T)>): (r: seq<(string, T)>)
    requires SortedByKey(ps)
    ensures SortedByKey(r)
    ensures multiset(r) == multiset(ps) + multiset{p}
  {
    if ps == [] then [p]
    else if CodePointLess(ps[0].0, p.0) then
      var rest := InsertByKey(p, ps[1..]);
      assert ps == [ps[0]] + ps[1..];
      forall q | q in rest ensures !CodePointLess(q.0, ps[0].0) {
        assert q in multiset(rest);
        if q == p {
          LessAsymmetric(ps[0].0, p.0);
        } else {
          assert q in ps[1..];
        }
      }
      var r := [ps[0]] + rest;
      assert forall j :: 0 < j < |r| ==> r[j] == rest[j - 1];
      r
    else
      var r := [p] + ps;
      forall j | 0 < j < |r| ensures !CodePointLess(r[j].0, p.0) {
        assert r[j] == ps[j - 1];
        if j > 1 {
          NotLessTransitive(p.0, ps[0].0, ps[j - 1].0);
        }
      }
      r
  }

  /** Insertion sort: stable, so it is a function of the pair sequence. */
  function SortByKey<T>(ps: seq<(string, T)>): (r: seq<(string, T)>)
    ensures SortedByKey(r)
    ensures multiset(r) == multiset(ps)
  {
    if ps == [] then []
    else
      assert ps == [ps[0]] + ps[1..];
      InsertByKey(ps[0], SortByKey(ps[1..]))
  }

  // ---------------------------------------------------------------------
  // Numbers: Python renders an int in decimal with a leading '-' if negative.
  // ---------------------------------------------------------------------

  const Digits: string := "0123456789"
  const HexDigits: string := "0123456789abcdef"

  function DecimalDigits(n: nat): (t: string)
    ensures |t| >= 1
    ensures forall i :: 0 <= i < |t| ==> t[i] in Digits
    ensures t[0] == '0' <==> n == 0
  {
    if n < 10 then [Digits[n]] else DecimalDigits(n / 10) + [Digits[n % 10]]
  }

  /** The number a string of decimal digits denotes. */
  function DigitsValue(t: string): int
  {
    if t == [] then 0 else 10 * DigitsValue(t[..|t| - 1]) + (t[|t| - 1] as int - '0' as int)
  }

  lemma {:induction false} DecimalDigitsValue(n: nat)
    ensures DigitsValue(DecimalDigits(n)) == n
  {
    if n >= 10 {
      var t := DecimalDigits(n);
      DecimalDigitsValue(n / 10);
    }
  }

  /**
   * Python's `repr` of an int: an optional `-`, then the decimal digits of
   * the magnitude, with no leading zero except in `0` itself.
   */
  function IntText(n: int): (t: string)
    ensures |t| >= 1
    ensures t[0] == '-' <==> n < 0
    ensures n < 0 ==> |t| >= 2
    ensures forall i :: (if n < 0 then 1 else 0) <= i < |t| ==> t[i] in Digits
    ensures DigitsValue(if n < 0 then t[1..] else t) == (if n < 0 then -n else n)
    ensures (if n < 0 then t[1] else t[0]) == '0' <==> n == 0
    ensures n == 0 ==> t == "0"
  {
    DecimalDigitsValue(if n < 0 then -n else n);
    if n < 0 then "-" + DecimalDigits(-n) else DecimalDigits(n)
  }

  lemma DecimalDigitsInjective(a: nat, b: nat)
    requires DecimalDigits(a) == DecimalDigits(b)
    ensures a == b
  {
    DecimalDigitsValue(a);
    DecimalDigitsValue(b);
  }

  lemma IntTextInjective(m: int, n: int)
    requires IntText(m) == IntText(n)
    ensures m == n
  {
    if m < 0 {
      assert n < 0;
      var dm, dn := DecimalDigits(-m), DecimalDigits(-n);
      DecimalDigitsInjective(-m, -n);
    } else {
      DecimalDigitsInjective(m, n);
    }
  }

  // ---------------------------------------------------------------------
  // Strings: with ensure_ascii=False only '"', '\' and U+0000..U+001F are
  // escaped; the short forms are used for \b \f \n \r \t, the rest become
  // \u00xx with lower-case hex digits.
  // ---------------------------------------------------------------------

  /**
   * Only '"', '\' and the C0 controls are escaped, each by a sequence that
   * starts with a backslash; every other character, non-ASCII ones included,
   * stands for itself.
   */
  function EscapeChar(c: char): (t: string)
    ensures |t| >= 1
    ensures |t| > 1 <==> c == '"' || c == '\\' || c as int < 0x20
    ensures |t| == 1 ==> t == [c]
    ensures |t| > 1 ==> t[0] == '\\'
  {
    if c == '"' then "\\\""
    else if c == '\\' then "\\\\"
    else if c == '\n' then "\\n"
    else if c == '\r' then "\\r"
    else if c == '\t' then "\\t"
    else if c as int == 0x08 then "\\b"
    else if c as int == 0x0C then "\\f"
    else if c as int < 0x20 then "\\u00" + [HexDigits[c as int / 16], HexDigits[c as int % 16]]
    else [c]
  }

  function Escape(s: string): string {
    if s == [] then "" else EscapeChar(s[0]) + Escape(s[1..])
  }

  function Quote(s: string): string {
    "\"" + Escape(s) + "\""
  }

  /** No character needs escaping: no quote, no backslash, no control character. */
  predicate PlainText(s: string) {
    forall i :: 0 <= i < |s| ==> s[i] != '"' && s[i] != '\\' && s[i] as int >= 0x20
  }

  /** `ensure_ascii=False`: text that needs no escape, non-ASCII text included, is copied as it is. */
  lemma {:induction false} PlainTextUnescaped(s: string)
    requires PlainText(s)
    ensures Escape(s) == s
  {
    if s != [] {
      PlainTextUnescaped(s[1..]);
      assert s == [s[0]] + s[1..];
    }
  }

  /** No escape sequence is a prefix of another, so the first one can be read back. */
  lemma EscapeCharPrefixFree(c: char, d: char, r: string, q: string)
    requires EscapeChar(c) + r == EscapeChar(d) + q
    ensures c == d
  {
    var x, y := EscapeChar(c) + r, EscapeChar(d) + q;
    assert x[0] == y[0];
    if c as int < 0x20 && d as int < 0x20 && |EscapeChar(c)| == 6 && |EscapeChar(d)| == 6 {
      assert x[4] == y[4] && x[5] == y[5];
      HexDigitsDistinct(c as int / 16, d as int / 16);
      HexDigitsDistinct(c as int % 16, d as int % 16);
    } else if |EscapeChar(c)| > 1 && |EscapeChar(d)| > 1 {
      assert x[1] == y[1];
    }
  }

  lemma HexDigitsDistinct(i: nat, j: nat)
    requires i < 16 && j < 16 && HexDigits[i] == HexDigits[j]
    ensures i == j
  {
  }

  lemma {:induction false} EscapeInjective(s: string, t: string)
    requires Escape(s) == Escape(t)
    ensures s == t
  {
    if s != [] && t != [] {
      EscapeCharPrefixFree(s[0], t[0], Escape(s[1..]), Escape(t[1..]));
      assert Escape(t[1..]) == (EscapeChar(t[0]) + Escape(t[1..]))[|EscapeChar(t[0])|..];
      EscapeInjective(s[1..], t[1..]);
    }
  }

  lemma QuoteInjective(s: string, t: string)
    requires Quote(s) == Quote(t)
    ensures s == t
  {
    assert Escape(s) == Quote(s)[1..|Quote(s)| - 1];
    EscapeInjective(s, t);
  }

  // ---------------------------------------------------------------------
  // The encoder.
  // ---------------------------------------------------------------------

  /** Items joined by "," with nothing around the separator. */
  function Joined(parts: seq<string>): string {
    if |parts| == 0 then ""
    else if |parts| == 1 then parts[0]
    else parts[0] + "," + Joined(parts[1..])
  }

  /** Each member as its key and its encoded value, in the dict's order. */
  function ValueTexts(ms: seq<Member>): (ps: seq<(string, string)>)
    decreases ms, 0
    ensures |ps| == |ms|
    ensures forall i :: 0 <= i < |ms| ==> ps[i] == (ms[i].key, Encode(ms[i].value))
  {
    if ms == [] then []
    else
      var rest := ValueTexts(ms[1..]);
      [(ms[0].key, Encode(ms[0].value))] + rest
  }

  function MemberTexts(ps: seq<(string, string)>): (ts: seq<string>)
    ensures |ts| == |ps|
    ensures forall i :: 0 <= i < |ps| ==> ts[i] == Quote(ps[i].0) + ":" + ps[i].1
  {
    if ps == [] then [] else [Quote(ps[0].0) + ":" + ps[0].1] + MemberTexts(ps[1..])
  }

  function ItemTexts(items: seq<Json>): (ts: seq<string>)
    decreases items, 0
    ensures |ts| == |items|
    ensures forall i :: 0 <= i < |items| ==> ts[i] == Encode(items[i])
  {
    if items == [] then [] else [Encode(items[0])] + ItemTexts(items[1..])
  }

  /** `json.dumps(v, sort_keys=True, separators=(",", ":"), ensure_ascii=False)`. */
  function Encode(v: Json): string
    decreases v, 1
  {
    match v
    case Null => "null"
    case Bool(b) => if b then "true" else "false"
    case Int(n) => IntText(n)
    case Str(s) => Quote(s)
    case Arr(items) => "[" + Joined(ItemTexts(items)) + "]"
    case Obj(ms) => "{" + Joined(MemberTexts(SortByKey(ValueTexts(ms)))) + "}"
  }

  /** `_canonical_json_bytes`: the canonical text, UTF-8 encoded. */
  function CanonicalJsonBytes(v: Json): (bs: seq<Utf8.byte>)
    ensures |bs| >= |Encode(v)|
    ensures Utf8.Decode(bs) == Some(Encode(v))
  {
    Utf8.DecodeEncode(Encode(v));
    Utf8.Encode(Encode(v))
  }
}
