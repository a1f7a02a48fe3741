/**
 * Python's `str()` of a value that `json.loads` can produce, which is what
 * the verifier reports as the expected digest when the stored one is not a
 * 64-character string.  A string is its own text; `None`, booleans and
 * integers print as `None`, `True`/`False` and decimal; lists and dicts
 * print as their `repr`, with `", "` and `": "` separators and each string
 * quoted the way `repr` quotes it.
 */
module PyText {

  import opened Wrappers
  import opened JsonValue
  import CanonicalJson

  // ---------------------------------------------------------------------
  // `repr` of a string.
  // ---------------------------------------------------------------------

  /**
   * The quote `repr` puts around a string: `'`, unless the text holds a `'`
   * and no `"`.  Either way the chosen quote occurs in the text only when
   * both kinds do, so it needs escaping only then.
   */
  function QuoteFor(s: string): (q: char)
    ensures q == '\'' || q == '"'
    ensures q == '"' <==> '\'' in s && '"' !in s
    ensures q in s ==> '\'' in s && '"' in s
    ensures '"' in s ==> q == '\''
  {
    if '\'' in s && '"' !in s then '"' else '\''
  }

  /** Code points `repr` shows as `\xhh`: C0 controls other than tab, LF and CR, DEL, the C1 controls, NBSP and the soft hyphen. */
  predicate HexEscaped(c: char) {
    (c as int < 0x20 && c != '\t' && c != '\n' && c != '\r') ||
    (0x7F <= c as int <= 0xA0) || c as int == 0xAD
  }

  /**
   * One character inside a `repr` literal quoted by `q`: a character that
   * stands for itself is never the quote or a backslash, and every other
   * one becomes an escape that starts with a backslash.
   */
  function ReprChar(c: char, q: char): (t: string)
    ensures |t| >= 1
    ensures |t| == 1 ==> t == [c] && c != q && c != '\\'
    ensures |t| > 1 ==> t[0] == '\\'
    ensures c as int >= 0x20 && c != q && c != '\\' && !HexEscaped(c) ==> t == [c]
  {
    if c == q || c == '\\' then ['\\', c]
    else if c == '\t' then "\\t"
    else if c == '\n' then "\\n"
    else if c == '\r' then "\\r"
    else if HexEscaped(c) then "\\x" + [CanonicalJson.HexDigits[c as int / 16], CanonicalJson.HexDigits[c as int % 16]]
    else [c]
  }

  function ReprBody(s: string, q: char): string {
    if s == [] then "" else ReprChar(s[0], q) + ReprBody(s[1..], q)
  }

  /** `repr(s)`: the chosen quote, the escaped text, the quote again. */
  function ReprStr(s: string): (t: string)
    ensures |t| >= 2 && t[0] == t[|t| - 1] == QuoteFor(s)
  {
    var q := QuoteFor(s);
    [q] + ReprBody(s, q) + [q]
  }

  /** No escape of one character is a prefix of another's, so the first one can be read back. */
  lemma ReprCharPrefixFree(c: char, d: char, q: char, r: string, u: string)
    requires q == '\'' || q == '"'
    requires ReprChar(c, q) + r == ReprChar(d, q) + u
    ensures c == d
  {
    var x, y := ReprChar(c, q) + r, ReprChar(d, q) + u;
    assert x[0] == y[0];
    if |ReprChar(c, q)| == 4 && |ReprChar(d, q)| == 4 {
      assert x[2] == y[2] && x[3] == y[3];
      CanonicalJson.HexDigitsDistinct(c as int / 16, d as int / 16);
      CanonicalJson.HexDigitsDistinct(c as int % 16, d as int % 16);
    } else if |ReprChar(c, q)| > 1 && |ReprChar(d, q)| > 1 {
      assert x[1] == y[1];
    }
  }

  lemma {:induction false} ReprBodyInjective(s: string, t: string, q: char)
    requires q == '\'' || q == '"'
    requires ReprBody(s, q) == ReprBody(t, q)
    ensures s == t
  {
    if s != [] && t != [] {
      var es, et := ReprChar(s[0], q), ReprChar(t[0], q);
      ReprCharPrefixFree(s[0], t[0], q, ReprBody(s[1..], q), ReprBody(t[1..], q));
      assert ReprBody(s[1..], q) == (es + ReprBody(s[1..], q))[|es|..];
      ReprBodyInjective(s[1..], t[1..], q);
    }
  }

  /** Distinct strings have distinct `repr`s. */
  lemma ReprStrInjective(s: string, t: string)
    requires ReprStr(s) == ReprStr(t)
    ensures s == t
  {
    var q := QuoteFor(s);
    var rs, rt := ReprStr(s), ReprStr(t);
    assert ReprBody(t, q) == rt[1..|rt| - 1];
    ReprBodyInjective(s, t, q);
  }

  // ---------------------------------------------------------------------
  // `repr` of a value and `str` of a value.
  // ---------------------------------------------------------------------

  /** Items joined by ", ", as in the `repr` of a list or dict. */
  function CommaSpaced(parts: seq<string>): string {
    if |parts| == 0 then ""
    else if |parts| == 1 then parts[0]
    else parts[0] + ", " + CommaSpaced(parts[1..])
  }

  function Repr(v: Json): string
    decreases v, 1
  {
    match v
    case Null => "None"
    case Bool(b) => if b then "True" else "False"
    case Int(n) => CanonicalJson.IntText(n)
    case Str(s) => ReprStr(s)
    case Arr(items) => "[" + CommaSpaced(ReprItems(items)) + "]"
    case Obj(ms) => "{" + CommaSpaced(ReprMembers(ms)) + "}"
  }

  function ReprItems(items: seq<Json>): (ts: seq<string>)
    decreases items, 0
    ensures |ts| == |items|
  {
    if items == [] then [] else [Repr(items[0])] + ReprItems(items[1..])
  }

  /** Dict entries in insertion order, each as `repr(key): repr(value)`. */
  function ReprMembers(ms: seq<Member>): (ts: seq<string>)
    decreases ms, 0
    ensures |ts| == |ms|
  {
    if ms == [] then [] else [ReprStr(ms[0].key) + ": " + Repr(ms[0].value)] + ReprMembers(ms[1..])
  }

  /** `str(x)` for the result `x` of `d.get(k)`: a missing key reads as `None`. */
  function Str(x: Option<Json>): (t: string)
    ensures x.Some? && x.value.Str? ==> t == x.value.s
    ensures x.None? || x.value.Null? ==> t == "None"
    ensures x.Some? && x.value.Int? ==> t == CanonicalJson.IntText(x.value.n)
    ensures x.Some? && x.value.Bool? ==> t == (if x.value.b then "True" else "False")
  {
    match x
    case None => "None"
    case Some(v) => if v.Str? then v.s else Repr(v)
  }
}
