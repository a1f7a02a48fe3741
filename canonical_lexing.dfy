/**
 * The canonical text has no insignificant whitespace: reading it with a
 * small lexer that tracks whether it is inside a string literal, every
 * character met outside the literals is one of the structural characters
 * `{}[],:`, a digit, `-`, or a letter of `true`, `false`, `null`.  In
 * addition no character of the text is a control character, since the
 * encoder escapes those even inside literals.
 */
module CanonicalLexing {

  import opened JsonValue
  import opened CanonicalJson

  datatype LexState = Between | InString | AfterBackslash

  function Next(st: LexState, c: char): LexState {
    match st
    case Between => if c == '"' then InString else Between
    case InString => if c == '"' then Between else if c == '\\' then AfterBackslash else InString
    case AfterBackslash => InString
  }

  /** The lexer state after reading `s`. */
  function Run(st: LexState, s: string): LexState
    decreases |s|
  {
    if s == [] then st else Run(Next(st, s[0]), s[1..])
  }

  /** The characters of `s` that lie outside every string literal (quotes excluded). */
  function Outside(st: LexState, s: string): string
    decreases |s|
  {
    if s == [] then ""
    else (if st == Between && s[0] != '"' then [s[0]] else "") + Outside(Next(st, s[0]), s[1..])
  }

  const StructuralChars: string := "{}[],:-0123456789truefalsn"

  /** `t` is a complete run of tokens: it leaves the lexer between tokens and holds only structural characters there. */
  predicate Closed(t: string) {
    Run(Between, t) == Between && forall c :: c in Outside(Between, t) ==> c in StructuralChars
  }

  lemma {:induction false} RunAppend(st: LexState, a: string, b: string)
    ensures Run(st, a + b) == Run(Run(st, a), b)
    decreases |a|
  {
    if a == [] {
      assert a + b == b;
    } else {
      assert (a + b)[0] == a[0] && (a + b)[1..] == a[1..] + b;
      RunAppend(Next(st, a[0]), a[1..], b);
    }
  }

  lemma {:induction false} OutsideAppend(st: LexState, a: string, b: string)
    ensures Outside(st, a + b) == Outside(st, a) + Outside(Run(st, a), b)
    decreases |a|
  {
    if a == [] {
      assert a + b == b;
    } else {
      assert (a + b)[0] == a[0] && (a + b)[1..] == a[1..] + b;
      OutsideAppend(Next(st, a[0]), a[1..], b);
    }
  }

  lemma ClosedAppend(a: string, b: string)
    requires Closed(a) && Closed(b)
    ensures Closed(a + b)
  {
    RunAppend(Between, a, b);
    OutsideAppend(Between, a, b);
  }

  /** Text without a quote character is read entirely between tokens. */
  lemma {:induction false} QuoteFreeText(t: string)
    requires forall i :: 0 <= i < |t| ==> t[i] != '"'
    ensures Run(Between, t) == Between && Outside(Between, t) == t
    decreases |t|
  {
    if t != [] {
      QuoteFreeText(t[1..]);
      assert t == [t[0]] + t[1..];
    }
  }

  lemma StructuralText(t: string)
    requires forall i :: 0 <= i < |t| ==> t[i] in StructuralChars
    ensures Closed(t)
  {
    QuoteFreeText(t);
  }

  /** Inside a literal, an escaped string never closes the literal early. */
  lemma {:induction false} EscapeStaysInString(s: string)
    ensures Run(InString, Escape(s)) == InString
    ensures Outside(InString, Escape(s)) == ""
    decreases |s|
  {
    if s != [] {
      var e := EscapeChar(s[0]);
      RunAppend(InString, e, Escape(s[1..]));
      OutsideAppend(InString, e, Escape(s[1..]));
      EscapeCharStaysInString(s[0]);
      EscapeStaysInString(s[1..]);
    }
  }

  lemma EscapeCharStaysInString(c: char)
    ensures Run(InString, EscapeChar(c)) == InString
    ensures Outside(InString, EscapeChar(c)) == ""
  {
    var e := EscapeChar(c);
    if |e| > 1 {
      assert e[0] == '\\';
      var tail := e[2..];
      assert forall i :: 0 <= i < |tail| ==> tail[i] != '"' && tail[i] != '\\';
      InStringPlainText(tail);
      assert e == [e[0]] + [e[1]] + tail;
      RunAppend(InString, [e[0]] + [e[1]], tail);
      OutsideAppend(InString, [e[0]] + [e[1]], tail);
    }
  }

  lemma {:induction false} InStringPlainText(t: string)
    requires forall i :: 0 <= i < |t| ==> t[i] != '"' && t[i] != '\\'
    ensures Run(InString, t) == InString && Outside(InString, t) == ""
    decreases |t|
  {
    if t != [] {
      InStringPlainText(t[1..]);
    }
  }

  lemma QuoteClosed(s: string)
    ensures Run(Between, Quote(s)) == Between
    ensures Outside(Between, Quote(s)) == ""
  {
    EscapeStaysInString(s);
    RunAppend(Between, "\"", Escape(s));
    OutsideAppend(Between, "\"", Escape(s));
    RunAppend(Between, "\"" + Escape(s), "\"");
    OutsideAppend(Between, "\"" + Escape(s), "\"");
  }

  lemma {:induction false} JoinedClosed(parts: seq<string>)
    requires forall i :: 0 <= i < |parts| ==> Closed(parts[i])
    ensures Closed(Joined(parts))
    decreases |parts|
  {
    if |parts| == 0 {
      StructuralText("");
    } else if |parts| > 1 {
      JoinedClosed(parts[1..]);
      StructuralText(",");
      ClosedAppend(parts[0], ",");
      ClosedAppend(parts[0] + ",", Joined(parts[1..]));
    }
  }

  lemma Bracketed(open: string, body: string, close: string)
    requires |open| == 1 && open[0] in StructuralChars
    requires |close| == 1 && close[0] in StructuralChars
    requires Closed(body)
    ensures Closed(open + body + close)
  {
    StructuralText(open);
    StructuralText(close);
    ClosedAppend(open, body);
    ClosedAppend(open + body, close);
  }

  lemma MemberTextClosed(k: string, t: string)
    requires Closed(t)
    ensures Closed(Quote(k) + ":" + t)
  {
    QuoteClosed(k);
    StructuralText(":");
    ClosedAppend(Quote(k), ":");
    ClosedAppend(Quote(k) + ":", t);
  }

  /** Every encoded value is a closed run of tokens. */
  lemma {:induction false} EncodeClosed(v: Json)
    ensures Closed(Encode(v))
    decreases v
  {
    match v
    case Null => StructuralText("null");
    case Bool(b) => StructuralText("true"); StructuralText("false");
    case Int(n) => IntTextClosed(n);
    case Str(s) => QuoteClosed(s);
    case Arr(items) =>
      forall i | 0 <= i < |items| ensures Closed(Encode(items[i])) {
        EncodeClosed(items[i]);
      }
      ItemsClosed(items);
    case Obj(ms) =>
      forall i | 0 <= i < |ms| ensures Closed(Encode(ms[i].value)) {
        EncodeClosed(ms[i].value);
      }
      MembersClosed(ms);
  }

  lemma IntTextClosed(n: int)
    ensures Closed(IntText(n))
  {
    var t := IntText(n);
    forall i | 0 <= i < |t| ensures t[i] in StructuralChars {
    }
    StructuralText(t);
  }

  lemma {:induction false} ItemsClosed(items: seq<Json>)
    requires forall i :: 0 <= i < |items| ==> Closed(Encode(items[i]))
    ensures Closed("[" + Joined(ItemTexts(items)) + "]")
  {
    var texts := ItemTexts(items);
    JoinedClosed(texts);
    Bracketed("[", Joined(texts), "]");
  }

  lemma {:induction false} MembersClosed(ms: seq<Member>)
    requires forall i :: 0 <= i < |ms| ==> Closed(Encode(ms[i].value))
    ensures Closed("{" + Joined(MemberTexts(SortByKey(ValueTexts(ms)))) + "}")
  {
    var pairs := ValueTexts(ms);
    var sorted := SortByKey(pairs);
    forall i | 0 <= i < |sorted| ensures Closed(sorted[i].1) {
      assert sorted[i] in multiset(pairs);
    }
    var texts := MemberTexts(sorted);
    forall i | 0 <= i < |texts| ensures Closed(texts[i]) {
      MemberTextClosed(sorted[i].0, sorted[i].1);
    }
    JoinedClosed(texts);
    Bracketed("{", Joined(texts), "}");
  }

  /** No whitespace between tokens: spaces, tabs and line breaks occur only inside string literals. */
  lemma NoWhitespaceOutsideStrings(v: Json)
    ensures Run(Between, Encode(v)) == Between
    ensures forall c :: c in Outside(Between, Encode(v)) ==> c != ' ' && c != '\t' && c != '\n' && c != '\r'
  {
    EncodeClosed(v);
    var out := Outside(Between, Encode(v));
    forall c | c in out ensures c != ' ' && c != '\t' && c != '\n' && c != '\r' {
      StructuralNotWhitespace(c);
    }
  }

  lemma StructuralNotWhitespace(c: char)
    requires c in StructuralChars
    ensures c != ' ' && c != '\t' && c != '\n' && c != '\r'
  {
    var i :| 0 <= i < |StructuralChars| && StructuralChars[i] == c;
  }

  // ---------------------------------------------------------------------
  // No control characters at all: the encoder escapes them.
  // ---------------------------------------------------------------------

  predicate Printable(t: string) {
    forall i :: 0 <= i < |t| ==> t[i] as int >= 0x20
  }

  lemma PrintableAppend(a: string, b: string)
    requires Printable(a) && Printable(b)
    ensures Printable(a + b)
  {
  }

  lemma {:induction false} EscapePrintable(s: string)
    ensures Printable(Escape(s))
    decreases |s|
  {
    if s != [] {
      EscapePrintable(s[1..]);
      EscapeCharPrintable(s[0]);
      PrintableAppend(EscapeChar(s[0]), Escape(s[1..]));
    }
  }

  lemma EscapeCharPrintable(c: char)
    ensures Printable(EscapeChar(c))
  {
    if c as int < 0x20 && c != '\n' && c != '\r' && c != '\t' && c as int != 0x08 && c as int != 0x0C {
      var h1, h2 := HexDigits[c as int / 16], HexDigits[c as int % 16];
      assert EscapeChar(c) == "\\u00" + [h1, h2];
    }
  }

  lemma {:induction false} JoinedPrintable(parts: seq<string>)
    requires forall i :: 0 <= i < |parts| ==> Printable(parts[i])
    ensures Printable(Joined(parts))
    decreases |parts|
  {
    if |parts| > 1 {
      JoinedPrintable(parts[1..]);
      PrintableAppend(parts[0] + ",", Joined(parts[1..]));
    }
  }

  lemma {:induction false} MembersPrintable(ms: seq<Member>)
    requires forall i :: 0 <= i < |ms| ==> Printable(Encode(ms[i].value))
    ensures Printable("{" + Joined(MemberTexts(SortByKey(ValueTexts(ms)))) + "}")
  {
    var sorted := SortByKey(ValueTexts(ms));
    var texts := MemberTexts(sorted);
    assert forall i :: 0 <= i < |texts| ==> Printable(texts[i]) by {
      forall i | 0 <= i < |texts| ensures Printable(texts[i]) {
        assert sorted[i] in multiset(sorted);
        MemberTextPrintable(ms, sorted[i]);
      }
    }
    JoinedPrintable(texts);
    PrintableAppend("{", Joined(texts));
    PrintableAppend("{" + Joined(texts), "}");
  }

  lemma {:induction false} MemberTextPrintable(ms: seq<Member>, p: (string, string))
    requires forall i :: 0 <= i < |ms| ==> Printable(Encode(ms[i].value))
    requires p in multiset(ValueTexts(ms))
    ensures Printable(Quote(p.0) + ":" + p.1)
  {
    var pairs := ValueTexts(ms);
    assert p in pairs;
    var j :| 0 <= j < |pairs| && pairs[j] == p;
    EscapePrintable(p.0);
    PrintableAppend("\"" + Escape(p.0), "\"");
    PrintableAppend(Quote(p.0), ":");
    PrintableAppend(Quote(p.0) + ":", p.1);
  }

  lemma IntTextPrintable(n: int)
    ensures Printable(IntText(n))
  {
    var t := IntText(n);
    assert forall i :: 0 < i < |t| ==> t[i] in Digits;
  }

  lemma {:induction false} QuotePrintable(s: string)
    ensures Printable(Quote(s))
  {
    EscapePrintable(s);
    PrintableAppend("\"" + Escape(s), "\"");
  }

  lemma {:induction false} ItemsPrintable(items: seq<Json>)
    requires forall i :: 0 <= i < |items| ==> Printable(Encode(items[i]))
    ensures Printable("[" + Joined(ItemTexts(items)) + "]")
  {
    var texts := ItemTexts(items);
    JoinedPrintable(texts);
    PrintableAppend("[" + Joined(texts), "]");
  }

  /** The canonical text contains no raw control character, so no tab, CR or LF even inside literals. */
  lemma {:induction false} EncodePrintable(v: Json)
    ensures Printable(Encode(v))
    decreases v
  {
    match v
    case Null =>
    case Bool(b) =>
    case Int(n) =>
      IntTextPrintable(n);
    case Str(s) =>
      QuotePrintable(s);
    case Arr(items) =>
      forall i | 0 <= i < |items| ensures Printable(Encode(items[i])) {
        EncodePrintable(items[i]);
      }
      ItemsPrintable(items);
    case Obj(ms) =>
      forall i | 0 <= i < |ms| ensures Printable(Encode(ms[i].value)) {
        EncodePrintable(ms[i].value);
      }
      MembersPrintable(ms);
  }
}
