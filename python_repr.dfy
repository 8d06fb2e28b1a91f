/** Python's `repr` of a `str`, as the `!r` conversion in the handlers' error
    messages produces it: the quote is chosen from the contents, and the
    backslash, the chosen quote and the ASCII control characters are escaped. */
module PythonRepr {
  import opened Basics

  /** Python quotes with `"` only when the text holds `'` and no `"`: the
      chosen quote then never occurs in the text unless both kinds do, so a
      quote is escaped only in that case. */
  function QuoteFor(s: string): (q: char)
    ensures q == '\'' || q == '"'
    ensures ('\'' in s && '"' in s) || q !in s
  {
    if '\'' in s && '"' !in s then '"' else '\''
  }

  function HexDigit(n: nat): (d: char)
    requires n < 16
  {
    if n < 10 then ('0' as int + n) as char else ('a' as int + n - 10) as char
  }

  predicate IsHexDigit(c: char) {
    '0' <= c <= '9' || 'a' <= c <= 'f'
  }

  function HexValue(c: char): (n: nat)
    requires IsHexDigit(c)
    ensures n < 16 && HexDigit(n) == c
  {
    if c <= '9' then c as int - '0' as int else c as int - 'a' as int + 10
  }

  /** An ASCII control character other than tab, newline and carriage return. */
  predicate IsHexEscaped(c: char) {
    (c < ' ' && c != '\t' && c != '\n' && c != '\r') || c as int == 0x7f
  }

  /** How one character is written inside quotes `q`. */
  function EscapeChar(c: char, q: char): string {
    if c == '\\' then "\\\\"
    else if c == q then ['\\', q]
    else if c == '\t' then "\\t"
    else if c == '\n' then "\\n"
    else if c == '\r' then "\\r"
    else if IsHexEscaped(c) then "\\x" + [HexDigit(c as int / 16), HexDigit(c as int % 16)]
    else [c]
  }

  function Escape(s: string, q: char): (e: string)
    ensures |e| >= |s|
  {
    if s == [] then [] else EscapeChar(s[0], q) + Escape(s[1..], q)
  }

  /** `repr(s)` for a Python `str`. */
  function Repr(s: string): (r: string)
    ensures |r| >= 2 && r[0] == r[|r| - 1] == QuoteFor(s)
  {
    [QuoteFor(s)] + Escape(s, QuoteFor(s)) + [QuoteFor(s)]
  }

  function Prepend(c: char, rest: Option<string>): Option<string> {
    if rest.Some? then Some([c] + rest.value) else None
  }

  /** Reads back the text between the quotes of a `repr`; None for text
      that no escaping produces. */
  function Unescape(e: string): Option<string>
    decreases |e|
  {
    if e == [] then Some([])
    else if e[0] != '\\' then Prepend(e[0], Unescape(e[1..]))
    else if |e| < 2 then None
    else if e[1] == '\\' || e[1] == '\'' || e[1] == '"' then Prepend(e[1], Unescape(e[2..]))
    else if e[1] == 't' then Prepend('\t', Unescape(e[2..]))
    else if e[1] == 'n' then Prepend('\n', Unescape(e[2..]))
    else if e[1] == 'r' then Prepend('\r', Unescape(e[2..]))
    else if e[1] == 'x' && |e| >= 4 && IsHexDigit(e[2]) && IsHexDigit(e[3]) then
      Prepend((HexValue(e[2]) * 16 + HexValue(e[3])) as char, Unescape(e[4..]))
    else None
  }

  lemma UnescapeEscapeChar(c: char, q: char, rest: string)
    requires q == '\'' || q == '"'
    ensures Unescape(EscapeChar(c, q) + rest) == Prepend(c, Unescape(rest))
  {
    var e := EscapeChar(c, q) + rest;
    if IsHexEscaped(c) && c != q && c != '\\' {
      var hi, lo := c as int / 16, c as int % 16;
      assert HexValue(HexDigit(hi)) == hi && HexValue(HexDigit(lo)) == lo;
      assert e[4..] == rest;
    } else if |EscapeChar(c, q)| == 2 {
      assert e[2..] == rest;
    } else {
      assert e[1..] == rest;
    }
  }

  /** Escaping loses nothing: the escaped text reads back as the original. */
  lemma {:induction false} UnescapeEscape(s: string, q: char)
    requires q == '\'' || q == '"'
    ensures Unescape(Escape(s, q)) == Some(s)
  {
    if s != [] {
      UnescapeEscape(s[1..], q);
      UnescapeEscapeChar(s[0], q, Escape(s[1..], q));
      assert [s[0]] + s[1..] == s;
    }
  }

  /** Distinct strings have distinct representations, so a message built
      with `!r` names the offending value unambiguously. */
  lemma ReprInjective(s: string, t: string)
    requires Repr(s) == Repr(t)
    ensures s == t
  {
    var q := QuoteFor(s);
    assert Repr(s)[0] == q && Repr(t)[0] == QuoteFor(t);
    assert Escape(s, q) == Repr(s)[1..|Repr(s)| - 1];
    assert Escape(t, q) == Repr(t)[1..|Repr(t)| - 1];
    UnescapeEscape(s, q);
    UnescapeEscape(t, q);
  }

  /** Text with no quote, no backslash and no control character. */
  predicate IsPlain(s: string) {
    forall i :: 0 <= i < |s| ==> s[i] != '\'' && s[i] != '"' && s[i] != '\\' && s[i] >= ' ' && s[i] as int != 0x7f
  }

  lemma {:induction false} EscapePlain(s: string, q: char)
    requires IsPlain(s) && (q == '\'' || q == '"')
    ensures Escape(s, q) == s
  {
    if s != [] {
      assert IsPlain(s[1..]);
      EscapePlain(s[1..], q);
      assert EscapeChar(s[0], q) == [s[0]];
      assert [s[0]] + s[1..] == s;
    }
  }

  /** Plain text is shown between single quotes, unchanged. */
  lemma PlainRepr(s: string)
    requires IsPlain(s)
    ensures Repr(s) == "'" + s + "'"
  {
    EscapePlain(s, '\'');
  }
}
