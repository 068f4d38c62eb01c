/**
 * `preg_quote` without a delimiter argument: a backslash before each of
 * `. \ + * ? [ ^ ] $ ( ) { } = ! < > | : - #`, and NUL written as `\000`.
 * `/` is not escaped. `Unquote` reads such text back; it accepts exactly the
 * escaped literals that `preg_quote` can produce.
 */
module PregQuote {
  import opened Wrappers
  import opened Php

  predicate IsSpecial(c: char) {
    || c == '.' || c == '\\' || c == '+' || c == '*' || c == '?' || c == '['
    || c == '^' || c == ']' || c == '$' || c == '(' || c == ')' || c == '{'
    || c == '}' || c == '=' || c == '!' || c == '<' || c == '>' || c == '|'
    || c == ':' || c == '-' || c == '#'
  }

  /** The escape of one character. */
  function QuoteChar(c: char): (r: string)
    ensures 1 <= |r| <= 4
  {
    if c == '\0' then "\\000"
    else if IsSpecial(c) then ['\\', c]
    else [c]
  }

  /** `preg_quote($s)`. */
  function Quote(s: string): (r: string)
    ensures |r| >= |s|
  {
    if s == [] then [] else QuoteChar(s[0]) + Quote(s[1..])
  }

  /** The escape of a one-character text is that character's escape. */
  lemma QuoteOne(c: char)
    ensures Quote([c]) == QuoteChar(c)
  {
    assert [c][1..] == [];
  }

  lemma {:induction false} QuoteConcat(a: string, b: string)
    ensures Quote(a + b) == Quote(a) + Quote(b)
    decreases |a|
  {
    if a == [] {
      assert a + b == b;
    } else {
      assert (a + b)[0] == a[0];
      assert (a + b)[1..] == a[1..] + b;
      QuoteConcat(a[1..], b);
      calc {
        Quote(a + b);
        QuoteChar(a[0]) + Quote(a[1..] + b);
        QuoteChar(a[0]) + (Quote(a[1..]) + Quote(b));
        (QuoteChar(a[0]) + Quote(a[1..])) + Quote(b);
      }
    }
  }

  /** Text with nothing to escape is left as it is. */
  lemma {:induction false} QuotePlain(s: string)
    requires forall i :: 0 <= i < |s| ==> !IsSpecial(s[i]) && s[i] != '\0'
    ensures Quote(s) == s
    decreases |s|
  {
    if s != [] {
      QuotePlain(s[1..]);
    }
  }

  /** Escaped text never starts with a bare `<` (it is always written `\<`). */
  lemma QuoteHead(s: string)
    ensures Quote(s) == [] || Quote(s)[0] != '<'
  {
    if s != [] {
      assert Quote(s)[0] == QuoteChar(s[0])[0];
    }
  }

  function Prepend(c: char, r: Option<string>): Option<string> {
    match r
    case Some(s) => Some([c] + s)
    case None => None
  }

  /** The literal that an escaped text stands for, if it is one. */
  function Unquote(q: string): Option<string>
    decreases |q|
  {
    if q == [] then Some([])
    else if q[0] == '\\' then
      if |q| >= 4 && q[1] == '0' && q[2] == '0' && q[3] == '0' then Prepend('\0', Unquote(q[4..]))
      else if |q| >= 2 && IsSpecial(q[1]) then Prepend(q[1], Unquote(q[2..]))
      else None
    else if !IsSpecial(q[0]) && q[0] != '\0' then Prepend(q[0], Unquote(q[1..]))
    else None
  }

  /** Unescaping reads one escape off the front. */
  lemma UnquoteStep(c: char, q: string)
    ensures Unquote(QuoteChar(c) + q) == Prepend(c, Unquote(q))
  {
    var x := QuoteChar(c) + q;
    if c == '\0' {
      assert x[0] == '\\' && x[1] == '0' && x[2] == '0' && x[3] == '0' && x[4..] == q;
    } else if IsSpecial(c) {
      assert x[0] == '\\' && x[1] == c && x[2..] == q;
    } else {
      assert x[0] == c && x[1..] == q;
    }
  }

  /** Round trip: unescaping what `preg_quote` produced gives back the input. */
  lemma {:induction false} UnquoteQuote(s: string)
    ensures Unquote(Quote(s)) == Some(s)
    decreases |s|
  {
    if s != [] {
      UnquoteQuote(s[1..]);
      UnquoteStep(s[0], Quote(s[1..]));
      assert [s[0]] + s[1..] == s;
    }
  }

  /** No escape is a proper prefix of another: two escapes that start the same text agree. */
  lemma QuoteCharPrefixFree(a: char, b: char, x: string)
    requires StartsWith(x, QuoteChar(a)) && StartsWith(x, QuoteChar(b))
    ensures a == b
  {
    assert x[0] == QuoteChar(a)[0] == QuoteChar(b)[0];
    if x[0] == '\\' {
      assert x[1] == QuoteChar(a)[1] == QuoteChar(b)[1];
    }
  }

  /** If `t` starts `s`, the escape of `t` starts the escape of `s`. */
  lemma QuotePrefixOf(s: string, t: string)
    requires StartsWith(s, t)
    ensures StartsWith(Quote(s), Quote(t))
  {
    assert s == t + s[|t|..];
    QuoteConcat(t, s[|t|..]);
  }

  /** If the escape of `t` starts the escape of `s`, the two begin with the same character. */
  lemma QuoteHeadsAgree(s: string, t: string)
    requires t != [] && StartsWith(Quote(s), Quote(t))
    ensures s != [] && s[0] == t[0]
  {
    var qs, qt := Quote(s), Quote(t);
    var e := QuoteChar(t[0]);
    assert qt == e + Quote(t[1..]);
    assert s != [];
    assert qs == QuoteChar(s[0]) + Quote(s[1..]);
    assert StartsWith(qs, e) by {
      assert qs[..|e|] == qt[..|e|];
    }
    QuoteCharPrefixFree(s[0], t[0], qs);
  }

  /** Conversely, only a prefix of `s` has an escape that starts the escape of `s`. */
  lemma {:induction false} QuotePrefixBack(s: string, t: string)
    requires StartsWith(Quote(s), Quote(t))
    ensures StartsWith(s, t)
    decreases |t|
  {
    if t != [] {
      QuoteHeadsAgree(s, t);
      var e := QuoteChar(s[0]);
      assert Quote(s) == e + Quote(s[1..]) && Quote(t) == e + Quote(t[1..]);
      StartsWithDrop(e, Quote(s[1..]), Quote(t[1..]));
      QuotePrefixBack(s[1..], t[1..]);
      StartsWithCons(s, t);
    }
  }

  /**
   * `preg_quote` is a prefix code: the escape of `t` starts the escape of `s`
   * exactly when `t` starts `s`.
   */
  lemma QuotePrefix(s: string, t: string)
    ensures StartsWith(Quote(s), Quote(t)) <==> StartsWith(s, t)
  {
    if StartsWith(s, t) {
      QuotePrefixOf(s, t);
    }
    if StartsWith(Quote(s), Quote(t)) {
      QuotePrefixBack(s, t);
    }
  }
}
