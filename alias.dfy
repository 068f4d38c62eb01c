/**
 * The alias table of the router and the substitution `compileUrl` performs
 * with it. The code escapes the lowered pattern with `preg_quote`, escapes
 * the alias tokens the same way and calls `str_replace` with both arrays,
 * which makes one full pass per alias in table order. This module shows that
 * the passes never interfere: the result equals a single left-to-right scan
 * of the unescaped pattern that turns each alias token into its fragment and
 * escapes every other character (`Subst`).
 */
module Alias {
  import opened Wrappers
  import opened Php
  import opened PregQuote

  /** `Router::$aliases`, in declaration order. */
  const Aliases: seq<(string, string)> := [
    ("<int>", "([0-9\\-]+)"),
    ("<float>", "([0-9\\.\\-]+)"),
    ("<num>", "([0-9\\.\\-,]*)"),
    ("<string>", "([a-z0-9\\-_]+)"),
    ("<page>", "([0-9]*)/?([0-9]*)/?"),
    ("<path>", "([a-z0-9\\-_/]*)"),
    ("<word>", "([^/]*)")
  ]

  /** The alias keys passed through `preg_quote`, each next to its fragment. */
  function QuoteKeys(pairs: seq<(string, string)>): (r: seq<(string, string)>)
    ensures |r| == |pairs|
    ensures forall i :: 0 <= i < |pairs| ==> r[i] == (Quote(pairs[i].0), pairs[i].1)
  {
    if pairs == [] then [] else [(Quote(pairs[0].0), pairs[0].1)] + QuoteKeys(pairs[1..])
  }

  /** Index of the first pair whose key starts `s`. */
  function KeyAt(s: string, pairs: seq<(string, string)>): (r: Option<nat>)
    ensures r.Some? ==> r.value < |pairs| && StartsWith(s, pairs[r.value].0)
    ensures r.Some? ==> forall j :: 0 <= j < r.value ==> !StartsWith(s, pairs[j].0)
    ensures r.None? ==> forall j :: 0 <= j < |pairs| ==> !StartsWith(s, pairs[j].0)
  {
    if pairs == [] then None
    else if StartsWith(s, pairs[0].0) then Some(0)
    else match KeyAt(s, pairs[1..])
      case None => None
      case Some(i) => Some(i + 1)
  }

  /** The first matching index is determined by which keys start `s`. */
  lemma KeyAtIs(s: string, pairs: seq<(string, string)>, i: nat)
    requires i < |pairs| && StartsWith(s, pairs[i].0)
    requires forall j :: 0 <= j < i ==> !StartsWith(s, pairs[j].0)
    ensures KeyAt(s, pairs) == Some(i)
  {
  }

  ghost predicate NonEmptyKeys(pairs: seq<(string, string)>) {
    forall i :: 0 <= i < |pairs| ==> pairs[i].0 != []
  }

  /** One left-to-right scan replacing, at each position, the first key that starts there. */
  function ReplaceMany(s: string, pairs: seq<(string, string)>): string
    requires NonEmptyKeys(pairs)
    decreases |s|
  {
    if s == [] then []
    else match KeyAt(s, pairs)
      case Some(i) => pairs[i].1 + ReplaceMany(s[|pairs[i].0|..], pairs)
      case None => [s[0]] + ReplaceMany(s[1..], pairs)
  }

  /** The scan at a position where key `i` is the first that starts the text. */
  lemma ReplaceManyAt(s: string, pairs: seq<(string, string)>, i: nat)
    requires NonEmptyKeys(pairs) && s != [] && KeyAt(s, pairs) == Some(i)
    ensures ReplaceMany(s, pairs) == pairs[i].1 + ReplaceMany(s[|pairs[i].0|..], pairs)
  {
  }

  /**
   * The substitution as the unescaped pattern sees it: each alias token
   * becomes its fragment, every other character its `preg_quote` escape.
   */
  function Subst(s: string, pairs: seq<(string, string)>): string
    requires NonEmptyKeys(pairs)
    decreases |s|
  {
    if s == [] then []
    else match KeyAt(s, pairs)
      case Some(i) => pairs[i].1 + Subst(s[|pairs[i].0|..], pairs)
      case None => QuoteChar(s[0]) + Subst(s[1..], pairs)
  }

  /** An alias token: `<`, lower-case letters, `>`. */
  ghost predicate IsToken(t: string) {
    && |t| >= 3 && t[0] == '<' && t[|t| - 1] == '>'
    && forall j :: 0 < j < |t| - 1 ==> 'a' <= t[j] <= 'z'
  }

  /** An escaped alias token: `\<`, lower-case letters, `\>`. */
  ghost predicate IsEscapedToken(k: string) {
    && |k| >= 5 && k[0] == '\\' && k[1] == '<' && k[|k| - 2] == '\\' && k[|k| - 1] == '>'
    && forall j :: 2 <= j < |k| - 2 ==> 'a' <= k[j] <= 'z'
  }

  /** A fragment opens a group, holds no `<` and does not end in a backslash. */
  ghost predicate IsFragment(v: string) {
    && |v| >= 1 && v[0] == '(' && v[|v| - 1] != '\\'
    && forall j :: 0 <= j < |v| ==> v[j] != '<'
  }

  ghost predicate TokenTable(pairs: seq<(string, string)>) {
    forall i :: 0 <= i < |pairs| ==> IsToken(pairs[i].0) && IsFragment(pairs[i].1)
  }

  ghost predicate EscapedTable(pairs: seq<(string, string)>) {
    forall i :: 0 <= i < |pairs| ==> IsEscapedToken(pairs[i].0) && IsFragment(pairs[i].1)
  }

  /** The router's table is made of tokens and fragments, and no token repeats. */
  lemma AliasesShape()
    ensures TokenTable(Aliases)
    ensures forall i, j :: 0 <= i < j < |Aliases| ==> Aliases[i].0 != Aliases[j].0
  {
    AliasTokens();
    AliasFragments();
    AliasesDistinct();
  }

  lemma AliasTokens()
    ensures forall i :: 0 <= i < |Aliases| ==> IsToken(Aliases[i].0)
  {
    assert IsToken("<int>");
    assert IsToken("<float>");
    assert IsToken("<num>");
    assert IsToken("<string>");
    assert IsToken("<page>");
    assert IsToken("<path>");
    assert IsToken("<word>");
  }

  lemma AliasFragments()
    ensures forall i :: 0 <= i < |Aliases| ==> IsFragment(Aliases[i].1)
  {
    assert IsFragment(Aliases[0].1);
    assert IsFragment(Aliases[1].1);
    assert IsFragment(Aliases[2].1);
    assert IsFragment(Aliases[3].1);
    assert IsFragment(Aliases[4].1);
    assert IsFragment(Aliases[5].1);
    assert IsFragment(Aliases[6].1);
  }

  lemma AliasesDistinct()
    ensures forall i, j :: 0 <= i < j < |Aliases| ==> Aliases[i].0 != Aliases[j].0
  {
  }

  /** Lower-case letters have nothing to escape. */
  lemma {:induction false} QuoteLetters(s: string)
    requires forall j :: 0 <= j < |s| ==> 'a' <= s[j] <= 'z'
    ensures Quote(s) == s
    decreases |s|
  {
    if s != [] {
      assert QuoteChar(s[0]) == [s[0]];
      QuoteLetters(s[1..]);
      assert [s[0]] + s[1..] == s;
    }
  }

  /** Between `<` and `>`, text that has nothing to escape: only the two brackets are escaped. */
  lemma QuoteBracketed(mid: string)
    requires Quote(mid) == mid
    ensures Quote(['<'] + mid + ['>']) == ['\\', '<'] + mid + ['\\', '>']
  {
    QuoteOne('<');
    QuoteOne('>');
    calc {
      Quote(['<'] + mid + ['>']);
      { QuoteConcat(['<'] + mid, ['>']); }
      Quote(['<'] + mid) + Quote(['>']);
      { QuoteConcat(['<'], mid); }
      Quote(['<']) + Quote(mid) + Quote(['>']);
    }
  }

  /** `\<`, lower-case letters, `\>` is an escaped token. */
  lemma EscapedShape(mid: string)
    requires |mid| >= 1 && forall j :: 0 <= j < |mid| ==> 'a' <= mid[j] <= 'z'
    ensures IsEscapedToken(['\\', '<'] + mid + ['\\', '>'])
  {
    var k := ['\\', '<'] + mid + ['\\', '>'];
    assert forall j :: 2 <= j < |k| - 2 ==> k[j] == mid[j - 2];
  }

  /** `preg_quote` of a token is `\<`, the same letters, `\>`. */
  lemma EscapeToken(t: string)
    requires IsToken(t)
    ensures IsEscapedToken(Quote(t))
    ensures |Quote(t)| == |t| + 2
  {
    var mid := t[1..|t| - 1];
    assert forall j :: 0 <= j < |mid| ==> mid[j] == t[j + 1];
    assert t == ['<'] + mid + ['>'];
    QuoteLetters(mid);
    QuoteBracketed(mid);
    EscapedShape(mid);
  }

  lemma EscapeTable(pairs: seq<(string, string)>)
    requires TokenTable(pairs)
    ensures EscapedTable(QuoteKeys(pairs))
  {
    forall i | 0 <= i < |pairs| ensures IsEscapedToken(Quote(pairs[i].0)) {
      EscapeToken(pairs[i].0);
    }
  }

  /** A backslash inside an escaped token sits at its start or just before its `>`. */
  lemma EscapedBackslash(k: string, j: int)
    requires IsEscapedToken(k) && 0 <= j < |k| && k[j] == '\\'
    ensures j == 0 || j == |k| - 2
  {
  }

  /** Two escaped tokens that both start the same text are the same token. */
  lemma EscapedAgree(x: string, a: string, b: string)
    requires IsEscapedToken(a) && IsEscapedToken(b)
    ensures StartsWith(x, a) && StartsWith(x, b) ==> a == b
  {
    if StartsWith(x, a) && StartsWith(x, b) && |a| == |b| {
      assert a == x[..|a|] == b;
    }
  }

  /** Two tokens that both start the same text are the same token. */
  lemma TokensAgree(x: string, a: string, b: string)
    requires IsToken(a) && IsToken(b)
    ensures StartsWith(x, a) && StartsWith(x, b) ==> a == b
  {
    if StartsWith(x, a) && StartsWith(x, b) && |a| == |b| {
      assert a == x[..|a|] == b;
    }
  }

  /** A text whose first two characters are not `\<` starts with no escaped token. */
  lemma NoEscapedKeyHere(x: string, pairs: seq<(string, string)>)
    requires EscapedTable(pairs)
    requires |x| < 2 || x[0] != '\\' || x[1] != '<'
    ensures KeyAt(x, pairs).None?
  {
  }

  lemma {:induction false} ReplaceManyEmpty(s: string)
    ensures ReplaceMany(s, []) == s
    decreases |s|
  {
    if s != [] {
      ReplaceManyEmpty(s[1..]);
      assert [s[0]] + s[1..] == s;
    }
  }

  /** No `\\` followed by `<` begins inside `v` when `t` follows it. */
  ghost predicate NoOpenWithin(v: string, t: string) {
    forall p :: 0 <= p < |v| && p + 1 < |v + t| ==> !((v + t)[p] == '\\' && (v + t)[p + 1] == '<')
  }

  /**
   * The scan copies a leading piece `v` unchanged when no escaped token can
   * start inside it: no `\` followed by `<` begins within `v`.
   */
  lemma {:induction false} PassThrough(v: string, t: string, pairs: seq<(string, string)>)
    requires EscapedTable(pairs)
    requires NoOpenWithin(v, t)
    ensures ReplaceMany(v + t, pairs) == v + ReplaceMany(t, pairs)
    decreases |v|
  {
    if v == [] {
      assert v + t == t;
    } else {
      var x := v + t;
      NoEscapedKeyHere(x, pairs);
      assert x[1..] == v[1..] + t;
      forall p | 0 <= p < |v[1..]| && p + 1 < |v[1..] + t|
        ensures !((v[1..] + t)[p] == '\\' && (v[1..] + t)[p + 1] == '<')
      {
        assert (v[1..] + t)[p] == x[p + 1] && (v[1..] + t)[p + 1] == x[p + 2];
      }
      PassThrough(v[1..], t, pairs);
      assert x[0] == v[0];
      assert [v[0]] + (v[1..] + ReplaceMany(t, pairs)) == v + ReplaceMany(t, pairs);
    }
  }

  /** A fragment is copied through unchanged by the scan. */
  lemma FragmentPassThrough(v: string, t: string, pairs: seq<(string, string)>)
    requires EscapedTable(pairs) && IsFragment(v)
    ensures ReplaceMany(v + t, pairs) == v + ReplaceMany(t, pairs)
  {
    forall p | 0 <= p < |v| && p + 1 < |v + t|
      ensures !((v + t)[p] == '\\' && (v + t)[p + 1] == '<')
    {
      if p + 1 < |v| {
        assert (v + t)[p + 1] == v[p + 1];
      } else {
        assert (v + t)[p] == v[|v| - 1];
      }
    }
    PassThrough(v, t, pairs);
  }

  /** One `str_replace` pass leaves a stretch alone if its needle starts nowhere in it. */
  lemma {:induction false} ReplaceAllSkip(t: string, k: string, v: string, n: nat)
    requires k != [] && n <= |t|
    requires forall p :: 0 <= p < n ==> !StartsWith(t[p..], k)
    ensures ReplaceAll(t, k, v) == t[..n] + ReplaceAll(t[n..], k, v)
    decreases n
  {
    if n > 0 {
      assert t[0..] == t;
      forall p | 0 <= p < n - 1 ensures !StartsWith(t[1..][p..], k) {
        assert t[1..][p..] == t[p + 1..];
      }
      ReplaceAllSkip(t[1..], k, v, n - 1);
      assert t[1..][n - 1..] == t[n..];
      assert [t[0]] + t[1..][..n - 1] == t[..n];
    }
  }

  /** A pass that replaces at the front starts with the replacement's first character. */
  lemma ReplaceAllHead(t: string, k: string, v: string)
    requires k != [] && v != []
    ensures t != [] && StartsWith(t, k) ==> ReplaceAll(t, k, v) != [] && ReplaceAll(t, k, v)[0] == v[0]
  {
  }

  /**
   * A text that cannot contain the first character of the replacement and
   * starts the output of a pass already started its input.
   */
  lemma {:induction false} ReplaceAllPrefix(t: string, k: string, v: string, w: string)
    requires k != [] && v != []
    requires forall j :: 0 <= j < |w| ==> w[j] != v[0]
    requires StartsWith(ReplaceAll(t, k, v), w)
    ensures StartsWith(t, w)
    decreases |t|
  {
    if w != [] && t != [] {
      ReplaceAllHead(t, k, v);
      assert ReplaceAll(t, k, v)[0] == w[0];
      if !StartsWith(t, k) {
        var r := ReplaceAll(t[1..], k, v);
        assert ReplaceAll(t, k, v) == [t[0]] + r;
        assert StartsWith(r, w[1..]) by {
          assert r[..|w| - 1] == ([t[0]] + r)[1..|w|];
        }
        ReplaceAllPrefix(t[1..], k, v, w[1..]);
        assert t[..|w|] == [t[0]] + t[1..][..|w| - 1];
        assert w == [w[0]] + w[1..];
      }
    }
  }

  /** No escaped token starts strictly inside an occurrence of another. */
  lemma EscapedInside(s: string, outer: string, k: string, p: int)
    requires IsEscapedToken(outer) && IsEscapedToken(k)
    requires StartsWith(s, outer) && 1 <= p < |outer|
    ensures !StartsWith(s[p..], k)
  {
    assert s[p] == outer[p];
    if p == |outer| - 2 {
      assert s[p + 1] == outer[p + 1] == '>';
    } else {
      assert s[p] != '\\';
    }
  }

  /** The scan over `[(k, v)] + rest` tries `k` first, then the keys of `rest`. */
  lemma KeyAtCons(s: string, k: string, v: string, rest: seq<(string, string)>)
    ensures KeyAt(s, [(k, v)] + rest) ==
      if StartsWith(s, k) then Some(0)
      else match KeyAt(s, rest) case None => None case Some(i) => Some(i + 1)
  {
    assert ([(k, v)] + rest)[1..] == rest;
  }

  /** Merge step where the first key starts the text. */
  lemma MergeAtKey(s: string, k: string, v: string, rest: seq<(string, string)>)
    requires IsEscapedToken(k) && IsFragment(v) && EscapedTable(rest)
    requires s != [] && StartsWith(s, k)
    requires ReplaceMany(ReplaceAll(s[|k|..], k, v), rest) == ReplaceMany(s[|k|..], [(k, v)] + rest)
    ensures EscapedTable([(k, v)] + rest)
    ensures ReplaceMany(ReplaceAll(s, k, v), rest) == ReplaceMany(s, [(k, v)] + rest)
  {
    var t := ReplaceAll(s[|k|..], k, v);
    assert ReplaceAll(s, k, v) == v + t;
    FragmentPassThrough(v, t, rest);
    KeyAtCons(s, k, v, rest);
  }

  /** A pass leaves an escaped token at the front of the text in place. */
  lemma NoKeyInsideKey(s: string, k: string, kj: string)
    requires IsEscapedToken(k) && IsEscapedToken(kj) && StartsWith(s, kj)
    ensures forall p :: 0 <= p < |kj| - 1 ==> !StartsWith(s[1..][p..], k)
  {
    forall p | 0 <= p < |kj| - 1 ensures !StartsWith(s[1..][p..], k) {
      assert s[1..][p..] == s[p + 1..];
      EscapedInside(s, kj, k, p + 1);
    }
  }

  lemma PassOverKey(s: string, k: string, v: string, kj: string)
    requires IsEscapedToken(k) && IsEscapedToken(kj)
    requires StartsWith(s, kj) && !StartsWith(s, k)
    ensures ReplaceAll(s, k, v) == kj + ReplaceAll(s[|kj|..], k, v)
  {
    NoKeyInsideKey(s, k, kj);
    ReplaceAllSkip(s[1..], k, v, |kj| - 1);
    assert s[1..][|kj| - 1..] == s[|kj|..];
    assert ReplaceAll(s, k, v) == [s[0]] + ReplaceAll(s[1..], k, v);
    assert [s[0]] + s[1..][..|kj| - 1] == kj;
  }

  /** The scan picks the same key on any text that starts with the key it picked on `s`. */
  lemma KeyAtSameFront(s: string, x: string, rest: seq<(string, string)>, j: nat)
    requires EscapedTable(rest) && KeyAt(s, rest) == Some(j) && StartsWith(x, rest[j].0)
    ensures KeyAt(x, rest) == Some(j)
  {
    forall i | 0 <= i < j ensures !StartsWith(x, rest[i].0) {
      EscapedAgree(x, rest[i].0, rest[j].0);
    }
    KeyAtIs(x, rest, j);
  }

  /** Putting an escaped token and a fragment in front keeps a table escaped. */
  lemma EscapedCons(k: string, v: string, rest: seq<(string, string)>)
    requires IsEscapedToken(k) && IsFragment(v) && EscapedTable(rest)
    ensures EscapedTable([(k, v)] + rest)
  {
    var all := [(k, v)] + rest;
    assert forall i :: 1 <= i < |all| ==> all[i] == rest[i - 1];
  }

  /** The scan over a text that a pass turned into `kj + u`, where the scan picks `kj`. */
  lemma ScanPassedKey(s: string, k: string, v: string, rest: seq<(string, string)>, j: nat)
    requires IsEscapedToken(k) && IsFragment(v) && EscapedTable(rest)
    requires s != [] && !StartsWith(s, k) && KeyAt(s, rest) == Some(j)
    ensures ReplaceMany(ReplaceAll(s, k, v), rest)
      == rest[j].1 + ReplaceMany(ReplaceAll(s[|rest[j].0|..], k, v), rest)
  {
    var kj := rest[j].0;
    PassOverKey(s, k, v, kj);
    var u := ReplaceAll(s[|kj|..], k, v);
    var x := kj + u;
    KeyAtSameFront(s, x, rest, j);
    assert x[|kj|..] == u;
  }

  /** Merge step where another key `rest[j]` starts the text. */
  lemma MergeAtOther(s: string, k: string, v: string, rest: seq<(string, string)>, j: nat)
    requires IsEscapedToken(k) && IsFragment(v) && EscapedTable(rest)
    requires s != [] && !StartsWith(s, k) && KeyAt(s, rest) == Some(j)
    requires ReplaceMany(ReplaceAll(s[|rest[j].0|..], k, v), rest)
      == ReplaceMany(s[|rest[j].0|..], [(k, v)] + rest)
    ensures EscapedTable([(k, v)] + rest)
    ensures ReplaceMany(ReplaceAll(s, k, v), rest) == ReplaceMany(s, [(k, v)] + rest)
  {
    var all := [(k, v)] + rest;
    EscapedCons(k, v, rest);
    ScanPassedKey(s, k, v, rest, j);
    KeyAtCons(s, k, v, rest);
    ReplaceManyAt(s, all, j + 1);
    assert all[j + 1] == rest[j];
  }

  /** After a pass, a key starting just behind an untouched first character started the input. */
  lemma PassKeepsStart(s: string, k: string, v: string, key: string)
    requires IsEscapedToken(k) && IsFragment(v) && IsEscapedToken(key) && s != []
    ensures StartsWith([s[0]] + ReplaceAll(s[1..], k, v), key) ==> StartsWith(s, key)
  {
    var w := ReplaceAll(s[1..], k, v);
    var x := [s[0]] + w;
    if StartsWith(x, key) {
      assert StartsWith(w, key[1..]) by {
        assert w[..|key| - 1] == x[1..|key|];
      }
      ReplaceAllPrefix(s[1..], k, v, key[1..]);
      assert s[..|key|] == [s[0]] + s[1..][..|key| - 1];
      assert key == [key[0]] + key[1..];
    }
  }

  /** Merge step where no key starts the text. */
  lemma MergeNoKey(s: string, k: string, v: string, rest: seq<(string, string)>)
    requires IsEscapedToken(k) && IsFragment(v) && EscapedTable(rest)
    requires s != [] && !StartsWith(s, k) && KeyAt(s, rest).None?
    requires ReplaceMany(ReplaceAll(s[1..], k, v), rest) == ReplaceMany(s[1..], [(k, v)] + rest)
    ensures EscapedTable([(k, v)] + rest)
    ensures ReplaceMany(ReplaceAll(s, k, v), rest) == ReplaceMany(s, [(k, v)] + rest)
  {
    var w := ReplaceAll(s[1..], k, v);
    var x := [s[0]] + w;
    assert ReplaceAll(s, k, v) == x;
    forall i | 0 <= i < |rest| ensures !StartsWith(x, rest[i].0) {
      PassKeepsStart(s, k, v, rest[i].0);
    }
    assert KeyAt(x, rest).None?;
    assert x[1..] == w;
    KeyAtCons(s, k, v, rest);
  }

  /**
   * The heart of the argument: one `str_replace` pass for the first pair,
   * followed by a scan for the rest, equals one scan for all pairs.
   */
  lemma {:induction false} PassMerge(s: string, k: string, v: string, rest: seq<(string, string)>)
    requires IsEscapedToken(k) && IsFragment(v) && EscapedTable(rest)
    ensures EscapedTable([(k, v)] + rest)
    ensures ReplaceMany(ReplaceAll(s, k, v), rest) == ReplaceMany(s, [(k, v)] + rest)
    decreases |s|
  {
    if s == [] {
    } else if StartsWith(s, k) {
      PassMerge(s[|k|..], k, v, rest);
      MergeAtKey(s, k, v, rest);
    } else if KeyAt(s, rest).Some? {
      var j := KeyAt(s, rest).value;
      PassMerge(s[|rest[j].0|..], k, v, rest);
      MergeAtOther(s, k, v, rest, j);
    } else {
      PassMerge(s[1..], k, v, rest);
      MergeNoKey(s, k, v, rest);
    }
  }

  /** `str_replace` with arrays, one pass per pair, equals the single scan. */
  lemma {:induction false} ReplaceEachIsReplaceMany(pairs: seq<(string, string)>, s: string)
    requires EscapedTable(pairs)
    ensures ReplaceEach(pairs, s) == ReplaceMany(s, pairs)
    decreases |pairs|
  {
    if pairs == [] {
      ReplaceManyEmpty(s);
    } else {
      var k, v := pairs[0].0, pairs[0].1;
      ReplaceEachIsReplaceMany(pairs[1..], ReplaceAll(s, k, v));
      PassMerge(s, k, v, pairs[1..]);
      assert [(k, v)] + pairs[1..] == pairs;
    }
  }

  /** The escaped keys start the escaped text exactly where the raw keys start the raw text. */
  lemma {:induction false} KeyAtQuote(s: string, pairs: seq<(string, string)>)
    ensures KeyAt(Quote(s), QuoteKeys(pairs)) == KeyAt(s, pairs)
    decreases |pairs|
  {
    if pairs != [] {
      QuotePrefix(s, pairs[0].0);
      KeyAtQuote(s, pairs[1..]);
      assert QuoteKeys(pairs)[1..] == QuoteKeys(pairs[1..]);
    }
  }

  /** Scan step at an alias token. */
  lemma ScanAtToken(s: string, pairs: seq<(string, string)>, i: nat)
    requires TokenTable(pairs) && EscapedTable(QuoteKeys(pairs))
    requires KeyAt(s, pairs) == Some(i)
    requires ReplaceMany(Quote(s[|pairs[i].0|..]), QuoteKeys(pairs)) == Subst(s[|pairs[i].0|..], pairs)
    ensures ReplaceMany(Quote(s), QuoteKeys(pairs)) == Subst(s, pairs)
  {
    var qk := QuoteKeys(pairs);
    var t := pairs[i].0;
    var rest := s[|t|..];
    assert s == t + rest;
    QuoteConcat(t, rest);
    KeyAtQuote(s, pairs);
    assert qk[i] == (Quote(t), pairs[i].1);
    assert Quote(s)[|Quote(t)|..] == Quote(rest);
    ReplaceManyAt(Quote(s), qk, i);
  }

  /** After the first character of an escape, no `\\<` can start before the next escape. */
  lemma EscapeTail(c: char, rest: string)
    ensures NoOpenWithin(QuoteChar(c)[1..], Quote(rest))
  {
    var q := QuoteChar(c);
    var t := Quote(rest);
    var e := q[1..] + t;
    QuoteHead(rest);
    if c != '\0' && IsSpecial(c) && c == '\\' && |e| > 1 {
      assert e[1] == t[0];
    }
  }

  lemma ReplaceManyNoKey(x: string, qk: seq<(string, string)>)
    requires NonEmptyKeys(qk) && x != [] && KeyAt(x, qk).None?
    ensures ReplaceMany(x, qk) == [x[0]] + ReplaceMany(x[1..], qk)
  {
  }

  /** The scan copies the escape of a character at which no key starts. */
  lemma ScanOverEscape(c: char, r: string, qk: seq<(string, string)>)
    requires EscapedTable(qk) && KeyAt(QuoteChar(c) + Quote(r), qk).None?
    ensures ReplaceMany(QuoteChar(c) + Quote(r), qk) == QuoteChar(c) + ReplaceMany(Quote(r), qk)
  {
    var e := QuoteChar(c);
    var t := Quote(r);
    var q := e + t;
    EscapeTail(c, r);
    ConcatHead(e, t);
    ConcatHead(e, ReplaceMany(t, qk));
    ReplaceManyNoKey(q, qk);
    PassThrough(e[1..], t, qk);
  }

  /** Scan step at a character that starts no alias token. */
  lemma ScanAtChar(s: string, pairs: seq<(string, string)>)
    requires TokenTable(pairs) && EscapedTable(QuoteKeys(pairs))
    requires s != [] && KeyAt(s, pairs).None?
    requires ReplaceMany(Quote(s[1..]), QuoteKeys(pairs)) == Subst(s[1..], pairs)
    ensures ReplaceMany(Quote(s), QuoteKeys(pairs)) == Subst(s, pairs)
  {
    KeyAtQuote(s, pairs);
    assert Quote(s) == QuoteChar(s[0]) + Quote(s[1..]);
    ScanOverEscape(s[0], s[1..], QuoteKeys(pairs));
  }

  /** On escaped text, the scan with escaped keys is the token-level substitution. */
  lemma {:induction false} ScanIsSubst(s: string, pairs: seq<(string, string)>)
    requires TokenTable(pairs)
    ensures NonEmptyKeys(pairs) && NonEmptyKeys(QuoteKeys(pairs))
    ensures ReplaceMany(Quote(s), QuoteKeys(pairs)) == Subst(s, pairs)
    decreases |s|
  {
    EscapeTable(pairs);
    if s != [] {
      match KeyAt(s, pairs)
      case Some(i) =>
        ScanIsSubst(s[|pairs[i].0|..], pairs);
        ScanAtToken(s, pairs, i);
      case None =>
        ScanIsSubst(s[1..], pairs);
        ScanAtChar(s, pairs);
    }
  }

  /**
   * What `compileUrl`'s `str_replace` produces on an escaped pattern, for
   * any table of alias tokens: tokens replaced by their fragments and every
   * other character escaped, as if all aliases were replaced in one
   * simultaneous pass.
   */
  lemma SubstitutionIsSimultaneous(s: string, pairs: seq<(string, string)>)
    ensures TokenTable(pairs) ==>
              NonEmptyKeys(pairs) && ReplaceEach(QuoteKeys(pairs), Quote(s)) == Subst(s, pairs)
  {
    if TokenTable(pairs) {
      EscapeTable(pairs);
      ReplaceEachIsReplaceMany(QuoteKeys(pairs), Quote(s));
      ScanIsSubst(s, pairs);
    }
  }

  /** A token at the front of the pattern is replaced by its own fragment. */
  lemma SubstToken(i: nat, rest: string)
    requires i < |Aliases|
    ensures NonEmptyKeys(Aliases)
    ensures Subst(Aliases[i].0 + rest, Aliases) == Aliases[i].1 + Subst(rest, Aliases)
  {
    AliasesShape();
    var s := Aliases[i].0 + rest;
    forall j | 0 <= j < i ensures !StartsWith(s, Aliases[j].0) {
      if StartsWith(s, Aliases[j].0) {
        TokensAgree(s, Aliases[j].0, Aliases[i].0);
      }
    }
    KeyAtIs(s, Aliases, i);
    assert s[|Aliases[i].0|..] == rest;
  }

  /** Two tokens side by side become their two fragments side by side. */
  lemma SubstTokenPair(i: nat, j: nat)
    requires i < |Aliases| && j < |Aliases|
    ensures NonEmptyKeys(Aliases)
    ensures Subst(Aliases[i].0 + Aliases[j].0, Aliases) == Aliases[i].1 + Aliases[j].1
  {
    var b := Aliases[j].0;
    SubstToken(j, []);
    assert b + [] == b;
    assert Subst(b, Aliases) == Aliases[j].1;
    SubstToken(i, b);
  }

  /** Text in which no alias token starts anywhere. */
  ghost predicate AliasFree(s: string) {
    forall i :: 0 <= i <= |s| ==> KeyAt(s[i..], Aliases).None?
  }

  /** Without alias tokens the substitution is plain `preg_quote`. */
  lemma {:induction false} SubstAliasFree(s: string)
    requires AliasFree(s)
    ensures NonEmptyKeys(Aliases)
    ensures Subst(s, Aliases) == Quote(s)
    decreases |s|
  {
    AliasesShape();
    if s != [] {
      assert s[0..] == s;
      assert AliasFree(s[1..]) by {
        forall i | 0 <= i <= |s[1..]| ensures KeyAt(s[1..][i..], Aliases).None? {
          assert s[1..][i..] == s[i + 1..];
        }
      }
      SubstAliasFree(s[1..]);
    }
  }
}
