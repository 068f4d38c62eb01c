/** The Option type used for PHP's "null or a value" results. */
module Wrappers {
  datatype Option<+T> = None | Some(value: T)
}

/**
 * Models of the PHP string built-ins that the router and the application
 * call. Strings are sequences of characters; `strtolower` folds ASCII letters
 * only, as PHP 8 does.
 */
module Php {
  import opened Wrappers

  predicate IsUpper(c: char) {
    'A' <= c <= 'Z'
  }

  function LowerChar(c: char): (r: char)
    ensures !IsUpper(r)
    ensures IsUpper(c) || r == c
  {
    if IsUpper(c) then (c as int + 32) as char else c
  }

  /** `strtolower`. */
  function Lower(s: string): (r: string)
    ensures |r| == |s|
    ensures forall i :: 0 <= i < |s| ==> r[i] == LowerChar(s[i])
  {
    seq(|s|, i requires 0 <= i < |s| => LowerChar(s[i]))
  }

  /** A one-character text without an upper-case letter is its own lower case. */
  lemma LowerOne(c: char)
    requires !IsUpper(c)
    ensures Lower([c]) == [c]
  {
    assert Lower([c])[0] == c;
  }

  /** Lower-casing twice is lower-casing once. */
  lemma LowerIdempotent(s: string)
    ensures Lower(Lower(s)) == Lower(s)
  {
    assert forall i :: 0 <= i < |s| ==> Lower(Lower(s))[i] == Lower(s)[i];
  }

  /** `strtolower` on a concatenation. */
  lemma LowerConcat(a: string, b: string)
    ensures Lower(a + b) == Lower(a) + Lower(b)
  {
    forall i | 0 <= i < |a + b| ensures Lower(a + b)[i] == (Lower(a) + Lower(b))[i] {
      if i < |a| {
        assert (a + b)[i] == a[i];
      } else {
        assert (a + b)[i] == b[i - |a|];
      }
    }
  }

  /** A non-empty left part splits a concatenation into its first character and the rest. */
  lemma ConcatHead(a: string, b: string)
    requires a != []
    ensures (a + b)[0] == a[0] && (a + b)[1..] == a[1..] + b && [a[0]] + (a[1..] + b) == a + b
  {
  }

  /** `rtrim($s, $c)` for a single character: drops every trailing `c`. */
  function RTrim(s: string, c: char): (r: string)
    ensures |r| <= |s| && r == s[..|r|]
    ensures r == [] || r[|r| - 1] != c
    ensures forall i :: |r| <= i < |s| ==> s[i] == c
  {
    if s != [] && s[|s| - 1] == c then RTrim(s[..|s| - 1], c) else s
  }

  /** Trimming slashes commutes with lower-casing: `/` is not a letter. */
  lemma {:induction false} RTrimLower(s: string)
    ensures RTrim(Lower(s), '/') == Lower(RTrim(s, '/'))
    decreases |s|
  {
    if s != [] {
      var init := s[..|s| - 1];
      assert Lower(s) == Lower(init) + [LowerChar(s[|s| - 1])] by {
        assert s == init + [s[|s| - 1]];
        LowerConcat(init, [s[|s| - 1]]);
      }
      assert Lower(s)[..|s| - 1] == Lower(init);
      if s[|s| - 1] == '/' {
        RTrimLower(init);
      }
    }
  }

  /** An extra trailing slash is trimmed away again. */
  lemma RTrimSlash(s: string)
    ensures RTrim(s + "/", '/') == RTrim(s, '/')
  {
    assert (s + "/")[..|s|] == s;
  }

  /** `ltrim($s, $c)` for a single character: drops every leading `c`. */
  function LTrim(s: string, c: char): (r: string)
    ensures |r| <= |s| && r == s[|s| - |r|..]
    ensures r == [] || r[0] != c
    ensures forall i :: 0 <= i < |s| - |r| ==> s[i] == c
  {
    if s != [] && s[0] == c then LTrim(s[1..], c) else s
  }

  /** A raw string-prefix test (`Common::startsWith`, `starts_with`). */
  predicate StartsWith(s: string, p: string) {
    |p| <= |s| && s[..|p|] == p
  }

  /** A common first part can be dropped from both sides of a prefix test. */
  lemma StartsWithDrop(e: string, a: string, b: string)
    requires StartsWith(e + a, e + b)
    ensures StartsWith(a, b)
  {
    assert a[..|b|] == (e + a)[|e|..|e| + |b|];
    assert b == (e + b)[|e|..];
  }

  /** Same first character and a prefix of the rest make a prefix. */
  lemma StartsWithCons(s: string, t: string)
    requires s != [] && t != [] && s[0] == t[0] && StartsWith(s[1..], t[1..])
    ensures StartsWith(s, t)
  {
    assert s[..|t|] == [s[0]] + s[1..][..|t| - 1];
    assert t == [t[0]] + t[1..];
  }

  /** `substr($s, $start)` for a non-negative start (PHP 8: "" past the end). */
  function SubstrFrom(s: string, start: nat): (r: string)
    ensures start <= |s| ==> r == s[start..]
    ensures start > |s| ==> r == ""
  {
    if start <= |s| then s[start..] else ""
  }

  /** Position of the first `c` in `s`. */
  function IndexOf(s: string, c: char): (r: Option<nat>)
    ensures r.Some? ==> r.value < |s| && s[r.value] == c && c !in s[..r.value]
    ensures r.None? ==> c !in s
  {
    if s == [] then None
    else if s[0] == c then Some(0)
    else match IndexOf(s[1..], c)
      case None => None
      case Some(i) => Some(i + 1)
  }

  /** The first `c` in `s` is the one with no `c` before it. */
  lemma {:induction false} IndexOfIs(s: string, c: char, i: nat)
    requires i < |s| && s[i] == c && c !in s[..i]
    ensures IndexOf(s, c) == Some(i)
  {
    if i > 0 {
      assert s[0] == s[..i][0];
      assert s[1..][..i - 1] == s[1..i];
      assert forall x :: x in s[1..i] ==> x in s[..i];
      IndexOfIs(s[1..], c, i - 1);
    }
  }

  /** A character at position `j >= a` occurs in the suffix from `a`. */
  lemma InSuffix(s: string, a: nat, j: int)
    requires a <= |s|
    ensures a <= j < |s| ==> s[j] in s[a..]
  {
    if a <= j < |s| {
      assert s[a..][j - a] == s[j];
    }
  }

  /** Position of the last `c` in `s`. */
  function LastIndexOf(s: string, c: char): (r: Option<nat>)
    ensures r.Some? ==> r.value < |s| && s[r.value] == c && c !in s[r.value + 1..]
    ensures r.None? ==> c !in s
  {
    if s == [] then None
    else if s[|s| - 1] == c then Some(|s| - 1)
    else LastIndexOf(s[..|s| - 1], c)
  }

  /** Index at which `basename` starts inside the slash-trimmed path `t`. */
  function BaseStart(t: string): (r: nat)
    ensures r <= |t|
    ensures '/' !in t[r..]
    ensures r > 0 ==> t[r - 1] == '/'
  {
    match LastIndexOf(t, '/')
    case None => 0
    case Some(i) => i + 1
  }

  /** `basename`: the last path component, trailing slashes ignored. */
  function Basename(s: string): (r: string)
    ensures '/' !in r
    ensures |r| <= |s|
  {
    var t := RTrim(s, '/');
    t[BaseStart(t)..]
  }

  /** The last `/` of a directory part ending in `/`, followed by a slash-free name. */
  lemma LastSlash(dir: string, base: string)
    requires dir != [] && dir[|dir| - 1] == '/' && '/' !in base
    ensures LastIndexOf(dir + base, '/') == Some(|dir| - 1)
  {
    var f := dir + base;
    assert f[|dir| - 1] == '/';
    var k := LastIndexOf(f, '/').value;
    assert forall j :: |dir| <= j < |f| ==> f[j] == base[j - |dir|];
    InSuffix(f, k + 1, |dir| - 1);
  }

  /** The base name of a path that ends in a slash-free, non-empty component. */
  lemma BasenameOf(dir: string, base: string)
    requires dir == [] || dir[|dir| - 1] == '/'
    requires base != [] && '/' !in base
    ensures Basename(dir + base) == base
  {
    var f := dir + base;
    assert f[|f| - 1] == base[|base| - 1];
    assert RTrim(f, '/') == f;
    if dir == [] {
      assert f == base;
      assert LastIndexOf(f, '/') == None;
    } else {
      LastSlash(dir, base);
    }
    assert BaseStart(f) == |dir|;
    assert f[|dir|..] == base;
  }

  /**
   * `dirname` on a '/'-separated path: "" stays "", a path of slashes gives
   * "/", a single component gives ".", otherwise the part before the last
   * component without its trailing slashes ("/" if nothing is left).
   */
  function Dirname(s: string): string {
    if s == [] then []
    else
      var t := RTrim(s, '/');
      if t == [] then "/"
      else match LastIndexOf(t, '/')
        case None => "."
        case Some(i) =>
          var d := RTrim(t[..i], '/');
          if d == [] then "/" else d
  }

  /** `str_replace($k, $v, $s)` for one non-empty needle: left to right, non-overlapping. */
  function ReplaceAll(s: string, k: string, v: string): string
    decreases |s|
  {
    if k == [] || s == [] then s
    else if StartsWith(s, k) then v + ReplaceAll(s[|k|..], k, v)
    else [s[0]] + ReplaceAll(s[1..], k, v)
  }

  /**
   * `str_replace($keys, $values, $s)` with arrays: one full pass per pair,
   * in array order, each pass working on the previous pass's output.
   */
  function ReplaceEach(pairs: seq<(string, string)>, s: string): string
    decreases |pairs|
  {
    if pairs == [] then s else ReplaceEach(pairs[1..], ReplaceAll(s, pairs[0].0, pairs[0].1))
  }

  /** PHP truthiness of a string: "" and "0" are false. */
  predicate Truthy(s: string) {
    s != "" && s != "0"
  }
}

/**
 * PHP arrays with string keys as ordered association lists: assigning to an
 * existing key keeps its position, a new key is appended.
 */
module PhpArray {
  import opened Wrappers

  type Array<V> = seq<(string, V)>

  /** `array_keys`. */
  function Keys<V>(a: Array<V>): (r: seq<string>)
    ensures |r| == |a|
    ensures forall i :: 0 <= i < |a| ==> r[i] == a[i].0
  {
    seq(|a|, i requires 0 <= i < |a| => a[i].0)
  }

  /** The keys of a non-empty array: its first key, then the keys of the rest. */
  lemma KeysCons<V>(a: Array<V>)
    requires a != []
    ensures Keys(a) == [a[0].0] + Keys(a[1..])
  {
    assert forall i :: 0 < i < |a| ==> Keys(a)[i] == Keys(a[1..])[i - 1];
  }

  /** A PHP array never repeats a key. */
  ghost predicate Distinct<V>(a: Array<V>) {
    forall i, j :: 0 <= i < j < |a| ==> a[i].0 != a[j].0
  }

  /** `isset($a[$k])` and `$a[$k]`: the value under the first pair with key `k`. */
  function Find<V>(a: Array<V>, k: string): (r: Option<V>)
    ensures r.Some? <==> k in Keys(a)
  {
    if a == [] then None else if a[0].0 == k then Some(a[0].1) else Find(a[1..], k)
  }

  function FindOr<V>(a: Array<V>, k: string, default: V): V {
    match Find(a, k)
    case Some(v) => v
    case None => default
  }

  /** `$a[$k] = $v`. */
  function Put<V>(a: Array<V>, k: string, v: V): (r: Array<V>)
    ensures |r| == if k in Keys(a) then |a| else |a| + 1
  {
    if a == [] then [(k, v)]
    else if a[0].0 == k then [(k, v)] + a[1..]
    else [a[0]] + Put(a[1..], k, v)
  }

  /** After `$a[$k] = $v`, `$a[$k]` is `$v` and every other key reads as before. */
  lemma {:induction false} PutFind<V>(a: Array<V>, k: string, v: V, k': string)
    ensures Find(Put(a, k, v), k') == if k' == k then Some(v) else Find(a, k')
  {
    if a != [] && a[0].0 != k {
      PutFind(a[1..], k, v, k');
    }
  }

  /** Assignment keeps the key order and appends a new key at the end. */
  lemma {:induction false} PutKeys<V>(a: Array<V>, k: string, v: V)
    ensures Keys(Put(a, k, v)) == if k in Keys(a) then Keys(a) else Keys(a) + [k]
  {
    if a != [] {
      KeysCons(a);
      KeysCons(Put(a, k, v));
      if a[0].0 != k {
        PutKeys(a[1..], k, v);
      }
    }
  }

  /**
   * `array_merge($a, $b)` for string keys: each pair of `b` in order, a key
   * already present keeping its place and a new key appended.
   */
  function Merge<V>(a: Array<V>, b: Array<V>): Array<V>
    decreases |b|
  {
    if b == [] then a else Merge(Put(a, b[0].0, b[0].1), b[1..])
  }

  /** The tail of an array without repeated keys has none either, and lacks its first key. */
  lemma DistinctTail<V>(b: Array<V>)
    requires b != [] && Distinct(b)
    ensures Distinct(b[1..]) && b[0].0 !in Keys(b[1..])
  {
    assert forall i :: 0 <= i < |b| - 1 ==> b[1..][i] == b[i + 1];
  }

  /** After `array_merge($a, $b)`, a key of `b` reads as in `b`, any other key as in `a`. */
  lemma {:induction false} MergeFind<V>(a: Array<V>, b: Array<V>, k: string)
    requires Distinct(b)
    ensures Find(Merge(a, b), k) == if k in Keys(b) then Find(b, k) else Find(a, k)
    decreases |b|
  {
    if b != [] {
      DistinctTail(b);
      KeysCons(b);
      MergeFind(Put(a, b[0].0, b[0].1), b[1..], k);
      PutFind(a, b[0].0, b[0].1, k);
    }
  }
}
