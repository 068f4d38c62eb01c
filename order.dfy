/**
 * The order in which `krsort` lays out string keys: plain byte-wise string
 * comparison, descending. The router walks both of its maps in that order
 * and commits to the first key that fits, so "first in descending order that
 * fits" is "greatest among the keys that fit".
 */
module KeyOrder {

  /** Strict lexicographic order on strings; a proper prefix comes first. */
  predicate Less(a: string, b: string)
    decreases |a|
  {
    if a == [] then b != []
    else if b == [] then false
    else a[0] < b[0] || (a[0] == b[0] && Less(a[1..], b[1..]))
  }

  lemma {:induction false} LessIrreflexive(a: string)
    ensures !Less(a, a)
    decreases |a|
  {
    if a != [] {
      LessIrreflexive(a[1..]);
    }
  }

  lemma {:induction false} LessAsymmetric(a: string, b: string)
    ensures !(Less(a, b) && Less(b, a))
    decreases |a|
  {
    if a != [] && b != [] && a[0] == b[0] {
      LessAsymmetric(a[1..], b[1..]);
    }
  }

  lemma {:induction false} LessTransitive(a: string, b: string, c: string)
    requires Less(a, b) && Less(b, c)
    ensures Less(a, c)
    decreases |a|
  {
    if a != [] && a[0] == b[0] && b[0] == c[0] {
      LessTransitive(a[1..], b[1..], c[1..]);
    }
  }

  lemma {:induction false} LessTotal(a: string, b: string)
    ensures a == b || Less(a, b) || Less(b, a)
    decreases |a|
  {
    if a != [] && b != [] && a[0] == b[0] {
      LessTotal(a[1..], b[1..]);
      if a[1..] == b[1..] {
        assert a == [a[0]] + a[1..] && b == [b[0]] + b[1..];
      }
    }
  }

  /** A proper prefix sorts before the longer string. */
  lemma {:induction false} PrefixIsLess(a: string, b: string)
    requires |a| < |b| && b[..|a|] == a
    ensures Less(a, b)
    decreases |a|
  {
    if a != [] {
      assert b[1..][..|a| - 1] == a[1..];
      PrefixIsLess(a[1..], b[1..]);
    }
  }

  /** `k` is above every other element of `s`. */
  ghost predicate IsGreatest(s: set<string>, k: string) {
    k in s && forall x :: x in s && x != k ==> Less(x, k)
  }

  /** The greatest element of a non-empty finite set of strings. */
  ghost function Greatest(s: set<string>): (g: string)
    requires s != {}
    ensures IsGreatest(s, g)
    decreases |s|
  {
    var x :| x in s;
    if s == {x} then x
    else
      var g' := Greatest(s - {x});
      LessTotal(g', x);
      if Less(g', x) then
        assert forall y :: y in s - {x} && y != g' ==> Less(y, x) by {
          forall y | y in s - {x} && y != g' {
            LessTransitive(y, g', x);
          }
        }
        x
      else g'
  }

  /** There is only one greatest element. */
  lemma GreatestUnique(s: set<string>, k: string)
    requires IsGreatest(s, k)
    ensures s != {} && Greatest(s) == k
  {
    var g := Greatest(s);
    if g != k {
      LessAsymmetric(g, k);
    }
  }

  /** `q` lists exactly the elements of `keys`, strictly descending. */
  ghost predicate SortedDescending(q: seq<string>, keys: set<string>) {
    && (forall i :: 0 <= i < |q| ==> q[i] in keys)
    && (forall k :: k in keys ==> k in q)
    && (forall i, j :: 0 <= i < j < |q| ==> Less(q[j], q[i]))
  }

  /** The greatest element of a non-empty set, by a scan over it. */
  method MaxKey(s: set<string>) returns (m: string)
    requires s != {}
    ensures IsGreatest(s, m)
  {
    m :| m in s;
    var rest := s - {m};
    while rest != {}
      invariant rest <= s && m in s && m !in rest
      invariant forall x :: x in s - rest && x != m ==> Less(x, m)
      decreases |rest|
    {
      var x :| x in rest;
      LessTotal(x, m);
      if Less(m, x) {
        forall y | y in s - rest && y != m {
          LessTransitive(y, m, x);
        }
        LessAsymmetric(m, x);
        m := x;
      }
      rest := rest - {x};
    }
  }

  /** `krsort` on the keys of a PHP array: the keys in descending order. */
  method SortDescending(keys: set<string>) returns (q: seq<string>)
    ensures SortedDescending(q, keys)
  {
    q := [];
    var rest := keys;
    while rest != {}
      invariant rest <= keys
      invariant forall i :: 0 <= i < |q| ==> q[i] in keys && q[i] !in rest
      invariant forall k :: k in keys ==> k in q || k in rest
      invariant forall i, j :: 0 <= i < j < |q| ==> Less(q[j], q[i])
      invariant forall i, k :: 0 <= i < |q| && k in rest ==> Less(k, q[i])
      decreases |rest|
    {
      var m := MaxKey(rest);
      forall i, k | 0 <= i < |q| && k in rest - {m}
        ensures Less(k, q[i])
      {
      }
      q := q + [m];
      rest := rest - {m};
    }
  }

  /**
   * Walking a descending list and stopping at the first key in `sub` stops
   * at the greatest key of `sub`.
   */
  lemma FirstIsGreatest(q: seq<string>, keys: set<string>, sub: set<string>, i: nat)
    requires SortedDescending(q, keys) && sub <= keys
    requires i < |q| && q[i] in sub && forall j :: 0 <= j < i ==> q[j] !in sub
    ensures IsGreatest(sub, q[i])
  {
    forall x | x in sub && x != q[i] ensures Less(x, q[i]) {
      var j :| 0 <= j < |q| && q[j] == x;
      assert i < j;
    }
  }

  /** A walk that finds no key of `sub` in a descending list of `keys` means `sub` is empty. */
  lemma NoneInDescending(q: seq<string>, keys: set<string>, sub: set<string>)
    requires SortedDescending(q, keys) && sub <= keys
    requires forall j :: 0 <= j < |q| ==> q[j] !in sub
    ensures sub == {}
  {
    assert forall x :: x in sub ==> x !in q;
  }
}
