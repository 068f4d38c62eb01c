/**
 * The router's state as a value and the meaning of its operations: what a
 * route file registers, what loading a child router yields, and what a
 * dispatch returns. The class in module `Web` is proved to compute exactly
 * these values.
 */
module Routing {
  import opened Wrappers
  import opened Php
  import opened KeyOrder
  import opened Pattern

  /** A controller, named as the route file names it. */
  type Handler = string

  /** One call a route file makes on the current router. */
  datatype Registration =
    | Route(pattern: string, handler: Handler, extra: seq<Handler>)
    | Expose(directory: string, files: seq<string>)

  /** The fields of one router: children map prefixes to files, items map rules to handler lists. */
  datatype Node = Node(
    filename: string,
    prefix: string,
    children: map<string, string>,
    items: map<string, seq<Handler>>)

  /** `preg_match($rule, $subject, $groups)`: the groups of a match, or None. */
  type Matcher = (string, string) -> Option<seq<string>>

  /** The array `dispatch` returns on success. */
  datatype Match = Match(handlers: seq<Handler>, args: seq<string>, rule: string, path: string, uri: string)

  /**
   * What the routers read but do not own: the route files, by name, with the
   * registrations each makes when included, and the static alias table.
   */
  datatype Site = Site(scripts: map<string, seq<Registration>>, aliases: seq<(string, string)>)

  /** A router with no routes and no children. */
  function Empty(filename: string, prefix: string): Node {
    Node(filename, prefix, map[], map[])
  }

  /** No child prefix ends in `/`; `expose` only records such prefixes. */
  ghost predicate WellFormed(n: Node) {
    forall k :: k in n.children ==> k == [] || k[|k| - 1] != '/'
  }

  /** The `prefix => file` pairs `expose` records for the listed files, in list order. */
  function Entries(directory: string, files: seq<string>): (r: seq<(string, string)>)
    ensures |r| == |files|
    ensures forall i :: 0 <= i < |files| ==> r[i].1 == files[i] && r[i].0 == ChildPrefix(directory, files[i])
    ensures forall i :: 0 <= i < |files| ==> r[i].0 == [] || r[i].0[|r[i].0| - 1] != '/'
  {
    seq(|files|, i requires 0 <= i < |files| => (ChildPrefix(directory, files[i]), files[i]))
  }

  /** The children after `expose` has stored the pairs in order, a later pair overwriting an earlier one. */
  function Exposed(children: map<string, string>, entries: seq<(string, string)>): map<string, string>
    decreases |entries|
  {
    if entries == [] then children
    else
      var e := entries[|entries| - 1];
      Exposed(children, entries[..|entries| - 1])[e.0 := e.1]
  }

  /** A prefix is present after `expose` when it was before or some pair carries it. */
  lemma {:induction false} ExposedKeys(children: map<string, string>, entries: seq<(string, string)>, p: string)
    ensures p in Exposed(children, entries) <==> p in children || exists j :: 0 <= j < |entries| && entries[j].0 == p
    decreases |entries|
  {
    if entries != [] {
      var init := entries[..|entries| - 1];
      ExposedKeys(children, init, p);
      if exists j :: 0 <= j < |entries| && entries[j].0 == p {
        var j :| 0 <= j < |entries| && entries[j].0 == p;
        if j < |init| {
          assert init[j] == entries[j];
        }
      }
      if exists j :: 0 <= j < |init| && init[j].0 == p {
        var j :| 0 <= j < |init| && init[j].0 == p;
        assert entries[j] == init[j];
      }
    }
  }

  /** The last pair with a given prefix is the one stored under it. */
  lemma {:induction false} ExposeLastWins(children: map<string, string>, entries: seq<(string, string)>, j: nat)
    requires j < |entries|
    requires forall i :: j < i < |entries| ==> entries[i].0 != entries[j].0
    ensures entries[j].0 in Exposed(children, entries) && Exposed(children, entries)[entries[j].0] == entries[j].1
    decreases |entries|
  {
    if j < |entries| - 1 {
      var init := entries[..|entries| - 1];
      assert init[j] == entries[j];
      forall i | j < i < |init| ensures init[i].0 != init[j].0 {
        assert init[i] == entries[i];
      }
      ExposeLastWins(children, init, j);
    }
  }

  /** A prefix that no pair carries keeps its old file. */
  lemma {:induction false} ExposeKeepsOthers(children: map<string, string>, entries: seq<(string, string)>, p: string)
    requires p in children
    requires forall i :: 0 <= i < |entries| ==> entries[i].0 != p
    ensures p in Exposed(children, entries) && Exposed(children, entries)[p] == children[p]
    decreases |entries|
  {
    if entries != [] {
      var init := entries[..|entries| - 1];
      forall i | 0 <= i < |init| ensures init[i].0 != p {
        assert init[i] == entries[i];
      }
      ExposeKeepsOthers(children, init, p);
    }
  }

  /** `expose` keeps a router well formed. */
  lemma {:induction false} ExposedWellFormed(children: map<string, string>, entries: seq<(string, string)>)
    requires forall k :: k in children ==> k == [] || k[|k| - 1] != '/'
    requires forall i :: 0 <= i < |entries| ==> entries[i].0 == [] || entries[i].0[|entries[i].0| - 1] != '/'
    ensures forall k :: k in Exposed(children, entries) ==> k == [] || k[|k| - 1] != '/'
    decreases |entries|
  {
    if entries != [] {
      var init := entries[..|entries| - 1];
      forall i | 0 <= i < |init|
        ensures init[i].0 == [] || init[i].0[|init[i].0| - 1] != '/'
      {
        assert init[i] == entries[i];
      }
      ExposedWellFormed(children, init);
    }
  }

  /** Listing one more file stores its pair over what the shorter list stored. */
  lemma ExposeOneMore(children: map<string, string>, directory: string, files: seq<string>, i: nat)
    requires i < |files|
    ensures Exposed(children, Entries(directory, files[..i + 1]))
      == Exposed(children, Entries(directory, files[..i]))[ChildPrefix(directory, files[i]) := files[i]]
  {
    var longer := Entries(directory, files[..i + 1]);
    assert longer[..i] == Entries(directory, files[..i]);
  }

  /** The effect of one registration on the current router. */
  function Apply(n: Node, reg: Registration, aliases: seq<(string, string)>): Node {
    match reg
    case Route(pattern, handler, extra) => n.(items := n.items[CompileUrl(pattern, false, aliases) := [handler] + extra])
    case Expose(directory, files) => n.(children := Exposed(n.children, Entries(directory, files)))
  }

  /** A route registration stores a non-empty handler list under the compiled rule and touches nothing else. */
  lemma RouteRegistered(n: Node, pattern: string, handler: Handler, extra: seq<Handler>, aliases: seq<(string, string)>)
    ensures var r := Apply(n, Route(pattern, handler, extra), aliases); var rule := CompileUrl(pattern, false, aliases);
      && rule in r.items && r.items[rule] == [handler] + extra && |r.items[rule]| >= 1
      && (forall k :: k != rule ==> (k in r.items <==> k in n.items))
      && (forall k :: k != rule && k in n.items ==> r.items[k] == n.items[k])
      && r.children == n.children && r.prefix == n.prefix && r.filename == n.filename
  {
  }

  /** Running the registrations of a route file in order. */
  function Replay(n: Node, regs: seq<Registration>, aliases: seq<(string, string)>): Node
    decreases |regs|
  {
    if regs == [] then n else Apply(Replay(n, regs[..|regs| - 1], aliases), regs[|regs| - 1], aliases)
  }

  /** Registrations keep a router well formed and never change its file name or prefix. */
  lemma {:induction false} ReplayWellFormed(n: Node, regs: seq<Registration>, aliases: seq<(string, string)>)
    requires WellFormed(n)
    ensures WellFormed(Replay(n, regs, aliases))
    ensures Replay(n, regs, aliases).prefix == n.prefix && Replay(n, regs, aliases).filename == n.filename
    decreases |regs|
  {
    if regs != [] {
      ReplayWellFormed(n, regs[..|regs| - 1], aliases);
      ApplyWellFormed(Replay(n, regs[..|regs| - 1], aliases), regs[|regs| - 1], aliases);
    }
  }

  /** One registration keeps a router well formed and keeps its file name and prefix. */
  lemma ApplyWellFormed(n: Node, reg: Registration, aliases: seq<(string, string)>)
    requires WellFormed(n)
    ensures WellFormed(Apply(n, reg, aliases))
    ensures Apply(n, reg, aliases).prefix == n.prefix && Apply(n, reg, aliases).filename == n.filename
  {
    match reg
    case Route(_, _, _) =>
      assert Apply(n, reg, aliases).children == n.children;
    case Expose(directory, files) =>
      ExposedWellFormed(n.children, Entries(directory, files));
  }

  /** The constructor's `str_replace(['//', '/', '\\'], '/', $filename)`. */
  function NormaliseFilename(filename: string): string {
    ReplaceEach([("//", "/"), ("/", "/"), ("\\", "/")], filename)
  }

  /** A freshly built router and the set of files included so far. */
  datatype Loaded = Loaded(node: Node, included: set<string>)

  /**
   * `new Router($filename, $prefix)`: the file name is normalised and the
   * prefix slash-trimmed; a truthy, readable file that was not included
   * before is included now and its registrations run on the new router.
   */
  function Load(filename: string, prefix: string, site: Site, included: set<string>): (r: Loaded)
    ensures r.node.filename == NormaliseFilename(filename) && r.node.prefix == RTrim(prefix, '/')
    ensures WellFormed(r.node)
    ensures var f := NormaliseFilename(filename);
      Truthy(f) && f in site.scripts && f !in included ==>
        r.included == included + {f} && r.node == Replay(Empty(f, RTrim(prefix, '/')), site.scripts[f], site.aliases)
    ensures var f := NormaliseFilename(filename);
      !(Truthy(f) && f in site.scripts && f !in included) ==>
        r.included == included && r.node.children == map[] && r.node.items == map[]
  {
    var f := NormaliseFilename(filename);
    var start := Empty(f, RTrim(prefix, '/'));
    if Truthy(f) && f in site.scripts && f !in included then
      ReplayWellFormed(start, site.scripts[f], site.aliases);
      Loaded(Replay(start, site.scripts[f], site.aliases), included + {f})
    else Loaded(start, included)
  }

  /** A file already included yields a router without routes: `include_once` does not run it again. */
  lemma IncludedOnce(filename: string, prefix: string, again: string, prefix': string,
                     site: Site, included: set<string>)
    requires NormaliseFilename(again) == NormaliseFilename(filename)
    ensures var first := Load(filename, prefix, site, included);
      var second := Load(again, prefix', site, first.included);
      second.included == first.included && second.node.children == map[] && second.node.items == map[]
  {
  }

  /** `rtrim(strtolower($path), '/') . '/'`. */
  function NormalisePath(path: string): (r: string)
    ensures r != [] && r[|r| - 1] == '/'
    ensures |r| < 2 || r[|r| - 2] != '/'
    ensures forall i :: 0 <= i < |r| ==> !IsUpper(r[i])
  {
    RTrim(Lower(path), '/') + "/"
  }

  /** A normalised path is its own normal form. */
  lemma NormaliseIdempotent(path: string)
    ensures NormalisePath(NormalisePath(path)) == NormalisePath(path)
  {
    var t := RTrim(Lower(path), '/');
    LowerPlain(t + "/");
    RTrimSlash(t);
  }

  /**
   * What is left after a child prefix that does not end in `/` is cut off a
   * normalised path is normalised again.
   */
  lemma ResidualNormal(p: string, k: string)
    requires p == NormalisePath(p) && StartsWith(p, k) && (k == [] || k[|k| - 1] != '/')
    ensures NormalisePath(p[|k|..]) == p[|k|..]
  {
    var r := p[|k|..];
    assert |k| < |p|;
    assert r != [] && r[|r| - 1] == '/';
    LowerPlain(r);
    if |r| == 1 {
      assert RTrim(r, '/') == [];
    } else {
      assert r[|r| - 2] == p[|p| - 2];
      assert RTrim(r, '/') == r[..|r| - 1];
    }
  }

  /** The child prefixes that start the path. */
  ghost function Candidates(children: map<string, string>, path: string): set<string> {
    set k | k in children && StartsWith(path, k)
  }

  /** The child `dispatch` commits to: the first candidate in descending key order. */
  ghost function SelectChild(children: map<string, string>, path: string): (r: Option<string>)
    ensures r.Some? ==> IsGreatest(Candidates(children, path), r.value)
    ensures r.None? ==> forall k :: k in children ==> !StartsWith(path, k)
  {
    var ks := Candidates(children, path);
    assert forall k :: k in children && StartsWith(path, k) ==> k in ks;
    if ks == {} then None else Some(Greatest(ks))
  }

  /** Every candidate prefix is a prefix of the chosen one: the longest prefix wins. */
  lemma LongestPrefixWins(children: map<string, string>, path: string, k: string)
    requires SelectChild(children, path).Some? && k in children && StartsWith(path, k)
    ensures var c := SelectChild(children, path).value; |k| <= |c| && c[..|k|] == k
  {
    var c := SelectChild(children, path).value;
    if |c| < |k| {
      assert k[..|c|] == c;
      PrefixIsLess(c, k);
      LessAsymmetric(c, k);
    } else {
      assert c[..|k|] == path[..|k|];
    }
  }

  /** The rules that match the path. */
  ghost function Matching(items: map<string, seq<Handler>>, path: string, m: Matcher): set<string> {
    set k | k in items && m(k, path).Some?
  }

  /** The whole match, `array_shift($args)`; nothing when the matcher gave no groups. */
  function Whole(groups: seq<string>): string {
    if groups == [] then "" else groups[0]
  }

  /** The capture groups without the whole match. */
  function Args(groups: seq<string>): seq<string> {
    if groups == [] then [] else groups[1..]
  }

  /**
   * The item phase of `dispatch`: the first rule in descending key order
   * that matches, with its handlers, groups, path and `prefix + whole match`.
   */
  ghost function ItemResult(n: Node, path: string, m: Matcher): (r: Option<Match>)
    ensures r.Some? ==> var rule := r.value.rule;
      && rule in n.items && m(rule, path).Some?
      && r.value.handlers == n.items[rule] && r.value.path == path
      && r.value.args == Args(m(rule, path).value) && r.value.uri == n.prefix + Whole(m(rule, path).value)
      && (forall k :: k in n.items && m(k, path).Some? && k != rule ==> Less(k, rule))
    ensures r.None? ==> forall k :: k in n.items ==> m(k, path).None?
  {
    var ks := Matching(n.items, path, m);
    assert forall k :: k in n.items && m(k, path).Some? ==> k in ks;
    if ks == {} then None
    else
      var rule := Greatest(ks);
      var groups := m(rule, path).value;
      Some(Match(n.items[rule], Args(groups), rule, path, n.prefix + Whole(groups)))
  }

  /**
   * A matcher for `^…$` rules: a match consumes the whole subject, so the
   * first group is the subject itself.
   */
  ghost predicate Anchored(m: Matcher) {
    forall rule, subject :: m(rule, subject).Some? ==> |m(rule, subject).value| >= 1 && m(rule, subject).value[0] == subject
  }

  /** The literal matcher is anchored. */
  lemma LiteralAnchored()
    ensures Anchored(LiteralMatch)
  {
  }

  /** A dispatch result, the files included meanwhile and the child prefixes committed to, outermost first. */
  datatype Outcome = Outcome(result: Option<Match>, included: set<string>, trail: seq<string>)

  /**
   * Building a child router either includes a new file, leaving fewer files
   * to include, or yields a router without children: dispatch terminates.
   */
  lemma LoadShrinks(filename: string, prefix: string, site: Site, included: set<string>)
    ensures var r := Load(filename, prefix, site, included);
      || |site.scripts.Keys - r.included| < |site.scripts.Keys - included|
      || (r.included == included && |r.node.children| == 0)
  {
    var f := NormaliseFilename(filename);
    if Truthy(f) && f in site.scripts && f !in included {
      assert site.scripts.Keys - (included + {f}) == (site.scripts.Keys - included) - {f};
    }
  }

  /**
   * `dispatch($path)`: normalise the path; if a child prefix starts it,
   * build that child (loading its file) and return the child's dispatch of
   * the rest of the path, whatever it is; otherwise the item phase.
   */
  ghost function Resolve(n: Node, path: string, site: Site, included: set<string>, m: Matcher): Outcome
    decreases |site.scripts.Keys - included|, if |n.children| == 0 then 0 else 1
  {
    var p := NormalisePath(path);
    match SelectChild(n.children, p)
    case Some(k) =>
      var loaded := Load(n.children[k], k, site, included);
      LoadShrinks(n.children[k], k, site, included);
      var sub := Resolve(loaded.node, p[|k|..], site, loaded.included, m);
      Outcome(sub.result, sub.included, [k] + sub.trail)
    case None => Outcome(ItemResult(n, p, m), included, [])
  }

  /** Once a child prefix starts the path, the router's own items play no part. */
  lemma ChildCommits(n: Node, path: string, site: Site, included: set<string>, m: Matcher,
                     items: map<string, seq<Handler>>)
    requires SelectChild(n.children, NormalisePath(path)).Some?
    ensures Resolve(n.(items := items), path, site, included, m) == Resolve(n, path, site, included, m)
  {
  }

  /** `Resolve` commits to the selected child and reports what the child's dispatch reports. */
  lemma ResolveChild(n: Node, path: string, site: Site, included: set<string>,
                     m: Matcher, k: string)
    requires SelectChild(n.children, NormalisePath(path)) == Some(k)
    ensures var loaded := Load(n.children[k], k, site, included);
      var sub := Resolve(loaded.node, NormalisePath(path)[|k|..], site, loaded.included, m);
      Resolve(n, path, site, included, m) == Outcome(sub.result, sub.included, [k] + sub.trail)
  {
  }

  /**
   * What a router reports once its selected child has reported: the
   * child's result and included files, and a trail that ends where the
   * child's trail ends, or at `k` when the child committed to nothing.
   */
  lemma ChildReported(n: Node, path: string, site: Site, included: set<string>, m: Matcher, k: string,
                      child: Loaded, sub: Outcome)
    requires SelectChild(n.children, NormalisePath(path)) == Some(k)
    requires child == Load(n.children[k], k, site, included)
    requires sub == Resolve(child.node, NormalisePath(path)[|k|..], site, child.included, m)
    ensures var o := Resolve(n, path, site, included, m);
      && o.result == sub.result && o.included == sub.included && o.trail != []
      && o.trail[|o.trail| - 1] == if sub.trail == [] then k else sub.trail[|sub.trail| - 1]
  {
    ResolveChild(n, path, site, included, m, k);
    LastOfCons(k, sub.trail);
  }

  /** The last element of `[k] + s`. */
  lemma LastOfCons(k: string, s: seq<string>)
    ensures ([k] + s)[|s|] == if s == [] then k else s[|s| - 1]
  {
  }

  /** Without a matching child, `Resolve` is the item phase. */
  lemma ResolveItems(n: Node, path: string, site: Site, included: set<string>, m: Matcher)
    requires SelectChild(n.children, NormalisePath(path)).None?
    ensures Resolve(n, path, site, included, m) == Outcome(ItemResult(n, NormalisePath(path), m), included, [])
  {
  }

  function Concat(parts: seq<string>): string {
    if parts == [] then "" else parts[0] + Concat(parts[1..])
  }

  /** One committed prefix in front of the rest of the round trip. */
  lemma RoundTripStep(p: string, k: string, trail: seq<string>, rest: string)
    requires StartsWith(p, k) && Concat(trail) + rest == p[|k|..]
    ensures Concat([k] + trail) + rest == p
  {
    var c := Concat(trail);
    assert ([k] + trail)[1..] == trail;
    assert Concat([k] + trail) == k + c;
    calc {
      Concat([k] + trail) + rest;
      (k + c) + rest;
      k + (c + rest);
      k + p[|k|..];
      p;
    }
  }

  /** The round trip through one committed child, given the round trip inside that child. */
  lemma RoundTripChild(n: Node, path: string, site: Site, included: set<string>,
                       m: Matcher, k: string)
    requires WellFormed(n) && SelectChild(n.children, NormalisePath(path)) == Some(k)
    requires var p := NormalisePath(path);
      var loaded := Load(n.children[k], k, site, included);
      var sub := Resolve(loaded.node, p[|k|..], site, loaded.included, m);
      sub.result.Some? ==> Concat(sub.trail) + sub.result.value.path == NormalisePath(p[|k|..])
    ensures var o := Resolve(n, path, site, included, m);
      o.result.Some? ==> Concat(o.trail) + o.result.value.path == NormalisePath(path)
  {
    var p := NormalisePath(path);
    var loaded := Load(n.children[k], k, site, included);
    var sub := Resolve(loaded.node, p[|k|..], site, loaded.included, m);
    ResolveChild(n, path, site, included, m, k);
    if sub.result.Some? {
      NormaliseIdempotent(path);
      ResidualNormal(p, k);
      RoundTripStep(p, k, sub.trail, sub.result.value.path);
    }
  }

  /**
   * The committed child prefixes followed by the path the matching router
   * saw spell the normalised request path.
   */
  lemma {:induction false} ResolveRoundTrip(n: Node, path: string, site: Site,
                                            included: set<string>, m: Matcher)
    requires WellFormed(n)
    ensures var o := Resolve(n, path, site, included, m);
      o.result.Some? ==> Concat(o.trail) + o.result.value.path == NormalisePath(path)
    decreases |site.scripts.Keys - included|, if |n.children| == 0 then 0 else 1
  {
    var p := NormalisePath(path);
    var sel := SelectChild(n.children, p);
    if sel.Some? {
      var k := sel.value;
      var loaded := Load(n.children[k], k, site, included);
      LoadShrinks(n.children[k], k, site, included);
      ResolveRoundTrip(loaded.node, p[|k|..], site, loaded.included, m);
      RoundTripChild(n, path, site, included, m, k);
    } else {
      ResolveItems(n, path, site, included, m);
    }
  }

  /** The prefix of the router whose items matched: the last committed child, or the router itself. */
  function Owner(prefix: string, trail: seq<string>): string {
    if trail == [] then prefix else trail[|trail| - 1]
  }

  /** The item phase reports the router's prefix followed by the whole match, which an anchored matcher makes the path. */
  lemma ItemUri(n: Node, path: string, m: Matcher)
    requires Anchored(m)
    ensures var r := ItemResult(n, path, m); r.Some? ==> r.value.uri == n.prefix + path
  {
  }

  /** The reported `uri` through one committed child, given the same fact inside that child. */
  lemma UriChild(n: Node, path: string, site: Site, included: set<string>,
                 m: Matcher, k: string)
    requires SelectChild(n.children, NormalisePath(path)) == Some(k)
    requires var p := NormalisePath(path);
      var loaded := Load(n.children[k], k, site, included);
      var sub := Resolve(loaded.node, p[|k|..], site, loaded.included, m);
      sub.result.Some? ==> sub.result.value.uri == Owner(loaded.node.prefix, sub.trail) + sub.result.value.path
    requires WellFormed(n)
    ensures var o := Resolve(n, path, site, included, m);
      o.result.Some? ==> o.result.value.uri == Owner(n.prefix, o.trail) + o.result.value.path
  {
    var p := NormalisePath(path);
    var loaded := Load(n.children[k], k, site, included);
    var sub := Resolve(loaded.node, p[|k|..], site, loaded.included, m);
    ResolveChild(n, path, site, included, m, k);
    ChildKeepsPrefix(n, k, site, included);
    OwnerCons(n.prefix, k, sub.trail);
  }

  /** A child router built for a key of a well-formed router has that key as its prefix. */
  lemma ChildKeepsPrefix(n: Node, k: string, site: Site, included: set<string>)
    requires WellFormed(n) && k in n.children
    ensures Load(n.children[k], k, site, included).node.prefix == k
  {
    assert k == [] || k[|k| - 1] != '/';
  }

  /** The owner after one more committed child. */
  lemma OwnerCons(prefix: string, k: string, trail: seq<string>)
    ensures Owner(prefix, [k] + trail) == Owner(k, trail)
  {
    LastOfCons(k, trail);
  }

  /**
   * With an anchored matcher the reported `uri` is the matching router's own
   * prefix followed by the path it saw: the prefixes of the routers above
   * it are not included.
   */
  lemma {:induction false} ResolveUri(n: Node, path: string, site: Site,
                                      included: set<string>, m: Matcher)
    requires WellFormed(n) && Anchored(m)
    ensures var o := Resolve(n, path, site, included, m);
      o.result.Some? ==> o.result.value.uri == Owner(n.prefix, o.trail) + o.result.value.path
    decreases |site.scripts.Keys - included|, if |n.children| == 0 then 0 else 1
  {
    var p := NormalisePath(path);
    var sel := SelectChild(n.children, p);
    if sel.Some? {
      var k := sel.value;
      var loaded := Load(n.children[k], k, site, included);
      LoadShrinks(n.children[k], k, site, included);
      ResolveUri(loaded.node, p[|k|..], site, loaded.included, m);
      UriChild(n, path, site, included, m, k);
    } else {
      ResolveItems(n, path, site, included, m);
      ItemUri(n, p, m);
    }
  }
}
