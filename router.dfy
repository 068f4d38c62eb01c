/**
 * The router as the program runs it: objects whose `children` and `items`
 * maps are updated in place, and the class-level state they share (the
 * static `$current` slot, the static alias table, and the files that
 * `include_once` has already run). Each method is proved to compute what
 * module `Routing` says.
 */
module Web {
  import opened Wrappers
  import opened Php
  import opened KeyOrder
  import opened Pattern
  import opened Routing

  /**
   * The class-level state: the route files, the alias table the routes are
   * compiled with, the files included so far and the current router.
   */
  class Runtime {
    const scripts: map<string, seq<Registration>>
    const aliases: seq<(string, string)>
    var included: set<string>
    var current: Router?

    /** What the routers read but do not own. */
    function Env(): Site {
      Site(scripts, aliases)
    }

    /** A fresh program run: nothing included, no current router. */
    constructor (scripts: map<string, seq<Registration>>, aliases: seq<(string, string)>)
      ensures this.scripts == scripts && this.aliases == aliases
      ensures included == {} && current == null
    {
      this.scripts := scripts;
      this.aliases := aliases;
      included := {};
      current := null;
    }

    /**
     * `Router::getCurrent()`: the current router, or a new root router,
     * which its constructor makes current.
     */
    method GetCurrent() returns (r: Router)
      modifies this
      decreases 1
      ensures old(current) != null ==> r == old(current)
      ensures old(current) == null ==> fresh(r) && r.Model() == Empty("", "")
      ensures current == r && included == old(included)
    {
      if current != null {
        r := current;
      } else {
        assert NormaliseFilename("") == "";
        r := new Router("", "/", this);
      }
    }
  }

  /** One router: its file, its prefix, its child routers by prefix and its rules. */
  class Router {
    var filename: string
    var prefix: string
    var children: map<string, string>
    var items: map<string, seq<Handler>>

    /** The router's fields as a value. */
    function Model(): Node
      reads this
    {
      Node(filename, prefix, children, items)
    }

    /**
     * `new Router($filename, $prefix)`: normalise the file name, trim the
     * prefix, become the current router, and then, when the file is truthy,
     * known and not yet included, include it: each of its registrations is
     * made on `Router::getCurrent()`, which is this router.
     */
    constructor (filename: string, prefix: string, rt: Runtime)
      modifies rt
      decreases if Truthy(NormaliseFilename(filename)) && NormaliseFilename(filename) in rt.scripts
                   && NormaliseFilename(filename) !in rt.included then 2 else 0
      ensures var loaded := Load(filename, prefix, rt.Env(), old(rt.included));
        Model() == loaded.node && rt.included == loaded.included
      ensures rt.current == this
    {
      this.filename := NormaliseFilename(filename);
      this.prefix := RTrim(prefix, '/');
      children := map[];
      items := map[];
      new;
      rt.current := this;
      var f := this.filename;
      if Truthy(f) && f in rt.scripts && f !in rt.included {
        rt.included := rt.included + {f};
        var regs := rt.scripts[f];
        var start := Model();
        for i := 0 to |regs|
          invariant Model() == Replay(start, regs[..i], rt.aliases)
          invariant rt.current == this && rt.included == old(rt.included) + {f}
        {
          assert regs[..i + 1][..i] == regs[..i];
          var target := rt.GetCurrent();
          match regs[i]
          case Route(pattern, handler, extra) =>
            var _ := target.Route(pattern, handler, extra, rt);
          case Expose(directory, files) =>
            var _ := target.Expose(directory, files);
        }
        assert regs[..|regs|] == regs;
      }
    }

    /**
     * `route($path, $handler, ...)`: store the handler list under the
     * compiled rule, replacing any list stored under it, and return the rule.
     */
    method Route(path: string, handler: Handler, extra: seq<Handler>, rt: Runtime) returns (rule: string)
      modifies this
      ensures rule == CompileUrl(path, false, rt.aliases)
      ensures items == old(items)[rule := [handler] + extra]
      ensures children == old(children) && filename == old(filename) && prefix == old(prefix)
    {
      rule := CompileUrl(path, false, rt.aliases);
      items := items[rule := [handler] + extra];
    }

    /**
     * `expose($directory, ...)` over the files the scan listed: each file is
     * stored under its prefix relative to the slash-trimmed directory, in list
     * order. Returns the router itself.
     */
    method Expose(directory: string, files: seq<string>) returns (self: Router)
      modifies this
      ensures self == this
      ensures children == Exposed(old(children), Entries(directory, files))
      ensures items == old(items) && filename == old(filename) && prefix == old(prefix)
    {
      var dirlen := |RTrim(directory, '/')|;
      for i := 0 to |files|
        invariant children == Exposed(old(children), Entries(directory, files[..i]))
        invariant items == old(items) && filename == old(filename) && prefix == old(prefix)
      {
        ExposeOneMore(old(children), directory, files, i);
        children := children[ToPrefix(SubstrFrom(files[i], dirlen)) := files[i]];
      }
      assert files[..|files|] == files;
      self := this;
    }

    /**
     * The child walk of `dispatch`: the child prefixes in descending order,
     * stopping at the first that starts the path.
     */
    method FindChild(p: string) returns (r: Option<string>)
      ensures r == SelectChild(children, p)
    {
      var ks := SortDescending(children.Keys);
      for i := 0 to |ks|
        invariant forall j :: 0 <= j < i ==> !StartsWith(p, ks[j])
      {
        var k := ks[i];
        if StartsWith(p, k) {
          FirstIsGreatest(ks, children.Keys, Candidates(children, p), i);
          GreatestUnique(Candidates(children, p), k);
          return Some(k);
        }
      }
      NoneInDescending(ks, children.Keys, Candidates(children, p));
      r := None;
    }

    /**
     * The item walk of `dispatch`: the rules in descending order, stopping
     * at the first that matches the path.
     */
    method FindItem(p: string, m: Matcher) returns (r: Option<Match>)
      ensures r == ItemResult(Model(), p, m)
    {
      var rules := SortDescending(items.Keys);
      for i := 0 to |rules|
        invariant forall j :: 0 <= j < i ==> m(rules[j], p).None?
      {
        var rule := rules[i];
        var groups := m(rule, p);
        if groups.Some? {
          FirstIsGreatest(rules, items.Keys, Matching(items, p, m), i);
          GreatestUnique(Matching(items, p, m), rule);
          return Some(Match(items[rule], Args(groups.value), rule, p, prefix + Whole(groups.value)));
        }
      }
      NoneInDescending(rules, items.Keys, Matching(items, p, m));
      r := None;
    }

    /**
     * `dispatch($path)`: normalise the path; at the first child prefix that
     * starts it, build that child and return its dispatch of the rest of the
     * path, whatever that is; with no such prefix, the first matching rule.
     */
    method Dispatch(path: string, rt: Runtime, m: Matcher) returns (r: Option<Match>)
      modifies rt
      decreases |rt.scripts.Keys - rt.included|, if |children| == 0 then 0 else 1, 1
      ensures var o := Resolve(old(Model()), path, rt.Env(), old(rt.included), m);
        && r == o.result && rt.included == o.included
        && (o.trail == [] ==> rt.current == old(rt.current))
        && (o.trail != [] ==> rt.current != null && fresh(rt.current) && rt.current.prefix == RTrim(o.trail[|o.trail| - 1], '/'))
    {
      var p := NormalisePath(path);
      var sel := FindChild(p);
      match sel
      case Some(k) =>
        r := DispatchChild(path, k, rt, m);
      case None =>
        ResolveItems(Model(), path, rt.Env(), rt.included, m);
        r := FindItem(p, m);
    }

    /** The child branch of `dispatch`: build the child for prefix `k` and dispatch the rest of the path there. */
    method DispatchChild(path: string, k: string, rt: Runtime, m: Matcher) returns (r: Option<Match>)
      requires SelectChild(children, NormalisePath(path)) == Some(k)
      modifies rt
      decreases |rt.scripts.Keys - rt.included|, if |children| == 0 then 0 else 1, 0
      ensures var o := Resolve(old(Model()), path, rt.Env(), old(rt.included), m);
        && r == o.result && rt.included == o.included
        && o.trail != [] && rt.current != null && fresh(rt.current) && rt.current.prefix == RTrim(o.trail[|o.trail| - 1], '/')
    {
      ghost var n := Model();
      ghost var inc := rt.included;
      var file := children[k];
      var rest := NormalisePath(path)[|k|..];
      ghost var loaded := Load(file, k, rt.Env(), inc);
      LoadShrinks(file, k, rt.Env(), inc);
      var child := new Router(file, k, rt);
      r := child.Dispatch(rest, rt, m);
      ChildReported(n, path, rt.Env(), inc, m, k, loaded, Resolve(loaded.node, rest, rt.Env(), loaded.included, m));
    }
  }
}
