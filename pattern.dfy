/**
 * The two pure helpers of the router: `compileUrl`, which turns a route
 * pattern into an anchored regular expression, and `toPrefix`, which turns
 * the relative path of a route file into the prefix its routes live under.
 * The directory separator is `/`, so the separator replacement inside
 * `toPrefix` is the identity.
 */
module Pattern {
  import opened Wrappers
  import opened Php
  import opened PregQuote
  import opened Alias

  /** The optional tail `compileUrl` adds for a wildcard rule. */
  function Wildcard(isWild: bool): string {
    if isWild then "(.*)?" else ""
  }

  /** The anchored rule around a compiled body: `!^body/?$!`, or `!^body/?(.*)?$!` for a wildcard. */
  function Anchor(body: string, isWild: bool): string {
    "!^" + body + "/?" + Wildcard(isWild) + "$!"
  }

  /**
   * `compileUrl($url, $is_wild)` with the router's static alias table
   * `aliases` (public, so a parameter here; `Aliases` is its initial value):
   * trailing slashes stripped, lower-cased, escaped, alias tokens replaced,
   * then anchored with an optional final `/`. For a table of alias tokens
   * its meaning is one simultaneous substitution: every token becomes its
   * fragment and every other character is escaped.
   */
  function CompileUrl(url: string, isWild: bool, aliases: seq<(string, string)>): (r: string)
    ensures TokenTable(aliases) ==>
              NonEmptyKeys(aliases) && r == Anchor(Subst(Lower(RTrim(url, '/')), aliases), isWild)
  {
    var body := Lower(RTrim(url, '/'));
    SubstitutionIsSimultaneous(body, aliases);
    "!^" + ReplaceEach(QuoteKeys(aliases), Quote(body)) + "/?" + Wildcard(isWild) + "$!"
  }

  /** Patterns that differ only in letter case or trailing slashes compile to the same rule. */
  lemma CompileUrlCanonical(url: string, isWild: bool, aliases: seq<(string, string)>)
    ensures CompileUrl(Lower(url), isWild, aliases) == CompileUrl(url, isWild, aliases)
    ensures CompileUrl(url + "/", isWild, aliases) == CompileUrl(url, isWild, aliases)
  {
    RTrimLower(url);
    LowerIdempotent(RTrim(url, '/'));
    RTrimSlash(url);
  }

  /** Text without upper-case letters is its own lower case. */
  lemma LowerPlain(s: string)
    requires forall i :: 0 <= i < |s| ==> !IsUpper(s[i])
    ensures Lower(s) == s
  {
  }

  /** Two tokens side by side are already lower-case and slash-trimmed. */
  lemma TokenPairPlain(a: string, b: string)
    requires IsToken(a) && IsToken(b)
    ensures Lower(RTrim(a + b, '/')) == a + b
  {
    var p := a + b;
    assert p[|p| - 1] == '>';
    assert RTrim(p, '/') == p;
    forall i | 0 <= i < |p| ensures !IsUpper(p[i]) {
      if i < |a| {
        assert p[i] == a[i];
      } else {
        assert p[i] == b[i - |a|];
      }
    }
    LowerPlain(p);
  }

  /** Two alias tokens side by side compile to their two fragments side by side. */
  lemma CompileAdjacentTokens(i: nat, j: nat)
    requires i < |Aliases| && j < |Aliases|
    ensures CompileUrl(Aliases[i].0 + Aliases[j].0, false, Aliases)
      == Anchor(Aliases[i].1 + Aliases[j].1, false)
  {
    var a, b := Aliases[i].0, Aliases[j].0;
    AliasesShape();
    TokenPairPlain(a, b);
    SubstTokenPair(i, j);
  }

  /**
   * A matcher for the rules compiled from alias-free patterns, `!^L/?$!`
   * with `L` an escaped literal: the subject must be the literal, with or
   * without one trailing `/`. The only group is the whole match.
   */
  function LiteralMatch(rule: string, subject: string): (r: Option<seq<string>>)
    ensures r.Some? ==> r.value == [subject]
  {
    if |rule| >= 6 && rule[..2] == "!^" && rule[|rule| - 4..] == "/?$!" then
      match Unquote(rule[2..|rule| - 4])
      case Some(lit) => if subject == lit || subject == lit + "/" then Some([subject]) else None
      case None => None
    else None
  }

  /** The literal matcher reads back the escaped literal of an anchored rule. */
  lemma LiteralMatchAnchor(lit: string, subject: string)
    ensures LiteralMatch(Anchor(Quote(lit), false), subject).Some? <==> subject == lit || subject == lit + "/"
  {
    var q := Quote(lit);
    var rule := Anchor(q, false);
    assert rule == "!^" + q + "/?$!";
    assert rule[..2] == "!^" && rule[|rule| - 4..] == "/?$!";
    assert rule[2..|rule| - 4] == q;
    UnquoteQuote(lit);
  }

  /**
   * A rule compiled from a pattern without alias tokens matches exactly the
   * lower-cased, slash-trimmed pattern, with or without one trailing `/`.
   */
  lemma LiteralRule(url: string, subject: string)
    requires AliasFree(Lower(RTrim(url, '/')))
    ensures var lit := Lower(RTrim(url, '/'));
      LiteralMatch(CompileUrl(url, false, Aliases), subject).Some? <==> subject == lit || subject == lit + "/"
  {
    var lit := Lower(RTrim(url, '/'));
    AliasesShape();
    SubstAliasFree(lit);
    LiteralMatchAnchor(lit, subject);
  }

  /** `strstr(basename($filename), '.')`: the base name from its first `.` on, or "" without one. */
  function Extension(filename: string): (r: string)
    ensures |r| <= |Basename(filename)|
    ensures r == [] || r[0] == '.'
  {
    var base := Basename(filename);
    match IndexOf(base, '.')
    case Some(i) => base[i..]
    case None => []
  }

  /**
   * `substr($filename, 0, -strlen($extname))`: the path without the
   * extension; a length of `-0` keeps nothing.
   */
  function Pathname(filename: string): (r: string)
    ensures |r| <= |filename|
    ensures Extension(filename) == [] ==> r == []
  {
    var ext := Extension(filename);
    if ext == [] then [] else filename[..|filename| - |ext|]
  }

  /**
   * `toPrefix($filename)`: the path without the extension of its base name,
   * trailing slashes stripped, lower-cased. Without an extension the cut
   * `substr($filename, 0, -0)` keeps nothing, so the prefix is "".
   */
  function ToPrefix(filename: string): (r: string)
    ensures forall i :: 0 <= i < |r| ==> !IsUpper(r[i])
    ensures r == [] || r[|r| - 1] != '/'
    ensures IndexOf(Basename(filename), '.').None? ==> r == []
    ensures |r| <= |filename|
  {
    Lower(RTrim(Pathname(filename), '/'))
  }

  lemma CutAt(dir: string, base: string, i: nat)
    requires i <= |base|
    ensures (dir + base)[..|dir + base| - |base[i..]|] == dir + base[..i]
  {
  }

  /** The extension starts at the first `.` of the base name. */
  lemma ExtensionAt(dir: string, base: string, i: nat)
    requires dir == [] || dir[|dir| - 1] == '/'
    requires '/' !in base && i < |base| && base[i] == '.' && '.' !in base[..i]
    ensures Extension(dir + base) == base[i..]
  {
    BasenameOf(dir, base);
    IndexOfIs(base, '.', i);
  }

  /** The path without its extension ends where the first `.` of the base name is. */
  lemma PathnameCut(dir: string, base: string, i: nat)
    requires dir == [] || dir[|dir| - 1] == '/'
    requires '/' !in base && i < |base| && base[i] == '.' && '.' !in base[..i]
    ensures Pathname(dir + base) == dir + base[..i]
  {
    ExtensionAt(dir, base, i);
    CutAt(dir, base, i);
  }

  /** `toPrefix` cuts the path at the first `.` of its base name. */
  lemma ToPrefixCut(dir: string, base: string, i: nat)
    requires dir == [] || dir[|dir| - 1] == '/'
    requires '/' !in base && i < |base| && base[i] == '.' && '.' !in base[..i]
    ensures ToPrefix(dir + base) == Lower(RTrim(dir + base[..i], '/'))
  {
    PathnameCut(dir, base, i);
  }

  /**
   * The prefix `expose` records for a listed file: `toPrefix` of the file
   * name after the slash-trimmed directory.
   */
  function ChildPrefix(directory: string, filename: string): (r: string)
    ensures r == [] || r[|r| - 1] != '/'
  {
    ToPrefix(SubstrFrom(filename, |RTrim(directory, '/')|))
  }

  /** `/` followed by a slash-free text loses the `/` to trimming only when the text is empty. */
  lemma RTrimSlashName(w: string)
    requires '/' !in w
    ensures RTrim("/" + w, '/') == if w == [] then [] else "/" + w
  {
    var x := "/" + w;
    if w == [] {
      assert x[..0] == [];
    } else {
      assert x[|x| - 1] == w[|w| - 1];
      assert w[|w| - 1] in w;
    }
  }

  /**
   * A file `name` listed directly in the directory gets the prefix `/` +
   * the lower-cased name up to its first `.`; "" if the name starts with `.`.
   */
  lemma ChildPrefixOfFile(directory: string, name: string, i: nat)
    requires '/' !in name && i < |name| && name[i] == '.' && '.' !in name[..i]
    ensures ChildPrefix(directory, RTrim(directory, '/') + "/" + name)
      == if i == 0 then [] else "/" + Lower(name[..i])
  {
    var d := RTrim(directory, '/');
    var f := d + "/" + name;
    var w := name[..i];
    assert SubstrFrom(f, |d|) == "/" + name;
    ToPrefixCut("/", name, i);
    assert ChildPrefix(directory, f) == Lower(RTrim("/" + w, '/'));
    assert forall c :: c in w ==> c in name;
    RTrimSlashName(w);
    if i != 0 {
      LowerOne('/');
      LowerConcat("/", w);
    }
  }
}
