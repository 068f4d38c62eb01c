# Docx router and application core, modelled in Dafny

This project models two parts of Docx, a PHP documentation site generator.

**The request router** (`Docx\Web\Router`) covers:
- compiling route patterns into anchored regular expressions, with the alias table (`<int>`, `<string>`, ...);
- deriving a child router's prefix from the name of its route file;
- registering routes and child routers;
- the greedy dispatcher.

The dispatcher works in two phases:
1. It walks the child prefixes in descending key order. It commits to the first prefix that starts the path and builds that child router, which loads its route file at most once.
2. When no child prefix fits, it walks the router's own rules in descending key order. It returns the first rule that matches.

**The application object** (`DOCX_App`) covers:
- option lookup;
- the rewriting of the request URL (home page, admin prefix, edit mode);
- the `(directory, file)` key under which a page's metadata is stored;
- the lazily built documents directory, whose entries `updateMetas` completes in place;
- the search for the first page that is not the home page.

The project is organised as follows:

| File | Module | Contents |
|---|---|---|
| `php.dfy` | `Wrappers` | The `Option` type |
| `php.dfy` | `Php` | The PHP string built-ins the code uses (`strtolower`, `rtrim`, `ltrim`, `substr`, `basename`, `dirname`, `str_replace`, truthiness) |
| `php.dfy` | `PhpArray` | Ordered PHP arrays with string keys (assignment, lookup, `array_merge`) |
| `order.dfy` | `KeyOrder` | The key order of `krsort`, and a descending sort of a key set |
| `quote.dfy` | `PregQuote` | `preg_quote` and its inverse |
| `alias.dfy` | `Alias` | The alias table; proof that `compileUrl`'s sequential `str_replace` passes equal one simultaneous substitution |
| `pattern.dfy` | `Pattern` | `compileUrl`, `toPrefix`, and a literal matcher for alias-free rules |
| `dispatch.dfy` | `Routing` | The router's state as a value; what loading and dispatching compute |
| `router.dfy` | `Web` | Classes `Router` and `Runtime`, whose in-place methods are proved to compute what `Routing` says. `Runtime` holds the class-level state: the `$current` slot, the alias table and the set of included files |
| `app.dfy` | `DocX` | Option lookup and URL rewriting as functions; classes `App` and `Directory` with the lazy build, `updateMetas` and `getToppestPage` |

Two behaviours of the code a reader might not expect:
- **Children are not cached.** Every dispatch through a child prefix builds a new child router. The set of included files is the only thing that persists.
- **The reported `uri`.** It is the prefix of the router whose rule matched, followed by the whole match. The prefixes of the routers above it are not added (`Routing.ResolveUri`).

## Model

| member | source | states |
|---|---|---|
| Alias.AliasesShape | vendor/Docx/Web/Router.php:30-38 | Every alias key is a token `<letters>`, every fragment contains no `<`, and no key is repeated |
| Alias.SubstitutionIsSimultaneous | vendor/Docx/Web/Router.php:103-107 | For a table of tokens, escaping the pattern and then running one `str_replace` pass per escaped key in table order equals one left-to-right scan. That scan turns every token into its fragment and escapes every other character |
| Alias.ReplaceEachIsReplaceMany | vendor/Docx/Web/Router.php:107 | With escaped token keys and `<`-free fragments, the sequential passes of `str_replace` with arrays equal a single pass that tries the keys in order at each position |
| Alias.KeyAtQuote | vendor/Docx/Web/Router.php:105-107 | The escaped pattern starts with an escaped key exactly where the pattern starts with the key |
| Alias.SubstToken | vendor/Docx/Web/Router.php:30-38 | An alias token at the front of the pattern is replaced by its fragment, and the rest is substituted on its own |
| Alias.SubstTokenPair | vendor/Docx/Web/Router.php:30-38 | Two adjacent alias tokens become their two fragments side by side |
| Alias.SubstAliasFree | vendor/Docx/Web/Router.php:103-107 | Without alias tokens the substitution is plain `preg_quote` |
| PregQuote.QuoteConcat | vendor/Docx/Web/Router.php:103 | Escaping distributes over concatenation |
| PregQuote.UnquoteQuote | vendor/Docx/Web/Router.php:103 | Reading an escaped text back gives the original text: `preg_quote` loses nothing |
| PregQuote.QuotePrefix | vendor/Docx/Web/Router.php:105-107 | One text's escape starts another's escape exactly when the first text starts the second |
| Pattern.CompileUrl | vendor/Docx/Web/Router.php:101-112 | For a table of tokens the rule is `!^` + the simultaneous substitution of the lower-cased, slash-trimmed pattern + `/?` + the wildcard tail + `$!` |
| Pattern.CompileUrlCanonical | vendor/Docx/Web/Router.php:103 | Patterns that differ only in letter case or in a trailing `/` compile to the same rule |
| Pattern.CompileAdjacentTokens | vendor/Docx/Web/Router.php:30-38 | A pattern made of two alias tokens compiles to their two fragments, anchored |
| Pattern.LiteralMatch | vendor/Docx/Web/Router.php:195-197 | The literal matcher's only group is the whole subject |
| Pattern.LiteralMatchAnchor | vendor/Docx/Web/Router.php:111 | The anchored rule of an escaped literal matches exactly the literal, with or without one trailing `/` |
| Pattern.LiteralRule | vendor/Docx/Web/Router.php:101-111 | The rule compiled from an alias-free pattern matches exactly the lower-cased, slash-trimmed pattern, with or without one trailing `/` |
| Pattern.Extension | vendor/Docx/Web/Router.php:83 | The extension is empty or starts with `.`, and is no longer than the base name |
| Pattern.Pathname | vendor/Docx/Web/Router.php:84 | The cut path is no longer than the file name, and is empty when there is no extension (`substr` with length `-0`) |
| Pattern.ToPrefix | vendor/Docx/Web/Router.php:80-89 | The prefix has no upper-case letter and does not end in `/`. It is empty when the base name has no `.` |
| Pattern.ToPrefixCut | vendor/Docx/Web/Router.php:83-88 | The prefix is the path cut at the first `.` of its base name, slash-trimmed and lower-cased |
| Pattern.ChildPrefixOfFile | vendor/Docx/Web/Router.php:153-155 | A file listed directly in the exposed directory gets `/` + its lower-cased name up to the first `.`, or "" when the name starts with `.` |
| Pattern.ChildPrefix | vendor/Docx/Web/Router.php:153-155 | The recorded prefix does not end in `/` |
| KeyOrder.LessTotal | vendor/Docx/Web/Router.php:181 | Any two distinct keys are ordered one way or the other |
| KeyOrder.LessTransitive | vendor/Docx/Web/Router.php:181 | The key order is transitive |
| KeyOrder.PrefixIsLess | vendor/Docx/Web/Router.php:181 | A proper prefix sorts before the longer key |
| KeyOrder.Greatest | vendor/Docx/Web/Router.php:181-189 | A non-empty key set has a greatest key |
| KeyOrder.MaxKey | vendor/Docx/Web/Router.php:181 | Finds the greatest key of a non-empty set |
| KeyOrder.SortDescending | vendor/Docx/Web/Router.php:181 | `krsort`: every key exactly once, in strictly descending order |
| KeyOrder.FirstIsGreatest | vendor/Docx/Web/Router.php:183-188 | In descending order, the first key that fits is the greatest key that fits |
| KeyOrder.NoneInDescending | vendor/Docx/Web/Router.php:183-189 | When no key of the descending list fits, no key fits |
| Routing.Entries | vendor/Docx/Web/Router.php:154-156 | One pair per listed file, in list order: the file and its prefix `ChildPrefix(directory, file)`, which never ends in `/` |
| Routing.ExposedKeys | vendor/Docx/Web/Router.php:154-157 | After `expose`, a prefix is present exactly when it was before or some listed file yields it |
| Routing.ExposeLastWins | vendor/Docx/Web/Router.php:154-157 | The last listed file with a given prefix is the one stored under it |
| Routing.ExposeKeepsOthers | vendor/Docx/Web/Router.php:154-157 | A prefix that no listed file yields keeps its old file |
| Routing.ExposedWellFormed | vendor/Docx/Web/Router.php:147-161 | `expose` keeps every child prefix free of a trailing `/` |
| Routing.RouteRegistered | vendor/Docx/Web/Router.php:124-135 | A route stores a non-empty handler list under the compiled rule, replacing any list there. It leaves the other rules, the children, the file name and the prefix alone |
| Routing.ReplayWellFormed | vendor/Docx/Web/Router.php:62-64 | Running a route file's registrations keeps the router well formed and keeps its file name and prefix |
| Routing.Load | vendor/Docx/Web/Router.php:56-65 | A new router has the normalised file name and the slash-trimmed prefix. A truthy, known, not-yet-included file is included now and its registrations are replayed on the new router; any other file leaves the included set as it was and gives a router without routes |
| Routing.IncludedOnce | vendor/Docx/Web/Router.php:63 | A second router built from a file that is already included gets no routes, and nothing more is included |
| Routing.LoadShrinks | vendor/Docx/Web/Router.php:56-65 | Building a child either includes a new file or yields a router without children, so dispatch terminates |
| Routing.NormalisePath | vendor/Docx/Web/Router.php:178 | The path is lower-case and ends in exactly one `/` |
| Routing.NormaliseIdempotent | vendor/Docx/Web/Router.php:178 | Normalising a normalised path changes nothing |
| Routing.ResidualNormal | vendor/Docx/Web/Router.php:186-187 | The rest of a normalised path after a child prefix is normalised again |
| Routing.SelectChild | vendor/Docx/Web/Router.php:180-189 | The committed child is the greatest prefix that starts the path. With no such prefix, none of the children starts it |
| Routing.LongestPrefixWins | vendor/Docx/Web/Router.php:181-188 | Every prefix that starts the path is itself a prefix of the committed one |
| Routing.ItemResult | vendor/Docx/Web/Router.php:191-208 | The reported rule matches, is greater than every other matching rule, and carries that rule's handlers, the path, the arguments built from that rule's groups and the URI `prefix + whole match`. With no match, no rule matches |
| Routing.LiteralAnchored | vendor/Docx/Web/Router.php:111 | The literal matcher reports the whole subject as its first group |
| Routing.ChildCommits | vendor/Docx/Web/Router.php:183-188 | Once a child prefix starts the path, the router's own rules play no part in the result |
| Routing.ResolveChild | vendor/Docx/Web/Router.php:184-187 | The result is the selected child's dispatch of the rest of the path, whatever it is |
| Routing.ResolveItems | vendor/Docx/Web/Router.php:190-208 | Without a fitting child prefix, the result is the rule phase on the router itself |
| Routing.ResolveRoundTrip | vendor/Docx/Web/Router.php:178-202 | On a match, the committed child prefixes followed by the path the matching router saw spell the normalised request path |
| Routing.ItemUri | vendor/Docx/Web/Router.php:197 | With an anchored matcher, the item phase reports the router's prefix followed by the path |
| Routing.ResolveUri | vendor/Docx/Web/Router.php:197 | With an anchored matcher, the reported `uri` is the matching router's own prefix followed by the path it saw |
| Web.Runtime.constructor | vendor/Docx/Web/Router.php:44 | A program run starts with no current router and nothing included |
| Web.Runtime.GetCurrent | vendor/Docx/Web/Router.php:67-70 | Returns the current router if there is one. Otherwise it returns a new root router, which becomes current. Either way the result is the current router afterwards |
| Web.Router.constructor | vendor/Docx/Web/Router.php:56-65 | The new router becomes current and its state equals `Load`. Its file's registrations are made on the router through `getCurrent` |
| Web.Router.Route | vendor/Docx/Web/Router.php:124-135 | Returns the compiled rule and stores the handler list under it. Nothing else changes |
| Web.Router.Expose | vendor/Docx/Web/Router.php:147-161 | Returns the router itself. The children become the listed pairs stored in order over the old children; the items do not change |
| Web.Router.FindChild | vendor/Docx/Web/Router.php:180-189 | The descending walk over the child prefixes finds exactly the child `SelectChild` names |
| Web.Router.FindItem | vendor/Docx/Web/Router.php:191-208 | The descending walk over the rules finds exactly `ItemResult` |
| Web.Router.Dispatch | vendor/Docx/Web/Router.php:176-209 | The result and the included files are what `Resolve` says. The current router is the last child built, with the prefix of the last committed child |
| Web.Router.DispatchChild | vendor/Docx/Web/Router.php:183-188 | Building the selected child and dispatching the rest of the path there gives what `Resolve` says |
| PhpArray.Find | library/DocX/App.php:134 | A key is found exactly when it is one of the array's keys |
| PhpArray.PutFind | library/DocX/App.php:117-119 | Assigning a key sets that key and leaves every other key as it was |
| PhpArray.PutKeys | library/DocX/App.php:117-119 | Assigning an existing key keeps the key order; a new key is appended |
| PhpArray.MergeFind | library/DocX/App.php:121 | `array_merge` with string keys: a key of the second array takes its value from there, any other key keeps the first array's value |
| DocX.GetOption | library/DocX/App.php:87-96 | The environment wins. Otherwise the option is returned, a null option counting as unset; an unset key gives null |
| DocX.AllOptions | library/DocX/App.php:89-90 | The merged options hold every option and every environment key, with the environment winning |
| DocX.GetOptionMerged | library/DocX/App.php:87-96 | Looking one key up agrees with looking it up in the merged options |
| DocX.NormaliseUrl | library/DocX/App.php:141-152 | Edit mode is on exactly for `/admin` and `/admin/...`. `/admin` itself becomes the home page `/index` in edit mode; `/admin/...` loses the `/admin`. "", "0", "/" and `/index` become the home page, outside edit mode. Any other URL is kept |
| DocX.NotAdminLookalike | library/DocX/App.php:148 | A URL such as `/adminx` is not an admin URL and is kept |
| DocX.NormaliseUrlIdempotent | library/DocX/App.php:141-152 | Rewriting a URL that came out of edit mode off changes nothing more |
| DocX.AdminRequest | library/DocX/App.php:148-151 | A URL `/...` prefixed with `/admin` is served in edit mode without the prefix |
| DocX.PlainRequest | library/DocX/App.php:141-152 | A URL `/x...` that does not start with `/admin` is kept, with edit mode off |
| DocX.PageUrlRequest | library/DocX/App.php:141-152 | A page's stored URL, prefixed with `/admin`, is served in edit mode. Unprefixed, it is served as it is, unless it starts with `/admin` |
| DocX.HomeKey | library/DocX/App.php:128-132 | The home page URL is looked up under directory `.`, file `index` |
| DocX.AdminUrlSplit | library/DocX/App.php:119 | The only listed page whose URL is `/admin` is the root file `admin` |
| DocX.KeyOfListedUrl | library/DocX/App.php:131-132 | The directory and file key of a listed page's URL are the page's own |
| DocX.MetaKeyOfUrl | library/DocX/App.php:119-132 | Round trip: the URL `updateMetas` stores for a page is looked up by `getMetadata` under the page's own keys. The one exception is the root file `admin`, which is read as the home page |
| DocX.PutEntryEntry | library/DocX/App.php:117 | Writing through the reference sets that entry, creating it if missing, and leaves every other entry as it was |
| DocX.UpdateEntryKeys | library/DocX/App.php:118-121 | After the update, `slug` is the file key and `url` the built URL, unless the document's own metadata sets them |
| DocX.UpdateOneEntry | library/DocX/App.php:117-121 | One update sets its own entry and leaves all others alone |
| DocX.UpdateFilesEntry | library/DocX/App.php:116-122 | The inner loop sets every file it lists to `UpdateEntry` of some earlier entry (its slug, URL and parsed metadata) and leaves all other entries alone |
| DocX.UpdateAllEntry | library/DocX/App.php:113-124 | `updateMetas` sets exactly the entries its diffs name, each to `UpdateEntry` of some earlier entry, and leaves every other entry as it was |
| DocX.BuildEntry | library/DocX/App.php:102-108 | The built directory holds the listing's entries; every added or modified entry is set to `UpdateEntry` of some earlier entry |
| DocX.FirstNonHomeAt | library/DocX/App.php:190-195 | The first entry whose slug is not `home` is the one picked |
| DocX.FirstNonHomeNone | library/DocX/App.php:190-197 | When every entry is home, nothing is returned |
| DocX.FirstNonHomeSkip | library/DocX/App.php:190-195 | Entries that are all home are passed over |
| DocX.FirstNonHomeFound | library/DocX/App.php:189-196 | The entry where the nested loop returns is the one `FirstNonHome` picks over all directories in order |
| DocX.FlattenPrefix | library/DocX/App.php:190 | The entries of the first directories start the entries of all directories |
| DocX.App.constructor | library/DocX/App.php:22-23 | A new application has no documents directory and an empty `toppest_url` |
| DocX.App.UpdateMetas | library/DocX/App.php:113-124 | The nested loops leave the directory equal to `UpdateAll` of the old one |
| DocX.App.GetDocsDir | library/DocX/App.php:98-111 | The first call builds a fresh directory equal to `Build`. Later calls return the same object unchanged |
| DocX.App.GetMetadata | library/DocX/App.php:126-137 | Returns the entry under the URL's directory and file keys, or nothing |
| DocX.App.Dispatch | library/DocX/App.php:139-159 | Returns the metadata found for the rewritten URL with its edit mode, or nothing where the program stops |
| DocX.App.GetToppestPage | library/DocX/App.php:184-197 | Returns a non-empty `toppest_url`. Otherwise it returns the URL of the first entry in directory order whose slug is not `home`, or null |
| DocX.App.FirstNonHomeIn | library/DocX/App.php:189-196 | The nested loop with its early return computes `FirstNonHome` over all entries |

## Left out

Router:
- The `glob` directory scan: the listed file names are a parameter of `expose`, and the wildcard argument is not modelled.
- `include_once` running PHP: each route file is a list of registrations (`route` or `expose` calls), looked up by file name.
  - `is_readable` is membership in that lookup.
  - The set of included files stands in for `include_once`'s memory.
- The PCRE engine behind `preg_match`.
  - Rules are matched by an abstract matcher, assumed anchored where a lemma needs it.
  - Alias-free rules also have the concrete literal matcher.
  - PCRE's `$` also matching before a final newline is not modelled.
- `DIRECTORY_SEPARATOR` is `/`, so the separator replacement in `toPrefix` is the identity. The constructor replaces each `//` with `/` in one left-to-right pass (so `///` becomes `//`) and turns `\` into `/`.
- Byte strings: PHP strings are bytes, and the model's strings are sequences of code points. `strtolower` folds ASCII letters only in both. On valid UTF-8 no result changes, because byte order and code-point order agree.
- `krsort`'s numeric comparison of numeric-string keys: keys are compared as plain strings.
- The `$is_sorted` argument of `dispatch`: the maps are always walked in descending order.
- `Common::startsWith` (vendor/Docx/Web/Router.php:184) and the global `starts_with` (library/DocX/App.php:148) are not part of this model; both are taken to be a plain prefix test.
- `Routing.ItemResult`, `Routing.ItemUri`: they are not proved for PCRE itself. The full-match property of `^...$` rules is a hypothesis (`Routing.Anchored`), proved only for the literal matcher.
- `Pattern.CompileUrl`: its meaning as one simultaneous substitution is proved only for alias tables whose keys are `<letters>` tokens and whose fragments contain no `<` (the router's own table is one). For other tables only the definition itself stands.
- The static `$aliases` table is public and could be changed at run time, so it is a parameter (`Runtime.aliases`). `Alias.Aliases` is its initial value.
- Handlers are opaque names, never called.

Application:
- The constructor's `array_merge` with the default options, `getRealPath` (`realpath`, `mkdir`) and `DOCX_Linkage`. `App` receives the merged options and the environment as values.
- `DOCX_Directory`:
  - the scan, the cache file and `setSorting` (`blog_sorting`);
  - its listing and the added and modified files are given to `GetDocsDir` as a `Source` value.
- `DOCX_Markdoc::getMetaData` is the `parse` function of `Source`.
- `DOCX_View`, `die`, `run`, `gotoStaticIfCould`, `genPages` and `genPDF`: `App.Dispatch` returns the page and its edit mode, or nothing where the program stops.
- `DOCX_Linkage::getCurrURL` is the `currUrl` parameter of `App.Dispatch`.
- PHP arrays are ordered lists with string keys. Integer keys are not modelled, nor is `array_merge` renumbering them.
- `DocX.AllOptions` is a map, so it does not keep the key order of `getOption(false)`.
- Option values are a small PHP value type; metadata values other than `slug`, `url` and `fname` are carried but never inspected.
- `isset` on a metadata entry that holds `null` cannot happen in the model, because entries are always arrays.
