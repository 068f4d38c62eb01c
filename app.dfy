/**
 * The DocX application object: option lookup, the rewriting of the request
 * URL, the `(directory, file)` key of a page's metadata, and the documents
 * directory that is built once and whose metadata entries are completed in
 * place. The directory scan, its cache and the Markdown parser are not
 * modelled; what they deliver is a `Source` value handed in by the caller.
 */
module DocX {
  import opened Wrappers
  import opened Php
  import opened PhpArray

  /** `DOCX_App::HOME_PAGE_URL`. */
  const HomePageUrl := "/index"
  /** `DOCX_App::ADMIN_URLPRE`. */
  const AdminUrlPrefix := "/admin"

  /** A PHP value as the options and the page metadata hold it. */
  datatype Value = Null | Bool(b: bool) | Int(n: int) | Str(s: string) | Arr(entries: seq<(string, Value)>)

  /** One page's metadata array (`slug`, `url`, `fname`, the document's own keys, ...). */
  type Metadata = Array<Value>

  /** `DOCX_Directory::$files`: directory key => (file key => metadata), in listing order. */
  type Files = Array<Array<Metadata>>

  /** A list of changed files: directory key => file keys. */
  type Diffs = Array<seq<string>>

  /**
   * What the outside world delivers when the documents directory is built:
   * the listing, the added and the modified files its cache reports, and
   * the metadata the Markdown parser reads from a file name.
   */
  datatype Source = Source(listing: Files, added: Diffs, modified: Diffs, parse: Value -> Metadata)

  /** `DOCX_App::isHome($slug)`: strictly the string `home`. */
  predicate IsHome(slug: Value) {
    slug == Str("home")
  }

  // ----- getOption -----

  /**
   * `getOption($key)`: the environment first, then the options; a null
   * option counts as unset, and an unset key gives null. Environment values
   * are strings.
   */
  function GetOption(options: map<string, Value>, env: map<string, string>, key: string): (r: Value)
    ensures key in env ==> r == Str(env[key])
    ensures key !in env && key in options ==> r == options[key]
    ensures key !in env && key !in options ==> r == Null
  {
    if key in env then Str(env[key])
    else if key in options && options[key] != Null then options[key]
    else Null
  }

  /** `getOption(false)`: the options merged with the environment, the environment winning. */
  function AllOptions(options: map<string, Value>, env: map<string, string>): (r: map<string, Value>)
    ensures r.Keys == options.Keys + env.Keys
    ensures forall k :: k in env ==> r[k] == Str(env[k])
    ensures forall k :: k in options && k !in env ==> r[k] == options[k]
  {
    options + map k | k in env :: Str(env[k])
  }

  /** Looking up one key agrees with looking it up in the merged options. */
  lemma GetOptionMerged(options: map<string, Value>, env: map<string, string>, key: string)
    ensures GetOption(options, env, key) == if key in AllOptions(options, env) then AllOptions(options, env)[key] else Null
  {
  }

  // ----- the request URL -----

  /** The page URL `dispatch` looks up and whether it is shown for editing. */
  datatype Request = Request(url: string, editMode: bool)

  /**
   * The URL rewriting at the start of `dispatch`: an empty URL (PHP
   * `empty`, so also `"0"`), `/` and the home page URL go to the home page;
   * `/admin` goes to the home page in edit mode; `/admin/...` drops the
   * `/admin` in edit mode; anything else is kept.
   */
  function NormaliseUrl(u: string): (r: Request)
    ensures r.editMode <==> (u == AdminUrlPrefix || StartsWith(u, AdminUrlPrefix + "/"))
    ensures !r.editMode && r.url != u ==> r.url == HomePageUrl && (u == "" || u == "0" || u == "/")
    ensures !Truthy(u) || u == "/" || u == HomePageUrl ==> r == Request(HomePageUrl, false)
    ensures u == AdminUrlPrefix ==> r == Request(HomePageUrl, true)
    ensures r.editMode ==> (u == AdminUrlPrefix && r.url == HomePageUrl) || AdminUrlPrefix + r.url == u
  {
    if !Truthy(u) || u == "/" || u == HomePageUrl then Request(HomePageUrl, false)
    else if u == AdminUrlPrefix then Request(HomePageUrl, true)
    else if StartsWith(u, AdminUrlPrefix + "/") then Request(SubstrFrom(u, |AdminUrlPrefix|), true)
    else Request(u, false)
  }

  /** A URL that only looks like the admin prefix, such as `/adminx`, is not rewritten. */
  lemma NotAdminLookalike(rest: string)
    requires rest != [] && rest[0] != '/'
    ensures NormaliseUrl(AdminUrlPrefix + rest) == Request(AdminUrlPrefix + rest, false)
  {
    var u := AdminUrlPrefix + rest;
    assert u[6] == rest[0];
    assert !StartsWith(u, AdminUrlPrefix + "/");
    assert |u| > |HomePageUrl|;
  }

  /** Rewriting again changes nothing once the result is not in edit mode. */
  lemma NormaliseUrlIdempotent(u: string)
    requires !NormaliseUrl(u).editMode
    ensures NormaliseUrl(NormaliseUrl(u).url) == NormaliseUrl(u)
  {
    var r := NormaliseUrl(u);
    if r.url == HomePageUrl {
      assert !StartsWith(HomePageUrl, AdminUrlPrefix + "/") by {
        assert HomePageUrl[1] != (AdminUrlPrefix + "/")[1];
      }
    }
  }

  // ----- metadata keys -----

  /**
   * The key `getMetadata` looks a URL up under: `/admin` is read as the
   * home page; the directory key is `.` followed by the slash-trimmed
   * `dirname`, the file key is the `basename`.
   */
  function MetaKey(findUrl: string): (string, string) {
    var u := if findUrl == AdminUrlPrefix then HomePageUrl else findUrl;
    ("." + RTrim(Dirname(u), '/'), Basename(u))
  }

  /** The URL `updateMetas` stores for a file: the directory key without its leading dots, `/`, the file key. */
  function UrlOf(dir: string, file: string): string {
    LTrim(dir, '.') + "/" + file
  }

  /** A directory key as the listing writes it: `.`, or `./` and segments, without a trailing `/`. */
  ghost predicate IsDirKey(dir: string) {
    |dir| >= 1 && dir[0] == '.' && (|dir| == 1 || (dir[1] == '/' && dir[|dir| - 1] != '/'))
  }

  /** A file key names one file: not empty, no `/`. */
  ghost predicate IsFileKey(file: string) {
    file != [] && '/' !in file
  }

  /** The URL of a listed file, relative part first. */
  lemma UrlOfShape(dir: string, file: string)
    requires IsDirKey(dir)
    ensures UrlOf(dir, file) == dir[1..] + "/" + file
  {
    var rest := dir[1..];
    assert rest == [] || rest[0] == '/';
    assert LTrim(rest, '.') == rest;
  }

  /** `dirname` of a URL `rest/file` is `rest`, or `/` when `rest` is empty. */
  lemma DirnameOfUrl(rest: string, file: string)
    requires rest == [] || (rest[0] == '/' && rest[|rest| - 1] != '/')
    requires IsFileKey(file)
    ensures Dirname(rest + "/" + file) == if rest == [] then "/" else rest
  {
    var d := rest + "/";
    var u := d + file;
    assert u == rest + "/" + file;
    assert u[|u| - 1] == file[|file| - 1];
    assert file[|file| - 1] in file;
    assert RTrim(u, '/') == u;
    LastSlash(d, file);
    assert u[..|rest|] == rest;
    if rest == [] {
      assert RTrim(u[..0], '/') == [];
    } else {
      assert RTrim(rest, '/') == rest;
    }
  }

  /** The home page URL is looked up under the root directory, file `index`. */
  lemma HomeKey()
    ensures MetaKey(HomePageUrl) == (".", "index")
  {
    var u: string := [] + "/" + "index";
    assert u == HomePageUrl;
    assert HomePageUrl != AdminUrlPrefix;
    DirnameOfUrl([], "index");
    assert Dirname(HomePageUrl) == "/";
    assert RTrim("/", '/') == [];
    BasenameOf("/", "index");
    assert Basename(HomePageUrl) == "index";
    assert "." + RTrim(Dirname(HomePageUrl), '/') == ".";
  }

  /** The only listed file whose URL is `/admin` is the root file `admin`. */
  lemma AdminUrlSplit(rest: string, file: string)
    requires rest == [] || rest[0] == '/'
    requires IsFileKey(file) && rest + "/" + file == AdminUrlPrefix
    ensures rest == [] && file == "admin"
  {
    var u := rest + "/" + file;
    assert u[|rest|] == '/';
    assert u[1..] == "admin";
    assert u[1..] == file;
  }

  /** Any other listed URL is looked up under its own directory and file keys. */
  lemma KeyOfListedUrl(rest: string, file: string)
    requires rest == [] || (rest[0] == '/' && rest[|rest| - 1] != '/')
    requires IsFileKey(file) && rest + "/" + file != AdminUrlPrefix
    ensures MetaKey(rest + "/" + file) == ("." + rest, file)
  {
    DirnameOfUrl(rest, file);
    BasenameOf(rest + "/", file);
    if rest == [] {
      assert RTrim("/", '/') == [];
    } else {
      assert RTrim(rest, '/') == rest;
    }
  }

  /**
   * Round trip: the URL `updateMetas` stores for a listed file is looked up
   * by `getMetadata` under the same directory and file keys, except the one
   * URL `/admin`, which is read as the home page.
   */
  lemma MetaKeyOfUrl(dir: string, file: string)
    requires IsDirKey(dir) && IsFileKey(file)
    ensures MetaKey(UrlOf(dir, file))
      == if dir == "." && file == "admin" then (".", "index") else (dir, file)
  {
    var rest := dir[1..];
    UrlOfShape(dir, file);
    assert dir == "." + rest;
    if rest + "/" + file == AdminUrlPrefix {
      AdminUrlSplit(rest, file);
      HomeKey();
    } else {
      KeyOfListedUrl(rest, file);
    }
  }

  /** A URL of the form `/...` prefixed with `/admin` is served in edit mode without the prefix. */
  lemma AdminRequest(url: string)
    requires url != [] && url[0] == '/'
    ensures NormaliseUrl(AdminUrlPrefix + url) == Request(url, true)
  {
    var a := AdminUrlPrefix + url;
    assert a[..|AdminUrlPrefix + "/"|] == AdminUrlPrefix + "/";
    assert |a| > |HomePageUrl|;
    assert a[|AdminUrlPrefix|..] == url;
  }

  /** A URL of the form `/x...` that does not start with `/admin` is served as it is. */
  lemma PlainRequest(url: string)
    requires |url| >= 2 && url[0] == '/' && !StartsWith(url, AdminUrlPrefix)
    ensures NormaliseUrl(url) == Request(url, false)
  {
    assert !StartsWith(url, AdminUrlPrefix + "/");
  }

  /**
   * The URL stored for a listed page is served as it is, and prefixed with
   * `/admin` it is served in edit mode, unless it itself starts with `/admin`.
   */
  lemma PageUrlRequest(dir: string, file: string)
    requires IsDirKey(dir) && IsFileKey(file)
    ensures var url := UrlOf(dir, file);
      && NormaliseUrl(AdminUrlPrefix + url) == Request(url, true)
      && (!StartsWith(url, AdminUrlPrefix) ==> NormaliseUrl(url) == Request(url, false))
  {
    var url := UrlOf(dir, file);
    UrlOfShape(dir, file);
    var rest := dir[1..];
    assert url == rest + "/" + file;
    assert url[0] == '/' && |url| >= 2;
    AdminRequest(url);
    if !StartsWith(url, AdminUrlPrefix) {
      PlainRequest(url);
    }
  }

  // ----- the documents directory -----

  /** `$files[$dir][$file]`, if both keys are set. */
  function Entry(files: Files, dir: string, file: string): Option<Metadata> {
    match Find(files, dir)
    case Some(fs) => Find(fs, file)
    case None => None
  }

  /**
   * `$files[$dir][$file] = $m`: the directory entry is created when missing
   * and the file entry is replaced in place or appended.
   */
  function PutEntry(files: Files, dir: string, file: string, m: Metadata): Files {
    Put(files, dir, Put(FindOr(files, dir, []), file, m))
  }

  /** Storing an entry sets that entry and leaves every other entry as it was. */
  lemma PutEntryEntry(files: Files, dir: string, file: string, m: Metadata, d: string, f: string)
    ensures Entry(PutEntry(files, dir, file, m), d, f)
      == if d == dir && f == file then Some(m) else Entry(files, d, f)
  {
    var fs := FindOr(files, dir, []);
    PutFind(files, dir, Put(fs, file, m), d);
    if d == dir {
      PutFind(fs, file, m, f);
    }
  }

  /**
   * One step of `updateMetas` on an entry (a missing entry starts as an
   * empty array): `slug` is the file key, `url` the URL built from the keys,
   * then the parser's metadata for the entry's `fname` is merged over it.
   */
  function UpdateEntry(m: Metadata, dir: string, file: string, parse: Value -> Metadata): Metadata {
    var base := Put(Put(m, "slug", Str(file)), "url", Str(UrlOf(dir, file)));
    Merge(base, parse(FindOr(base, "fname", Null)))
  }

  /**
   * The slug and the URL of an updated entry are the file key and the built
   * URL, unless the document's own metadata sets them.
   */
  lemma UpdateEntryKeys(m: Metadata, dir: string, file: string, parse: Value -> Metadata)
    requires var base := Put(Put(m, "slug", Str(file)), "url", Str(UrlOf(dir, file)));
      Distinct(parse(FindOr(base, "fname", Null)))
    ensures var base := Put(Put(m, "slug", Str(file)), "url", Str(UrlOf(dir, file)));
      var doc := parse(FindOr(base, "fname", Null));
      var r := UpdateEntry(m, dir, file, parse);
      && Find(r, "slug") == (if "slug" in Keys(doc) then Find(doc, "slug") else Some(Str(file)))
      && Find(r, "url") == (if "url" in Keys(doc) then Find(doc, "url") else Some(Str(UrlOf(dir, file))))
  {
    var m1 := Put(m, "slug", Str(file));
    var base := Put(m1, "url", Str(UrlOf(dir, file)));
    var doc := parse(FindOr(base, "fname", Null));
    MergeFind(base, doc, "slug");
    MergeFind(base, doc, "url");
    PutFind(m1, "url", Str(UrlOf(dir, file)), "slug");
    PutFind(m1, "url", Str(UrlOf(dir, file)), "url");
    PutFind(m, "slug", Str(file), "slug");
  }

  /** The entry `$files[$dir][$file]` as a PHP reference sees it: an empty array when missing. */
  function Current(files: Files, dir: string, file: string): Metadata {
    match Entry(files, dir, file)
    case Some(m) => m
    case None => []
  }

  /** The body of the inner loop of `updateMetas`: update one entry through a reference to it. */
  function UpdateOne(files: Files, dir: string, file: string, parse: Value -> Metadata): Files {
    PutEntry(files, dir, file, UpdateEntry(Current(files, dir, file), dir, file, parse))
  }

  /** The inner loop of `updateMetas`: the files of one directory, in order. */
  function UpdateFiles(files: Files, dir: string, names: seq<string>, parse: Value -> Metadata): Files
    decreases |names|
  {
    if names == [] then files
    else UpdateOne(UpdateFiles(files, dir, names[..|names| - 1], parse), dir, names[|names| - 1], parse)
  }

  lemma UpdateFilesSnoc(files: Files, dir: string, names: seq<string>, j: nat, parse: Value -> Metadata)
    requires j < |names|
    ensures UpdateFiles(files, dir, names[..j + 1], parse)
      == UpdateOne(UpdateFiles(files, dir, names[..j], parse), dir, names[j], parse)
  {
    assert names[..j + 1][..j] == names[..j];
  }

  /** `updateMetas($diffs)`: every listed directory in order, each with its files in order. */
  function UpdateAll(files: Files, diffs: Diffs, parse: Value -> Metadata): Files
    decreases |diffs|
  {
    if diffs == [] then files
    else UpdateFiles(UpdateAll(files, diffs[..|diffs| - 1], parse), diffs[|diffs| - 1].0, diffs[|diffs| - 1].1, parse)
  }

  lemma UpdateAllSnoc(files: Files, diffs: Diffs, i: nat, parse: Value -> Metadata)
    requires i < |diffs|
    ensures UpdateAll(files, diffs[..i + 1], parse)
      == UpdateFiles(UpdateAll(files, diffs[..i], parse), diffs[i].0, diffs[i].1, parse)
  {
    assert diffs[..i + 1][..i] == diffs[..i];
  }

  /** The diffs name the entry `dir`, `file`. */
  ghost predicate Named(diffs: Diffs, dir: string, file: string) {
    exists i :: 0 <= i < |diffs| && diffs[i].0 == dir && file in diffs[i].1
  }

  /** Updating one entry sets it and leaves every other entry alone. */
  lemma UpdateOneEntry(files: Files, dir: string, file: string, parse: Value -> Metadata, d: string, f: string)
    ensures Entry(UpdateOne(files, dir, file, parse), d, f)
      == if d == dir && f == file then Some(UpdateEntry(Current(files, dir, file), dir, file, parse)) else Entry(files, d, f)
  {
    PutEntryEntry(files, dir, file, UpdateEntry(Current(files, dir, file), dir, file, parse), d, f);
  }

  lemma InLast(names: seq<string>, f: string)
    requires names != []
    ensures f in names <==> f in names[..|names| - 1] || f == names[|names| - 1]
  {
    assert names == names[..|names| - 1] + [names[|names| - 1]];
  }

  /** The inner loop sets every named file of its directory and leaves all other entries alone. */
  lemma {:induction false} UpdateFilesEntry(files: Files, dir: string, names: seq<string>,
                                            parse: Value -> Metadata, d: string, f: string)
    ensures !(d == dir && f in names) ==> Entry(UpdateFiles(files, dir, names, parse), d, f) == Entry(files, d, f)
    ensures d == dir && f in names ==>
      exists m :: Entry(UpdateFiles(files, dir, names, parse), d, f) == Some(UpdateEntry(m, d, f, parse))
    decreases |names|
  {
    if names != [] {
      var init := names[..|names| - 1];
      var file := names[|names| - 1];
      var prev := UpdateFiles(files, dir, init, parse);
      assert UpdateFiles(files, dir, names, parse) == UpdateOne(prev, dir, file, parse);
      UpdateFilesEntry(files, dir, init, parse, d, f);
      UpdateOneEntry(prev, dir, file, parse, d, f);
      InLast(names, f);
      if d == dir && f == file {
        var m := Current(prev, dir, file);
        assert Entry(UpdateFiles(files, dir, names, parse), d, f) == Some(UpdateEntry(m, d, f, parse));
      }
    }
  }

  /**
   * `updateMetas` touches exactly the entries its diffs name: each of them
   * is set (created if missing), every other entry is left as it was.
   */
  lemma {:induction false} UpdateAllEntry(files: Files, diffs: Diffs, parse: Value -> Metadata, d: string, f: string)
    ensures !Named(diffs, d, f) ==> Entry(UpdateAll(files, diffs, parse), d, f) == Entry(files, d, f)
    ensures Named(diffs, d, f) ==>
      exists m :: Entry(UpdateAll(files, diffs, parse), d, f) == Some(UpdateEntry(m, d, f, parse))
    decreases |diffs|
  {
    if diffs != [] {
      var init := diffs[..|diffs| - 1];
      var last := diffs[|diffs| - 1];
      var prev := UpdateAll(files, init, parse);
      UpdateAllEntry(files, init, parse, d, f);
      UpdateFilesEntry(prev, last.0, last.1, parse, d, f);
      NamedLast(diffs, d, f);
      if Named(init, d, f) && !(d == last.0 && f in last.1) {
        var m :| Entry(prev, d, f) == Some(UpdateEntry(m, d, f, parse));
        assert Entry(UpdateAll(files, diffs, parse), d, f) == Some(UpdateEntry(m, d, f, parse));
      }
    }
  }

  lemma NamedLast(diffs: Diffs, d: string, f: string)
    requires diffs != []
    ensures Named(diffs, d, f)
      <==> Named(diffs[..|diffs| - 1], d, f) || (diffs[|diffs| - 1].0 == d && f in diffs[|diffs| - 1].1)
  {
    var init := diffs[..|diffs| - 1];
    if Named(diffs, d, f) && !(diffs[|diffs| - 1].0 == d && f in diffs[|diffs| - 1].1) {
      var i :| 0 <= i < |diffs| && diffs[i].0 == d && f in diffs[i].1;
      assert i < |diffs| - 1 && init[i] == diffs[i];
    }
    if Named(init, d, f) {
      var i :| 0 <= i < |init| && init[i].0 == d && f in init[i].1;
      assert diffs[i] == init[i];
    }
  }

  /** The directory `getDocsDir` builds: the listing with the added, then the modified files updated. */
  function Build(src: Source): Files {
    UpdateAll(UpdateAll(src.listing, src.added, src.parse), src.modified, src.parse)
  }

  /**
   * The directory `getDocsDir` builds holds the listing's entries, with
   * every entry the cache reports as added or modified set.
   */
  lemma BuildEntry(src: Source, d: string, f: string)
    ensures Named(src.added, d, f) || Named(src.modified, d, f) ==>
      exists m :: Entry(Build(src), d, f) == Some(UpdateEntry(m, d, f, src.parse))
    ensures !Named(src.added, d, f) && !Named(src.modified, d, f) ==> Entry(Build(src), d, f) == Entry(src.listing, d, f)
  {
    UpdateAllEntry(src.listing, src.added, src.parse, d, f);
    UpdateAllEntry(UpdateAll(src.listing, src.added, src.parse), src.modified, src.parse, d, f);
  }

  /** All entries of the directory, directory by directory, each in listing order. */
  function Flatten(files: Files): (r: seq<Metadata>)
    decreases |files|
  {
    if files == [] then []
    else Flatten(files[..|files| - 1]) + Values(files[|files| - 1].1)
  }

  function Values(fs: Array<Metadata>): (r: seq<Metadata>)
    ensures |r| == |fs|
    ensures forall i :: 0 <= i < |fs| ==> r[i] == fs[i].1
  {
    seq(|fs|, i requires 0 <= i < |fs| => fs[i].1)
  }

  function Slug(m: Metadata): Value {
    FindOr(m, "slug", Null)
  }

  function Url(m: Metadata): Value {
    FindOr(m, "url", Null)
  }

  /** No entry of the list is a page other than home. */
  ghost predicate AllHome(entries: seq<Metadata>) {
    forall k :: 0 <= k < |entries| ==> IsHome(Slug(entries[k]))
  }

  /** The URL of the first entry whose slug is not `home`; null if every entry is home. */
  function FirstNonHome(entries: seq<Metadata>): Value
    decreases |entries|
  {
    if entries == [] then Null
    else if !IsHome(Slug(entries[0])) then Url(entries[0])
    else FirstNonHome(entries[1..])
  }

  /** `FirstNonHome` picks the entry at the first position whose slug is not `home`. */
  lemma {:induction false} FirstNonHomeAt(entries: seq<Metadata>, i: nat)
    requires i < |entries| && !IsHome(Slug(entries[i]))
    requires forall j :: 0 <= j < i ==> IsHome(Slug(entries[j]))
    ensures FirstNonHome(entries) == Url(entries[i])
    decreases i
  {
    if i > 0 {
      assert forall j :: 0 <= j < i - 1 ==> entries[1..][j] == entries[j + 1];
      FirstNonHomeAt(entries[1..], i - 1);
    }
  }

  /** With every entry home there is no page to pick. */
  lemma {:induction false} FirstNonHomeNone(entries: seq<Metadata>)
    requires AllHome(entries)
    ensures FirstNonHome(entries) == Null
    decreases |entries|
  {
    if entries != [] {
      AllHomeTail(entries);
      FirstNonHomeNone(entries[1..]);
    }
  }

  lemma AllHomeTail(entries: seq<Metadata>)
    requires entries != [] && AllHome(entries)
    ensures IsHome(Slug(entries[0])) && AllHome(entries[1..])
  {
    forall k | 0 <= k < |entries| - 1
      ensures IsHome(Slug(entries[1..][k]))
    {
      assert entries[1..][k] == entries[k + 1];
    }
  }

  /** An object holding `DOCX_Directory::$files`, whose entries `updateMetas` rewrites in place. */
  class Directory {
    var files: Files

    constructor (files: Files)
      ensures this.files == files
    {
      this.files := files;
    }
  }

  /**
   * `DOCX_App` with its options already merged in by the constructor, the
   * environment, the lazily built documents directory, and `toppest_url`,
   * which nothing ever assigns.
   */
  class App {
    const options: map<string, Value>
    const env: map<string, string>
    var docsDir: Directory?
    var toppestUrl: string

    constructor (options: map<string, Value>, env: map<string, string>)
      ensures this.options == options && this.env == env
      ensures docsDir == null && toppestUrl == ""
    {
      this.options := options;
      this.env := env;
      docsDir := null;
      toppestUrl := "";
    }

    /**
     * `updateMetas($diffs)`: for each listed directory and each of its
     * files, in order, complete the entry through a reference to it.
     */
    method UpdateMetas(diffs: Diffs, parse: Value -> Metadata)
      requires docsDir != null
      modifies docsDir
      ensures docsDir.files == UpdateAll(old(docsDir.files), diffs, parse)
    {
      var d := docsDir;
      for i := 0 to |diffs|
        invariant d.files == UpdateAll(old(d.files), diffs[..i], parse)
      {
        var dir := diffs[i].0;
        var names := diffs[i].1;
        ghost var before := d.files;
        for j := 0 to |names|
          invariant d.files == UpdateFiles(before, dir, names[..j], parse)
        {
          var file := names[j];
          var metadata := Current(d.files, dir, file);
          metadata := Put(metadata, "slug", Str(file));
          metadata := Put(metadata, "url", Str(LTrim(dir, '.') + "/" + file));
          metadata := Merge(metadata, parse(FindOr(metadata, "fname", Null)));
          UpdateFilesSnoc(before, dir, names, j, parse);
          d.files := PutEntry(d.files, dir, file, metadata);
        }
        assert names[..|names|] == names;
        UpdateAllSnoc(old(d.files), diffs, i, parse);
      }
      assert diffs[..|diffs|] == diffs;
    }

    /**
     * `getDocsDir()`: the first call builds the directory from what the
     * outside world delivers and completes the metadata of the added and
     * the modified files; every later call returns that same object
     * untouched.
     */
    method GetDocsDir(src: Source) returns (d: Directory)
      modifies this
      ensures old(docsDir) != null ==> d == old(docsDir) && d.files == old(docsDir.files)
      ensures old(docsDir) == null ==> fresh(d) && d.files == Build(src)
      ensures docsDir == d && toppestUrl == old(toppestUrl)
    {
      if docsDir == null {
        d := new Directory(src.listing);
        docsDir := d;
        UpdateMetas(src.added, src.parse);
        UpdateMetas(src.modified, src.parse);
      } else {
        d := docsDir;
      }
    }

    /**
     * `getMetadata($find_url)`: the entry under the URL's directory and
     * file keys, or null when either key is missing.
     */
    method GetMetadata(findUrl: string, src: Source) returns (r: Option<Metadata>)
      modifies this
      ensures old(docsDir) != null ==> docsDir == old(docsDir) && docsDir.files == old(docsDir.files)
      ensures old(docsDir) == null ==> fresh(docsDir) && docsDir.files == Build(src)
      ensures docsDir != null && toppestUrl == old(toppestUrl)
      ensures r == Entry(docsDir.files, MetaKey(findUrl).0, MetaKey(findUrl).1)
    {
      var url := findUrl;
      if url == AdminUrlPrefix {
        url := HomePageUrl;
      }
      var dir := "." + RTrim(Dirname(url), '/');
      var file := Basename(url);
      var docs := GetDocsDir(src);
      r := Entry(docs.files, dir, file);
    }

    /**
     * `dispatch()` up to building the view: rewrite the current URL, look up
     * its metadata, and report the page with its edit mode, or nothing where
     * the program stops.
     */
    method Dispatch(currUrl: string, src: Source) returns (r: Option<(Metadata, bool)>)
      modifies this
      ensures old(docsDir) != null ==> docsDir == old(docsDir) && docsDir.files == old(docsDir.files)
      ensures old(docsDir) == null ==> fresh(docsDir) && docsDir.files == Build(src)
      ensures docsDir != null && toppestUrl == old(toppestUrl)
      ensures var req := NormaliseUrl(currUrl);
        var key := MetaKey(req.url);
        r == match Entry(docsDir.files, key.0, key.1)
          case Some(m) => Some((m, req.editMode))
          case None => None
    {
      var req := NormaliseUrl(currUrl);
      var metadata := GetMetadata(req.url, src);
      match metadata
      case Some(m) => r := Some((m, req.editMode));
      case None => r := None;
    }

    /**
     * `getToppestPage()`: `toppest_url` when it is not empty (it always is);
     * otherwise the URL of the first entry, in directory order, whose slug
     * is not `home`, or null.
     */
    method GetToppestPage(src: Source) returns (r: Value)
      modifies this
      ensures Truthy(old(toppestUrl)) ==> r == Str(old(toppestUrl)) && docsDir == old(docsDir)
      ensures !Truthy(old(toppestUrl)) ==> docsDir != null && r == FirstNonHome(Flatten(docsDir.files))
      ensures old(docsDir) != null ==> docsDir == old(docsDir) && docsDir.files == old(docsDir.files)
      ensures !Truthy(old(toppestUrl)) && old(docsDir) == null ==> fresh(docsDir) && docsDir.files == Build(src)
      ensures toppestUrl == old(toppestUrl)
    {
      if Truthy(toppestUrl) {
        return Str(toppestUrl);
      }
      var docs := GetDocsDir(src);
      r := FirstNonHomeIn(docs.files);
    }

    /** The nested loop of `getToppestPage`, returning at the first entry that is not home. */
    static method FirstNonHomeIn(files: Files) returns (r: Value)
      ensures r == FirstNonHome(Flatten(files))
    {
      for i := 0 to |files|
        invariant AllHome(Flatten(files[..i]))
      {
        var entries := files[i].1;
        for j := 0 to |entries|
          invariant forall k :: 0 <= k < j ==> IsHome(Slug(entries[k].1))
        {
          var metadata := entries[j].1;
          if !IsHome(Slug(metadata)) {
            FirstNonHomeFound(files, i, j);
            return Url(metadata);
          }
        }
        FlattenStep(files, i);
      }
      assert files[..|files|] == files;
      FirstNonHomeNone(Flatten(files));
      r := Null;
    }
  }

  /** One more directory adds its entries, in order, after those before it. */
  lemma FlattenStep(files: Files, i: nat)
    requires i < |files|
    ensures Flatten(files[..i + 1]) == Flatten(files[..i]) + Values(files[i].1)
  {
    assert files[..i + 1][..i] == files[..i];
  }

  /** Entries that are all home are skipped. */
  lemma {:induction false} FirstNonHomeSkip(a: seq<Metadata>, b: seq<Metadata>)
    requires AllHome(a)
    ensures FirstNonHome(a + b) == FirstNonHome(b)
    decreases |a|
  {
    if a != [] {
      AllHomeTail(a);
      var ab := a + b;
      assert ab[0] == a[0] && ab[1..] == a[1..] + b;
      assert FirstNonHome(ab) == FirstNonHome(ab[1..]);
      FirstNonHomeSkip(a[1..], b);
    } else {
      assert a + b == b;
    }
  }

  /**
   * When every entry of the directories before `i` and every entry of
   * directory `i` before `j` is home, and entry `j` is not, that entry is
   * the one `FirstNonHome` picks.
   */
  lemma FirstNonHomeFound(files: Files, i: nat, j: nat)
    requires i < |files| && j < |files[i].1|
    requires AllHome(Flatten(files[..i]))
    requires forall k :: 0 <= k < j ==> IsHome(Slug(files[i].1[k].1))
    requires !IsHome(Slug(files[i].1[j].1))
    ensures FirstNonHome(Flatten(files)) == Url(files[i].1[j].1)
  {
    var done := Flatten(files[..i]);
    var here := Values(files[i].1);
    var all := Flatten(files);
    FlattenStep(files, i);
    FlattenPrefix(files, i + 1);
    var tail := all[|done + here|..];
    PrefixSplit(all, done, here);
    FirstNonHomeSkip(done, here + tail);
    FirstNonHomeInDir(files[i].1, tail, j);
  }

  lemma PrefixSplit<T>(all: seq<T>, a: seq<T>, b: seq<T>)
    requires |a + b| <= |all| && a + b == all[..|a + b|]
    ensures all == a + (b + all[|a + b|..])
  {
    assert all == all[..|a + b|] + all[|a + b|..];
  }

  /** Within one directory, the first entry that is not home is picked, whatever follows. */
  lemma FirstNonHomeInDir(fs: Array<Metadata>, tail: seq<Metadata>, j: nat)
    requires j < |fs|
    requires forall k :: 0 <= k < j ==> IsHome(Slug(fs[k].1))
    requires !IsHome(Slug(fs[j].1))
    ensures FirstNonHome(Values(fs) + tail) == Url(fs[j].1)
  {
    var e := Values(fs) + tail;
    forall k | 0 <= k <= j
      ensures e[k] == fs[k].1
    {
    }
    FirstNonHomeAt(e, j);
  }

  /** The entries of a prefix of the directories start the entries of all of them. */
  lemma {:induction false} FlattenPrefix(files: Files, n: nat)
    requires n <= |files|
    ensures |Flatten(files[..n])| <= |Flatten(files)|
    ensures Flatten(files[..n]) == Flatten(files)[..|Flatten(files[..n])|]
    decreases |files| - n
  {
    if n < |files| {
      FlattenPrefix(files, n + 1);
      assert files[..n + 1][..n] == files[..n];
    } else {
      assert files[..n] == files;
    }
  }
}
