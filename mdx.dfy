/**
 * Runtime lookups over the generated manifest: resolving a request slug to a
 * document handle, asking whether a directory has an index document, listing
 * a directory's immediate documents, and building a directory tree from the
 * manifest's paths.
 */
module Mdx {
  import opened Wrappers
  import opened Text
  import opened ManifestGen

  /** `normalizeSlug`: `slugPath.replace(/\/$/, "")`. */
  function NormalizeSlug(slugPath: string): (s: string)
    ensures slugPath == s || slugPath == s + "/"
    ensures slugPath == s <==> !EndsWith(slugPath, "/")
  {
    if EndsWith(slugPath, "/") then slugPath[..|slugPath| - 1] else slugPath
  }

  /** The keys `getMdxBySlug` probes for the normalised slug `s`, in order. */
  function Candidates(s: string): seq<string> {
    [s, s + ".mdx", s + ".md", s + "/index", s + "/index.mdx", s + "/index.md"]
  }

  /** The handle of the first of `cands` present in `modules`. */
  function FirstPresent(modules: map<string, nat>, cands: seq<string>): (r: Option<nat>)
    ensures r.None? <==> forall c :: c in cands ==> c !in modules
    ensures r.Some? ==>
      exists i :: 0 <= i < |cands| && cands[i] in modules && r.value == modules[cands[i]]
        && forall j :: 0 <= j < i ==> cands[j] !in modules
  {
    if cands == [] then None
    else if cands[0] in modules then Some(modules[cands[0]])
    else
      var r := FirstPresent(modules, cands[1..]);
      assert forall j :: 1 <= j < |cands| ==> cands[1..][j - 1] == cands[j];
      r
  }

  /** What `getMdxBySlug` returns: a module handle, or `None` for `null`. */
  function Resolve(modules: map<string, nat>, slugPath: string): Option<nat> {
    FirstPresent(modules, Candidates(NormalizeSlug(slugPath)))
  }

  /**
   * `getMdxBySlug`: probe the candidate keys in order and return the first
   * module found. A module's presence stands for `mod?.default` being truthy.
   */
  method GetMdxBySlug(modules: map<string, nat>, slugPath: string) returns (r: Option<nat>)
    ensures r == Resolve(modules, slugPath)
  {
    var s := NormalizeSlug(slugPath);
    var candidates := Candidates(s);
    for i := 0 to |candidates|
      invariant FirstPresent(modules, candidates[i..]) == Resolve(modules, slugPath)
    {
      var key := candidates[i];
      if key in modules {
        return Some(modules[key]);
      }
      assert candidates[i..][1..] == candidates[i + 1..];
    }
    return None;
  }

  /** `hasIndexMdx`: one of `s/index`, `s/index.mdx`, `s/index.md` is a key. */
  function HasIndexMdx(modules: map<string, nat>, slugPath: string): bool {
    var s := NormalizeSlug(slugPath);
    s + "/index" in modules || s + "/index.mdx" in modules || s + "/index.md" in modules
  }

  /**
   * A slug with an index document always resolves; when the slug itself and
   * its `.mdx`/`.md` spellings are absent it resolves to an index document,
   * and then it resolves at all exactly when it has one.
   */
  lemma HasIndexMdxResolves(modules: map<string, nat>, slugPath: string)
    ensures HasIndexMdx(modules, slugPath) ==> Resolve(modules, slugPath).Some?
    ensures var s := NormalizeSlug(slugPath);
      s !in modules && s + ".mdx" !in modules && s + ".md" !in modules ==>
        && (Resolve(modules, slugPath).Some? <==> HasIndexMdx(modules, slugPath))
        && (Resolve(modules, slugPath).Some? ==>
              exists k :: k in {s + "/index", s + "/index.mdx", s + "/index.md"}
                && k in modules && Resolve(modules, slugPath).value == modules[k])
  {
    var s := NormalizeSlug(slugPath);
    var c := Candidates(s);
    assert c[0] == s && c[1] == s + ".mdx" && c[2] == s + ".md";
    assert c[3] == s + "/index" && c[4] == s + "/index.mdx" && c[5] == s + "/index.md";
  }

  /** The prefix a directory slug's documents start with: `s/`, or nothing at the root. */
  function DirPrefix(s: string): (prefix: string)
    ensures prefix == "" || EndsWith(prefix, "/")
  {
    if s == "" then "" else s + "/"
  }

  /**
   * Key `k` passes the filters of `listDirectoryMdxSlugs` for `prefix`: it
   * has a `.md`/`.mdx` extension, lies directly under `prefix`, and is not an
   * `index.md`/`index.mdx` document (in any letter case).
   */
  predicate Listed(k: string, prefix: string) {
    && HasMdExt(k)
    && StartsWith(k, prefix)
    && |k| > |prefix|
    && '/' !in k[|prefix|..]
    && !IsIndexFileName(k[|prefix|..])
  }

  /** The filter/map chain of `listDirectoryMdxSlugs` over `Object.keys(modules)`. */
  function ListedSlugs(keys: seq<string>, prefix: string): (r: seq<string>)
    ensures forall x :: x in r <==> exists k :: k in keys && Listed(k, prefix) && x == StripMdExt(k)
  {
    if keys == [] then []
    else
      var rest := ListedSlugs(keys[..|keys| - 1], prefix);
      var k := keys[|keys| - 1];
      assert keys == keys[..|keys| - 1] + [k];
      if Listed(k, prefix) then rest + [StripMdExt(k)] else rest
  }

  /** `Array.from(new Set(xs))`: first occurrences, in order. */
  function Dedup(xs: seq<string>): (r: seq<string>)
    ensures NoDup(r)
    ensures forall x :: x in r <==> x in xs
  {
    if xs == [] then []
    else
      assert xs == xs[..|xs| - 1] + [xs[|xs| - 1]];
      SetAdd(Dedup(xs[..|xs| - 1]), xs[|xs| - 1])
  }

  /**
   * `listDirectoryMdxSlugs`: the slugs of the documents directly inside the
   * directory `slugPath`, each once, taken from the extension-bearing keys.
   */
  function ListDirectoryMdxSlugs(m: Manifest, slugPath: string): (r: seq<string>)
    ensures NoDup(r)
    ensures forall x :: x in r <==>
      exists k :: k in m.keys && Listed(k, DirPrefix(NormalizeSlug(slugPath))) && x == StripMdExt(k)
  {
    Dedup(ListedSlugs(m.keys, DirPrefix(NormalizeSlug(slugPath))))
  }

  /**
   * Every listed slug is the directory prefix followed by one slash-free
   * segment: the key's last segment with its extension removed, which is
   * never `index`.
   */
  lemma ListedShape(k: string, prefix: string)
    requires prefix == "" || EndsWith(prefix, "/")
    requires Listed(k, prefix)
    ensures StartsWith(StripMdExt(k), prefix)
    ensures StripMdExt(k)[|prefix|..] == StripMdExt(k[|prefix|..])
    ensures '/' !in StripMdExt(k)[|prefix|..]
    ensures StripMdExt(k) != prefix + "index"
  {
    var rest := k[|prefix|..];
    assert k == prefix + rest;
    var n := MdExtLen(k);
    assert n <= |rest|;
    assert MdExtLen(rest) == n;
    assert StripMdExt(k) == prefix + StripMdExt(rest);
  }

  /**
   * Only one extension is stripped, so a listed slug can still carry one:
   * a root-level document `a.md.md` is listed as `a.md`.
   */
  lemma ListedSlugKeepsExtension(entries: seq<string>)
    requires entries == ["a.md.md"]
    ensures "a.md" in ListDirectoryMdxSlugs(Generate(true, entries), "") && HasMdExt("a.md")
  {
    DoubleExtension(entries[0]);
    ListedAtRoot(entries, entries[0], "a.md");
  }

  /** The only path of a manifest, when it is listed at the root, is listed as its stem. */
  lemma ListedAtRoot(entries: seq<string>, k: string, x: string)
    requires entries == [k] && k != "" && '\\' !in k
    requires Listed(k, "") && x == StripMdExt(k)
    ensures x in ListDirectoryMdxSlugs(Generate(true, entries), "")
  {
    OnlyEntryIsKey(entries, k);
    assert NormalizeSlug("") == "" && DirPrefix("") == "";
  }

  /** A manifest of one backslash-free, non-empty path has that path as a key. */
  lemma OnlyEntryIsKey(entries: seq<string>, k: string)
    requires entries == [k] && k != "" && '\\' !in k
    ensures k in Generate(true, entries).keys
  {
    var m := Generate(true, entries);
    ReplaceBackslashesNoop(k);
    assert m.paths[0] == k;
    assert Registers(m.paths[0], k);
    ModulesLastWriterWins(entries, k);
  }

  lemma DoubleExtension(k: string)
    requires k == "a.md.md"
    ensures k != "" && '\\' !in k
    ensures Listed(k, "") && StripMdExt(k) == "a.md" && HasMdExt("a.md")
  {
    assert MdExtLen(k) == 3;
    assert k[..4] == "a.md";
    assert k[0..] == k;
    assert forall i :: 0 <= i < |k| ==> k[i] != '/';
  }

  /** A node of the tree `listDirectoryTree` builds: `true`, or an object of children. */
  datatype DirTree = Leaf | Branch(children: map<string, DirTree>)

  /** The subtree reached by following the segments of `path` from `t`. */
  function Lookup(t: DirTree, path: seq<string>): Option<DirTree> {
    if path == [] then Some(t)
    else if t.Branch? && path[0] in t.children then Lookup(t.children[path[0]], path[1..])
    else None
  }

  /** No leaf anywhere in `t` is named `index`. */
  predicate NoIndexLeaf(t: DirTree) {
    match t
    case Leaf => true
    case Branch(m) => forall k :: k in m ==> (m[k].Leaf? ==> k != "index") && NoIndexLeaf(m[k])
  }

  /**
   * The inner loop of `listDirectoryTree` for one file: walk the cursor
   * through all but the last segment, turning a leaf into an empty branch and
   * creating missing branches, then mark the last segment a leaf (replacing
   * whatever was there) unless it is exactly `index`.
   */
  function Insert(node: map<string, DirTree>, parts: seq<string>): map<string, DirTree>
    requires |parts| >= 1
    decreases |parts|
  {
    var seg := parts[0];
    if |parts| == 1 then
      if seg != "index" then node[seg := Leaf] else node
    else
      var child := if seg in node && node[seg].Branch? then node[seg].children else map[];
      node[seg := Branch(Insert(child, parts[1..]))]
  }

  /** The extension-stripped paths that lie under `prefix`, in order. */
  function TreeFiles(paths: seq<string>, prefix: string): (files: seq<string>)
    ensures forall f :: f in files ==> StartsWith(f, prefix)
  {
    if paths == [] then []
    else
      var rest := TreeFiles(paths[..|paths| - 1], prefix);
      var f := StripMdExt(paths[|paths| - 1]);
      assert paths == paths[..|paths| - 1] + [paths[|paths| - 1]];
      if StartsWith(f, prefix) then rest + [f] else rest
  }

  /**
   * The files `listDirectoryTree` inserts are exactly the extension-stripped
   * manifest paths that lie under `prefix`.
   */
  lemma {:induction false} TreeFilesMembers(paths: seq<string>, prefix: string)
    ensures forall f :: f in TreeFiles(paths, prefix) <==>
      exists p :: p in paths && f == StripMdExt(p) && StartsWith(f, prefix)
    decreases |paths|
  {
    if paths != [] {
      var n := |paths| - 1;
      TreeFilesMembers(paths[..n], prefix);
      assert paths == paths[..n] + [paths[n]];
      forall f | f in TreeFiles(paths, prefix)
        ensures exists p :: p in paths && f == StripMdExt(p) && StartsWith(f, prefix)
      {
        if f in TreeFiles(paths[..n], prefix) {
          var p :| p in paths[..n] && f == StripMdExt(p) && StartsWith(f, prefix);
          assert p in paths;
        } else {
          assert paths[n] in paths;
        }
      }
      forall f | exists p :: p in paths && f == StripMdExt(p) && StartsWith(f, prefix)
        ensures f in TreeFiles(paths, prefix)
      {
        var p :| p in paths && f == StripMdExt(p) && StartsWith(f, prefix);
        if p in paths[..n] {
          assert f in TreeFiles(paths[..n], prefix);
        } else {
          assert p == paths[n];
        }
      }
    }
  }

  /** The tree built from `files`, each relative to `prefix`, inserted in order. */
  function BuildTree(files: seq<string>, prefix: string): map<string, DirTree>
    requires forall f :: f in files ==> StartsWith(f, prefix)
  {
    if files == [] then map[]
    else
      var last := files[|files| - 1];
      assert last in files && StartsWith(last, prefix);
      Insert(BuildTree(files[..|files| - 1], prefix), Split(last[|prefix|..]))
  }

  /** What `listDirectoryTree(slugPath)` returns for the manifest paths `paths`. */
  function DirectoryTree(paths: seq<string>, slugPath: string): map<string, DirTree> {
    var prefix := DirPrefix(NormalizeSlug(slugPath));
    BuildTree(TreeFiles(paths, prefix), prefix)
  }

  /** `TreeFiles` keeps exactly the given stems when every path strips to its stem under `prefix`. */
  lemma {:induction false} TreeFilesAllUnder(paths: seq<string>, stems: seq<string>, prefix: string)
    requires |paths| == |stems|
    requires forall i :: 0 <= i < |paths| ==> StripMdExt(paths[i]) == stems[i] && StartsWith(stems[i], prefix)
    ensures TreeFiles(paths, prefix) == stems
    decreases |paths|
  {
    if paths != [] {
      var n := |paths| - 1;
      TreeFilesAllUnder(paths[..n], stems[..n], prefix);
      assert stems == stems[..n] + [stems[n]];
    }
  }

  /** `TreeFiles` keeps nothing of paths that all strip to something outside `prefix`. */
  lemma {:induction false} TreeFilesNoneUnder(paths: seq<string>, prefix: string)
    requires forall i :: 0 <= i < |paths| ==> !StartsWith(StripMdExt(paths[i]), prefix)
    ensures TreeFiles(paths, prefix) == []
    decreases |paths|
  {
    if paths != [] {
      var n := |paths| - 1;
      TreeFilesNoneUnder(paths[..n], prefix);
    }
  }

  /** `TreeFiles` distributes over concatenation: it is a filter followed by a map. */
  lemma {:induction false} TreeFilesAppend(a: seq<string>, b: seq<string>, prefix: string)
    ensures TreeFiles(a + b, prefix) == TreeFiles(a, prefix) + TreeFiles(b, prefix)
    decreases |b|
  {
    if b == [] {
      assert a + b == a;
    } else {
      var n := |b| - 1;
      TreeFilesAppend(a, b[..n], prefix);
      var ab := a + b;
      assert ab[..|ab| - 1] == a + b[..n] && ab[|ab| - 1] == b[n];
    }
  }

  /** Building the tree from one more file inserts that file's segments into the tree so far. */
  lemma BuildTreePrefix(files: seq<string>, k: nat, prefix: string)
    requires 0 < k <= |files|
    requires forall g :: g in files ==> StartsWith(g, prefix)
    ensures StartsWith(files[k - 1], prefix)
    ensures BuildTree(files[..k], prefix) == Insert(BuildTree(files[..k - 1], prefix), Split(files[k - 1][|prefix|..]))
  {
    assert files[k - 1] in files;
    assert files[..k][..k - 1] == files[..k - 1];
  }

  /** Inserting a two-segment file: the first segment becomes a directory holding the second. */
  lemma InsertTwo(node: map<string, DirTree>, a: string, b: string)
    ensures Insert(node, [a, b]) ==
      node[a := Branch(Insert(if a in node && node[a].Branch? then node[a].children else map[], [b]))]
  {
    assert [a, b][1..] == [b];
  }

  lemma {:induction false} InsertNoIndexLeaf(node: map<string, DirTree>, parts: seq<string>)
    requires |parts| >= 1
    requires NoIndexLeaf(Branch(node))
    ensures NoIndexLeaf(Branch(Insert(node, parts)))
    decreases |parts|
  {
    if |parts| > 1 {
      var seg := parts[0];
      var child := if seg in node && node[seg].Branch? then node[seg].children else map[];
      assert NoIndexLeaf(Branch(child));
      InsertNoIndexLeaf(child, parts[1..]);
    }
  }

  /**
   * `listDirectoryTree`: insert every qualifying file into the tree, in
   * manifest order. No leaf of the result is named `index`.
   */
  method ListDirectoryTree(paths: seq<string>, slugPath: string) returns (tree: map<string, DirTree>)
    ensures tree == DirectoryTree(paths, slugPath)
    ensures NoIndexLeaf(Branch(tree))
  {
    var s := NormalizeSlug(slugPath);
    var prefix := DirPrefix(s);
    var files := TreeFiles(paths, prefix);
    tree := map[];
    for n := 0 to |files|
      invariant tree == BuildTree(files[..n], prefix)
      invariant NoIndexLeaf(Branch(tree))
    {
      var full := files[n];
      assert full in files;
      var rel := full[|prefix|..];
      var parts := Split(rel);
      InsertNoIndexLeaf(tree, parts);
      tree := Insert(tree, parts);
      assert files[..n + 1][..n] == files[..n];
    }
    assert files[..|files|] == files;
  }

  /**
   * Right after a file is inserted, every segment before its last is a
   * branch, and its last segment is a leaf unless it is `index`.
   */
  lemma {:induction false} InsertPath(node: map<string, DirTree>, parts: seq<string>, j: nat)
    requires |parts| >= 1 && 1 <= j <= |parts|
    ensures j < |parts| ==>
      Lookup(Branch(Insert(node, parts)), parts[..j]).Some?
      && Lookup(Branch(Insert(node, parts)), parts[..j]).value.Branch?
    ensures j == |parts| && parts[|parts| - 1] != "index" ==>
      Lookup(Branch(Insert(node, parts)), parts) == Some(Leaf)
    decreases |parts|
  {
    var seg := parts[0];
    var t := Insert(node, parts);
    if |parts| > 1 {
      var child := if seg in node && node[seg].Branch? then node[seg].children else map[];
      assert t[seg] == Branch(Insert(child, parts[1..]));
      if j > 1 {
        InsertPath(child, parts[1..], j - 1);
        assert parts[..j][1..] == parts[1..][..j - 1];
      }
      assert parts[..j][0] == seg;
    }
  }

  /** Inserting a file leaves every path that leaves its route untouched. */
  lemma {:induction false} InsertFrame(node: map<string, DirTree>, parts: seq<string>, path: seq<string>, d: nat)
    requires |parts| >= 1
    requires d < |path| && d < |parts| && path[d] != parts[d] && path[..d] == parts[..d]
    ensures Lookup(Branch(Insert(node, parts)), path) == Lookup(Branch(node), path)
    decreases |parts|
  {
    var seg := parts[0];
    if d > 0 {
      assert path[0] == seg;
      var child := if seg in node && node[seg].Branch? then node[seg].children else map[];
      assert |parts| > 1;
      assert path[1..][..d - 1] == parts[1..][..d - 1];
      InsertFrame(child, parts[1..], path[1..], d - 1);
      assert Lookup(Branch(child), path[1..]) == Lookup(Branch(node), path) by {
        if seg in node && node[seg].Branch? {
        } else if seg in node {
          assert node[seg] == Leaf;
        }
      }
    }
  }

  /**
   * Any key a discovered file registers, requested as a slug, resolves to
   * that file, unless a later file registers the same key or the key ends
   * in `/` (the request's trailing slash is trimmed first).
   */
  lemma ResolveOwnKey(entries: seq<string>, i: nat, k: string)
    requires i < |entries|
    requires Registers(Generate(true, entries).paths[i], k)
    requires forall j :: i < j < |entries| ==> !Registers(Generate(true, entries).paths[j], k)
    requires !EndsWith(k, "/")
    ensures Resolve(Generate(true, entries).modules, k) == Some(i)
  {
    OwnKeysResolveToFile(entries, i, k);
    ResolveExactKey(Generate(true, entries).modules, k);
  }

  /** A slug without a trailing slash that is itself a key resolves to that key's module. */
  lemma ResolveExactKey(modules: map<string, nat>, k: string)
    requires k in modules && !EndsWith(k, "/")
    ensures Resolve(modules, k) == Some(modules[k])
  {
    assert Candidates(NormalizeSlug(k))[0] == k;
  }

  /**
   * An index document `dir/index.md` resolves both as `dir` and as
   * `dir/index`, unless a later file claims those keys.
   */
  lemma ResolveIndexDocument(entries: seq<string>, i: nat, dir: string)
    requires i < |entries|
    requires Generate(true, entries).paths[i] == dir + "/index.md"
    requires dir != "" && !EndsWith(dir, "/")
    requires forall j :: i < j < |entries| ==>
      !Registers(Generate(true, entries).paths[j], dir)
      && !Registers(Generate(true, entries).paths[j], dir + "/index")
    ensures Resolve(Generate(true, entries).modules, dir) == Some(i)
    ensures Resolve(Generate(true, entries).modules, dir + "/index") == Some(i)
  {
    IndexDocumentKeys(dir);
    ResolveOwnKey(entries, i, dir);
    assert (dir + "/index")[|dir + "/index"| - 1] == 'x';
    ResolveOwnKey(entries, i, dir + "/index");
  }

  /** `dir/index.md` registers `dir` and `dir/index`. */
  lemma IndexDocumentKeys(dir: string)
    requires dir != ""
    ensures Registers(dir + "/index.md", dir) && Registers(dir + "/index.md", dir + "/index")
  {
    var rel := dir + "/index.md";
    ToSlugIndexDocument(dir);
    assert StripMdExt(rel) == dir + "/index";
  }

  /** A root-level `index.md` registers exactly `index.md` and `index`. */
  lemma RootIndexKeys()
    ensures forall k :: Registers("index.md", k) <==> k == "index.md" || k == "index"
  {
    ToSlugRootIndex();
    assert StripMdExt("index.md") == "index";
  }

  /**
   * A root-level `index.md` is registered as `index.md` and `index`, so the
   * empty slug, which probes `""`, `.mdx`, `.md`, `/index`, `/index.mdx` and
   * `/index.md`, does not reach it; only `index` does.
   */
  lemma RootIndexUnreachable()
    ensures Resolve(Generate(true, ["index.md"]).modules, "") == None
    ensures Resolve(Generate(true, ["index.md"]).modules, "index") == Some(0)
  {
    RootSlugMisses();
    IndexSlugHits(["index.md"]);
  }

  lemma RootSlugMisses()
    ensures Resolve(Generate(true, ["index.md"]).modules, "") == None
  {
    assert NormalizeSlug("") == "";
    var cands := Candidates("");
    forall k | k in cands
      ensures k !in Generate(true, ["index.md"]).modules
    {
      assert |k| != 5 && |k| != 8;
      RootIndexModules(["index.md"], k);
    }
  }

  lemma IndexSlugHits(entries: seq<string>)
    requires entries == ["index.md"]
    ensures Resolve(Generate(true, entries).modules, "index") == Some(0)
  {
    var m := Generate(true, entries);
    RootIndexModules(entries, "index");
    ModulesLastWriterWins(entries, "index");
    assert |m.paths| == 1;
    ResolveExactKey(m.modules, "index");
  }

  lemma RootIndexManifest()
    ensures Generate(true, ["index.md"]).paths == ["index.md"]
  {
    ReplaceBackslashesNoop("index.md");
  }

  lemma RootIndexModules(entries: seq<string>, k: string)
    requires entries == ["index.md"]
    ensures k in Generate(true, entries).modules <==> k == "index.md" || k == "index"
  {
    RootIndexManifest();
    RootIndexKeys();
    ModulesLastWriterWins(entries, k);
  }

  /**
   * The tree depends on the order of the paths: a later document `a.md`
   * replaces the directory `a` by a leaf, while a later `a/b.md` turns the
   * leaf `a` back into a directory.
   */
  lemma DirectoryTreeOrderMatters()
    ensures DirectoryTree(["a/b.md", "a.md"], "") == map["a" := Leaf]
    ensures DirectoryTree(["a.md", "a/b.md"], "") == map["a" := Branch(map["b" := Leaf])]
  {
    assert NormalizeSlug("") == "" && DirPrefix("") == "";
    LeafLastFiles();
    LeafLastTree();
    DirectoryLastFiles();
    DirectoryLastTree();
  }

  lemma LeafLastFiles()
    ensures TreeFiles(["a/b.md", "a.md"], "") == ["a/b", "a"]
  {
    SmallTreeFiles();
    assert ["a/b.md", "a.md"][..1] == ["a/b.md"];
    assert StripMdExt("a.md") == "a" && StartsWith("a", "");
  }

  lemma DirectoryLastFiles()
    ensures TreeFiles(["a.md", "a/b.md"], "") == ["a", "a/b"]
  {
    SmallTreeFiles();
    assert ["a.md", "a/b.md"][..1] == ["a.md"];
    assert StripMdExt("a/b.md") == "a/b" && StartsWith("a/b", "");
  }

  lemma LeafLastTree()
    ensures BuildTree(["a/b", "a"], "") == map["a" := Leaf]
  {
    SmallTrees();
    assert ["a/b", "a"][..1] == ["a/b"];
    assert Insert(map["a" := Branch(map["b" := Leaf])], ["a"]) == map["a" := Leaf];
  }

  lemma DirectoryLastTree()
    ensures BuildTree(["a", "a/b"], "") == map["a" := Branch(map["b" := Leaf])]
  {
    SmallTrees();
    assert ["a", "a/b"][..1] == ["a"];
    assert ["a", "b"][1..] == ["b"];
    assert Insert(map[], ["b"]) == map["b" := Leaf];
    assert Insert(map["a" := Leaf], ["a", "b"]) == map["a" := Branch(map["b" := Leaf])];
  }

  lemma SmallTreeFiles()
    ensures TreeFiles(["a/b.md"], "") == ["a/b"]
    ensures TreeFiles(["a.md"], "") == ["a"]
  {
    assert StripMdExt("a/b.md") == "a/b" && StripMdExt("a.md") == "a";
    assert ["a/b.md"][..0] == [] && ["a.md"][..0] == [];
  }

  lemma SmallTrees()
    ensures Split("a/b") == ["a", "b"] && Split("a") == ["a"]
    ensures BuildTree(["a/b"], "") == map["a" := Branch(map["b" := Leaf])]
    ensures BuildTree(["a"], "") == map["a" := Leaf]
  {
    SplitAB();
    SplitSegment("a");
    OneFileTree("a/b", ["a", "b"]);
    OneFileTree("a", ["a"]);
    assert ["a", "b"][1..] == ["b"];
  }

  lemma SplitAB()
    ensures Split("a/b") == ["a", "b"]
  {
    assert '/' !in "a" && '/' !in "b";
    SplitSegments("a", "b");
    assert "a" + "/" + "b" == "a/b";
  }

  /** The tree of one file at the root is the insertion of its labels. */
  lemma OneFileTree(f: string, parts: seq<string>)
    requires Split(f) == parts
    ensures |parts| >= 1 && BuildTree([f], "") == Insert(map[], parts)
  {
    assert [f][..0] == [];
    assert f[0..] == f;
  }

}
